/** `app/products/page.tsx`: the browse page's filters, sort orders, brand
    list, price range and the "Clear all" condition. The catalog is an
    input; so are the debounced search text, the outcomes of the stock
    simulation's `Math.random() > 0.3` draws, and the collation used by
    `localeCompare`. */
module Products {
  import opened Wrappers
  import opened Text
  import opened Seqs
  import opened Sorting
  import opened Catalog

  /** A price box: empty (`''`) or the number typed into it. */
  datatype PriceField = Blank | Entered(number: NumberValue)

  /** A bound takes part in filtering only when it is truthy. */
  predicate Bounds(p: PriceField) {
    p.Entered? && Truthy(p.number)
  }

  /** The page's filter state. */
  datatype Filters = Filters(
    brand: string,
    searchQuery: string,
    minPrice: PriceField,
    maxPrice: PriceField,
    sortBy: string,
    inStockOnly: bool)

  /** Every filter at its default, as `clearFilters` leaves them. */
  const Cleared := Filters("", "", Blank, Blank, "newest", false)

  // ---------------------------------------------------------------------
  // Filtering

  /** The lower-cased query is part of the lower-cased name or brand. */
  predicate MatchesSearch(query: string, l: Laptop) {
    query == "" || Includes(Lower(l.name), Lower(query)) || Includes(Lower(l.brand), Lower(query))
  }

  predicate MatchesBrand(brand: string, l: Laptop) {
    brand == "" || l.brand == brand
  }

  predicate MatchesMin(minPrice: PriceField, l: Laptop) {
    !Bounds(minPrice) || l.priceKES >= minPrice.number.value
  }

  predicate MatchesMax(maxPrice: PriceField, l: Laptop) {
    !Bounds(maxPrice) || l.priceKES <= maxPrice.number.value
  }

  /** The deterministic part of the filter: search, brand and both bounds. */
  predicate Matches(f: Filters, search: string, l: Laptop) {
    MatchesSearch(search, l) && MatchesBrand(f.brand, l) && MatchesMin(f.minPrice, l) && MatchesMax(f.maxPrice, l)
  }

  /** The filters as predicates over laptops, one per control. */
  function SearchFilter(search: string): Laptop -> bool {
    l => MatchesSearch(search, l)
  }

  function BrandFilter(brand: string): Laptop -> bool {
    l => MatchesBrand(brand, l)
  }

  function MinFilter(minPrice: PriceField): Laptop -> bool {
    l => MatchesMin(minPrice, l)
  }

  function MaxFilter(maxPrice: PriceField): Laptop -> bool {
    l => MatchesMax(maxPrice, l)
  }

  function Selected(f: Filters, search: string): Laptop -> bool {
    l => Matches(f, search, l)
  }

  /** The `result.filter(...)` step. `draws[i]` is the outcome of the
      random draw made for `catalog[i]`; it matters only when "In stock
      only" is ticked. */
  function FilterCatalog(catalog: seq<Laptop>, f: Filters, search: string, draws: seq<bool>): (r: seq<Laptop>)
    requires |draws| == |catalog|
    ensures |r| <= |catalog|
    ensures forall x :: x in r ==> x in catalog && Matches(f, search, x)
    decreases |catalog|
  {
    if catalog == [] then []
    else
      var keep := Matches(f, search, catalog[0]) && (!f.inStockOnly || draws[0]);
      (if keep then [catalog[0]] else []) + FilterCatalog(catalog[1..], f, search, draws[1..])
  }

  /** Without the stock simulation the filter is the plain conjunction,
      in catalog order. */
  lemma {:induction false} FilterWithoutStock(catalog: seq<Laptop>, f: Filters, search: string, draws: seq<bool>)
    requires |draws| == |catalog| && !f.inStockOnly
    ensures FilterCatalog(catalog, f, search, draws) == Where(catalog, Selected(f, search))
    decreases |catalog|
  {
    if catalog != [] {
      FilterWithoutStock(catalog[1..], f, search, draws[1..]);
    }
  }

  /** With the stock simulation the result is still an order-preserving
      selection of the products that pass the other filters; when every
      draw succeeds it is all of them. */
  lemma {:induction false} FilterWithStock(catalog: seq<Laptop>, f: Filters, search: string, draws: seq<bool>)
    requires |draws| == |catalog|
    ensures IsSubsequence(FilterCatalog(catalog, f, search, draws), Where(catalog, Selected(f, search)))
    ensures (forall i :: 0 <= i < |draws| ==> draws[i]) ==>
      FilterCatalog(catalog, f, search, draws) == Where(catalog, Selected(f, search))
    decreases |catalog|
  {
    if catalog != [] {
      var c := catalog[0];
      FilterWithStock(catalog[1..], f, search, draws[1..]);
      var rest := FilterCatalog(catalog[1..], f, search, draws[1..]);
      var all := Where(catalog[1..], Selected(f, search));
      assert (forall i :: 0 <= i < |draws| ==> draws[i]) ==> (forall i :: 0 <= i < |draws[1..]| ==> draws[1..][i]);
      if Matches(f, search, c) {
        assert Where(catalog, Selected(f, search)) == [c] + all;
        if !f.inStockOnly || draws[0] {
          assert FilterCatalog(catalog, f, search, draws) == [c] + rest;
          assert ([c] + rest)[1..] == rest;
          assert ([c] + all)[1..] == all;
        } else {
          assert FilterCatalog(catalog, f, search, draws) == rest;
          SubsequenceOfTail(rest, [c] + all);
        }
      } else {
        assert Where(catalog, Selected(f, search)) == all;
        assert FilterCatalog(catalog, f, search, draws) == rest;
      }
    }
  }

  /** The filters are independent: applying them one after another gives
      the same products as the conjunction. */
  lemma FiltersCompose(catalog: seq<Laptop>, f: Filters, search: string)
    ensures Where(catalog, Selected(f, search)) ==
      Where(Where(Where(Where(catalog, SearchFilter(search)), BrandFilter(f.brand)),
        MinFilter(f.minPrice)), MaxFilter(f.maxPrice))
  {
    WhereFour(catalog, SearchFilter(search), BrandFilter(f.brand), MinFilter(f.minPrice),
      MaxFilter(f.maxPrice), Selected(f, search));
  }

  /** The order in which the filters are applied does not matter: the price
      bounds first, then search and brand, gives the same products. */
  lemma FiltersCommute(catalog: seq<Laptop>, f: Filters, search: string)
    ensures Where(catalog, Selected(f, search)) ==
      Where(Where(Where(Where(catalog, MinFilter(f.minPrice)), MaxFilter(f.maxPrice)),
        SearchFilter(search)), BrandFilter(f.brand))
  {
    WhereFour(catalog, MinFilter(f.minPrice), MaxFilter(f.maxPrice), SearchFilter(search),
      BrandFilter(f.brand), Selected(f, search));
  }

  /** A filter left empty, unticked or at 0 lets every product through. */
  lemma InactiveFiltersKeepAll(catalog: seq<Laptop>, f: Filters, search: string, draws: seq<bool>)
    requires |draws| == |catalog|
    requires search == "" && f.brand == "" && !Bounds(f.minPrice) && !Bounds(f.maxPrice) && !f.inStockOnly
    ensures FilterCatalog(catalog, f, search, draws) == catalog
  {
    FilterWithoutStock(catalog, f, search, draws);
    WhereAll(catalog, Selected(f, search));
  }

  /** Choosing a brand no product has leaves nothing to show. */
  lemma {:induction false} UnknownBrandShowsNothing(catalog: seq<Laptop>, f: Filters, search: string, draws: seq<bool>)
    requires |draws| == |catalog|
    requires f.brand != "" && forall i :: 0 <= i < |catalog| ==> catalog[i].brand != f.brand
    ensures FilterCatalog(catalog, f, search, draws) == []
    decreases |catalog|
  {
    if catalog != [] {
      assert forall i :: 0 <= i < |catalog[1..]| ==> catalog[1..][i] == catalog[i + 1];
      UnknownBrandShowsNothing(catalog[1..], f, search, draws[1..]);
    }
  }

  /** Search ignores case and finds a product by its own name or brand. */
  lemma SearchIgnoresCase(query: string, l: Laptop)
    ensures MatchesSearch(Lower(query), l) == MatchesSearch(query, l)
    ensures MatchesSearch(l.name, l) && MatchesSearch(l.brand, l)
  {
    LowerIdempotent(query);
    if Lower(query) == "" {
      assert |query| == 0;
    }
    IncludesItself(Lower(l.name));
    IncludesItself(Lower(l.brand));
  }

  lemma IncludesItself(s: string)
    ensures Includes(s, s)
  {
    assert s[..|s|] == s;
  }

  /** Both bounds are inclusive. */
  lemma PriceWindow(lo: int, hi: int, l: Laptop)
    requires lo != 0 && hi != 0
    ensures MatchesMin(Entered(Finite(lo)), l) && MatchesMax(Entered(Finite(hi)), l) <==> lo <= l.priceKES <= hi
  {
  }

  // ---------------------------------------------------------------------
  // Sorting

  /** The comparator `result.sort` is given for each `sortBy`. `collate`
      stands for `localeCompare`. Unknown keys, like `newest`, compare
      everything as equal. */
  function Comparator(sortBy: string, collate: (string, string) -> int): (Laptop, Laptop) -> int {
    if sortBy == "price-asc" then (a: Laptop, b: Laptop) => a.priceKES - b.priceKES
    else if sortBy == "price-desc" then (a: Laptop, b: Laptop) => b.priceKES - a.priceKES
    else if sortBy == "name-asc" then (a: Laptop, b: Laptop) => collate(a.name, b.name)
    else if sortBy == "name-desc" then (a: Laptop, b: Laptop) => collate(b.name, a.name)
    else (a: Laptop, b: Laptop) => 0
  }

  predicate NamedSort(sortBy: string) {
    sortBy in ["price-asc", "price-desc", "name-asc", "name-desc"]
  }

  /** What the page lists: the filtered products in the chosen order. */
  function Listing(catalog: seq<Laptop>, f: Filters, search: string, draws: seq<bool>,
                   collate: (string, string) -> int): seq<Laptop>
    requires |draws| == |catalog|
  {
    SortBy(FilterCatalog(catalog, f, search, draws), Comparator(f.sortBy, collate))
  }

  /** `filteredProducts`: filters a copy of the catalog, then sorts it in place. */
  method FilteredProducts(catalog: seq<Laptop>, f: Filters, search: string, draws: seq<bool>,
                          collate: (string, string) -> int) returns (result: seq<Laptop>)
    requires |draws| == |catalog|
    ensures result == Listing(catalog, f, search, draws, collate)
    ensures multiset(result) == multiset(FilterCatalog(catalog, f, search, draws))
    ensures f.sortBy == "price-asc" ==> forall i, j :: 0 <= i < j < |result| ==> result[i].priceKES <= result[j].priceKES
    ensures f.sortBy == "price-desc" ==> forall i, j :: 0 <= i < j < |result| ==> result[i].priceKES >= result[j].priceKES
    ensures !NamedSort(f.sortBy) ==> result == FilterCatalog(catalog, f, search, draws)
  {
    var filtered := FilterCatalog(catalog, f, search, draws);
    var a := new Laptop[|filtered|](i requires 0 <= i < |filtered| => filtered[i]);
    assert a[..] == filtered;
    SortInPlace(a, Comparator(f.sortBy, collate));
    result := a[..];
    SortIsPermutation(filtered, Comparator(f.sortBy, collate));
    if f.sortBy == "price-asc" || f.sortBy == "price-desc" {
      PriceComparatorsConsistent(f.sortBy, collate);
      SortIsSorted(filtered, Comparator(f.sortBy, collate));
    } else if !NamedSort(f.sortBy) {
      SortKeepsSorted(filtered, Comparator(f.sortBy, collate));
    }
  }

  lemma PriceComparatorsConsistent(sortBy: string, collate: (string, string) -> int)
    requires sortBy == "price-asc" || sortBy == "price-desc"
    ensures Consistent(Comparator(sortBy, collate))
  {
  }

  /** The name sorts order by the collation, ascending or descending,
      whenever the collation is itself a consistent comparator. */
  lemma NameSortsFollowCollation(s: seq<Laptop>, sortBy: string, collate: (string, string) -> int)
    requires sortBy == "name-asc" || sortBy == "name-desc"
    requires Consistent(collate)
    ensures var r := SortBy(s, Comparator(sortBy, collate));
      forall i, j :: 0 <= i < j < |r| ==>
        (if sortBy == "name-asc" then collate(r[i].name, r[j].name) else collate(r[j].name, r[i].name)) <= 0
  {
    var cmp := Comparator(sortBy, collate);
    forall a: Laptop, b: Laptop | cmp(a, b) > 0 ensures cmp(b, a) < 0 {
      if sortBy == "name-asc" {
        assert collate(a.name, b.name) > 0;
      } else {
        assert collate(b.name, a.name) > 0;
      }
    }
    forall a: Laptop, b: Laptop, c: Laptop | cmp(a, b) <= 0 && cmp(b, c) <= 0 ensures cmp(a, c) <= 0 {
      if sortBy == "name-asc" {
        assert collate(a.name, b.name) <= 0 && collate(b.name, c.name) <= 0;
      } else {
        assert collate(c.name, b.name) <= 0 && collate(b.name, a.name) <= 0;
      }
    }
    SortIsSorted(s, cmp);
  }

  /** Products at the same price keep their catalog order under both price
      sorts, and under every other key the order is left as it was. */
  lemma PriceSortsAreStable(s: seq<Laptop>, sortBy: string, collate: (string, string) -> int, price: nat)
    requires sortBy == "price-asc" || sortBy == "price-desc"
    ensures Where(SortBy(s, Comparator(sortBy, collate)), (l: Laptop) => l.priceKES == price) == Where(s, (l: Laptop) => l.priceKES == price)
  {
    SortIsStable(s, Comparator(sortBy, collate), (l: Laptop) => l.priceKES == price);
  }

  // ---------------------------------------------------------------------
  // Brands and price range

  /** `new Set(xs)` read back in insertion order: first occurrences only. */
  function Dedup(xs: seq<string>): (r: seq<string>)
    ensures Distinct(r)
    ensures forall x :: x in r <==> x in xs
    decreases |xs|
  {
    if xs == [] then []
    else
      var d := Dedup(xs[..|xs| - 1]);
      var last := xs[|xs| - 1];
      assert xs == xs[..|xs| - 1] + [last];
      if last in d then d else d + [last]
  }

  /** The default order of `Array.prototype.sort`: string comparison. */
  function StringCompare(a: string, b: string): int {
    if a == b then 0 else if LexLe(a, b) then -1 else 1
  }

  /** `brands`: each brand of the catalog once, in string order. */
  function Brands(catalog: seq<Laptop>): seq<string> {
    SortBy(Dedup(BrandColumn(catalog)), StringCompare)
  }

  lemma StringCompareConsistent()
    ensures Consistent(StringCompare)
  {
    forall a: string, b: string | StringCompare(a, b) > 0 ensures StringCompare(b, a) < 0 {
      LexLeTotal(a, b);
    }
    forall a: string, b: string, c: string | StringCompare(a, b) <= 0 && StringCompare(b, c) <= 0
      ensures StringCompare(a, c) <= 0
    {
      if a != b && b != c {
        LexLeTransitive(a, b, c);
      }
    }
  }

  /** The catalog's brands, in catalog order. */
  function BrandColumn(catalog: seq<Laptop>): (bs: seq<string>)
    ensures |bs| == |catalog|
    ensures forall i :: 0 <= i < |catalog| ==> bs[i] == catalog[i].brand
  {
    seq(|catalog|, i requires 0 <= i < |catalog| => catalog[i].brand)
  }

  /** The brand list has no duplicates and is strictly increasing. */
  lemma BrandsOrdered(catalog: seq<Laptop>)
    ensures Distinct(Brands(catalog))
    ensures forall i, j :: 0 <= i < j < |Brands(catalog)| ==>
      LexLe(Brands(catalog)[i], Brands(catalog)[j]) && Brands(catalog)[i] != Brands(catalog)[j]
  {
    var d := Dedup(BrandColumn(catalog));
    assert Brands(catalog) == SortBy(d, StringCompare);
    SortIsPermutation(d, StringCompare);
    DistinctPermutation(d, Brands(catalog));
    StringCompareConsistent();
    SortIsSorted(d, StringCompare);
  }

  /** The brand list holds a brand exactly when some laptop has it. */
  lemma BrandsComplete(catalog: seq<Laptop>, b: string)
    ensures b in Brands(catalog) <==> exists i :: 0 <= i < |catalog| && catalog[i].brand == b
  {
    var all := BrandColumn(catalog);
    var d := Dedup(all);
    assert Brands(catalog) == SortBy(d, StringCompare);
    SortIsPermutation(d, StringCompare);
    assert b in Brands(catalog) <==> b in multiset(d);
    if b in all {
      var i :| 0 <= i < |all| && all[i] == b;
      assert catalog[i].brand == b;
    }
  }

  /** `Math.min(...prices)` and `Math.max(...prices)` range over the
      extended numbers: with no prices they give `Infinity` and
      `-Infinity`. */
  datatype Extended = NegInfinity | Num(n: int) | PosInfinity

  function MinPrice(catalog: seq<Laptop>): (m: Extended)
    ensures catalog == [] <==> m == PosInfinity
    ensures m.Num? ==> forall i :: 0 <= i < |catalog| ==> m.n <= catalog[i].priceKES
    ensures m.Num? ==> exists i :: 0 <= i < |catalog| && catalog[i].priceKES == m.n
    decreases |catalog|
  {
    if catalog == [] then PosInfinity
    else
      var rest := MinPrice(catalog[1..]);
      if rest.Num? && rest.n < catalog[0].priceKES then
        assert forall i :: 1 <= i < |catalog| ==> catalog[i] == catalog[1..][i - 1];
        var k :| 0 <= k < |catalog[1..]| && catalog[1..][k].priceKES == rest.n;
        assert catalog[k + 1].priceKES == rest.n;
        rest
      else
        assert forall i :: 1 <= i < |catalog| ==> catalog[i] == catalog[1..][i - 1];
        Num(catalog[0].priceKES)
  }

  function MaxPrice(catalog: seq<Laptop>): (m: Extended)
    ensures catalog == [] <==> m == NegInfinity
    ensures m.Num? ==> forall i :: 0 <= i < |catalog| ==> catalog[i].priceKES <= m.n
    ensures m.Num? ==> exists i :: 0 <= i < |catalog| && catalog[i].priceKES == m.n
    decreases |catalog|
  {
    if catalog == [] then NegInfinity
    else
      var rest := MaxPrice(catalog[1..]);
      if rest.Num? && rest.n > catalog[0].priceKES then
        assert forall i :: 1 <= i < |catalog| ==> catalog[i] == catalog[1..][i - 1];
        var k :| 0 <= k < |catalog[1..]| && catalog[1..][k].priceKES == rest.n;
        assert catalog[k + 1].priceKES == rest.n;
        rest
      else
        assert forall i :: 1 <= i < |catalog| ==> catalog[i] == catalog[1..][i - 1];
        Num(catalog[0].priceKES)
  }

  /** Every price lies in the displayed range, whose ends are prices of the
      catalog. */
  lemma PriceRangeBounds(catalog: seq<Laptop>, i: int)
    requires 0 <= i < |catalog|
    ensures MinPrice(catalog).Num? && MaxPrice(catalog).Num?
    ensures MinPrice(catalog).n <= catalog[i].priceKES <= MaxPrice(catalog).n
  {
  }

  // ---------------------------------------------------------------------
  // "Clear all"

  /** `hasActiveFilters`, read as a boolean. */
  predicate HasActiveFilters(f: Filters) {
    f.brand != "" || f.searchQuery != "" || Bounds(f.minPrice) || Bounds(f.maxPrice)
    || f.inStockOnly || f.sortBy != "newest"
  }

  /** `clearFilters` resets every filter. */
  function ClearFilters(f: Filters): (g: Filters)
    ensures !HasActiveFilters(g)
  {
    Cleared
  }

  /** With no active filter (and the search settled) the page lists the
      whole catalog in catalog order. */
  lemma NoActiveFilterListsCatalog(catalog: seq<Laptop>, f: Filters, draws: seq<bool>, collate: (string, string) -> int)
    requires |draws| == |catalog|
    requires !HasActiveFilters(f)
    ensures Listing(catalog, f, f.searchQuery, draws, collate) == catalog
  {
    InactiveFiltersKeepAll(catalog, f, f.searchQuery, draws);
    SortKeepsSorted(catalog, Comparator(f.sortBy, collate));
  }
}
