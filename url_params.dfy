/** `app/products/page.tsx`: how the filter controls write the query
    string (`updateURL`) and how the page reads its initial filters back
    from it. `URLSearchParams` is a map from keys to single values; the
    order in which `toString` lists them is not modelled. */
module UrlParams {
  import opened Text
  import opened Catalog
  import opened Products

  /** A value passed to `updateURL`. */
  datatype UrlValue = Str(s: string) | Number(n: NumberValue) | Flag(b: bool) | Null

  /** `value === '' || value === null || value === false`. */
  predicate Deletes(v: UrlValue) {
    v == Str("") || v == Null || v == Flag(false)
  }

  /** `String(value)` for the values that are kept. */
  function Stringify(v: UrlValue): string {
    match v
    case Str(s) => s
    case Number(n) => if n.Finite? then IntString(n.value) else "NaN"
    case Flag(b) => if b then "true" else "false"
    case Null => "null"
  }

  /** The parameters after the updates, applied in order. */
  function Apply(params: map<string, string>, updates: seq<(string, UrlValue)>): map<string, string>
    decreases |updates|
  {
    if updates == [] then params
    else
      var before := Apply(params, updates[..|updates| - 1]);
      var (key, value) := updates[|updates| - 1];
      if Deletes(value) then before - {key} else before[key := Stringify(value)]
  }

  /** `updateURL`: copies the current parameters and applies each update. */
  method UpdateURL(params: map<string, string>, updates: seq<(string, UrlValue)>) returns (next: map<string, string>)
    ensures next == Apply(params, updates)
  {
    next := params;
    var i := 0;
    while i < |updates|
      invariant 0 <= i <= |updates|
      invariant next == Apply(params, updates[..i])
    {
      var (key, value) := updates[i];
      if Deletes(value) {
        next := next - {key};
      } else {
        next := next[key := Stringify(value)];
      }
      assert updates[..i + 1][..i] == updates[..i];
      i := i + 1;
    }
    assert updates[..i] == updates;
  }

  predicate DistinctKeys(updates: seq<(string, UrlValue)>) {
    forall i, j :: 0 <= i < j < |updates| ==> updates[i].0 != updates[j].0
  }

  /** With distinct keys, each updated key is deleted or set to its value,
      and every other key keeps what it had. */
  lemma {:induction false} ApplyEffect(params: map<string, string>, updates: seq<(string, UrlValue)>, key: string)
    requires DistinctKeys(updates)
    ensures forall i :: 0 <= i < |updates| && updates[i].0 == key ==>
      if Deletes(updates[i].1) then key !in Apply(params, updates)
      else key in Apply(params, updates) && Apply(params, updates)[key] == Stringify(updates[i].1)
    ensures (forall i :: 0 <= i < |updates| ==> updates[i].0 != key) ==>
      (key in Apply(params, updates) <==> key in params)
      && (key in params ==> Apply(params, updates)[key] == params[key])
    decreases |updates|
  {
    if updates != [] {
      var init := updates[..|updates| - 1];
      assert DistinctKeys(init);
      ApplyEffect(params, init, key);
      forall i | 0 <= i < |init| ensures init[i] == updates[i] {
      }
    }
  }

  // ---------------------------------------------------------------------
  // The controls

  /** `value || null` for a text control. */
  function TextValue(value: string): UrlValue {
    if value == "" then Null else Str(value)
  }

  /** `value || null` for a price box. */
  function PriceValue(p: PriceField): UrlValue {
    if Bounds(p) then Number(p.number) else Null
  }

  function BrandUpdate(value: string): seq<(string, UrlValue)> {
    [("brand", TextValue(value))]
  }

  function SearchUpdate(value: string): seq<(string, UrlValue)> {
    [("q", TextValue(value))]
  }

  function MinUpdate(p: PriceField): seq<(string, UrlValue)> {
    [("min", PriceValue(p))]
  }

  function MaxUpdate(p: PriceField): seq<(string, UrlValue)> {
    [("max", PriceValue(p))]
  }

  function SortUpdate(value: string): seq<(string, UrlValue)> {
    [("sort", Str(value))]
  }

  function InStockUpdate(checked: bool): seq<(string, UrlValue)> {
    [("inStock", if checked then Flag(true) else Null)]
  }

  /** The updates `clearFilters` sends: every key removed except `sort`,
      which is set to `newest`. */
  function ClearUpdates(): seq<(string, UrlValue)> {
    [("brand", Null), ("q", Null), ("min", Null), ("max", Null), ("sort", Str("newest")), ("inStock", Null)]
  }

  // ---------------------------------------------------------------------
  // Reading the filters back

  /** `Number(text)` for the texts the price parameters can hold: an
      optional minus sign followed by decimal digits; anything else is
      `NaN`. */
  function ParseNumber(text: string): NumberValue {
    if |text| > 0 && AllDigits(text) then Finite(ValueOf(text))
    else if |text| > 1 && text[0] == '-' && AllDigits(text[1..]) then Finite(-(ValueOf(text[1..]) as int))
    else NaN
  }

  lemma ParseIntString(i: int)
    ensures ParseNumber(IntString(i)) == Finite(i)
  {
    if i < 0 {
      DigitsRoundTrip(-i);
      assert IntString(i)[1..] == Digits(-i);
    } else {
      DigitsRoundTrip(i);
    }
  }

  function Get(params: map<string, string>, key: string): string {
    if key in params then params[key] else ""
  }

  /** The page's initial filter state, read from the query string. */
  function InitialFilters(params: map<string, string>): (f: Filters)
    ensures f.sortBy != ""
  {
    Filters(
      Get(params, "brand"),
      Get(params, "q"),
      if Get(params, "min") != "" then Entered(ParseNumber(Get(params, "min"))) else Blank,
      if Get(params, "max") != "" then Entered(ParseNumber(Get(params, "max"))) else Blank,
      if Get(params, "sort") != "" then Get(params, "sort") else "newest",
      Get(params, "inStock") == "true")
  }

  /** Two price boxes that filter alike. */
  predicate SameBound(p: PriceField, q: PriceField) {
    Bounds(p) == Bounds(q) && (Bounds(p) ==> p.number.value == q.number.value)
  }

  /** The query string records the filter state: reading it back gives the
      same filters, up to price boxes that filter alike. */
  predicate Records(params: map<string, string>, f: Filters) {
    var g := InitialFilters(params);
    && g.brand == f.brand && g.searchQuery == f.searchQuery
    && SameBound(g.minPrice, f.minPrice) && SameBound(g.maxPrice, f.maxPrice)
    && g.sortBy == f.sortBy && g.inStockOnly == f.inStockOnly
  }

  /** "Clear all" is hidden exactly when every control is at its cleared
      value, a price box counting as cleared when it filters alike. */
  lemma InactiveIffCleared(f: Filters)
    ensures !HasActiveFilters(f) <==>
      && f.brand == Cleared.brand && f.searchQuery == Cleared.searchQuery
      && SameBound(f.minPrice, Cleared.minPrice) && SameBound(f.maxPrice, Cleared.maxPrice)
      && f.sortBy == Cleared.sortBy && f.inStockOnly == Cleared.inStockOnly
  {
  }

  /** States that filter alike list the same products and agree on
      whether "Clear all" is shown. */
  lemma RecordedStateFiltersAlike(params: map<string, string>, f: Filters, l: Laptop)
    requires Records(params, f)
    ensures Matches(InitialFilters(params), f.searchQuery, l) == Matches(f, f.searchQuery, l)
    ensures InitialFilters(params).sortBy == f.sortBy
    ensures HasActiveFilters(InitialFilters(params)) == HasActiveFilters(f)
  {
  }

  /** Reading one key after an update that touches only that key. */
  lemma SingleUpdate(params: map<string, string>, key: string, value: UrlValue, other: string)
    ensures var next := Apply(params, [(key, value)]);
      && (other != key ==> Get(next, other) == Get(params, other))
      && Get(next, key) == (if Deletes(value) then "" else Stringify(value))
  {
    assert [(key, value)][..0] == [];
  }

  /** Each control keeps the query string recording the state it has just
      set. */
  lemma BrandKeepsRecord(params: map<string, string>, f: Filters, value: string)
    requires Records(params, f)
    ensures Records(Apply(params, BrandUpdate(value)), f.(brand := value))
  {
    SingleUpdate(params, "brand", TextValue(value), "q");
    SingleUpdate(params, "brand", TextValue(value), "min");
    SingleUpdate(params, "brand", TextValue(value), "max");
    SingleUpdate(params, "brand", TextValue(value), "sort");
    SingleUpdate(params, "brand", TextValue(value), "inStock");
  }

  lemma SearchKeepsRecord(params: map<string, string>, f: Filters, value: string)
    requires Records(params, f)
    ensures Records(Apply(params, SearchUpdate(value)), f.(searchQuery := value))
  {
    SingleUpdate(params, "q", TextValue(value), "brand");
    SingleUpdate(params, "q", TextValue(value), "min");
    SingleUpdate(params, "q", TextValue(value), "max");
    SingleUpdate(params, "q", TextValue(value), "sort");
    SingleUpdate(params, "q", TextValue(value), "inStock");
  }

  lemma MinKeepsRecord(params: map<string, string>, f: Filters, p: PriceField)
    requires Records(params, f)
    ensures Records(Apply(params, MinUpdate(p)), f.(minPrice := p))
  {
    SingleUpdate(params, "min", PriceValue(p), "brand");
    SingleUpdate(params, "min", PriceValue(p), "q");
    SingleUpdate(params, "min", PriceValue(p), "max");
    SingleUpdate(params, "min", PriceValue(p), "sort");
    SingleUpdate(params, "min", PriceValue(p), "inStock");
    if Bounds(p) {
      ParseIntString(p.number.value);
    }
  }

  lemma MaxKeepsRecord(params: map<string, string>, f: Filters, p: PriceField)
    requires Records(params, f)
    ensures Records(Apply(params, MaxUpdate(p)), f.(maxPrice := p))
  {
    SingleUpdate(params, "max", PriceValue(p), "brand");
    SingleUpdate(params, "max", PriceValue(p), "q");
    SingleUpdate(params, "max", PriceValue(p), "min");
    SingleUpdate(params, "max", PriceValue(p), "sort");
    SingleUpdate(params, "max", PriceValue(p), "inStock");
    if Bounds(p) {
      ParseIntString(p.number.value);
    }
  }

  /** Sort keys are the option values, never empty. */
  lemma SortKeepsRecord(params: map<string, string>, f: Filters, value: string)
    requires Records(params, f) && value != ""
    ensures Records(Apply(params, SortUpdate(value)), f.(sortBy := value))
  {
    SingleUpdate(params, "sort", Str(value), "brand");
    SingleUpdate(params, "sort", Str(value), "q");
    SingleUpdate(params, "sort", Str(value), "min");
    SingleUpdate(params, "sort", Str(value), "max");
    SingleUpdate(params, "sort", Str(value), "inStock");
  }

  lemma InStockKeepsRecord(params: map<string, string>, f: Filters, checked: bool)
    requires Records(params, f)
    ensures Records(Apply(params, InStockUpdate(checked)), f.(inStockOnly := checked))
  {
    var v := if checked then Flag(true) else Null;
    SingleUpdate(params, "inStock", v, "brand");
    SingleUpdate(params, "inStock", v, "q");
    SingleUpdate(params, "inStock", v, "min");
    SingleUpdate(params, "inStock", v, "max");
    SingleUpdate(params, "inStock", v, "sort");
  }

  /** After "Clear all" the query string records the cleared state, so a
      reload shows no active filter. */
  lemma ClearKeepsRecord(params: map<string, string>)
    ensures Records(Apply(params, ClearUpdates()), Cleared)
    ensures !HasActiveFilters(InitialFilters(Apply(params, ClearUpdates())))
  {
    ClearedParams(params);
  }

  /** What "Clear all" leaves in the query string: only `sort=newest`
      among the filter keys. */
  lemma ClearedParams(params: map<string, string>)
    ensures Get(Apply(params, ClearUpdates()), "brand") == ""
    ensures Get(Apply(params, ClearUpdates()), "q") == ""
    ensures Get(Apply(params, ClearUpdates()), "min") == ""
    ensures Get(Apply(params, ClearUpdates()), "max") == ""
    ensures Get(Apply(params, ClearUpdates()), "sort") == "newest"
    ensures Get(Apply(params, ClearUpdates()), "inStock") == ""
  {
    var u := ClearUpdates();
    assert DistinctKeys(u);
    assert u[0].0 == "brand" && u[1].0 == "q" && u[2].0 == "min" && u[3].0 == "max";
    assert u[4] == ("sort", Str("newest")) && u[5] == ("inStock", Null);
    ApplyEffect(params, u, "brand");
    ApplyEffect(params, u, "q");
    ApplyEffect(params, u, "min");
    ApplyEffect(params, u, "max");
    ApplyEffect(params, u, "sort");
    ApplyEffect(params, u, "inStock");
  }
}
