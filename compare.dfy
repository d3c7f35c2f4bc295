/** `app/compare/page.tsx`: the list of slugs picked for comparison, the
    `?add=` effect, the resolution of slugs to catalog products and the
    three-product display. */
module Compare {
  import opened Wrappers
  import opened Seqs
  import opened Catalog

  /** `toggle(slug)`: drops every occurrence when present, appends otherwise. */
  function Toggle(sel: seq<string>, slug: string): (r: seq<string>)
    ensures slug in r <==> slug !in sel
    ensures forall x :: x != slug ==> (x in r <==> x in sel)
    ensures slug !in sel ==> r == sel + [slug]
    ensures slug in sel ==> IsSubsequence(r, sel) && multiset(r) == multiset(sel)[slug := 0]
  {
    if slug in sel then
      var r := Where(sel, x => x != slug);
      forall x ensures x in r <==> x in sel && x != slug {
        WhereMembership(sel, x => x != slug, x);
      }
      WhereIsSubsequence(sel, x => x != slug);
      DropAllCount(sel, slug);
      r
    else sel + [slug]
  }

  /** Filtering out `slug` removes every copy of it and keeps every other
      element as often as it was there. */
  lemma {:induction false} DropAllCount(s: seq<string>, slug: string)
    ensures multiset(Where(s, x => x != slug)) == multiset(s)[slug := 0]
    decreases |s|
  {
    if s != [] {
      DropAllCount(s[1..], slug);
      assert s == [s[0]] + s[1..];
      assert multiset(s) == multiset{s[0]} + multiset(s[1..]);
    }
  }

  /** Toggling keeps a duplicate-free selection duplicate-free. */
  lemma ToggleDistinct(sel: seq<string>, slug: string)
    requires Distinct(sel)
    ensures Distinct(Toggle(sel, slug))
  {
    if slug in sel {
      WhereDistinct(sel, x => x != slug);
    } else {
      AppendDistinct(sel, [slug]);
    }
  }

  /** Toggling an unselected slug twice gives the selection back. */
  lemma ToggleTwice(sel: seq<string>, slug: string)
    requires slug !in sel
    ensures Toggle(Toggle(sel, slug), slug) == sel
  {
    var once := sel + [slug];
    WhereAppend(sel, [slug], x => x != slug);
    WhereAll(sel, x => x != slug);
  }

  /** Removing a selected slug keeps the rest in their order. */
  lemma ToggleOffKeepsOrder(sel: seq<string>, slug: string)
    requires slug in sel
    ensures IsSubsequence(Toggle(sel, slug), sel)
  {
    WhereIsSubsequence(sel, x => x != slug);
  }

  /** The `?add=` effect: a present, non-empty slug not yet selected is
      appended; otherwise nothing changes. */
  function AddEffect(sel: seq<string>, add: Option<string>): (r: seq<string>)
    ensures add.None? || add.value == "" || add.value in sel ==> r == sel
    ensures add.Some? && add.value != "" && add.value !in sel ==> r == sel + [add.value]
  {
    if add.Some? && add.value != "" && add.value !in sel then sel + [add.value] else sel
  }

  /** The effect keeps the selection duplicate-free and, run again, changes nothing. */
  lemma AddEffectDistinctAndIdempotent(sel: seq<string>, add: Option<string>)
    requires Distinct(sel)
    ensures Distinct(AddEffect(sel, add))
    ensures AddEffect(AddEffect(sel, add), add) == AddEffect(sel, add)
  {
    if add.Some? && add.value != "" && add.value !in sel {
      AppendDistinct(sel, [add.value]);
    }
  }

  /** `laptops.find(l => l.slug === slug)`: the first product with the slug. */
  function Find(catalog: seq<Laptop>, slug: string): (r: Option<Laptop>)
    ensures r.Some? <==> exists i :: 0 <= i < |catalog| && catalog[i].slug == slug
    ensures r.Some? ==> r.value.slug == slug && r.value in catalog
    ensures r.Some? ==>
      exists i :: 0 <= i < |catalog| && catalog[i] == r.value && (forall j :: 0 <= j < i ==> catalog[j].slug != slug)
    decreases |catalog|
  {
    if catalog == [] then None
    else if catalog[0].slug == slug then Some(catalog[0])
    else
      var r := Find(catalog[1..], slug);
      assert forall i :: 1 <= i < |catalog| ==> catalog[i] == catalog[1..][i - 1];
      r
  }

  predicate Known(catalog: seq<Laptop>, slug: string) {
    Find(catalog, slug).Some?
  }

  /** `selected`: the products for the selected slugs, in selection order,
      with unknown slugs dropped. */
  function Resolve(catalog: seq<Laptop>, sel: seq<string>): (r: seq<Laptop>)
    ensures |r| <= |sel|
    ensures forall l :: l in r ==> l in catalog
    decreases |sel|
  {
    if sel == [] then []
    else
      var head := Find(catalog, sel[0]);
      (if head.Some? then [head.value] else []) + Resolve(catalog, sel[1..])
  }

  function Slugs(ls: seq<Laptop>): (r: seq<string>)
    ensures |r| == |ls|
    ensures forall i :: 0 <= i < |ls| ==> r[i] == ls[i].slug
  {
    seq(|ls|, i requires 0 <= i < |ls| => ls[i].slug)
  }

  /** Whether a slug names a product of `catalog`, as a filter. */
  function KnownSlug(catalog: seq<Laptop>): string -> bool {
    s => Known(catalog, s)
  }

  /** The resolved products carry exactly the known selected slugs, in
      selection order. */
  lemma {:induction false} ResolveSlugs(catalog: seq<Laptop>, sel: seq<string>)
    ensures Slugs(Resolve(catalog, sel)) == Where(sel, KnownSlug(catalog))
    decreases |sel|
  {
    if sel != [] {
      ResolveSlugs(catalog, sel[1..]);
      ResolveStep(catalog, sel);
    }
  }

  lemma ResolveStep(catalog: seq<Laptop>, sel: seq<string>)
    requires sel != []
    requires Slugs(Resolve(catalog, sel[1..])) == Where(sel[1..], KnownSlug(catalog))
    ensures Slugs(Resolve(catalog, sel)) == Where(sel, KnownSlug(catalog))
  {
    var head := Find(catalog, sel[0]);
    var first := if head.Some? then [head.value] else [];
    var rest := Resolve(catalog, sel[1..]);
    SlugsAppend(first, rest);
    assert Slugs(first) == if KnownSlug(catalog)(sel[0]) then [sel[0]] else [];
  }

  lemma SlugsAppend(a: seq<Laptop>, b: seq<Laptop>)
    ensures Slugs(a + b) == Slugs(a) + Slugs(b)
  {
  }

  /** Every selected slug with a product resolves to that product. */
  lemma ResolveComplete(catalog: seq<Laptop>, sel: seq<string>, slug: string)
    requires slug in sel && Known(catalog, slug)
    ensures Find(catalog, slug).value in Resolve(catalog, sel)
    decreases |sel|
  {
    if sel[0] != slug {
      ResolveComplete(catalog, sel[1..], slug);
    }
  }

  /** `selected.slice(0, 3)`: at most three products, the first ones. */
  function Shown(selected: seq<Laptop>): (r: seq<Laptop>)
    ensures |r| == if |selected| < 3 then |selected| else 3
    ensures forall i :: 0 <= i < |r| ==> r[i] == selected[i]
  {
    if |selected| <= 3 then selected else selected[..3]
  }
}
