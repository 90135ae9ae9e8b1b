/** The filter options of the `/offers` route, taken from the whole corpus
    whatever selection is active, so that every option stays visible. */
module Facets {
  import opened OfferModel
  import opened Ordering

  /** Some stored offer has `v` in field `f`. */
  ghost predicate Stored(all: seq<Offer>, f: Field, v: string)
  {
    exists o :: o in all && FieldValue(o, f) == v
  }

  /** The non-empty values of field `f`, in corpus order (the generator
      `o.<field> for o in all_offers if o.<field>`). */
  function FieldValues(all: seq<Offer>, f: Field): (r: seq<string>)
    ensures forall v :: v in r <==> v != "" && Stored(all, f, v)
    decreases |all|
  {
    if all == [] then []
    else
      var init := all[..|all| - 1];
      var last := all[|all| - 1];
      assert all == init + [last];
      var before := FieldValues(init, f);
      if FieldValue(last, f) != "" then before + [FieldValue(last, f)] else before
  }

  /** `sorted(set(...))` over the non-empty values of one field. */
  function SortedFacet(all: seq<Offer>, f: Field): (r: seq<string>)
    ensures StrictlySorted(r)
    ensures forall v :: v in r <==> v != "" && Stored(all, f, v)
  {
    SortedUnique(FieldValues(all, f))
  }

  /** The location options: every non-empty stored location once, in
      alphabetical order. */
  function UniqueLocations(all: seq<Offer>): (r: seq<string>)
    ensures StrictlySorted(r)
    ensures forall i, j :: 0 <= i < j < |r| ==> r[i] != r[j]
    ensures forall v :: v in r <==> v != "" && exists o :: o in all && o.location == v
  {
    var r := SortedFacet(all, Location);
    StrictlySortedHasNoDuplicates(r);
    r
  }

  /** The company options: every non-empty stored company once, in
      alphabetical order. */
  function UniqueCompanies(all: seq<Offer>): (r: seq<string>)
    ensures StrictlySorted(r)
    ensures forall i, j :: 0 <= i < j < |r| ==> r[i] != r[j]
    ensures forall v :: v in r <==> v != "" && exists o :: o in all && o.company == v
  {
    var r := SortedFacet(all, Company);
    StrictlySortedHasNoDuplicates(r);
    r
  }

  /** The duration label that is kept in storage but not offered as a
      filter option, as a duplicate of "1 an". */
  const LegacyYear: string := "12 mois"

  /** Rank of every known duration label; `DurationRank` gives 99 to the rest. */
  const DurationOrder: map<string, int> := map[
    "1 mois" := 1,
    "3 mois" := 3,
    "6 mois" := 6,
    "9 mois" := 9,
    "12 mois" := 12,
    "1 an" := 12,
    "2 ans" := 24
  ]

  /** `duration_order.get(d, 99)`. */
  function DurationRank(d: string): (r: int)
    ensures 1 <= r <= 99
    ensures r == 99 <==> d !in DurationOrder
  {
    if d in DurationOrder then DurationOrder[d] else 99
  }

  /** The ranks the table promises, and that unknown labels rank last. */
  lemma DurationRankTable(d: string)
    ensures DurationRank("1 an") == DurationRank("12 mois") == 12
    ensures DurationRank("1 mois") == 1 && DurationRank("3 mois") == 3
    ensures DurationRank("6 mois") == 6 && DurationRank("9 mois") == 9
    ensures DurationRank("2 ans") == 24
    ensures d !in DurationOrder ==> DurationRank(d) == 99
  {
  }

  /** The values of `xs` once each, in order of first appearance: a fixed
      iteration order for Python's `set(...)`. */
  function Distinct(xs: seq<string>): (r: seq<string>)
    ensures forall x :: multiset(r)[x] == if x in xs then 1 else 0
    decreases |xs|
  {
    if xs == [] then []
    else
      var init := xs[..|xs| - 1];
      var last := xs[|xs| - 1];
      assert xs == init + [last];
      if last in init then Distinct(init) else Distinct(init) + [last]
  }

  /** `[d for d in xs if d != v]`. */
  function Without(xs: seq<string>, v: string): (r: seq<string>)
    ensures forall x :: multiset(r)[x] == if x == v then 0 else multiset(xs)[x]
    decreases |xs|
  {
    if xs == [] then []
    else
      var init := xs[..|xs| - 1];
      var last := xs[|xs| - 1];
      assert xs == init + [last];
      if last != v then Without(init, v) + [last] else Without(init, v)
  }

  /** A non-empty stored duration label other than the legacy one. */
  ghost predicate ShownDuration(all: seq<Offer>, d: string)
  {
    d != "" && d != LegacyYear && exists o :: o in all && o.duration == d
  }

  /** The duration options: every non-empty stored label except "12 mois",
      each exactly once, by ascending rank.  The order among labels of equal
      rank comes from set iteration in the source and is not promised. */
  function UniqueDurations(all: seq<Offer>): (r: seq<string>)
    ensures LegacyYear !in r
    ensures forall d :: multiset(r)[d] == if ShownDuration(all, d) then 1 else 0
    ensures forall i, j :: 0 <= i < j < |r| ==> DurationRank(r[i]) <= DurationRank(r[j])
  {
    var raw := Distinct(FieldValues(all, Duration));
    var r := SortByKey(Without(raw, LegacyYear), DurationRank);
    assert multiset(r)[LegacyYear] == 0;
    r
  }
}
