/** The offer listing of the `/offers` route: up to three `IN` refinements,
    one per dimension with a non-empty selection, then newest first. */
module OfferFilter {
  import opened OfferModel
  import opened Ordering

  /** An empty selection places no constraint on its dimension. */
  predicate Admits(selected: seq<string>, v: string)
  {
    |selected| == 0 || v in selected
  }

  /** AND across the three dimensions, OR within one. */
  predicate Matches(o: Offer, locations: seq<string>, durations: seq<string>, companies: seq<string>)
  {
    Admits(locations, o.location) && Admits(durations, o.duration) && Admits(companies, o.company)
  }

  /** `query.filter(Offer.<field>.in_(selected))`: keeps, in order, the
      offers whose field is one of the selected values. */
  function Where(q: seq<Offer>, f: Field, selected: seq<string>): (r: seq<Offer>)
    ensures forall o :: multiset(r)[o] == if FieldValue(o, f) in selected then multiset(q)[o] else 0
    decreases |q|
  {
    if q == [] then []
    else
      var init := q[..|q| - 1];
      var last := q[|q| - 1];
      assert q == init + [last];
      if FieldValue(last, f) in selected then Where(init, f, selected) + [last]
      else Where(init, f, selected)
  }

  /** `if selected: query = query.filter(...)`. */
  function Refine(q: seq<Offer>, f: Field, selected: seq<string>): (r: seq<Offer>)
    ensures forall o :: multiset(r)[o] == if Admits(selected, FieldValue(o, f)) then multiset(q)[o] else 0
  {
    if |selected| > 0 then Where(q, f, selected) else q
  }

  /** The key `ORDER BY created_at DESC` sorts on, as an ascending key. */
  function NewestFirst(o: Offer): int
  {
    -o.createdAt
  }

  ghost predicate NewestFirstOrder(s: seq<Offer>)
  {
    forall i, j :: 0 <= i < j < |s| ==> s[i].createdAt >= s[j].createdAt
  }

  /** The offers listed for the given selections.  Each offer of the corpus
      appears as often as it is stored if it matches every active
      selection, and not at all otherwise, and the list runs from the newest
      to the oldest posting.  The query has no secondary key: the order of
      offers with equal timestamps is the model's and is not promised. */
  function FilterOffers(all: seq<Offer>, locations: seq<string>, durations: seq<string>,
                        companies: seq<string>): (r: seq<Offer>)
    ensures forall o :: multiset(r)[o] == if Matches(o, locations, durations, companies) then multiset(all)[o] else 0
    ensures NewestFirstOrder(r)
  {
    var q := Refine(Refine(Refine(all, Location, locations), Duration, durations), Company, companies);
    SortByKey(q, NewestFirst)
  }

  /** With nothing selected, the listing is the whole corpus, reordered. */
  lemma FilterWithoutSelectionListsAll(all: seq<Offer>)
    ensures multiset(FilterOffers(all, [], [], [])) == multiset(all)
  {
    var r := FilterOffers(all, [], [], []);
    assert forall o :: multiset(r)[o] == multiset(all)[o];
  }

  /** Every listed offer satisfies each active selection. */
  lemma FilterIsSound(all: seq<Offer>, locations: seq<string>, durations: seq<string>,
                      companies: seq<string>, o: Offer)
    requires o in FilterOffers(all, locations, durations, companies)
    ensures o in all
    ensures |locations| > 0 ==> o.location in locations
    ensures |durations| > 0 ==> o.duration in durations
    ensures |companies| > 0 ==> o.company in companies
  {
    var r := FilterOffers(all, locations, durations, companies);
    assert o in multiset(r);
  }

  /** A stored offer that satisfies every active selection is listed, as
      many times as it is stored. */
  lemma FilterIsComplete(all: seq<Offer>, locations: seq<string>, durations: seq<string>,
                         companies: seq<string>, o: Offer)
    requires o in all
    requires |locations| > 0 ==> o.location in locations
    requires |durations| > 0 ==> o.duration in durations
    requires |companies| > 0 ==> o.company in companies
    ensures o in FilterOffers(all, locations, durations, companies)
    ensures multiset(FilterOffers(all, locations, durations, companies))[o] == multiset(all)[o]
  {
    var r := FilterOffers(all, locations, durations, companies);
    assert o in multiset(all);
    assert o in multiset(r);
  }

  /** Refining by a selection every offer already meets changes nothing. */
  lemma {:induction false} WhereKeepsMatching(q: seq<Offer>, f: Field, selected: seq<string>)
    requires forall o :: o in q ==> FieldValue(o, f) in selected
    ensures Where(q, f, selected) == q
    decreases |q|
  {
    if q != [] {
      var init := q[..|q| - 1];
      assert q == init + [q[|q| - 1]];
      WhereKeepsMatching(init, f, selected);
    }
  }

  /** Filtering the listing again with the same selections gives the same
      listing. */
  lemma FilterIsIdempotent(all: seq<Offer>, locations: seq<string>, durations: seq<string>,
                           companies: seq<string>)
    ensures var r := FilterOffers(all, locations, durations, companies);
      FilterOffers(r, locations, durations, companies) == r
  {
    var r := FilterOffers(all, locations, durations, companies);
    forall o | o in r ensures Matches(o, locations, durations, companies) {
      assert o in multiset(r);
    }
    if |locations| > 0 { WhereKeepsMatching(r, Location, locations); }
    if |durations| > 0 { WhereKeepsMatching(r, Duration, durations); }
    if |companies| > 0 { WhereKeepsMatching(r, Company, companies); }
    assert SortedByKey(r, NewestFirst);
    SortSortedIsIdentity(r, NewestFirst);
  }
}
