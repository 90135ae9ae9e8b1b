/** The `/companies` route: one summary per company, built by a single pass
    over the offers into a dictionary, then listed by most recent posting. */
module CompanyAggregation {
  import opened OfferModel
  import opened Ordering

  datatype CompanySummary = CompanySummary(
    name: string,
    offerCount: nat,
    locations: set<string>,
    latestOfferDate: int)

  // Reference definitions, independent of how the loop computes them.

  ghost function Companies(s: seq<Offer>): set<string>
  {
    set o | o in s :: o.company
  }

  function CountOf(s: seq<Offer>, c: string): nat
    decreases |s|
  {
    if s == [] then 0
    else CountOf(s[..|s| - 1], c) + (if s[|s| - 1].company == c then 1 else 0)
  }

  ghost function LocationsOf(s: seq<Offer>, c: string): set<string>
  {
    set o | o in s && o.company == c :: o.location
  }

  /** `t` is the latest `createdAt` among the offers of company `c`. */
  ghost predicate IsLatest(s: seq<Offer>, c: string, t: int)
  {
    (forall o :: o in s && o.company == c ==> o.createdAt <= t) &&
    (exists o :: o in s && o.company == c && o.createdAt == t)
  }

  /** `e` is the correct summary of its company over the offers `s`. */
  ghost predicate Summarizes(s: seq<Offer>, e: CompanySummary)
  {
    e.offerCount == CountOf(s, e.name) && e.offerCount >= 1 &&
    e.locations == LocationsOf(s, e.name) &&
    IsLatest(s, e.name, e.latestOfferDate)
  }

  // The dictionary the loop builds, as a fold over the offers.

  /** One iteration of the loop body: create the entry on first sight of
      the company, then count the offer, add its location and keep the
      later date. */
  function AddOffer(data: map<string, CompanySummary>, o: Offer): map<string, CompanySummary>
  {
    var e := if o.company in data then data[o.company]
             else CompanySummary(o.company, 0, {}, o.createdAt);
    var latest := if o.createdAt > e.latestOfferDate then o.createdAt else e.latestOfferDate;
    data[o.company := CompanySummary(e.name, e.offerCount + 1, e.locations + {o.location}, latest)]
  }

  function Aggregate(s: seq<Offer>): map<string, CompanySummary>
    decreases |s|
  {
    if s == [] then map[] else AddOffer(Aggregate(s[..|s| - 1]), s[|s| - 1])
  }

  /** One pass of the loop body, which first creates the entry of an unseen
      company and then overwrites it with the updated entry, extends the
      dictionary by `AddOffer`. */
  lemma AggregateStep(s: seq<Offer>, i: nat, before: map<string, CompanySummary>,
                      inserted: map<string, CompanySummary>, entry: CompanySummary)
    requires i < |s| && before == Aggregate(s[..i])
    requires var c := s[i].company;
      inserted == if c in before then before else before[c := CompanySummary(c, 0, {}, s[i].createdAt)]
    requires var o := s[i];
      var e := if o.company in before then before[o.company] else CompanySummary(o.company, 0, {}, o.createdAt);
      && entry.name == e.name && entry.offerCount == e.offerCount + 1
      && entry.locations == e.locations + {o.location}
      && entry.latestOfferDate == if o.createdAt > e.latestOfferDate then o.createdAt else e.latestOfferDate
    ensures inserted[s[i].company := entry] == Aggregate(s[..i + 1])
  {
    assert s[..i + 1][..i] == s[..i];
    assert inserted[s[i].company := entry] == before[s[i].company := entry];
  }

  lemma {:induction false} CountOfAbsent(s: seq<Offer>, c: string)
    requires c !in Companies(s)
    ensures CountOf(s, c) == 0
    decreases |s|
  {
    if s != [] {
      var init := s[..|s| - 1];
      assert s[|s| - 1] in s;
      assert c !in Companies(init) by {
        forall o | o in init ensures o.company != c {
          assert o in s;
        }
      }
      CountOfAbsent(init, c);
    }
  }

  lemma CompaniesSnoc(s: seq<Offer>, o: Offer)
    ensures Companies(s + [o]) == Companies(s) + {o.company}
  {
    assert forall x :: x in s + [o] <==> x in s || x == o;
  }

  lemma LocationsOfSnoc(s: seq<Offer>, o: Offer, c: string)
    ensures LocationsOf(s + [o], c) == LocationsOf(s, c) + (if o.company == c then {o.location} else {})
  {
    assert forall x :: x in s + [o] <==> x in s || x == o;
  }

  lemma CountOfSnoc(s: seq<Offer>, o: Offer, c: string)
    ensures CountOf(s + [o], c) == CountOf(s, c) + (if o.company == c then 1 else 0)
  {
    assert (s + [o])[..|s|] == s;
  }

  /** The dictionary has one entry per company of the offers. */
  lemma {:induction false} AggregateKeys(s: seq<Offer>)
    ensures Aggregate(s).Keys == Companies(s)
    decreases |s|
  {
    if s != [] {
      var init := s[..|s| - 1];
      assert s == init + [s[|s| - 1]];
      AggregateKeys(init);
      CompaniesSnoc(init, s[|s| - 1]);
    }
  }

  /** The entry of company `c` is keyed by its name and is its correct
      summary. */
  lemma {:induction false} AggregateEntry(s: seq<Offer>, c: string)
    requires c in Aggregate(s)
    ensures Aggregate(s)[c].name == c && Summarizes(s, Aggregate(s)[c])
    decreases |s|
  {
    var init := s[..|s| - 1];
    var o := s[|s| - 1];
    assert s == init + [o];
    var before := Aggregate(init);
    LocationsOfSnoc(init, o, c);
    CountOfSnoc(init, o, c);
    assert forall x :: x in s <==> x in init || x == o;
    if c in before {
      AggregateEntry(init, c);
    } else {
      AggregateKeys(init);
      CountOfAbsent(init, c);
      assert LocationsOf(init, c) == {};
    }
  }

  lemma AggregateIsCorrect(s: seq<Offer>)
    ensures Aggregate(s).Keys == Companies(s)
    ensures forall c :: c in Aggregate(s) ==> Aggregate(s)[c].name == c && Summarizes(s, Aggregate(s)[c])
  {
    AggregateKeys(s);
    forall c | c in Aggregate(s)
      ensures Aggregate(s)[c].name == c && Summarizes(s, Aggregate(s)[c])
    {
      AggregateEntry(s, c);
    }
  }

  /** Two correct summaries of the same company are the same record. */
  lemma SummaryIsDetermined(s: seq<Offer>, e1: CompanySummary, e2: CompanySummary)
    requires Summarizes(s, e1) && Summarizes(s, e2) && e1.name == e2.name
    ensures e1 == e2
  {
    var w1 :| w1 in s && w1.company == e1.name && w1.createdAt == e1.latestOfferDate;
    var w2 :| w2 in s && w2.company == e2.name && w2.createdAt == e2.latestOfferDate;
    assert e1.latestOfferDate == e2.latestOfferDate;
  }

  // The listing: the dictionary's values in insertion order, by recency.

  ghost predicate NoDuplicates<T>(s: seq<T>)
  {
    forall i, j :: 0 <= i < j < |s| ==> s[i] != s[j]
  }

  lemma {:induction false} NoDuplicatesAsMultiset<T>(s: seq<T>)
    ensures NoDuplicates(s) <==> forall x :: multiset(s)[x] <= 1
    decreases |s|
  {
    if s != [] {
      var init := s[..|s| - 1];
      var last := s[|s| - 1];
      assert s == init + [last];
      NoDuplicatesAsMultiset(init);
      assert multiset(s) == multiset(init) + multiset{last};
      if NoDuplicates(s) {
        assert forall k :: 0 <= k < |init| ==> init[k] == s[k] && s[k] != last;
        assert last !in init;
        assert NoDuplicates(init) by {
          forall i, j | 0 <= i < j < |init| ensures init[i] != init[j] {
            assert init[i] == s[i] && init[j] == s[j];
          }
        }
      } else {
        var i, j :| 0 <= i < j < |s| && s[i] == s[j];
        if j < |s| - 1 {
          assert init[i] == init[j];
          var x :| multiset(init)[x] > 1;
          assert multiset(s)[x] >= multiset(init)[x];
        } else {
          assert s[i] == init[i];
          assert multiset(s)[last] == multiset(init)[last] + 1;
        }
      }
    }
  }

  lemma NoDuplicatesSnoc<T>(s: seq<T>, x: T)
    requires NoDuplicates(s) && x !in s
    ensures NoDuplicates(s + [x])
  {
    forall i, j | 0 <= i < j < |s| + 1 ensures (s + [x])[i] != (s + [x])[j] {
      if j < |s| {
        assert (s + [x])[i] == s[i] && (s + [x])[j] == s[j];
      } else {
        assert (s + [x])[i] == s[i];
      }
    }
  }

  /** `companies_data.values()`: the entries in the order their keys were
      first inserted. */
  function Entries(order: seq<string>, data: map<string, CompanySummary>): (r: seq<CompanySummary>)
    requires forall k :: k in order ==> k in data
    ensures |r| == |order| && forall i :: 0 <= i < |order| ==> r[i] == data[order[i]]
    decreases |order|
  {
    if order == [] then []
    else Entries(order[..|order| - 1], data) + [data[order[|order| - 1]]]
  }

  function Recency(e: CompanySummary): int
  {
    -e.latestOfferDate
  }

  function SumCounts(s: seq<CompanySummary>): nat
    decreases |s|
  {
    if s == [] then 0 else s[0].offerCount + SumCounts(s[1..])
  }

  lemma {:induction false} SumCountsSnoc(s: seq<CompanySummary>, e: CompanySummary)
    ensures SumCounts(s + [e]) == SumCounts(s) + e.offerCount
    decreases |s|
  {
    if s != [] {
      assert (s + [e])[1..] == s[1..] + [e];
      SumCountsSnoc(s[1..], e);
    }
  }

  lemma {:induction false} SumCountsInsert(x: CompanySummary, s: seq<CompanySummary>)
    requires SortedByKey(s, Recency)
    ensures SumCounts(InsertByKey(x, s, Recency)) == SumCounts(s) + x.offerCount
    decreases |s|
  {
    if s != [] && Recency(x) > Recency(s[0]) {
      SumCountsInsert(x, s[1..]);
      assert ([s[0]] + InsertByKey(x, s[1..], Recency))[1..] == InsertByKey(x, s[1..], Recency);
    }
  }

  /** Sorting the summaries does not change the total count. */
  lemma {:induction false} SumCountsSort(s: seq<CompanySummary>)
    ensures SumCounts(SortByKey(s, Recency)) == SumCounts(s)
    decreases |s|
  {
    if s != [] {
      SumCountsSort(s[1..]);
      SumCountsInsert(s[0], SortByKey(s[1..], Recency));
    }
  }

  /** The total count of the entries listed by `order`. */
  function SumOver(order: seq<string>, data: map<string, CompanySummary>): nat
    requires forall k :: k in order ==> k in data
    decreases |order|
  {
    if order == [] then 0
    else SumOver(order[..|order| - 1], data) + data[order[|order| - 1]].offerCount
  }

  lemma {:induction false} SumOverIsSumCounts(order: seq<string>, data: map<string, CompanySummary>)
    requires forall k :: k in order ==> k in data
    ensures SumCounts(Entries(order, data)) == SumOver(order, data)
    decreases |order|
  {
    if order != [] {
      var init := order[..|order| - 1];
      SumOverIsSumCounts(init, data);
      SumCountsSnoc(Entries(init, data), data[order[|order| - 1]]);
    }
  }

  lemma {:induction false} SumOverUpdate(order: seq<string>, data: map<string, CompanySummary>,
                                         c: string, e: CompanySummary)
    requires forall k :: k in order ==> k in data
    requires NoDuplicates(order)
    ensures SumOver(order, data[c := e]) ==
            SumOver(order, data) + (if c in order then e.offerCount - data[c].offerCount else 0)
    decreases |order|
  {
    if order != [] {
      var init := order[..|order| - 1];
      var last := order[|order| - 1];
      assert order == init + [last];
      assert forall k :: 0 <= k < |init| ==> init[k] == order[k] && order[k] != last;
      assert last !in init;
      SumOverUpdate(init, data, c, e);
    }
  }

  lemma SumOverSnoc(order: seq<string>, data: map<string, CompanySummary>, c: string)
    requires forall k :: k in order ==> k in data
    requires c in data
    ensures SumOver(order + [c], data) == SumOver(order, data) + data[c].offerCount
  {
    assert (order + [c])[..|order|] == order;
  }


  /** What `companies_list` renders: one summary per company of the offers,
      each with the company's offer count, its set of locations and its
      latest posting date, the most recently active company first.  The
      counts add up to the number of offers.  Python's sort is stable, so
      companies with equal dates keep the dictionary's insertion order; the
      contract does not promise that order. */
  method CompaniesList(offers: seq<Offer>) returns (companies: seq<CompanySummary>)
    ensures forall c :: c in Companies(offers) <==> exists e :: e in companies && e.name == c
    ensures forall i, j :: 0 <= i < j < |companies| ==> companies[i].name != companies[j].name
    ensures forall e :: e in companies ==> Summarizes(offers, e)
    ensures forall i, j :: 0 <= i < j < |companies| ==> companies[i].latestOfferDate >= companies[j].latestOfferDate
    ensures SumCounts(companies) == |offers|
  {
    var data: map<string, CompanySummary> := map[];
    var order: seq<string> := [];
    for i := 0 to |offers|
      invariant data == Aggregate(offers[..i])
      invariant NoDuplicates(order)
      invariant forall k :: k in order <==> k in data
      invariant SumOver(order, data) == i
    {
      var offer := offers[i];
      var c := offer.company;
      ghost var before, orderBefore := data, order;
      if c !in data {
        data := data[c := CompanySummary(c, 0, {}, offer.createdAt)];
        order := order + [c];
      }
      var entry := data[c];
      entry := entry.(offerCount := entry.offerCount + 1);
      entry := entry.(locations := entry.locations + {offer.location});
      if offer.createdAt > entry.latestOfferDate {
        entry := entry.(latestOfferDate := offer.createdAt);
      }
      StepKeepsInvariant(offers, i, before, orderBefore, data, order, entry);
      data := data[c := entry];
    }
    assert offers[..|offers|] == offers;
    companies := SortByKey(Entries(order, data), Recency);
    ListingIsCorrect(offers, order, data, companies);
  }

  /** One pass of the loop body keeps the loop's invariant: the dictionary
      is the fold of the offers seen so far, `order` lists its keys once
      each in insertion order, and the counts add up to the offers seen. */
  lemma StepKeepsInvariant(s: seq<Offer>, i: nat, before: map<string, CompanySummary>, orderBefore: seq<string>,
                           inserted: map<string, CompanySummary>, order: seq<string>, entry: CompanySummary)
    requires i < |s|
    requires before == Aggregate(s[..i]) && NoDuplicates(orderBefore)
    requires (forall k :: k in orderBefore <==> k in before) && SumOver(orderBefore, before) == i
    requires var c := s[i].company;
      if c in before then inserted == before && order == orderBefore
      else inserted == before[c := CompanySummary(c, 0, {}, s[i].createdAt)] && order == orderBefore + [c]
    requires var o := s[i];
      && entry.name == inserted[o.company].name && entry.offerCount == inserted[o.company].offerCount + 1
      && entry.locations == inserted[o.company].locations + {o.location}
      && entry.latestOfferDate == if o.createdAt > inserted[o.company].latestOfferDate then o.createdAt
                                  else inserted[o.company].latestOfferDate
    ensures var after := inserted[s[i].company := entry];
      && after == Aggregate(s[..i + 1]) && NoDuplicates(order)
      && (forall k :: k in order <==> k in after) && SumOver(order, after) == i + 1
  {
    var c := s[i].company;
    if c !in before {
      SumOverUpdate(orderBefore, before, c, inserted[c]);
      SumOverSnoc(orderBefore, inserted, c);
      NoDuplicatesSnoc(orderBefore, c);
    }
    SumOverUpdate(order, inserted, c, entry);
    AggregateStep(s, i, before, inserted, entry);
  }

  /** The sorted values of the finished dictionary meet the contract of
      `CompaniesList`. */
  lemma ListingIsCorrect(offers: seq<Offer>, order: seq<string>, data: map<string, CompanySummary>,
                         companies: seq<CompanySummary>)
    requires data == Aggregate(offers)
    requires NoDuplicates(order)
    requires forall k :: k in order <==> k in data
    requires SumOver(order, data) == |offers|
    requires companies == SortByKey(Entries(order, data), Recency)
    ensures forall c :: c in Companies(offers) <==> exists e :: e in companies && e.name == c
    ensures forall i, j :: 0 <= i < j < |companies| ==> companies[i].name != companies[j].name
    ensures forall e :: e in companies ==> Summarizes(offers, e)
    ensures forall i, j :: 0 <= i < j < |companies| ==> companies[i].latestOfferDate >= companies[j].latestOfferDate
    ensures SumCounts(companies) == |offers|
  {
    var values := Entries(order, data);
    SumOverIsSumCounts(order, data);
    ListingSummarizes(offers, order, data, companies);
    ListingNamesDistinct(offers, order, data, companies);
    SumCountsSort(values);
  }

  lemma ListingSummarizes(offers: seq<Offer>, order: seq<string>, data: map<string, CompanySummary>,
                          companies: seq<CompanySummary>)
    requires data == Aggregate(offers)
    requires forall k :: k in order <==> k in data
    requires multiset(companies) == multiset(Entries(order, data))
    ensures forall c :: c in Companies(offers) <==> exists e :: e in companies && e.name == c
    ensures forall e :: e in companies ==> Summarizes(offers, e)
  {
    ListedEntriesSummarize(offers, order, data, companies);
    ListingCoversCompanies(offers, order, data, companies);
  }

  lemma ListedEntriesSummarize(offers: seq<Offer>, order: seq<string>, data: map<string, CompanySummary>,
                               companies: seq<CompanySummary>)
    requires data == Aggregate(offers)
    requires forall k :: k in order ==> k in data
    requires multiset(companies) == multiset(Entries(order, data))
    ensures forall e :: e in companies ==> Summarizes(offers, e) && e.name in Companies(offers)
  {
    var values := Entries(order, data);
    forall e | e in companies ensures Summarizes(offers, e) && e.name in Companies(offers) {
      assert e in multiset(companies);
      var k :| 0 <= k < |values| && values[k] == e;
      AggregateKeys(offers);
      AggregateEntry(offers, order[k]);
    }
  }

  lemma ListingCoversCompanies(offers: seq<Offer>, order: seq<string>, data: map<string, CompanySummary>,
                               companies: seq<CompanySummary>)
    requires data == Aggregate(offers)
    requires forall k :: k in order <==> k in data
    requires multiset(companies) == multiset(Entries(order, data))
    ensures forall c :: c in Companies(offers) ==> exists e :: e in companies && e.name == c
  {
    var values := Entries(order, data);
    AggregateKeys(offers);
    forall c | c in Companies(offers) ensures exists e :: e in companies && e.name == c {
      var k :| 0 <= k < |order| && order[k] == c;
      AggregateEntry(offers, c);
      assert values[k] in multiset(values);
      assert values[k] in companies;
    }
  }

  lemma ListingNamesDistinct(offers: seq<Offer>, order: seq<string>, data: map<string, CompanySummary>,
                             companies: seq<CompanySummary>)
    requires data == Aggregate(offers)
    requires NoDuplicates(order)
    requires forall k :: k in order <==> k in data
    requires multiset(companies) == multiset(Entries(order, data))
    ensures forall i, j :: 0 <= i < j < |companies| ==> companies[i].name != companies[j].name
  {
    var values := Entries(order, data);
    AggregateIsCorrect(offers);
    assert NoDuplicates(values) by {
      forall i, j | 0 <= i < j < |values| ensures values[i] != values[j] {
        assert values[i].name == order[i] && values[j].name == order[j];
      }
    }
    NoDuplicatesAsMultiset(values);
    NoDuplicatesAsMultiset(companies);
    ListingSummarizes(offers, order, data, companies);
    forall i, j | 0 <= i < j < |companies| ensures companies[i].name != companies[j].name {
      assert companies[i] in companies && companies[j] in companies;
      if companies[i].name == companies[j].name {
        SummaryIsDetermined(offers, companies[i], companies[j]);
      }
    }
  }
}
