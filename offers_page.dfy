/** What the `/offers` route hands to its template: the filtered listing,
    the three option lists and the selections themselves. */
module OffersPage {
  import opened OfferModel
  import opened OfferFilter
  import opened Facets
  import opened Ordering

  datatype OffersView = OffersView(
    offers: seq<Offer>,
    uniqueLocations: seq<string>,
    uniqueDurations: seq<string>,
    uniqueCompanies: seq<string>,
    selectedLocations: seq<string>,
    selectedDurations: seq<string>,
    selectedCompanies: seq<string>)

  /** The listing holds exactly the matching stored offers, newest first.
      The options come from the whole corpus: an offer the selections hide
      still contributes its location, company and duration to them. */
  function ListOffers(all: seq<Offer>, locations: seq<string>, durations: seq<string>,
                      companies: seq<string>): (v: OffersView)
    ensures forall o :: multiset(v.offers)[o] == if Matches(o, locations, durations, companies) then multiset(all)[o] else 0
    ensures forall o :: o in v.offers ==> o in all && Matches(o, locations, durations, companies)
    ensures NewestFirstOrder(v.offers)
    ensures StrictlySorted(v.uniqueLocations)
    ensures forall l :: l in v.uniqueLocations <==> l != "" && exists o :: o in all && o.location == l
    ensures StrictlySorted(v.uniqueCompanies)
    ensures forall c :: c in v.uniqueCompanies <==> c != "" && exists o :: o in all && o.company == c
    ensures LegacyYear !in v.uniqueDurations
    ensures forall d :: multiset(v.uniqueDurations)[d] == if ShownDuration(all, d) then 1 else 0
    ensures forall i, j :: 0 <= i < j < |v.uniqueDurations| ==>
              DurationRank(v.uniqueDurations[i]) <= DurationRank(v.uniqueDurations[j])
    ensures forall o :: o in all && o.duration != "" && o.duration != LegacyYear ==> o.duration in v.uniqueDurations
    ensures v.selectedLocations == locations && v.selectedDurations == durations && v.selectedCompanies == companies
  {
    var listed := FilterOffers(all, locations, durations, companies);
    var durationOptions := UniqueDurations(all);
    assert forall o :: o in listed ==> o in multiset(listed);
    assert forall o :: o in all && o.duration != "" && o.duration != LegacyYear ==> multiset(durationOptions)[o.duration] == 1;
    OffersView(listed, UniqueLocations(all), durationOptions, UniqueCompanies(all),
               locations, durations, companies)
  }

  /** The options do not depend on what is selected. */
  lemma OptionsIgnoreSelection(all: seq<Offer>, l1: seq<string>, d1: seq<string>, c1: seq<string>,
                               l2: seq<string>, d2: seq<string>, c2: seq<string>)
    ensures ListOffers(all, l1, d1, c1).uniqueLocations == ListOffers(all, l2, d2, c2).uniqueLocations
    ensures ListOffers(all, l1, d1, c1).uniqueDurations == ListOffers(all, l2, d2, c2).uniqueDurations
    ensures ListOffers(all, l1, d1, c1).uniqueCompanies == ListOffers(all, l2, d2, c2).uniqueCompanies
  {
  }
}
