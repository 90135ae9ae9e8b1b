/** The offer record the catalogue works on.  Only the columns the catalogue
    logic reads are kept; the store assigns `id` and `createdAt`, which the
    model treats as opaque integers. */
module OfferModel {

  datatype Offer = Offer(
    id: int,
    title: string,
    company: string,
    location: string,
    duration: string,
    createdAt: int)

  /** The three dimensions an offer can be filtered and faceted on. */
  datatype Field = Location | Duration | Company

  function FieldValue(o: Offer, f: Field): string
  {
    match f
    case Location => o.location
    case Duration => o.duration
    case Company => o.company
  }
}
