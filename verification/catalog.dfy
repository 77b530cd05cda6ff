/**
 * The read-only catalogue the reservation core consults: venues, events
 * (venue and sale status), seats (venue, row, number, section), price
 * tiers and the section-to-tier pricing of each event.  The catalogue is
 * maintained by administration endpoints that are not part of this model.
 */
module Catalog {
  import opened Schema

  datatype Seat = Seat(venue: VenueId, rowLabel: string, seatNumber: string, colIndex: int, section: Option<string>)

  datatype Event = Event(venue: VenueId, status: EventStatus)

  datatype PriceTier = PriceTier(event: EventId, tierCode: string, tierName: string, priceCents: nat)

  datatype Catalog = Catalog(
    venues: set<VenueId>,
    events: map<EventId, Event>,
    seats: map<SeatId, Seat>,
    tiers: map<TierId, PriceTier>,
    pricing: map<(EventId, string), TierId>)  // SectionPricing, keyed by its primary key

  /** The tier a seat is priced at for an event: Seats LEFT JOIN
      SectionPricing ON section and event LEFT JOIN PriceTiers.  A seat
      without a section, a section without pricing, or pricing naming a
      missing tier has no tier. */
  function TierOf(cat: Catalog, event: EventId, seat: SeatId): Option<PriceTier> {
    if seat in cat.seats && cat.seats[seat].section.Some?
       && (event, cat.seats[seat].section.value) in cat.pricing
       && cat.pricing[(event, cat.seats[seat].section.value)] in cat.tiers
    then Some(cat.tiers[cat.pricing[(event, cat.seats[seat].section.value)]])
    else None
  }

  /** `price_cents or 0` (equivalently `COALESCE(pt.price_cents, 0)`). */
  function PriceOf(cat: Catalog, event: EventId, seat: SeatId): nat {
    match TierOf(cat, event, seat)
    case Some(t) => t.priceCents
    case None => 0
  }

  /** The seats of a venue: `SELECT ... FROM Seats WHERE venue_id = ?`. */
  ghost function VenueSeats(cat: Catalog, venue: VenueId): set<SeatId> {
    set s | s in cat.seats && cat.seats[s].venue == venue
  }
}
