/**
 * The read models: the per-section inventory summary of an event, its
 * totals, and the price totals shown for a cart and charged for it.
 */
module Inventory {
  import opened Schema
  import opened Catalog
  import opened Tables
  import opened Sums

  // =====================================================================
  // Prices

  /** Sum of the current prices of a set of seats for an event, a
      missing price counting as 0. */
  ghost function PriceTotal(cat: Catalog, e: EventId, seats: set<SeatId>): int {
    SumOver(seats, (s: SeatId) => PriceOf(cat, e, s) as int)
  }

  lemma PriceTotalNonNegative(cat: Catalog, e: EventId, seats: set<SeatId>)
    ensures PriceTotal(cat, e, seats) >= 0
  {
    SumOverNonNegative(seats, (s: SeatId) => PriceOf(cat, e, s) as int);
  }

  /** The seats a cart query returns: CartSeats JOIN Seats, so a seat id
      missing from the catalogue drops out. */
  function CartCatalogSeats(cat: Catalog, cartSeats: set<CartSeat>, c: CartId): set<SeatId> {
    SeatsOf(cartSeats, c) * cat.seats.Keys
  }

  /** `get_cart`'s total for one cart. */
  ghost function CartTotal(cat: Catalog, cartSeats: set<CartSeat>, c: CartId, e: EventId): (t: int)
    ensures t >= 0
  {
    PriceTotalNonNegative(cat, e, CartCatalogSeats(cat, cartSeats, c));
    PriceTotal(cat, e, CartCatalogSeats(cat, cartSeats, c))
  }

  // =====================================================================
  // Inventory

  datatype Counts = Counts(total: int, available: int, held: int, sold: int)

  datatype Inventory = Inventory(eventStatus: EventStatus, sections: map<Option<string>, Counts>, totals: Counts)

  /** The seats of a venue in one section (a missing section is its own group). */
  ghost function SectionSeats(cat: Catalog, venue: VenueId, section: Option<string>): set<SeatId> {
    set s | s in cat.seats && cat.seats[s].venue == venue && cat.seats[s].section == section
  }

  /** The sections present among a venue's seats: the GROUP BY keys. */
  ghost function Sections(cat: Catalog, venue: VenueId): set<Option<string>> {
    set s | s in cat.seats && cat.seats[s].venue == venue :: cat.seats[s].section
  }

  ghost function WithStatus(rows: map<SeatKey, SeatRow>, e: EventId, seats: set<SeatId>, st: SeatStatus): set<SeatId> {
    set s | s in seats && EffectiveStatus(rows, e, s) == st
  }

  /** A status is one of three values and a missing row counts as
      AVAILABLE, so the three counts of any seat set add up to its size. */
  lemma StatusPartition(rows: map<SeatKey, SeatRow>, e: EventId, seats: set<SeatId>)
    ensures |WithStatus(rows, e, seats, Available)| + |WithStatus(rows, e, seats, Held)| + |WithStatus(rows, e, seats, Sold)| == |seats|
  {
    var a, h, d := WithStatus(rows, e, seats, Available), WithStatus(rows, e, seats, Held), WithStatus(rows, e, seats, Sold);
    assert seats == (a + h) + d by {
      forall s | s in seats
        ensures s in a || s in h || s in d
      {
        var st := EffectiveStatus(rows, e, s);
        assert st == Available || st == Held || st == Sold;
      }
    }
    assert a !! h && (a + h) !! d;
    assert |a + h| == |a| + |h|;
    assert |(a + h) + d| == |a + h| + |d|;
  }

  /** One row of the GROUP BY: COUNT(*) and the three conditional sums. */
  ghost function SectionCounts(cat: Catalog, rows: map<SeatKey, SeatRow>, e: EventId, venue: VenueId, section: Option<string>): (c: Counts)
    ensures c.available + c.held + c.sold == c.total
    ensures c.total == |SectionSeats(cat, venue, section)|
  {
    var seats := SectionSeats(cat, venue, section);
    StatusPartition(rows, e, seats);
    Counts(|seats|, |WithStatus(rows, e, seats, Available)|, |WithStatus(rows, e, seats, Held)|, |WithStatus(rows, e, seats, Sold)|)
  }

  ghost function SeatsInSections(cat: Catalog, venue: VenueId, S: set<Option<string>>): set<SeatId> {
    set s | s in cat.seats && cat.seats[s].venue == venue && cat.seats[s].section in S
  }

  /** Summing section sizes over a set of sections counts every seat of
      those sections once. */
  lemma {:induction false} SectionSizesSum(cat: Catalog, venue: VenueId, S: set<Option<string>>)
    ensures SumOver(S, (sec: Option<string>) => |SectionSeats(cat, venue, sec)|) == |SeatsInSections(cat, venue, S)|
    decreases |S|
  {
    var f := (sec: Option<string>) => |SectionSeats(cat, venue, sec)|;
    if S == {} {
      assert SeatsInSections(cat, venue, S) == {};
    } else {
      var sec :| sec in S;
      SumOverRemove(S, f, sec);
      SectionSizesSum(cat, venue, S - {sec});
      var rest := SeatsInSections(cat, venue, S - {sec});
      var here := SectionSeats(cat, venue, sec);
      assert SeatsInSections(cat, venue, S) == rest + here;
      assert rest * here == {};
    }
  }

  /** The inventory totals, defined as the column sums over the sections;
      the contract proves that they add up and that the total counts
      every seat of the venue. */
  ghost function Totals(cat: Catalog, rows: map<SeatKey, SeatRow>, e: EventId, venue: VenueId): (t: Counts)
    ensures t.available + t.held + t.sold == t.total
    ensures t.total == |VenueSeats(cat, venue)|
  {
    var S := Sections(cat, venue);
    var total := (sec: Option<string>) => SectionCounts(cat, rows, e, venue, sec).total;
    var avail := (sec: Option<string>) => SectionCounts(cat, rows, e, venue, sec).available;
    var held := (sec: Option<string>) => SectionCounts(cat, rows, e, venue, sec).held;
    var sold := (sec: Option<string>) => SectionCounts(cat, rows, e, venue, sec).sold;
    var availHeld := (sec: Option<string>) => avail(sec) + held(sec);
    SumOverAdd(S, avail, held, availHeld);
    SumOverAdd(S, availHeld, sold, total);
    SumOverCongruent(S, total, (sec: Option<string>) => |SectionSeats(cat, venue, sec)|);
    SectionSizesSum(cat, venue, S);
    assert SeatsInSections(cat, venue, S) == VenueSeats(cat, venue) by {
      forall s | s in VenueSeats(cat, venue)
        ensures cat.seats[s].section in S
      {
      }
    }
    Counts(SumOver(S, total), SumOver(S, avail), SumOver(S, held), SumOver(S, sold))
  }

  /** `get_event_inventory`: 404 for an unknown event, otherwise one
      count row per section of the event's venue and their totals. */
  ghost function EventInventory(cat: Catalog, rows: map<SeatKey, SeatRow>, e: EventId): (r: Option<Inventory>)
    ensures r.None? <==> e !in cat.events
    ensures r.Some? ==> r.value.eventStatus == cat.events[e].status
    ensures r.Some? ==> r.value.sections.Keys == Sections(cat, cat.events[e].venue)
    ensures r.Some? ==> forall sec :: sec in r.value.sections ==>
      var c := r.value.sections[sec];
      c.available + c.held + c.sold == c.total && c.total == |SectionSeats(cat, cat.events[e].venue, sec)|
    ensures r.Some? ==> r.value.totals.available + r.value.totals.held + r.value.totals.sold == r.value.totals.total
    ensures r.Some? ==> r.value.totals.total == |VenueSeats(cat, cat.events[e].venue)|
  {
    if e !in cat.events then None
    else
      var venue := cat.events[e].venue;
      Some(Inventory(
        cat.events[e].status,
        map sec | sec in Sections(cat, venue) :: SectionCounts(cat, rows, e, venue, sec),
        Totals(cat, rows, e, venue)))
  }
}
