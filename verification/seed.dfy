/**
 * Database initialisation: the sample data written when the Venues table
 * is empty.  Three venues of 10 rows by 15 seats (ids 1..450 in venue,
 * row, column order), ten ON_SALE events 1001..1010 cycling through the
 * venues, three price tiers per event and the section pricing that maps
 * each event's VIP, PREMIUM and STANDARD sections to its own tiers, and
 * an AVAILABLE EventSeatStatus row for every seat of every event's venue.
 */
module Seed {
  import opened Schema
  import opened Decimal
  import opened Catalog
  import opened Tables

  const SeededVenues: seq<VenueId> := [1, 2, 3]

  /** (event_id, venue_id) of the inserted events, all ON_SALE. */
  const SeededEvents: seq<(EventId, VenueId)> :=
    [(1001, 1), (1002, 2), (1003, 3), (1004, 1), (1005, 2),
     (1006, 3), (1007, 1), (1008, 2), (1009, 3), (1010, 1)]

  /** The separate event-to-venue table the status rows are built from. */
  const EventVenues: map<EventId, VenueId> :=
    map[1001 := 1, 1002 := 2, 1003 := 3, 1004 := 1, 1005 := 2,
        1006 := 3, 1007 := 1, 1008 := 2, 1009 := 3, 1010 := 1]

  const FirstEvent: int := 1001
  const LastEvent: int := 1010

  const RowLabels: seq<string> := ["A", "B", "C", "D", "E", "F", "G", "H", "I", "J"]
  const SeatsPerRow: int := 15
  const SeatsPerVenue: int := 150
  const SeatCount: int := 450
  const TierCount: int := 30

  const TierCodes: seq<string> := ["VIP", "PREMIUM", "STANDARD"]
  const TierNames: seq<string> := ["VIP Seating", "Premium Seating", "Standard Seating"]
  const TierPrices: seq<nat> := [15000, 10000, 5000]

  /** Rows A-C are VIP, D-F PREMIUM, the rest STANDARD. */
  function SectionOfRow(rowIdx: int): string {
    if rowIdx < 3 then "VIP" else if rowIdx < 6 then "PREMIUM" else "STANDARD"
  }

  /** Position of a tier code in the per-event tier triple. */
  function CodeIndex(code: string): int {
    if code == "VIP" then 0 else if code == "PREMIUM" then 1 else 2
  }

  function RowIndex(id: SeatId): int {
    ((id - 1) % SeatsPerVenue) / SeatsPerRow
  }

  /** The seat the seeding loops insert with id `id`. */
  function SeatAt(id: SeatId): Seat
    requires 1 <= id <= SeatCount
  {
    var col := (id - 1) % SeatsPerRow + 1;
    Seat((id - 1) / SeatsPerVenue + 1, RowLabels[RowIndex(id)], NatToString(col), col, Some(SectionOfRow(RowIndex(id))))
  }

  /** Venue of a seeded event: the events cycle through venues 1, 2, 3. */
  function EventVenueOf(e: EventId): VenueId {
    (e - FirstEvent) % 3 + 1
  }

  /** The tier the seeding loops insert with id `id`: three per event. */
  function TierAt(id: TierId): PriceTier
    requires 1 <= id <= TierCount
  {
    var j := (id - 1) % 3;
    PriceTier(FirstEvent + (id - 1) / 3, TierCodes[j], TierNames[j], TierPrices[j])
  }

  /** The tier id the seeded pricing gives section `code` of event `e`. */
  function PricingTierOf(e: EventId, code: string): TierId {
    3 * (e - FirstEvent) + 1 + CodeIndex(code)
  }

  ghost predicate IsSeedCatalog(cat: Catalog) {
    && cat.venues == {1, 2, 3}
    && (forall e :: e in cat.events <==> FirstEvent <= e <= LastEvent)
    && (forall e :: e in cat.events ==> cat.events[e] == Event(EventVenueOf(e), OnSale))
    && (forall id :: id in cat.seats <==> 1 <= id <= SeatCount)
    && (forall id :: id in cat.seats ==> cat.seats[id] == SeatAt(id))
    && (forall id :: id in cat.tiers <==> 1 <= id <= TierCount)
    && (forall id :: id in cat.tiers ==> cat.tiers[id] == TierAt(id))
    && (forall k :: k in cat.pricing <==> FirstEvent <= k.0 <= LastEvent && k.1 in TierCodes)
    && (forall k :: k in cat.pricing ==> cat.pricing[k] == PricingTierOf(k.0, k.1))
  }

  /** One AVAILABLE row for each seat of each event's venue, no other. */
  ghost predicate IsSeedRows(cat: Catalog, rows: map<SeatKey, SeatRow>) {
    && (forall k :: k in rows <==> k.0 in cat.events && k.1 in cat.seats && cat.seats[k.1].venue == cat.events[k.0].venue)
    && (forall k :: k in rows ==> rows[k] == AvailableRow)
  }

  // =====================================================================
  // Closed forms of the seeded constants

  /** The event list is events 1001..1010 with venues cycling 1, 2, 3. */
  lemma SeededEventsClosedForm(i: int)
    requires 0 <= i < |SeededEvents|
    ensures SeededEvents[i] == (FirstEvent + i, EventVenueOf(FirstEvent + i))
  {
  }

  /** The event-to-venue table agrees with the event list. */
  lemma EventVenuesAgree(e: EventId)
    ensures e in EventVenues <==> FirstEvent <= e <= LastEvent
    ensures e in EventVenues ==> EventVenues[e] == EventVenueOf(e) && EventVenues[e] == SeededEvents[e - FirstEvent].1
  {
  }

  /** The seat inserted for venue index `v`, row index `r` and column
      `col` gets id 150v + 15r + col. */
  lemma SeatAtDecode(v: int, r: int, col: int)
    requires 0 <= v < 3 && 0 <= r < 10 && 1 <= col <= 15
    ensures var id := 150 * v + 15 * r + col;
      1 <= id <= SeatCount && RowIndex(id) == r
      && SeatAt(id) == Seat(SeededVenues[v], RowLabels[r], NatToString(col), col, Some(SectionOfRow(r)))
  {
    var id := 150 * v + 15 * r + col;
    assert (id - 1) / 150 == v && (id - 1) % 150 == 15 * r + col - 1;
    assert (id - 1) % 15 == col - 1;
  }

  /** Every seeded id splits back into venue, row and column. */
  lemma SeatIdSplit(id: SeatId)
    requires 1 <= id <= SeatCount
    ensures 0 <= RowIndex(id) < 10 && RowIndex(id) == ((id - 1) % 150) / 15
    ensures id - 1 == 150 * ((id - 1) / 150) + 15 * RowIndex(id) + (id - 1) % 15
  {
    var m := (id - 1) % 150;
    assert id - 1 == 150 * ((id - 1) / 150) + m;
    assert m == 15 * (m / 15) + m % 15;
    assert m % 15 == (id - 1) % 15;
  }

  /** Row labels A..J are distinct. */
  lemma RowLabelsDistinct(i: int, j: int)
    requires 0 <= i < 10 && 0 <= j < 10 && RowLabels[i] == RowLabels[j]
    ensures i == j
  {
    assert RowLabels[i][0] == 'A' + i as char && RowLabels[j][0] == 'A' + j as char;
  }

  /** The seeded seats satisfy UNIQUE(venue_id, row_label, seat_number). */
  lemma SeatLabelsUnique(a: SeatId, b: SeatId)
    requires 1 <= a <= SeatCount && 1 <= b <= SeatCount
    requires SeatAt(a).venue == SeatAt(b).venue && SeatAt(a).rowLabel == SeatAt(b).rowLabel
    requires SeatAt(a).seatNumber == SeatAt(b).seatNumber
    ensures a == b
  {
    SeatIdSplit(a);
    SeatIdSplit(b);
    RowLabelsDistinct(RowIndex(a), RowIndex(b));
    NatToStringInjective((a - 1) % SeatsPerRow + 1, (b - 1) % SeatsPerRow + 1);
    assert (a - 1) % 15 == (b - 1) % 15 && (a - 1) / 150 == (b - 1) / 150;
  }

  /** Each pricing row names a tier of the same event whose code is the
      priced section. */
  lemma SeededPricingConsistent(cat: Catalog, k: (EventId, string))
    requires IsSeedCatalog(cat) && k in cat.pricing
    ensures cat.pricing[k] in cat.tiers
    ensures cat.tiers[cat.pricing[k]].event == k.0 && cat.tiers[cat.pricing[k]].tierCode == k.1
  {
    var id := cat.pricing[k];
    assert id == 3 * (k.0 - FirstEvent) + 1 + CodeIndex(k.1);
    assert (id - 1) / 3 == k.0 - FirstEvent;
    assert TierCodes[(id - 1) % 3] == k.1;
  }

  /** A seeded seat costs 150.00 in rows A-C, 100.00 in rows D-F and
      50.00 in rows G-J, whatever the event. */
  lemma SeededPrice(cat: Catalog, e: EventId, s: SeatId)
    requires IsSeedCatalog(cat)
    requires FirstEvent <= e <= LastEvent && 1 <= s <= SeatCount
    ensures PriceOf(cat, e, s) == if RowIndex(s) < 3 then 15000 else if RowIndex(s) < 6 then 10000 else 5000
  {
    var code := SectionOfRow(RowIndex(s));
    assert cat.seats[s].section == Some(code);
    assert code in TierCodes;
    assert (e, code) in cat.pricing;
    SeededPricingConsistent(cat, (e, code));
    var id := cat.pricing[(e, code)];
    assert (id - 1) % 3 == CodeIndex(code);
  }

  // =====================================================================
  // Seeding

  /** The events loop: ten ON_SALE events cycling through the venues. */
  method SeedEvents() returns (events: map<EventId, Event>)
    ensures forall e :: e in events <==> FirstEvent <= e <= LastEvent
    ensures forall e :: e in events ==> events[e] == Event(EventVenueOf(e), OnSale)
  {
    events := map[];
    for i := 0 to |SeededEvents|
      invariant forall e :: e in events <==> FirstEvent <= e < FirstEvent + i
      invariant forall e :: e in events ==> events[e] == Event(EventVenueOf(e), OnSale)
    {
      SeededEventsClosedForm(i);
      var (eventId, venueId) := SeededEvents[i];
      events := events[eventId := Event(venueId, OnSale)];
    }
  }

  /** The seats inserted so far: ids 1 up to, not including, `next`. */
  ghost predicate SeatsBelow(seats: map<SeatId, Seat>, next: int) {
    && (forall id :: id in seats <==> 1 <= id < next)
    && (forall id :: id in seats ==> 1 <= id <= SeatCount && seats[id] == SeatAt(id))
  }

  lemma SeatsBelowStep(seats: map<SeatId, Seat>, next: int)
    requires SeatsBelow(seats, next) && 1 <= next <= SeatCount
    ensures SeatsBelow(seats[next := SeatAt(next)], next + 1)
  {
  }

  /** The seats loops: 10 rows of 15 seats per venue, ids counted up from 1. */
  method SeedSeats() returns (seats: map<SeatId, Seat>)
    ensures forall id :: id in seats <==> 1 <= id <= SeatCount
    ensures forall id :: id in seats ==> seats[id] == SeatAt(id)
  {
    seats := map[];
    var seatId := 1;
    for v := 0 to |SeededVenues|
      invariant seatId == 150 * v + 1 && SeatsBelow(seats, seatId)
    {
      var venueId := SeededVenues[v];
      for r := 0 to |RowLabels|
        invariant seatId == 150 * v + 15 * r + 1 && SeatsBelow(seats, seatId)
      {
        var section := if r < 3 then "VIP" else if r < 6 then "PREMIUM" else "STANDARD";
        for col := 1 to 16
          invariant seatId == 150 * v + 15 * r + col && SeatsBelow(seats, seatId)
        {
          SeatAtDecode(v, r, col);
          SeatsBelowStep(seats, seatId);
          seats := seats[seatId := Seat(venueId, RowLabels[r], NatToString(col), col, Some(section))];
          seatId := seatId + 1;
        }
      }
    }
  }

  /** The price tier loop: VIP, PREMIUM and STANDARD tiers per event. */
  method SeedTiers() returns (tiers: map<TierId, PriceTier>)
    ensures forall id :: id in tiers <==> 1 <= id <= TierCount
    ensures forall id :: id in tiers ==> tiers[id] == TierAt(id)
  {
    tiers := map[];
    var tierId := 1;
    for e := FirstEvent to LastEvent + 1
      invariant tierId == 3 * (e - FirstEvent) + 1
      invariant forall id :: id in tiers <==> 1 <= id < tierId
      invariant forall id :: id in tiers ==> tiers[id] == TierAt(id)
    {
      tiers := tiers[tierId := PriceTier(e, "VIP", "VIP Seating", 15000)];
      tierId := tierId + 1;
      tiers := tiers[tierId := PriceTier(e, "PREMIUM", "Premium Seating", 10000)];
      tierId := tierId + 1;
      tiers := tiers[tierId := PriceTier(e, "STANDARD", "Standard Seating", 5000)];
      tierId := tierId + 1;
    }
  }

  /** The section pricing loop: each event's sections point at the
      three tiers starting at 1 + offset, the offset growing by three. */
  method SeedPricing() returns (pricing: map<(EventId, string), TierId>)
    ensures forall k :: k in pricing <==> FirstEvent <= k.0 <= LastEvent && k.1 in TierCodes
    ensures forall k :: k in pricing ==> pricing[k] == PricingTierOf(k.0, k.1)
  {
    pricing := map[];
    var offset := 0;
    for e := FirstEvent to LastEvent + 1
      invariant offset == 3 * (e - FirstEvent)
      invariant forall k :: k in pricing <==> FirstEvent <= k.0 < e && k.1 in TierCodes
      invariant forall k :: k in pricing ==> pricing[k] == PricingTierOf(k.0, k.1)
    {
      var baseTier := 1 + offset;
      pricing := pricing[(e, "VIP") := baseTier];
      pricing := pricing[(e, "PREMIUM") := baseTier + 1];
      pricing := pricing[(e, "STANDARD") := baseTier + 2];
      offset := offset + 3;
    }
  }

  /** The EventSeatStatus loop: for each entry of the event-to-venue
      table, one AVAILABLE row per seat of that venue. */
  method SeedStatusRows(seats: map<SeatId, Seat>) returns (rows: map<SeatKey, SeatRow>)
    requires forall id :: id in seats <==> 1 <= id <= SeatCount
    requires forall id :: id in seats ==> seats[id] == SeatAt(id)
    ensures forall k :: k in rows <==> FirstEvent <= k.0 <= LastEvent && 1 <= k.1 <= SeatCount && SeatAt(k.1).venue == EventVenueOf(k.0)
    ensures forall k :: k in rows ==> rows[k] == AvailableRow
  {
    rows := map[];
    for e := FirstEvent to LastEvent + 1
      invariant forall k :: k in rows <==> FirstEvent <= k.0 < e && 1 <= k.1 <= SeatCount && SeatAt(k.1).venue == EventVenueOf(k.0)
      invariant forall k :: k in rows ==> rows[k] == AvailableRow
    {
      EventVenuesAgree(e);
      var venueId := EventVenues[e];
      for s := 1 to SeatCount + 1
        invariant forall k :: k in rows <==>
          (FirstEvent <= k.0 < e && 1 <= k.1 <= SeatCount && SeatAt(k.1).venue == EventVenueOf(k.0))
          || (k.0 == e && 1 <= k.1 < s && SeatAt(k.1).venue == venueId)
        invariant forall k :: k in rows ==> rows[k] == AvailableRow
      {
        if seats[s].venue == venueId {
          rows := rows[(e, s) := AvailableRow];
        }
      }
    }
  }

  /** `seed_data`: inserts the sample catalogue and the status rows. */
  method SeedData() returns (cat: Catalog, rows: map<SeatKey, SeatRow>)
    ensures IsSeedCatalog(cat)
    ensures IsSeedRows(cat, rows)
  {
    var events := SeedEvents();
    var seats := SeedSeats();
    var tiers := SeedTiers();
    var pricing := SeedPricing();
    cat := Catalog({1, 2, 3}, events, seats, tiers, pricing);
    rows := SeedStatusRows(seats);
  }

  /** `init_database`: seeds only a database whose Venues table is empty;
      otherwise the stored catalogue and status rows are kept. */
  method InitDatabase(cat: Catalog, rows: map<SeatKey, SeatRow>) returns (cat': Catalog, rows': map<SeatKey, SeatRow>)
    ensures |cat.venues| != 0 ==> cat' == cat && rows' == rows
    ensures |cat.venues| == 0 ==> IsSeedCatalog(cat') && IsSeedRows(cat', rows')
  {
    if |cat.venues| == 0 {
      cat', rows' := SeedData();
    } else {
      cat', rows' := cat, rows;
    }
  }
}
