# Tessera seat hold-and-sale model

Tessera sells seats for scheduled events. This project models its seat
inventory and reservation core:

- the per-event seat status rows (`AVAILABLE`, `HELD`, `SOLD`);
- carts, which hold seats for ten minutes, and their `CartSeats` rows;
- the conversion of a cart, or of a direct order, into a `PAID` order with
  one order item and one `ISSUED` ticket per seat;
- the administrative sweep of lapsed holds;
- ticket scanning and voiding;
- the inventory and cart-total read models;
- the schema's status domains and the demonstration seed data.

The tables the handlers write are fields of the class `Store.Database`.
Each handler is a method of that class. Every method that changes state is
proved to perform exactly one transition function of module `Machine` on
a value `Snapshot` of those tables. The transitions are:

- `Hold`
- `ReleaseFrom`
- `ExpireCart`
- `SellCart`
- `RecordSale`
- `SweepHolds`
- `ScanTicketState`
- `VoidTicketState`

Two invariants are proved preserved by each transition except `RecordSale`.
`RecordSale`, the direct order, always keeps `ValidState`. It keeps
`ConsistentState` only when every listed seat is stored `AVAILABLE` (see
Findings).

`ValidState` is referential and arithmetic. Every holder names an existing
cart of the same event. Every `CartSeats` row names an existing cart. There
is at most one `OPEN` cart per buyer and event. Every ticket leads to an
order item, and every order item to an order. Every order's total is the
sum of its line totals.

`ConsistentState` is about seats:

- A `HELD` row carries a holder and an expiry, and other rows carry neither.
- For every `OPEN` cart, its `CartSeats` rows are exactly the seats held by it.
- Every `SOLD` row has exactly one live ticket. Each live ticket leads to a
  `SOLD` row.

The loops of the handlers are value-level methods, proved against the same
functions:

- `Store.TakeRows`
- `Store.PickSections`
- `Store.ReleaseHeld`
- `Store.SellSeats`
- `Store.FreeLapsedRows`
- `Store.ExpireCarts`

Identifiers are ids into append-only sequences: cart, order, order-item and
ticket id `k` is element `k - 1`. Times are integer seconds. The clock is a
parameter of the handlers that read it. The random UUIDs that barcodes are
cut from come from an oracle `uuid: nat -> string`, where ticket `k` takes
`uuid(k)`. The payment provider's answer is a parameter `Payment`.

The model follows the code. It departs from the system's intended design in
these places:

- No handler treats an expired hold as available.
  - `reserve` refuses any seat whose stored row is not `AVAILABLE`. Only the
    admin sweep frees lapsed holds, and it uses a strict `<`.
  - `checkout` and `create-payment-intent` both refuse an expired cart
    (410). Both mark that cart `EXPIRED` and leave its seats held.
  - `complete-purchase` does not check expiry.
- Prices are not pinned at hold time. Each cart read, intent and sale
  re-reads the current tier price, and a seat without a price counts as 0.
- Reusing a cart resets the cart's expiry, but stamps the new expiry only on
  the newly held seats.
- Releasing the last seat of a cart marks the cart `EXPIRED`.
- Voiding accepts an `ISSUED` or a `SCANNED` ticket. It sets the seat's
  status to `AVAILABLE` and leaves the row's holder and expiry as they were.
- A direct order (`POST /orders`) checks neither seat status nor holds (see
  Findings).

## Model

| member | source | states |
|---|---|---|
| Schema.ParseSeatStatus | backend/init_db.py:138 | accepts exactly `AVAILABLE`, `HELD`, `SOLD`, and is the inverse of `SeatStatusName` |
| Schema.ParseCartStatus | backend/init_db.py:104 | accepts exactly `OPEN`, `CONVERTED`, `EXPIRED`, and is the inverse of `CartStatusName` |
| Schema.ParseEventStatus | backend/init_db.py:51 | accepts exactly the four event statuses, and is the inverse of `EventStatusName` |
| Schema.ParseOrderStatus | backend/init_db.py:164 | accepts exactly the four order statuses, and is the inverse of `OrderStatusName` |
| Schema.ParseTicketStatus | backend/app.py:1541-1600 | accepts exactly `ISSUED`, `SCANNED`, `VOIDED`, and is the inverse of `TicketStatusName` |
| Schema.ParseRole | backend/init_db.py:31 | accepts exactly `CUSTOMER` and `ADMIN`, and is the inverse of `RoleName` |
| Access.AdminRequired | backend/app.py:102-115 | lets a request through iff the role is `ADMIN`; anything else, or no role, gets 403 |
| Access.UserRequired | backend/app.py:118-132 | lets a request through iff the role is `CUSTOMER` or `ADMIN`; anything else gets 403 |
| Access.AdminPassesUserGate | backend/app.py:102-132 | every role the admin gate admits also passes the user gate |
| Decimal.NatToString | backend/init_db.py:247 | `str` of a natural number is a non-empty string of digits, one character long iff the number is below 10 |
| Decimal.IntToString | backend/app.py:1100-1109 | `str` of an integer is non-empty and starts with `-` iff the integer is negative |
| Decimal.NatToStringInjective | backend/init_db.py:247 | two naturals with the same decimal text are equal |
| Decimal.IntToStringInjective | backend/app.py:1153-1155 | two integers with the same decimal text are equal |
| Barcode.UuidHexDigits | backend/app.py:986 | removing the dashes from canonical UUID text leaves its five hex groups, concatenated |
| Barcode.BarcodeOf | backend/app.py:986 | a barcode is the first 16 hex digits of the UUID, upper-cased: 16 upper-case hex characters |
| Tables.UnavailableSeats | backend/app.py:754-770 | lists exactly the requested seats whose stored row exists and is not `AVAILABLE`, each as often as it was requested |
| Tables.UnavailableSeatsAppend | backend/app.py:756-764 | the list for a concatenated request is the list for its first part followed by the list for its second, so the list keeps request order |
| Tables.OpenCartOf | backend/app.py:772-778 | finds the first `OPEN` cart of the buyer for the event, and returns none iff there is no such cart |
| Tables.StartHold | backend/app.py:772-789 | reuses the buyer's open cart with the new expiry, or appends a new `OPEN` cart; leaves every other cart unchanged |
| Steps.HoldKeepsOneOpenCart | backend/app.py:772-789 | reusing or creating a cart keeps at most one `OPEN` cart per buyer and event |
| Steps.ExpireKeepsOneOpenCart | backend/app.py:1522-1524 | expiring carts keeps at most one `OPEN` cart per buyer and event |
| Steps.HoldKeepsAgreement | backend/app.py:791-802 | holding seats that are not stored `HELD` or `SOLD` keeps each open cart's `CartSeats` equal to its held seats |
| Steps.ReleaseKeepsAgreement | backend/app.py:871-890 | releasing seats held by the cart keeps that agreement, whether or not the cart is then expired |
| Steps.SellKeepsAgreement | backend/app.py:969-1005 | selling a cart's held seats and converting the cart keeps that agreement |
| Steps.SweepKeepsAgreement | backend/app.py:1501-1524 | freeing lapsed rows and expiring their holders keeps that agreement |
| Steps.SweepLeavesNoLapsedHold | backend/app.py:1501-1520 | after the sweep no row is a lapsed hold, and every row that was not lapsed is unchanged |
| Steps.SellOneKeepsSoldOnce | backend/app.py:975-992 | selling one unsold seat, with its item and ticket, keeps exactly one live ticket per `SOLD` row |
| Steps.ScanKeepsSoldOnce | backend/app.py:1547-1562 | scanning an `ISSUED` ticket keeps exactly one live ticket per `SOLD` row |
| Steps.VoidKeepsSoldOnce | backend/app.py:1580-1602 | voiding a live ticket and freeing its seat keeps exactly one live ticket per `SOLD` row |
| Steps.VoidKeepsAgreement | backend/app.py:1580-1602 | voiding a live ticket leaves the held seats of every cart unchanged |
| Inventory.StatusPartition | backend/app.py:616-618 | for any seat set, the `AVAILABLE` count (a missing row counting as available), the `HELD` count and the `SOLD` count add up to its size |
| Inventory.SectionCounts | backend/app.py:612-627 | a section's available, held and sold counts add up to its total, and the total is the number of the venue's seats in that section |
| Inventory.SectionSizesSum | backend/app.py:630-635 | summing the section sizes over a set of sections counts every seat of those sections once |
| Inventory.Totals | backend/app.py:630-635 | the totals are defined as the column sums over the sections; their available, held and sold add up to their total, which is the venue's seat count |
| Inventory.EventInventory | backend/app.py:596-645 | 404 iff the event is unknown; otherwise it carries the event's status and one entry per section of its venue, each adding up |
| Inventory.CartTotal | backend/app.py:686 | a cart's total is never negative |
| Machine.PriceSumIsTotal | backend/app.py:967 | summing current prices over a duplicate-free seat list equals the total over its seats, so the order total equals the cart total |
| Machine.ItemsTotalNewItems | backend/app.py:975-985 | appending a sale's items raises the line-total sum of that order by the list's price sum, and of no other order |
| Machine.RecordSaleKeepsValid | backend/app.py:969-1005 | a sale keeps every referential invariant, and the new order's total equals its line totals |
| Machine.SaleTicketsAdmit | backend/app.py:981-996 | the i-th sold seat gets a new `ISSUED` ticket with a 16-character barcode, and that ticket leads back to the event and the seat |
| Machine.CartSaleChargesCartTotal | backend/app.py:967-975 | the order made from a cart is `PAID`, for the cart's buyer and event, for exactly the cart total |
| Machine.SellListKeepsSoldOnce | backend/app.py:975-992 | selling a duplicate-free list of existing unsold seats keeps exactly one live ticket per `SOLD` row |
| Machine.SellCartKeepsInvariants | backend/app.py:969-1005 | finalising an open cart over seats it holds keeps both invariants |
| Machine.SellCartKeepsConsistent | backend/app.py:969-1005 | finalising an open cart over seats it holds keeps the seat invariants |
| Machine.HoldKeepsInvariants | backend/app.py:772-802 | holding seats not stored `HELD` or `SOLD` keeps both invariants |
| Machine.HoldKeepsConsistent | backend/app.py:791-802 | holding seats not stored `HELD` or `SOLD` keeps the seat invariants |
| Machine.ReleaseKeepsInvariants | backend/app.py:871-890 | releasing seats whose holder is the open cart keeps both invariants, including when the cart is left empty and expired |
| Machine.ReleaseKeepsConsistent | backend/app.py:871-890 | releasing those seats keeps the seat invariants |
| Machine.ExpireKeepsInvariants | backend/app.py:934-938 | marking a cart `EXPIRED` keeps both invariants |
| Machine.SweepKeepsInvariants | backend/app.py:1501-1524 | the sweep keeps both invariants |
| Machine.ScanKeepsInvariants | backend/app.py:1547-1562 | scanning an `ISSUED` ticket keeps both invariants |
| Machine.VoidKeepsInvariants | backend/app.py:1580-1602 | voiding a live ticket keeps both invariants |
| Machine.CheckedSaleKeepsInvariants | backend/app.py:1314-1345 | a direct sale of distinct, stored-`AVAILABLE` seats keeps both invariants |
| Machine.CheckedSaleKeepsConsistent | backend/app.py:1314-1345 | a direct sale of distinct, stored-`AVAILABLE` seats keeps the seat invariants |
| Machine.OneSeatSoldIsValid | backend/app.py:1314-1345 | the state with seat 1 of event 1 sold once, with its ticket, satisfies the referential invariants |
| Machine.DirectSaleSellsTwice | backend/app.py:1314-1345 | from a consistent state where the seat is sold, a direct order for it breaks "one live ticket per `SOLD` row" |
| Store.IntentMetadataIdentifiesCart | backend/app.py:1153-1155 | payment metadata built for cart c and user u passes the purchase check for (c', u') iff c = c' and u = u' |
| Store.TakeRows | backend/app.py:733-748 | takes min(limit, available) distinct seats of the set, and takes fewer than the limit only if it took them all |
| Store.ReleasedList | backend/app.py:871-885 | the released list is the request scanned front to back, keeping each seat held by the cart once; it has no repeats and holds exactly the requested seats the cart held |
| Store.ReleaseHeld | backend/app.py:871-885 | returns `ReleasedList`, the request filtered front to back with repeats skipped, and releases exactly those seats: rows back to `AVAILABLE`, and their `CartSeats` rows deleted |
| Store.SellSeats | backend/app.py:969-992 | succeeds iff the seat list has no repeat; then rows, items and tickets are exactly those of the sale |
| Store.SellOne | backend/app.py:975-992 | one seat: its row (if any) `SOLD`, one item at the current price, one `ISSUED` ticket |
| Store.FreeLapsedRows | backend/app.py:1501-1520 | frees exactly the lapsed `HELD` rows, counts them, and collects their holders |
| Store.ExpireCarts | backend/app.py:1522-1524 | marks the named `OPEN` carts `EXPIRED` and deletes their `CartSeats` rows |
| Store.Database.constructor | backend/init_db.py:288-303 | an empty ledger and no carts over status rows that are all `AVAILABLE`; both invariants hold |
| Store.Database.CollectUnavailable | backend/app.py:754-770 | returns the unavailable requested seats in request order |
| Store.Database.HoldSeats | backend/app.py:791-802 | every listed seat becomes `HELD` by the cart until the new expiry, and gains a `CartSeats` row |
| Store.PickSections | backend/app.py:727-748 | reports a short section iff some positive request exceeds that section's available seats, and then reports the first such entry in request order; otherwise picks distinct seats, exactly the requested quantity from each requested section's available seats (`ServesSections`), and nothing else |
| Store.PickedSoFarStep | backend/app.py:727-748 | serving one more entry with distinct available seats of its own section keeps every earlier entry's count, because differently named sections share no seat |
| Store.Database.SelectSeats | backend/app.py:727-770 | chooses between 409 for the first short section, 400 no seats, 409 unavailable seats and a seat list that is not stored `HELD` or `SOLD`; a by-section list is distinct, with exactly each entry's quantity from its own section |
| Store.Database.HoldFor | backend/app.py:772-802 | performs `Hold` and returns the reused or new cart id; keeps the invariants |
| Store.Database.Reserve | backend/app.py:695-837 | gives 404, 400, 409 (the first short section), 400 (nothing asked) or 409 (unavailable) exactly in their cases and then changes nothing; otherwise holds the seats for ten minutes and keeps the invariants; a by-section hold is of distinct seats, exactly each entry's quantity from its own section |
| Store.Database.Release | backend/app.py:840-902 | gives 400 iff no seats are named, and 404 iff the buyer has no open cart; otherwise releases exactly the named seats whose holder is that cart and reports them as `ReleasedList`, in request order with repeats skipped |
| Store.Database.ListCartSeats | backend/app.py:942-954 | lists each catalogued seat of the cart once |
| Store.Database.FirstSeatNotHeld | backend/app.py:956-965 | returns the first listed seat not `HELD` by the cart, or none iff all are |
| Store.Database.CheckCartSeats | backend/app.py:942-965 | a cart with no catalogued seats gives 400; a seat not held by the cart gives 409; otherwise the cart passes |
| Store.Database.FinaliseCart | backend/app.py:969-1007 | performs `SellCart`: a new order charged the price sum of the seats |
| Store.Database.Checkout | backend/app.py:908-1022 | gives 404 for a cart the buyer does not own open, and 410 (expiring it) for a lapsed cart; otherwise 400 or 409 from the seat checks, and changes nothing; or sells the cart for its cart total |
| Store.Database.CreatePaymentIntent | backend/app.py:1025-1122 | gives 400, 404 or 410 in their cases; a positive cart total gives an intent for that amount with metadata naming cart, user, event and seat count; no state changes except expiry on 410 |
| Store.Database.CompletePurchase | backend/app.py:1125-1267 | sells the cart iff the inputs are present, the payment succeeded, its metadata names this cart and user, and the cart is the buyer's open cart with held seats; otherwise changes nothing |
| Store.Database.PriceListedSeats | backend/app.py:1296-1312 | returns the first listed seat missing from the catalogue, or none iff none is missing; in that case it returns the price sum |
| Store.Database.CreateOrder | backend/app.py:1273-1359 | gives 400 for missing input, 404 for an unknown seat and 500 for a repeated seat, changing nothing; otherwise records the sale as written, with no seat-status check |
| Store.Database.RecordOrder | backend/app.py:1314-1345 | records the sale iff the seat list has no repeat; otherwise rolls back to the old state |
| Store.Database.CreateOrderChecked | backend/app.py:1273-1359 | like `CreateOrder`, but 409 unless every seat is stored `AVAILABLE`; it keeps both invariants |
| Store.Database.CleanupExpiredHolds | backend/app.py:1487-1535 | 403 iff not admin; otherwise performs `SweepHolds` and reports the number of freed rows and of their holders |
| Store.Database.ScanTicket | backend/app.py:1538-1568 | 403, 404, 409 (already scanned) or 400 (voided) exactly in their cases; scans iff the ticket is `ISSUED` |
| Store.Database.VoidTicket | backend/app.py:1571-1613 | 403, 404 or 400 (already voided) in their cases; voids an `ISSUED` or `SCANNED` ticket and frees its seat |
| Seed.SeededEventsClosedForm | backend/init_db.py:212-223 | event 1001 + i is the i-th seeded event, at venue 1 + i mod 3 |
| Seed.EventVenuesAgree | backend/init_db.py:290-293 | the status-seeding venue table covers exactly events 1001..1010, and agrees with the event list |
| Seed.SeatAtDecode | backend/init_db.py:231-249 | the seat numbered during venue v, row r, column col is at that venue, row and column |
| Seed.RowLabelsDistinct | backend/init_db.py:234 | the ten row labels are pairwise distinct |
| Seed.SeatLabelsUnique | backend/init_db.py:231-249 | no two seeded seats share a venue, row label and seat number |
| Seed.SeededPricingConsistent | backend/init_db.py:251-286 | each seeded section pricing names a tier of the same event with the same code |
| Seed.SeededPrice | backend/init_db.py:251-286 | in a seeded catalogue, rows A-C cost 15000, D-F 10000 and G-J 5000 cents at every event |
| Seed.SeedEvents | backend/init_db.py:212-229 | creates exactly events 1001..1010, all `ON_SALE`, at their venues |
| Seed.SeedSeats | backend/init_db.py:231-249 | creates exactly seats 1..450, each as laid out by venue, row and column |
| Seed.SeedTiers | backend/init_db.py:251-268 | creates exactly tiers 1..30, three per event |
| Seed.SeedPricing | backend/init_db.py:270-286 | creates pricing for exactly the three sections of each event, pointing at that event's tier |
| Seed.SeedStatusRows | backend/init_db.py:288-303 | creates one `AVAILABLE` row for exactly each pair of an event and a seat of its venue |
| Seed.SeedData | backend/init_db.py:202-305 | produces the seeded catalogue and status rows |
| Seed.InitDatabase | backend/init_db.py:193-196 | seeds only when there are no venues, and otherwise leaves the data unchanged |

## Left out

- Transport: HTTP, JSON bodies, response detail fields and the dollar amounts (cents / 100) are not modelled. Outcomes are datatypes carrying the status code.
- JWT decoding and user lookup: the caller's id and role are inputs.
- The payment provider is not modelled. A payment is an input `Payment` (status and metadata). Provider exceptions are not modelled.
- Clock: `now` is an integer parameter, not `datetime.utcnow()`. ISO text comparison is modelled as integer comparison.
- Randomness: `uuid.uuid4()` is an oracle `uuid: nat -> string` that yields canonical UUID text.
- Concurrency, transactions between requests, and SQLite locking: every handler runs alone.
- Unexpected exceptions (500) are not modelled, except for the `UNIQUE(order_id, seat_id)` failure of a repeated seat in `POST /orders`. That failure rolls back.
- The inventory rows' price and tier columns are not modelled. Neither are the display columns of cart and seat queries.
- `get_cart`'s list of every open cart of the buyer is not modelled; only the total of one cart is (`Inventory.CartTotal`).
- The `Tickets` table is not created by `backend/init_db.py`. It is modelled as (ticket id, order item, barcode, status).
- Venue data and the seed's event names, dates and images are not modelled.
- Foreign keys, which the application never enables, are not modelled. Seat ids that are not in the catalogue can be held.
- Other endpoints are not part of this model: users, login, venues, event administration, order and ticket lookup, and e-mails.
- Inventory.CartTotal: its own contract states only that the total is non-negative. The tie to the charged amount is stated by `Machine.CartSaleChargesCartTotal`, `Store.Database.Checkout` and `Store.Database.CreatePaymentIntent`.
- Store.PickSections: the SQL row order is unspecified. Which available seats of a section are picked is not determined; that they are distinct, and how many come from each section, is.
- The `sections` object of a reservation request is a sequence of (name, quantity) pairs in the object's order. `Store.PickSections`, `Store.Database.SelectSeats` and `Store.Database.Reserve` require its names to be distinct, as the keys of a JSON object are; a sequence repeating a name has no counterpart in the source.
- Store.Database.CreateOrder: keeps `ValidState` but not the seat invariants. This is the finding below.

## Findings

| source | as written | input that shows it | evidently intended | confidence | as-written member | corrected member |
|---|---|---|---|---|---|---|
| backend/app.py:1314-1345 | `POST /orders` marks each listed seat `SOLD` and issues a ticket. It never checks the seat's status. | Seat 1 of event 1 is already `SOLD` with one live ticket. Then user 2 posts `{event_id: 1, seat_ids: [1]}`. The seat now has two live tickets. | Refuse (409) unless every listed seat has a stored `AVAILABLE` row. This is stricter than `reserve`, which accepts a seat with no status row. | not executed | Machine.DirectSaleSellsTwice | Store.Database.CreateOrderChecked |
