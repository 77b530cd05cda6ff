/**
 * The mutable tables of the reservation core as values: EventSeatStatus
 * rows, Carts, CartSeats, Orders, OrderItems and Tickets; the read-side
 * queries the handlers run against them; the bulk row updates they
 * perform; and the invariants those updates keep, each proved here once
 * for the value-level update and used by the handlers in module Store.
 */
module Tables {
  import opened Schema

  type SeatKey = (EventId, SeatId)
  type CartSeat = (CartId, SeatId)

  /** One EventSeatStatus row (its key is the map key). */
  datatype SeatRow = SeatRow(status: SeatStatus, heldBy: Option<CartId>, holdExpiresAt: Option<Time>)

  const AvailableRow: SeatRow := SeatRow(Available, None, None)
  const SoldRow: SeatRow := SeatRow(Sold, None, None)

  function HeldRow(cart: CartId, until: Time): SeatRow {
    SeatRow(Held, Some(cart), Some(until))
  }

  /** A Carts row; its cart_id is its position in the table plus one. */
  datatype Cart = Cart(user: UserId, event: EventId, status: CartStatus, expiresAt: Time)

  datatype Order = Order(user: UserId, event: EventId, status: OrderStatus, totalCents: nat)

  datatype OrderItem = OrderItem(order: OrderId, seat: SeatId, unitPriceCents: nat, lineTotalCents: nat)

  datatype Ticket = Ticket(orderItem: OrderItemId, barcode: string, status: TicketStatus)

  // =====================================================================
  // Reading EventSeatStatus

  /** A stored row exists and is not AVAILABLE (a missing row counts as
      available). */
  predicate StoredUnavailable(rows: map<SeatKey, SeatRow>, e: EventId, s: SeatId) {
    (e, s) in rows && rows[(e, s)].status != Available
  }

  predicate HeldBy(rows: map<SeatKey, SeatRow>, e: EventId, s: SeatId, c: CartId) {
    (e, s) in rows && rows[(e, s)].status == Held && rows[(e, s)].heldBy == Some(c)
  }

  /** The test `release` applies: only the holder column is compared. */
  predicate HolderIs(rows: map<SeatKey, SeatRow>, e: EventId, s: SeatId, c: CartId) {
    (e, s) in rows && rows[(e, s)].heldBy == Some(c)
  }

  predicate IsSold(rows: map<SeatKey, SeatRow>, k: SeatKey) {
    k in rows && rows[k].status == Sold
  }

  /** `COALESCE(ess.status, 'AVAILABLE')` */
  function EffectiveStatus(rows: map<SeatKey, SeatRow>, e: EventId, s: SeatId): SeatStatus {
    if (e, s) in rows then rows[(e, s)].status else Available
  }

  /** The requested seats whose stored row is not AVAILABLE, in request
      order and with repetitions, as the reservation check lists them. */
  function UnavailableSeats(rows: map<SeatKey, SeatRow>, e: EventId, ids: seq<SeatId>): (r: seq<SeatId>)
    ensures forall s :: s in r <==> s in ids && StoredUnavailable(rows, e, s)
    ensures |r| <= |ids|
    ensures forall i :: 0 <= i < |r| ==> StoredUnavailable(rows, e, r[i])
    ensures forall s :: multiset(r)[s] == if StoredUnavailable(rows, e, s) then multiset(ids)[s] else 0
  {
    if ids == [] then []
    else
      var front := ids[..|ids| - 1];
      var s := ids[|ids| - 1];
      assert ids == front + [s];
      UnavailableSeats(rows, e, front) + (if StoredUnavailable(rows, e, s) then [s] else [])
  }

  /** The check scans the request front to back: the unavailable seats of
      a concatenated request are those of its first part followed by those
      of its second, so the 409 list keeps the request's order. */
  lemma {:induction false} UnavailableSeatsAppend(rows: map<SeatKey, SeatRow>, e: EventId, a: seq<SeatId>, b: seq<SeatId>)
    ensures UnavailableSeats(rows, e, a + b) == UnavailableSeats(rows, e, a) + UnavailableSeats(rows, e, b)
    decreases |b|
  {
    if b == [] {
      assert a + b == a;
    } else {
      var front, s := b[..|b| - 1], b[|b| - 1];
      assert (a + b)[..|a + b| - 1] == a + front;
      assert (a + b)[|a + b| - 1] == s;
      UnavailableSeatsAppend(rows, e, a, front);
    }
  }

  /** A stored hold whose expiry lies strictly before `now`. */
  predicate HoldLapsed(row: SeatRow, now: Time) {
    row.status == Held && row.holdExpiresAt.Some? && row.holdExpiresAt.value < now
  }

  // =====================================================================
  // Reading Carts and CartSeats

  predicate IsOpenCartOf(cart: Cart, user: UserId, e: EventId) {
    cart.user == user && cart.event == e && cart.status == Open
  }

  /** `SELECT cart_id FROM Carts WHERE user_id = ? AND event_id = ? AND
      status = 'OPEN'`, first row: the lowest matching cart id. */
  function OpenCartOf(carts: seq<Cart>, user: UserId, e: EventId): (r: Option<CartId>)
    ensures r.None? <==> forall i :: 0 <= i < |carts| ==> !IsOpenCartOf(carts[i], user, e)
    ensures r.Some? ==> 1 <= r.value <= |carts| && IsOpenCartOf(carts[r.value - 1], user, e)
    ensures r.Some? ==> forall i :: 0 <= i < r.value - 1 ==> !IsOpenCartOf(carts[i], user, e)
  {
    if carts == [] then None
    else
      var front := carts[..|carts| - 1];
      match OpenCartOf(front, user, e)
      case Some(c) => Some(c)
      case None => if IsOpenCartOf(carts[|carts| - 1], user, e) then Some(|carts|) else None
  }

  /** The seats recorded in CartSeats for one cart. */
  function SeatsOf(cartSeats: set<CartSeat>, c: CartId): set<SeatId> {
    set p | p in cartSeats && p.0 == c :: p.1
  }

  function CartPairs(c: CartId, seats: set<SeatId>): set<CartSeat> {
    set s | s in seats :: (c, s)
  }

  /** CartSeats without any row of the given carts. */
  function DropCarts(cartSeats: set<CartSeat>, ids: set<CartId>): set<CartSeat> {
    set p | p in cartSeats && p.0 !in ids
  }

  // =====================================================================
  // Bulk row updates

  function KeysOf(e: EventId, seats: set<SeatId>): set<SeatKey> {
    set s | s in seats :: (e, s)
  }

  /** The reservation upsert: each seat's row becomes HELD by `c` until
      `until`, inserted when missing. */
  function HoldAll(rows: map<SeatKey, SeatRow>, e: EventId, seats: set<SeatId>, c: CartId, until: Time): map<SeatKey, SeatRow> {
    map k | k in rows.Keys + KeysOf(e, seats) :: if k.0 == e && k.1 in seats then HeldRow(c, until) else rows[k]
  }

  /** `UPDATE EventSeatStatus SET ... WHERE event_id = ? AND seat_id = ?`
      for each seat: existing rows only are rewritten. */
  function Overwrite(rows: map<SeatKey, SeatRow>, e: EventId, seats: set<SeatId>, row: SeatRow): map<SeatKey, SeatRow> {
    map k | k in rows :: if k.0 == e && k.1 in seats then row else rows[k]
  }

  /** The sweep's rewrite: every lapsed hold becomes AVAILABLE with its
      holder and expiry cleared. */
  function SweepRows(rows: map<SeatKey, SeatRow>, now: Time): map<SeatKey, SeatRow> {
    map k | k in rows :: if HoldLapsed(rows[k], now) then AvailableRow else rows[k]
  }

  ghost function LapsedKeys(rows: map<SeatKey, SeatRow>, now: Time): set<SeatKey> {
    set k | k in rows && HoldLapsed(rows[k], now)
  }

  /** The holders named by lapsed rows (`if row['held_by_cart_id']`
      skips a null or zero holder). */
  ghost function LapsedHolders(rows: map<SeatKey, SeatRow>, now: Time): set<CartId> {
    set k | k in rows && HoldLapsed(rows[k], now) && rows[k].heldBy.Some? && rows[k].heldBy.value != 0
      :: rows[k].heldBy.value
  }

  /** `UPDATE Carts SET status = "EXPIRED" WHERE cart_id = ? AND status =
      "OPEN"` for each of the given carts. */
  function ExpireOpen(carts: seq<Cart>, ids: set<CartId>): seq<Cart> {
    seq(|carts|, i requires 0 <= i < |carts| =>
      if i + 1 in ids && carts[i].status == Open then carts[i].(status := Expired) else carts[i])
  }

  /** Sets one cart's status. */
  function SetCartStatus(carts: seq<Cart>, c: CartId, st: CartStatus): seq<Cart>
    requires 1 <= c <= |carts|
  {
    carts[c - 1 := carts[c - 1].(status := st)]
  }

  /** The reservation's cart step: reuse the buyer's open cart for the
      event, pushing its expiry to `until`, or append a new OPEN cart. */
  function StartHold(carts: seq<Cart>, user: UserId, e: EventId, until: Time): (r: (seq<Cart>, CartId))
    ensures 1 <= r.1 <= |r.0|
    ensures r.0[r.1 - 1] == Cart(user, e, Open, until)
    ensures |r.0| == |carts| || r.0 == carts + [Cart(user, e, Open, until)]
    ensures forall i :: 0 <= i < |carts| && i != r.1 - 1 ==> r.0[i] == carts[i]
    ensures r.1 <= |carts| ==> IsOpenCartOf(carts[r.1 - 1], user, e)
    ensures r.1 > |carts| ==> OpenCartOf(carts, user, e).None?
  {
    match OpenCartOf(carts, user, e)
    case Some(c) => (carts[c - 1 := carts[c - 1].(expiresAt := until)], c)
    case None => (carts + [Cart(user, e, Open, until)], |carts| + 1)
  }

  // =====================================================================
  // Ledger

  predicate Live(t: Ticket) {
    t.status != Voided
  }

  ghost predicate LedgerWellFormed(orders: seq<Order>, items: seq<OrderItem>, tickets: seq<Ticket>) {
    && (forall i :: 0 <= i < |items| ==> 1 <= items[i].order <= |orders|)
    && (forall t :: 0 <= t < |tickets| ==> 1 <= tickets[t].orderItem <= |items|)
  }

  /** The (event, seat) a ticket admits to: Tickets JOIN OrderItems JOIN
      Orders, as `void_ticket` reads it. */
  function TicketKey(orders: seq<Order>, items: seq<OrderItem>, tickets: seq<Ticket>, t: int): SeatKey
    requires LedgerWellFormed(orders, items, tickets) && 0 <= t < |tickets|
  {
    var item := items[tickets[t].orderItem - 1];
    (orders[item.order - 1].event, item.seat)
  }

  /** Sum of the line totals of one order's items. */
  function ItemsTotal(items: seq<OrderItem>, o: OrderId): nat {
    if items == [] then 0
    else
      var last := items[|items| - 1];
      ItemsTotal(items[..|items| - 1], o) + (if last.order == o then last.lineTotalCents else 0)
  }

  // =====================================================================
  // Invariants

  /** Every holder names an existing cart of the row's event. */
  ghost predicate HoldersExist(rows: map<SeatKey, SeatRow>, carts: seq<Cart>) {
    forall k :: k in rows && rows[k].heldBy.Some? ==>
      1 <= rows[k].heldBy.value <= |carts| && carts[rows[k].heldBy.value - 1].event == k.0
  }

  ghost predicate CartSeatsExist(cartSeats: set<CartSeat>, carts: seq<Cart>) {
    forall p :: p in cartSeats ==> 1 <= p.0 <= |carts|
  }

  /** At most one OPEN cart per (user, event). */
  ghost predicate OneOpenCartPerBuyer(carts: seq<Cart>) {
    forall i, j :: 0 <= i < j < |carts| && carts[i].status == Open && carts[j].status == Open ==>
      carts[i].user != carts[j].user || carts[i].event != carts[j].event
  }

  /** Each order's total is the sum of its items' line totals, and each
      item's line total is its unit price (one seat per line). */
  ghost predicate OrderTotals(orders: seq<Order>, items: seq<OrderItem>) {
    && (forall o :: 1 <= o <= |orders| ==> orders[o - 1].totalCents == ItemsTotal(items, o))
    && (forall i :: 0 <= i < |items| ==> items[i].lineTotalCents == items[i].unitPriceCents)
  }

  /** A HELD row names its cart and expiry; no other row does. */
  predicate RowShaped(row: SeatRow) {
    if row.status == Held then row.heldBy.Some? && row.holdExpiresAt.Some?
    else row.heldBy.None? && row.holdExpiresAt.None?
  }

  ghost predicate RowsShaped(rows: map<SeatKey, SeatRow>) {
    forall k :: k in rows ==> RowShaped(rows[k])
  }

  /** For every OPEN cart, its CartSeats rows are exactly the seats whose
      EventSeatStatus row is HELD by it. */
  ghost predicate HoldersAgree(rows: map<SeatKey, SeatRow>, carts: seq<Cart>, cartSeats: set<CartSeat>) {
    forall c, s :: 1 <= c <= |carts| && carts[c - 1].status == Open ==>
      ((c, s) in cartSeats <==> HeldBy(rows, carts[c - 1].event, s, c))
  }

  /** Each SOLD row has exactly one live (non-voided) ticket, and every
      live ticket is for a SOLD row. */
  ghost predicate SoldOnce(rows: map<SeatKey, SeatRow>, orders: seq<Order>, items: seq<OrderItem>, tickets: seq<Ticket>) {
    && LedgerWellFormed(orders, items, tickets)
    && (forall t :: 0 <= t < |tickets| && Live(tickets[t]) ==> IsSold(rows, TicketKey(orders, items, tickets, t)))
    && (forall t1, t2 ::
          (0 <= t1 < |tickets| && 0 <= t2 < |tickets| && Live(tickets[t1]) && Live(tickets[t2])
           && TicketKey(orders, items, tickets, t1) == TicketKey(orders, items, tickets, t2)) ==> t1 == t2)
    && (forall k :: IsSold(rows, k) ==>
          exists t :: 0 <= t < |tickets| && Live(tickets[t]) && TicketKey(orders, items, tickets, t) == k)
  }
}
