/**
 * The hold-and-sale state machine on values.  A Snapshot holds every
 * table the handlers write; each successful handler outcome is one
 * transition function, and the lemmas here state which invariants each
 * transition keeps.  The handlers in module Store are proved to perform
 * exactly these transitions.
 */
module Machine {
  import opened Schema
  import opened Catalog
  import opened Tables
  import opened Steps
  import opened Sums
  import opened Inventory
  import opened Barcode

  datatype Snapshot = Snapshot(
    rows: map<SeatKey, SeatRow>,
    carts: seq<Cart>,
    cartSeats: set<CartSeat>,
    orders: seq<Order>,
    items: seq<OrderItem>,
    tickets: seq<Ticket>)

  /** Referential and arithmetic invariants every handler keeps. */
  ghost predicate ValidState(st: Snapshot) {
    && HoldersExist(st.rows, st.carts)
    && CartSeatsExist(st.cartSeats, st.carts)
    && OneOpenCartPerBuyer(st.carts)
    && LedgerWellFormed(st.orders, st.items, st.tickets)
    && OrderTotals(st.orders, st.items)
  }

  /** The seat invariants of the cart path: row shapes, the CartSeats
      mirror of held rows, and one live ticket per SOLD row. */
  ghost predicate ConsistentState(st: Snapshot) {
    && RowsShaped(st.rows)
    && HoldersAgree(st.rows, st.carts, st.cartSeats)
    && SoldOnce(st.rows, st.orders, st.items, st.tickets)
  }

  predicate Distinct<T(==)>(s: seq<T>) {
    forall i, j :: 0 <= i < j < |s| ==> s[i] != s[j]
  }

  function Elements<T>(s: seq<T>): set<T> {
    set x | x in s
  }

  ghost predicate UuidOracle(uuid: nat -> string) {
    forall k :: IsUuidText(uuid(k))
  }

  // =====================================================================
  // Sales

  /** `sum(price_cents or 0 for seat in seats)` over a query result. */
  function PriceSum(cat: Catalog, e: EventId, list: seq<SeatId>): nat {
    if list == [] then 0
    else PriceSum(cat, e, list[..|list| - 1]) + PriceOf(cat, e, list[|list| - 1])
  }

  /** One OrderItem per seat, unit price = line total = current price. */
  function NewItems(cat: Catalog, o: OrderId, e: EventId, list: seq<SeatId>): seq<OrderItem> {
    seq(|list|, i requires 0 <= i < |list| => OrderItem(o, list[i], PriceOf(cat, e, list[i]), PriceOf(cat, e, list[i])))
  }

  /** One ISSUED ticket per new item; ticket id k takes its barcode from
      the k-th UUID drawn. */
  function NewTickets(firstItem: nat, firstTicket: nat, n: nat, uuid: nat -> string): seq<Ticket>
    requires UuidOracle(uuid)
  {
    seq(n, i requires 0 <= i < n => Ticket(firstItem + i + 1, BarcodeOf(uuid(firstTicket + i + 1)), Issued))
  }

  /** A PAID order for the listed seats: its items and tickets, and each
      seat's existing row rewritten SOLD. */
  function RecordSale(cat: Catalog, st: Snapshot, user: UserId, e: EventId, list: seq<SeatId>, uuid: nat -> string): Snapshot
    requires UuidOracle(uuid)
  {
    var o := |st.orders| + 1;
    st.(orders := st.orders + [Order(user, e, Paid, PriceSum(cat, e, list))],
        items := st.items + NewItems(cat, o, e, list),
        tickets := st.tickets + NewTickets(|st.items|, |st.tickets|, |list|, uuid),
        rows := Overwrite(st.rows, e, Elements(list), SoldRow))
  }

  /** A finalised cart: the sale, then the cart CONVERTED and its
      CartSeats rows deleted. */
  function SellCart(cat: Catalog, st: Snapshot, c: CartId, list: seq<SeatId>, uuid: nat -> string): Snapshot
    requires 1 <= c <= |st.carts| && UuidOracle(uuid)
  {
    var sold := RecordSale(cat, st, st.carts[c - 1].user, st.carts[c - 1].event, list, uuid);
    sold.(carts := SetCartStatus(st.carts, c, Converted), cartSeats := DropCarts(st.cartSeats, {c}))
  }

  lemma {:induction false} PriceSumIsTotal(cat: Catalog, e: EventId, list: seq<SeatId>)
    requires Distinct(list)
    ensures PriceSum(cat, e, list) == PriceTotal(cat, e, Elements(list))
    decreases |list|
  {
    if list != [] {
      var front, last := list[..|list| - 1], list[|list| - 1];
      PriceSumIsTotal(cat, e, front);
      assert Elements(list) == Elements(front) + {last} by {
        assert list == front + [last];
      }
      assert last !in Elements(front);
      SumOverRemove(Elements(list), (s: SeatId) => PriceOf(cat, e, s) as int, last);
      assert Elements(list) - {last} == Elements(front);
    }
  }

  lemma {:induction false} ItemsTotalNewItems(items: seq<OrderItem>, cat: Catalog, o: OrderId, e: EventId, list: seq<SeatId>, o2: OrderId)
    ensures ItemsTotal(items + NewItems(cat, o, e, list), o2) == ItemsTotal(items, o2) + (if o2 == o then PriceSum(cat, e, list) else 0)
    decreases |list|
  {
    if list == [] {
      assert items + NewItems(cat, o, e, list) == items;
    } else {
      var front, last := list[..|list| - 1], list[|list| - 1];
      var it := OrderItem(o, last, PriceOf(cat, e, last), PriceOf(cat, e, last));
      assert items + NewItems(cat, o, e, list) == (items + NewItems(cat, o, e, front)) + [it];
      ItemsTotalNewItems(items, cat, o, e, front, o2);
      ItemsTotalAppend(items + NewItems(cat, o, e, front), it, o2);
    }
  }

  /** A sale keeps every referential and total invariant: the new
      order's total is the sum of its new line totals. */
  lemma RecordSaleKeepsValid(cat: Catalog, st: Snapshot, user: UserId, e: EventId, list: seq<SeatId>, uuid: nat -> string)
    requires ValidState(st) && UuidOracle(uuid)
    ensures ValidState(RecordSale(cat, st, user, e, list, uuid))
  {
    var st' := RecordSale(cat, st, user, e, list, uuid);
    var o := |st.orders| + 1;
    forall o2 | 1 <= o2 <= |st'.orders|
      ensures st'.orders[o2 - 1].totalCents == ItemsTotal(st'.items, o2)
    {
      ItemsTotalNewItems(st.items, cat, o, e, list, o2);
      if o2 == o {
        ItemsTotalFresh(st.items, o);
      }
    }
  }

  /** Selling one more seat extends the sale's three writes by one. */
  lemma SaleSnoc(cat: Catalog, rows: map<SeatKey, SeatRow>, items: seq<OrderItem>, tickets: seq<Ticket>,
                 o: OrderId, e: EventId, list: seq<SeatId>, uuid: nat -> string)
    requires UuidOracle(uuid) && list != []
    ensures var front, last := list[..|list| - 1], list[|list| - 1];
      var price := PriceOf(cat, e, last);
      && Overwrite(rows, e, Elements(list), SoldRow)
         == (if (e, last) in rows then Overwrite(rows, e, Elements(front), SoldRow)[(e, last) := SoldRow]
             else Overwrite(rows, e, Elements(front), SoldRow))
      && items + NewItems(cat, o, e, list) == items + NewItems(cat, o, e, front) + [OrderItem(o, last, price, price)]
      && tickets + NewTickets(|items|, |tickets|, |list|, uuid)
         == tickets + NewTickets(|items|, |tickets|, |front|, uuid) + [Ticket(|items| + |front| + 1, BarcodeOf(uuid(|tickets| + |front| + 1)), Issued)]
  {
    var front, last := list[..|list| - 1], list[|list| - 1];
    assert list == front + [last];
    assert Elements(list) == Elements(front) + {last};
    OverwriteStep(rows, e, Elements(front), last, SoldRow);
  }

  /** The loop step of a sale: a seat not yet sold by it extends the
      duplicate-free prefix and each of the three writes by one. */
  lemma SaleStep(cat: Catalog, rows: map<SeatKey, SeatRow>, items: seq<OrderItem>, tickets: seq<Ticket>,
                 o: OrderId, e: EventId, list: seq<SeatId>, i: nat, uuid: nat -> string)
    requires UuidOracle(uuid) && i < |list| && Distinct(list[..i]) && list[i] !in list[..i]
    ensures Distinct(list[..i + 1])
    ensures var s, price := list[i], PriceOf(cat, e, list[i]);
      && Overwrite(rows, e, Elements(list[..i + 1]), SoldRow)
         == (if (e, s) in rows then Overwrite(rows, e, Elements(list[..i]), SoldRow)[(e, s) := SoldRow]
             else Overwrite(rows, e, Elements(list[..i]), SoldRow))
      && items + NewItems(cat, o, e, list[..i + 1]) == items + NewItems(cat, o, e, list[..i]) + [OrderItem(o, s, price, price)]
      && tickets + NewTickets(|items|, |tickets|, i + 1, uuid)
         == tickets + NewTickets(|items|, |tickets|, i, uuid) + [Ticket(|items| + i + 1, BarcodeOf(uuid(|tickets| + i + 1)), Issued)]
  {
    assert list[..i + 1][..i] == list[..i];
    SaleSnoc(cat, rows, items, tickets, o, e, list[..i + 1], uuid);
  }

  /** The inductive step of the lemma below: the last seat of the list. */
  lemma SellLastKeepsSoldOnce(cat: Catalog, rows: map<SeatKey, SeatRow>, orders: seq<Order>, items: seq<OrderItem>,
                              tickets: seq<Ticket>, o: OrderId, list: seq<SeatId>, uuid: nat -> string)
    requires UuidOracle(uuid) && 1 <= o <= |orders| && list != []
    requires var e, front := orders[o - 1].event, list[..|list| - 1];
      SoldOnce(Overwrite(rows, e, Elements(front), SoldRow), orders,
               items + NewItems(cat, o, e, front), tickets + NewTickets(|items|, |tickets|, |front|, uuid))
    requires var e, last := orders[o - 1].event, list[|list| - 1];
      (e, last) in rows && !IsSold(rows, (e, last)) && last !in Elements(list[..|list| - 1])
    ensures SoldOnce(Overwrite(rows, orders[o - 1].event, Elements(list), SoldRow), orders,
                     items + NewItems(cat, o, orders[o - 1].event, list), tickets + NewTickets(|items|, |tickets|, |list|, uuid))
  {
    var e := orders[o - 1].event;
    var front, last := list[..|list| - 1], list[|list| - 1];
    var rows1 := Overwrite(rows, e, Elements(front), SoldRow);
    var items1 := items + NewItems(cat, o, e, front);
    var tickets1 := tickets + NewTickets(|items|, |tickets|, |front|, uuid);
    assert (e, last) in rows1 && rows1[(e, last)] == rows[(e, last)];
    var price := PriceOf(cat, e, last);
    var barcode := BarcodeOf(uuid(|tickets| + |front| + 1));
    SaleSnoc(cat, rows, items, tickets, o, e, list, uuid);
    var items2 := items1 + [OrderItem(o, last, price, price)];
    assert items + NewItems(cat, o, e, list) == items2;
    assert |items2| == |items| + |front| + 1;
    var tickets2 := tickets1 + [Ticket(|items2|, barcode, Issued)];
    assert tickets + NewTickets(|items|, |tickets|, |list|, uuid) == tickets2;
    assert Overwrite(rows, e, Elements(list), SoldRow) == rows1[(e, last) := SoldRow];
    SellOneKeepsSoldOnce(rows1, orders, items1, tickets1, o, last, price, barcode);
  }

  /** Selling listed seats, each with a stored unsold row, one new item
      and ticket per seat, keeps one live ticket per SOLD row. */
  lemma {:induction false} SellListKeepsSoldOnce(cat: Catalog, rows: map<SeatKey, SeatRow>, orders: seq<Order>, items: seq<OrderItem>,
                                                  tickets: seq<Ticket>, o: OrderId, list: seq<SeatId>, uuid: nat -> string)
    requires SoldOnce(rows, orders, items, tickets) && UuidOracle(uuid)
    requires 1 <= o <= |orders| && Distinct(list)
    requires forall s :: s in list ==> (orders[o - 1].event, s) in rows && !IsSold(rows, (orders[o - 1].event, s))
    ensures SoldOnce(Overwrite(rows, orders[o - 1].event, Elements(list), SoldRow), orders,
                     items + NewItems(cat, o, orders[o - 1].event, list), tickets + NewTickets(|items|, |tickets|, |list|, uuid))
    decreases |list|
  {
    var e := orders[o - 1].event;
    if list == [] {
      assert Overwrite(rows, e, Elements(list), SoldRow) == rows;
      assert items + NewItems(cat, o, e, list) == items;
      assert tickets + NewTickets(|items|, |tickets|, |list|, uuid) == tickets;
    } else {
      var front, last := list[..|list| - 1], list[|list| - 1];
      assert list == front + [last];
      assert forall s :: s in front ==> s in list;
      SellListKeepsSoldOnce(cat, rows, orders, items, tickets, o, front, uuid);
      assert last in list && last !in Elements(front);
      SellLastKeepsSoldOnce(cat, rows, orders, items, tickets, o, list, uuid);
    }
  }

  /** Each ticket a sale issues is ISSUED, carries a 16-character
      upper-case barcode and admits to exactly the seat it was sold for. */
  lemma SaleTicketsAdmit(cat: Catalog, st: Snapshot, user: UserId, e: EventId, list: seq<SeatId>, uuid: nat -> string, i: int)
    requires ValidState(st) && UuidOracle(uuid)
    requires 0 <= i < |list|
    ensures var st' := RecordSale(cat, st, user, e, list, uuid);
      && LedgerWellFormed(st'.orders, st'.items, st'.tickets)
      && |st'.tickets| == |st.tickets| + |list|
      && st'.tickets[|st.tickets| + i].status == Issued
      && |st'.tickets[|st.tickets| + i].barcode| == 16
      && TicketKey(st'.orders, st'.items, st'.tickets, |st.tickets| + i) == (e, list[i])
  {
    RecordSaleKeepsValid(cat, st, user, e, list, uuid);
    var st' := RecordSale(cat, st, user, e, list, uuid);
    assert st'.tickets[|st.tickets| + i] == Ticket(|st.items| + i + 1, BarcodeOf(uuid(|st.tickets| + i + 1)), Issued);
    assert st'.items[|st.items| + i].seat == list[i];
  }

  /** The order a cart sale records is charged exactly the total the
      cart view shows for the same seats at the same moment. */
  lemma CartSaleChargesCartTotal(cat: Catalog, st: Snapshot, c: CartId, list: seq<SeatId>, uuid: nat -> string)
    requires 1 <= c <= |st.carts| && UuidOracle(uuid)
    requires Distinct(list) && Elements(list) == CartCatalogSeats(cat, st.cartSeats, c)
    ensures var st' := SellCart(cat, st, c, list, uuid);
      |st'.orders| == |st.orders| + 1
      && st'.orders[|st.orders|] == Order(st.carts[c - 1].user, st.carts[c - 1].event, Paid,
                                          CartTotal(cat, st.cartSeats, c, st.carts[c - 1].event))
  {
    PriceSumIsTotal(cat, st.carts[c - 1].event, list);
  }

  /** Finalising an OPEN cart whose listed seats are all HELD by it keeps
      every invariant. */
  lemma SellCartKeepsInvariants(cat: Catalog, st: Snapshot, c: CartId, list: seq<SeatId>, uuid: nat -> string)
    requires ValidState(st) && UuidOracle(uuid)
    requires 1 <= c <= |st.carts| && st.carts[c - 1].status == Open && Distinct(list)
    requires forall s :: s in list ==> HeldBy(st.rows, st.carts[c - 1].event, s, c)
    ensures ValidState(SellCart(cat, st, c, list, uuid))
    ensures ConsistentState(st) ==> ConsistentState(SellCart(cat, st, c, list, uuid))
  {
    var e, user := st.carts[c - 1].event, st.carts[c - 1].user;
    var st' := SellCart(cat, st, c, list, uuid);
    RecordSaleKeepsValid(cat, st, user, e, list, uuid);
    CloseKeepsOneOpenCart(st.carts, c, Converted);
    assert HoldersExist(st'.rows, st'.carts) by {
      forall k | k in st'.rows && st'.rows[k].heldBy.Some?
        ensures 1 <= st'.rows[k].heldBy.value <= |st'.carts| && st'.carts[st'.rows[k].heldBy.value - 1].event == k.0
      {
        assert st'.rows[k] == st.rows[k];
      }
    }
    if ConsistentState(st) {
      SellCartKeepsConsistent(cat, st, c, list, uuid);
    }
  }

  lemma SellCartKeepsConsistent(cat: Catalog, st: Snapshot, c: CartId, list: seq<SeatId>, uuid: nat -> string)
    requires ValidState(st) && ConsistentState(st) && UuidOracle(uuid)
    requires 1 <= c <= |st.carts| && st.carts[c - 1].status == Open && Distinct(list)
    requires forall s :: s in list ==> HeldBy(st.rows, st.carts[c - 1].event, s, c)
    ensures ConsistentState(SellCart(cat, st, c, list, uuid))
  {
    var e, user := st.carts[c - 1].event, st.carts[c - 1].user;
    var orders' := st.orders + [Order(user, e, Paid, PriceSum(cat, e, list))];
    NewOrderKeepsSoldOnce(st.rows, st.orders, st.items, st.tickets, Order(user, e, Paid, PriceSum(cat, e, list)));
    SellListKeepsSoldOnce(cat, st.rows, orders', st.items, st.tickets, |orders'|, list, uuid);
    SellKeepsAgreement(st.rows, st.carts, st.cartSeats, c, Elements(list));
  }

  // =====================================================================
  // Holds

  /** A successful reservation: the buyer's open cart (reused or new)
      holds the seats until `until`, and each is recorded in CartSeats. */
  function Hold(st: Snapshot, user: UserId, e: EventId, S: set<SeatId>, until: Time): Snapshot {
    var h := StartHold(st.carts, user, e, until);
    st.(rows := HoldAll(st.rows, e, S, h.1, until), carts := h.0, cartSeats := st.cartSeats + CartPairs(h.1, S))
  }

  /** Holding seats whose stored rows are all AVAILABLE (or missing)
      keeps every invariant. */
  lemma HoldKeepsInvariants(st: Snapshot, user: UserId, e: EventId, S: set<SeatId>, until: Time)
    requires ValidState(st)
    requires forall s :: s in S ==> !StoredUnavailable(st.rows, e, s)
    ensures ValidState(Hold(st, user, e, S, until))
    ensures ConsistentState(st) ==> ConsistentState(Hold(st, user, e, S, until))
  {
    HoldKeepsHoldersExist(st.rows, st.carts, user, e, S, until);
    HoldKeepsOneOpenCart(st.carts, user, e, until);
    if ConsistentState(st) {
      HoldKeepsConsistent(st, user, e, S, until);
    }
  }

  lemma HoldKeepsConsistent(st: Snapshot, user: UserId, e: EventId, S: set<SeatId>, until: Time)
    requires ValidState(st) && ConsistentState(st)
    requires forall s :: s in S ==> !StoredUnavailable(st.rows, e, s)
    ensures ConsistentState(Hold(st, user, e, S, until))
  {
    var st' := Hold(st, user, e, S, until);
    HoldKeepsAgreement(st.rows, st.carts, st.cartSeats, user, e, S, until);
    SoldFrame(st.rows, st'.rows, st.orders, st.items, st.tickets);
  }

  /** A release: the released seats' rows become AVAILABLE with no
      holder, their CartSeats rows go, and a cart left with no CartSeats
      rows at all becomes EXPIRED. */
  function ReleaseFrom(st: Snapshot, c: CartId, R: set<SeatId>): Snapshot
    requires 1 <= c <= |st.carts|
  {
    var cs := st.cartSeats - CartPairs(c, R);
    st.(rows := Overwrite(st.rows, st.carts[c - 1].event, R, AvailableRow),
        cartSeats := cs,
        carts := if SeatsOf(cs, c) == {} then SetCartStatus(st.carts, c, Expired) else st.carts)
  }

  lemma ReleaseKeepsInvariants(st: Snapshot, c: CartId, R: set<SeatId>)
    requires ValidState(st)
    requires 1 <= c <= |st.carts| && st.carts[c - 1].status == Open
    requires forall s :: s in R ==> HolderIs(st.rows, st.carts[c - 1].event, s, c)
    ensures ValidState(ReleaseFrom(st, c, R))
    ensures ConsistentState(st) ==> ConsistentState(ReleaseFrom(st, c, R))
  {
    var st' := ReleaseFrom(st, c, R);
    var e := st.carts[c - 1].event;
    if st'.carts != st.carts {
      CloseKeepsOneOpenCart(st.carts, c, Expired);
    }
    assert HoldersExist(st'.rows, st'.carts) by {
      forall k | k in st'.rows && st'.rows[k].heldBy.Some?
        ensures 1 <= st'.rows[k].heldBy.value <= |st'.carts| && st'.carts[st'.rows[k].heldBy.value - 1].event == k.0
      {
        assert st'.rows[k] == st.rows[k];
      }
    }
    if ConsistentState(st) {
      ReleaseKeepsConsistent(st, c, R);
    }
  }

  lemma ReleaseKeepsConsistent(st: Snapshot, c: CartId, R: set<SeatId>)
    requires ValidState(st) && ConsistentState(st)
    requires 1 <= c <= |st.carts| && st.carts[c - 1].status == Open
    requires forall s :: s in R ==> HolderIs(st.rows, st.carts[c - 1].event, s, c)
    ensures ConsistentState(ReleaseFrom(st, c, R))
  {
    var st' := ReleaseFrom(st, c, R);
    var e := st.carts[c - 1].event;
    forall s | s in R
      ensures HeldBy(st.rows, e, s, c)
    {
      assert RowShaped(st.rows[(e, s)]);
    }
    ReleaseKeepsAgreement(st.rows, st.carts, st.cartSeats, c, R, st'.carts);
    SoldFrame(st.rows, st'.rows, st.orders, st.items, st.tickets);
  }

  /** The expiry branch of checkout and payment: the cart becomes EXPIRED
      and nothing else changes. */
  function ExpireCart(st: Snapshot, c: CartId): Snapshot
    requires 1 <= c <= |st.carts|
  {
    st.(carts := SetCartStatus(st.carts, c, Expired))
  }

  lemma ExpireKeepsInvariants(st: Snapshot, c: CartId)
    requires ValidState(st) && 1 <= c <= |st.carts|
    ensures ValidState(ExpireCart(st, c))
    ensures ConsistentState(st) ==> ConsistentState(ExpireCart(st, c))
  {
    CloseKeepsOneOpenCart(st.carts, c, Expired);
    if ConsistentState(st) {
      CloseKeepsAgreement(st.rows, st.carts, st.cartSeats, c, Expired);
    }
  }

  // =====================================================================
  // The sweep

  /** The expired-hold sweep: every lapsed hold freed, each cart that
      held one expired if OPEN and stripped of all its CartSeats rows. */
  ghost function SweepHolds(st: Snapshot, now: Time): Snapshot {
    var C := LapsedHolders(st.rows, now);
    st.(rows := SweepRows(st.rows, now), carts := ExpireOpen(st.carts, C), cartSeats := DropCarts(st.cartSeats, C))
  }

  lemma SweepKeepsInvariants(st: Snapshot, now: Time)
    requires ValidState(st)
    ensures ValidState(SweepHolds(st, now))
    ensures ConsistentState(st) ==> ConsistentState(SweepHolds(st, now))
  {
    var st' := SweepHolds(st, now);
    ExpireKeepsOneOpenCart(st.carts, LapsedHolders(st.rows, now));
    assert HoldersExist(st'.rows, st'.carts) by {
      forall k | k in st'.rows && st'.rows[k].heldBy.Some?
        ensures 1 <= st'.rows[k].heldBy.value <= |st'.carts| && st'.carts[st'.rows[k].heldBy.value - 1].event == k.0
      {
        assert st'.rows[k] == st.rows[k];
      }
    }
    if ConsistentState(st) {
      SweepKeepsAgreement(st.rows, st.carts, st.cartSeats, now);
      SoldFrame(st.rows, st'.rows, st.orders, st.items, st.tickets);
    }
  }

  // =====================================================================
  // Tickets

  function ScanTicketState(st: Snapshot, t: TicketId): Snapshot
    requires 1 <= t <= |st.tickets|
  {
    st.(tickets := st.tickets[t - 1 := st.tickets[t - 1].(status := Scanned)])
  }

  lemma ScanKeepsInvariants(st: Snapshot, t: TicketId)
    requires ValidState(st) && 1 <= t <= |st.tickets| && st.tickets[t - 1].status == Issued
    ensures ValidState(ScanTicketState(st, t))
    ensures ConsistentState(st) ==> ConsistentState(ScanTicketState(st, t))
  {
    if ConsistentState(st) {
      ScanKeepsSoldOnce(st.rows, st.orders, st.items, st.tickets, t - 1);
    }
  }

  /** A void: the ticket becomes VOIDED and its seat's row AVAILABLE,
      the row's other columns untouched. */
  function VoidTicketState(st: Snapshot, t: TicketId): Snapshot
    requires LedgerWellFormed(st.orders, st.items, st.tickets) && 1 <= t <= |st.tickets|
  {
    st.(tickets := st.tickets[t - 1 := st.tickets[t - 1].(status := Voided)],
        rows := VoidRows(st.rows, TicketKey(st.orders, st.items, st.tickets, t - 1)))
  }

  lemma VoidKeepsInvariants(st: Snapshot, t: TicketId)
    requires ValidState(st) && 1 <= t <= |st.tickets| && Live(st.tickets[t - 1])
    ensures ValidState(VoidTicketState(st, t))
    ensures ConsistentState(st) ==> ConsistentState(VoidTicketState(st, t))
  {
    var st' := VoidTicketState(st, t);
    assert LedgerWellFormed(st'.orders, st'.items, st'.tickets);
    if ConsistentState(st) {
      var k := TicketKey(st.orders, st.items, st.tickets, t - 1);
      assert IsSold(st.rows, k);
      assert RowShaped(st.rows[k]);
      VoidKeepsSoldOnce(st.rows, st.orders, st.items, st.tickets, t - 1);
      VoidKeepsAgreement(st.rows, st.carts, st.cartSeats, st.orders, st.items, st.tickets, t - 1);
    }
  }

  // =====================================================================
  // Direct orders

  /** A direct order for seats that are all stored AVAILABLE keeps the
      cart-path invariants. */
  lemma CheckedSaleKeepsInvariants(cat: Catalog, st: Snapshot, user: UserId, e: EventId, list: seq<SeatId>, uuid: nat -> string)
    requires ValidState(st) && UuidOracle(uuid) && Distinct(list)
    requires forall s :: s in list ==> (e, s) in st.rows && st.rows[(e, s)].status == Available
    ensures ValidState(RecordSale(cat, st, user, e, list, uuid))
    ensures ConsistentState(st) ==> ConsistentState(RecordSale(cat, st, user, e, list, uuid))
  {
    RecordSaleKeepsValid(cat, st, user, e, list, uuid);
    if ConsistentState(st) {
      CheckedSaleKeepsConsistent(cat, st, user, e, list, uuid);
    }
  }

  lemma CheckedSaleKeepsConsistent(cat: Catalog, st: Snapshot, user: UserId, e: EventId, list: seq<SeatId>, uuid: nat -> string)
    requires ValidState(st) && ConsistentState(st) && UuidOracle(uuid) && Distinct(list)
    requires forall s :: s in list ==> (e, s) in st.rows && st.rows[(e, s)].status == Available
    ensures ConsistentState(RecordSale(cat, st, user, e, list, uuid))
  {
    var st' := RecordSale(cat, st, user, e, list, uuid);
    var ord := Order(user, e, Paid, PriceSum(cat, e, list));
    NewOrderKeepsSoldOnce(st.rows, st.orders, st.items, st.tickets, ord);
    SellListKeepsSoldOnce(cat, st.rows, st.orders + [ord], st.items, st.tickets, |st.orders| + 1, list, uuid);
    forall c, s | 1 <= c <= |st'.carts| && st'.carts[c - 1].status == Open
      ensures (c, s) in st'.cartSeats <==> HeldBy(st'.rows, st'.carts[c - 1].event, s, c)
    {
      assert HeldBy(st'.rows, st.carts[c - 1].event, s, c) <==> HeldBy(st.rows, st.carts[c - 1].event, s, c);
    }
  }

  /** A state with seat 1 of event 1 SOLD once, to order 1. */
  ghost function OneSeatSold(cat: Catalog, uuid: nat -> string): Snapshot
    requires UuidOracle(uuid)
  {
    var p := PriceOf(cat, 1, 1);
    Snapshot(map[(1, 1) := SoldRow], [], {}, [Order(1, 1, Paid, p)], [OrderItem(1, 1, p, p)], [Ticket(1, BarcodeOf(uuid(1)), Issued)])
  }

  lemma OneSeatSoldIsValid(cat: Catalog, uuid: nat -> string)
    requires UuidOracle(uuid)
    ensures ValidState(OneSeatSold(cat, uuid))
  {
    var st := OneSeatSold(cat, uuid);
    assert ItemsTotal(st.items, 1) == PriceOf(cat, 1, 1) by {
      assert st.items[..0] == [];
    }
  }

  lemma OneSeatSoldIsConsistent(cat: Catalog, uuid: nat -> string)
    requires UuidOracle(uuid)
    ensures ConsistentState(OneSeatSold(cat, uuid))
  {
    var st := OneSeatSold(cat, uuid);
    assert TicketKey(st.orders, st.items, st.tickets, 0) == (1, 1);
  }

  /** The direct order as written sells a seat that is already SOLD: one
      seat then has two live tickets. */
  lemma DirectSaleSellsTwice(cat: Catalog, uuid: nat -> string)
    requires UuidOracle(uuid)
    ensures ConsistentState(OneSeatSold(cat, uuid))
    ensures !ConsistentState(RecordSale(cat, OneSeatSold(cat, uuid), 2, 1, [1], uuid))
  {
    OneSeatSoldIsConsistent(cat, uuid);
    var st' := RecordSale(cat, OneSeatSold(cat, uuid), 2, 1, [1], uuid);
    assert st'.tickets[1].orderItem == 2 && st'.items[1].order == 2 && st'.items[1].seat == 1;
    assert TicketKey(st'.orders, st'.items, st'.tickets, 0) == TicketKey(st'.orders, st'.items, st'.tickets, 1);
  }
}
