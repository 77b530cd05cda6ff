/**
 * What each handler's writes do to the invariants of module Tables,
 * proved once on values.  A hold adds rows HELD by one OPEN cart; a
 * release, a sale, a sweep and a void move rows back or forward; each
 * lemma states which invariant that write keeps.
 */
module Steps {
  import opened Schema
  import opened Tables

  // =====================================================================
  // Bulk updates, one seat at a time

  /** Holding one more seat extends the bulk hold. */
  lemma HoldAllStep(rows: map<SeatKey, SeatRow>, e: EventId, done: set<SeatId>, s: SeatId, c: CartId, until: Time)
    ensures HoldAll(rows, e, done, c, until)[(e, s) := HeldRow(c, until)] == HoldAll(rows, e, done + {s}, c, until)
  {
    var a := HoldAll(rows, e, done, c, until)[(e, s) := HeldRow(c, until)];
    var b := HoldAll(rows, e, done + {s}, c, until);
    assert a.Keys == b.Keys by {
      assert KeysOf(e, done + {s}) == KeysOf(e, done) + {(e, s)};
    }
  }

  /** Rewriting one more seat extends the bulk rewrite; a seat without
      a stored row is left alone, as an UPDATE leaves it. */
  lemma OverwriteStep(rows: map<SeatKey, SeatRow>, e: EventId, done: set<SeatId>, s: SeatId, row: SeatRow)
    ensures (e, s) in rows ==> Overwrite(rows, e, done, row)[(e, s) := row] == Overwrite(rows, e, done + {s}, row)
    ensures (e, s) !in rows ==> Overwrite(rows, e, done, row) == Overwrite(rows, e, done + {s}, row)
  {
  }

  // =====================================================================
  // Carts

  /** A new cart is opened only when the buyer has none for the event,
      so at most one OPEN cart per (user, event) survives a hold. */
  lemma HoldKeepsOneOpenCart(carts: seq<Cart>, user: UserId, e: EventId, until: Time)
    requires OneOpenCartPerBuyer(carts)
    ensures OneOpenCartPerBuyer(StartHold(carts, user, e, until).0)
  {
    var r := StartHold(carts, user, e, until);
    var carts' := r.0;
    forall i, j | 0 <= i < j < |carts'| && carts'[i].status == Open && carts'[j].status == Open
      ensures carts'[i].user != carts'[j].user || carts'[i].event != carts'[j].event
    {
      if j == r.1 - 1 && r.1 > |carts| {
        assert carts'[i] == carts[i];
        assert !IsOpenCartOf(carts[i], user, e);
      } else if j == r.1 - 1 {
        assert carts'[i] == carts[i];
        assert IsOpenCartOf(carts[j], user, e);
      } else if i == r.1 - 1 {
        assert carts'[j] == carts[j];
        assert IsOpenCartOf(carts[i], user, e);
      } else {
        assert carts'[i] == carts[i] && carts'[j] == carts[j];
      }
    }
  }

  /** Closing a cart (EXPIRED or CONVERTED) never creates a second OPEN one. */
  lemma CloseKeepsOneOpenCart(carts: seq<Cart>, c: CartId, st: CartStatus)
    requires 1 <= c <= |carts| && st != Open
    requires OneOpenCartPerBuyer(carts)
    ensures OneOpenCartPerBuyer(SetCartStatus(carts, c, st))
  {
    var carts' := SetCartStatus(carts, c, st);
    forall i, j | 0 <= i < j < |carts'| && carts'[i].status == Open && carts'[j].status == Open
      ensures carts'[i].user != carts'[j].user || carts'[i].event != carts'[j].event
    {
      assert carts'[i] == carts[i] && carts'[j] == carts[j];
    }
  }

  /** The sweep only expires carts, so it keeps one OPEN cart per buyer. */
  lemma ExpireKeepsOneOpenCart(carts: seq<Cart>, ids: set<CartId>)
    requires OneOpenCartPerBuyer(carts)
    ensures OneOpenCartPerBuyer(ExpireOpen(carts, ids))
  {
    var carts' := ExpireOpen(carts, ids);
    forall i, j | 0 <= i < j < |carts'| && carts'[i].status == Open && carts'[j].status == Open
      ensures carts'[i].user != carts'[j].user || carts'[i].event != carts'[j].event
    {
      assert carts'[i] == carts[i] && carts'[j] == carts[j];
    }
  }

  /** A hold names only existing carts of the row's event. */
  lemma HoldKeepsHoldersExist(rows: map<SeatKey, SeatRow>, carts: seq<Cart>, user: UserId, e: EventId, S: set<SeatId>, until: Time)
    requires HoldersExist(rows, carts)
    ensures HoldersExist(HoldAll(rows, e, S, StartHold(carts, user, e, until).1, until), StartHold(carts, user, e, until).0)
  {
    var r := StartHold(carts, user, e, until);
    var rows' := HoldAll(rows, e, S, r.1, until);
    forall k | k in rows' && rows'[k].heldBy.Some?
      ensures 1 <= rows'[k].heldBy.value <= |r.0| && r.0[rows'[k].heldBy.value - 1].event == k.0
    {
      if !(k.0 == e && k.1 in S) {
        var h := rows[k].heldBy.value;
        assert 1 <= h <= |carts| && carts[h - 1].event == k.0;
        assert r.0[h - 1].event == carts[h - 1].event;
      }
    }
  }

  // =====================================================================
  // HoldersAgree: CartSeats of OPEN carts mirror the HELD rows

  /** Reserving seats that are free keeps CartSeats and the held rows in
      step, whether the buyer's open cart is reused or a new one opened. */
  lemma HoldKeepsAgreement(rows: map<SeatKey, SeatRow>, carts: seq<Cart>, cs: set<CartSeat>,
                           user: UserId, e: EventId, S: set<SeatId>, until: Time)
    requires HoldersExist(rows, carts) && CartSeatsExist(cs, carts) && HoldersAgree(rows, carts, cs)
    requires forall s :: s in S ==> !StoredUnavailable(rows, e, s)
    ensures var r := StartHold(carts, user, e, until);
      HoldersAgree(HoldAll(rows, e, S, r.1, until), r.0, cs + CartPairs(r.1, S))
  {
    var r := StartHold(carts, user, e, until);
    var carts', c := r.0, r.1;
    var rows' := HoldAll(rows, e, S, c, until);
    var cs' := cs + CartPairs(c, S);
    forall c2, s | 1 <= c2 <= |carts'| && carts'[c2 - 1].status == Open
      ensures (c2, s) in cs' <==> HeldBy(rows', carts'[c2 - 1].event, s, c2)
    {
      assert (c2, s) in CartPairs(c, S) <==> c2 == c && s in S;
      if c2 == c {
        if c > |carts| {
          assert (c, s) !in cs;
          assert !HeldBy(rows, e, s, c);
        } else {
          assert IsOpenCartOf(carts[c - 1], user, e);
          assert (c, s) in cs <==> HeldBy(rows, e, s, c);
        }
      } else {
        assert c2 <= |carts| && carts'[c2 - 1] == carts[c2 - 1];
        var e2 := carts[c2 - 1].event;
        assert (c2, s) in cs <==> HeldBy(rows, e2, s, c2);
        if e2 == e && s in S {
          assert !StoredUnavailable(rows, e, s);
          assert !HeldBy(rows', e2, s, c2);
        } else {
          assert HeldBy(rows', e2, s, c2) <==> HeldBy(rows, e2, s, c2);
        }
      }
    }
  }

  /** Releasing seats held by an OPEN cart, dropping their CartSeats
      rows and possibly expiring the cart, keeps the mirror. */
  lemma ReleaseKeepsAgreement(rows: map<SeatKey, SeatRow>, carts: seq<Cart>, cs: set<CartSeat>,
                              c: CartId, R: set<SeatId>, carts': seq<Cart>)
    requires HoldersAgree(rows, carts, cs)
    requires 1 <= c <= |carts| && carts[c - 1].status == Open
    requires forall s :: s in R ==> HeldBy(rows, carts[c - 1].event, s, c)
    requires carts' == carts || carts' == SetCartStatus(carts, c, Expired)
    ensures HoldersAgree(Overwrite(rows, carts[c - 1].event, R, AvailableRow), carts', cs - CartPairs(c, R))
  {
    var e := carts[c - 1].event;
    var rows' := Overwrite(rows, e, R, AvailableRow);
    var cs' := cs - CartPairs(c, R);
    forall c2, s | 1 <= c2 <= |carts'| && carts'[c2 - 1].status == Open
      ensures (c2, s) in cs' <==> HeldBy(rows', carts'[c2 - 1].event, s, c2)
    {
      assert carts'[c2 - 1] == carts[c2 - 1];
      assert (c2, s) in CartPairs(c, R) <==> c2 == c && s in R;
      var e2 := carts[c2 - 1].event;
      if e2 == e && s in R {
        assert HeldBy(rows, e, s, c);
        assert !HeldBy(rows', e2, s, c2);
        assert c2 != c ==> !HeldBy(rows, e2, s, c2);
      } else {
        assert HeldBy(rows', e2, s, c2) <==> HeldBy(rows, e2, s, c2);
      }
    }
  }

  /** Closing a cart without touching rows or CartSeats keeps the mirror
      (the expiry branch of checkout). */
  lemma CloseKeepsAgreement(rows: map<SeatKey, SeatRow>, carts: seq<Cart>, cs: set<CartSeat>, c: CartId, st: CartStatus)
    requires HoldersAgree(rows, carts, cs)
    requires 1 <= c <= |carts| && st != Open
    ensures HoldersAgree(rows, SetCartStatus(carts, c, st), cs)
  {
    var carts' := SetCartStatus(carts, c, st);
    forall c2, s | 1 <= c2 <= |carts'| && carts'[c2 - 1].status == Open
      ensures (c2, s) in cs <==> HeldBy(rows, carts'[c2 - 1].event, s, c2)
    {
      assert carts'[c2 - 1] == carts[c2 - 1];
    }
  }

  /** Selling an OPEN cart's held seats, converting it and deleting its
      CartSeats rows keeps the mirror for every other OPEN cart. */
  lemma SellKeepsAgreement(rows: map<SeatKey, SeatRow>, carts: seq<Cart>, cs: set<CartSeat>, c: CartId, S: set<SeatId>)
    requires HoldersAgree(rows, carts, cs)
    requires 1 <= c <= |carts| && carts[c - 1].status == Open
    requires forall s :: s in S ==> HeldBy(rows, carts[c - 1].event, s, c)
    ensures HoldersAgree(Overwrite(rows, carts[c - 1].event, S, SoldRow), SetCartStatus(carts, c, Converted), DropCarts(cs, {c}))
  {
    var e := carts[c - 1].event;
    var rows' := Overwrite(rows, e, S, SoldRow);
    var carts' := SetCartStatus(carts, c, Converted);
    var cs' := DropCarts(cs, {c});
    forall c2, s | 1 <= c2 <= |carts'| && carts'[c2 - 1].status == Open
      ensures (c2, s) in cs' <==> HeldBy(rows', carts'[c2 - 1].event, s, c2)
    {
      assert c2 != c && carts'[c2 - 1] == carts[c2 - 1];
      assert (c2, s) in cs' <==> (c2, s) in cs;
      var e2 := carts[c2 - 1].event;
      if e2 == e && s in S {
        assert HeldBy(rows, e, s, c);
        assert !HeldBy(rows, e2, s, c2);
      } else {
        assert HeldBy(rows', e2, s, c2) <==> HeldBy(rows, e2, s, c2);
      }
    }
  }

  /** The sweep frees every lapsed hold, expires each cart that held one
      and drops all of that cart's CartSeats rows: the mirror survives. */
  lemma SweepKeepsAgreement(rows: map<SeatKey, SeatRow>, carts: seq<Cart>, cs: set<CartSeat>, now: Time)
    requires HoldersExist(rows, carts) && HoldersAgree(rows, carts, cs)
    ensures var C := LapsedHolders(rows, now);
      HoldersAgree(SweepRows(rows, now), ExpireOpen(carts, C), DropCarts(cs, C))
  {
    var C := LapsedHolders(rows, now);
    var rows' := SweepRows(rows, now);
    var carts' := ExpireOpen(carts, C);
    var cs' := DropCarts(cs, C);
    forall c, s | 1 <= c <= |carts'| && carts'[c - 1].status == Open
      ensures (c, s) in cs' <==> HeldBy(rows', carts'[c - 1].event, s, c)
    {
      assert c !in C && carts'[c - 1] == carts[c - 1];
      var e := carts[c - 1].event;
      assert (c, s) in cs' <==> (c, s) in cs;
    }
  }

  /** After a sweep no stored hold is lapsed. */
  lemma SweepLeavesNoLapsedHold(rows: map<SeatKey, SeatRow>, now: Time)
    ensures forall k :: k in SweepRows(rows, now) ==> !HoldLapsed(SweepRows(rows, now)[k], now)
    ensures forall k :: k in rows && !HoldLapsed(rows[k], now) ==> k in SweepRows(rows, now) && SweepRows(rows, now)[k] == rows[k]
  {
  }

  // =====================================================================
  // SoldOnce: one live ticket per SOLD row

  /** The ticket-to-seat map depends only on the tickets' order items,
      so appending to the ledger or changing a ticket's status keeps
      every earlier ticket's seat. */
  lemma TicketKeyStable(orders: seq<Order>, items: seq<OrderItem>, tickets: seq<Ticket>,
                        orders': seq<Order>, items': seq<OrderItem>, tickets': seq<Ticket>, t: int)
    requires LedgerWellFormed(orders, items, tickets) && LedgerWellFormed(orders', items', tickets')
    requires orders <= orders' && items <= items' && |tickets| <= |tickets'|
    requires 0 <= t < |tickets| && tickets'[t].orderItem == tickets[t].orderItem
    ensures TicketKey(orders', items', tickets', t) == TicketKey(orders, items, tickets, t)
  {
    var i := tickets[t].orderItem - 1;
    assert items'[i] == items[i];
    assert orders'[items[i].order - 1] == orders[items[i].order - 1];
  }

  /** A write that sells and frees no row keeps SoldOnce. */
  lemma SoldFrame(rows: map<SeatKey, SeatRow>, rows': map<SeatKey, SeatRow>,
                  orders: seq<Order>, items: seq<OrderItem>, tickets: seq<Ticket>)
    requires SoldOnce(rows, orders, items, tickets)
    requires forall k :: IsSold(rows, k) <==> IsSold(rows', k)
    ensures SoldOnce(rows', orders, items, tickets)
  {
  }

  /** Opening an order adds no ticket, so it keeps SoldOnce. */
  lemma NewOrderKeepsSoldOnce(rows: map<SeatKey, SeatRow>, orders: seq<Order>, items: seq<OrderItem>, tickets: seq<Ticket>, o: Order)
    requires SoldOnce(rows, orders, items, tickets)
    ensures SoldOnce(rows, orders + [o], items, tickets)
  {
    var orders' := orders + [o];
    forall t | 0 <= t < |tickets|
      ensures TicketKey(orders', items, tickets, t) == TicketKey(orders, items, tickets, t)
    {
      TicketKeyStable(orders, items, tickets, orders', items, tickets, t);
    }
  }

  /** Selling one unsold seat with a new item and a new ISSUED ticket
      keeps exactly one live ticket per SOLD row. */
  lemma SellOneKeepsSoldOnce(rows: map<SeatKey, SeatRow>, orders: seq<Order>, items: seq<OrderItem>, tickets: seq<Ticket>,
                             o: OrderId, s: SeatId, price: nat, barcode: string)
    requires SoldOnce(rows, orders, items, tickets)
    requires 1 <= o <= |orders|
    requires (orders[o - 1].event, s) in rows && !IsSold(rows, (orders[o - 1].event, s))
    ensures var items' := items + [OrderItem(o, s, price, price)];
      SoldOnce(rows[(orders[o - 1].event, s) := SoldRow], orders, items', tickets + [Ticket(|items'|, barcode, Issued)])
  {
    var k := (orders[o - 1].event, s);
    var rows' := rows[k := SoldRow];
    var items' := items + [OrderItem(o, s, price, price)];
    var tickets' := tickets + [Ticket(|items'|, barcode, Issued)];
    assert LedgerWellFormed(orders, items', tickets');
    forall t | 0 <= t < |tickets|
      ensures TicketKey(orders, items', tickets', t) == TicketKey(orders, items, tickets, t)
    {
      TicketKeyStable(orders, items, tickets, orders, items', tickets', t);
    }
    var n := |tickets|;
    assert TicketKey(orders, items', tickets', n) == k;
    forall t | 0 <= t < |tickets'| && Live(tickets'[t])
      ensures IsSold(rows', TicketKey(orders, items', tickets', t))
    {
      if t < n {
        assert tickets'[t] == tickets[t];
      }
    }
    forall t1, t2 | 0 <= t1 < |tickets'| && 0 <= t2 < |tickets'| && Live(tickets'[t1]) && Live(tickets'[t2])
      && TicketKey(orders, items', tickets', t1) == TicketKey(orders, items', tickets', t2)
      ensures t1 == t2
    {
      if t1 < n {
        assert tickets'[t1] == tickets[t1];
        assert IsSold(rows, TicketKey(orders, items, tickets, t1));
      }
      if t2 < n {
        assert tickets'[t2] == tickets[t2];
        assert IsSold(rows, TicketKey(orders, items, tickets, t2));
      }
    }
    forall k2 | IsSold(rows', k2)
      ensures exists t :: 0 <= t < |tickets'| && Live(tickets'[t]) && TicketKey(orders, items', tickets', t) == k2
    {
      if k2 == k {
        assert Live(tickets'[n]);
      } else {
        assert IsSold(rows, k2);
        var t :| 0 <= t < |tickets| && Live(tickets[t]) && TicketKey(orders, items, tickets, t) == k2;
        assert tickets'[t] == tickets[t];
      }
    }
  }

  /** Scanning an ISSUED ticket keeps it live, so SoldOnce holds on. */
  lemma ScanKeepsSoldOnce(rows: map<SeatKey, SeatRow>, orders: seq<Order>, items: seq<OrderItem>, tickets: seq<Ticket>, t: int)
    requires SoldOnce(rows, orders, items, tickets)
    requires 0 <= t < |tickets| && tickets[t].status == Issued
    ensures SoldOnce(rows, orders, items, tickets[t := tickets[t].(status := Scanned)])
  {
    var tickets' := tickets[t := tickets[t].(status := Scanned)];
    assert LedgerWellFormed(orders, items, tickets');
    forall u | 0 <= u < |tickets|
      ensures TicketKey(orders, items, tickets', u) == TicketKey(orders, items, tickets, u)
      ensures Live(tickets'[u]) == Live(tickets[u])
    {
      TicketKeyStable(orders, items, tickets, orders, items, tickets', u);
    }
    forall k | IsSold(rows, k)
      ensures exists u :: 0 <= u < |tickets'| && Live(tickets'[u]) && TicketKey(orders, items, tickets', u) == k
    {
      var u :| 0 <= u < |tickets| && Live(tickets[u]) && TicketKey(orders, items, tickets, u) == k;
      assert Live(tickets'[u]);
    }
  }

  /** The row a void frees: its status becomes AVAILABLE, the other
      columns are kept; a missing row stays missing. */
  function VoidRows(rows: map<SeatKey, SeatRow>, k: SeatKey): map<SeatKey, SeatRow> {
    if k in rows then rows[k := rows[k].(status := Available)] else rows
  }

  /** Voiding a live ticket frees its SOLD row and leaves it with no live
      ticket: SoldOnce holds on. */
  lemma VoidKeepsSoldOnce(rows: map<SeatKey, SeatRow>, orders: seq<Order>, items: seq<OrderItem>, tickets: seq<Ticket>, t: int)
    requires SoldOnce(rows, orders, items, tickets)
    requires 0 <= t < |tickets| && Live(tickets[t])
    ensures SoldOnce(VoidRows(rows, TicketKey(orders, items, tickets, t)), orders, items, tickets[t := tickets[t].(status := Voided)])
  {
    var k := TicketKey(orders, items, tickets, t);
    var rows' := VoidRows(rows, k);
    var tickets' := tickets[t := tickets[t].(status := Voided)];
    assert LedgerWellFormed(orders, items, tickets');
    forall u | 0 <= u < |tickets|
      ensures TicketKey(orders, items, tickets', u) == TicketKey(orders, items, tickets, u)
    {
      TicketKeyStable(orders, items, tickets, orders, items, tickets', u);
    }
    forall u | 0 <= u < |tickets'| && Live(tickets'[u])
      ensures IsSold(rows', TicketKey(orders, items, tickets', u))
    {
      assert u != t && tickets'[u] == tickets[u];
      assert TicketKey(orders, items, tickets, u) != k;
    }
    forall k2 | IsSold(rows', k2)
      ensures exists u :: 0 <= u < |tickets'| && Live(tickets'[u]) && TicketKey(orders, items, tickets', u) == k2
    {
      assert k2 != k && IsSold(rows, k2);
      var u :| 0 <= u < |tickets| && Live(tickets[u]) && TicketKey(orders, items, tickets, u) == k2;
      assert u != t && tickets'[u] == tickets[u];
    }
  }

  /** The seat of a live ticket is SOLD, hence held by nobody, before and
      after the void: CartSeats and the held rows stay in step. */
  lemma VoidKeepsAgreement(rows: map<SeatKey, SeatRow>, carts: seq<Cart>, cs: set<CartSeat>,
                           orders: seq<Order>, items: seq<OrderItem>, tickets: seq<Ticket>, t: int)
    requires SoldOnce(rows, orders, items, tickets) && HoldersAgree(rows, carts, cs)
    requires 0 <= t < |tickets| && Live(tickets[t])
    ensures HoldersAgree(VoidRows(rows, TicketKey(orders, items, tickets, t)), carts, cs)
  {
    var k := TicketKey(orders, items, tickets, t);
    assert IsSold(rows, k);
    var rows' := VoidRows(rows, k);
    forall c, s | 1 <= c <= |carts| && carts[c - 1].status == Open
      ensures (c, s) in cs <==> HeldBy(rows', carts[c - 1].event, s, c)
    {
      assert HeldBy(rows', carts[c - 1].event, s, c) <==> HeldBy(rows, carts[c - 1].event, s, c);
    }
  }

  // =====================================================================
  // Order totals

  /** An order id beyond every item's order has no items yet. */
  lemma {:induction false} ItemsTotalFresh(items: seq<OrderItem>, o: OrderId)
    requires forall i :: 0 <= i < |items| ==> items[i].order < o
    ensures ItemsTotal(items, o) == 0
    decreases |items|
  {
    if items != [] {
      ItemsTotalFresh(items[..|items| - 1], o);
    }
  }

  /** Appending an item adds its line total to its own order only. */
  lemma ItemsTotalAppend(items: seq<OrderItem>, it: OrderItem, o: OrderId)
    ensures ItemsTotal(items + [it], o) == ItemsTotal(items, o) + (if it.order == o then it.lineTotalCents else 0)
  {
    assert (items + [it])[..|items|] == items;
  }
}
