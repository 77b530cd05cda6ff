/**
 * The ticketing handlers over one database.  Each handler is a method
 * of `Database` that reads and writes the mutable tables in the order
 * the handler does, and is proved to leave exactly the state that the
 * matching transition of module Machine describes.  Failed requests
 * change nothing, except the expiry write of the checkout and payment
 * handlers, which is kept as the handlers commit it.
 */
module Store {
  import opened Schema
  import opened Decimal
  import opened Catalog
  import opened Tables
  import opened Inventory
  import opened Access
  import opened Barcode
  import opened Steps
  import opened Machine

  // =====================================================================
  // Responses

  datatype ReserveOutcome =
    | EventNotFound                                               // 404
    | EventNotOnSale                                              // 400
    | SectionShort(section: string, requested: int, available: nat) // 409
    | NoSeatsSpecified                                            // 400
    | SeatsUnavailable(seats: seq<SeatId>)                        // 409
    | Reserved(cart: CartId, seats: seq<SeatId>, expiresAt: Time) // 200
  {
    function Code(): nat {
      match this
      case EventNotFound => 404
      case EventNotOnSale => 400
      case SectionShort(_, _, _) => 409
      case NoSeatsSpecified => 400
      case SeatsUnavailable(_) => 409
      case Reserved(_, _, _) => 200
    }
  }

  datatype ReleaseOutcome =
    | SeatIdsRequired                 // 400
    | NoActiveCart                    // 404
    | Released(seats: seq<SeatId>)    // 200
  {
    function Code(): nat {
      match this
      case SeatIdsRequired => 400
      case NoActiveCart => 404
      case Released(_) => 200
    }
  }

  /** The outcomes of checkout, payment-intent creation and purchase
      completion, which share their cart checks. */
  datatype CartOutcome =
    | MissingInput                                                  // 400
    | PaymentNotSucceeded(paymentStatus: string)                    // 400
    | PaymentMismatch                                               // 403
    | CartNotFound                                                  // 404
    | CartExpired                                                   // 410
    | CartEmpty                                                     // 400
    | SeatNotHeld(seat: SeatId)                                     // 409
    | InvalidTotal                                                  // 400
    | IntentCreated(amount: nat, metadata: map<string, string>)     // 200
    | Purchased(order: OrderId, totalCents: nat, seats: seq<SeatId>) // 201
  {
    function Code(): nat {
      match this
      case MissingInput => 400
      case PaymentNotSucceeded(_) => 400
      case PaymentMismatch => 403
      case CartNotFound => 404
      case CartExpired => 410
      case CartEmpty => 400
      case SeatNotHeld(_) => 409
      case InvalidTotal => 400
      case IntentCreated(_, _) => 200
      case Purchased(_, _, _) => 201
    }
  }

  datatype OrderOutcome =
    | OrderInputMissing                          // 400
    | SeatNotFound(seat: SeatId)                 // 404
    | SeatTaken(seat: SeatId)                    // 409
    | OrderFailed                                // 500
    | OrderCreated(order: OrderId, totalCents: nat) // 201
  {
    function Code(): nat {
      match this
      case OrderInputMissing => 400
      case SeatNotFound(_) => 404
      case SeatTaken(_) => 409
      case OrderFailed => 500
      case OrderCreated(_, _) => 201
    }
  }

  datatype SweepOutcome =
    | SweepForbidden                                  // 403
    | Swept(seatsReleased: nat, cartsExpired: nat)    // 200

  datatype TicketOutcome =
    | TicketForbidden                       // 403
    | TicketNotFound                        // 404
    | AlreadyScanned                        // 409
    | AlreadyVoided                         // 400
    | TicketScanned(ticket: TicketId)       // 200
    | TicketVoided(ticket: TicketId, seat: SeatId) // 200
  {
    function Code(): nat {
      match this
      case TicketForbidden => 403
      case TicketNotFound => 404
      case AlreadyScanned => 409
      case AlreadyVoided => 400
      case TicketScanned(_) => 200
      case TicketVoided(_, _) => 200
    }
  }

  /** What the payment provider reports for a payment intent. */
  datatype Payment = Payment(status: string, metadata: map<string, string>)

  // =====================================================================
  // Queries and payment metadata

  /** The by-section query: seats of the event's venue in the named
      section whose effective status is AVAILABLE. */
  function AvailableInSection(cat: Catalog, rows: map<SeatKey, SeatRow>, e: EventId, name: string): set<SeatId>
    requires e in cat.events
  {
    set s | s in cat.seats && cat.seats[s].venue == cat.events[e].venue && cat.seats[s].section == Some(name)
                             && EffectiveStatus(rows, e, s) == Available
  }

  /** Entry `j` of a by-section request is the one the handler stops at:
      it asks for more seats than its section has available, and every
      earlier entry with a positive quantity could be served. */
  predicate FirstShortSection(cat: Catalog, rows: map<SeatKey, SeatRow>, e: EventId, sections: seq<(string, int)>, j: int) {
    && e in cat.events
    && 0 <= j < |sections| && sections[j].1 > 0
    && |AvailableInSection(cat, rows, e, sections[j].0)| < sections[j].1
    && forall k :: 0 <= k < j && sections[k].1 > 0 ==> sections[k].1 <= |AvailableInSection(cat, rows, e, sections[k].0)|
  }

  /** The number of seats a by-section request asks for: entries with a
      quantity of zero or less are skipped. */
  function RequestedCount(sections: seq<(string, int)>): nat {
    if sections == [] then 0
    else RequestedCount(sections[..|sections| - 1]) + (if sections[|sections| - 1].1 > 0 then sections[|sections| - 1].1 else 0)
  }

  /** A by-section request is a JSON object, so no section is named twice. */
  predicate SectionNamesDistinct(sections: seq<(string, int)>) {
    forall i, j :: 0 <= i < j < |sections| ==> sections[i].0 != sections[j].0
  }

  /** A by-section pick serves its request: no seat is picked twice, and
      each entry with a positive quantity gets exactly that many seats of
      its own section. */
  ghost predicate ServesSections(cat: Catalog, rows: map<SeatKey, SeatRow>, e: EventId, sections: seq<(string, int)>, picked: seq<SeatId>)
    requires e in cat.events
  {
    && Distinct(picked)
    && forall p :: p in sections && p.1 > 0 ==> |Elements(picked) * AvailableInSection(cat, rows, e, p.0)| == p.1
  }

  /** The by-section loop's state once the entries of `prefix` are
      served: every seat picked so far belongs to one of them. */
  ghost predicate PickedSoFar(cat: Catalog, rows: map<SeatKey, SeatRow>, e: EventId, prefix: seq<(string, int)>, picked: seq<SeatId>)
    requires e in cat.events
  {
    && ServesSections(cat, rows, e, prefix, picked)
    && forall s :: s in picked ==> exists p :: p in prefix && p.1 > 0 && s in AvailableInSection(cat, rows, e, p.0)
  }

  /** Sections with different names share no seat. */
  lemma SectionsDisjoint(cat: Catalog, rows: map<SeatKey, SeatRow>, e: EventId, a: string, b: string)
    requires e in cat.events && a != b
    ensures AvailableInSection(cat, rows, e, a) * AvailableInSection(cat, rows, e, b) == {}
  {
    forall s | s in AvailableInSection(cat, rows, e, a)
      ensures s !in AvailableInSection(cat, rows, e, b)
    {
      assert cat.seats[s].section == Some(a);
    }
  }

  /** Two duplicate-free lists with no common element concatenate to a
      duplicate-free list. */
  lemma DistinctConcat(xs: seq<SeatId>, ys: seq<SeatId>)
    requires Distinct(xs) && Distinct(ys) && Elements(xs) * Elements(ys) == {}
    ensures Distinct(xs + ys) && Elements(xs + ys) == Elements(xs) + Elements(ys)
  {
    forall a, b | 0 <= a < b < |xs + ys|
      ensures (xs + ys)[a] != (xs + ys)[b]
    {
      if b < |xs| {
        assert (xs + ys)[a] == xs[a] && (xs + ys)[b] == xs[b];
      } else if a >= |xs| {
        assert (xs + ys)[a] == ys[a - |xs|] && (xs + ys)[b] == ys[b - |xs|];
      } else {
        var x, y := xs[a], ys[b - |xs|];
        assert (xs + ys)[a] == x && (xs + ys)[b] == y;
        assert x in Elements(xs) && y in Elements(ys);
        assert x !in Elements(xs) * Elements(ys);
      }
    }
  }

  /** Seats picked for the entries of `prefix` miss the section of an
      entry named differently from all of them. */
  lemma PickedMissesSection(cat: Catalog, rows: map<SeatKey, SeatRow>, e: EventId, prefix: seq<(string, int)>, picked: seq<SeatId>, name: string)
    requires e in cat.events && PickedSoFar(cat, rows, e, prefix, picked)
    requires forall p :: p in prefix ==> p.0 != name
    ensures Elements(picked) * AvailableInSection(cat, rows, e, name) == {}
  {
    forall s | s in picked
      ensures s !in AvailableInSection(cat, rows, e, name)
    {
      var p :| p in prefix && p.1 > 0 && s in AvailableInSection(cat, rows, e, p.0);
      SectionsDisjoint(cat, rows, e, p.0, name);
    }
  }

  /** Serving entry `i` with `more`, distinct available seats of its own
      section, keeps the earlier entries' counts: the sections' seats are
      disjoint because their names differ. */
  lemma PickedSoFarStep(cat: Catalog, rows: map<SeatKey, SeatRow>, e: EventId, sections: seq<(string, int)>, i: nat,
                        picked: seq<SeatId>, more: seq<SeatId>)
    requires e in cat.events && SectionNamesDistinct(sections) && i < |sections|
    requires PickedSoFar(cat, rows, e, sections[..i], picked)
    requires sections[i].1 > 0 && Distinct(more) && |more| == sections[i].1
    requires Elements(more) <= AvailableInSection(cat, rows, e, sections[i].0)
    ensures PickedSoFar(cat, rows, e, sections[..i + 1], picked + more)
  {
    var prefix, here := sections[..i], sections[i];
    assert sections[..i + 1] == prefix + [here];
    assert forall p :: p in prefix ==> p.0 != here.0 by {
      forall p | p in prefix
        ensures p.0 != here.0
      {
        var k :| 0 <= k < i && prefix[k] == p;
      }
    }
    PickedMissesSection(cat, rows, e, prefix, picked, here.0);
    DistinctConcat(picked, more);
    PickedCountsStep(cat, rows, e, prefix, here, picked, more);
    PickedFromStep(cat, rows, e, prefix, here, picked, more);
  }

  /** An entry with a quantity of zero or less asks for nothing. */
  lemma PickedSoFarSkip(cat: Catalog, rows: map<SeatKey, SeatRow>, e: EventId, prefix: seq<(string, int)>, here: (string, int), picked: seq<SeatId>)
    requires e in cat.events && PickedSoFar(cat, rows, e, prefix, picked) && here.1 <= 0
    ensures PickedSoFar(cat, rows, e, prefix + [here], picked)
  {
    forall s | s in picked
      ensures exists p :: p in prefix + [here] && p.1 > 0 && s in AvailableInSection(cat, rows, e, p.0)
    {
      var p :| p in prefix && p.1 > 0 && s in AvailableInSection(cat, rows, e, p.0);
      assert p in prefix + [here];
    }
  }

  /** The by-section loop's invariant: every positive entry of `prefix`
      could be served, and `picked` serves them. */
  ghost predicate PickLoop(cat: Catalog, rows: map<SeatKey, SeatRow>, e: EventId, prefix: seq<(string, int)>, picked: seq<SeatId>)
    requires e in cat.events
  {
    && (forall p :: p in prefix && p.1 > 0 ==> p.1 <= |AvailableInSection(cat, rows, e, p.0)|)
    && |picked| == RequestedCount(prefix)
    && PickedSoFar(cat, rows, e, prefix, picked)
  }

  lemma PickLoopStep(cat: Catalog, rows: map<SeatKey, SeatRow>, e: EventId, sections: seq<(string, int)>, i: nat,
                     picked: seq<SeatId>, more: seq<SeatId>)
    requires e in cat.events && SectionNamesDistinct(sections) && i < |sections|
    requires PickLoop(cat, rows, e, sections[..i], picked)
    requires sections[i].1 > 0 && Distinct(more) && |more| == sections[i].1
    requires sections[i].1 <= |AvailableInSection(cat, rows, e, sections[i].0)|
    requires Elements(more) <= AvailableInSection(cat, rows, e, sections[i].0)
    ensures PickLoop(cat, rows, e, sections[..i + 1], picked + more)
  {
    var prefix, here := sections[..i], sections[i];
    assert sections[..i + 1][..i] == prefix;
    assert sections[..i + 1] == prefix + [here];
    assert RequestedCount(sections[..i + 1]) == RequestedCount(prefix) + here.1;
    forall p | p in prefix + [here] && p.1 > 0
      ensures p.1 <= |AvailableInSection(cat, rows, e, p.0)|
    {
      if p != here {
        assert p in prefix;
      }
    }
    PickedSoFarStep(cat, rows, e, sections, i, picked, more);
  }

  /** Stopping at entry `i` reports the first short section. */
  lemma PickLoopShort(cat: Catalog, rows: map<SeatKey, SeatRow>, e: EventId, sections: seq<(string, int)>, i: nat, picked: seq<SeatId>)
    requires e in cat.events && i < |sections| && sections[i].1 > 0
    requires |AvailableInSection(cat, rows, e, sections[i].0)| < sections[i].1
    requires PickLoop(cat, rows, e, sections[..i], picked)
    ensures sections[i] in sections && FirstShortSection(cat, rows, e, sections, i)
    ensures exists j :: FirstShortSection(cat, rows, e, sections, j) && sections[j] == sections[i]
    ensures !forall p :: p in sections && p.1 > 0 ==> p.1 <= |AvailableInSection(cat, rows, e, p.0)|
  {
    assert forall k :: 0 <= k < i ==> sections[k] in sections[..i];
  }

  /** A loop that ran to the end served every entry. */
  lemma PickLoopDone(cat: Catalog, rows: map<SeatKey, SeatRow>, e: EventId, sections: seq<(string, int)>, picked: seq<SeatId>)
    requires e in cat.events && PickLoop(cat, rows, e, sections[..|sections|], picked)
    ensures forall p :: p in sections && p.1 > 0 ==> p.1 <= |AvailableInSection(cat, rows, e, p.0)|
    ensures |picked| == RequestedCount(sections)
    ensures forall s :: s in picked ==> exists p :: p in sections && p.1 > 0 && s in AvailableInSection(cat, rows, e, p.0)
    ensures ServesSections(cat, rows, e, sections, picked)
  {
    assert sections[..|sections|] == sections;
  }

  lemma PickLoopSkip(cat: Catalog, rows: map<SeatKey, SeatRow>, e: EventId, sections: seq<(string, int)>, i: nat, picked: seq<SeatId>)
    requires e in cat.events && i < |sections| && sections[i].1 <= 0
    requires PickLoop(cat, rows, e, sections[..i], picked)
    ensures PickLoop(cat, rows, e, sections[..i + 1], picked)
  {
    assert sections[..i + 1][..i] == sections[..i];
    assert sections[..i + 1] == sections[..i] + [sections[i]];
    PickedSoFarSkip(cat, rows, e, sections[..i], sections[i], picked);
  }

  /** The counts half of the step: the new entry gets `more`, the
      earlier entries keep what they had. */
  lemma PickedCountsStep(cat: Catalog, rows: map<SeatKey, SeatRow>, e: EventId, prefix: seq<(string, int)>, here: (string, int),
                         picked: seq<SeatId>, more: seq<SeatId>)
    requires e in cat.events && (forall p :: p in prefix ==> p.0 != here.0)
    requires ServesSections(cat, rows, e, prefix, picked)
    requires Elements(picked) * AvailableInSection(cat, rows, e, here.0) == {}
    requires here.1 > 0 && Distinct(more) && |more| == here.1
    requires Elements(more) <= AvailableInSection(cat, rows, e, here.0)
    requires Distinct(picked + more) && Elements(picked + more) == Elements(picked) + Elements(more)
    ensures ServesSections(cat, rows, e, prefix + [here], picked + more)
  {
    forall p | p in prefix + [here] && p.1 > 0
      ensures |Elements(picked + more) * AvailableInSection(cat, rows, e, p.0)| == p.1
    {
      var theirs := AvailableInSection(cat, rows, e, p.0);
      if p == here {
        assert Elements(picked + more) * theirs == Elements(more);
        DistinctElementsCount(more);
      } else {
        assert p in prefix;
        SectionsDisjoint(cat, rows, e, here.0, p.0);
        assert Elements(picked + more) * theirs == Elements(picked) * theirs;
      }
    }
  }

  /** The membership half of the step: each seat picked so far belongs
      to an entry of the longer prefix. */
  lemma PickedFromStep(cat: Catalog, rows: map<SeatKey, SeatRow>, e: EventId, prefix: seq<(string, int)>, here: (string, int),
                       picked: seq<SeatId>, more: seq<SeatId>)
    requires e in cat.events && here.1 > 0
    requires forall s :: s in picked ==> exists p :: p in prefix && p.1 > 0 && s in AvailableInSection(cat, rows, e, p.0)
    requires Elements(more) <= AvailableInSection(cat, rows, e, here.0)
    ensures forall s :: s in picked + more ==> exists p :: p in prefix + [here] && p.1 > 0 && s in AvailableInSection(cat, rows, e, p.0)
  {
    forall s | s in picked + more
      ensures exists p :: p in prefix + [here] && p.1 > 0 && s in AvailableInSection(cat, rows, e, p.0)
    {
      if s in picked {
        var p :| p in prefix && p.1 > 0 && s in AvailableInSection(cat, rows, e, p.0);
        assert p in prefix + [here];
      } else {
        assert s in Elements(more);
        assert here in prefix + [here];
      }
    }
  }

  /** The metadata a payment intent carries: the decimal texts of the
      cart, user and event ids and of the seat count. */
  function IntentMetadata(c: CartId, user: UserId, e: EventId, seatCount: nat): map<string, string> {
    map["cart_id" := IntToString(c), "user_id" := IntToString(user),
        "event_id" := IntToString(e), "seat_count" := IntToString(seatCount)]
  }

  /** The purchase completion's check: a missing key never matches. */
  predicate MetadataMatches(metadata: map<string, string>, c: CartId, user: UserId) {
    && "cart_id" in metadata && metadata["cart_id"] == IntToString(c)
    && "user_id" in metadata && metadata["user_id"] == IntToString(user)
  }

  /** A payment intent's metadata passes the completion check for the
      same cart and user, and for no other cart or user. */
  lemma IntentMetadataIdentifiesCart(c: CartId, user: UserId, e: EventId, n: nat, c2: CartId, user2: UserId)
    ensures MetadataMatches(IntentMetadata(c, user, e, n), c2, user2) <==> c == c2 && user == user2
  {
    var m := IntentMetadata(c, user, e, n);
    if MetadataMatches(m, c2, user2) {
      IntToStringInjective(c, c2);
      IntToStringInjective(user, user2);
    }
  }

  /** The by-section path: for each entry with a positive quantity, up
      to that many AVAILABLE seats of the section; 409 at the first
      section that has too few. */
  method PickSections(catalog: Catalog, rows: map<SeatKey, SeatRow>, e: EventId, sections: seq<(string, int)>) returns (short: Option<(string, int, nat)>, picked: seq<SeatId>)
    requires e in catalog.events && SectionNamesDistinct(sections)
    ensures short.None? <==> forall p :: p in sections && p.1 > 0 ==> p.1 <= |AvailableInSection(catalog, rows, e, p.0)|
    ensures short.Some? ==> ((short.value.0, short.value.1) in sections && 0 < short.value.1
      && short.value.2 < short.value.1 && short.value.2 == |AvailableInSection(catalog, rows, e, short.value.0)|)
    ensures short.Some? ==> exists j :: FirstShortSection(catalog, rows, e, sections, j) && sections[j] == (short.value.0, short.value.1)
    ensures short.None? ==> |picked| == RequestedCount(sections)
    ensures short.None? ==> forall s :: s in picked ==> exists p :: p in sections && p.1 > 0 && s in AvailableInSection(catalog, rows, e, p.0)
    ensures short.None? ==> ServesSections(catalog, rows, e, sections, picked)
  {
    short, picked := None, [];
    var i := 0;
    while i < |sections|
      invariant 0 <= i <= |sections|
      invariant PickLoop(catalog, rows, e, sections[..i], picked)
    {
      var (name, qty) := sections[i];
      if qty > 0 {
        var avail := AvailableInSection(catalog, rows, e, name);
        var more := TakeRows(avail, qty);
        if |more| < qty {
          PickLoopShort(catalog, rows, e, sections, i, picked);
          assert sections[i] == (name, qty);
          return Some((name, qty, |more|)), [];
        }
        PickLoopStep(catalog, rows, e, sections, i, picked, more);
        picked := picked + more;
      } else {
        PickLoopSkip(catalog, rows, e, sections, i, picked);
      }
      i := i + 1;
    }
    PickLoopDone(catalog, rows, e, sections, picked);
  }

  /** The rows of a query over a set, in an order the engine chooses,
      stopping after `limit` rows. */
  method TakeRows(S: set<SeatId>, limit: int) returns (list: seq<SeatId>)
    ensures Distinct(list) && Elements(list) <= S
    ensures |list| == if limit < 0 then 0 else if limit < |S| then limit else |S|
    ensures |list| < limit ==> Elements(list) == S
  {
    list := [];
    var left := S;
    while |list| < limit && left != {}
      invariant Distinct(list) && Elements(list) <= S && left == S - Elements(list)
      invariant |left| == |S| - |list|
      invariant |list| <= limit || list == []
      decreases |left|
    {
      var s := AnyId(left);
      TakeStep(S, list, s);
      list := list + [s];
      left := left - {s};
    }
  }

  /** The seats a release reports, in request order: the request is
      scanned front to back, and a seat is taken when its stored row names
      the cart as holder and it was not taken earlier (its row was freed
      by then). */
  ghost function ReleasedList(rows0: map<SeatKey, SeatRow>, e: EventId, c: CartId, ids: seq<SeatId>): (r: seq<SeatId>)
    ensures Distinct(r) && Elements(r) == set s | s in ids && HolderIs(rows0, e, s, c)
    decreases |ids|
  {
    if ids == [] then []
    else
      var front, s := ids[..|ids| - 1], ids[|ids| - 1];
      var p := ReleasedList(rows0, e, c, front);
      assert ids == front + [s];
      if HolderIs(rows0, e, s, c) && s !in p then
        assert Elements(p + [s]) == Elements(p) + {s};
        p + [s]
      else p
  }

  /** The per-seat loop of a release: each listed seat whose row names
      the cart as holder is freed and leaves the cart. */
  method ReleaseHeld(rows0: map<SeatKey, SeatRow>, cartSeats0: set<CartSeat>, c: CartId, e: EventId, ids: seq<SeatId>)
    returns (rows: map<SeatKey, SeatRow>, cartSeats: set<CartSeat>, released: seq<SeatId>)
    ensures released == ReleasedList(rows0, e, c, ids)
    ensures Distinct(released) && Elements(released) == set s | s in ids && HolderIs(rows0, e, s, c)
    ensures rows == Overwrite(rows0, e, Elements(released), AvailableRow)
    ensures cartSeats == cartSeats0 - CartPairs(c, Elements(released))
  {
    rows, cartSeats, released := rows0, cartSeats0, [];
    assert Overwrite(rows, e, {}, AvailableRow) == rows;
    var i := 0;
    while i < |ids|
      invariant 0 <= i <= |ids|
      invariant ReleasedSoFar(rows0, cartSeats0, c, e, ids[..i], rows, cartSeats, released)
    {
      ReleasedSoFarStep(rows0, cartSeats0, c, e, ids, i, rows, cartSeats, released);
      var s := ids[i];
      if (e, s) in rows && rows[(e, s)].heldBy == Some(c) {
        cartSeats := cartSeats - {(c, s)};
        rows := rows[(e, s) := AvailableRow];
        released := released + [s];
      }
      i := i + 1;
    }
    assert ids[..i] == ids;
  }

  /** The release loop's state once the seats of `prefix` are handled. */
  ghost predicate ReleasedSoFar(rows0: map<SeatKey, SeatRow>, cartSeats0: set<CartSeat>, c: CartId, e: EventId, prefix: seq<SeatId>,
                                rows: map<SeatKey, SeatRow>, cartSeats: set<CartSeat>, released: seq<SeatId>) {
    && released == ReleasedList(rows0, e, c, prefix)
    && Distinct(released) && Elements(released) == (set s | s in prefix && HolderIs(rows0, e, s, c))
    && rows == Overwrite(rows0, e, Elements(released), AvailableRow)
    && cartSeats == cartSeats0 - CartPairs(c, Elements(released))
  }

  lemma ReleasedSoFarStep(rows0: map<SeatKey, SeatRow>, cartSeats0: set<CartSeat>, c: CartId, e: EventId, ids: seq<SeatId>, i: nat,
                          rows: map<SeatKey, SeatRow>, cartSeats: set<CartSeat>, released: seq<SeatId>)
    requires i < |ids| && ReleasedSoFar(rows0, cartSeats0, c, e, ids[..i], rows, cartSeats, released)
    ensures var s := ids[i];
      if (e, s) in rows && rows[(e, s)].heldBy == Some(c) then
        ReleasedSoFar(rows0, cartSeats0, c, e, ids[..i + 1], rows[(e, s) := AvailableRow], cartSeats - {(c, s)}, released + [s])
      else
        ReleasedSoFar(rows0, cartSeats0, c, e, ids[..i + 1], rows, cartSeats, released)
  {
    var s := ids[i];
    assert ids[..i + 1] == ids[..i] + [s];
    assert ids[..i + 1][..i] == ids[..i];
    if (e, s) in rows && rows[(e, s)].heldBy == Some(c) {
      assert s !in Elements(released);
      OverwriteStep(rows0, e, Elements(released), s, AvailableRow);
      assert Elements(released + [s]) == Elements(released) + {s};
    }
  }

  /** The per-seat writes of a sale: an OrderItem, an ISSUED ticket and
      a SOLD status row for each seat.  A seat listed twice violates
      UNIQUE(order_id, seat_id) and stops the loop with `ok` false,
      leaving the writes made so far for the caller to roll back. */
  method SellSeats(cat: Catalog, rows0: map<SeatKey, SeatRow>, items0: seq<OrderItem>, tickets0: seq<Ticket>,
                   o: OrderId, e: EventId, list: seq<SeatId>, uuid: nat -> string)
    returns (ok: bool, rows: map<SeatKey, SeatRow>, items: seq<OrderItem>, tickets: seq<Ticket>)
    requires UuidOracle(uuid)
    ensures ok <==> Distinct(list)
    ensures ok ==> rows == Overwrite(rows0, e, Elements(list), SoldRow)
    ensures ok ==> items == items0 + NewItems(cat, o, e, list)
    ensures ok ==> tickets == tickets0 + NewTickets(|items0|, |tickets0|, |list|, uuid)
  {
    rows, items, tickets := rows0, items0, tickets0;
    var i := 0;
    assert Overwrite(rows, e, {}, SoldRow) == rows;
    assert SoldSoFar(cat, rows0, items0, tickets0, o, e, list[..0], uuid, rows, items, tickets);
    while i < |list|
      invariant 0 <= i <= |list|
      invariant SoldSoFar(cat, rows0, items0, tickets0, o, e, list[..i], uuid, rows, items, tickets)
    {
      var s := list[i];
      if s in list[..i] {
        var j :| 0 <= j < i && list[j] == s;
        return false, rows, items, tickets;
      }
      SoldSoFarStep(cat, rows0, items0, tickets0, o, e, list, i, uuid, rows, items, tickets);
      rows, items, tickets := SellOne(cat, rows, items, tickets, o, e, s, uuid);
      i := i + 1;
    }
    assert list[..i] == list;
    return true, rows, items, tickets;
  }

  /** The sale loop's state once the seats of `prefix` are written. */
  ghost predicate SoldSoFar(cat: Catalog, rows0: map<SeatKey, SeatRow>, items0: seq<OrderItem>, tickets0: seq<Ticket>,
                            o: OrderId, e: EventId, prefix: seq<SeatId>, uuid: nat -> string,
                            rows: map<SeatKey, SeatRow>, items: seq<OrderItem>, tickets: seq<Ticket>) {
    && UuidOracle(uuid) && Distinct(prefix)
    && rows == Overwrite(rows0, e, Elements(prefix), SoldRow)
    && items == items0 + NewItems(cat, o, e, prefix)
    && tickets == tickets0 + NewTickets(|items0|, |tickets0|, |prefix|, uuid)
  }

  lemma SoldSoFarStep(cat: Catalog, rows0: map<SeatKey, SeatRow>, items0: seq<OrderItem>, tickets0: seq<Ticket>,
                      o: OrderId, e: EventId, list: seq<SeatId>, i: nat, uuid: nat -> string,
                      rows: map<SeatKey, SeatRow>, items: seq<OrderItem>, tickets: seq<Ticket>)
    requires i < |list| && list[i] !in list[..i]
    requires SoldSoFar(cat, rows0, items0, tickets0, o, e, list[..i], uuid, rows, items, tickets)
    ensures var s := list[i];
      SoldSoFar(cat, rows0, items0, tickets0, o, e, list[..i + 1], uuid,
                if (e, s) in rows then rows[(e, s) := SoldRow] else rows,
                items + [OrderItem(o, s, PriceOf(cat, e, s), PriceOf(cat, e, s))],
                tickets + [Ticket(|items| + 1, BarcodeOf(uuid(|tickets| + 1)), Issued)])
  {
    SaleStep(cat, rows0, items0, tickets0, o, e, list, i, uuid);
  }

  /** The first loop of the sweep, over the SeatStatus rows: free each
      lapsed hold and collect the (non-null, non-zero) carts that held
      one. */
  method FreeLapsedRows(rows0: map<SeatKey, SeatRow>, now: Time) returns (rows: map<SeatKey, SeatRow>, released: nat, holders: set<CartId>)
    ensures rows == SweepRows(rows0, now)
    ensures released == |LapsedKeys(rows0, now)| && holders == LapsedHolders(rows0, now)
  {
    var expired := set k | k in rows0 && rows0[k].status == Held && rows0[k].holdExpiresAt.Some? && rows0[k].holdExpiresAt.value < now;
    assert expired == LapsedKeys(rows0, now);
    ghost var done: set<SeatKey> := {};
    var left := expired;
    rows, released, holders := rows0, 0, {};
    assert ClearKeys(rows0, done) == rows0;
    while left != {}
      invariant done <= expired && left == expired - done
      invariant SweptSoFar(rows0, done, rows, released, holders)
      decreases |left|
    {
      var k :| k in left;
      var holder := rows0[k].heldBy;
      SweepStep(rows0, done, k, rows, released, holders);
      RemainingStep(expired, done, k);
      rows := rows[k := AvailableRow];
      if holder.Some? && holder.value != 0 {
        holders := holders + {holder.value};
      }
      released := released + 1;
      left, done := left - {k}, done + {k};
    }
    SweepIsClearLapsed(rows0, now);
  }

  /** The second loop of the sweep, over the collected carts: each is
      EXPIRED if still OPEN and stripped of its CartSeats rows. */
  method ExpireCarts(carts0: seq<Cart>, cartSeats0: set<CartSeat>, ids: set<CartId>) returns (carts: seq<Cart>, cartSeats: set<CartSeat>)
    ensures carts == ExpireOpen(carts0, ids) && cartSeats == DropCarts(cartSeats0, ids)
  {
    var left := ids;
    ghost var done: set<CartId> := {};
    carts, cartSeats := carts0, cartSeats0;
    assert ExpireOpen(carts, {}) == carts;
    while left != {}
      invariant done <= ids && left == ids - done
      invariant carts == ExpireOpen(carts0, done) && cartSeats == DropCarts(cartSeats0, done)
      decreases |left|
    {
      var c := AnyId(left);
      RemainingStep(ids, done, c);
      if 1 <= c <= |carts| && carts[c - 1].status == Open {
        carts := SetCartStatus(carts, c, Expired);
      }
      cartSeats := set p | p in cartSeats && p.0 != c;
      left, done := left - {c}, done + {c};
      assert carts == ExpireOpen(carts0, done);
    }
  }

  /** Some id of a non-empty set, whichever the engine yields first.  The
      ids are drawn as pairs, whose set the verifier can always find a
      member of. */
  method AnyId(S: set<int>) returns (x: int)
    requires S != {}
    ensures x in S
  {
    var tagged := set y | y in S :: (y, 0);
    assert forall y :: y in S ==> (y, 0) in tagged;
    var p :| p in tagged;
    x := p.0;
  }

  /** The writes for one seat: its OrderItem at the current price, an
      ISSUED ticket for that item with the next UUID's barcode, and its
      status row (if there is one) rewritten SOLD. */
  method SellOne(cat: Catalog, rows0: map<SeatKey, SeatRow>, items0: seq<OrderItem>, tickets0: seq<Ticket>,
                 o: OrderId, e: EventId, s: SeatId, uuid: nat -> string)
    returns (rows: map<SeatKey, SeatRow>, items: seq<OrderItem>, tickets: seq<Ticket>)
    requires UuidOracle(uuid)
    ensures rows == if (e, s) in rows0 then rows0[(e, s) := SoldRow] else rows0
    ensures items == items0 + [OrderItem(o, s, PriceOf(cat, e, s), PriceOf(cat, e, s))]
    ensures tickets == tickets0 + [Ticket(|items0| + 1, BarcodeOf(uuid(|tickets0| + 1)), Issued)]
  {
    var price := PriceOf(cat, e, s);
    items := items0 + [OrderItem(o, s, price, price)];
    tickets := tickets0 + [Ticket(|items|, BarcodeOf(uuid(|tickets0| + 1)), Issued)];
    rows := rows0;
    if (e, s) in rows {
      rows := rows[(e, s) := SoldRow];
    }
  }

  /** One more row taken from those not yet returned. */
  lemma TakeStep(S: set<SeatId>, list: seq<SeatId>, s: SeatId)
    requires Distinct(list) && Elements(list) <= S && s in S - Elements(list)
    ensures Distinct(list + [s]) && Elements(list + [s]) <= S
    ensures S - Elements(list + [s]) == (S - Elements(list)) - {s}
  {
    assert Elements(list + [s]) == Elements(list) + {s};
  }

  // =====================================================================
  // The database

  class Database {
    /** Venues, Events, Seats, PriceTiers and SectionPricing: the
        handlers modelled here only read them. */
    const catalog: Catalog
    var rows: map<SeatKey, SeatRow>
    var carts: seq<Cart>
    var cartSeats: set<CartSeat>
    var orders: seq<Order>
    var items: seq<OrderItem>
    var tickets: seq<Ticket>

    function State(): Snapshot
      reads this
    {
      Snapshot(rows, carts, cartSeats, orders, items, tickets)
    }

    ghost predicate Valid()
      reads this
    {
      ValidState(State())
    }

    ghost predicate Consistent()
      reads this
    {
      ConsistentState(State())
    }

    /** A database just seeded: every status row AVAILABLE, no cart and
        no order. */
    constructor(cat: Catalog, seeded: map<SeatKey, SeatRow>)
      requires forall k :: k in seeded ==> seeded[k] == AvailableRow
      ensures catalog == cat && State() == Snapshot(seeded, [], {}, [], [], [])
      ensures Valid() && Consistent()
    {
      catalog := cat;
      rows, carts, cartSeats := seeded, [], {};
      orders, items, tickets := [], [], [];
    }

    /** The cart lookup of the checkout and payment handlers: the cart
        exists, belongs to the caller, is OPEN and its event exists. */
    predicate OwnsOpenCart(c: int, user: UserId)
      reads this
    {
      1 <= c <= |carts| && carts[c - 1].user == user && carts[c - 1].status == Open && carts[c - 1].event in catalog.events
    }

    // -------------------------------------------------------------------
    // Reservation

    /** The availability check: the requested seats whose stored row is
        not AVAILABLE, in request order. */
    method CollectUnavailable(e: EventId, ids: seq<SeatId>) returns (bad: seq<SeatId>)
      ensures bad == UnavailableSeats(rows, e, ids)
    {
      bad := [];
      var i := 0;
      while i < |ids|
        invariant 0 <= i <= |ids|
        invariant bad == UnavailableSeats(rows, e, ids[..i])
      {
        assert ids[..i + 1][..i] == ids[..i];
        if (e, ids[i]) in rows && rows[(e, ids[i])].status != Available {
          bad := bad + [ids[i]];
        }
        i := i + 1;
      }
      assert ids[..i] == ids;
    }

    /** The per-seat writes of a reservation: a CartSeats row and an
        upserted HELD status row for each seat. */
    method HoldSeats(e: EventId, ids: seq<SeatId>, c: CartId, until: Time)
      modifies this`rows, this`cartSeats
      ensures rows == HoldAll(old(rows), e, Elements(ids), c, until)
      ensures cartSeats == old(cartSeats) + CartPairs(c, Elements(ids))
    {
      assert HoldAll(rows, e, {}, c, until) == rows;
      var i := 0;
      while i < |ids|
        invariant 0 <= i <= |ids|
        invariant rows == HoldAll(old(rows), e, Elements(ids[..i]), c, until)
        invariant cartSeats == old(cartSeats) + CartPairs(c, Elements(ids[..i]))
      {
        var s := ids[i];
        assert Elements(ids[..i + 1]) == Elements(ids[..i]) + {s} by {
          assert ids[..i + 1] == ids[..i] + [s];
        }
        HoldAllStep(old(rows), e, Elements(ids[..i]), s, c, until);
        cartSeats := cartSeats + {(c, s)};
        rows := rows[(e, s) := HeldRow(c, until)];
        i := i + 1;
      }
      assert ids[..i] == ids;
    }

    /** The seat selection of a reservation: the listed seats, or seats
        picked by section when none is listed, refused with the first
        failure the handler reports. */
    method SelectSeats(e: EventId, seatIds: seq<SeatId>, sections: seq<(string, int)>) returns (failure: Option<ReserveOutcome>, ids: seq<SeatId>)
      requires e in catalog.events && SectionNamesDistinct(sections)
      ensures failure.Some? ==> failure.value.SectionShort? || failure.value.NoSeatsSpecified? || failure.value.SeatsUnavailable?
      ensures failure.Some? && failure.value.SectionShort? <==>
        seatIds == [] && exists p :: p in sections && p.1 > 0 && |AvailableInSection(catalog, rows, e, p.0)| < p.1
      ensures failure.Some? && failure.value.SectionShort? ==>
        var f := failure.value;
        (f.section, f.requested) in sections && 0 < f.requested
        && f.available < f.requested && f.available == |AvailableInSection(catalog, rows, e, f.section)|
      ensures failure.Some? && failure.value.SectionShort? ==>
        exists j :: FirstShortSection(catalog, rows, e, sections, j) && sections[j] == (failure.value.section, failure.value.requested)
      ensures failure == Some(NoSeatsSpecified) <==> seatIds == [] && forall p :: p in sections ==> p.1 <= 0
      ensures failure.Some? && failure.value.SeatsUnavailable? <==> seatIds != [] && UnavailableSeats(rows, e, seatIds) != []
      ensures failure.Some? && failure.value.SeatsUnavailable? ==> failure.value.seats == UnavailableSeats(rows, e, seatIds)
      ensures failure.None? ==> ids != [] && forall s :: s in ids ==> !StoredUnavailable(rows, e, s)
      ensures failure.None? && seatIds != [] ==> ids == seatIds
      ensures failure.None? && seatIds == [] ==>
        |ids| == RequestedCount(sections)
        && (forall s :: s in ids ==> exists p :: p in sections && p.1 > 0 && s in AvailableInSection(catalog, rows, e, p.0))
        && ServesSections(catalog, rows, e, sections, ids)
    {
      ids := seatIds;
      if sections != [] && seatIds == [] {
        var short, picked := PickSections(catalog, rows, e, sections);
        if short.Some? {
          return Some(SectionShort(short.value.0, short.value.1, short.value.2)), [];
        }
        ids := picked;
        RequestedCountZero(sections);
        RequestedCountPositive(sections);
        if ids == [] {
          forall p | p in sections
            ensures p.1 <= 0
          {
            RequestedCountCovers(sections, p);
          }
          return Some(NoSeatsSpecified), [];
        }
        forall s | s in ids
          ensures !StoredUnavailable(rows, e, s)
        {
          var p :| p in sections && p.1 > 0 && s in AvailableInSection(catalog, rows, e, p.0);
        }
        NoneUnavailable(rows, e, ids);
        return None, ids;
      }
      if seatIds == [] {
        return Some(NoSeatsSpecified), [];
      }
      var bad := CollectUnavailable(e, ids);
      if bad != [] {
        return Some(SeatsUnavailable(bad)), [];
      }
      return None, ids;
    }

    /** The writes of a successful reservation: the caller's open cart
        for the event reused (its expiry pushed to `until`) or opened,
        then each seat held for it. */
    method HoldFor(user: UserId, e: EventId, ids: seq<SeatId>, until: Time) returns (c: CartId)
      requires Valid() && forall s :: s in ids ==> !StoredUnavailable(rows, e, s)
      modifies this
      ensures Valid() && (old(Consistent()) ==> Consistent())
      ensures c == StartHold(old(carts), user, e, until).1
      ensures State() == Hold(old(State()), user, e, Elements(ids), until)
    {
      assert forall s :: s in Elements(ids) ==> s in ids;
      HoldKeepsInvariants(State(), user, e, Elements(ids), until);
      var hold := StartHold(carts, user, e, until);
      carts := hold.0;
      c := hold.1;
      HoldSeats(e, ids, c, until);
    }

    /** `reserve_seats`: hold the listed seats, or seats picked by
        section when no seat is listed, for the caller's open cart of the
        event (opened if there is none) until `now + HoldSeconds`. */
    method Reserve(user: UserId, e: EventId, seatIds: seq<SeatId>, sections: seq<(string, int)>, now: Time) returns (r: ReserveOutcome)
      requires Valid() && SectionNamesDistinct(sections)
      modifies this
      ensures Valid() && (old(Consistent()) ==> Consistent())
      ensures r.EventNotFound? <==> e !in catalog.events
      ensures r.EventNotOnSale? <==> e in catalog.events && !Sellable(catalog.events[e].status)
      ensures r.SectionShort? <==> (e in catalog.events && Sellable(catalog.events[e].status) && seatIds == []
        && exists p :: p in sections && p.1 > 0 && |AvailableInSection(catalog, old(rows), e, p.0)| < p.1)
      ensures r.SectionShort? ==> ((r.section, r.requested) in sections && 0 < r.requested
        && r.available < r.requested && r.available == |AvailableInSection(catalog, old(rows), e, r.section)|)
      ensures r.SectionShort? ==> exists j :: FirstShortSection(catalog, old(rows), e, sections, j) && sections[j] == (r.section, r.requested)
      ensures r.NoSeatsSpecified? <==> (e in catalog.events && Sellable(catalog.events[e].status) && seatIds == []
        && forall p :: p in sections ==> p.1 <= 0)
      ensures r.SeatsUnavailable? <==> (e in catalog.events && Sellable(catalog.events[e].status) && seatIds != []
        && UnavailableSeats(old(rows), e, seatIds) != [])
      ensures r.SeatsUnavailable? ==> r.seats == UnavailableSeats(old(rows), e, seatIds)
      ensures !r.Reserved? ==> State() == old(State())
      ensures r.Reserved? ==> (e in catalog.events && Sellable(catalog.events[e].status)
        && r.expiresAt == now + HoldSeconds
        && r.cart == StartHold(old(carts), user, e, r.expiresAt).1
        && r.seats != [] && (forall s :: s in r.seats ==> !StoredUnavailable(old(rows), e, s))
        && State() == Hold(old(State()), user, e, Elements(r.seats), r.expiresAt))
      ensures r.Reserved? && seatIds != [] ==> r.seats == seatIds
      ensures r.Reserved? && seatIds == [] ==> (|r.seats| == RequestedCount(sections)
        && (forall s :: s in r.seats ==> exists p :: p in sections && p.1 > 0 && s in AvailableInSection(catalog, old(rows), e, p.0))
        && ServesSections(catalog, old(rows), e, sections, r.seats))
    {
      if e !in catalog.events {
        return EventNotFound;
      }
      if !Sellable(catalog.events[e].status) {
        return EventNotOnSale;
      }
      var failure, ids := SelectSeats(e, seatIds, sections);
      if failure.Some? {
        return failure.value;
      }
      var until := now + HoldSeconds;
      var c := HoldFor(user, e, ids, until);
      r := Reserved(c, ids, until);
    }

    // -------------------------------------------------------------------
    // Release

    /** `release_seats`: free the listed seats the caller's open cart
        holds; a cart left with no seats becomes EXPIRED. */
    method Release(user: UserId, e: EventId, seatIds: seq<SeatId>) returns (r: ReleaseOutcome)
      requires Valid()
      modifies this
      ensures Valid() && (old(Consistent()) ==> Consistent())
      ensures r.SeatIdsRequired? <==> seatIds == []
      ensures r.NoActiveCart? <==> seatIds != [] && OpenCartOf(old(carts), user, e).None?
      ensures !r.Released? ==> State() == old(State())
      ensures r.Released? ==> (OpenCartOf(old(carts), user, e).Some?
        && var c := OpenCartOf(old(carts), user, e).value;
           r.seats == ReleasedList(old(rows), e, c, seatIds)
           && Distinct(r.seats) && Elements(r.seats) == (set s | s in seatIds && HolderIs(old(rows), e, s, c))
           && State() == ReleaseFrom(old(State()), c, Elements(r.seats)))
    {
      if seatIds == [] {
        return SeatIdsRequired;
      }
      var open := OpenCartOf(carts, user, e);
      if open.None? {
        return NoActiveCart;
      }
      var c := open.value;
      ghost var st0 := State();
      var released;
      rows, cartSeats, released := ReleaseHeld(rows, cartSeats, c, e, seatIds);
      if SeatsOf(cartSeats, c) == {} {
        carts := SetCartStatus(carts, c, Expired);
      }
      ReleaseKeepsInvariants(st0, c, Elements(released));
      r := Released(released);
    }

    // -------------------------------------------------------------------
    // Checkout and payment

    /** The CartSeats JOIN Seats query of a cart, in the engine's order. */
    method ListCartSeats(c: CartId) returns (list: seq<SeatId>)
      ensures Distinct(list) && Elements(list) == CartCatalogSeats(catalog, cartSeats, c)
    {
      var S := CartCatalogSeats(catalog, cartSeats, c);
      list := TakeRows(S, |S|);
      ElementsOfFullTake(list, S);
    }

    /** The hold check before a sale: the first listed seat whose row is
        not HELD by the cart, if any. */
    method FirstSeatNotHeld(e: EventId, c: CartId, list: seq<SeatId>) returns (lost: Option<SeatId>)
      ensures lost.None? <==> forall s :: s in list ==> HeldBy(rows, e, s, c)
      ensures lost.Some? ==> exists i :: 0 <= i < |list| && list[i] == lost.value && !HeldBy(rows, e, list[i], c) &&
                               forall j :: 0 <= j < i ==> HeldBy(rows, e, list[j], c)
    {
      var i := 0;
      while i < |list|
        invariant 0 <= i <= |list|
        invariant forall j :: 0 <= j < i ==> HeldBy(rows, e, list[j], c)
      {
        var s := list[i];
        if !((e, s) in rows && rows[(e, s)].status == Held && rows[(e, s)].heldBy == Some(c)) {
          assert list[i] in list;
          return Some(s);
        }
        i := i + 1;
      }
      return None;
    }

    /** The sale that ends a checkout or a completed payment: a PAID
        order for the seats, then the cart CONVERTED and emptied. */
    method FinaliseCart(c: CartId, list: seq<SeatId>, uuid: nat -> string) returns (o: OrderId, total: nat)
      requires 1 <= c <= |carts| && UuidOracle(uuid) && Distinct(list)
      modifies this
      ensures o == |old(orders)| + 1 && total == PriceSum(catalog, old(carts)[c - 1].event, list)
      ensures State() == SellCart(catalog, old(State()), c, list, uuid)
    {
      var e := carts[c - 1].event;
      total := PriceSum(catalog, e, list);
      orders := orders + [Order(carts[c - 1].user, e, Paid, total)];
      o := |orders|;
      var ok;
      ok, rows, items, tickets := SellSeats(catalog, rows, items, tickets, o, e, list, uuid);
      carts := SetCartStatus(carts, c, Converted);
      cartSeats := DropCarts(cartSeats, {c});
    }

    /** The checks the three cart handlers share after the cart lookup:
        an empty cart, then the first seat no longer held. */
    method CheckCartSeats(c: CartId) returns (r: Option<CartOutcome>, list: seq<SeatId>)
      requires 1 <= c <= |carts|
      ensures Distinct(list) && Elements(list) == CartCatalogSeats(catalog, cartSeats, c)
      ensures r == Some(CartEmpty) <==> CartCatalogSeats(catalog, cartSeats, c) == {}
      ensures r.None? <==> (CartCatalogSeats(catalog, cartSeats, c) != {}
        && forall s :: s in CartCatalogSeats(catalog, cartSeats, c) ==> HeldBy(rows, carts[c - 1].event, s, c))
      ensures r.Some? ==> (r == Some(CartEmpty) || (r.value.SeatNotHeld? && r.value.seat in CartCatalogSeats(catalog, cartSeats, c)
        && !HeldBy(rows, carts[c - 1].event, r.value.seat, c)))
    {
      list := ListCartSeats(c);
      if list == [] {
        return Some(CartEmpty), list;
      }
      assert list[0] in Elements(list);
      var lost := FirstSeatNotHeld(carts[c - 1].event, c, list);
      if lost.Some? {
        assert lost.value in Elements(list);
        return Some(SeatNotHeld(lost.value)), list;
      }
      assert forall s :: s in Elements(list) ==> s in list;
      return None, list;
    }

    /** `checkout_cart`: buy every seat of the caller's open, unexpired
        cart at the current prices. */
    method Checkout(user: UserId, c: CartId, now: Time, uuid: nat -> string) returns (r: CartOutcome)
      requires Valid() && UuidOracle(uuid)
      modifies this
      ensures Valid() && (old(Consistent()) ==> Consistent())
      ensures r.CartNotFound? || r.CartExpired? || r.CartEmpty? || r.SeatNotHeld? || r.Purchased?
      ensures r.CartNotFound? <==> !old(OwnsOpenCart(c, user))
      ensures r.CartExpired? <==> old(OwnsOpenCart(c, user)) && old(carts[c - 1].expiresAt) < now
      ensures r.CartExpired? ==> State() == ExpireCart(old(State()), c)
      ensures r.CartEmpty? <==> (old(OwnsOpenCart(c, user)) && now <= old(carts[c - 1].expiresAt)
        && CartCatalogSeats(catalog, old(cartSeats), c) == {})
      ensures r.SeatNotHeld? ==> (old(OwnsOpenCart(c, user)) && now <= old(carts[c - 1].expiresAt)
        && r.seat in CartCatalogSeats(catalog, old(cartSeats), c) && !HeldBy(old(rows), old(carts[c - 1].event), r.seat, c))
      ensures r.Purchased? <==> (old(OwnsOpenCart(c, user)) && now <= old(carts[c - 1].expiresAt)
        && CartCatalogSeats(catalog, old(cartSeats), c) != {}
        && forall s :: s in CartCatalogSeats(catalog, old(cartSeats), c) ==> HeldBy(old(rows), old(carts[c - 1].event), s, c))
      ensures r.Purchased? ==> (Distinct(r.seats) && Elements(r.seats) == CartCatalogSeats(catalog, old(cartSeats), c)
        && r.order == |old(orders)| + 1
        && r.totalCents == CartTotal(catalog, old(cartSeats), c, old(carts[c - 1].event))
        && State() == SellCart(catalog, old(State()), c, r.seats, uuid))
      ensures !r.Purchased? && !r.CartExpired? ==> State() == old(State())
    {
      if !OwnsOpenCart(c, user) {
        return CartNotFound;
      }
      if carts[c - 1].expiresAt < now {
        ExpireKeepsInvariants(State(), c);
        carts := SetCartStatus(carts, c, Expired);
        return CartExpired;
      }
      var failure, list := CheckCartSeats(c);
      if failure.Some? {
        return failure.value;
      }
      ghost var st0 := State();
      assert forall s :: s in list ==> s in Elements(list);
      SellCartKeepsInvariants(catalog, st0, c, list, uuid);
      PriceSumIsTotal(catalog, carts[c - 1].event, list);
      var o, total := FinaliseCart(c, list, uuid);
      r := Purchased(o, total, list);
    }

    /** `create_payment_intent`: the amount to charge for the caller's
        open, unexpired cart and the metadata that ties the payment to
        it.  Only the expiry branch writes. */
    method CreatePaymentIntent(user: UserId, cartId: Option<int>, now: Time) returns (r: CartOutcome)
      requires Valid()
      modifies this
      ensures Valid() && (old(Consistent()) ==> Consistent())
      ensures r.MissingInput? || r.CartNotFound? || r.CartExpired? || r.CartEmpty? || r.SeatNotHeld? || r.InvalidTotal? || r.IntentCreated?
      ensures r.MissingInput? <==> cartId.None? || cartId.value == 0
      ensures r.CartNotFound? <==> cartId.Some? && cartId.value != 0 && !old(OwnsOpenCart(cartId.value, user))
      ensures r.CartExpired? <==> cartId.Some? && old(OwnsOpenCart(cartId.value, user)) && old(carts[cartId.value - 1].expiresAt) < now
      ensures r.CartExpired? ==> State() == ExpireCart(old(State()), cartId.value)
      ensures !r.CartExpired? ==> State() == old(State())
      ensures r.CartEmpty? ==> cartId.Some? && old(OwnsOpenCart(cartId.value, user)) && CartCatalogSeats(catalog, cartSeats, cartId.value) == {}
      ensures r.SeatNotHeld? ==> (cartId.Some? && old(OwnsOpenCart(cartId.value, user))
        && r.seat in CartCatalogSeats(catalog, cartSeats, cartId.value) && !HeldBy(rows, carts[cartId.value - 1].event, r.seat, cartId.value))
      ensures r.InvalidTotal? || r.IntentCreated? ==> (cartId.Some? && OwnsOpenCart(cartId.value, user) && now <= carts[cartId.value - 1].expiresAt
        && CartCatalogSeats(catalog, cartSeats, cartId.value) != {}
        && forall s :: s in CartCatalogSeats(catalog, cartSeats, cartId.value) ==> HeldBy(rows, carts[cartId.value - 1].event, s, cartId.value))
      ensures r.InvalidTotal? ==> CartTotal(catalog, cartSeats, cartId.value, carts[cartId.value - 1].event) == 0
      ensures r.IntentCreated? ==> (var c := cartId.value; var e := carts[c - 1].event;
        r.amount == CartTotal(catalog, cartSeats, c, e) && r.amount > 0
        && r.metadata == IntentMetadata(c, user, e, |CartCatalogSeats(catalog, cartSeats, c)|))
    {
      if cartId.None? || cartId.value == 0 {
        return MissingInput;
      }
      var c := cartId.value;
      if !OwnsOpenCart(c, user) {
        return CartNotFound;
      }
      if carts[c - 1].expiresAt < now {
        ExpireKeepsInvariants(State(), c);
        carts := SetCartStatus(carts, c, Expired);
        return CartExpired;
      }
      var failure, list := CheckCartSeats(c);
      if failure.Some? {
        return failure.value;
      }
      var e := carts[c - 1].event;
      var total := PriceSum(catalog, e, list);
      PriceSumIsTotal(catalog, e, list);
      if total <= 0 {
        return InvalidTotal;
      }
      DistinctElementsCount(list);
      r := IntentCreated(total, IntentMetadata(c, user, e, |list|));
    }

    /** `complete_purchase`: after the provider reports the payment
        succeeded for this cart and caller, buy the cart's seats.  The
        cart's expiry is not checked here. */
    method CompletePurchase(user: UserId, paymentIntentId: Option<string>, cartId: Option<int>, payment: Payment,
                            uuid: nat -> string) returns (r: CartOutcome)
      requires Valid() && UuidOracle(uuid)
      modifies this
      ensures Valid() && (old(Consistent()) ==> Consistent())
      ensures r.MissingInput? || r.PaymentNotSucceeded? || r.PaymentMismatch? || r.CartNotFound? || r.CartEmpty? || r.SeatNotHeld? || r.Purchased?
      ensures r.MissingInput? <==> paymentIntentId.None? || paymentIntentId.value == "" || cartId.None? || cartId.value == 0
      ensures r.PaymentNotSucceeded? <==> !r.MissingInput? && payment.status != "succeeded"
      ensures r.PaymentNotSucceeded? ==> r.paymentStatus == payment.status
      ensures r.PaymentMismatch? <==> (!r.MissingInput? && payment.status == "succeeded"
        && !MetadataMatches(payment.metadata, cartId.value, user))
      ensures r.CartNotFound? <==> (!r.MissingInput? && payment.status == "succeeded"
        && MetadataMatches(payment.metadata, cartId.value, user) && !old(OwnsOpenCart(cartId.value, user)))
      ensures r.CartEmpty? ==> CartCatalogSeats(catalog, old(cartSeats), cartId.value) == {}
      ensures r.SeatNotHeld? ==> (r.seat in CartCatalogSeats(catalog, old(cartSeats), cartId.value)
        && !HeldBy(old(rows), old(carts[cartId.value - 1].event), r.seat, cartId.value))
      ensures r.Purchased? <==> (!r.MissingInput? && payment.status == "succeeded"
        && MetadataMatches(payment.metadata, cartId.value, user) && old(OwnsOpenCart(cartId.value, user))
        && CartCatalogSeats(catalog, old(cartSeats), cartId.value) != {}
        && forall s :: s in CartCatalogSeats(catalog, old(cartSeats), cartId.value) ==>
             HeldBy(old(rows), old(carts[cartId.value - 1].event), s, cartId.value))
      ensures r.Purchased? ==> (var c := cartId.value;
        Distinct(r.seats) && Elements(r.seats) == CartCatalogSeats(catalog, old(cartSeats), c)
        && r.order == |old(orders)| + 1
        && r.totalCents == CartTotal(catalog, old(cartSeats), c, old(carts[c - 1].event))
        && State() == SellCart(catalog, old(State()), c, r.seats, uuid))
      ensures !r.Purchased? ==> State() == old(State())
    {
      if paymentIntentId.None? || paymentIntentId.value == "" || cartId.None? || cartId.value == 0 {
        return MissingInput;
      }
      if payment.status != "succeeded" {
        return PaymentNotSucceeded(payment.status);
      }
      var c := cartId.value;
      if !("cart_id" in payment.metadata && payment.metadata["cart_id"] == IntToString(c))
         || !("user_id" in payment.metadata && payment.metadata["user_id"] == IntToString(user)) {
        return PaymentMismatch;
      }
      if !OwnsOpenCart(c, user) {
        return CartNotFound;
      }
      var failure, list := CheckCartSeats(c);
      if failure.Some? {
        return failure.value;
      }
      ghost var st0 := State();
      assert forall s :: s in list ==> s in Elements(list);
      SellCartKeepsInvariants(catalog, st0, c, list, uuid);
      PriceSumIsTotal(catalog, carts[c - 1].event, list);
      var o, total := FinaliseCart(c, list, uuid);
      r := Purchased(o, total, list);
    }

    // -------------------------------------------------------------------
    // Direct orders

    /** The pricing loop of a direct order: 404 at the first listed seat
        missing from the catalogue, otherwise the running total. */
    method PriceListedSeats(e: EventId, seatIds: seq<SeatId>) returns (missing: Option<SeatId>, total: nat)
      ensures missing.None? <==> forall s :: s in seatIds ==> s in catalog.seats
      ensures missing.Some? ==> exists i :: 0 <= i < |seatIds| && seatIds[i] == missing.value && missing.value !in catalog.seats &&
                                  forall j :: 0 <= j < i ==> seatIds[j] in catalog.seats
      ensures missing.None? ==> total == PriceSum(catalog, e, seatIds)
    {
      total := 0;
      var i := 0;
      while i < |seatIds|
        invariant 0 <= i <= |seatIds|
        invariant forall j :: 0 <= j < i ==> seatIds[j] in catalog.seats
        invariant total == PriceSum(catalog, e, seatIds[..i])
      {
        var s := seatIds[i];
        if s !in catalog.seats {
          return Some(s), 0;
        }
        assert seatIds[..i + 1][..i] == seatIds[..i];
        total := total + PriceOf(catalog, e, s);
        i := i + 1;
      }
      assert seatIds[..i] == seatIds;
      return None, total;
    }

    /** `create_order`: buy the listed seats directly, without a cart and
        without any availability check.  A repeated seat fails the
        OrderItems uniqueness constraint and the whole request is rolled
        back. */
    method CreateOrder(user: UserId, eventId: Option<int>, seatIds: seq<SeatId>, uuid: nat -> string) returns (r: OrderOutcome)
      requires Valid() && UuidOracle(uuid)
      modifies this
      ensures Valid()
      ensures r.OrderInputMissing? || r.SeatNotFound? || r.OrderFailed? || r.OrderCreated?
      ensures r.OrderInputMissing? <==> eventId.None? || eventId.value == 0 || seatIds == []
      ensures r.SeatNotFound? <==> !r.OrderInputMissing? && exists s :: s in seatIds && s !in catalog.seats
      ensures r.SeatNotFound? ==> r.seat in seatIds && r.seat !in catalog.seats
      ensures r.OrderFailed? <==> !r.OrderInputMissing? && (forall s :: s in seatIds ==> s in catalog.seats) && !Distinct(seatIds)
      ensures !r.OrderCreated? ==> State() == old(State())
      ensures r.OrderCreated? ==> (r.order == |old(orders)| + 1 && r.totalCents == PriceSum(catalog, eventId.value, seatIds)
        && State() == RecordSale(catalog, old(State()), user, eventId.value, seatIds, uuid))
    {
      if eventId.None? || eventId.value == 0 || seatIds == [] {
        return OrderInputMissing;
      }
      var e := eventId.value;
      var missing, total := PriceListedSeats(e, seatIds);
      if missing.Some? {
        return SeatNotFound(missing.value);
      }
      r := RecordOrder(user, e, seatIds, total, uuid);
    }

    /** The writes of a direct order, undone when a repeated seat aborts
        them. */
    method RecordOrder(user: UserId, e: EventId, seatIds: seq<SeatId>, total: nat, uuid: nat -> string) returns (r: OrderOutcome)
      requires Valid() && UuidOracle(uuid) && total == PriceSum(catalog, e, seatIds)
      modifies this
      ensures Valid()
      ensures r.OrderFailed? || r.OrderCreated?
      ensures r.OrderFailed? <==> !Distinct(seatIds)
      ensures r.OrderFailed? ==> State() == old(State())
      ensures r.OrderCreated? ==> (r.order == |old(orders)| + 1 && r.totalCents == total
        && State() == RecordSale(catalog, old(State()), user, e, seatIds, uuid))
    {
      ghost var st0 := State();
      RecordSaleKeepsValid(catalog, st0, user, e, seatIds, uuid);
      var rows0, orders0, items0, tickets0 := rows, orders, items, tickets;
      orders := orders + [Order(user, e, Paid, total)];
      var o := |orders|;
      var ok;
      ok, rows, items, tickets := SellSeats(catalog, rows, items, tickets, o, e, seatIds, uuid);
      if !ok {
        rows, orders, items, tickets := rows0, orders0, items0, tickets0;
        return OrderFailed;
      }
      r := OrderCreated(o, total);
    }

    /** `create_order` with the availability check it lacks: a seat whose
        stored row is missing or not AVAILABLE is refused with 409, so
        the seat invariants survive the order. */
    method CreateOrderChecked(user: UserId, eventId: Option<int>, seatIds: seq<SeatId>, uuid: nat -> string) returns (r: OrderOutcome)
      requires Valid() && UuidOracle(uuid)
      modifies this
      ensures Valid() && (old(Consistent()) ==> Consistent())
      ensures r.OrderInputMissing? <==> eventId.None? || eventId.value == 0 || seatIds == []
      ensures r.SeatNotFound? <==> !r.OrderInputMissing? && exists s :: s in seatIds && s !in catalog.seats
      ensures r.SeatTaken? <==> (!r.OrderInputMissing? && !r.SeatNotFound?
        && exists s :: s in seatIds && !((eventId.value, s) in old(rows) && old(rows)[(eventId.value, s)].status == Available))
      ensures r.SeatTaken? ==> r.seat in seatIds && !((eventId.value, r.seat) in old(rows) && old(rows)[(eventId.value, r.seat)].status == Available)
      ensures !r.OrderCreated? ==> State() == old(State())
      ensures r.OrderCreated? ==> ((forall s :: s in seatIds ==> (eventId.value, s) in old(rows) && old(rows)[(eventId.value, s)].status == Available)
        && State() == RecordSale(catalog, old(State()), user, eventId.value, seatIds, uuid))
    {
      if eventId.None? || eventId.value == 0 || seatIds == [] {
        return OrderInputMissing;
      }
      var e := eventId.value;
      var missing, total := PriceListedSeats(e, seatIds);
      if missing.Some? {
        return SeatNotFound(missing.value);
      }
      var taken := FirstNotAvailable(e, seatIds);
      if taken.Some? {
        return SeatTaken(taken.value);
      }
      ghost var st0 := State();
      r := RecordOrder(user, e, seatIds, total, uuid);
      if r.OrderCreated? {
        CheckedSaleKeepsInvariants(catalog, st0, user, e, seatIds, uuid);
      }
    }

    /** The first listed seat whose stored row is missing or not
        AVAILABLE. */
    method FirstNotAvailable(e: EventId, seatIds: seq<SeatId>) returns (taken: Option<SeatId>)
      ensures taken.None? <==> forall s :: s in seatIds ==> (e, s) in rows && rows[(e, s)].status == Available
      ensures taken.Some? ==> taken.value in seatIds && !((e, taken.value) in rows && rows[(e, taken.value)].status == Available)
    {
      var i := 0;
      while i < |seatIds|
        invariant 0 <= i <= |seatIds|
        invariant forall j :: 0 <= j < i ==> (e, seatIds[j]) in rows && rows[(e, seatIds[j])].status == Available
      {
        var s := seatIds[i];
        if !((e, s) in rows && rows[(e, s)].status == Available) {
          return Some(s);
        }
        i := i + 1;
      }
      return None;
    }

    // -------------------------------------------------------------------
    // Administration

    /** `cleanup_expired_holds` (admins only): free every hold that has
        lapsed and expire the carts that held them. */
    method CleanupExpiredHolds(role: Option<string>, now: Time) returns (r: SweepOutcome)
      requires Valid()
      modifies this
      ensures Valid() && (old(Consistent()) ==> Consistent())
      ensures r.SweepForbidden? <==> AdminRequired(role).Some?
      ensures r.SweepForbidden? ==> State() == old(State())
      ensures r.Swept? ==> (State() == SweepHolds(old(State()), now)
        && r.seatsReleased == |LapsedKeys(old(rows), now)| && r.cartsExpired == |LapsedHolders(old(rows), now)|)
    {
      if AdminRequired(role).Some? {
        return SweepForbidden;
      }
      SweepKeepsInvariants(State(), now);
      var rows', released, holders := FreeLapsedRows(rows, now);
      rows := rows';
      carts, cartSeats := ExpireCarts(carts, cartSeats, holders);
      r := Swept(released, |holders|);
    }

    /** `scan_ticket` (admins only): an ISSUED ticket becomes SCANNED. */
    method ScanTicket(role: Option<string>, t: int) returns (r: TicketOutcome)
      requires Valid()
      modifies this
      ensures Valid() && (old(Consistent()) ==> Consistent())
      ensures r.TicketForbidden? <==> AdminRequired(role).Some?
      ensures r.TicketNotFound? <==> AdminRequired(role).None? && !(1 <= t <= |old(tickets)|)
      ensures r.AlreadyScanned? <==> AdminRequired(role).None? && 1 <= t <= |old(tickets)| && old(tickets)[t - 1].status == Scanned
      ensures r.AlreadyVoided? <==> AdminRequired(role).None? && 1 <= t <= |old(tickets)| && old(tickets)[t - 1].status == Voided
      ensures r.TicketScanned? <==> AdminRequired(role).None? && 1 <= t <= |old(tickets)| && old(tickets)[t - 1].status == Issued
      ensures r.TicketScanned? ==> r.ticket == t && State() == ScanTicketState(old(State()), t)
      ensures !r.TicketScanned? ==> State() == old(State())
    {
      if AdminRequired(role).Some? {
        return TicketForbidden;
      }
      if !(1 <= t <= |tickets|) {
        return TicketNotFound;
      }
      if tickets[t - 1].status == Scanned {
        return AlreadyScanned;
      }
      if tickets[t - 1].status == Voided {
        return AlreadyVoided;
      }
      ScanKeepsInvariants(State(), t);
      tickets := tickets[t - 1 := tickets[t - 1].(status := Scanned)];
      r := TicketScanned(t);
    }

    /** `void_ticket` (admins only): a live ticket, ISSUED or SCANNED,
        becomes VOIDED and its seat's row AVAILABLE again. */
    method VoidTicket(role: Option<string>, t: int) returns (r: TicketOutcome)
      requires Valid()
      modifies this
      ensures Valid() && (old(Consistent()) ==> Consistent())
      ensures r.TicketForbidden? <==> AdminRequired(role).Some?
      ensures r.TicketNotFound? <==> AdminRequired(role).None? && !(1 <= t <= |old(tickets)|)
      ensures r.AlreadyVoided? <==> AdminRequired(role).None? && 1 <= t <= |old(tickets)| && old(tickets)[t - 1].status == Voided
      ensures r.TicketVoided? <==> AdminRequired(role).None? && 1 <= t <= |old(tickets)| && Live(old(tickets)[t - 1])
      ensures r.TicketVoided? ==> (r.ticket == t && r.seat == TicketKey(old(orders), old(items), old(tickets), t - 1).1
        && State() == VoidTicketState(old(State()), t))
      ensures !r.TicketVoided? ==> State() == old(State())
    {
      if AdminRequired(role).Some? {
        return TicketForbidden;
      }
      if !(1 <= t <= |tickets|) {
        return TicketNotFound;
      }
      if tickets[t - 1].status == Voided {
        return AlreadyVoided;
      }
      var k := TicketKey(orders, items, tickets, t - 1);
      VoidKeepsInvariants(State(), t);
      tickets := tickets[t - 1 := tickets[t - 1].(status := Voided)];
      if k in rows {
        rows := rows[k := rows[k].(status := Available)];
      }
      r := TicketVoided(t, k.1);
    }
  }

  // =====================================================================
  // Helper lemmas

  /** The sweep's rewrite applied to the keys in `done` only. */
  ghost function ClearKeys(rows: map<SeatKey, SeatRow>, done: set<SeatKey>): map<SeatKey, SeatRow> {
    map k | k in rows :: if k in done then AvailableRow else rows[k]
  }

  /** The non-null, non-zero holders named by the rows in `done`. */
  ghost function HoldersIn(rows: map<SeatKey, SeatRow>, done: set<SeatKey>): set<CartId>
    requires done <= rows.Keys
  {
    set k | k in done && rows[k].heldBy.Some? && rows[k].heldBy.value != 0 :: rows[k].heldBy.value
  }

  /** The sweep loop's state after the rows in `done` were freed. */
  ghost predicate SweptSoFar(rows0: map<SeatKey, SeatRow>, done: set<SeatKey>,
                             rows: map<SeatKey, SeatRow>, released: nat, holders: set<CartId>) {
    done <= rows0.Keys && rows == ClearKeys(rows0, done) && released == |done| && holders == HoldersIn(rows0, done)
  }

  lemma SweepStep(rows0: map<SeatKey, SeatRow>, done: set<SeatKey>, k: SeatKey,
                  rows: map<SeatKey, SeatRow>, released: nat, holders: set<CartId>)
    requires SweptSoFar(rows0, done, rows, released, holders) && k in rows0 && k !in done
    ensures var h := rows0[k].heldBy;
      SweptSoFar(rows0, done + {k}, rows[k := AvailableRow], released + 1,
                 if h.Some? && h.value != 0 then holders + {h.value} else holders)
  {
    assert ClearKeys(rows0, done)[k := AvailableRow] == ClearKeys(rows0, done + {k});
  }

  /** What a set loop has left after handling one more element. */
  lemma RemainingStep<T>(all: set<T>, done: set<T>, k: T)
    requires done <= all && k in all - done
    ensures done + {k} <= all && (all - done) - {k} == all - (done + {k})
  {
  }

  lemma SweepIsClearLapsed(rows: map<SeatKey, SeatRow>, now: Time)
    ensures ClearKeys(rows, LapsedKeys(rows, now)) == SweepRows(rows, now)
    ensures HoldersIn(rows, LapsedKeys(rows, now)) == LapsedHolders(rows, now)
  {
  }

  /** A section with a positive quantity contributes it to the count. */
  lemma {:induction false} RequestedCountCovers(sections: seq<(string, int)>, p: (string, int))
    requires p in sections
    ensures p.1 > 0 ==> p.1 <= RequestedCount(sections)
    decreases |sections|
  {
    var front := sections[..|sections| - 1];
    assert sections == front + [sections[|sections| - 1]];
    if p != sections[|sections| - 1] {
      RequestedCountCovers(front, p);
    }
  }

  /** A by-section request that is not short picks at least one seat
      when some quantity is positive. */
  lemma RequestedCountPositive(sections: seq<(string, int)>)
    ensures (exists p :: p in sections && p.1 > 0) ==> RequestedCount(sections) > 0
  {
    if p :| p in sections && p.1 > 0 {
      RequestedCountCovers(sections, p);
    }
  }

  /** A request whose quantities are all zero or less asks for nothing. */
  lemma {:induction false} RequestedCountZero(sections: seq<(string, int)>)
    ensures (forall p :: p in sections ==> p.1 <= 0) ==> RequestedCount(sections) == 0
    decreases |sections|
  {
    if sections != [] {
      var front := sections[..|sections| - 1];
      assert sections == front + [sections[|sections| - 1]];
      RequestedCountZero(front);
    }
  }

  /** Seats whose stored rows are all AVAILABLE (or missing) fail no
      availability check. */
  lemma {:induction false} NoneUnavailable(rows: map<SeatKey, SeatRow>, e: EventId, ids: seq<SeatId>)
    requires forall s :: s in ids ==> !StoredUnavailable(rows, e, s)
    ensures UnavailableSeats(rows, e, ids) == []
    decreases |ids|
  {
    if ids != [] {
      var front := ids[..|ids| - 1];
      assert ids == front + [ids[|ids| - 1]];
      NoneUnavailable(rows, e, front);
    }
  }

  /** A duplicate-free list has as many elements as its set. */
  lemma {:induction false} DistinctElementsCount(list: seq<SeatId>)
    requires Distinct(list)
    ensures |Elements(list)| == |list|
    decreases |list|
  {
    if list != [] {
      var front := list[..|list| - 1];
      assert list == front + [list[|list| - 1]];
      assert Elements(list) == Elements(front) + {list[|list| - 1]};
      DistinctElementsCount(front);
    }
  }

  /** A duplicate-free list as long as a set that contains it is all of it. */
  lemma ElementsOfFullTake(list: seq<SeatId>, S: set<SeatId>)
    requires Distinct(list) && Elements(list) <= S && |list| == |S|
    ensures Elements(list) == S
  {
    DistinctElementsCount(list);
    var missing := S - Elements(list);
    assert S == Elements(list) + missing && Elements(list) * missing == {};
    assert |S| == |Elements(list)| + |missing|;
  }
}
