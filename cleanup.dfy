/** The reservation sweeper acting on the store in place: find the expired reservations of PENDING
    orders, then in one transaction, reservation by reservation, give the quantity back to the
    product, cancel the order and delete the reservation. */
module Cleanup {
  import opened Types
  import opened Seqs
  import opened Ledger
  import opened Tables
  import opened Store
  import opened CleanupSpec

  /** cleanupExpiredReservations at time `now`: the store ends up as one sweep says. */
  method CleanupExpiredReservations(db: Database, now: int)
    requires db.Valid()
    modifies db
    ensures db.Valid()
    ensures db.Snapshot() == Sweep(old(db.Snapshot()), now)
  {
    ghost var d0 := db.Snapshot();
    var expiredReservations := Selected(db.Snapshot(), now);
    if |expiredReservations| == 0 {
      return;
    }
    SweepFinds(d0, now);
    var stock, orders, reservations := ReleaseAll(db.stock, db.orders, db.reservations, expiredReservations);
    db.Commit(Db(stock, db.carts, db.items, orders, reservations, db.nextId));
  }

  /** The transaction of the sweeper: for each expired reservation in turn, increment its product's
      stock, cancel its order if it has one, delete it. */
  method ReleaseAll(stock0: map<ProductId, int>, orders0: seq<Order>, reservations0: seq<Reservation>,
                    expiredReservations: seq<Reservation>)
    returns (stock: map<ProductId, int>, orders: seq<Order>, reservations: seq<Reservation>)
    requires Covers(stock0, ResLines(expiredReservations))
    ensures stock == Credit(stock0, ResLines(expiredReservations))
    ensures orders == CancelOrders(orders0, OrderIdsOf(expiredReservations))
    ensures reservations == WithoutReservations(reservations0, ResIds(expiredReservations))
  {
    stock, orders, reservations := stock0, orders0, reservations0;
    ReleaseNone(stock0, orders0, reservations0, expiredReservations);
    var i := 0;
    while i < |expiredReservations|
      invariant 0 <= i <= |expiredReservations|
      invariant stock == Credit(stock0, ResLines(expiredReservations[..i]))
      invariant orders == CancelOrders(orders0, OrderIdsOf(expiredReservations[..i]))
      invariant reservations == WithoutReservations(reservations0, ResIds(expiredReservations[..i]))
    {
      var reservation := expiredReservations[i];
      ReleaseKeys(stock0, expiredReservations, i);
      ghost var stock1, orders1, reservations1 := stock, orders, reservations;
      stock := stock[reservation.productId := stock[reservation.productId] + reservation.quantity];
      StockStep(stock0, expiredReservations, i, stock1, stock);
      if reservation.orderId.Some? {
        orders := SetStatus(orders, reservation.orderId.value, Cancelled);
      }
      OrdersStep(orders0, expiredReservations, i, orders1, orders);
      reservations := DeleteReservation(reservations, reservation.id);
      ReservationsStep(reservations0, expiredReservations, i, reservations1, reservations);
      i := i + 1;
    }
    assert expiredReservations[..i] == expiredReservations;
  }

  /** Before the first reservation nothing has changed. */
  lemma ReleaseNone(stock0: map<ProductId, int>, orders0: seq<Order>, reservations0: seq<Reservation>, rs: seq<Reservation>)
    ensures Covers(stock0, ResLines(rs[..0])) && stock0 == Credit(stock0, ResLines(rs[..0]))
    ensures orders0 == CancelOrders(orders0, OrderIdsOf(rs[..0]))
    ensures reservations0 == WithoutReservations(reservations0, ResIds(rs[..0]))
  {
    assert ResIds(rs[..0]) == {};
    FilterAll(reservations0, (r: Reservation) => r.id !in ResIds(rs[..0]));
  }

  /** The product of every reservation on the list is in the stock table. */
  lemma ReleaseKeys(stock0: map<ProductId, int>, rs: seq<Reservation>, i: nat)
    requires i < |rs| && Covers(stock0, ResLines(rs))
    ensures Covers(stock0, ResLines(rs[..i]))
    ensures rs[i].productId in Credit(stock0, ResLines(rs[..i]))
  {
    ResLinesStep(stock0, rs, i);
  }

  /** One turn of the sweeper's loop, table by table: from the first `i` reservations' effect to
      the first `i + 1`'s. */
  lemma StockStep(stock0: map<ProductId, int>, rs: seq<Reservation>, i: nat, stock: map<ProductId, int>, stock': map<ProductId, int>)
    requires i < |rs| && Covers(stock0, ResLines(rs))
    requires stock == Credit(stock0, ResLines(rs[..i])) && rs[i].productId in stock
    requires stock' == stock[rs[i].productId := stock[rs[i].productId] + rs[i].quantity]
    ensures stock' == Credit(stock0, ResLines(rs[..i + 1]))
  {
    ResLinesStep(stock0, rs, i);
    CreditSnoc(stock0, ResLines(rs[..i]), Line(rs[i].productId, rs[i].quantity));
  }

  lemma OrdersStep(orders0: seq<Order>, rs: seq<Reservation>, i: nat, orders: seq<Order>, orders': seq<Order>)
    requires i < |rs|
    requires orders == CancelOrders(orders0, OrderIdsOf(rs[..i]))
    requires orders' == if rs[i].orderId.Some? then SetStatus(orders, rs[i].orderId.value, Cancelled) else orders
    ensures orders' == CancelOrders(orders0, OrderIdsOf(rs[..i + 1]))
  {
    IdsStep(rs, i);
    if rs[i].orderId.Some? {
      CancelOneMore(orders0, OrderIdsOf(rs[..i]), rs[i].orderId.value);
    }
  }

  lemma ReservationsStep(reservations0: seq<Reservation>, rs: seq<Reservation>, i: nat,
                         reservations: seq<Reservation>, reservations': seq<Reservation>)
    requires i < |rs|
    requires reservations == WithoutReservations(reservations0, ResIds(rs[..i]))
    requires reservations' == DeleteReservation(reservations, rs[i].id)
    ensures reservations' == WithoutReservations(reservations0, ResIds(rs[..i + 1]))
  {
    IdsStep(rs, i);
    DeleteOneMore(reservations0, ResIds(rs[..i]), rs[i].id);
  }

  /** Taking one more reservation of the list: one more ledger line, maybe one more order id,
      one more reservation id. */
  lemma ResLinesStep(stock: map<ProductId, int>, rs: seq<Reservation>, i: nat)
    requires i < |rs| && Covers(stock, ResLines(rs))
    ensures Covers(stock, ResLines(rs[..i])) && rs[i].productId in stock
    ensures ResLines(rs[..i + 1]) == ResLines(rs[..i]) + [Line(rs[i].productId, rs[i].quantity)]
  {
    assert ResLines(rs)[i] == Line(rs[i].productId, rs[i].quantity);
  }

  lemma IdsStep(rs: seq<Reservation>, i: nat)
    requires i < |rs|
    ensures OrderIdsOf(rs[..i + 1])
         == OrderIdsOf(rs[..i]) + (if rs[i].orderId.Some? then {rs[i].orderId.value} else {})
    ensures ResIds(rs[..i + 1]) == ResIds(rs[..i]) + {rs[i].id}
  {
    assert rs[..i + 1] == rs[..i] + [rs[i]];
  }

  /** Cancelling one more order id is setting that order's status. */
  lemma CancelOneMore(orders: seq<Order>, ids: set<OrderId>, id: OrderId)
    ensures SetStatus(CancelOrders(orders, ids), id, Cancelled) == CancelOrders(orders, ids + {id})
  {
  }

  /** Deleting one more reservation id is filtering that id out. */
  lemma DeleteOneMore(rs: seq<Reservation>, ids: set<ReservationId>, id: ReservationId)
    ensures DeleteReservation(WithoutReservations(rs, ids), id) == WithoutReservations(rs, ids + {id})
  {
    FilterFilter(rs, (r: Reservation) => r.id !in ids, (r: Reservation) => r.id != id, (r: Reservation) => r.id !in ids + {id});
  }
}
