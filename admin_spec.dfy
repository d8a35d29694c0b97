/** What each call of the admin service does to the store, and the newest-first listings. */
module AdminSpec {
  import opened Types
  import opened Seqs
  import opened Ledger
  import opened Tables
  import opened OrderSpec

  /** adjustProductStock: set a product's stock to a given non-negative number. */
  function AdjustProductStock(db: Db, productId: ProductId, stock: int): (o: Outcome<Product>)
    requires Structured(db)
    ensures Structured(o.db)
  {
    if stock < 0 then Outcome(Err(NegativeStock), db)
    else if productId !in db.stock then Outcome(Err(RecordNotFound), db)
    else
      var d := db.(stock := db.stock[productId := stock]);
      OrdersOkTransfer(db.orders, db.stock, d.stock, db.nextId, db.nextId);
      Outcome(Ok(Product(productId, stock)), d)
  }

  /** updateOrderStatus: set any existing order to any status. */
  function UpdateOrderStatus(db: Db, orderId: OrderId, status: Status): (o: Outcome<Order>)
    requires Structured(db)
    ensures Structured(o.db)
  {
    match OrderIndex(db.orders, orderId)
    case None => Outcome(Err(OrderNotFound), db)
    case Some(i) =>
      SetStatusOk(db.orders, orderId, status, db.stock, db.nextId);
      Outcome(Ok(db.orders[i].(status := status)), db.(orders := SetStatus(db.orders, orderId, status)))
  }

  // ---- newest first ----

  /** Non-increasing in `key`: the order an `orderBy: { createdAt: "desc" }` listing comes in. */
  ghost predicate SortedDesc<T>(s: seq<T>, key: T -> int) {
    forall i, j :: 0 <= i < j < |s| ==> key(s[i]) >= key(s[j])
  }

  /** Put `x` in front of the first element with a smaller key. */
  function InsertDesc<T>(x: T, s: seq<T>, key: T -> int): (r: seq<T>)
    requires SortedDesc(s, key)
    ensures SortedDesc(r, key)
    ensures multiset(r) == multiset(s) + multiset{x}
  {
    if s == [] || key(s[0]) <= key(x) then
      PrependSorted(x, s, key);
      [x] + s
    else
      var t := InsertDesc(x, s[1..], key);
      assert s == [s[0]] + s[1..];
      BoundedBy(t, s[1..], x, key, key(s[0]));
      PrependSorted(s[0], t, key);
      [s[0]] + t
  }

  /** A row in front of sorted rows with no larger key keeps them sorted. */
  lemma PrependSorted<T>(h: T, t: seq<T>, key: T -> int)
    requires SortedDesc(t, key)
    requires forall k :: 0 <= k < |t| ==> key(t[k]) <= key(h)
    ensures SortedDesc([h] + t, key)
  {
    var r := [h] + t;
    forall i, j | 0 <= i < j < |r| ensures key(r[i]) >= key(r[j]) {
      if i > 0 {
        assert r[i] == t[i - 1] && r[j] == t[j - 1];
      } else {
        assert r[j] == t[j - 1];
      }
    }
  }

  /** Rows made of bounded rows and one bounded row are bounded. */
  lemma BoundedBy<T>(t: seq<T>, s: seq<T>, x: T, key: T -> int, b: int)
    requires multiset(t) == multiset(s) + multiset{x}
    requires key(x) <= b && forall k :: 0 <= k < |s| ==> key(s[k]) <= b
    ensures forall k :: 0 <= k < |t| ==> key(t[k]) <= b
  {
    forall k | 0 <= k < |t| ensures key(t[k]) <= b {
      assert t[k] in multiset(t);
      if t[k] != x {
        assert t[k] in multiset(s);
        var m :| 0 <= m < |s| && s[m] == t[k];
      }
    }
  }

  /** The rows ordered newest first (insertion sort; rows with equal keys keep table order). */
  function SortDesc<T>(s: seq<T>, key: T -> int): (r: seq<T>)
    ensures SortedDesc(r, key)
    ensures multiset(r) == multiset(s)
  {
    if s == [] then []
    else
      assert s == [s[0]] + s[1..];
      InsertDesc(s[0], SortDesc(s[1..], key), key)
  }

  /** getActiveReservations: the reservations not flagged expired, newest first. */
  function ActiveReservations(db: Db): seq<Reservation> {
    SortDesc(Filter(db.reservations, (r: Reservation) => !r.isExpired), (r: Reservation) => r.createdAt)
  }

  /** getAllOrders: every order, newest first. */
  function AllOrders(db: Db): seq<Order> {
    SortDesc(db.orders, (o: Order) => o.createdAt)
  }

  // ---- lemmas ----

  /** adjustProductStock: a negative number is refused first, then a missing product; otherwise the
      product's stock is exactly the number and nothing else changes. */
  lemma AdjustStockOutcome(db: Db, productId: ProductId, stock: int)
    requires Structured(db)
    ensures var o := AdjustProductStock(db, productId, stock);
            && (o.result == Err(NegativeStock) <==> stock < 0)
            && (o.result == Err(RecordNotFound) <==> stock >= 0 && productId !in db.stock)
            && (o.result.Err? ==> o.db == db)
            && (o.result.Ok? ==> o.result.value == Product(productId, stock)
                                 && o.db.stock.Keys == db.stock.Keys && o.db.stock[productId] == stock
                                 && (forall p :: p in db.stock && p != productId ==> o.db.stock[p] == db.stock[p])
                                 && o.db == db.(stock := o.db.stock))
  {
  }

  /** Setting a stock never makes it negative, so the invariant is kept. */
  lemma AdjustStockKeepsValid(db: Db, productId: ProductId, stock: int)
    requires Valid(db)
    ensures Valid(AdjustProductStock(db, productId, stock).db)
  {
  }

  /** updateOrderStatus: a missing order is refused; otherwise that order takes the new status,
      whatever its old one, and no stock moves: an admin cancel returns nothing. */
  lemma UpdateOrderStatusOutcome(db: Db, orderId: OrderId, status: Status)
    requires Structured(db)
    ensures var o := UpdateOrderStatus(db, orderId, status);
            && (o.result == Err(OrderNotFound) <==> forall j :: 0 <= j < |db.orders| ==> db.orders[j].id != orderId)
            && (o.result.Err? ==> o.db == db)
            && (o.result.Ok? ==>
                 exists j :: 0 <= j < |db.orders| && db.orders[j].id == orderId
                   && o.result.value == db.orders[j].(status := status)
                   && o.db == db.(orders := db.orders[j := db.orders[j].(status := status)]))
  {
    var o := UpdateOrderStatus(db, orderId, status);
    match OrderIndex(db.orders, orderId)
    case None =>
    case Some(j) =>
      assert SetStatus(db.orders, orderId, status) == db.orders[j := db.orders[j].(status := status)];
  }

  /** The status update keeps the invariant. */
  lemma UpdateOrderStatusKeepsValid(db: Db, orderId: OrderId, status: Status)
    requires Valid(db)
    ensures Valid(UpdateOrderStatus(db, orderId, status).db)
  {
    var o := UpdateOrderStatus(db, orderId, status);
    forall i, k | 0 <= i < |o.db.orders| && 0 <= k < |o.db.orders[i].lines| ensures o.db.orders[i].lines[k].quantity > 0 {
      assert o.db.orders[i].lines == db.orders[i].lines;
    }
  }

  /** Reopening an order lets its owner cancel it a second time: an admin who sets a cancelled
      order back to PENDING makes cancelOrder credit its items to the stock again, once per reopen. */
  lemma ReopenCreditsAgain(db: Db, orderId: OrderId, userId: UserId)
    requires Structured(db)
    requires CancelOrder(db, orderId, userId).result.Ok?
    ensures var c1 := CancelOrder(db, orderId, userId);
            var reopened := UpdateOrderStatus(c1.db, orderId, Pending);
            var c2 := CancelOrder(reopened.db, orderId, userId);
            var lines := c1.result.value.lines;
            && reopened.result.Ok? && c2.result.Ok?
            && (forall p :: p in db.stock ==> c2.db.stock[p] == db.stock[p] + 2 * QtyOf(lines, p))
  {
    var j := OrderIndex(db.orders, orderId).value;
    var c1 := CancelOrder(db, orderId, userId);
    var lines := db.orders[j].lines;
    OrderIndexUnique(c1.db.orders, orderId, j);
    var reopened := UpdateOrderStatus(c1.db, orderId, Pending);
    OrderIndexUnique(reopened.db.orders, orderId, j);
    var c2 := CancelOrder(reopened.db, orderId, userId);
    CreditAt(db.stock, lines);
    CreditAt(reopened.db.stock, lines);
  }

  /** The active-reservation listing holds exactly the reservations not flagged expired, each as
      often as in the table, newest first. */
  lemma ActiveReservationsListing(db: Db)
    ensures var l := ActiveReservations(db);
            && SortedDesc(l, (r: Reservation) => r.createdAt)
            && (forall r :: r in l <==> r in db.reservations && !r.isExpired)
            && (forall r :: multiset(l)[r] == if r.isExpired then 0 else multiset(db.reservations)[r])
  {
    var f := Filter(db.reservations, (r: Reservation) => !r.isExpired);
    FilterCount(db.reservations, (r: Reservation) => !r.isExpired);
    var l := ActiveReservations(db);
    forall r ensures r in l <==> r in f {
      assert r in l <==> r in multiset(l);
      assert r in f <==> r in multiset(f);
    }
  }

  /** The order listing is a permutation of the order table, newest first. */
  lemma AllOrdersListing(db: Db)
    ensures var l := AllOrders(db);
            && SortedDesc(l, (o: Order) => o.createdAt)
            && multiset(l) == multiset(db.orders)
            && |l| == |db.orders|
  {
    var l := AllOrders(db);
    assert |l| == |multiset(l)|;
    assert |db.orders| == |multiset(db.orders)|;
  }
}
