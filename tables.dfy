/** The store's integrity constraints and the row-level queries and updates the services use. */
module Tables {
  import opened Types
  import opened Seqs
  import opened Ledger

  // Pairwise constraints between two rows of one table.
  predicate DifferentCartIds(a: Cart, b: Cart) { a.id != b.id }
  predicate DifferentItemIds(a: CartItem, b: CartItem) { a.id != b.id }
  /** At most one item per (cart, product). */
  predicate DifferentCartProduct(a: CartItem, b: CartItem) { a.cartId == b.cartId ==> a.productId != b.productId }
  predicate DifferentOrderIds(a: Order, b: Order) { a.id != b.id }
  predicate DifferentReservationIds(a: Reservation, b: Reservation) { a.id != b.id }

  ghost predicate CartsOk(carts: seq<Cart>, bound: nat) {
    && Pairwise(carts, DifferentCartIds)
    && forall i :: 0 <= i < |carts| ==> carts[i].id < bound
  }

  ghost predicate ItemsOk(items: seq<CartItem>, products: set<ProductId>, bound: nat) {
    && Pairwise(items, DifferentItemIds)
    && Pairwise(items, DifferentCartProduct)
    && forall i :: 0 <= i < |items| ==> items[i].id < bound && items[i].productId in products
  }

  ghost predicate OrdersOk(orders: seq<Order>, stock: map<ProductId, int>, bound: nat) {
    && Pairwise(orders, DifferentOrderIds)
    && forall i :: 0 <= i < |orders| ==> orders[i].id < bound && Covers(stock, orders[i].lines)
  }

  ghost predicate ReservationsOk(rs: seq<Reservation>, products: set<ProductId>) {
    && Pairwise(rs, DifferentReservationIds)
    && forall i :: 0 <= i < |rs| ==> rs[i].productId in products
  }

  /** Keys and references: unique ids, ids below the next one handed out, every row naming a known product
      (the database's primary-key, unique and foreign-key constraints). */
  ghost predicate Structured(db: Db) {
    && CartsOk(db.carts, db.nextId)
    && ItemsOk(db.items, db.stock.Keys, db.nextId)
    && OrdersOk(db.orders, db.stock, db.nextId)
    && ReservationsOk(db.reservations, db.stock.Keys)
  }

  ghost predicate StockNonNegative(stock: map<ProductId, int>) {
    forall p :: p in stock ==> stock[p] >= 0
  }

  ghost predicate QuantitiesPositive(db: Db) {
    && (forall i :: 0 <= i < |db.items| ==> db.items[i].quantity > 0)
    && (forall i, k :: 0 <= i < |db.orders| && 0 <= k < |db.orders[i].lines| ==> db.orders[i].lines[k].quantity > 0)
    && (forall i :: 0 <= i < |db.reservations| ==> db.reservations[i].quantity > 0)
  }

  /** The store invariant: structure, no negative stock, and only positive quantities anywhere. */
  ghost predicate Valid(db: Db) {
    Structured(db) && StockNonNegative(db.stock) && QuantitiesPositive(db)
  }

  // ---- carts ----

  predicate IsUserCart(c: Cart, userId: UserId) { c.userId == Some(userId) && !c.isGuest }

  /** findFirst({ userId, isGuest: false }). */
  function UserCart(carts: seq<Cart>, userId: UserId): (r: Option<Cart>)
    ensures r.Some? ==> r.value in carts && IsUserCart(r.value, userId)
    ensures r.Some? ==> exists i :: 0 <= i < |carts| && carts[i] == r.value
                                   && forall j :: 0 <= j < i ==> !IsUserCart(carts[j], userId)
    ensures r.None? <==> forall i :: 0 <= i < |carts| ==> !IsUserCart(carts[i], userId)
  {
    match FindFirst(carts, (c: Cart) => IsUserCart(c, userId))
    case Some(i) => Some(carts[i])
    case None => None
  }

  /** findUnique({ id, isGuest: true }). */
  function GuestCart(carts: seq<Cart>, cartId: CartId): (r: Option<Cart>)
    ensures r.Some? ==> r.value in carts && r.value.id == cartId && r.value.isGuest
    ensures r.None? <==> forall i :: 0 <= i < |carts| ==> !(carts[i].id == cartId && carts[i].isGuest)
  {
    match FindFirst(carts, (c: Cart) => c.id == cartId && c.isGuest)
    case Some(i) => Some(carts[i])
    case None => None
  }

  // ---- cart items ----

  /** The items of one cart, in table order. */
  function ItemsOf(items: seq<CartItem>, cartId: CartId): seq<CartItem> {
    Filter(items, (x: CartItem) => x.cartId == cartId)
  }

  /** deleteMany({ cartId }): the items of every other cart. */
  function WithoutCart(items: seq<CartItem>, cartId: CartId): seq<CartItem> {
    Filter(items, (x: CartItem) => x.cartId != cartId)
  }

  /** delete({ id }). */
  function DeleteItem(items: seq<CartItem>, id: ItemId): seq<CartItem> {
    Filter(items, (x: CartItem) => x.id != id)
  }

  /** update({ id }, { quantity }). */
  function SetQuantity(items: seq<CartItem>, id: ItemId, quantity: int): (r: seq<CartItem>)
    ensures |r| == |items|
  {
    seq(|items|, i requires 0 <= i < |items| =>
      if items[i].id == id then items[i].(quantity := quantity) else items[i])
  }

  /** The (productId, quantity) pairs of some items, in order. */
  function LinesOf(items: seq<CartItem>): (r: seq<Line>)
    ensures |r| == |items|
    ensures forall i :: 0 <= i < |items| ==> r[i] == Line(items[i].productId, items[i].quantity)
  {
    if items == [] then []
    else LinesOf(items[..|items| - 1]) + [Line(items[|items| - 1].productId, items[|items| - 1].quantity)]
  }

  /** The lines of one more item are one more line. */
  lemma LinesOfPrefix(items: seq<CartItem>, i: nat)
    requires i < |items|
    ensures LinesOf(items[..i + 1]) == LinesOf(items[..i]) + [Line(items[i].productId, items[i].quantity)]
  {
    assert items[..i + 1][..i] == items[..i];
  }

  function CartLines(items: seq<CartItem>, cartId: CartId): seq<Line> {
    LinesOf(ItemsOf(items, cartId))
  }

  /** findFirst({ cartId, productId }). */
  function FindItem(items: seq<CartItem>, cartId: CartId, productId: ProductId): Option<nat> {
    FindFirst(items, (x: CartItem) => x.cartId == cartId && x.productId == productId)
  }

  /** findUnique({ id }) on cart items. */
  function ItemIndex(items: seq<CartItem>, id: ItemId): Option<nat> {
    FindFirst(items, (x: CartItem) => x.id == id)
  }

  /** The quantity of product `p` in cart `cartId` (0 when the cart has no such item). */
  function CartQty(items: seq<CartItem>, cartId: CartId, p: ProductId): int {
    match FindItem(items, cartId, p)
    case Some(i) => items[i].quantity
    case None => 0
  }

  // ---- orders ----

  /** findUnique({ id }) on orders. */
  function OrderIndex(orders: seq<Order>, id: OrderId): Option<nat> {
    FindFirst(orders, (o: Order) => o.id == id)
  }

  /** update({ id in ids }, { status }): every order whose id is in `ids` takes the status,
      and every other order stays as it was. */
  function SetStatusAll(orders: seq<Order>, ids: set<OrderId>, status: Status): (r: seq<Order>)
    ensures |r| == |orders|
    ensures forall i :: 0 <= i < |orders| ==>
              r[i] == if orders[i].id in ids then orders[i].(status := status) else orders[i]
  {
    seq(|orders|, i requires 0 <= i < |orders| =>
      if orders[i].id in ids then orders[i].(status := status) else orders[i])
  }

  /** update({ id }, { status }). */
  function SetStatus(orders: seq<Order>, id: OrderId, status: Status): seq<Order> {
    SetStatusAll(orders, {id}, status)
  }

  /** The orders with every id in `ids` set to CANCELLED. */
  function CancelOrders(orders: seq<Order>, ids: set<OrderId>): seq<Order> {
    SetStatusAll(orders, ids, Cancelled)
  }

  // ---- lemmas ----

  /** With unique ids, the row found by id is the only row with that id. */
  lemma OrderIndexUnique(orders: seq<Order>, id: OrderId, j: nat)
    requires Pairwise(orders, DifferentOrderIds)
    requires j < |orders| && orders[j].id == id
    ensures OrderIndex(orders, id) == Some(j)
  {
  }

  lemma ItemIndexUnique(items: seq<CartItem>, id: ItemId, j: nat)
    requires Pairwise(items, DifferentItemIds)
    requires j < |items| && items[j].id == id
    ensures ItemIndex(items, id) == Some(j)
  {
  }

  /** The items of one cart have distinct products and name known products. */
  lemma CartLinesWellFormed(items: seq<CartItem>, cartId: CartId, stock: map<ProductId, int>, bound: nat)
    requires ItemsOk(items, stock.Keys, bound)
    ensures Covers(stock, CartLines(items, cartId))
    ensures DistinctProducts(CartLines(items, cartId))
  {
    var f := (x: CartItem) => x.cartId == cartId;
    var mine := Filter(items, f);
    FilterPairwise(items, f, DifferentCartProduct);
    var lines := LinesOf(mine);
    forall i | 0 <= i < |lines| ensures lines[i].productId in stock {
      assert mine[i] in items;
    }
    forall i, j | 0 <= i < j < |lines| ensures lines[i].productId != lines[j].productId {
      assert mine[i] in mine && mine[j] in mine;
      assert DifferentCartProduct(mine[i], mine[j]);
    }
  }

  /** The lines of a cart's items carry the items' (positive) quantities. */
  lemma CartLinesPositive(items: seq<CartItem>, cartId: CartId)
    requires forall i :: 0 <= i < |items| ==> items[i].quantity > 0
    ensures forall i :: 0 <= i < |CartLines(items, cartId)| ==> CartLines(items, cartId)[i].quantity > 0
  {
    var mine := ItemsOf(items, cartId);
    forall i | 0 <= i < |mine| ensures mine[i].quantity > 0 {
      assert mine[i] in items;
    }
  }

  /** Removing rows keeps the item constraints. */
  lemma FilterItemsOk(items: seq<CartItem>, f: CartItem -> bool, products: set<ProductId>, bound: nat)
    requires ItemsOk(items, products, bound)
    ensures ItemsOk(Filter(items, f), products, bound)
  {
    FilterPairwise(items, f, DifferentItemIds);
    FilterPairwise(items, f, DifferentCartProduct);
    var r := Filter(items, f);
    forall i | 0 <= i < |r| ensures r[i].id < bound && r[i].productId in products {
      assert r[i] in items;
    }
  }

  /** Changing a quantity keeps the item constraints. */
  lemma SetQuantityOk(items: seq<CartItem>, id: ItemId, q: int, products: set<ProductId>, bound: nat)
    requires ItemsOk(items, products, bound)
    ensures ItemsOk(SetQuantity(items, id, q), products, bound)
  {
    var r := SetQuantity(items, id, q);
    forall i, j | 0 <= i < j < |r| ensures DifferentItemIds(r[i], r[j]) && DifferentCartProduct(r[i], r[j]) {
      assert DifferentItemIds(items[i], items[j]) && DifferentCartProduct(items[i], items[j]);
    }
  }

  /** Changing order statuses keeps the order constraints. */
  lemma SetStatusOk(orders: seq<Order>, id: OrderId, s: Status, stock: map<ProductId, int>, bound: nat)
    requires OrdersOk(orders, stock, bound)
    ensures OrdersOk(SetStatus(orders, id, s), stock, bound)
  {
    var r := SetStatus(orders, id, s);
    forall i, j | 0 <= i < j < |r| ensures DifferentOrderIds(r[i], r[j]) {
      assert DifferentOrderIds(orders[i], orders[j]);
    }
  }

  lemma CancelOrdersOk(orders: seq<Order>, ids: set<OrderId>, stock: map<ProductId, int>, bound: nat)
    requires OrdersOk(orders, stock, bound)
    ensures OrdersOk(CancelOrders(orders, ids), stock, bound)
  {
    var r := CancelOrders(orders, ids);
    forall i, j | 0 <= i < j < |r| ensures DifferentOrderIds(r[i], r[j]) {
      assert DifferentOrderIds(orders[i], orders[j]);
    }
  }

  /** A new order with the next id keeps the order constraints. */
  lemma AppendOrderOk(orders: seq<Order>, order: Order, stock: map<ProductId, int>, stock': map<ProductId, int>, bound: nat)
    requires OrdersOk(orders, stock, bound)
    requires stock'.Keys == stock.Keys && order.id == bound && Covers(stock, order.lines)
    ensures OrdersOk(orders + [order], stock', bound + 1)
  {
    var r := orders + [order];
    forall i, j | 0 <= i < j < |r| ensures DifferentOrderIds(r[i], r[j]) {
      if j < |orders| { assert DifferentOrderIds(orders[i], orders[j]); }
    }
  }

  /** Order constraints depend only on the set of known products and the id bound. */
  lemma OrdersOkTransfer(orders: seq<Order>, stock: map<ProductId, int>, stock': map<ProductId, int>, bound: nat, bound': nat)
    requires OrdersOk(orders, stock, bound)
    requires stock'.Keys == stock.Keys && bound <= bound'
    ensures OrdersOk(orders, stock', bound')
  {
  }
}
