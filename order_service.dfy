/** The order service acting on the store in place. Each call works on copies of the tables
    inside its transaction and writes them back only when it succeeds, so a failed call leaves
    the store exactly as it was. */
module OrderService {
  import opened Types
  import opened Ledger
  import opened Tables
  import opened Store
  import OrderSpec

  /** buyNow: check every cart item against the stock read with the cart, decrement each
      product, record a PAID order with the items' (productId, quantity) pairs, empty the cart. */
  method BuyNow(db: Database, userId: UserId, now: int) returns (r: Result<Order>)
    requires db.Valid()
    modifies db
    ensures db.Valid()
    ensures Outcome(r, db.Snapshot()) == OrderSpec.BuyNow(old(db.Snapshot()), userId, now)
  {
    ghost var d0 := db.Snapshot();
    OrderSpec.BuyNowFails(d0, userId, now);
    var cart := UserCart(db.carts, userId);
    if cart.None? {
      return Err(EmptyCart);
    }
    var cartItems := ItemsOf(db.items, cart.value.id);
    if |cartItems| == 0 {
      return Err(EmptyCart);
    }
    CartLinesWellFormed(db.items, cart.value.id, db.stock, db.nextId);
    var short, stock, orderItemsData := DecrementAll(db.stock, cartItems);
    if short.Some? {
      OrderSpec.BuyNowShort(d0, userId, now, cart.value, short.value);
      return Err(InsufficientStock(short.value));
    }
    var order := Order(db.nextId, userId, Paid, orderItemsData, now);
    OrderSpec.BuyNowSucceeds(d0, userId, now, cart.value, stock, orderItemsData);
    db.Commit(Db(stock, db.carts, WithoutCart(db.items, cart.value.id), db.orders + [order], db.reservations, db.nextId + 1));
    return Ok(order);
  }

  /** The loop of buyNow: each item is checked against `products`, the stock read with the cart,
      and decremented in `stock`, the transaction's copy; the first item that does not fit stops
      it, naming its product. */
  method DecrementAll(products: map<ProductId, int>, cartItems: seq<CartItem>)
    returns (short: Option<ProductId>, stock: map<ProductId, int>, orderItemsData: seq<Line>)
    requires Covers(products, LinesOf(cartItems))
    ensures short == FirstShort(products, LinesOf(cartItems))
    ensures short.None? ==> orderItemsData == LinesOf(cartItems) && stock == Debit(products, orderItemsData)
  {
    stock := products;
    orderItemsData := [];
    var i := 0;
    while i < |cartItems|
      invariant 0 <= i <= |cartItems|
      invariant orderItemsData == LinesOf(cartItems[..i])
      invariant Covers(products, orderItemsData) && Fits(products, orderItemsData)
      invariant stock == Debit(products, orderItemsData)
    {
      var item := cartItems[i];
      assert item.productId in products by {
        assert LinesOf(cartItems)[i] == Line(item.productId, item.quantity);
      }
      if products[item.productId] < item.quantity {
        DecrementShort(products, cartItems, i, orderItemsData);
        return Some(item.productId), stock, orderItemsData;
      }
      ghost var stock0, data0 := stock, orderItemsData;
      stock := stock[item.productId := stock[item.productId] - item.quantity];
      orderItemsData := orderItemsData + [Line(item.productId, item.quantity)];
      DecrementStep(products, cartItems, i, stock0, data0, stock, orderItemsData);
      i := i + 1;
    }
    DecrementDone(products, cartItems, orderItemsData);
    short := None;
  }

  /** The first item that does not fit is the first short line. */
  lemma DecrementShort(products: map<ProductId, int>, cartItems: seq<CartItem>, i: nat, data: seq<Line>)
    requires Covers(products, LinesOf(cartItems)) && i < |cartItems| && cartItems[i].productId in products
    requires data == LinesOf(cartItems[..i]) && Covers(products, data) && Fits(products, data)
    requires products[cartItems[i].productId] < cartItems[i].quantity
    ensures FirstShort(products, LinesOf(cartItems)) == Some(cartItems[i].productId)
  {
    assert LinesOf(cartItems)[i] == Line(cartItems[i].productId, cartItems[i].quantity);
    assert LinesOf(cartItems)[..i] == data;
    FirstShortAt(products, LinesOf(cartItems), i);
  }

  /** Every item fits: there is no short line. */
  lemma DecrementDone(products: map<ProductId, int>, cartItems: seq<CartItem>, data: seq<Line>)
    requires data == LinesOf(cartItems[..|cartItems|]) && Covers(products, data) && Fits(products, data)
    ensures data == LinesOf(cartItems) && Covers(products, LinesOf(cartItems))
    ensures FirstShort(products, LinesOf(cartItems)) == None
  {
    assert cartItems[..|cartItems|] == cartItems;
  }

  /** One turn of buyNow's loop past a line that fits: the tables move from the first `i` items'
      effect to the first `i + 1`'s. */
  lemma DecrementStep(products: map<ProductId, int>, cartItems: seq<CartItem>, i: nat,
                      stock: map<ProductId, int>, data: seq<Line>, stock': map<ProductId, int>, data': seq<Line>)
    requires i < |cartItems| && cartItems[i].productId in products
    requires data == LinesOf(cartItems[..i]) && Covers(products, data) && Fits(products, data)
    requires stock == Debit(products, data)
    requires cartItems[i].quantity <= products[cartItems[i].productId]
    requires data' == data + [Line(cartItems[i].productId, cartItems[i].quantity)]
    requires stock' == stock[cartItems[i].productId := stock[cartItems[i].productId] - cartItems[i].quantity]
    ensures data' == LinesOf(cartItems[..i + 1]) && Covers(products, data') && Fits(products, data')
    ensures stock' == Debit(products, data')
  {
    LinesOfPrefix(cartItems, i);
    DebitSnoc(products, data, Line(cartItems[i].productId, cartItems[i].quantity));
  }

  /** payOrder: a PENDING order becomes PAID. */
  method PayOrder(db: Database, orderId: OrderId) returns (r: Result<Order>)
    requires db.Valid()
    modifies db
    ensures db.Valid()
    ensures Outcome(r, db.Snapshot()) == OrderSpec.PayOrder(old(db.Snapshot()), orderId)
  {
    ghost var d0 := db.Snapshot();
    var k := OrderIndex(db.orders, orderId);
    if k.None? {
      return Err(OrderNotFound);
    }
    var order := db.orders[k.value];
    if order.status != Pending {
      return Err(NotPending);
    }
    OrderSpec.PayOrderSucceeds(d0, orderId, k.value);
    db.Commit(Db(db.stock, db.carts, db.items, SetStatus(db.orders, orderId, Paid), db.reservations, db.nextId));
    return Ok(order.(status := Paid));
  }

  /** cancelOrder: an owned PENDING order gives each item's quantity back to its product and
      becomes CANCELLED. */
  method CancelOrder(db: Database, orderId: OrderId, userId: UserId) returns (r: Result<Order>)
    requires db.Valid()
    modifies db
    ensures db.Valid()
    ensures Outcome(r, db.Snapshot()) == OrderSpec.CancelOrder(old(db.Snapshot()), orderId, userId)
  {
    ghost var d0 := db.Snapshot();
    var k := OrderIndex(db.orders, orderId);
    if k.None? || db.orders[k.value].userId != userId {
      return Err(OrderNotFoundOrDenied);
    }
    var order := db.orders[k.value];
    if order.status != Pending {
      return Err(NotPending);
    }
    var stock := CreditAll(db.stock, order.lines);
    OrderSpec.CancelOrderSucceeds(d0, orderId, userId, k.value, stock);
    db.Commit(Db(stock, db.carts, db.items, SetStatus(db.orders, orderId, Cancelled), db.reservations, db.nextId));
    return Ok(order.(status := Cancelled));
  }

  /** The loop of cancelOrder: each item's quantity goes back to its product. */
  method CreditAll(products: map<ProductId, int>, lines: seq<Line>) returns (stock: map<ProductId, int>)
    requires Covers(products, lines)
    ensures stock == Credit(products, lines)
  {
    stock := products;
    var i := 0;
    while i < |lines|
      invariant 0 <= i <= |lines|
      invariant stock == Credit(products, lines[..i])
    {
      var item := lines[i];
      assert lines[..i + 1] == lines[..i] + [item];
      CreditSnoc(products, lines[..i], item);
      stock := stock[item.productId := stock[item.productId] + item.quantity];
      i := i + 1;
    }
    assert lines[..i] == lines;
  }
}
