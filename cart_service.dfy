/** The cart service acting on the store in place. */
module CartService {
  import opened Types
  import opened Tables
  import opened Store
  import CartSpec

  /** findOrCreateCart: the signed-in user's first non-guest cart, else the guest cart with the
      given id, else a new cart. */
  method FindOrCreateCart(db: Database, userId: Option<UserId>, cartId: Option<CartId>) returns (cart: Cart)
    requires db.Valid()
    modifies db
    ensures db.Valid()
    ensures Outcome(Ok(cart), db.Snapshot()) == CartSpec.FindOrCreateCart(old(db.Snapshot()), userId, cartId)
  {
    ghost var d0 := db.Snapshot();
    CartSpec.FindOrCreateCartKeepsValid(d0, userId, cartId);
    if userId.Some? {
      var userCart := UserCart(db.carts, userId.value);
      if userCart.Some? {
        return userCart.value;
      }
      cart := Cart(db.nextId, userId, false);
    } else {
      if cartId.Some? {
        var guestCart := GuestCart(db.carts, cartId.value);
        if guestCart.Some? {
          return guestCart.value;
        }
      }
      cart := Cart(db.nextId, None, true);
    }
    db.Commit(Db(db.stock, db.carts + [cart], db.items, db.orders, db.reservations, db.nextId + 1));
  }

  /** addItemToCart: refuse a non-positive quantity or a missing product; replace the quantity of
      an item already in the cart; create a new item only when the stock covers it. */
  method AddItemToCart(db: Database, cartId: CartId, productId: ProductId, quantity: int) returns (r: Result<CartItem>)
    requires db.Valid()
    modifies db
    ensures db.Valid()
    ensures Outcome(r, db.Snapshot()) == CartSpec.AddItemToCart(old(db.Snapshot()), cartId, productId, quantity)
  {
    ghost var d0 := db.Snapshot();
    CartSpec.AddItemKeepsValid(d0, cartId, productId, quantity);
    if quantity <= 0 {
      return Err(InvalidQuantity);
    }
    if productId !in db.stock {
      return Err(ProductNotFound);
    }
    var existingItem := FindItem(db.items, cartId, productId);
    if existingItem.Some? {
      var x := db.items[existingItem.value];
      db.Commit(Db(db.stock, db.carts, SetQuantity(db.items, x.id, quantity), db.orders, db.reservations, db.nextId));
      return Ok(x.(quantity := quantity));
    }
    if db.stock[productId] < quantity {
      return Err(InsufficientStock(productId));
    }
    var x := CartItem(db.nextId, cartId, productId, quantity);
    db.Commit(Db(db.stock, db.carts, db.items + [x], db.orders, db.reservations, db.nextId + 1));
    return Ok(x);
  }

  /** updateItemInCart: delete the item for a quantity of zero or less, set it otherwise. */
  method UpdateItemInCart(db: Database, itemId: ItemId, quantity: int) returns (r: Result<CartItem>)
    requires db.Valid()
    modifies db
    ensures db.Valid()
    ensures Outcome(r, db.Snapshot()) == CartSpec.UpdateItemInCart(old(db.Snapshot()), itemId, quantity)
  {
    ghost var d0 := db.Snapshot();
    CartSpec.UpdateItemKeepsValid(d0, itemId, quantity);
    var k := ItemIndex(db.items, itemId);
    if k.None? {
      return Err(RecordNotFound);
    }
    var x := db.items[k.value];
    if quantity <= 0 {
      db.Commit(Db(db.stock, db.carts, DeleteItem(db.items, itemId), db.orders, db.reservations, db.nextId));
      return Ok(x);
    }
    db.Commit(Db(db.stock, db.carts, SetQuantity(db.items, itemId, quantity), db.orders, db.reservations, db.nextId));
    return Ok(x.(quantity := quantity));
  }

  /** removeItemFromCart: delete the item. */
  method RemoveItemFromCart(db: Database, itemId: ItemId) returns (r: Result<()>)
    requires db.Valid()
    modifies db
    ensures db.Valid()
    ensures Outcome(r, db.Snapshot()) == CartSpec.RemoveItemFromCart(old(db.Snapshot()), itemId)
  {
    ghost var d0 := db.Snapshot();
    CartSpec.RemoveItemKeepsValid(d0, itemId);
    if ItemIndex(db.items, itemId).None? {
      return Err(RecordNotFound);
    }
    db.Commit(Db(db.stock, db.carts, DeleteItem(db.items, itemId), db.orders, db.reservations, db.nextId));
    return Ok(());
  }

  /** syncLocalCart, with the quantity check: find or create the user's cart (kept whatever
      follows), then merge the guest entries in a transaction that a refusal rolls back. */
  method SyncLocalCart(db: Database, userId: UserId, localCartItems: seq<Line>) returns (r: Result<Cart>)
    requires db.Valid()
    modifies db
    ensures db.Valid()
    ensures Outcome(r, db.Snapshot()) == CartSpec.SyncLocalCart(old(db.Snapshot()), userId, localCartItems)
  {
    var userCart := FindOrCreateCart(db, Some(userId), None);
    var merged := MergeAll(db.Snapshot(), userCart.id, localCartItems);
    if merged.Err? {
      return Err(merged.error);
    }
    CartSpec.SyncItemsKeepsValid(db.Snapshot(), userCart.id, localCartItems);
    db.Commit(merged.value);
    return Ok(userCart);
  }

  /** The transaction of syncLocalCart, on its own view `tx` of the tables: the entries are merged
      in order and the first refusal ends it. */
  method MergeAll(d: Db, cartId: CartId, localCartItems: seq<Line>) returns (r: Result<Db>)
    requires Structured(d)
    ensures r == CartSpec.SyncItems(d, cartId, localCartItems, true)
  {
    var tx := d;
    var i := 0;
    while i < |localCartItems|
      invariant 0 <= i <= |localCartItems|
      invariant CartSpec.SyncItems(d, cartId, localCartItems[..i], true) == Ok(tx)
    {
      CartSpec.SyncItemsStep(d, cartId, localCartItems, i, true);
      var next := MergeOne(tx, cartId, localCartItems[i]);
      if next.Err? {
        return next;
      }
      tx := next.value;
      i := i + 1;
    }
    assert localCartItems[..i] == localCartItems;
    return Ok(tx);
  }

  /** One entry: add its quantity to the cart's item for its product, or create that item. */
  method MergeOne(tx: Db, cartId: CartId, localItem: Line) returns (r: Result<Db>)
    requires Structured(tx)
    ensures r == CartSpec.SyncOne(tx, cartId, localItem, true)
  {
    if localItem.quantity <= 0 {
      return Err(InvalidQuantity);
    }
    var existingItem := FindItem(tx.items, cartId, localItem.productId);
    if existingItem.Some? {
      var x := tx.items[existingItem.value];
      return Ok(tx.(items := SetQuantity(tx.items, x.id, x.quantity + localItem.quantity)));
    }
    if localItem.productId !in tx.stock {
      return Err(ForeignKeyViolation);
    }
    return Ok(tx.(items := tx.items + [CartItem(tx.nextId, cartId, localItem.productId, localItem.quantity)],
                  nextId := tx.nextId + 1));
  }
}
