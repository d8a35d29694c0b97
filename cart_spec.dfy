/** What each call of the cart service does to the store, as functions of the store's snapshot. */
module CartSpec {
  import opened Types
  import opened Seqs
  import opened Ledger
  import opened Tables
  import OrderSpec

  /** findOrCreateCart: a signed-in user gets their first non-guest cart, or a new one; a guest
      gets the guest cart with the given id, or a new guest cart. It never fails. */
  function FindOrCreateCart(db: Db, userId: Option<UserId>, cartId: Option<CartId>): (o: Outcome<Cart>)
    requires Structured(db)
    ensures o.result.Ok? && Structured(o.db)
  {
    match userId
    case Some(u) =>
      (match UserCart(db.carts, u)
       case Some(c) => Outcome(Ok(c), db)
       case None => CreateCart(db, Cart(db.nextId, Some(u), false)))
    case None =>
      match (if cartId.Some? then GuestCart(db.carts, cartId.value) else None)
      case Some(g) => Outcome(Ok(g), db)
      case None => CreateCart(db, Cart(db.nextId, None, true))
  }

  /** cart.create with the next id. */
  function CreateCart(db: Db, c: Cart): (o: Outcome<Cart>)
    requires Structured(db) && c.id == db.nextId
    ensures o.result == Ok(c) && Structured(o.db)
    ensures o.db == db.(carts := db.carts + [c], nextId := db.nextId + 1)
  {
    var carts := db.carts + [c];
    assert Pairwise(carts, DifferentCartIds) by {
      forall i, j | 0 <= i < j < |carts| ensures DifferentCartIds(carts[i], carts[j]) {
        if j < |db.carts| { assert DifferentCartIds(db.carts[i], db.carts[j]); }
      }
    }
    Outcome(Ok(c), db.(carts := carts, nextId := db.nextId + 1))
  }

  /** cartItem.create with the next id. */
  function AppendItem(db: Db, x: CartItem): (d: Db)
    requires Structured(db) && x.id == db.nextId && x.productId in db.stock
    requires FindItem(db.items, x.cartId, x.productId).None?
    ensures Structured(d)
    ensures d == db.(items := db.items + [x], nextId := db.nextId + 1)
  {
    var items := db.items + [x];
    assert Pairwise(items, DifferentItemIds) && Pairwise(items, DifferentCartProduct) by {
      forall i, j | 0 <= i < j < |items|
        ensures DifferentItemIds(items[i], items[j]) && DifferentCartProduct(items[i], items[j])
      {
        if j < |db.items| {
          assert DifferentItemIds(db.items[i], db.items[j]) && DifferentCartProduct(db.items[i], db.items[j]);
        }
      }
    }
    db.(items := items, nextId := db.nextId + 1)
  }

  /** addItemToCart: the quantity must be positive and the product must exist; an item already in
      the cart gets its quantity replaced (with no stock check), a new item needs enough stock. */
  function AddItemToCart(db: Db, cartId: CartId, productId: ProductId, quantity: int): (o: Outcome<CartItem>)
    requires Structured(db)
    ensures Structured(o.db)
  {
    if quantity <= 0 then Outcome(Err(InvalidQuantity), db)
    else if productId !in db.stock then Outcome(Err(ProductNotFound), db)
    else match FindItem(db.items, cartId, productId)
      case Some(i) =>
        var x := db.items[i];
        SetQuantityOk(db.items, x.id, quantity, db.stock.Keys, db.nextId);
        Outcome(Ok(x.(quantity := quantity)), db.(items := SetQuantity(db.items, x.id, quantity)))
      case None =>
        if db.stock[productId] < quantity then Outcome(Err(InsufficientStock(productId)), db)
        else
          var x := CartItem(db.nextId, cartId, productId, quantity);
          Outcome(Ok(x), AppendItem(db, x))
  }

  /** updateItemInCart: a quantity of zero or less deletes the item, any other sets it; the store
      refuses either for a missing item. */
  function UpdateItemInCart(db: Db, itemId: ItemId, quantity: int): (o: Outcome<CartItem>)
    requires Structured(db)
    ensures Structured(o.db)
  {
    match ItemIndex(db.items, itemId)
    case None => Outcome(Err(RecordNotFound), db)
    case Some(i) =>
      if quantity <= 0 then
        FilterItemsOk(db.items, (x: CartItem) => x.id != itemId, db.stock.Keys, db.nextId);
        Outcome(Ok(db.items[i]), db.(items := DeleteItem(db.items, itemId)))
      else
        SetQuantityOk(db.items, itemId, quantity, db.stock.Keys, db.nextId);
        Outcome(Ok(db.items[i].(quantity := quantity)), db.(items := SetQuantity(db.items, itemId, quantity)))
  }

  /** removeItemFromCart: delete the item; the store refuses a missing one. */
  function RemoveItemFromCart(db: Db, itemId: ItemId): (o: Outcome<()>)
    requires Structured(db)
    ensures Structured(o.db)
  {
    match ItemIndex(db.items, itemId)
    case None => Outcome(Err(RecordNotFound), db)
    case Some(_) =>
      FilterItemsOk(db.items, (x: CartItem) => x.id != itemId, db.stock.Keys, db.nextId);
      Outcome(Ok(()), db.(items := DeleteItem(db.items, itemId)))
  }

  // ---- syncLocalCart ----

  /** Merge one guest-cart entry into cart `cartId`: add its quantity to the cart's item for that
      product, or create such an item (the store refuses an item naming a missing product). With
      `checkQuantity`, an entry whose quantity is not positive is refused as addItemToCart would. */
  function SyncOne(d: Db, cartId: CartId, line: Line, checkQuantity: bool): (r: Result<Db>)
    requires Structured(d)
    ensures r.Ok? ==> Structured(r.value)
  {
    if checkQuantity && line.quantity <= 0 then Err(InvalidQuantity)
    else match FindItem(d.items, cartId, line.productId)
      case Some(i) =>
        var x := d.items[i];
        SetQuantityOk(d.items, x.id, x.quantity + line.quantity, d.stock.Keys, d.nextId);
        Ok(d.(items := SetQuantity(d.items, x.id, x.quantity + line.quantity)))
      case None =>
        if line.productId !in d.stock then Err(ForeignKeyViolation)
        else Ok(AppendItem(d, CartItem(d.nextId, cartId, line.productId, line.quantity)))
  }

  /** Merge the entries in order; the first refusal aborts the whole merge. */
  function SyncItems(d: Db, cartId: CartId, local: seq<Line>, checkQuantity: bool): (r: Result<Db>)
    requires Structured(d)
    ensures r.Ok? ==> Structured(r.value)
  {
    if local == [] then Ok(d)
    else match SyncItems(d, cartId, local[..|local| - 1], checkQuantity)
      case Err(e) => Err(e)
      case Ok(d') => SyncOne(d', cartId, local[|local| - 1], checkQuantity)
  }

  /** syncLocalCart: find or create the user's cart, then merge every guest-cart entry into it in
      one transaction. The cart is found or created outside that transaction, so a new cart stays
      even when the merge is rolled back. */
  function SyncLocalCartWith(db: Db, userId: UserId, local: seq<Line>, checkQuantity: bool): (o: Outcome<Cart>)
    requires Structured(db)
    ensures Structured(o.db)
  {
    var c := FindOrCreateCart(db, Some(userId), None);
    match SyncItems(c.db, c.result.value.id, local, checkQuantity)
    case Err(e) => Outcome(Err(e), c.db)
    case Ok(d) => Outcome(Ok(c.result.value), d)
  }

  /** The merge as the service performs it: no quantity check. */
  function SyncLocalCartAsWritten(db: Db, userId: UserId, local: seq<Line>): (o: Outcome<Cart>)
    requires Structured(db)
    ensures Structured(o.db)
  {
    SyncLocalCartWith(db, userId, local, false)
  }

  /** The merge with the quantity check addItemToCart makes. */
  function SyncLocalCart(db: Db, userId: UserId, local: seq<Line>): (o: Outcome<Cart>)
    requires Structured(db)
    ensures Structured(o.db)
  {
    SyncLocalCartWith(db, userId, local, true)
  }

  // ---- lemmas: findOrCreateCart ----

  /** A signed-in user always gets a non-guest cart of their own; when they have one it is their
      first, and nothing changes; otherwise exactly one cart, with the next id, is added. */
  lemma FindOrCreateUserCart(db: Db, userId: UserId)
    requires Structured(db)
    ensures var o := FindOrCreateCart(db, Some(userId), None);
            && IsUserCart(o.result.value, userId)
            && o.result.value in o.db.carts
            && (UserCart(db.carts, userId).Some? ==> o.result.value == UserCart(db.carts, userId).value && o.db == db)
            && (UserCart(db.carts, userId).None? ==>
                  o.result.value.id == db.nextId
                  && o.db == db.(carts := db.carts + [o.result.value], nextId := db.nextId + 1))
            && UserCart(o.db.carts, userId) == Some(o.result.value)
  {
    var o := FindOrCreateCart(db, Some(userId), None);
    if UserCart(db.carts, userId).None? {
      assert o.db.carts[|db.carts|] == o.result.value;
      FindFirstAppend(db.carts, o.result.value, (c: Cart) => IsUserCart(c, userId));
    }
  }

  /** Asking twice gives the same cart and changes nothing the second time. */
  lemma FindOrCreateCartIdempotent(db: Db, userId: UserId)
    requires Structured(db)
    ensures var o := FindOrCreateCart(db, Some(userId), None);
            FindOrCreateCart(o.db, Some(userId), None) == Outcome(o.result, o.db)
  {
    FindOrCreateUserCart(db, userId);
  }

  /** A guest keeps an existing guest cart and gets a fresh guest cart otherwise. */
  lemma FindOrCreateGuestCart(db: Db, cartId: Option<CartId>)
    requires Structured(db)
    ensures var o := FindOrCreateCart(db, None, cartId);
            && o.result.value.isGuest
            && o.result.value in o.db.carts
            && (cartId.Some? && GuestCart(db.carts, cartId.value).Some? ==>
                  o.result.value.id == cartId.value && o.db == db)
            && ((cartId.None? || GuestCart(db.carts, cartId.value).None?) ==>
                  o.result.value == Cart(db.nextId, None, true)
                  && o.db == db.(carts := db.carts + [o.result.value], nextId := db.nextId + 1))
  {
  }

  /** Finding or creating a cart touches no stock and no quantity, so the invariant is kept. */
  lemma FindOrCreateCartKeepsValid(db: Db, userId: Option<UserId>, cartId: Option<CartId>)
    requires Valid(db)
    ensures Valid(FindOrCreateCart(db, userId, cartId).db)
  {
    var o := FindOrCreateCart(db, userId, cartId);
    assert o.db.items == db.items && o.db.orders == db.orders && o.db.reservations == db.reservations;
  }

  // ---- lemmas: the item operations ----

  /** addItemToCart: each error exactly when the source raises it, changing nothing; otherwise the
      cart's quantity for the product becomes the given quantity and every other cart and product
      keeps its quantity. */
  lemma AddItemOutcome(db: Db, cartId: CartId, productId: ProductId, quantity: int)
    requires Structured(db)
    ensures var o := AddItemToCart(db, cartId, productId, quantity);
            && (o.result == Err(InvalidQuantity) <==> quantity <= 0)
            && (o.result == Err(ProductNotFound) <==> quantity > 0 && productId !in db.stock)
            && (o.result == Err(InsufficientStock(productId)) <==>
                  quantity > 0 && productId in db.stock && FindItem(db.items, cartId, productId).None?
                  && db.stock[productId] < quantity)
            && (o.result.Err? ==> o.db == db)
            && (o.result.Ok? ==>
                  o.result.value.cartId == cartId && o.result.value.productId == productId
                  && o.result.value.quantity == quantity
                  && o.db.stock == db.stock && o.db.orders == db.orders
                  && o.db.reservations == db.reservations && o.db.carts == db.carts
                  && forall c, p :: CartQty(o.db.items, c, p) ==
                       if c == cartId && p == productId then quantity else CartQty(db.items, c, p))
  {
    var o := AddItemToCart(db, cartId, productId, quantity);
    if o.result.Ok? {
      match FindItem(db.items, cartId, productId)
      case Some(i) =>
        forall c, p ensures CartQty(o.db.items, c, p) ==
                            if c == cartId && p == productId then quantity else CartQty(db.items, c, p)
        {
          CartQtySetQuantity(db.items, i, quantity, c, p);
        }
      case None =>
        forall c, p ensures CartQty(o.db.items, c, p) ==
                            if c == cartId && p == productId then quantity else CartQty(db.items, c, p)
        {
          CartQtyAppend(db.items, CartItem(db.nextId, cartId, productId, quantity), c, p);
        }
    }
  }

  /** updateItemInCart: a missing item is refused; a quantity of zero or less removes the item
      (its cart then has none of that product), any other quantity replaces the old one; no other
      item changes. */
  lemma UpdateItemOutcome(db: Db, itemId: ItemId, quantity: int)
    requires Structured(db)
    ensures var o := UpdateItemInCart(db, itemId, quantity);
            && (o.result == Err(RecordNotFound) <==> forall i :: 0 <= i < |db.items| ==> db.items[i].id != itemId)
            && (o.result.Err? ==> o.db == db)
            && (o.result.Ok? ==>
                  var x := o.result.value;
                  && x.id == itemId
                  && o.db == db.(items := o.db.items)
                  && (quantity <= 0 ==> x in db.items && CartQty(o.db.items, x.cartId, x.productId) == 0
                                        && forall y :: y in o.db.items <==> y in db.items && y.id != itemId)
                  && (quantity > 0 ==> x.quantity == quantity && CartQty(o.db.items, x.cartId, x.productId) == quantity
                                       && |o.db.items| == |db.items|
                                       && forall i :: 0 <= i < |db.items| && db.items[i].id != itemId ==>
                                            o.db.items[i] == db.items[i]))
  {
    var o := UpdateItemInCart(db, itemId, quantity);
    match ItemIndex(db.items, itemId)
    case None =>
    case Some(i) =>
      var x := db.items[i];
      if quantity <= 0 {
        var rest := o.db.items;
        match FindItem(rest, x.cartId, x.productId)
        case None =>
        case Some(k) =>
          assert rest[k] in db.items;
          SameCartProductSameItem(db.items, rest[k], x);
      } else {
        CartQtySetQuantity(db.items, i, quantity, x.cartId, x.productId);
        FindItemUnique(db.items, i);
      }
  }

  /** removeItemFromCart: a missing item is refused; otherwise exactly that item goes. */
  lemma RemoveItemOutcome(db: Db, itemId: ItemId)
    requires Structured(db)
    ensures var o := RemoveItemFromCart(db, itemId);
            && (o.result == Err(RecordNotFound) <==> forall i :: 0 <= i < |db.items| ==> db.items[i].id != itemId)
            && (o.result.Err? ==> o.db == db)
            && (o.result.Ok? ==> o.db == db.(items := o.db.items)
                                 && |o.db.items| == |db.items| - 1
                                 && forall y :: y in o.db.items <==> y in db.items && y.id != itemId)
  {
    var o := RemoveItemFromCart(db, itemId);
    if o.result.Ok? {
      var i := ItemIndex(db.items, itemId).value;
      DeleteUniqueLength(db.items, i);
    }
  }

  /** The item operations keep the store invariant: they touch only cart items, and every
      quantity they store is positive. */
  lemma AddItemKeepsValid(db: Db, cartId: CartId, productId: ProductId, quantity: int)
    requires Valid(db)
    ensures Valid(AddItemToCart(db, cartId, productId, quantity).db)
  {
    var a := AddItemToCart(db, cartId, productId, quantity);
    forall i | 0 <= i < |a.db.items| ensures a.db.items[i].quantity > 0 {
      if i < |db.items| {
        assert db.items[i].quantity > 0;
      }
    }
    ItemsOnlyKeepValid(db, a.db);
  }

  lemma UpdateItemKeepsValid(db: Db, itemId: ItemId, quantity: int)
    requires Valid(db)
    ensures Valid(UpdateItemInCart(db, itemId, quantity).db)
  {
    var u := UpdateItemInCart(db, itemId, quantity);
    forall i | 0 <= i < |u.db.items| ensures u.db.items[i].quantity > 0 {
      if quantity <= 0 {
        assert u.db.items[i] in db.items;
      } else if i < |db.items| {
        assert db.items[i].quantity > 0;
      }
    }
    ItemsOnlyKeepValid(db, u.db);
  }

  lemma RemoveItemKeepsValid(db: Db, itemId: ItemId)
    requires Valid(db)
    ensures Valid(RemoveItemFromCart(db, itemId).db)
  {
    var r := RemoveItemFromCart(db, itemId);
    forall i | 0 <= i < |r.db.items| ensures r.db.items[i].quantity > 0 {
      assert r.db.items[i] in db.items;
    }
    ItemsOnlyKeepValid(db, r.db);
  }

  /** A change to the cart items alone that stores only positive quantities keeps the invariant. */
  lemma ItemsOnlyKeepValid(db: Db, d: Db)
    requires Valid(db) && Structured(d)
    requires d == db.(items := d.items, nextId := d.nextId)
    requires forall i :: 0 <= i < |d.items| ==> d.items[i].quantity > 0
    ensures Valid(d)
  {
  }

  // ---- lemmas: syncLocalCart ----

  /** One merged entry adds its quantity to the cart's quantity of its product and leaves every
      other (cart, product) pair alone. */
  lemma SyncOneQty(d: Db, cartId: CartId, line: Line, check: bool, c: CartId, p: ProductId)
    requires Structured(d)
    requires SyncOne(d, cartId, line, check).Ok?
    ensures var d' := SyncOne(d, cartId, line, check).value;
            && CartQty(d'.items, c, p) ==
                 CartQty(d.items, c, p) + (if c == cartId && p == line.productId then line.quantity else 0)
            && d' == d.(items := d'.items, nextId := d'.nextId)
  {
    match FindItem(d.items, cartId, line.productId)
    case Some(i) =>
      CartQtySetQuantity(d.items, i, d.items[i].quantity + line.quantity, c, p);
    case None =>
      CartQtyAppend(d.items, CartItem(d.nextId, cartId, line.productId, line.quantity), c, p);
  }

  /** A successful merge adds, for every product, the total quantity of its entries to the cart's
      quantity of it (entries for one product accumulate), and changes no other cart, no stock,
      no order and no reservation. */
  lemma {:induction false} SyncItemsQty(d: Db, cartId: CartId, local: seq<Line>, check: bool, c: CartId, p: ProductId)
    requires Structured(d)
    requires SyncItems(d, cartId, local, check).Ok?
    ensures var d' := SyncItems(d, cartId, local, check).value;
            && CartQty(d'.items, c, p) == CartQty(d.items, c, p) + (if c == cartId then QtyOf(local, p) else 0)
            && d' == d.(items := d'.items, nextId := d'.nextId)
  {
    if local != [] {
      var init := local[..|local| - 1];
      SyncItemsQty(d, cartId, init, check, c, p);
      SyncOneQty(SyncItems(d, cartId, init, check).value, cartId, local[|local| - 1], check, c, p);
    }
  }

  /** Once an entry is refused, the entries after it are never looked at: the merge fails with
      that refusal. */
  lemma {:induction false} SyncItemsErrExtends(d: Db, cartId: CartId, s: seq<Line>, t: seq<Line>, check: bool)
    requires Structured(d)
    requires SyncItems(d, cartId, s, check).Err?
    ensures SyncItems(d, cartId, s + t, check) == SyncItems(d, cartId, s, check)
  {
    if t == [] {
      assert s + t == s;
    } else {
      var t' := t[..|t| - 1];
      assert (s + t)[..|s + t| - 1] == s + t';
      SyncItemsErrExtends(d, cartId, s, t', check);
    }
  }

  /** Merging one more entry after a successful prefix; a refusal there is the whole merge's. */
  lemma SyncItemsStep(d: Db, cartId: CartId, local: seq<Line>, i: nat, check: bool)
    requires Structured(d) && i < |local|
    requires SyncItems(d, cartId, local[..i], check).Ok?
    ensures var r := SyncOne(SyncItems(d, cartId, local[..i], check).value, cartId, local[i], check);
            && SyncItems(d, cartId, local[..i + 1], check) == r
            && (r.Err? ==> SyncItems(d, cartId, local, check) == r)
  {
    assert local[..i + 1][..i] == local[..i];
    if SyncItems(d, cartId, local[..i + 1], check).Err? {
      SyncItemsErrExtends(d, cartId, local[..i + 1], local[i + 1..], check);
      assert local[..i + 1] + local[i + 1..] == local;
    }
  }

  /** The merge refuses exactly the entries the source lets fail: with the quantity check, any
      entry whose quantity is not positive aborts it. */
  lemma {:induction false} SyncItemsRejectsNonPositive(d: Db, cartId: CartId, local: seq<Line>)
    requires Structured(d)
    requires exists i :: 0 <= i < |local| && local[i].quantity <= 0
    ensures SyncItems(d, cartId, local, true).Err?
  {
    var init := local[..|local| - 1];
    if local[|local| - 1].quantity > 0 {
      var i :| 0 <= i < |local| && local[i].quantity <= 0;
      assert init[i] == local[i];
      SyncItemsRejectsNonPositive(d, cartId, init);
    }
  }

  /** The entries a merge refuses: a quantity that is not positive, when quantities are checked, or
      a product the store does not have (the foreign key on the item it would create). */
  predicate Refused(stock: map<ProductId, int>, line: Line, checkQuantity: bool) {
    (checkQuantity && line.quantity <= 0) || line.productId !in stock
  }

  /** One entry is refused exactly when it is a refused entry: a product already in the cart is in
      the store. */
  lemma SyncOneFails(m: Db, cartId: CartId, line: Line, check: bool)
    requires Structured(m)
    ensures SyncOne(m, cartId, line, check).Err? <==> Refused(m.stock, line, check)
  {
    match FindItem(m.items, cartId, line.productId)
    case Some(i) => assert m.items[i].productId in m.stock;
    case None =>
  }

  /** A merge fails exactly when one of its entries is refused; entries never change the store's
      products, so each entry is judged against the products the merge started with. */
  lemma {:induction false} SyncItemsFails(d: Db, cartId: CartId, local: seq<Line>, check: bool)
    requires Structured(d)
    ensures SyncItems(d, cartId, local, check).Err? <==>
            exists i :: 0 <= i < |local| && Refused(d.stock, local[i], check)
  {
    if local != [] {
      var init, last := local[..|local| - 1], local[|local| - 1];
      SyncItemsFails(d, cartId, init, check);
      assert forall i :: 0 <= i < |init| ==> init[i] == local[i];
      match SyncItems(d, cartId, init, check)
      case Err(_) =>
        var i :| 0 <= i < |init| && Refused(d.stock, init[i], check);
        assert Refused(d.stock, local[i], check);
      case Ok(m) =>
        SyncItemsQty(d, cartId, init, check, cartId, last.productId);
        SyncOneFails(m, cartId, last, check);
        assert m.stock == d.stock;
    }
  }

  /** syncLocalCart fails exactly when a guest entry has a quantity that is not positive or names a
      product the store does not have; the merge as written fails only for the latter. */
  lemma SyncLocalCartFails(db: Db, userId: UserId, local: seq<Line>)
    requires Structured(db)
    ensures SyncLocalCart(db, userId, local).result.Err? <==>
            exists i :: 0 <= i < |local| && (local[i].quantity <= 0 || local[i].productId !in db.stock)
    ensures SyncLocalCartAsWritten(db, userId, local).result.Err? <==>
            exists i :: 0 <= i < |local| && local[i].productId !in db.stock
  {
    var c := FindOrCreateCart(db, Some(userId), None);
    FindOrCreateUserCart(db, userId);
    SyncItemsFails(c.db, c.result.value.id, local, true);
    SyncItemsFails(c.db, c.result.value.id, local, false);
  }

  /** With the quantity check, merging keeps every item quantity positive, so the store invariant holds. */
  lemma {:induction false} SyncItemsKeepsValid(d: Db, cartId: CartId, local: seq<Line>)
    requires Valid(d)
    requires SyncItems(d, cartId, local, true).Ok?
    ensures Valid(SyncItems(d, cartId, local, true).value)
  {
    if local != [] {
      var init := local[..|local| - 1];
      SyncItemsKeepsValid(d, cartId, init);
      SyncOneKeepsValid(SyncItems(d, cartId, init, true).value, cartId, local[|local| - 1]);
    }
  }

  /** One checked entry stores a positive quantity, so the invariant is kept. */
  lemma SyncOneKeepsValid(m: Db, cartId: CartId, line: Line)
    requires Valid(m)
    requires SyncOne(m, cartId, line, true).Ok?
    ensures Valid(SyncOne(m, cartId, line, true).value)
  {
    var d := SyncOne(m, cartId, line, true).value;
    forall i | 0 <= i < |d.items| ensures d.items[i].quantity > 0 {
      if i < |m.items| {
        assert m.items[i].quantity > 0;
      }
    }
    ItemsOnlyKeepValid(m, d);
  }

  /** syncLocalCart: the user ends with their cart; any entry whose quantity is not positive
      makes it fail; on success every product's quantity in the cart rose by that product's total
      over the entries and nothing else changed; on failure only the cart creation remains. */
  lemma SyncLocalCartOutcome(db: Db, userId: UserId, local: seq<Line>, p: ProductId)
    requires Structured(db)
    ensures var o := SyncLocalCart(db, userId, local);
            var c := FindOrCreateCart(db, Some(userId), None);
            && ((exists i :: 0 <= i < |local| && local[i].quantity <= 0) ==> o.result.Err?)
            && (o.result.Err? ==> o.db == c.db)
            && (o.result.Ok? ==>
                  o.result == c.result && IsUserCart(o.result.value, userId)
                  && CartQty(o.db.items, o.result.value.id, p) == CartQty(db.items, o.result.value.id, p) + QtyOf(local, p)
                  && o.db.stock == db.stock && o.db.orders == db.orders && o.db.reservations == db.reservations)
  {
    var c := FindOrCreateCart(db, Some(userId), None);
    FindOrCreateUserCart(db, userId);
    var cart := c.result.value;
    if exists i :: 0 <= i < |local| && local[i].quantity <= 0 {
      SyncItemsRejectsNonPositive(c.db, cart.id, local);
    }
    if SyncItems(c.db, cart.id, local, true).Ok? {
      SyncItemsQty(c.db, cart.id, local, true, cart.id, p);
    }
  }

  /** With the quantity check, syncLocalCart keeps the store invariant. */
  lemma SyncLocalCartKeepsValid(db: Db, userId: UserId, local: seq<Line>)
    requires Valid(db)
    ensures Valid(SyncLocalCart(db, userId, local).db)
  {
    var c := FindOrCreateCart(db, Some(userId), None);
    FindOrCreateCartKeepsValid(db, Some(userId), None);
    if SyncItems(c.db, c.result.value.id, local, true).Ok? {
      SyncItemsKeepsValid(c.db, c.result.value.id, local);
    }
  }

  /** The merge as written takes a guest entry of -2 units as it comes: a signed-in user with
      an empty cart and 5 units of product 1 in stock ends with a cart item of -2 units, which
      breaks the store invariant (see NegativeEntryRaisesStock for what buy-now then does). */
  lemma SyncAcceptsNegativeQuantity()
    ensures var db := Db(map[1 := 5], [Cart(0, Some(9), false)], [], [], [], 1);
            var s := SyncLocalCartAsWritten(db, 9, [Line(1, -2)]);
            && Valid(db)
            && s.result == Ok(Cart(0, Some(9), false))
            && s.db == Db(map[1 := 5], [Cart(0, Some(9), false)], [CartItem(1, 0, 1, -2)], [], [], 2)
            && !Valid(s.db)
  {
    var db := Db(map[1 := 5], [Cart(0, Some(9), false)], [], [], [], 1);
    assert UserCart(db.carts, 9) == Some(Cart(0, Some(9), false));
    var s := SyncLocalCartAsWritten(db, 9, [Line(1, -2)]);
    assert [Line(1, -2)][..0] == [];
    assert s.db.items[0].quantity == -2;
  }

  /** After that merge, buy-now passes the stock check (5 is not below -2), raises the stock
      of product 1 from 5 to 7 and records a PAID order of -2 units. */
  lemma NegativeEntryRaisesStock(now: int)
    ensures var db := Db(map[1 := 5], [Cart(0, Some(9), false)], [CartItem(1, 0, 1, -2)], [], [], 2);
            var b := OrderSpec.BuyNow(db, 9, now);
            && b.result == Ok(Order(2, 9, Paid, [Line(1, -2)], now))
            && b.db.stock == map[1 := 7]
  {
    var db := Db(map[1 := 5], [Cart(0, Some(9), false)], [CartItem(1, 0, 1, -2)], [], [], 2);
    assert UserCart(db.carts, 9) == Some(Cart(0, Some(9), false));
    assert ItemsOf(db.items, 0) == db.items;
    var lines := CartLines(db.items, 0);
    assert lines == [Line(1, -2)] by {
      assert db.items[..0] == [];
    }
    assert FirstShort(db.stock, lines) == None;
    assert lines[..0] == [];
  }

  // ---- helpers about cart quantities ----

  /** With unique (cart, product) pairs, the item found for a row's own pair is that row. */
  lemma FindItemUnique(items: seq<CartItem>, i: nat)
    requires Pairwise(items, DifferentCartProduct) && i < |items|
    ensures FindItem(items, items[i].cartId, items[i].productId) == Some(i)
  {
  }

  lemma SameCartProductSameItem(items: seq<CartItem>, a: CartItem, b: CartItem)
    requires Pairwise(items, DifferentCartProduct)
    requires a in items && b in items && a.cartId == b.cartId && a.productId == b.productId
    ensures a == b
  {
    var i :| 0 <= i < |items| && items[i] == a;
    var j :| 0 <= j < |items| && items[j] == b;
    FindItemUnique(items, i);
    FindItemUnique(items, j);
  }

  /** Setting row i's quantity changes only the quantity of row i's (cart, product) pair. */
  lemma CartQtySetQuantity(items: seq<CartItem>, i: nat, v: int, c: CartId, p: ProductId)
    requires Pairwise(items, DifferentItemIds) && Pairwise(items, DifferentCartProduct) && i < |items|
    ensures CartQty(SetQuantity(items, items[i].id, v), c, p) ==
            if items[i].cartId == c && items[i].productId == p then v else CartQty(items, c, p)
  {
    var r := SetQuantity(items, items[i].id, v);
    FindFirstSame(items, (x: CartItem) => x.cartId == c && x.productId == p,
                  r, (x: CartItem) => x.cartId == c && x.productId == p);
    FindItemUnique(items, i);
    match FindItem(items, c, p)
    case None =>
    case Some(k) =>
      if k != i {
        if k < i { assert DifferentItemIds(items[k], items[i]); }
        else { assert DifferentItemIds(items[i], items[k]); }
      }
  }

  /** Appending a row changes only the quantity of its pair, and only if the pair had no row. */
  lemma CartQtyAppend(items: seq<CartItem>, x: CartItem, c: CartId, p: ProductId)
    ensures CartQty(items + [x], c, p) ==
            if x.cartId == c && x.productId == p && FindItem(items, c, p).None? then x.quantity
            else CartQty(items, c, p)
  {
    FindFirstAppend(items, x, (y: CartItem) => y.cartId == c && y.productId == p);
  }

  /** Deleting a row by a unique id removes exactly one row. */
  lemma {:induction false} DeleteUniqueLength(items: seq<CartItem>, i: nat)
    requires Pairwise(items, DifferentItemIds) && i < |items|
    ensures |DeleteItem(items, items[i].id)| == |items| - 1
  {
    var id := items[i].id;
    if i == 0 {
      forall x | x in items[1..] ensures x.id != id {
        var k :| 0 <= k < |items[1..]| && items[1..][k] == x;
        assert DifferentItemIds(items[0], items[k + 1]);
      }
      FilterAll(items[1..], (x: CartItem) => x.id != id);
    } else {
      assert Pairwise(items[1..], DifferentItemIds) by {
        forall a, b | 0 <= a < b < |items[1..]| ensures DifferentItemIds(items[1..][a], items[1..][b]) {
          assert DifferentItemIds(items[a + 1], items[b + 1]);
        }
      }
      assert items[0].id != id by { assert DifferentItemIds(items[0], items[i]); }
      assert items[1..][i - 1] == items[i];
      DeleteUniqueLength(items[1..], i - 1);
    }
  }
}
