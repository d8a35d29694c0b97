/** The admin service's updates acting on the store in place. */
module AdminService {
  import opened Types
  import opened Tables
  import opened Store
  import AdminSpec

  /** adjustProductStock: refuse a negative number; the store refuses a missing product. */
  method AdjustProductStock(db: Database, productId: ProductId, stock: int) returns (r: Result<Product>)
    requires db.Valid()
    modifies db
    ensures db.Valid()
    ensures Outcome(r, db.Snapshot()) == AdminSpec.AdjustProductStock(old(db.Snapshot()), productId, stock)
  {
    ghost var d0 := db.Snapshot();
    AdminSpec.AdjustStockKeepsValid(d0, productId, stock);
    if stock < 0 {
      return Err(NegativeStock);
    }
    if productId !in db.stock {
      return Err(RecordNotFound);
    }
    db.Commit(Db(db.stock[productId := stock], db.carts, db.items, db.orders, db.reservations, db.nextId));
    return Ok(Product(productId, stock));
  }

  /** updateOrderStatus: refuse a missing order, otherwise set its status to the given one. */
  method UpdateOrderStatus(db: Database, orderId: OrderId, newStatus: Status) returns (r: Result<Order>)
    requires db.Valid()
    modifies db
    ensures db.Valid()
    ensures Outcome(r, db.Snapshot()) == AdminSpec.UpdateOrderStatus(old(db.Snapshot()), orderId, newStatus)
  {
    ghost var d0 := db.Snapshot();
    AdminSpec.UpdateOrderStatusKeepsValid(d0, orderId, newStatus);
    var k := OrderIndex(db.orders, orderId);
    if k.None? {
      return Err(OrderNotFound);
    }
    var order := db.orders[k.value];
    db.Commit(Db(db.stock, db.carts, db.items, SetStatus(db.orders, orderId, newStatus), db.reservations, db.nextId));
    return Ok(order.(status := newStatus));
  }
}
