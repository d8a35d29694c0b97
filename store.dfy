/** The relational store the services share, held in place: one field per table. */
module Store {
  import opened Types
  import Tables

  class Database {
    var stock: map<ProductId, int>
    var carts: seq<Cart>
    var items: seq<CartItem>
    var orders: seq<Order>
    var reservations: seq<Reservation>
    var nextId: nat

    /** The current contents of every table. */
    function Snapshot(): Db
      reads this
    {
      Db(stock, carts, items, orders, reservations, nextId)
    }

    /** The store invariant holds of the current contents. */
    ghost predicate Valid()
      reads this
    {
      Tables.Valid(Snapshot())
    }

    /** A store holding the given contents (the seeded or migrated database). */
    constructor(init: Db)
      requires Tables.Valid(init)
      ensures Snapshot() == init && Valid()
    {
      stock := init.stock;
      carts := init.carts;
      items := init.items;
      orders := init.orders;
      reservations := init.reservations;
      nextId := init.nextId;
    }

    /** A transaction's commit: every table takes the contents the transaction built, which
        keep the store invariant. */
    method Commit(d: Db)
      requires Tables.Valid(d)
      modifies this
      ensures Snapshot() == d && Valid()
    {
      stock := d.stock;
      carts := d.carts;
      items := d.items;
      orders := d.orders;
      reservations := d.reservations;
      nextId := d.nextId;
    }
  }
}
