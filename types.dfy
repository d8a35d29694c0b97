/** Entities of the shop's relational store, as plain values.

    Identifiers are natural numbers (the database's generated string ids are only
    compared for equality). A table is a sequence of rows in table order, so that
    "find the first row such that" means the same thing as the ORM's findFirst. */
module Types {

  type ProductId = nat
  type UserId = nat
  type CartId = nat
  type ItemId = nat
  type OrderId = nat
  type ReservationId = nat

  datatype Option<T> = None | Some(value: T)

  /** The typed failures the services throw, one per error message. */
  datatype Error =
    | EmptyCart                              // "Your cart is empty."
    | InsufficientStock(productId: ProductId) // "Not enough stock available ..."
    | OrderNotFound                          // "Order not found."
    | OrderNotFoundOrDenied                  // "Order not found or access denied."
    | NotPending                             // pay / cancel of an order that is not PENDING
    | InvalidQuantity                        // "Quantity must be a positive integer."
    | ProductNotFound                        // "Product not found."
    | NegativeStock                          // "Stock cannot be a negative number."
    | RecordNotFound                         // the store refuses to update or delete a missing row
    | ForeignKeyViolation                    // the store refuses a row naming a missing product

  datatype Result<T> = Ok(value: T) | Err(error: Error)

  /** Order status, the closed enumeration of the frontend's OrderStatus type. */
  datatype Status = Pending | Paid | Shipped | Cancelled

  /** A (productId, quantity) pair: an order item, or a guest-cart entry sent for merging. */
  datatype Line = Line(productId: ProductId, quantity: int)

  datatype Product = Product(id: ProductId, stock: int)
  datatype Cart = Cart(id: CartId, userId: Option<UserId>, isGuest: bool)
  datatype CartItem = CartItem(id: ItemId, cartId: CartId, productId: ProductId, quantity: int)
  datatype Order = Order(id: OrderId, userId: UserId, status: Status, lines: seq<Line>, createdAt: int)
  datatype Reservation = Reservation(
    id: ReservationId,
    productId: ProductId,
    quantity: int,
    expiresAt: int,          // clock value, same unit as the sweeper's `now`
    orderId: Option<OrderId>,
    isExpired: bool,
    createdAt: int)

  /** A snapshot of the whole store. `stock` maps each existing product to its stock;
      `nextId` is the next identifier the store hands out for a new cart, cart item or order. */
  datatype Db = Db(
    stock: map<ProductId, int>,
    carts: seq<Cart>,
    items: seq<CartItem>,
    orders: seq<Order>,
    reservations: seq<Reservation>,
    nextId: nat)

  /** What a service call returns together with the store it leaves behind. */
  datatype Outcome<T> = Outcome(result: Result<T>, db: Db)
}
