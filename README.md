# Inventory and order engine: a verified model

This project models the core of a small shop written in TypeScript. The backend keeps a
relational store of products (each with a stock count), carts, cart items, orders with their
(productId, quantity) items, and reservations. Its services work on that store:

- the order service: buy-now checkout, pay, cancel and view;
- the cart service: find or create a cart, add, update and remove items, merge a guest cart;
- the admin service: set a stock, set an order status, and the two newest-first listings;
- the sweeper: expired reservations of PENDING orders give their stock back and cancel their orders.

The frontend pieces modelled are:

- the guest cart kept in browser storage;
- the checkout page's reservation countdown and its `m:ss` text;
- the product card's stock badge.

The model has two layers.

- **Value layer.** `Types` defines the entities and a `Db` snapshot of every table. `Tables`
  states the store's integrity constraints: `Structured` covers unique ids and references, and
  `Valid` adds non-negative stock and positive quantities. `Ledger` holds the stock arithmetic.
  Each service file has a `*Spec` module (`OrderSpec`, `CartSpec`, `AdminSpec`, `CleanupSpec`).
  There, each operation is a pure function from a snapshot to an `Outcome`: the result or the
  typed error, together with the store the call leaves behind. A transaction is all-or-nothing,
  so every error path returns the store unchanged. The one exception is `syncLocalCart`: it
  finds or creates the cart before its transaction starts, and a refused merge keeps that cart.
- **Imperative layer.** `Store.Database` is a class with one field per table. The service
  methods (`OrderService`, `CartService`, `AdminService`, `Cleanup`) work on it in place, with
  the source's loops. Each method builds the transaction's tables and writes them back with
  `Database.Commit`. Each one ensures that the result and the new snapshot are exactly what the
  spec function says about the old snapshot, and that the invariant holds again.

The properties are proved as lemmas about the spec functions:

- each error happens exactly when the source raises it, stated as an if-and-only-if for every operation;
- what each success changes, and that nothing else changes;
- stock conservation: debit, then credit, restores the stock;
- the order state machine;
- the sweeper is idempotent;
- the `formatTime` text round-trips;
- every operation keeps the store invariant.

Ids are integers handed out from one counter, `nextId`, standing in for the database's generated
ids. Times are integers (milliseconds) passed in as `now`.

## Model

| member | source | states |
|---|---|---|
| Store.Database.constructor | backend/src/services/OrderService.ts:3 | A store opened on a snapshot that keeps the invariant holds exactly that snapshot. |
| Store.Database.Commit | backend/src/services/OrderService.ts:8 | Committing a transaction replaces every table with the transaction's contents; this is only allowed when those contents keep the invariant. |
| OrderService.BuyNow | backend/src/services/OrderService.ts:7-55 | Buy-now on the store in place: the result and new store are exactly `OrderSpec.BuyNow` of the old store, and the invariant is kept. |
| OrderService.DecrementAll | backend/src/services/OrderService.ts:19-37 | The checkout loop stops at the first item whose quantity exceeds the stock read with the cart, naming its product. When none does, it yields the items' (productId, quantity) pairs in order and the stock with each pair debited. |
| OrderService.PayOrder | backend/src/services/OrderService.ts:57-70 | Pay on the store in place equals `OrderSpec.PayOrder` of the old store; the invariant is kept. |
| OrderService.CancelOrder | backend/src/services/OrderService.ts:72-103 | Cancel on the store in place equals `OrderSpec.CancelOrder` of the old store; the invariant is kept. |
| OrderService.CreditAll | backend/src/services/OrderService.ts:89-94 | The cancel loop gives every item's quantity back to its product: the stock credited with the order's lines. |
| OrderSpec.ViewOrderStatus | backend/src/services/OrderService.ts:105-119 | An order is returned exactly when an order with that id belongs to the caller, and the order returned is such an order. |
| OrderSpec.BuyNowEmptyCart | backend/src/services/OrderService.ts:9-16 | Buy-now fails with the empty-cart error exactly when the user has no non-guest cart or the cart has no items; every failure leaves the store unchanged. |
| OrderSpec.BuyNowFails | backend/src/services/OrderService.ts:9-16 | With no user cart, or an empty one, buy-now's outcome is the empty-cart error on the unchanged store. |
| OrderSpec.BuyNowInsufficientStock | backend/src/services/OrderService.ts:19-26 | Buy-now fails with insufficient stock exactly when some cart item exceeds its product's stock. The product named is that of the first such item; every earlier item fits. |
| OrderSpec.BuyNowShort | backend/src/services/OrderService.ts:22-26 | When the first short line names product p, buy-now returns insufficient stock for p and leaves the store unchanged. |
| OrderSpec.BuyNowStock | backend/src/services/OrderService.ts:28-31 | A successful buy-now takes exactly each cart item's quantity off its product and nothing off any other product; no stock goes negative. |
| OrderSpec.BuyNowOrder | backend/src/services/OrderService.ts:33-51 | A successful buy-now appends one PAID order with a fresh id. Its lines are the cart's (productId, quantity) pairs in order. The user's cart is emptied, every other cart keeps its items, and carts and reservations are untouched. |
| OrderSpec.BuyNowSucceeds | backend/src/services/OrderService.ts:28-51 | The successful buy-now outcome written out: debited stock, the cart's items deleted, the order appended, the id counter advanced; the resulting store is valid. |
| OrderSpec.BuyNowKeepsValid | backend/src/services/OrderService.ts:7-55 | Buy-now keeps the store invariant: no negative stock and only positive quantities. |
| OrderSpec.BuyNowOrderIsFinal | backend/src/services/OrderService.ts:39-47 | A buy-now order is created PAID, so paying or cancelling it afterwards fails with not-pending. |
| OrderSpec.PayOrderOutcome | backend/src/services/OrderService.ts:57-70 | Pay fails with not-found exactly when no order has the id, and with not-pending exactly when that order is not PENDING; a failure changes nothing. Otherwise only that order's status becomes PAID. |
| OrderSpec.PayOrderSucceeds | backend/src/services/OrderService.ts:66-69 | The successful pay outcome written out, with the invariant kept. |
| OrderSpec.PayOrderKeepsValid | backend/src/services/OrderService.ts:57-70 | Pay keeps the store invariant. |
| OrderSpec.CancelOrderOutcome | backend/src/services/OrderService.ts:72-103 | Cancel fails with not-found-or-denied exactly when the order is missing or not the caller's, and with not-pending exactly when it is the caller's but not PENDING; a failure changes nothing. Otherwise that order becomes CANCELLED and each product's stock rises by exactly its quantity in the order. |
| OrderSpec.CancelOrderSucceeds | backend/src/services/OrderService.ts:89-99 | The successful cancel outcome written out, with the invariant kept. |
| OrderSpec.CancelOrderKeepsValid | backend/src/services/OrderService.ts:72-103 | Cancel keeps the store invariant: the stock it returns only adds. |
| OrderSpec.ResolvedOrderStaysResolved | backend/src/services/OrderService.ts:62-64 | After a successful pay or cancel, a second pay fails with not-pending and a second cancel fails, whoever asks. |
| Ledger.DebitSnoc | backend/src/services/OrderService.ts:28-31 | Debiting one more line is one more decrement of that line's product. |
| Ledger.CreditSnoc | backend/src/services/OrderService.ts:89-94 | Crediting one more line is one more increment of that line's product. |
| Ledger.DebitAt | backend/src/services/OrderService.ts:28-31 | Debiting lines lowers each product by exactly the total quantity of its lines. |
| Ledger.CreditAt | backend/src/services/OrderService.ts:89-94 | Crediting lines raises each product by exactly the total quantity of its lines. |
| Ledger.DebitThenCredit | backend/src/services/OrderService.ts:28-31 | Giving back what a checkout took restores the stock exactly: credit after debit is the identity. |
| Ledger.QtyOfDistinct | backend/src/services/OrderService.ts:19-37 | With one line per product, a product's total is the quantity on its line, or 0. |
| Ledger.QtyOfNonNegative | backend/src/cleanup.ts:31-34 | Lines with non-negative quantities total to a non-negative amount per product. |
| Ledger.FirstShort | backend/src/services/OrderService.ts:22-26 | There is no short line exactly when every line fits its stock; a product it names has a line exceeding its stock. |
| Ledger.FirstShortAt | backend/src/services/OrderService.ts:22-26 | When every line before k fits and line k does not, the check stops at line k's product. |
| Ledger.DebitStaysNonNegative | backend/src/services/OrderService.ts:22-31 | If every line fits a non-negative stock and no product has two lines, debiting leaves no product negative. |
| Ledger.SnapshotCheckNeedsDistinctProducts | backend/src/services/OrderService.ts:22-31 | Without distinct products the same check fails to protect the stock: two one-unit lines pass against one unit and drive it to -1. |
| Ledger.CreditNeverLowers | backend/src/cleanup.ts:31-34 | Giving back lines with non-negative quantities never lowers any product's stock. |
| Tables.LinesOfPrefix | backend/src/services/OrderService.ts:33-36 | The pairs of one more item are the earlier pairs plus that item's pair. |
| Tables.CartLinesWellFormed | backend/src/services/OrderService.ts:19-37 | In a structured store a cart's items name known products, one item per product. |
| Tables.CartLinesPositive | backend/src/services/OrderService.ts:33-36 | The pairs of a cart's items carry the items' positive quantities. |
| Tables.OrderIndexUnique | backend/src/services/OrderService.ts:58-60 | With unique ids, the order found by id is the only order with that id. |
| Tables.ItemIndexUnique | backend/src/services/CartService.ts:64-72 | With unique ids, the item found by id is the only item with that id. |
| Tables.UserCart | backend/src/services/CartService.ts:10-16 | The cart found for a user is their first non-guest cart; None when they have none. |
| Tables.GuestCart | backend/src/services/CartService.ts:19-24 | The cart found for a guest id is the guest cart with that id; None when there is none. |
| Tables.LinesOf | backend/src/services/OrderService.ts:33-36 | One (productId, quantity) pair per item, in order. |
| Seqs.Filter | backend/src/cleanup.ts:10-18 | A findMany keeps exactly the rows satisfying its where clause, and no more rows than the table. |
| Seqs.FindFirst | backend/src/services/CartService.ts:10-16 | A findFirst gives the first matching row, or None when no row matches. |
| CleanupSpec.SelectedCovers | backend/src/cleanup.ts:10-18 | Every reservation the sweeper selects names a product in the stock table. |
| CleanupSpec.SweepStock | backend/src/cleanup.ts:31-34 | The sweep raises each product's stock by exactly the quantities of its selected reservations and lowers none. |
| CleanupSpec.SweepOrders | backend/src/cleanup.ts:36-41 | An order becomes CANCELLED exactly when one of its reservations was selected, and it was then PENDING; every other order is unchanged. |
| CleanupSpec.SweepOrderAt | backend/src/cleanup.ts:36-41 | The same for a single order position. |
| CleanupSpec.SweepReservations | backend/src/cleanup.ts:43 | A reservation survives the sweep exactly when it was not selected. |
| CleanupSpec.SweepCancels | backend/src/cleanup.ts:36-41 | Every order of a selected reservation is CANCELLED after the sweep. |
| CleanupSpec.SurvivesSweep | backend/src/cleanup.ts:10-18 | A reservation that is not selected survives the sweep. |
| CleanupSpec.SweepOnlyNarrows | backend/src/cleanup.ts:10-18 | A sweep never makes a reservation selectable at any time, because it only cancels orders. |
| CleanupSpec.SweepLeavesNothingSelected | backend/src/cleanup.ts:6-48 | After a sweep at time t, there is nothing left to select at t. |
| CleanupSpec.SweepIdempotent | backend/src/cleanup.ts:6-48 | Sweeping twice at the same time is sweeping once, so the sweeper cannot return stock twice. |
| CleanupSpec.SweepStrandsSiblings | backend/src/cleanup.ts:10-18 | A reservation that had not expired, of an order a sibling's sweep cancelled, is never selected again at any later time; its quantity never returns to the stock. |
| CleanupSpec.SweepFinds | backend/src/cleanup.ts:29-45 | A sweep that finds something, written out table by table, with the invariant kept. |
| CleanupSpec.SweepKeepsValid | backend/src/cleanup.ts:6-48 | The sweep keeps the store invariant. |
| Cleanup.CleanupExpiredReservations | backend/src/cleanup.ts:6-48 | The sweeper on the store in place leaves exactly `Sweep` of the old store, and the invariant holds. |
| Cleanup.ReleaseAll | backend/src/cleanup.ts:29-45 | The sweeper's transaction loop: the stock credited with every selected reservation, their orders CANCELLED, and those reservations deleted. |
| CartSpec.FindOrCreateUserCart | backend/src/services/CartService.ts:6-27 | A signed-in user always gets a non-guest cart of their own. If they have one, it is their first and nothing changes; otherwise exactly one cart with the next id is added, and it is found from then on. |
| CartSpec.FindOrCreateCartIdempotent | backend/src/services/CartService.ts:6-27 | Asking twice gives the same cart, and the second call changes nothing. |
| CartSpec.FindOrCreateGuestCart | backend/src/services/CartService.ts:19-26 | A guest keeps an existing guest cart, and otherwise gets a fresh guest cart with the next id. |
| CartSpec.FindOrCreateCartKeepsValid | backend/src/services/CartService.ts:6-27 | Finding or creating a cart keeps the store invariant. |
| CartSpec.AddItemOutcome | backend/src/services/CartService.ts:29-62 | Each error happens exactly when the source raises it and changes nothing: a quantity not above zero, a missing product, or a new item beyond the stock. On success the cart's quantity of the product becomes the given quantity, and every other (cart, product) pair and every other table is unchanged. |
| CartSpec.AddItemKeepsValid | backend/src/services/CartService.ts:29-62 | Adding an item keeps the store invariant. |
| CartSpec.UpdateItemOutcome | backend/src/services/CartService.ts:64-72 | A missing item is refused and nothing changes. A quantity of zero or less removes the item, leaving none of that product in its cart. Any other quantity replaces the old one. No other item or table changes. |
| CartSpec.UpdateItemKeepsValid | backend/src/services/CartService.ts:64-72 | Updating an item keeps the store invariant. |
| CartSpec.RemoveItemOutcome | backend/src/services/CartService.ts:73-75 | A missing item is refused; otherwise exactly that item disappears and nothing else changes. |
| CartSpec.RemoveItemKeepsValid | backend/src/services/CartService.ts:73-75 | Removing an item keeps the store invariant. |
| CartSpec.ItemsOnlyKeepValid | backend/src/services/CartService.ts:29-75 | A change to the cart items alone, storing only positive quantities and keeping the item constraints, keeps the invariant. |
| CartSpec.SyncOneQty | backend/src/services/CartService.ts:82-99 | Merging one entry adds its quantity to the cart's quantity of its product and leaves every other pair and table alone. |
| CartSpec.SyncItemsQty | backend/src/services/CartService.ts:81-100 | A successful merge adds each product's total over the entries to the cart's quantity, so entries for one product accumulate; nothing else changes. |
| CartSpec.SyncItemsErrExtends | backend/src/services/CartService.ts:81-100 | Once an entry is refused, the later entries are never looked at and the merge fails with that refusal. |
| CartSpec.SyncItemsStep | backend/src/services/CartService.ts:81-100 | Merging one more entry after a successful prefix; a refusal there is the whole merge's result. |
| CartSpec.SyncItemsRejectsNonPositive | backend/src/services/CartService.ts:81-100 | With the quantity check, any entry whose quantity is not positive makes the merge fail. |
| CartSpec.SyncOneKeepsValid | backend/src/services/CartService.ts:82-99 | One checked entry keeps the invariant. |
| CartSpec.SyncItemsKeepsValid | backend/src/services/CartService.ts:81-100 | A checked merge keeps the invariant. |
| CartSpec.SyncLocalCartOutcome | backend/src/services/CartService.ts:77-104 | The user ends with their own cart; a non-positive entry makes the merge fail, leaving only the cart creation. On success each product's quantity in the cart rose by its total over the entries, and stock, orders and reservations are unchanged. |
| CartSpec.SyncOneFails | backend/src/services/CartService.ts:82-99 | One entry is refused exactly when its quantity is not positive (when checked) or its product is unknown to the store. |
| CartSpec.SyncItemsFails | backend/src/services/CartService.ts:81-100 | A merge fails exactly when one of its entries is refused, judged against the products the merge started with. |
| CartSpec.SyncLocalCartFails | backend/src/services/CartService.ts:77-104 | The checked merge fails exactly when some entry has a non-positive quantity or an unknown product. The merge as written fails exactly when some entry has an unknown product. |
| CartSpec.SyncLocalCartKeepsValid | backend/src/services/CartService.ts:77-104 | The checked merge keeps the store invariant. |
| CartSpec.SyncAcceptsNegativeQuantity | backend/src/services/CartService.ts:81-100 | The merge as written stores a guest entry of -2 units as a cart item of -2, breaking the invariant. |
| CartSpec.NegativeEntryRaisesStock | backend/src/services/OrderService.ts:19-47 | After that merge, buy-now passes the stock check, raises the stock from 5 to 7 and records a PAID order of -2 units. |
| CartService.FindOrCreateCart | backend/src/services/CartService.ts:6-27 | Find-or-create on the store in place equals `CartSpec.FindOrCreateCart` of the old store; the invariant is kept. |
| CartService.AddItemToCart | backend/src/services/CartService.ts:29-62 | Add on the store in place equals `CartSpec.AddItemToCart` of the old store; the invariant is kept. |
| CartService.UpdateItemInCart | backend/src/services/CartService.ts:64-72 | Update on the store in place equals `CartSpec.UpdateItemInCart` of the old store; the invariant is kept. |
| CartService.RemoveItemFromCart | backend/src/services/CartService.ts:73-75 | Remove on the store in place equals `CartSpec.RemoveItemFromCart` of the old store; the invariant is kept. |
| CartService.SyncLocalCart | backend/src/services/CartService.ts:77-104 | Merge on the store in place equals the checked `CartSpec.SyncLocalCart` of the old store; the invariant is kept. |
| CartService.MergeAll | backend/src/services/CartService.ts:81-100 | The merge loop over the guest entries computes the checked `SyncItems` of the transaction's tables. |
| CartService.MergeOne | backend/src/services/CartService.ts:82-99 | One entry of the loop computes the checked `SyncOne`. |
| AdminSpec.AdjustStockOutcome | backend/src/services/AdminService.ts:12-20 | A negative number is refused first, then a missing product, and neither changes anything. Otherwise the product's stock is exactly the number and nothing else changes. |
| AdminSpec.AdjustStockKeepsValid | backend/src/services/AdminService.ts:12-20 | Setting a stock keeps the invariant. |
| AdminSpec.UpdateOrderStatusOutcome | backend/src/services/AdminService.ts:42-56 | A missing order is refused. Otherwise that order takes the new status whatever its old one, and no stock moves. |
| AdminSpec.UpdateOrderStatusKeepsValid | backend/src/services/AdminService.ts:42-56 | The status update keeps the invariant. |
| AdminSpec.ReopenCreditsAgain | backend/src/services/AdminService.ts:42-56 | Reopening a cancelled order to PENDING lets its owner cancel it again, and each product's stock then rises by twice its quantity in the order. |
| AdminSpec.InsertDesc | backend/src/services/AdminService.ts:26 | Inserting into a newest-first listing keeps it newest-first and adds exactly that row. |
| AdminSpec.SortDesc | backend/src/services/AdminService.ts:38 | The listing is newest-first and a permutation of the rows. |
| AdminSpec.ActiveReservationsListing | backend/src/services/AdminService.ts:22-28 | The active-reservation listing is newest first. It holds each reservation not flagged expired as often as the table does, and no other. |
| Seqs.FilterCount | backend/src/services/AdminService.ts:23-24 | A findMany keeps each row satisfying its where clause exactly as often as the table holds it, and no other row. |
| AdminSpec.AllOrdersListing | backend/src/services/AdminService.ts:30-40 | The order listing is a permutation of the order table, newest first. |
| AdminService.AdjustProductStock | backend/src/services/AdminService.ts:12-20 | Setting a stock on the store in place equals `AdminSpec.AdjustProductStock` of the old store; the invariant is kept. |
| AdminService.UpdateOrderStatus | backend/src/services/AdminService.ts:42-56 | Setting a status on the store in place equals `AdminSpec.UpdateOrderStatus` of the old store; the invariant is kept. |
| CartHelpers.LocalCartStore.constructor | frontend/src/utils/cartHelpers.ts:5-8 | An empty storage slot reads as the empty list. |
| CartHelpers.LocalCartStore.UpdateLocalCart | frontend/src/utils/cartHelpers.ts:10-42 | The list is loaded, changed as `UpdatedLocalCart` says, saved back, and returned. |
| CartHelpers.FindIndex | frontend/src/utils/cartHelpers.ts:17-19 | The position of the first entry for the product, or -1 exactly when there is none. |
| CartHelpers.RemovesEntry | frontend/src/utils/cartHelpers.ts:21-24 | A quantity of zero or less removes the product's entry and keeps the rest in order; the list then has no entry for that product. |
| CartHelpers.NoneLeft | frontend/src/utils/cartHelpers.ts:21-24 | Without the only entry of its product, the list has no entry for that product. |
| CartHelpers.ReplacesQuantity | frontend/src/utils/cartHelpers.ts:26-27 | A positive quantity for a product with an entry changes only that entry's quantity, in place. |
| CartHelpers.AppendsEntry | frontend/src/utils/cartHelpers.ts:28-37 | A positive quantity for a product with no entry appends one guest entry at the end when a product record is given, and changes nothing otherwise. |
| CartHelpers.OthersUntouched | frontend/src/utils/cartHelpers.ts:10-42 | The entries of every other product are the same entries in the same order. |
| CartHelpers.KeepsUniqueProducts | frontend/src/utils/cartHelpers.ts:10-42 | If no product had two entries before, none has two after. |
| Checkout.RemainingSeconds | frontend/src/pages/CheckoutPage.tsx:48-51 | The countdown's start is never negative, is 0 exactly when less than a second is left, and otherwise is the whole number of seconds left. |
| Checkout.CountdownStep | frontend/src/pages/CheckoutPage.tsx:94 | Each tick lowers a positive count by exactly one and takes anything else (no count yet, zero or below) to 0; the count is never negative. |
| Checkout.TicksCount | frontend/src/pages/CheckoutPage.tsx:93-95 | From t seconds, the timer counts t, t-1, ..., 1, 0 and then stays at 0. |
| Checkout.JsRem | frontend/src/pages/CheckoutPage.tsx:121 | JavaScript's remainder by a positive divisor: Euclidean for a non-negative dividend, and between -b and 0 otherwise. |
| Checkout.FormatTimeShape | frontend/src/pages/CheckoutPage.tsx:119-123 | For a non-negative count, the text is the minutes, a colon, and exactly two digits of seconds. |
| Checkout.TwoDigitsValue | frontend/src/pages/CheckoutPage.tsx:122 | The two-digit seconds read back as their value. |
| Checkout.ReadTimeSplit | frontend/src/pages/CheckoutPage.tsx:122 | Text with no colon in its minutes part splits at the colon. |
| Checkout.ReadFormatTime | frontend/src/pages/CheckoutPage.tsx:119-123 | Round trip: the text shown for a count of seconds reads back as that count. |
| Checkout.FormatTimeOfNegative | frontend/src/pages/CheckoutPage.tsx:119-123 | A negative count, which the countdown never produces, renders as "-1:0-5" for -5. |
| Decimal.NatToString | frontend/src/pages/CheckoutPage.tsx:122 | The decimal text of a number is non-empty digits with no leading zero, and one digit exactly below ten. |
| Decimal.IntToString | frontend/src/components/ProductCard.tsx:15 | A template literal's text of an integer is non-empty and starts with a minus sign exactly when the integer is negative. The rest is digits, with no leading zero after the sign. |
| Decimal.ParseIntToString | frontend/src/components/ProductCard.tsx:15 | Reading back an integer's text, sign included, gives the integer. |
| Decimal.IntToStringInjective | frontend/src/components/ProductCard.tsx:15 | Distinct integers have distinct texts. |
| Decimal.NatToStringParseNat | frontend/src/pages/CheckoutPage.tsx:122 | The other direction of the round trip: a digit string with no leading zero is read as a number whose text is that string. |
| Decimal.ParseNatToString | frontend/src/pages/CheckoutPage.tsx:122 | Reading back a number's decimal text gives the number. |
| Decimal.NatToStringInjective | frontend/src/components/ProductCard.tsx:15 | Distinct numbers have distinct decimal texts. |
| ProductCard.StockStatusCases | frontend/src/components/ProductCard.tsx:11-21 | The badge is red "Out of Stock" exactly at zero. It is orange with the count exactly from one to five, and green "In Stock" above five. |
| ProductCard.LowStockShowsCount | frontend/src/components/ProductCard.tsx:13-18 | The count in the low-stock badge reads back as the stock. |
| ProductCard.NegativeStockShowsLow | frontend/src/components/ProductCard.tsx:13-18 | A negative stock, which the store's invariant rules out, shows as the low-stock badge "Only -3 left". |

## Left out

- The HTTP layer, controllers, routes, authentication and role middleware are not modelled. The services' arguments are taken as the controllers pass them.
- Controller guards are not preconditions. The typed error paths of each service are modelled instead.
- In server code, the user an order or cart belongs to is a parameter.
- Concurrency is not modelled. Every service call is one atomic step.
  - The sweeper's query runs before its transaction in `backend/src/cleanup.ts:10-29`, so a race with pay or cancel in between is not captured.
  - The same holds for pay's check-then-update.
  - The sweeper's timer is left out; one run is the `now` parameter.
- The database engine and its generated ids are not modelled. A single counter `nextId` hands out every new id.
- Prices, totals and floating point are left out: no price field is modelled.
- The `include` payloads of the listings and of `viewOrderStatus` (products, users, items) are left out. A listing returns the rows themselves.
- Browser storage is the `saved` field of `CartHelpers.LocalCartStore`. JSON encoding is left out.
- The random guest-entry id (`Math.random`) is the `newId` parameter.
- `getLocalCart` appears only as the read at the start of `UpdateLocalCart`. `clearLocalCart` is left out because it only empties the slot.
- The clock is left out. Times are integer milliseconds passed as `now`, and the countdown's one-second interval is the `Ticks` count.
- The checkout page's rendering, navigation and toasts are left out; only its timer arithmetic and `formatTime` are modelled.
- The product card's markup is left out; only `getStockStatus` is modelled.
- Error messages are modelled as `Types.Error` constructors. The product name in the insufficient-stock message is the product id here.
- CartService.SyncLocalCart: the in-place service and the store invariant model the corrected merge. As written, the program can store cart items with a quantity of zero or less, and such states fail `Tables.Valid`. They lie outside every `requires db.Valid()` of the imperative layer, so the in-place methods promise nothing about them. The as-written behaviour is modelled only by the value-level `CartSpec.SyncLocalCartAsWritten` and its lemmas.
- `RESERVATION_HOLD_MINUTES` (`backend/src/services/OrderService.ts:4`) is declared but never used by the modelled operations, so it has no counterpart.
- No operation creating reservations or PENDING orders is part of this core. Those rows come only from the store a `Database` is opened on.
- A cart item's cart reference is not checked against the cart table, because the source's `addItemToCart` does not look the cart up.
- The order update in `cancelOrder` and the sweeper's delete are not modelled as failing. They act on rows just found, and the model has no concurrency.
- The frontend posts to `/orders/initiate-checkout` (frontend/src/pages/CartPage.tsx:130) and reads `/orders/:id/details` (frontend/src/pages/CheckoutPage.tsx:31), but backend/src/routes/orderRoutes.ts defines neither route, so no operation creates reservations. The model follows the services:
  - buy-now creates a PAID order directly (`backend/src/services/OrderService.ts:39-47`);
  - pay checks no owner, since `backend/src/controllers/OrderController.ts:52` does not pass one;
  - the admin may set any status (`backend/src/services/AdminService.ts:42-56`), as `AdminSpec.ReopenCreditsAgain` shows.

## Findings

| source | as written | input that shows it | evidently intended | confidence | as-written member | corrected member |
|---|---|---|---|---|---|---|
| backend/src/services/CartService.ts:81-100 (with backend/src/controllers/CartController.ts:84) | The guest-cart merge adds each entry's quantity to the cart without checking its sign. A zero or negative entry is stored as a cart item with a non-positive quantity. | The user has a non-guest cart with no items, product 1 has 5 in stock, and the guest entry is (product 1, -2 units). The merge stores an item of -2. Buy-now then passes the stock check, raises stock from 5 to 7 and records a PAID order of -2 units. | Refuse a non-positive entry, as `addItemToCart` does at `backend/src/services/CartService.ts:34-36`, so every stored quantity stays positive. | not executed | CartSpec.SyncLocalCartAsWritten, shown by CartSpec.SyncAcceptsNegativeQuantity and CartSpec.NegativeEntryRaisesStock | CartSpec.SyncLocalCart, proved by CartSpec.SyncItemsRejectsNonPositive, CartSpec.SyncLocalCartFails, CartSpec.SyncLocalCartOutcome and CartSpec.SyncLocalCartKeepsValid; used by CartService.SyncLocalCart |
