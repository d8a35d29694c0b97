/** The guest cart kept in the browser: a list of items keyed by product, updated by
    updateLocalCart and saved back under one storage key. */
module CartHelpers {
  import opened Types
  import opened Seqs

  /** A guest-cart entry; `product` is the product record the page attached, if any. */
  datatype LocalItem = LocalItem(id: string, cartId: string, productId: ProductId, quantity: int, product: Option<Product>)

  /** The cart id every guest entry carries. */
  const GuestCartId: string := "guest"

  predicate SameProduct(x: LocalItem, productId: ProductId) { x.productId == productId }

  /** No product has two entries. */
  ghost predicate UniqueProducts(items: seq<LocalItem>) {
    forall i, j :: 0 <= i < j < |items| ==> items[i].productId != items[j].productId
  }

  /** The list updateLocalCart leaves: a quantity of zero or less removes the product's first
      entry; a positive one replaces that entry's quantity, or, when there is none and a product
      record is given, appends a new entry with id `newId`. */
  function UpdatedLocalCart(items: seq<LocalItem>, productId: ProductId, newQuantity: int,
                            product: Option<Product>, newId: string): seq<LocalItem> {
    var k := FindFirst(items, (x: LocalItem) => SameProduct(x, productId));
    if newQuantity <= 0 then
      (if k.Some? then items[..k.value] + items[k.value + 1..] else items)
    else if k.Some? then items[k.value := items[k.value].(quantity := newQuantity)]
    else if product.Some? then items + [LocalItem(newId, GuestCartId, productId, newQuantity, product)]
    else items
  }

  /** The browser's storage slot for the guest cart; an empty slot reads as the empty list. */
  class LocalCartStore {
    var saved: seq<LocalItem>

    constructor()
      ensures saved == []
    {
      saved := [];
    }

    /** updateLocalCart: load the list, change it in place, save it, and return it. */
    method UpdateLocalCart(productId: ProductId, newQuantity: int, product: Option<Product>, newId: string)
      returns (cartItems: seq<LocalItem>)
      modifies this
      ensures cartItems == UpdatedLocalCart(old(saved), productId, newQuantity, product, newId)
      ensures saved == cartItems
    {
      cartItems := saved;
      var existingItemIndex := FindIndex(cartItems, productId);
      if newQuantity <= 0 {
        if existingItemIndex > -1 {
          cartItems := cartItems[..existingItemIndex] + cartItems[existingItemIndex + 1..];
        }
      } else {
        if existingItemIndex > -1 {
          cartItems := cartItems[existingItemIndex := cartItems[existingItemIndex].(quantity := newQuantity)];
        } else if product.Some? {
          cartItems := cartItems + [LocalItem(newId, GuestCartId, productId, newQuantity, product)];
        }
      }
      saved := cartItems;
    }
  }

  /** Array.prototype.findIndex on the product id: the first matching position, or -1. */
  method FindIndex(items: seq<LocalItem>, productId: ProductId) returns (k: int)
    ensures -1 <= k < |items|
    ensures k == -1 <==> forall j :: 0 <= j < |items| ==> items[j].productId != productId
    ensures k >= 0 ==> items[k].productId == productId && forall j :: 0 <= j < k ==> items[j].productId != productId
    ensures k >= 0 <==> FindFirst(items, (x: LocalItem) => SameProduct(x, productId)) == Some(k)
  {
    var i := 0;
    while i < |items|
      invariant 0 <= i <= |items|
      invariant forall j :: 0 <= j < i ==> items[j].productId != productId
    {
      if items[i].productId == productId {
        return i;
      }
      i := i + 1;
    }
    return -1;
  }

  // ---- lemmas ----

  /** A quantity of zero or less removes the product's first entry, keeping the rest in order,
      and leaves the list alone when the product has no entry. */
  lemma RemovesEntry(items: seq<LocalItem>, productId: ProductId, newQuantity: int, product: Option<Product>, newId: string)
    requires newQuantity <= 0
    ensures var r := UpdatedLocalCart(items, productId, newQuantity, product, newId);
            && ((forall j :: 0 <= j < |items| ==> items[j].productId != productId) ==> r == items)
            && (forall k :: 0 <= k < |items| && items[k].productId == productId
                            && (forall j :: 0 <= j < k ==> items[j].productId != productId) ==>
                  r == items[..k] + items[k + 1..])
            && (UniqueProducts(items) ==> forall x :: x in r ==> x.productId != productId)
  {
    var f := FindFirst(items, (x: LocalItem) => SameProduct(x, productId));
    if UniqueProducts(items) && f.Some? {
      NoneLeft(items, f.value);
    }
  }

  /** Without the only entry of its product, the list has no entry of that product. */
  lemma NoneLeft(items: seq<LocalItem>, k: nat)
    requires UniqueProducts(items) && k < |items|
    ensures forall x :: x in items[..k] + items[k + 1..] ==> x.productId != items[k].productId
  {
    var r := items[..k] + items[k + 1..];
    forall x | x in r ensures x.productId != items[k].productId {
      var m :| 0 <= m < |r| && r[m] == x;
      if m < k { assert x == items[m]; } else { assert x == items[m + 1]; }
    }
  }

  /** A positive quantity for a product with an entry changes only that entry's quantity, at
      the same position. */
  lemma ReplacesQuantity(items: seq<LocalItem>, productId: ProductId, newQuantity: int, product: Option<Product>, newId: string, k: nat)
    requires newQuantity > 0
    requires k < |items| && items[k].productId == productId
    requires forall j :: 0 <= j < k ==> items[j].productId != productId
    ensures var r := UpdatedLocalCart(items, productId, newQuantity, product, newId);
            && |r| == |items|
            && r[k] == items[k].(quantity := newQuantity)
            && forall j :: 0 <= j < |items| && j != k ==> r[j] == items[j]
  {
  }

  /** A positive quantity for a product with no entry appends one entry at the end when a product
      record is given, and changes nothing when none is. */
  lemma AppendsEntry(items: seq<LocalItem>, productId: ProductId, newQuantity: int, product: Option<Product>, newId: string)
    requires newQuantity > 0
    requires forall j :: 0 <= j < |items| ==> items[j].productId != productId
    ensures var r := UpdatedLocalCart(items, productId, newQuantity, product, newId);
            && (product.Some? ==> r == items + [LocalItem(newId, GuestCartId, productId, newQuantity, product)])
            && (product.None? ==> r == items)
  {
  }

  /** The entries of every other product are never touched: the same entries in the same order. */
  lemma OthersUntouched(items: seq<LocalItem>, productId: ProductId, newQuantity: int, product: Option<Product>, newId: string, q: ProductId)
    requires q != productId
    ensures var r := UpdatedLocalCart(items, productId, newQuantity, product, newId);
            Filter(r, (x: LocalItem) => SameProduct(x, q)) == Filter(items, (x: LocalItem) => SameProduct(x, q))
  {
    var f := FindFirst(items, (x: LocalItem) => SameProduct(x, productId));
    var g := (x: LocalItem) => SameProduct(x, q);
    if f.Some? {
      var k := f.value;
      var pre, x, post := items[..k], items[k], items[k + 1..];
      assert items == pre + [x] + post;
      FilterDropOne(pre, x, post, g);
      if newQuantity > 0 {
        var y := x.(quantity := newQuantity);
        assert items[k := y] == pre + [y] + post;
        FilterDropOne(pre, y, post, g);
      }
    } else if newQuantity > 0 && product.Some? {
      var x := LocalItem(newId, GuestCartId, productId, newQuantity, product);
      FilterDropOne(items, x, [], g);
      assert items + [x] + [] == items + [x];
      assert items + [] == items;
    }
  }

  /** A row the filter rejects can be dropped before filtering. */
  lemma FilterDropOne(a: seq<LocalItem>, x: LocalItem, b: seq<LocalItem>, g: LocalItem -> bool)
    requires !g(x)
    ensures Filter(a + [x] + b, g) == Filter(a + b, g)
  {
    assert a + [x] + b == a + ([x] + b);
    FilterSplit(a, [x] + b, g);
    FilterSplit(a, b, g);
    assert Filter([x] + b, g) == Filter(b, g) by { assert ([x] + b)[1..] == b; }
  }

  /** Filtering distributes over concatenation. */
  lemma {:induction false} FilterSplit(a: seq<LocalItem>, b: seq<LocalItem>, g: LocalItem -> bool)
    ensures Filter(a + b, g) == Filter(a, g) + Filter(b, g)
  {
    if a != [] {
      assert (a + b)[1..] == a[1..] + b;
      FilterSplit(a[1..], b, g);
    } else {
      assert a + b == b;
    }
  }

  /** Entries stay unique per product. */
  lemma KeepsUniqueProducts(items: seq<LocalItem>, productId: ProductId, newQuantity: int, product: Option<Product>, newId: string)
    requires UniqueProducts(items)
    ensures UniqueProducts(UpdatedLocalCart(items, productId, newQuantity, product, newId))
  {
    var r := UpdatedLocalCart(items, productId, newQuantity, product, newId);
    var f := FindFirst(items, (x: LocalItem) => SameProduct(x, productId));
    if newQuantity <= 0 && f.Some? {
      var k := f.value;
      forall i, j | 0 <= i < j < |r| ensures r[i].productId != r[j].productId {
        var i', j' := if i < k then i else i + 1, if j < k then j else j + 1;
        assert r[i] == items[i'] && r[j] == items[j'];
      }
    }
  }
}
