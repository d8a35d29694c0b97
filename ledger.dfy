/** The stock ledger: per-product totals of a list of (productId, quantity) lines,
    and the stock map after taking those lines out (Debit) or putting them back (Credit). */
module Ledger {
  import opened Types

  /** Sum of the quantities of the lines for product `p`. */
  function QtyOf(lines: seq<Line>, p: ProductId): int
  {
    if lines == [] then 0
    else QtyOf(lines[..|lines| - 1], p)
         + (if lines[|lines| - 1].productId == p then lines[|lines| - 1].quantity else 0)
  }

  /** Every line names a product the ledger knows. */
  predicate Covers(stock: map<ProductId, int>, lines: seq<Line>) {
    forall i :: 0 <= i < |lines| ==> lines[i].productId in stock
  }

  /** No product appears on two lines. */
  predicate DistinctProducts(lines: seq<Line>) {
    forall i, j :: 0 <= i < j < |lines| ==> lines[i].productId != lines[j].productId
  }

  /** The stock after decrementing, line by line, each line's product by its quantity. */
  function Debit(stock: map<ProductId, int>, lines: seq<Line>): (r: map<ProductId, int>)
    requires Covers(stock, lines)
    ensures r.Keys == stock.Keys
  {
    if lines == [] then stock
    else
      var last := lines[|lines| - 1];
      var rest := Debit(stock, lines[..|lines| - 1]);
      rest[last.productId := rest[last.productId] - last.quantity]
  }

  /** The stock after incrementing, line by line, each line's product by its quantity. */
  function Credit(stock: map<ProductId, int>, lines: seq<Line>): (r: map<ProductId, int>)
    requires Covers(stock, lines)
    ensures r.Keys == stock.Keys
  {
    if lines == [] then stock
    else
      var last := lines[|lines| - 1];
      var rest := Credit(stock, lines[..|lines| - 1]);
      rest[last.productId := rest[last.productId] + last.quantity]
  }

  /** Debiting one more line is one more decrement. */
  lemma DebitSnoc(stock: map<ProductId, int>, lines: seq<Line>, l: Line)
    requires Covers(stock, lines) && l.productId in stock
    ensures Covers(stock, lines + [l])
    ensures Debit(stock, lines + [l]) == Debit(stock, lines)[l.productId := Debit(stock, lines)[l.productId] - l.quantity]
  {
    assert (lines + [l])[..|lines|] == lines;
  }

  /** Crediting one more line is one more increment. */
  lemma CreditSnoc(stock: map<ProductId, int>, lines: seq<Line>, l: Line)
    requires Covers(stock, lines) && l.productId in stock
    ensures Covers(stock, lines + [l])
    ensures Credit(stock, lines + [l]) == Credit(stock, lines)[l.productId := Credit(stock, lines)[l.productId] + l.quantity]
  {
    assert (lines + [l])[..|lines|] == lines;
  }

  /** Debit takes exactly the product's total off each product. */
  lemma {:induction false} DebitAt(stock: map<ProductId, int>, lines: seq<Line>)
    requires Covers(stock, lines)
    ensures forall p :: p in stock ==> Debit(stock, lines)[p] == stock[p] - QtyOf(lines, p)
  {
    if lines != [] {
      DebitAt(stock, lines[..|lines| - 1]);
    }
  }

  /** Credit adds exactly the product's total to each product. */
  lemma {:induction false} CreditAt(stock: map<ProductId, int>, lines: seq<Line>)
    requires Covers(stock, lines)
    ensures forall p :: p in stock ==> Credit(stock, lines)[p] == stock[p] + QtyOf(lines, p)
  {
    if lines != [] {
      CreditAt(stock, lines[..|lines| - 1]);
    }
  }

  /** Putting back what was taken out restores the ledger exactly. */
  lemma DebitThenCredit(stock: map<ProductId, int>, lines: seq<Line>)
    requires Covers(stock, lines)
    ensures Covers(Debit(stock, lines), lines)
    ensures Credit(Debit(stock, lines), lines) == stock
  {
    var d := Debit(stock, lines);
    DebitAt(stock, lines);
    CreditAt(d, lines);
  }

  /** With distinct products, a product's total is the quantity on its one line, or 0. */
  lemma {:induction false} QtyOfDistinct(lines: seq<Line>, p: ProductId)
    requires DistinctProducts(lines)
    ensures (forall i :: 0 <= i < |lines| ==> lines[i].productId != p) ==> QtyOf(lines, p) == 0
    ensures forall i :: 0 <= i < |lines| && lines[i].productId == p ==> QtyOf(lines, p) == lines[i].quantity
  {
    if lines != [] {
      var init := lines[..|lines| - 1];
      assert DistinctProducts(init);
      QtyOfDistinct(init, p);
    }
  }

  /** Totals of lines with non-negative quantities are non-negative. */
  lemma {:induction false} QtyOfNonNegative(lines: seq<Line>, p: ProductId)
    requires forall i :: 0 <= i < |lines| ==> lines[i].quantity >= 0
    ensures QtyOf(lines, p) >= 0
  {
    if lines != [] {
      QtyOfNonNegative(lines[..|lines| - 1], p);
    }
  }

  /** Every line fits in the given stock (the check the checkout makes against its snapshot). */
  predicate Fits(stock: map<ProductId, int>, lines: seq<Line>)
    requires Covers(stock, lines)
  {
    forall i :: 0 <= i < |lines| ==> lines[i].quantity <= stock[lines[i].productId]
  }

  /** The product of the first line whose quantity exceeds the stock, if any. */
  function FirstShort(stock: map<ProductId, int>, lines: seq<Line>): (r: Option<ProductId>)
    requires Covers(stock, lines)
    ensures r.None? <==> Fits(stock, lines)
    ensures r.Some? ==> exists i :: 0 <= i < |lines| && lines[i].productId == r.value
                                    && stock[r.value] < lines[i].quantity
                                    && Fits(stock, lines[..i])
  {
    if lines == [] then None
    else if stock[lines[0].productId] < lines[0].quantity then Some(lines[0].productId)
    else
      var r := FirstShort(stock, lines[1..]);
      assert Fits(stock, lines) <==> Fits(stock, lines[1..]);
      if r.Some? then
        var i :| 0 <= i < |lines[1..]| && lines[1..][i].productId == r.value
                 && stock[r.value] < lines[1..][i].quantity && Fits(stock, lines[1..][..i]);
        assert lines[..i + 1] == [lines[0]] + lines[1..][..i];
        assert lines[i + 1] == lines[1..][i];
        r
      else r
  }

  /** The first failing line determines the result of the snapshot check. */
  lemma {:induction false} FirstShortAt(stock: map<ProductId, int>, lines: seq<Line>, k: nat)
    requires Covers(stock, lines)
    requires k < |lines| && Fits(stock, lines[..k]) && stock[lines[k].productId] < lines[k].quantity
    ensures FirstShort(stock, lines) == Some(lines[k].productId)
  {
    if k > 0 {
      assert lines[1..][..k - 1] == lines[..k][1..];
      assert lines[1..][k - 1] == lines[k];
      FirstShortAt(stock, lines[1..], k - 1);
    }
  }

  /** A snapshot check with distinct products protects the ledger: nothing goes negative. */
  lemma DebitStaysNonNegative(stock: map<ProductId, int>, lines: seq<Line>)
    requires Covers(stock, lines) && DistinctProducts(lines) && Fits(stock, lines)
    requires forall p :: p in stock ==> stock[p] >= 0
    ensures forall p :: p in stock ==> Debit(stock, lines)[p] >= 0
  {
    DebitAt(stock, lines);
    forall p | p in stock ensures Debit(stock, lines)[p] >= 0 {
      QtyOfDistinct(lines, p);
    }
  }

  /** The same check without distinct products does not: two lines of one unit each pass
      against a snapshot of one unit, and the ledger ends at -1. */
  lemma SnapshotCheckNeedsDistinctProducts()
    ensures var stock, lines := map[7 := 1], [Line(7, 1), Line(7, 1)];
            Covers(stock, lines) && Fits(stock, lines) && !DistinctProducts(lines)
            && Debit(stock, lines)[7] == -1
  {
    var stock, lines := map[7 := 1], [Line(7, 1), Line(7, 1)];
    assert lines[..1] == [Line(7, 1)];
    assert lines[..1][..0] == [];
    assert lines[0].productId == lines[1].productId;
  }

  /** Putting back lines with non-negative quantities never lowers any product's stock. */
  lemma CreditNeverLowers(stock: map<ProductId, int>, lines: seq<Line>)
    requires Covers(stock, lines)
    requires forall i :: 0 <= i < |lines| ==> lines[i].quantity >= 0
    ensures forall p :: p in stock ==> Credit(stock, lines)[p] >= stock[p]
  {
    CreditAt(stock, lines);
    forall p | p in stock ensures Credit(stock, lines)[p] >= stock[p] {
      QtyOfNonNegative(lines, p);
    }
  }
}
