/** The stock badge on a product card: its text and its text and background colours. */
module ProductCard {
  import opened Types
  import opened Decimal

  datatype StockStatus = StockStatus(text: string, color: string, bg: string)

  /** getStockStatus: none left, five or fewer left, or more. */
  function GetStockStatus(stock: int): StockStatus {
    if stock == 0 then StockStatus("Out of Stock", "text-red-600", "bg-red-50")
    else if stock <= 5 then StockStatus("Only " + IntToString(stock) + " left", "text-orange-600", "bg-orange-50")
    else StockStatus("In Stock", "text-green-600", "bg-green-50")
  }

  /** Red exactly at zero, orange exactly from one to five with the count in the text, green
      exactly above five: for any stock that is not negative, exactly one badge applies. */
  lemma StockStatusCases(stock: nat)
    ensures var s := GetStockStatus(stock);
            && (s == StockStatus("Out of Stock", "text-red-600", "bg-red-50") <==> stock == 0)
            && (s == StockStatus("Only " + NatToString(stock) + " left", "text-orange-600", "bg-orange-50") <==> 1 <= stock <= 5)
            && (s == StockStatus("In Stock", "text-green-600", "bg-green-50") <==> stock > 5)
            && (s.color == "text-red-600" || s.color == "text-orange-600" || s.color == "text-green-600")
  {
  }

  /** The count shown in the low-stock badge reads back as the stock. */
  lemma LowStockShowsCount(stock: nat)
    requires 1 <= stock <= 5
    ensures var t := GetStockStatus(stock).text;
            |t| == 11 && t[..5] == "Only " && t[6..] == " left" && ParseNat(t[5..6]) == Some(stock)
  {
    ParseNatToString(stock);
    var t := GetStockStatus(stock).text;
    assert t[5..6] == NatToString(stock);
  }

  /** A negative stock, which the store's invariant rules out, falls in the low-stock case. */
  lemma NegativeStockShowsLow()
    ensures GetStockStatus(-3) == StockStatus("Only -3 left", "text-orange-600", "bg-orange-50")
  {
    assert NatToString(3) == "3";
  }
}
