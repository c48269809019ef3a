/**
 * Defects in the queries of Task/LinqSamples.cs, each shown twice: a
 * concrete input on which the query as written (module LinqSamples) does
 * not do what its description asks, and a corrected query with the
 * intended property proved.
 */
module Findings {
  import opened Linq
  import opened Data
  import opened LinqSamples

  // -------------------------------------------- "first order" start date

  function DateKey(d: Date): seq<int> {
    [d.Year, d.Month, d.Day]
  }

  /** `d` is strictly earlier than `e`. */
  predicate DateBefore(d: Date, e: Date) {
    LexLess(DateKey(d), DateKey(e))
  }

  /** The date of the earliest order: one of the order dates, and no order is dated before it. */
  function EarliestDate(orders: seq<Order>): (d: Date)
    requires |orders| > 0
    ensures exists i :: 0 <= i < |orders| && orders[i].OrderDate == d
    ensures forall i :: 0 <= i < |orders| ==> !DateBefore(orders[i].OrderDate, d)
  {
    if |orders| == 1 then
      LexLessIrreflexive(DateKey(orders[0].OrderDate));
      orders[0].OrderDate
    else
      var first, rest := orders[0].OrderDate, EarliestDate(orders[1..]);
      assert forall i :: 1 <= i < |orders| ==> orders[1..][i - 1] == orders[i];
      if DateBefore(first, rest) then
        forall i | 1 <= i < |orders|
          ensures !DateBefore(orders[i].OrderDate, first)
        {
          LexLessAsymmetric(DateKey(first), DateKey(rest));
          NotLessTransitive(DateKey(orders[i].OrderDate), DateKey(rest), DateKey(first));
        }
        LexLessIrreflexive(DateKey(first));
        first
      else
        rest
  }

  const LateFirst := Order(10248, Date(1998, 5, 6), Units(10))
  const EarlySecond := Order(10249, Date(1997, 1, 2), Units(20))

  /** Listed late-first, the orders give the later date as the start date. */
  lemma StartDateNotEarliest()
    ensures StartDate([LateFirst, EarlySecond]) == Date(1998, 5, 6)
    ensures EarliestDate([LateFirst, EarlySecond]) == Date(1997, 1, 2)
    ensures DateBefore(EarliestDate([LateFirst, EarlySecond]), StartDate([LateFirst, EarlySecond]))
  {
    var orders := [LateFirst, EarlySecond];
    assert orders[1..] == [EarlySecond];
    var d := EarliestDate(orders);
    assert !DateBefore(orders[1].OrderDate, d);
    assert d == Date(1997, 1, 2);
  }

  // ------------------------------------------------ Linq4, corrected

  function HasOrders(c: Customer): bool {
    |c.Orders| > 0
  }

  /** The row of a customer with orders: its name and the date of its earliest order. */
  function EarliestRow(c: Customer): (row: CustomerStart)
    requires |c.Orders| > 0
    ensures row.Customer == c.CompanyName
    ensures exists i :: 0 <= i < |c.Orders| && c.Orders[i].OrderDate == row.StartDate
    ensures forall i :: 0 <= i < |c.Orders| ==> !DateBefore(c.Orders[i].OrderDate, row.StartDate)
  {
    CustomerStart(c.CompanyName, EarliestDate(c.Orders))
  }

  /** No row for a customer without orders, one row for a customer with some. */
  function EarliestRows(c: Customer): (r: seq<CustomerStart>)
    ensures |r| == if |c.Orders| > 0 then 1 else 0
  {
    if |c.Orders| > 0 then [EarliestRow(c)] else []
  }

  /**
   * The rows the customers contribute, one after another: one row per
   * customer with orders, in source order, each with the date of that
   * customer's earliest order.
   */
  lemma {:induction false} EarliestRowsOf(customers: seq<Customer>)
    ensures var r, active := SelectMany(customers, EarliestRows), Where(customers, HasOrders);
      && |r| == |active|
      && forall i :: 0 <= i < |r| ==> |active[i].Orders| > 0 && r[i] == EarliestRow(active[i])
  {
    if |customers| > 0 {
      var c := customers[0];
      EarliestRowsOf(customers[1..]);
      assert customers == [c] + customers[1..];
      WhereCons(c, customers[1..], HasOrders);
      var r', active' := SelectMany(customers[1..], EarliestRows), Where(customers[1..], HasOrders);
      assert SelectMany(customers, EarliestRows) == EarliestRows(c) + r';
      assert Where(customers, HasOrders) == (if HasOrders(c) then [c] else []) + active';
    }
  }

  /**
   * Linq4 as described: each customer with orders once, in source order,
   * with the date of its earliest order.
   */
  function Linq4Earliest(customers: seq<Customer>): (r: seq<CustomerStart>)
    ensures var active := Where(customers, HasOrders);
      && |r| == |active|
      && forall i :: 0 <= i < |r| ==> |active[i].Orders| > 0 && r[i] == EarliestRow(active[i])
  {
    EarliestRowsOf(customers);
    SelectMany(customers, EarliestRows)
  }

  const Repeat := Customer("ALFKI", "Alfreds Futterkiste", "Germany", "Berlin", None, Some("12209"), "030-0074321",
                           [LateFirst, EarlySecond])

  /** Linq4 lists a customer with two orders twice. */
  lemma Linq4RepeatsCustomer()
    ensures |Linq4([Repeat])| == 2 && Linq4([Repeat])[0] == Linq4([Repeat])[1]
  {
    var rows := StartRows(Repeat);
    SelectManyOne(Repeat, StartRows);
    assert rows[0] in rows && rows[1] in rows;
  }

  /** The corrected query lists that customer once. */
  lemma Linq4EarliestOnce()
    ensures Linq4Earliest([Repeat]) == [EarliestRow(Repeat)]
  {
    SelectManyOne(Repeat, EarliestRows);
  }

  // ------------------------------------------------ Linq6 phone test

  /** A string starts with "(" exactly when its first character is '('. */
  lemma StartsWithParenthesis(s: string)
    ensures StartsWith(s, "(") <==> |s| > 0 && s[0] == '('
  {
    if |s| > 0 && s[0] == '(' {
      assert s[..1] == "(";
    }
  }

  /**
   * The filter as described (Task/LinqSamples.cs:109-110): no region, a
   * postal code with a character other than a digit, or a phone that does
   * not start with an opening parenthesis.
   */
  predicate HasDataIssueIntended(c: Customer)
    ensures HasDataIssueIntended(c) <==>
      || c.Region.None? || c.Region.value == ""
      || (c.PostalCode.Some? && exists i :: 0 <= i < |c.PostalCode.value| && !('0' <= c.PostalCode.value[i] <= '9'))
      || |c.Phone| == 0 || c.Phone[0] != '('
  {
    StartsWithParenthesis(c.Phone);
    || IsNullOrEmpty(c.Region)
    || (c.PostalCode.Some? && Any(c.PostalCode.value, NotDigit))
    || !StartsWith(c.Phone, "(")
  }

  /** The customers the described filter reports, in source order. */
  function Linq6Intended(customers: seq<Customer>): (r: seq<Customer>)
    ensures IsSubsequence(r, customers)
    ensures forall c :: c in r <==>
              (&& c in customers
               && (|| c.Region.None? || c.Region.value == ""
                   || (c.PostalCode.Some? && exists i :: 0 <= i < |c.PostalCode.value| && !('0' <= c.PostalCode.value[i] <= '9'))
                   || |c.Phone| == 0 || c.Phone[0] != '('))
  {
    Where(customers, HasDataIssueIntended)
  }

  /** A customer with a region, a numeric postal code and an area code. */
  const Complete := Customer("AROUT", "Around the Horn", "UK", "London", Some("Essex"), Some("12345"), "(171) 555-7788", [])

  /** Linq6 as written reports the complete customer; the corrected filter does not. */
  lemma Linq6ReportsComplete()
    ensures Linq6([Complete]) == [Complete]
    ensures Linq6Intended([Complete]) == []
  {
    assert Complete.Phone[..1] == "(";
    assert "12345"[1..] == "2345" && "2345"[1..] == "345" && "345"[1..] == "45" && "45"[1..] == "5" && "5"[1..] == "";
    assert !HasDataIssueIntended(Complete);
  }

  // ------------------------------------------------ Linq7 price grouping

  /** The products of one stock level, cheapest first. */
  datatype StockLevel = StockLevel(NumberInStock: int, Products: seq<Product>)

  datatype CategoryStock = CategoryStock(Category: string, Stocks: seq<StockLevel>)

  /** Sort key that orders by ascending price under a descending sort. */
  function CheapFirst(p: Product): seq<int> {
    [-p.UnitPrice]
  }

  /** One stock level, its products sorted by price, stably. */
  function SortedLevel(g: Grouping<int, Product>): (s: StockLevel)
    ensures s.NumberInStock == g.Key
    ensures multiset(s.Products) == multiset(g.Elements)
    ensures forall i, j :: 0 <= i < j < |s.Products| ==> s.Products[i].UnitPrice <= s.Products[j].UnitPrice
  {
    var ps := OrderByDescending(g.Elements, CheapFirst);
    assert forall i, j :: 0 <= i < j < |ps| ==> !LexLess(CheapFirst(ps[i]), CheapFirst(ps[j]));
    StockLevel(g.Key, ps)
  }

  /**
   * One category as described: its distinct stock levels in
   * first-occurrence order, each holding exactly the category's products of
   * that level, cheapest first.
   */
  function CategoryStocks(x: Grouping<string, Product>): (v: CategoryStock)
    ensures v.Category == x.Key
    ensures |v.Stocks| == |Distinct(Select(x.Elements, StockOf))|
    ensures forall j :: 0 <= j < |v.Stocks| ==>
              && v.Stocks[j].NumberInStock == Distinct(Select(x.Elements, StockOf))[j]
              && multiset(v.Stocks[j].Products) == multiset(KeyFilter(x.Elements, StockOf, v.Stocks[j].NumberInStock))
              && forall a, b :: 0 <= a < b < |v.Stocks[j].Products| ==>
                   v.Stocks[j].Products[a].UnitPrice <= v.Stocks[j].Products[b].UnitPrice
  {
    var g := GroupBy(x.Elements, StockOf);
    var v := CategoryStock(x.Key, Select(g, SortedLevel));
    assert GroupKeys(g) == Distinct(Select(x.Elements, StockOf));
    forall j | 0 <= j < |g|
      ensures v.Stocks[j] == SortedLevel(g[j])
    {
    }
    v
  }

  function StockCategory(v: CategoryStock): string { v.Category }

  /**
   * Products grouped by category, then by stock level, each level sorted by
   * price (Task/LinqSamples.cs:124): one entry per distinct category, in
   * first-occurrence order, built from exactly that category's products.
   */
  function Linq7Intended(products: seq<Product>): (r: seq<CategoryStock>)
    ensures Select(r, StockCategory) == Distinct(Select(products, CategoryOf))
    ensures forall i :: 0 <= i < |r| ==>
              r[i] == CategoryStocks(Grouping(r[i].Category, KeyFilter(products, CategoryOf, r[i].Category)))
  {
    var g := GroupBy(products, CategoryOf);
    var r := Select(g, CategoryStocks);
    StocksOf(g);
    forall i | 0 <= i < |r|
      ensures r[i] == CategoryStocks(Grouping(r[i].Category, KeyFilter(products, CategoryOf, r[i].Category)))
    {
      assert r[i].Category == g[i].Key;
      assert g[i] == Grouping(g[i].Key, KeyFilter(products, CategoryOf, g[i].Key));
    }
    r
  }

  lemma StocksOf(g: seq<Grouping<string, Product>>)
    ensures var r := Select(g, CategoryStocks);
      && Select(r, StockCategory) == GroupKeys(g)
      && forall i :: 0 <= i < |r| ==> r[i] == CategoryStocks(g[i])
  {
    var r := Select(g, CategoryStocks);
    assert forall i :: 0 <= i < |r| ==> Select(r, StockCategory)[i] == GroupKeys(g)[i];
  }

  const Cola := Product("Cola", "Beverages", 1, Units(5))
  const Tea := Product("Tea", "Beverages", 2, Units(3))

  lemma SampleCategoryKeys()
    ensures Distinct(Select([Cola, Tea], CategoryOf)) == ["Beverages"]
  {
    assert Select([Cola, Tea], CategoryOf) == ["Beverages", "Beverages"];
    assert ["Beverages", "Beverages"][..1] == ["Beverages"] && ["Beverages"][..0] == [];
    assert Distinct(["Beverages"]) == ["Beverages"];
  }

  lemma SampleCategoryElements()
    ensures KeyFilter([Cola, Tea], CategoryOf, "Beverages") == [Cola, Tea]
  {
    KeyFilterCons(Cola, [Tea], CategoryOf, "Beverages");
    KeyFilterCons(Tea, [], CategoryOf, "Beverages");
    assert [Cola, Tea] == [Cola] + [Tea] && [Tea] == [Tea] + [];
  }

  /** Both sample products are beverages, so they form one category. */
  lemma SampleCategory()
    ensures GroupBy([Cola, Tea], CategoryOf) == [Grouping("Beverages", [Cola, Tea])]
  {
    var g := GroupBy([Cola, Tea], CategoryOf);
    SampleCategoryKeys();
    SampleCategoryElements();
    assert |g| == 1 && g[0].Key == GroupKeys(g)[0] == "Beverages";
  }

  lemma DistinctPair<T(!new)>(a: T, b: T)
    requires a != b
    ensures Distinct([a, b]) == [a, b]
  {
    assert [a, b][..1] == [a] && [a][..0] == [];
    assert Distinct([a]) == [a];
  }

  lemma SampleStocks()
    ensures Distinct(Select([Cola, Tea], StockOf)) == [1, 2]
  {
    assert Select([Cola, Tea], StockOf) == [1, 2];
    DistinctPair(1, 2);
  }

  lemma SamplePrices()
    ensures GroupKeys(GroupBy(Select([Cola, Tea], PriceOf), Identity)) == [Units(5), Units(3)]
  {
    assert Select([Cola, Tea], PriceOf) == [Units(5), Units(3)];
    SelectIdentity([Units(5), Units(3)]);
    DistinctPair(Units(5), Units(3));
  }

  /**
   * As written, the stock group of level 1 lists Tea's price although Tea
   * has level 2, and lists the prices unsorted.
   */
  lemma Linq7PricesNotPerLevel()
    ensures var v := Linq7([Cola, Tea])[0].Products[0];
      v.NumberInStock.Key == 1 && GroupKeys(v.Prices) == [Units(5), Units(3)]
  {
    var x := Grouping("Beverages", [Cola, Tea]);
    SampleCategory();
    assert Linq7([Cola, Tea])[0] == CategoryView(x);
    SampleStocks();
    SamplePrices();
    var v := CategoryView(x);
    assert StockKey(v.Products[0]) == Select(v.Products, StockKey)[0];
  }

  lemma SampleLevel()
    ensures GroupBy([Cola, Tea], StockOf)[0] == Grouping(1, [Cola])
  {
    var levels := GroupBy([Cola, Tea], StockOf);
    SampleStocks();
    assert levels[0].Key == GroupKeys(levels)[0] == 1;
    KeyFilterCons(Cola, [Tea], StockOf, 1);
    KeyFilterCons(Tea, [], StockOf, 1);
    assert [Cola, Tea] == [Cola] + [Tea] && [Tea] == [Tea] + [];
  }

  /** Corrected, stock level 1 holds Cola alone. */
  lemma Linq7IntendedLevel()
    ensures Linq7Intended([Cola, Tea])[0].Stocks[0] == StockLevel(1, [Cola])
  {
    SampleCategory();
    SampleLevel();
    assert Linq7Intended([Cola, Tea])[0].Stocks[0] == SortedLevel(Grouping(1, [Cola]));
    var s := SortedLevel(Grouping(1, [Cola]));
    assert multiset(s.Products) == multiset([Cola]);
    assert |s.Products| == 1;
    assert s.Products[0] in multiset(s.Products);
  }
}
