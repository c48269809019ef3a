/**
 * The query routines of Task/LinqSamples.cs, Linq1 to Linq10, each as the
 * pure function that builds the view the routine prints. The dataset is
 * passed in as sequences instead of being read from a shared field.
 */
module LinqSamples {
  import opened Linq
  import opened Data

  // ------------------------------------------------------------------ Linq1

  /** Linq1's filter: the customer's order totals add up to more than `x` (Task/LinqSamples.cs:31). */
  function TotalAbove(x: int): Customer -> bool {
    (c: Customer) => TotalSum(c.Orders) > Units(x)
  }

  /** Customers whose orders add up to more than `x`, in source order. */
  function Linq1(customers: seq<Customer>, x: int): (r: seq<Customer>)
    ensures forall c :: c in r <==> c in customers && TotalSum(c.Orders) > Units(x)
    ensures IsSubsequence(r, customers)
  {
    Where(customers, TotalAbove(x))
  }

  /** Raising the threshold keeps a subsequence of the customers kept before. */
  lemma Linq1Monotone(customers: seq<Customer>, x: int, y: int)
    requires x <= y
    ensures IsSubsequence(Linq1(customers, y), Linq1(customers, x))
  {
    WhereMonotone(customers, TotalAbove(y), TotalAbove(x));
  }

  const SampleDay := Date(1997, 8, 25)
  const SampleA := Customer("A", "A", "Germany", "Berlin", None, None, "030-0074321",
                            [Order(1, SampleDay, Units(100)), Order(2, SampleDay, Units(50))])
  const SampleB := Customer("B", "B", "Mexico", "México D.F.", None, None, "(5) 555-4729",
                            [Order(3, SampleDay, Units(10))])

  /** A with orders of 100 and 50 passes 120 but not 200; B with 10 passes neither. */
  lemma Linq1Example()
    ensures Linq1([SampleA, SampleB], 120) == [SampleA]
    ensures Linq1([SampleA, SampleB], 200) == []
  {
    var a, b := SampleA.Orders, SampleB.Orders;
    assert a[1..] == [a[1]] && a[1..][1..] == [] && b[1..] == [];
    assert Sum(a[1..], OrderTotal) == Units(50);
    assert TotalSum(a) == Units(150);
    assert TotalSum(b) == Units(10);
    assert [SampleA, SampleB][1..] == [SampleB] && [SampleB][1..] == [];
  }

  // ------------------------------------------------------------------ Linq2

  datatype CustomerSupplier = CustomerSupplier(Customer: Customer, Supplier: Supplier)

  /** The customer is in the supplier's country and city (Task/LinqSamples.cs:44). */
  function SameCityAs(s: Supplier): Customer -> bool {
    (c: Customer) => s.Country == c.Country && s.City == c.City
  }

  /** Each of one supplier's matching customers paired with that supplier (Task/LinqSamples.cs:45). */
  function PairsWith(s: Supplier, matches: seq<Customer>): (r: seq<CustomerSupplier>)
    ensures |r| == |matches| && forall i :: 0 <= i < |r| ==> r[i] == CustomerSupplier(matches[i], s)
    ensures forall c, t :: CustomerSupplier(c, t) in r <==> t == s && c in matches
  {
    if |matches| == 0 then [] else [CustomerSupplier(matches[0], s)] + PairsWith(s, matches[1..])
  }

  /** The rows of one supplier: its co-located customers, in source order, each paired with it (Task/LinqSamples.cs:44-45). */
  function SupplierRows(customers: seq<Customer>): Supplier -> seq<CustomerSupplier> {
    s => PairsWith(s, Where(customers, SameCityAs(s)))
  }

  /**
   * Every (customer, supplier) pair in the same country and city, supplier
   * by supplier: a pair is listed exactly when both are in the dataset and
   * they share country and city.
   */
  function Linq2(customers: seq<Customer>, suppliers: seq<Supplier>): (r: seq<CustomerSupplier>)
    ensures forall c, s :: CustomerSupplier(c, s) in r <==>
              c in customers && s in suppliers && s.Country == c.Country && s.City == c.City
  {
    var r := SelectMany(suppliers, SupplierRows(customers));
    forall c, s
      ensures CustomerSupplier(c, s) in r <==>
              c in customers && s in suppliers && s.Country == c.Country && s.City == c.City
    {
      SelectManyMembers(suppliers, SupplierRows(customers), CustomerSupplier(c, s));
    }
    r
  }

  /** Rows come supplier-major: the rows for a list of suppliers are those of each part in turn. */
  lemma Linq2Append(customers: seq<Customer>, ss: seq<Supplier>, ts: seq<Supplier>)
    ensures Linq2(customers, ss + ts) == Linq2(customers, ss) + Linq2(customers, ts)
  {
    SelectManyAppend(ss, ts, SupplierRows(customers));
  }

  /** Under one supplier, the co-located customers appear once each, in source order. */
  lemma Linq2OneSupplier(customers: seq<Customer>, s: Supplier)
    ensures var r, m := Linq2(customers, [s]), Where(customers, SameCityAs(s));
            |r| == |m| && forall i :: 0 <= i < |r| ==> r[i].Supplier == s && r[i].Customer == m[i]
  {
    SelectManyOne(s, SupplierRows(customers));
  }

  // ------------------------------------------------------------------ Linq3

  /** Linq3's filter: some order of the customer is above `x` (Task/LinqSamples.cs:58). */
  function OrderAbove(x: int): Customer -> bool {
    (c: Customer) => Any(c.Orders, (o: Order) => o.Total > Units(x))
  }

  /** Customers with at least one order above `x`, in source order. */
  function Linq3(customers: seq<Customer>, x: int): (r: seq<Customer>)
    ensures forall c :: c in r <==>
              c in customers && exists i :: 0 <= i < |c.Orders| && c.Orders[i].Total > Units(x)
    ensures IsSubsequence(r, customers)
  {
    var all := Select(customers, (c: Customer) => c);
    assert all == customers;
    Where(all, OrderAbove(x))
  }

  /** With non-negative totals, a customer with one large order also has a large sum. */
  lemma Linq3WithinLinq1(customers: seq<Customer>, x: int)
    requires NonNegativeTotals(customers)
    ensures IsSubsequence(Linq3(customers, x), Linq1(customers, x))
  {
    forall c | c in customers && OrderAbove(x)(c)
      ensures TotalAbove(x)(c)
    {
      var i :| 0 <= i < |c.Orders| && c.Orders[i].Total > Units(x);
      assert forall j :: 0 <= j < |c.Orders| ==> c.Orders[j] in c.Orders;
      SumBounds(c.Orders, OrderTotal);
    }
    assert Select(customers, (c: Customer) => c) == customers;
    WhereMonotone(customers, OrderAbove(x), TotalAbove(x));
  }

  // ------------------------------------------------------------------ Linq4

  datatype CustomerStart = CustomerStart(Customer: string, StartDate: Date)

  /**
   * The first group of a customer's orders grouped by date, represented by
   * its key: the date of the first order in list order, whatever the other
   * dates (Task/LinqSamples.cs:74).
   */
  function StartDate(orders: seq<Order>): (d: Date)
    requires |orders| > 0
    ensures d == orders[0].OrderDate
  {
    var g := GroupBy(orders, OrderDateOf);
    DistinctHead(Select(orders, OrderDateOf));
    g[0].Key
  }

  /** One row per order of `c`, all alike. */
  function StartRows(c: Customer): (r: seq<CustomerStart>)
    ensures |r| == |c.Orders|
    ensures forall row :: row in r <==> |c.Orders| > 0 && row == StartRow(c)
  {
    if |c.Orders| == 0 then [] else SelectConst(c.Orders, StartRow(c))
  }

  function OrderCount(c: Customer): int {
    |c.Orders|
  }

  /**
   * One row per order of every customer, naming the customer and its start
   * date: there are as many rows as orders, and a row is listed exactly
   * when it is the row of a customer with orders.
   */
  function Linq4(customers: seq<Customer>): (r: seq<CustomerStart>)
    ensures |r| == Sum(customers, OrderCount)
    ensures forall row :: row in r <==>
              exists i :: 0 <= i < |customers| && |customers[i].Orders| > 0 && row == StartRow(customers[i])
  {
    var r := SelectMany(customers, StartRows);
    SelectManyCount(customers, StartRows, OrderCount);
    forall row
      ensures row in r <==>
              exists i :: 0 <= i < |customers| && |customers[i].Orders| > 0 && row == StartRow(customers[i])
    {
      SelectManyMembers(customers, StartRows, row);
    }
    r
  }

  /** The row every order of `c` contributes. */
  function StartRow(c: Customer): (row: CustomerStart)
    requires |c.Orders| > 0
    ensures row == CustomerStart(c.CompanyName, c.Orders[0].OrderDate)
  {
    CustomerStart(c.CompanyName, StartDate(c.Orders))
  }

  /** Rows come customer-major: the rows of a list of customers are those of each part in turn. */
  lemma Linq4Append(cs: seq<Customer>, ds: seq<Customer>)
    ensures Linq4(cs + ds) == Linq4(cs) + Linq4(ds)
  {
    SelectManyAppend(cs, ds, StartRows);
  }

  // ------------------------------------------------------------------ Linq5

  datatype CustomerRank = CustomerRank(Customer: Customer, StartYear: int, StartMonth: int, StartDay: int, TotalSum: Money)

  /** The first element of the first date group of the orders: the first order in list order (Task/LinqSamples.cs:92-94). */
  function FirstOrder(orders: seq<Order>): (o: Order)
    requires |orders| > 0
    ensures o == orders[0]
  {
    var g := GroupBy(orders, OrderDateOf);
    DistinctHead(Select(orders, OrderDateOf));
    assert orders == [orders[0]] + orders[1..];
    KeyFilterCons(orders[0], orders[1..], OrderDateOf, orders[0].OrderDate);
    g[0].Elements[0]
  }

  /** The row built for each order of `c` (Task/LinqSamples.cs:89-96). */
  function RankRow(c: Customer): (r: CustomerRank)
    requires |c.Orders| > 0
    ensures r.Customer == c && r.TotalSum == TotalSum(c.Orders)
    ensures var d := c.Orders[0].OrderDate; r.StartYear == d.Year && r.StartMonth == d.Month && r.StartDay == d.Day
  {
    var first := FirstOrder(c.Orders);
    CustomerRank(c, first.OrderDate.Year, first.OrderDate.Month, first.OrderDate.Day, TotalSum(c.Orders))
  }

  /** One row per order of `c`, all alike. */
  function RankRowsOf(c: Customer): (r: seq<CustomerRank>)
    ensures |r| == |c.Orders|
    ensures forall row :: row in r <==> |c.Orders| > 0 && row == RankRow(c)
  {
    if |c.Orders| == 0 then [] else SelectConst(c.Orders, RankRow(c))
  }

  /**
   * The rows before sorting, one per order (Task/LinqSamples.cs:88-96): a
   * row is listed exactly when it is the row of a listed customer with orders.
   */
  function RankRows(customers: seq<Customer>): (r: seq<CustomerRank>)
    ensures forall row :: row in r <==> row.Customer in customers && IsRankRow(row)
  {
    var r := SelectMany(customers, RankRowsOf);
    forall row
      ensures row in r <==> row.Customer in customers && IsRankRow(row)
    {
      SelectManyMembers(customers, RankRowsOf, row);
    }
    r
  }

  /** A row of its own customer, one that has orders. */
  ghost predicate IsRankRow(row: CustomerRank) {
    |row.Customer.Orders| > 0 && row == RankRow(row.Customer)
  }

  /** The sort key: start year, month and day, then the customer's order total (Task/LinqSamples.cs:97-100). */
  function RankKey(r: CustomerRank): seq<int> {
    [r.StartYear, r.StartMonth, r.StartDay, TotalSum(r.Customer.Orders)]
  }

  /** The fields the sort reads, as the row holds them. */
  function RankFields(r: CustomerRank): seq<int> {
    [r.StartYear, r.StartMonth, r.StartDay, r.TotalSum]
  }

  /**
   * The rows sorted by start year, month, day and total, each descending,
   * then Distinct: one row per customer that has orders, no row twice.
   */
  function Linq5(customers: seq<Customer>): (r: seq<CustomerRank>)
    ensures forall i, j :: 0 <= i < j < |r| ==> !LexLess(RankFields(r[i]), RankFields(r[j]))
    ensures NoDuplicates(r)
    ensures forall row :: row in r <==> row.Customer in customers && IsRankRow(row)
    ensures forall c :: c in customers && |c.Orders| > 0 ==> RankRow(c) in r
    ensures forall i, j :: 0 <= i < j < |r| ==> r[i].Customer != r[j].Customer
  {
    var rows := RankRows(customers);
    var sorted := OrderByDescending(rows, RankKey);
    var r := Distinct(sorted);
    DistinctSorted(sorted, RankKey);
    MultisetMembers(sorted, rows);
    Linq5Facts(customers, r);
    r
  }

  lemma Linq5Facts(customers: seq<Customer>, r: seq<CustomerRank>)
    requires SortedDescending(r, RankKey) && NoDuplicates(r)
    requires forall row :: row in r <==> row.Customer in customers && IsRankRow(row)
    ensures forall i, j :: 0 <= i < j < |r| ==> !LexLess(RankFields(r[i]), RankFields(r[j]))
    ensures forall c :: c in customers && |c.Orders| > 0 ==> RankRow(c) in r
    ensures forall i, j :: 0 <= i < j < |r| ==> r[i].Customer != r[j].Customer
  {
    assert forall i :: 0 <= i < |r| ==> r[i] in r;
    assert forall i :: 0 <= i < |r| ==> RankKey(r[i]) == RankFields(r[i]);
  }

  // ------------------------------------------------------------------ Linq6

  predicate IsNullOrEmpty(s: Option<string>) {
    s.None? || s.value == ""
  }

  /** char.IsDigit on the ASCII digits. */
  predicate IsDigit(ch: char) {
    '0' <= ch <= '9'
  }

  function NotDigit(ch: char): bool {
    !IsDigit(ch)
  }

  predicate StartsWith(s: string, prefix: string) {
    |prefix| <= |s| && s[..|prefix|] == prefix
  }

  /** No string starts with both "(" and ")". */
  lemma {:induction false} NotBothParentheses(s: string)
    ensures !StartsWith(s, "(") || !StartsWith(s, ")")
  {
    if StartsWith(s, "(") {
      assert s[0] == '(';
      assert s[..1] != ")";
    }
  }

  /**
   * The filter of Linq6 as written (Task/LinqSamples.cs:113-115): region
   * missing, a non-digit in the postal code, or either of two phone tests.
   * The phone tests cannot both fail, so every customer passes.
   */
  predicate HasDataIssue(c: Customer)
    ensures HasDataIssue(c)
  {
    NotBothParentheses(c.Phone);
    || IsNullOrEmpty(c.Region)
    || (c.PostalCode.Some? && Any(c.PostalCode.value, NotDigit))
    || !StartsWith(c.Phone, "(")
    || !StartsWith(c.Phone, ")")
  }

  function Linq6(customers: seq<Customer>): (r: seq<Customer>)
    ensures r == customers
  {
    WhereAll(customers, HasDataIssue);
    Where(customers, HasDataIssue)
  }

  // ------------------------------------------------------------------ Linq7

  datatype StockGroup = StockGroup(NumberInStock: Grouping<int, int>, Prices: seq<Grouping<Money, Money>>)

  datatype CategoryGroup = CategoryGroup(Category: string, Products: seq<StockGroup>)

  function CategoryOf(p: Product): string { p.Category }
  function StockOf(p: Product): int { p.UnitsInStock }
  function PriceOf(p: Product): Money { p.UnitPrice }

  /**
   * One category's view (Task/LinqSamples.cs:128-137): its distinct stock
   * levels in first-occurrence order, each holding the copies of its level
   * and each paired with the same price grouping, the distinct prices of the
   * whole category in first-occurrence order, which nothing sorts.
   */
  function CategoryView(x: Grouping<string, Product>): (v: CategoryGroup)
    ensures v.Category == x.Key
    ensures Select(v.Products, StockKey) == Distinct(Select(x.Elements, StockOf))
    ensures forall j :: 0 <= j < |v.Products| ==>
              v.Products[j].NumberInStock.Elements == KeyFilter(Select(x.Elements, StockOf), Identity, StockKey(v.Products[j]))
    ensures forall j :: 0 <= j < |v.Products| ==>
              v.Products[j].Prices == GroupBy(Select(x.Elements, PriceOf), Identity)
  {
    var stocks := Select(x.Elements, StockOf);
    var prices := GroupBy(Select(x.Elements, PriceOf), Identity);
    var g := GroupBy(stocks, Identity);
    StockGroupsOf(g, prices);
    SelectIdentity(stocks);
    assert GroupKeys(g) == Distinct(stocks);
    CategoryGroup(x.Key, Select(g, WithPrices(prices)))
  }

  /** Pairs one stock grouping with the category's price grouping (Task/LinqSamples.cs:132-136). */
  function WithPrices(prices: seq<Grouping<Money, Money>>): Grouping<int, int> -> StockGroup {
    stock => StockGroup(stock, prices)
  }

  /**
   * One view per distinct category, in first-occurrence order, each built
   * from exactly that category's products (Task/LinqSamples.cs:127-137).
   */
  function Linq7(products: seq<Product>): (r: seq<CategoryGroup>)
    ensures Select(r, CategoryName) == Distinct(Select(products, CategoryOf))
    ensures forall i :: 0 <= i < |r| ==>
              r[i] == CategoryView(Grouping(r[i].Category, KeyFilter(products, CategoryOf, r[i].Category)))
  {
    var g := GroupBy(products, CategoryOf);
    var r := Select(g, CategoryView);
    ViewsOf(g);
    forall i | 0 <= i < |r|
      ensures r[i] == CategoryView(Grouping(r[i].Category, KeyFilter(products, CategoryOf, r[i].Category)))
    {
      assert r[i].Category == g[i].Key;
      assert g[i] == Grouping(g[i].Key, KeyFilter(products, CategoryOf, g[i].Key));
    }
    r
  }

  function CategoryName(v: CategoryGroup): string { v.Category }
  function StockKey(g: StockGroup): int { g.NumberInStock.Key }

  lemma StockGroupsOf(g: seq<Grouping<int, int>>, prices: seq<Grouping<Money, Money>>)
    ensures var ps := Select(g, WithPrices(prices));
      && Select(ps, StockKey) == GroupKeys(g)
      && forall j :: 0 <= j < |ps| ==> ps[j] == StockGroup(g[j], prices)
  {
    var ps := Select(g, WithPrices(prices));
    assert forall j :: 0 <= j < |ps| ==> ps[j] == StockGroup(g[j], prices);
  }

  lemma ViewsOf(g: seq<Grouping<string, Product>>)
    ensures var r := Select(g, CategoryView);
      && Select(r, CategoryName) == GroupKeys(g)
      && forall i :: 0 <= i < |r| ==> r[i] == CategoryView(g[i])
  {
    var r := Select(g, CategoryView);
    assert forall i :: 0 <= i < |r| ==> Select(r, CategoryName)[i] == GroupKeys(g)[i];
  }

  // ------------------------------------------------------------------ Linq8

  /** The price tier of a product: up to 20, above 20 up to 60, or above 60 (Task/LinqSamples.cs:157-158). */
  function Tier(p: Product): (t: string)
    ensures t == "Cheap" <==> p.UnitPrice <= Units(20)
    ensures t == "Middle" <==> Units(20) < p.UnitPrice <= Units(60)
    ensures t == "High" <==> Units(60) < p.UnitPrice
  {
    if p.UnitPrice <= Units(20) then "Cheap"
    else if p.UnitPrice > Units(20) && p.UnitPrice <= Units(60) then "Middle"
    else "High"
  }

  /**
   * The products grouped by tier: the tiers are distinct, each group lists
   * exactly the products of its tier in source order, and together the
   * groups hold every product once.
   */
  function Linq8(products: seq<Product>): (r: seq<Grouping<string, Product>>)
    ensures NoDuplicates(GroupKeys(r))
    ensures forall i :: 0 <= i < |r| ==> IsSubsequence(r[i].Elements, products)
    ensures forall i, p :: 0 <= i < |r| ==> (p in r[i].Elements <==> p in products && Tier(p) == r[i].Key)
    ensures multiset(Flatten(r)) == multiset(products)
  {
    GroupByPermutation(products, Tier);
    GroupBy(products, Tier)
  }

  /** Only the three tier names occur as keys. */
  lemma Linq8Tiers(products: seq<Product>)
    ensures forall i :: 0 <= i < |Linq8(products)| ==>
              Linq8(products)[i].Key == "Cheap" || Linq8(products)[i].Key == "Middle" || Linq8(products)[i].Key == "High"
  {
    var r := Linq8(products);
    forall i | 0 <= i < |r|
      ensures r[i].Key == "Cheap" || r[i].Key == "Middle" || r[i].Key == "High"
    {
      assert r[i].Elements[0] in KeyFilter(products, Tier, r[i].Key);
    }
  }

  const Juice := Product("Juice", "Drinks", 10, Units(15))
  const Wine := Product("Wine", "Drinks", 5, Units(70))

  /** A 15 drink is Cheap and a 70 drink High, each alone in its tier. */
  lemma Linq8Example()
    ensures Linq8([Juice, Wine]) == [Grouping("Cheap", [Juice]), Grouping("High", [Wine])]
  {
    var r := Linq8([Juice, Wine]);
    Linq8ExampleKeys();
    Linq8ExampleElements();
    assert r[0].Key == GroupKeys(r)[0] && r[1].Key == GroupKeys(r)[1];
  }

  lemma Linq8ExampleKeys()
    ensures Distinct(Select([Juice, Wine], Tier)) == ["Cheap", "High"]
  {
    assert Select([Juice, Wine], Tier) == ["Cheap", "High"];
    assert ["Cheap", "High"][..1] == ["Cheap"] && ["Cheap"][..0] == [];
    assert Distinct(["Cheap"]) == ["Cheap"];
  }

  lemma Linq8ExampleElements()
    ensures KeyFilter([Juice, Wine], Tier, "Cheap") == [Juice]
    ensures KeyFilter([Juice, Wine], Tier, "High") == [Wine]
  {
    assert [Juice, Wine] == [Juice] + [Wine] && [Wine] == [Wine] + [];
    KeyFilterCons(Juice, [Wine], Tier, "Cheap");
    KeyFilterCons(Wine, [], Tier, "Cheap");
    KeyFilterCons(Juice, [Wine], Tier, "High");
    KeyFilterCons(Wine, [], Tier, "High");
  }

  // ------------------------------------------------------------------ Linq9

  /** The key (which the source names Customer) and the two averages of one city. */
  datatype CityStatistics = CityStatistics(City: string, AverageIncome: real, AverageIntensity: real)

  function CityOf(c: Customer): string { c.City }
  function CustomerTotal(c: Customer): int { TotalSum(c.Orders) }

  /** The row of one city: the averages are exact quotients by the number of its customers. */
  function CityRow(g: Grouping<string, Customer>): (row: CityStatistics)
    requires |g.Elements| > 0
    ensures row.City == g.Key
    ensures row.AverageIncome * (|g.Elements| as real) == Sum(g.Elements, CustomerTotal) as real
    ensures row.AverageIntensity * (|g.Elements| as real) == Sum(g.Elements, OrderCount) as real
  {
    CityStatistics(g.Key, Average(g.Elements, CustomerTotal), Average(g.Elements, OrderCount))
  }

  function CityRows(groups: seq<Grouping<string, Customer>>): (r: seq<CityStatistics>)
    requires forall i :: 0 <= i < |groups| ==> |groups[i].Elements| > 0
    ensures |r| == |groups| && forall i :: 0 <= i < |r| ==> r[i] == CityRow(groups[i])
  {
    if |groups| == 0 then [] else [CityRow(groups[0])] + CityRows(groups[1..])
  }

  /**
   * One row per distinct city, in first-occurrence order, whose averages
   * are taken over exactly the customers of that city: the mean order total
   * and the mean order count (Task/LinqSamples.cs:175-181).
   */
  function Linq9(customers: seq<Customer>): (r: seq<CityStatistics>)
    ensures Select(r, CityName) == Distinct(Select(customers, CityOf))
    ensures forall i :: 0 <= i < |r| ==>
              var g := KeyFilter(customers, CityOf, r[i].City);
              && |g| > 0
              && r[i].AverageIncome == Average(g, CustomerTotal)
              && r[i].AverageIntensity == Average(g, OrderCount)
  {
    var groups := GroupBy(customers, CityOf);
    CityRowsNames(groups);
    CityRows(groups)
  }

  function CityName(row: CityStatistics): string { row.City }

  lemma CityRowsNames(groups: seq<Grouping<string, Customer>>)
    requires forall i :: 0 <= i < |groups| ==> |groups[i].Elements| > 0
    ensures Select(CityRows(groups), CityName) == GroupKeys(groups)
  {
    var r := CityRows(groups);
    assert forall i :: 0 <= i < |r| ==> Select(r, CityName)[i] == GroupKeys(groups)[i];
  }

  // ----------------------------------------------------------------- Linq10

  datatype YearMonth = YearMonth(year: int, month: int)

  /** A group's key with the number of its orders (Task/LinqSamples.cs:198-202). */
  datatype KeyCount<K> = KeyCount(Key: K, OrdersCount: int)

  datatype CustomerStatistics = CustomerStatistics(
    CompanyName: string,
    MonthStatistics: seq<KeyCount<int>>,
    YearStatistics: seq<KeyCount<int>>,
    YearMonthStatistics: seq<KeyCount<YearMonth>>)

  function MonthOf(o: Order): int { o.OrderDate.Month }
  function YearOf(o: Order): int { o.OrderDate.Year }
  function YearMonthOf(o: Order): YearMonth { YearMonth(o.OrderDate.Year, o.OrderDate.Month) }

  function CountOf<K>(g: Grouping<K, Order>): KeyCount<K> {
    KeyCount(g.Key, |g.Elements|)
  }

  function OrdersCountOf<K>(k: KeyCount<K>): int {
    k.OrdersCount
  }

  function KeyOf<K>(k: KeyCount<K>): K { k.Key }

  /**
   * The orders grouped by `key`, each group reduced to its key and count
   * (Task/LinqSamples.cs:197-202): the keys are the distinct keys of the
   * orders in first-occurrence order, each count is the number of orders
   * with that key, and the counts add up to the number of orders.
   */
  function CountBy<K(==,!new)>(orders: seq<Order>, key: Order -> K): (r: seq<KeyCount<K>>)
    ensures Select(r, KeyOf) == Distinct(Select(orders, key))
    ensures forall i :: 0 <= i < |r| ==> r[i].OrdersCount == multiset(Select(orders, key))[r[i].Key]
    ensures Sum(r, OrdersCountOf) == |orders|
  {
    var g := GroupBy(orders, key);
    var r := Select(g, CountOf);
    assert forall i :: 0 <= i < |r| ==> r[i].Key == g[i].Key == GroupKeys(g)[i];
    assert Select(r, KeyOf) == GroupKeys(g);
    forall i | 0 <= i < |r|
      ensures r[i].OrdersCount == multiset(Select(orders, key))[r[i].Key]
    {
      KeyFilterCount(orders, key, g[i].Key);
    }
    CountSum(g);
    GroupBySizes(orders, key);
    r
  }

  lemma {:induction false} CountSum<K>(g: seq<Grouping<K, Order>>)
    ensures Sum(Select(g, CountOf), OrdersCountOf) == Sum(g, Size)
  {
    if |g| > 0 {
      CountSum(g[1..]);
      assert Select(g, CountOf)[1..] == Select(g[1..], CountOf);
    }
  }

  /**
   * One customer's statistics (Task/LinqSamples.cs:194-216): its name and
   * the month, year and year-month breakdowns of its orders, each listing
   * the distinct keys in first-occurrence order with the number of orders
   * that have the key, the counts adding up to the number of orders.
   */
  function Statistics(c: Customer): (s: CustomerStatistics)
    ensures s.CompanyName == c.CompanyName
    ensures Select(s.MonthStatistics, KeyOf) == Distinct(Select(c.Orders, MonthOf))
    ensures Select(s.YearStatistics, KeyOf) == Distinct(Select(c.Orders, YearOf))
    ensures Select(s.YearMonthStatistics, KeyOf) == Distinct(Select(c.Orders, YearMonthOf))
    ensures Sum(s.MonthStatistics, OrdersCountOf) == |c.Orders|
    ensures Sum(s.YearStatistics, OrdersCountOf) == |c.Orders|
    ensures Sum(s.YearMonthStatistics, OrdersCountOf) == |c.Orders|
    ensures forall j :: 0 <= j < |s.MonthStatistics| ==>
              s.MonthStatistics[j].OrdersCount == multiset(Select(c.Orders, MonthOf))[s.MonthStatistics[j].Key]
    ensures forall j :: 0 <= j < |s.YearStatistics| ==>
              s.YearStatistics[j].OrdersCount == multiset(Select(c.Orders, YearOf))[s.YearStatistics[j].Key]
    ensures forall j :: 0 <= j < |s.YearMonthStatistics| ==>
              s.YearMonthStatistics[j].OrdersCount == multiset(Select(c.Orders, YearMonthOf))[s.YearMonthStatistics[j].Key]
  {
    CustomerStatistics(c.CompanyName, CountBy(c.Orders, MonthOf), CountBy(c.Orders, YearOf), CountBy(c.Orders, YearMonthOf))
  }

  /** One statistics row per customer, in order. */
  function Linq10(customers: seq<Customer>): (r: seq<CustomerStatistics>)
    ensures |r| == |customers|
    ensures forall i :: 0 <= i < |r| ==> r[i] == Statistics(customers[i])
  {
    Select(customers, Statistics)
  }
}
