/**
 * The records of the sample dataset: orders (Task/Data/Order.cs) and the
 * customers, products and suppliers the queries read. Every record is an
 * immutable value; nothing in the queries updates one.
 */
module Data {
  import opened Linq

  datatype Option<T> = None | Some(value: T)

  /** A .NET `decimal` amount, held exactly as a whole number of ten-thousandths. */
  type Money = int

  const Scale: int := 10000

  /** An `int` operand compared with a `decimal`, as C# widens it. */
  function Units(n: int): (m: Money)
    ensures m / Scale == n && m % Scale == 0
  {
    n * Scale
  }

  type Int32 = x: int | -0x8000_0000 <= x < 0x8000_0000

  /** The calendar part of a `DateTime`. */
  datatype Date = Date(Year: int, Month: int, Day: int)

  /** The argument of `CompareTo`: null, an Order, or any other object. */
  datatype Operand = Null | AnOrder(order: Order) | NotAnOrder

  /** Int32.CompareTo: -1, 0 or 1 as `a` is less than, equal to or greater than `b`. */
  function CompareInt(a: int, b: int): (r: int)
    ensures r == -1 || r == 0 || r == 1
    ensures r < 0 <==> a < b
    ensures r == 0 <==> a == b
    ensures r > 0 <==> a > b
  {
    if a < b then -1 else if a > b then 1 else 0
  }

  function Sign(n: int): int {
    if n < 0 then -1 else if n > 0 then 1 else 0
  }

  datatype Order = Order(OrderID: Int32, OrderDate: Date, Total: Money) {

    /**
     * IComparable.CompareTo. A null argument compares below every order;
     * otherwise orders compare by OrderID alone. Any other object fails the
     * cast to Order and the OrderID read throws, so callers must not pass
     * one (Task/Data/Order.cs:14-19).
     */
    function CompareTo(obj: Operand): (r: int)
      requires !obj.NotAnOrder?
      ensures obj.Null? ==> r == 1
      ensures obj.AnOrder? ==> Sign(r) == Sign(OrderID - obj.order.OrderID)
    {
      match obj
      case Null => 1
      case AnOrder(other) => CompareInt(OrderID, other.OrderID)
    }
  }

  /** Reversing the operands reverses the sign of the comparison. */
  lemma CompareToAntisymmetric(a: Order, b: Order)
    ensures Sign(a.CompareTo(AnOrder(b))) == -Sign(b.CompareTo(AnOrder(a)))
    ensures a.CompareTo(AnOrder(b)) == 0 <==> a.OrderID == b.OrderID
  {
  }

  /** "Compares at or below" is transitive, and strictly below too. */
  lemma CompareToTransitive(a: Order, b: Order, c: Order)
    ensures a.CompareTo(AnOrder(b)) <= 0 && b.CompareTo(AnOrder(c)) <= 0 ==> a.CompareTo(AnOrder(c)) <= 0
    ensures a.CompareTo(AnOrder(b)) < 0 && b.CompareTo(AnOrder(c)) < 0 ==> a.CompareTo(AnOrder(c)) < 0
  {
  }

  /** Only the OrderIDs take part: the date and the total never affect the result. */
  lemma CompareToByIdOnly(a: Order, a': Order, b: Order, b': Order)
    requires a.OrderID == a'.OrderID && b.OrderID == b'.OrderID
    ensures a.CompareTo(AnOrder(b)) == a'.CompareTo(AnOrder(b'))
  {
  }

  /** The comparison is a total preorder on orders. */
  lemma CompareToTotalPreorder(a: Order, b: Order)
    ensures a.CompareTo(AnOrder(a)) == 0
    ensures a.CompareTo(AnOrder(b)) <= 0 || b.CompareTo(AnOrder(a)) <= 0
  {
  }

  function OrderTotal(o: Order): int {
    o.Total
  }

  function OrderDateOf(o: Order): Date {
    o.OrderDate
  }

  /** The turnover of a list of orders: the sum of their totals (Task/LinqSamples.cs:31). */
  function TotalSum(orders: seq<Order>): Money {
    Sum(orders, OrderTotal)
  }

  /**
   * A customer. CustomerID stands for the object's identity, which C#
   * compares when anonymous rows holding a customer are compared.
   * Region and PostalCode may be null.
   */
  datatype Customer = Customer(
    CustomerID: string,
    CompanyName: string,
    Country: string,
    City: string,
    Region: Option<string>,
    PostalCode: Option<string>,
    Phone: string,
    Orders: seq<Order>)

  datatype Product = Product(ProductName: string, Category: string, UnitsInStock: int, UnitPrice: Money)

  datatype Supplier = Supplier(SupplierName: string, Country: string, City: string)

  /** Totals are non-negative amounts. */
  ghost predicate NonNegativeTotals(customers: seq<Customer>) {
    forall c, o :: c in customers && o in c.Orders ==> o.Total >= 0
  }
}
