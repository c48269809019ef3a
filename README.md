# LINQ sample queries, modelled in Dafny

This project models the ten query routines of `Task/LinqSamples.cs`
(Linq1 to Linq10) and the `Order` record of `Task/Data/Order.cs`, and
proves what each query returns. Each routine builds a LINQ view over the
sample dataset (customers with their orders, products, suppliers) and prints
it. Each view becomes a pure Dafny function of the dataset, which is passed in
as sequences.

Files:

- `linq.dfy` (module `Linq`): the LINQ-to-Objects operators the queries use,
  with the .NET semantics the queries depend on.
  - `Where` keeps source order.
  - `Select` and `SelectMany` are written out.
  - `Sum` is exact; `Average` is the exact quotient.
  - `Distinct` keeps first occurrences, in order.
  - `GroupBy` yields its keys in order of first occurrence. Each group holds
    its elements in source order.
  - `OrderByDescending` followed by `ThenByDescending` is one stable sort on a
    lexicographic key.
- `data.dfy` (module `Data`): the records. `Order` carries
  `CompareTo`. `decimal` amounts are whole numbers of ten-thousandths
  (`Money`). A C# `int` compared with a `decimal` is widened with `Units`.
- `queries.dfy` (module `LinqSamples`): Linq1 to Linq10 as written, each with
  the lemmas that say what its view contains.
- `findings.dfy` (module `Findings`): four places where a query does not do
  what its description asks. Each has a counterexample for the code as
  written and a corrected query with the intended property proved.

Where a query's description and its code differ, the model follows the code:

- Linq4 and Linq5 take the date of the *first order in list order*. The
  description asks for the earliest order.
- Linq5 sorts by year, month, day and turnover. The description also asks
  for a sort by name, which the code does not do.
- Linq6's phone test is as written. It can never fail (see Findings).
- Linq1 assigns the result of `Where` to a `List<Customer>`, which C# does
  not accept without `ToList()`. The model takes the view `Where` produces.

## Model

| member | source | states |
|---|---|---|
| Linq.Where | Task/LinqSamples.cs:31 | the result is a subsequence of the source (order kept) holding exactly the elements that satisfy the predicate |
| Linq.WhereMultiset | Task/LinqSamples.cs:31 | each kept element keeps all its occurrences, and rejected ones keep none |
| Linq.WhereCons | Task/LinqSamples.cs:44 | filtering a list with a head added is filtering the head, then the rest |
| Linq.WhereAll | Task/LinqSamples.cs:113-115 | a filter that every element passes returns its input unchanged |
| Linq.WhereMonotone | Task/LinqSamples.cs:31 | a stronger filter keeps a subsequence of what a weaker one keeps |
| Linq.Select | Task/LinqSamples.cs:58 | one output per input, each the selector applied to the input at the same position |
| Linq.SelectConst | Task/LinqSamples.cs:70-75 | a selector that ignores its argument gives one copy of its value per element and nothing else |
| Linq.SelectIdentity | Task/LinqSamples.cs:131 | selecting `m => m` returns the sequence unchanged |
| Linq.SelectHas | Task/LinqSamples.cs:127 | the image of a member is in the selected sequence |
| Linq.SelectMany | Task/LinqSamples.cs:43-45 | SelectMany as .NET enumerates it: the sequences of the elements, one after another; what it yields is stated by SelectManyOne, SelectManyAppend, SelectManyMembers and SelectManyCount |
| Linq.SelectManyOne | Task/LinqSamples.cs:43-45 | SelectMany over one element is that element's sequence |
| Linq.SelectManyAppend | Task/LinqSamples.cs:43-45 | SelectMany over a concatenation is the concatenation of the parts' results, so outputs come in input order |
| Linq.SelectManyMembers | Task/LinqSamples.cs:43-45 | an output occurs exactly when it occurs in the sequence of some input element |
| Linq.SelectManyCount | Task/LinqSamples.cs:70-75 | when every element contributes as many outputs as a count function says, the output length is the sum of the counts |
| Linq.Any | Task/LinqSamples.cs:58 | true exactly when some element satisfies the predicate |
| Linq.Sum | Task/LinqSamples.cs:31 | Sum with a selector over exact integers, term by term in source order; its properties are SumBounds and SumAppend |
| Linq.SumBounds | Task/LinqSamples.cs:31 | with no negative terms, the sum is non-negative and at least each term |
| Linq.SumAppend | Task/LinqSamples.cs:31 | the sum over a concatenation is the sum of the sums |
| Linq.Average | Task/LinqSamples.cs:179-180 | the average times the count is the sum; defined on non-empty input only, since .NET throws on empty input |
| Linq.Quotient | Task/LinqSamples.cs:179-180 | the quotient times the divisor is the dividend |
| Linq.MultisetMembers | Task/LinqSamples.cs:97-100 | sequences that are permutations of each other have the same members |
| Linq.FirstIndex | Task/LinqSamples.cs:100 | the position holds the element and no earlier position does |
| Linq.FirstIndexUnique | Task/LinqSamples.cs:100 | those three facts determine the first position |
| Linq.FirstIndexExtend | Task/LinqSamples.cs:100 | appending an element moves no earlier first occurrence; a new element's first position is the old length |
| Linq.Distinct | Task/LinqSamples.cs:100 | no duplicates, the same members as the source, and members in order of their first occurrence in the source |
| Linq.DistinctHead | Task/LinqSamples.cs:74 | the first distinct element is the source's first element |
| Linq.KeyFilter | Task/LinqSamples.cs:127 | a group's elements: a subsequence of the source holding exactly the elements with that key |
| Linq.KeyFilterCons | Task/LinqSamples.cs:127 | the group of a list with a head added is the head (if its key matches), then the rest's group |
| Linq.KeyFilterCount | Task/LinqSamples.cs:201 | a group's size is the number of occurrences of its key among the source's keys |
| Linq.GroupsOf | Task/LinqSamples.cs:127 | one group per key listed, holding that key's elements |
| Linq.GroupKeys | Task/LinqSamples.cs:130 | the keys of the groups, position by position |
| Linq.GroupsOfKeys | Task/LinqSamples.cs:127 | the groups built for a key list carry exactly those keys |
| Linq.FlattenSize | Task/LinqSamples.cs:201 | the group sizes add up to the length of the concatenated groups |
| Linq.FlattenGroups | Task/LinqSamples.cs:127 | with distinct keys, the concatenated groups hold each element as often as the source does if its key is listed, else never |
| Linq.GroupBy | Task/LinqSamples.cs:127 | the keys are the distinct keys of the source in first-occurrence order; each group holds the source's elements with its key in source order; no group is empty |
| Linq.GroupByPermutation | Task/LinqSamples.cs:157-158 | together the groups are a permutation of the source |
| Linq.GroupsPermutation | Task/LinqSamples.cs:157-158 | groups over a duplicate-free key list that covers every element form a permutation of the source |
| Linq.GroupsNonEmpty | Task/LinqSamples.cs:127 | the group of a key that occurs in the source is not empty |
| Linq.GroupsCover | Task/LinqSamples.cs:127 | a key list that holds every key of the source holds the key of every element |
| Linq.GroupByPartition | Task/LinqSamples.cs:157-158 | every element lies in exactly one group, the one with its key |
| Linq.GroupBySizes | Task/LinqSamples.cs:201 | the group sizes add up to the length of the source |
| Linq.LexLessIrreflexive | Task/LinqSamples.cs:97-100 | no sort key is below itself |
| Linq.LexLessTransitive | Task/LinqSamples.cs:97-100 | the order on sort keys is transitive |
| Linq.LexLessTotal | Task/LinqSamples.cs:97-100 | any two keys are equal or one is below the other |
| Linq.LexLessAsymmetric | Task/LinqSamples.cs:97-100 | no two keys are each below the other |
| Linq.NotLessTransitive | Task/LinqSamples.cs:97-100 | "not below" is transitive, so the keys form a total preorder |
| Linq.InsertDescending | Task/LinqSamples.cs:97-100 | inserting into a sorted list keeps it sorted, is a permutation, and keeps the relative order of equal keys |
| Linq.InsertFirstSorted | Task/LinqSamples.cs:97-100 | an element whose key is not below the head's can go first |
| Linq.InsertLaterSorted | Task/LinqSamples.cs:97-100 | the head stays first when the new element's key is below it |
| Linq.InsertLaterStable | Task/LinqSamples.cs:97-100 | that insertion keeps the order among equal keys |
| Linq.OrderByDescending | Task/LinqSamples.cs:97-100 | sorted by descending key, a permutation of the source, and stable: elements with equal keys keep their source order |
| Linq.OrderStable | Task/LinqSamples.cs:97-100 | inserting the head into a stably sorted tail gives a stable sort of the whole |
| Linq.DistinctSorted | Task/LinqSamples.cs:100 | Distinct of a sorted list is still sorted |
| Data.Units | Task/LinqSamples.cs:29 | an `int` widened to a `decimal` is a whole amount with that many units |
| Data.TotalSum | Task/LinqSamples.cs:31 | a customer's turnover: the sum of its orders' totals, the Sum lemmas applying |
| Data.CompareInt | Task/Data/Order.cs:18 | Int32.CompareTo: -1, 0 or 1, negative, zero or positive exactly as the first is less, equal or greater |
| Data.Order.CompareTo | Task/Data/Order.cs:14-19 | null compares as 1; another order compares by the sign of the OrderID difference; any other object is excluded |
| Data.CompareToAntisymmetric | Task/Data/Order.cs:17-18 | swapping the operands negates the sign; zero exactly when the OrderIDs are equal |
| Data.CompareToTransitive | Task/Data/Order.cs:17-18 | at-or-below and strictly-below are transitive |
| Data.CompareToByIdOnly | Task/Data/Order.cs:18 | the date and the total never affect the comparison |
| Data.CompareToTotalPreorder | Task/Data/Order.cs:17-18 | every order compares equal to itself and any two are comparable |
| LinqSamples.Linq1 | Task/LinqSamples.cs:29-31 | exactly the customers whose order totals sum to more than X, in source order |
| LinqSamples.Linq1Monotone | Task/LinqSamples.cs:29-31 | raising X keeps a subsequence of the customers listed before |
| LinqSamples.Linq1Example | Task/LinqSamples.cs:29-31 | a customer with orders of 100 and 50 is listed for X = 120 but not for X = 200 |
| LinqSamples.PairsWith | Task/LinqSamples.cs:45 | each matching customer is paired with the supplier, in order, and no other pair is made |
| LinqSamples.Linq2 | Task/LinqSamples.cs:43-45 | a (customer, supplier) pair is listed exactly when both are in the dataset and share country and city |
| LinqSamples.Linq2Append | Task/LinqSamples.cs:43-45 | rows come supplier by supplier, in supplier order |
| LinqSamples.Linq2OneSupplier | Task/LinqSamples.cs:43-45 | under one supplier, the co-located customers appear once each, in source order |
| LinqSamples.Linq3 | Task/LinqSamples.cs:57-58 | exactly the customers with some order above X, in source order |
| LinqSamples.Linq3WithinLinq1 | Task/LinqSamples.cs:57-58 | with non-negative totals, every Linq3 customer is a Linq1 customer, in the same order |
| LinqSamples.StartDate | Task/LinqSamples.cs:74 | the first group's key is the date of the first order in list order |
| LinqSamples.StartRows | Task/LinqSamples.cs:70-75 | one row per order of the customer, all equal to its start row |
| LinqSamples.StartRow | Task/LinqSamples.cs:71-75 | the row holds the company name and the first order's date |
| LinqSamples.Linq4 | Task/LinqSamples.cs:70-75 | there are as many rows as orders in the dataset, and a row is listed exactly when it is the start row of a customer with orders |
| LinqSamples.Linq4Append | Task/LinqSamples.cs:70-75 | rows come customer by customer, in customer order |
| LinqSamples.FirstOrder | Task/LinqSamples.cs:92-94 | the first element of the first date group is the first order |
| LinqSamples.RankRow | Task/LinqSamples.cs:89-96 | the row holds the customer, its order total, and the year, month and day of its first order |
| LinqSamples.RankRowsOf | Task/LinqSamples.cs:88-96 | one row per order of the customer; a customer with orders contributes only its rank row, one without contributes nothing |
| LinqSamples.RankRows | Task/LinqSamples.cs:88-96 | the rows before sorting are exactly the rank rows of the dataset's customers with orders |
| LinqSamples.Linq5 | Task/LinqSamples.cs:88-100 | sorted by (year, month, day, total), each descending; no duplicates; exactly one row per customer with orders, and no row for anything else |
| LinqSamples.Linq5Facts | Task/LinqSamples.cs:97-100 | a sorted, duplicate-free list of rank rows lists each customer once, every customer with orders included, sorted on the fields the rows hold |
| LinqSamples.NotBothParentheses | Task/LinqSamples.cs:115 | no phone starts with both "(" and ")" |
| LinqSamples.HasDataIssue | Task/LinqSamples.cs:113-115 | the filter as written (missing region, non-digit postal code, or either phone test) holds for every customer |
| LinqSamples.Linq6 | Task/LinqSamples.cs:113-115 | the filter as written returns every customer, in order |
| LinqSamples.CategoryView | Task/LinqSamples.cs:128-137 | a category's view is named by the category; its stock groups are the category's distinct stock levels in first-occurrence order, each holding the copies of its level; every stock group carries the same, unsorted grouping of the whole category's distinct prices |
| LinqSamples.StockGroupsOf | Task/LinqSamples.cs:132-136 | each stock group pairs one stock grouping with the category's price list |
| LinqSamples.Linq7 | Task/LinqSamples.cs:127-137 | one view per distinct category, in first-occurrence order, each built from exactly that category's products |
| LinqSamples.ViewsOf | Task/LinqSamples.cs:128-137 | one view per group, named by the group's key |
| LinqSamples.Tier | Task/LinqSamples.cs:157-158 | "Cheap" exactly at prices up to 20, "Middle" exactly above 20 and up to 60, "High" exactly above 60 |
| LinqSamples.Linq8 | Task/LinqSamples.cs:157-158 | the tiers are distinct; each group is a subsequence of the products holding exactly those of its tier; the groups together are a permutation of the products |
| LinqSamples.Linq8Tiers | Task/LinqSamples.cs:157-158 | only the three tier names occur as keys |
| LinqSamples.Linq8Example | Task/LinqSamples.cs:157-158 | a 15 product alone forms "Cheap" and a 70 product alone forms "High", in that order |
| LinqSamples.Linq8ExampleKeys | Task/LinqSamples.cs:157-158 | the sample's distinct tiers are "Cheap" then "High" |
| LinqSamples.Linq8ExampleElements | Task/LinqSamples.cs:157-158 | the sample's "Cheap" and "High" groups hold one product each |
| LinqSamples.CityRow | Task/LinqSamples.cs:176-181 | the row is named by the city; each average times the number of customers is the sum of order totals or order counts |
| LinqSamples.CityRows | Task/LinqSamples.cs:175-181 | one row per city group, in group order |
| LinqSamples.Linq9 | Task/LinqSamples.cs:175-181 | one row per distinct city, in first-occurrence order; each city's averages are taken over exactly the customers of that city: the mean order total and the mean order count |
| LinqSamples.CityRowsNames | Task/LinqSamples.cs:175-181 | the rows' names are the groups' keys |
| LinqSamples.Linq10 | Task/LinqSamples.cs:194-216 | one statistics row per customer, in order |
| LinqSamples.CountBy | Task/LinqSamples.cs:197-215 | the keys are the distinct keys of the orders in first-occurrence order; each count is the number of orders with that key; the counts add up to the number of orders |
| LinqSamples.CountSum | Task/LinqSamples.cs:201 | the counts add up to the group sizes |
| LinqSamples.Statistics | Task/LinqSamples.cs:194-216 | a customer's row carries its name, and its month, year and year-month breakdowns each list the distinct keys in first-occurrence order with the number of orders per key, the counts adding up to the number of orders |
| Findings.EarliestDate | Task/LinqSamples.cs:67 | the date of some order, with no order strictly earlier |
| Findings.StartDateNotEarliest | Task/LinqSamples.cs:74 | orders listed 1998-05-06 then 1997-01-02 give 1998-05-06 as start date, while the earliest is 1997-01-02 |
| Findings.EarliestRow | Task/LinqSamples.cs:67 | the row names the customer and carries the date of one of its orders, with no order dated earlier |
| Findings.EarliestRows | Task/LinqSamples.cs:67 | one row for a customer with orders, none for one without |
| Findings.EarliestRowsOf | Task/LinqSamples.cs:67 | the rows the customers contribute are one per customer with orders, in source order, each its earliest row |
| Findings.Linq4Earliest | Task/LinqSamples.cs:67 | the corrected Linq4 lists each customer with orders once, in source order, with its earliest order date |
| Findings.Linq4RepeatsCustomer | Task/LinqSamples.cs:70-75 | as written, a customer with two orders is listed twice with the same row |
| Findings.Linq4EarliestOnce | Task/LinqSamples.cs:70-75 | corrected, that customer is listed once |
| Findings.StartsWithParenthesis | Task/LinqSamples.cs:110 | a phone starts with "(" exactly when its first character is '(' |
| Findings.HasDataIssueIntended | Task/LinqSamples.cs:109-110 | the described filter holds exactly for a missing or empty region, a postal code with a non-digit, or a phone not starting with '(' |
| Findings.Linq6Intended | Task/LinqSamples.cs:109-110 | corrected, exactly the customers with no region, a non-digit in the postal code, or a phone not starting with "(", in source order |
| Findings.Linq6ReportsComplete | Task/LinqSamples.cs:113-115 | a customer with region, numeric postal code and phone "(171) 555-7788" is reported as written but not when corrected |
| Findings.SortedLevel | Task/LinqSamples.cs:124 | a stock level keeps its key; its products are a permutation of the level's products, sorted by ascending price |
| Findings.CategoryStocks | Task/LinqSamples.cs:124 | corrected, a category's stock levels are its distinct stock values in first-occurrence order, each holding exactly the category's products of that level, cheapest first |
| Findings.Linq7Intended | Task/LinqSamples.cs:124 | corrected, one entry per distinct category, in first-occurrence order, each built from exactly that category's products |
| Findings.StocksOf | Task/LinqSamples.cs:124 | one corrected entry per category group, named by the group's key |
| Findings.Linq7PricesNotPerLevel | Task/LinqSamples.cs:131-135 | as written, Cola (level 1, price 5) and Tea (level 2, price 3) give level 1 the price list [5, 3]: it includes Tea's price and is unsorted |
| Findings.Linq7IntendedLevel | Task/LinqSamples.cs:124 | corrected, level 1 holds Cola alone |

## Left out

- Printing: the `foreach` loops and `Console.WriteLine` format strings (including the `##.###` number format) are I/O. The model returns the view a routine prints.
- The `DataSource` that loads the dataset is not part of this model. Customers, products and suppliers are parameters.
- The sample-harness attributes and the `SampleHarness` base class only register the routines for display.
- Linq.Average: both averages of Linq9 are exact `real` quotients here. AveragIntensity (Task/LinqSamples.cs:180) uses the `int` overload, whose `double` result is rounded to binary floating point. AverageIncome (Task/LinqSamples.cs:179) uses the `decimal` overload, whose result is rounded to 28-29 significant digits (100 over 3 customers gives 33.333333333333333333333333333). Neither rounding is modelled, so CityRow's `average * count == sum` holds here but not always in .NET.
- Data.Money: `decimal` is modelled as exact integers of ten-thousandths. Neither `decimal` overflow nor precision beyond four decimal places is modelled.
- Data.Date: `DateTime` keeps only year, month and day. The time of day never matters to the queries.
- Data.Order.CompareTo: an argument that is neither null nor an `Order` throws `NullReferenceException` in the source. Here it is excluded by the precondition.
- LinqSamples.IsDigit: `char.IsDigit` also accepts non-ASCII decimal digits. The model accepts only '0' to '9'.
- LinqSamples.HasDataIssue: a null `Phone` would throw. The model has no null phones, since only `Region` and `PostalCode` may be null.
- LinqSamples.Linq1: the threshold 6520 hard-coded at Task/LinqSamples.cs:29 and :57 is a parameter, so the queries are stated for every X.
- LinqSamples.Linq2: the description also asks for a variant "with grouping". The code has no such variant, so none is modelled.
- LinqSamples.StartDate: Linq4 prints the whole first `IGrouping` through `ToString`. The model keeps the group's key, the date.
- LinqSamples.Linq5: anonymous-type equality in `Distinct` compares the `Customer` reference. Here customers are values, so two customers with identical fields count as one. The model also does not say which of several equal rows the sort puts first.
- Object identity and aliasing: records are immutable values, and nothing in the queries updates one.

## Findings

| source | as written | input that shows it | evidently intended | confidence | as-written member | corrected member |
|---|---|---|---|---|---|---|
| Task/LinqSamples.cs:74 | the first group of the orders grouped by date is that of the first order in list order, here and in Linq5 (lines 92-94) | orders dated 1998-05-06 then 1997-01-02 | the date of the earliest order (Linq4 and Linq5 descriptions, lines 67 and 84) | high; not executed | Findings.StartDateNotEarliest | Findings.EarliestDate |
| Task/LinqSamples.cs:70-75 | `SelectMany(c => c.Orders, …)` emits one identical row per order | a customer with two orders gets two equal rows | one row per customer with orders | high; not executed | Findings.Linq4RepeatsCustomer | Findings.Linq4Earliest |
| Task/LinqSamples.cs:115 | `!Phone.StartsWith("(") \|\| !Phone.StartsWith(")")` is true for every phone | region "Essex", postal code "12345", phone "(171) 555-7788" is reported | report only phones that do not start with "(" (line 110) | high; not executed | Findings.Linq6ReportsComplete | Findings.Linq6Intended |
| Task/LinqSamples.cs:135 | `Prices = x.Select(n => n.UnitPrice).GroupBy(n => n)` groups the whole category's prices, unsorted, under every stock level | Cola (stock 1, price 5) and Tea (stock 2, price 3): level 1 lists prices [5, 3] | each stock level's own products, sorted by price (line 124) | high; not executed | Findings.Linq7PricesNotPerLevel | Findings.CategoryStocks |
