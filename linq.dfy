/**
 * The LINQ to Objects operators that the sample queries are built from,
 * as pure functions over sequences. Each keeps order the way the .NET
 * operator does: Where keeps source order, Distinct and GroupBy list keys
 * in order of first occurrence with each group's elements in source order,
 * and OrderByDescending is a stable sort.
 */
module Linq {

  /** `a` is `b` with some elements left out and the rest in the same order. */
  ghost predicate IsSubsequence<T>(a: seq<T>, b: seq<T>)
    decreases |b|
  {
    if |a| == 0 then true
    else if |b| == 0 then false
    else (a[0] == b[0] && IsSubsequence(a[1..], b[1..])) || IsSubsequence(a, b[1..])
  }

  ghost predicate NoDuplicates<T>(s: seq<T>) {
    forall i, j :: 0 <= i < j < |s| ==> s[i] != s[j]
  }

  // ---------------------------------------------------------------- Where

  /** Enumerable.Where: the elements satisfying `p`, all of them, in source order. */
  function Where<T(==,!new)>(s: seq<T>, p: T -> bool): (r: seq<T>)
    ensures IsSubsequence(r, s)
    ensures forall x :: x in r <==> x in s && p(x)
  {
    if |s| == 0 then []
    else
      var rest := Where(s[1..], p);
      assert s == [s[0]] + s[1..];
      if p(s[0]) then [s[0]] + rest else rest
  }

  /** Where keeps every occurrence of each element it keeps. */
  lemma {:induction false} WhereMultiset<T(!new)>(s: seq<T>, p: T -> bool)
    ensures forall x :: multiset(Where(s, p))[x] == if p(x) then multiset(s)[x] else 0
  {
    if |s| > 0 {
      WhereMultiset(s[1..], p);
      assert s == [s[0]] + s[1..];
    }
  }

  lemma WhereCons<T(!new)>(x: T, s: seq<T>, p: T -> bool)
    ensures Where([x] + s, p) == (if p(x) then [x] else []) + Where(s, p)
  {
    assert ([x] + s)[1..] == s;
  }

  /** A filter that every element passes returns its input unchanged. */
  lemma {:induction false} WhereAll<T(!new)>(s: seq<T>, p: T -> bool)
    requires forall x :: x in s ==> p(x)
    ensures Where(s, p) == s
  {
    if |s| > 0 {
      WhereAll(s[1..], p);
      assert s == [s[0]] + s[1..];
    }
  }

  /** Filtering by a stronger predicate keeps a subsequence of what a weaker one keeps. */
  lemma {:induction false} WhereMonotone<T(!new)>(s: seq<T>, p: T -> bool, q: T -> bool)
    requires forall x :: x in s && p(x) ==> q(x)
    ensures IsSubsequence(Where(s, p), Where(s, q))
  {
    if |s| > 0 {
      WhereMonotone(s[1..], p, q);
      var a, b := Where(s[1..], p), Where(s[1..], q);
      if p(s[0]) {
        assert ([s[0]] + a)[1..] == a && ([s[0]] + b)[1..] == b;
      } else if q(s[0]) {
        assert ([s[0]] + b)[1..] == b;
      }
    }
  }

  // --------------------------------------------------------------- Select

  /** Enumerable.Select. */
  function Select<T, U>(s: seq<T>, f: T -> U): (r: seq<U>)
    ensures |r| == |s| && forall i :: 0 <= i < |s| ==> r[i] == f(s[i])
  {
    if |s| == 0 then [] else [f(s[0])] + Select(s[1..], f)
  }

  /** A selector that ignores its argument: one copy of `u` per element of `s`. */
  function SelectConst<T, U(!new)>(s: seq<T>, u: U): (r: seq<U>)
    ensures |r| == |s|
    ensures forall v :: v in r <==> |s| > 0 && v == u
  {
    if |s| == 0 then [] else [u] + SelectConst(s[1..], u)
  }

  function Identity<T>(x: T): T { x }

  /** Selecting with the identity changes nothing. */
  lemma SelectIdentity<T>(s: seq<T>)
    ensures Select(s, Identity) == s
  {
    assert forall i :: 0 <= i < |s| ==> Select(s, Identity)[i] == s[i];
  }

  lemma SelectHas<T, U>(s: seq<T>, f: T -> U, x: T)
    requires x in s
    ensures f(x) in Select(s, f)
  {
    var i :| 0 <= i < |s| && s[i] == x;
    assert Select(s, f)[i] == f(x);
  }

  // ----------------------------------------------------------- SelectMany

  /** Enumerable.SelectMany: the sequences `f` gives for the elements, one after another. */
  function SelectMany<T, U>(s: seq<T>, f: T -> seq<U>): seq<U> {
    if |s| == 0 then [] else f(s[0]) + SelectMany(s[1..], f)
  }

  lemma SelectManyOne<T, U>(x: T, f: T -> seq<U>)
    ensures SelectMany([x], f) == f(x)
  {
    assert [x][1..] == [];
    assert SelectMany([x], f) == f(x) + SelectMany([], f);
  }

  /** The output for a concatenation is the outputs of the parts in turn. */
  lemma {:induction false} SelectManyAppend<T, U>(a: seq<T>, b: seq<T>, f: T -> seq<U>)
    ensures SelectMany(a + b, f) == SelectMany(a, f) + SelectMany(b, f)
  {
    if |a| > 0 {
      SelectManyAppend(a[1..], b, f);
      assert (a + b)[1..] == a[1..] + b;
    } else {
      assert a + b == b;
    }
  }

  /** An output element comes from some input element, and every one's outputs appear. */
  lemma {:induction false} SelectManyMembers<T, U>(s: seq<T>, f: T -> seq<U>, u: U)
    ensures u in SelectMany(s, f) <==> exists i :: 0 <= i < |s| && u in f(s[i])
  {
    if |s| > 0 {
      SelectManyMembers(s[1..], f, u);
      assert forall i :: 1 <= i < |s| ==> s[1..][i - 1] == s[i];
      if u in SelectMany(s[1..], f) {
        var i :| 0 <= i < |s[1..]| && u in f(s[1..][i]);
        assert u in f(s[i + 1]);
      }
    }
  }

  /** When `n` gives the length of each element's sequence, the output length is the sum of `n`. */
  lemma {:induction false} SelectManyCount<T(!new), U>(s: seq<T>, f: T -> seq<U>, n: T -> int)
    requires forall x :: |f(x)| == n(x)
    ensures |SelectMany(s, f)| == Sum(s, n)
  {
    if |s| > 0 {
      SelectManyCount(s[1..], f, n);
    }
  }

  // ----------------------------------------------------------- Any, Sum

  /** Enumerable.Any with a predicate. */
  function Any<T>(s: seq<T>, p: T -> bool): (r: bool)
    ensures r <==> exists i :: 0 <= i < |s| && p(s[i])
  {
    if |s| == 0 then false
    else
      assert forall i :: 1 <= i < |s| ==> s[1..][i - 1] == s[i];
      p(s[0]) || Any(s[1..], p)
  }

  /** Enumerable.Sum with a selector, over exact (unbounded) integers. */
  function Sum<T>(s: seq<T>, f: T -> int): int {
    if |s| == 0 then 0 else f(s[0]) + Sum(s[1..], f)
  }

  /** With no negative terms, the sum is at least each of its terms. */
  lemma {:induction false} SumBounds<T>(s: seq<T>, f: T -> int)
    requires forall i :: 0 <= i < |s| ==> f(s[i]) >= 0
    ensures Sum(s, f) >= 0
    ensures forall i :: 0 <= i < |s| ==> f(s[i]) <= Sum(s, f)
  {
    if |s| > 0 {
      assert forall i :: 1 <= i < |s| ==> s[1..][i - 1] == s[i];
      SumBounds(s[1..], f);
    }
  }

  lemma {:induction false} SumAppend<T>(a: seq<T>, b: seq<T>, f: T -> int)
    ensures Sum(a + b, f) == Sum(a, f) + Sum(b, f)
  {
    if |a| > 0 {
      SumAppend(a[1..], b, f);
      assert (a + b)[1..] == a[1..] + b;
    } else {
      assert a + b == b;
    }
  }

  /** Enumerable.Average: exact quotient, defined on non-empty input only. */
  function Average<T>(s: seq<T>, f: T -> int): (r: real)
    requires |s| > 0
    ensures r * (|s| as real) == Sum(s, f) as real
  {
    Quotient(Sum(s, f), |s|)
  }

  function Quotient(a: int, n: nat): (q: real)
    requires n > 0
    ensures q * (n as real) == a as real
  {
    a as real / n as real
  }

  /** Sequences with the same elements, counted, have the same members. */
  lemma MultisetMembers<T>(a: seq<T>, b: seq<T>)
    requires multiset(a) == multiset(b)
    ensures forall x :: x in a <==> x in b
  {
    forall x ensures x in a <==> x in b {
      assert x in a <==> x in multiset(a);
      assert x in b <==> x in multiset(b);
    }
  }

  // ------------------------------------------------------------- Distinct

  /** Position of the first occurrence of `x` in `s`. */
  function FirstIndex<T(==,!new)>(s: seq<T>, x: T): (k: nat)
    requires x in s
    ensures k < |s| && s[k] == x && x !in s[..k]
  {
    if s[0] == x then 0
    else
      var k := FirstIndex(s[1..], x);
      assert s[..k + 1] == [s[0]] + s[1..][..k];
      1 + k
  }

  /** The three facts FirstIndex ensures pin the position down. */
  lemma {:induction false} FirstIndexUnique<T(!new)>(s: seq<T>, x: T, k: nat)
    requires k < |s| && s[k] == x && x !in s[..k]
    ensures FirstIndex(s, x) == k
  {
    if k > 0 {
      assert s[..k][0] == s[0];
      assert s[1..][..k - 1] == s[1..k];
      assert forall i :: 0 <= i < k - 1 ==> s[1..k][i] == s[..k][i + 1];
      FirstIndexUnique(s[1..], x, k - 1);
    }
  }

  lemma FirstIndexExtend<T(!new)>(s: seq<T>, x: T)
    ensures forall y :: y in s ==> FirstIndex(s + [x], y) == FirstIndex(s, y)
    ensures x !in s ==> FirstIndex(s + [x], x) == |s|
  {
    forall y | y in s
      ensures FirstIndex(s + [x], y) == FirstIndex(s, y)
    {
      var k := FirstIndex(s, y);
      assert (s + [x])[..k] == s[..k];
      FirstIndexUnique(s + [x], y, k);
    }
    if x !in s {
      assert (s + [x])[..|s|] == s;
      FirstIndexUnique(s + [x], x, |s|);
    }
  }

  /**
   * Enumerable.Distinct: every element of `s` once, in order of first
   * occurrence. The three properties determine the result uniquely.
   */
  function Distinct<T(==,!new)>(s: seq<T>): (r: seq<T>)
    ensures NoDuplicates(r)
    ensures forall x :: x in r <==> x in s
    ensures forall i, j :: 0 <= i < j < |r| ==> FirstIndex(s, r[i]) < FirstIndex(s, r[j])
    decreases |s|
  {
    if |s| == 0 then []
    else
      var init, x := s[..|s| - 1], s[|s| - 1];
      var d := Distinct(init);
      assert s == init + [x];
      FirstIndexExtend(init, x);
      if x in d then d else d + [x]
  }

  /** The first distinct element is the first element. */
  lemma DistinctHead<T(!new)>(s: seq<T>)
    requires |s| > 0
    ensures |Distinct(s)| > 0 && Distinct(s)[0] == s[0]
  {
    var r := Distinct(s);
    assert s[0] in r;
    var m :| 0 <= m < |r| && r[m] == s[0];
    assert FirstIndex(s, s[0]) == 0;
    assert forall j :: 0 <= j < |r| ==> FirstIndex(s, r[0]) <= FirstIndex(s, r[j]);
    assert FirstIndex(s, r[0]) <= FirstIndex(s, r[m]);
  }

  // -------------------------------------------------------------- GroupBy

  /** An IGrouping: a key and the elements that have it. */
  datatype Grouping<K, T> = Grouping(Key: K, Elements: seq<T>)

  /** The elements of `s` whose key is `k`, in source order. */
  function KeyFilter<T(==,!new), K(==,!new)>(s: seq<T>, key: T -> K, k: K): (r: seq<T>)
    ensures IsSubsequence(r, s)
    ensures forall x :: x in r <==> x in s && key(x) == k
  {
    Where(s, x => key(x) == k)
  }

  lemma KeyFilterCons<T(!new), K(!new)>(x: T, s: seq<T>, key: T -> K, k: K)
    ensures KeyFilter([x] + s, key, k) == (if key(x) == k then [x] else []) + KeyFilter(s, key, k)
  {
    assert ([x] + s)[1..] == s;
  }

  lemma {:induction false} KeyFilterCount<T(!new), K(!new)>(s: seq<T>, key: T -> K, k: K)
    ensures |KeyFilter(s, key, k)| == multiset(Select(s, key))[k]
  {
    if |s| > 0 {
      var head := if key(s[0]) == k then 1 else 0;
      calc {
        |KeyFilter(s, key, k)|;
        { assert s == [s[0]] + s[1..];
          KeyFilterCons(s[0], s[1..], key, k); }
        head + |KeyFilter(s[1..], key, k)|;
        { KeyFilterCount(s[1..], key, k); }
        head + multiset(Select(s[1..], key))[k];
        { assert Select(s, key) == [key(s[0])] + Select(s[1..], key); }
        multiset(Select(s, key))[k];
      }
    }
  }

  function GroupsOf<T(==,!new), K(==,!new)>(s: seq<T>, key: T -> K, ks: seq<K>): (r: seq<Grouping<K, T>>)
    ensures |r| == |ks|
    ensures forall i :: 0 <= i < |ks| ==> r[i] == Grouping(ks[i], KeyFilter(s, key, ks[i]))
  {
    if |ks| == 0 then []
    else [Grouping(ks[0], KeyFilter(s, key, ks[0]))] + GroupsOf(s, key, ks[1..])
  }

  /** The keys of the groups, in order. */
  function GroupKeys<K, T>(gs: seq<Grouping<K, T>>): (ks: seq<K>)
    ensures |ks| == |gs| && forall i :: 0 <= i < |gs| ==> ks[i] == gs[i].Key
  {
    if |gs| == 0 then [] else [gs[0].Key] + GroupKeys(gs[1..])
  }

  lemma GroupsOfKeys<T(!new), K(!new)>(s: seq<T>, key: T -> K, ks: seq<K>)
    ensures GroupKeys(GroupsOf(s, key, ks)) == ks
  {
    var r := GroupsOf(s, key, ks);
    assert forall i :: 0 <= i < |ks| ==> GroupKeys(r)[i] == ks[i];
  }

  /** All elements of the groups, group after group. */
  function Flatten<K, T>(gs: seq<Grouping<K, T>>): seq<T> {
    if |gs| == 0 then [] else gs[0].Elements + Flatten(gs[1..])
  }

  function Size<K, T>(g: Grouping<K, T>): int {
    |g.Elements|
  }

  lemma {:induction false} FlattenSize<K, T>(gs: seq<Grouping<K, T>>)
    ensures Sum(gs, Size) == |Flatten(gs)|
  {
    if |gs| > 0 {
      FlattenSize(gs[1..]);
    }
  }

  lemma {:induction false} FlattenGroups<T(!new), K(!new)>(s: seq<T>, key: T -> K, ks: seq<K>)
    requires NoDuplicates(ks)
    ensures forall x :: multiset(Flatten(GroupsOf(s, key, ks)))[x] ==
                        if key(x) in ks then multiset(s)[x] else 0
  {
    if |ks| > 0 {
      FlattenGroups(s, key, ks[1..]);
      WhereMultiset(s, x => key(x) == ks[0]);
      var g := GroupsOf(s, key, ks);
      assert g[1..] == GroupsOf(s, key, ks[1..]);
      forall x
        ensures multiset(Flatten(g))[x] == if key(x) in ks then multiset(s)[x] else 0
      {
        assert key(x) in ks <==> key(x) == ks[0] || key(x) in ks[1..];
        if key(x) == ks[0] {
          assert ks[0] !in ks[1..];
        }
      }
    }
  }

  /**
   * Enumerable.GroupBy: one group per distinct key, keys in order of first
   * occurrence, each group holding exactly the elements with its key in
   * source order (so no group is empty). GroupByPermutation adds that the
   * groups together hold every element exactly once.
   */
  function GroupBy<T(==,!new), K(==,!new)>(s: seq<T>, key: T -> K): (r: seq<Grouping<K, T>>)
    ensures GroupKeys(r) == Distinct(Select(s, key))
    ensures forall i :: 0 <= i < |r| ==> r[i].Elements == KeyFilter(s, key, r[i].Key)
    ensures forall i :: 0 <= i < |r| ==> |r[i].Elements| > 0
  {
    var ks := Distinct(Select(s, key));
    GroupsOfKeys(s, key, ks);
    GroupsNonEmpty(s, key, ks);
    GroupsOf(s, key, ks)
  }

  /** Together the groups hold every element of the source exactly once. */
  lemma GroupByPermutation<T(!new), K(!new)>(s: seq<T>, key: T -> K)
    ensures multiset(Flatten(GroupBy(s, key))) == multiset(s)
  {
    var ks := Distinct(Select(s, key));
    GroupsCover(s, key, ks);
    GroupsPermutation(s, key, ks);
  }

  lemma GroupsPermutation<T(!new), K(!new)>(s: seq<T>, key: T -> K, ks: seq<K>)
    requires NoDuplicates(ks)
    requires forall x :: x in s ==> key(x) in ks
    ensures multiset(Flatten(GroupsOf(s, key, ks))) == multiset(s)
  {
    var m := multiset(Flatten(GroupsOf(s, key, ks)));
    FlattenGroups(s, key, ks);
    forall x
      ensures m[x] == multiset(s)[x]
    {
      if x !in s {
        assert multiset(s)[x] == 0;
      }
    }
  }

  lemma GroupsNonEmpty<T(!new), K(!new)>(s: seq<T>, key: T -> K, ks: seq<K>)
    requires forall k :: k in ks ==> k in Select(s, key)
    ensures forall i :: 0 <= i < |ks| ==> |KeyFilter(s, key, ks[i])| > 0
  {
    forall i | 0 <= i < |ks|
      ensures |KeyFilter(s, key, ks[i])| > 0
    {
      assert ks[i] in ks;
      var j :| 0 <= j < |s| && Select(s, key)[j] == ks[i];
      assert s[j] in KeyFilter(s, key, ks[i]);
    }
  }

  lemma GroupsCover<T(!new), K(!new)>(s: seq<T>, key: T -> K, ks: seq<K>)
    requires forall k :: k in Select(s, key) ==> k in ks
    ensures forall x :: x in s ==> key(x) in ks
  {
    forall x | x in s
      ensures key(x) in ks
    {
      SelectHas(s, key, x);
    }
  }

  /** Every element of the source lies in exactly one group: the one with its key. */
  lemma GroupByPartition<T(!new), K(!new)>(s: seq<T>, key: T -> K, x: T)
    requires x in s
    ensures var r := GroupBy(s, key);
            exists i :: 0 <= i < |r| && x in r[i].Elements
    ensures var r := GroupBy(s, key);
            forall i, j :: 0 <= i < |r| && 0 <= j < |r| && x in r[i].Elements && x in r[j].Elements ==> i == j
  {
    var r := GroupBy(s, key);
    var ks := GroupKeys(r);
    SelectHas(s, key, x);
    assert key(x) in ks;
    var i :| 0 <= i < |ks| && ks[i] == key(x);
    assert x in r[i].Elements;
    forall j, l | 0 <= j < |r| && 0 <= l < |r| && x in r[j].Elements && x in r[l].Elements
      ensures j == l
    {
      assert ks[j] == r[j].Key && ks[l] == r[l].Key;
      assert x in KeyFilter(s, key, r[j].Key) && x in KeyFilter(s, key, r[l].Key);
      assert NoDuplicates(ks);
    }
  }

  /** The group sizes add up to the length of the source. */
  lemma GroupBySizes<T(!new), K(!new)>(s: seq<T>, key: T -> K)
    ensures Sum(GroupBy(s, key), Size) == |s|
  {
    var r := GroupBy(s, key);
    FlattenSize(r);
    GroupByPermutation(s, key);
    assert |multiset(Flatten(r))| == |multiset(s)|;
  }

  // ---------------------------------------------------- OrderByDescending

  /** Strict lexicographic order on sort keys. */
  predicate LexLess(a: seq<int>, b: seq<int>)
    decreases |a|
  {
    |b| > 0 && (|a| == 0 || a[0] < b[0] || (a[0] == b[0] && LexLess(a[1..], b[1..])))
  }

  lemma {:induction false} LexLessIrreflexive(a: seq<int>)
    ensures !LexLess(a, a)
  {
    if |a| > 0 {
      LexLessIrreflexive(a[1..]);
    }
  }

  lemma {:induction false} LexLessTransitive(a: seq<int>, b: seq<int>, c: seq<int>)
    requires LexLess(a, b) && LexLess(b, c)
    ensures LexLess(a, c)
  {
    if |a| > 0 && a[0] == b[0] && b[0] == c[0] {
      LexLessTransitive(a[1..], b[1..], c[1..]);
    }
  }

  lemma {:induction false} LexLessTotal(a: seq<int>, b: seq<int>)
    ensures LexLess(a, b) || a == b || LexLess(b, a)
  {
    if |a| > 0 && |b| > 0 && a[0] == b[0] {
      LexLessTotal(a[1..], b[1..]);
      if a[1..] == b[1..] {
        assert a == [a[0]] + a[1..] && b == [b[0]] + b[1..];
      }
    }
  }

  lemma {:induction false} LexLessAsymmetric(a: seq<int>, b: seq<int>)
    requires LexLess(a, b)
    ensures !LexLess(b, a)
  {
    if |a| > 0 && a[0] == b[0] {
      LexLessAsymmetric(a[1..], b[1..]);
    }
  }

  /** "Not less" is transitive: the keys form a total preorder. */
  lemma NotLessTransitive(a: seq<int>, b: seq<int>, c: seq<int>)
    requires !LexLess(a, b) && !LexLess(b, c)
    ensures !LexLess(a, c)
  {
    LexLessTotal(a, b);
    LexLessTotal(b, c);
    if a != b && b != c {
      LexLessTransitive(c, b, a);
      LexLessAsymmetric(c, a);
    }
  }

  /** Non-increasing in `key`. */
  ghost predicate SortedDescending<T>(s: seq<T>, key: T -> seq<int>) {
    forall i, j :: 0 <= i < j < |s| ==> !LexLess(key(s[i]), key(s[j]))
  }

  /** Places `x` before the first element whose key is not greater than its own. */
  function InsertDescending<T(==,!new)>(x: T, t: seq<T>, key: T -> seq<int>): (r: seq<T>)
    requires SortedDescending(t, key)
    ensures SortedDescending(r, key)
    ensures multiset(r) == multiset([x] + t)
    ensures forall k :: KeyFilter(r, key, k) == KeyFilter([x] + t, key, k)
  {
    if |t| == 0 || !LexLess(key(x), key(t[0])) then
      InsertFirstSorted(x, t, key);
      [x] + t
    else
      var r' := InsertDescending(x, t[1..], key);
      assert t == [t[0]] + t[1..];
      InsertLaterSorted(x, t, key, r');
      InsertLaterStable(x, t, key, r');
      [t[0]] + r'
  }

  lemma InsertFirstSorted<T>(x: T, t: seq<T>, key: T -> seq<int>)
    requires SortedDescending(t, key)
    requires |t| == 0 || !LexLess(key(x), key(t[0]))
    ensures SortedDescending([x] + t, key)
  {
    forall j | 0 < j < |t|
      ensures !LexLess(key(x), key(t[j]))
    {
      NotLessTransitive(key(x), key(t[0]), key(t[j]));
    }
  }

  lemma InsertLaterSorted<T(!new)>(x: T, t: seq<T>, key: T -> seq<int>, r': seq<T>)
    requires |t| > 0 && SortedDescending(t, key) && LexLess(key(x), key(t[0]))
    requires SortedDescending(r', key) && multiset(r') == multiset([x] + t[1..])
    ensures SortedDescending([t[0]] + r', key)
  {
    forall j | 0 <= j < |r'|
      ensures !LexLess(key(t[0]), key(r'[j]))
    {
      assert r'[j] in multiset([x] + t[1..]);
      if r'[j] == x {
        LexLessAsymmetric(key(x), key(t[0]));
      } else {
        assert r'[j] in t[1..];
        var m :| 0 <= m < |t[1..]| && t[1..][m] == r'[j];
        assert t[m + 1] == r'[j];
      }
    }
  }

  lemma InsertLaterStable<T(!new)>(x: T, t: seq<T>, key: T -> seq<int>, r': seq<T>)
    requires |t| > 0 && LexLess(key(x), key(t[0]))
    requires forall k :: KeyFilter(r', key, k) == KeyFilter([x] + t[1..], key, k)
    ensures forall k :: KeyFilter([t[0]] + r', key, k) == KeyFilter([x] + t, key, k)
  {
    forall k
      ensures KeyFilter([t[0]] + r', key, k) == KeyFilter([x] + t, key, k)
    {
      KeyFilterCons(t[0], r', key, k);
      KeyFilterCons(x, t[1..], key, k);
      KeyFilterCons(x, t, key, k);
      assert t == [t[0]] + t[1..];
      KeyFilterCons(t[0], t[1..], key, k);
      LexLessIrreflexive(key(x));
    }
  }

  /**
   * OrderByDescending(k1).ThenByDescending(k2)...: a stable sort on the
   * composite key, greatest first. The result is non-increasing, a
   * permutation of the input, and elements with equal keys keep their
   * source order.
   */
  function OrderByDescending<T(==,!new)>(s: seq<T>, key: T -> seq<int>): (r: seq<T>)
    ensures SortedDescending(r, key)
    ensures multiset(r) == multiset(s)
    ensures forall k :: KeyFilter(r, key, k) == KeyFilter(s, key, k)
  {
    if |s| == 0 then []
    else
      var r' := OrderByDescending(s[1..], key);
      assert s == [s[0]] + s[1..];
      OrderStable(s, key, r');
      InsertDescending(s[0], r', key)
  }

  lemma OrderStable<T(!new)>(s: seq<T>, key: T -> seq<int>, r': seq<T>)
    requires |s| > 0
    requires forall k :: KeyFilter(r', key, k) == KeyFilter(s[1..], key, k)
    ensures forall k :: KeyFilter([s[0]] + r', key, k) == KeyFilter(s, key, k)
  {
    forall k
      ensures KeyFilter([s[0]] + r', key, k) == KeyFilter(s, key, k)
    {
      KeyFilterCons(s[0], r', key, k);
      assert s == [s[0]] + s[1..];
      KeyFilterCons(s[0], s[1..], key, k);
    }
  }

  /** Distinct keeps a sorted sequence sorted. */
  lemma {:induction false} DistinctSorted<T(!new)>(s: seq<T>, key: T -> seq<int>)
    requires SortedDescending(s, key)
    ensures SortedDescending(Distinct(s), key)
    decreases |s|
  {
    if |s| > 0 {
      var init, x := s[..|s| - 1], s[|s| - 1];
      assert s == init + [x];
      assert SortedDescending(init, key);
      DistinctSorted(init, key);
      var d := Distinct(init);
      forall i | 0 <= i < |d|
        ensures !LexLess(key(d[i]), key(x))
      {
        assert d[i] in init;
        var m :| 0 <= m < |init| && init[m] == d[i];
        assert s[m] == d[i];
      }
    }
  }
}
