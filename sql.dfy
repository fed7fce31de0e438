/** The relational operations the route handlers' queries are made of:
    WHERE, JOIN, ORDER BY, LIMIT, DISTINCT, AVG and ASCII case-insensitive
    LIKE, each as a function on sequences of rows. */
module Sql {
  import opened Wrappers

  function Min(a: int, b: int): int { if a <= b then a else b }

  /** `LIMIT n`: the first n rows, or all of them when there are fewer. */
  function Limit<T>(s: seq<T>, n: nat): (r: seq<T>)
    ensures |r| == Min(n, |s|)
    ensures forall i :: 0 <= i < |r| ==> r[i] == s[i]
  {
    s[..Min(n, |s|)]
  }

  /** `LIMIT` keeps a sub-bag of the rows. */
  lemma LimitSubBag<T>(s: seq<T>, n: nat)
    ensures multiset(Limit(s, n)) <= multiset(s)
  {
    assert s == Limit(s, n) + s[Min(n, |s|)..];
  }

  // ---------------------------------------------------------------- WHERE

  /** `WHERE p`: the rows satisfying p, in table order. */
  function Where<T(!new)>(s: seq<T>, p: T -> bool): (r: seq<T>)
    ensures |r| <= |s|
    ensures forall x :: x in r <==> x in s && p(x)
    ensures forall i :: 0 <= i < |r| ==> p(r[i])
  {
    if s == [] then []
    else
      assert s == [s[0]] + s[1..];
      if p(s[0]) then [s[0]] + Where(s[1..], p) else Where(s[1..], p)
  }

  /** Bag semantics of `WHERE`: a passing row occurs as often as in the
      table, a failing row never. */
  lemma {:induction false} WhereCount<T(!new)>(s: seq<T>, p: T -> bool)
    ensures forall x :: multiset(Where(s, p))[x] == (if p(x) then multiset(s)[x] else 0)
  {
    if s != [] {
      WhereCount(s[1..], p);
      assert s == [s[0]] + s[1..];
    }
  }

  function Not<T>(p: T -> bool): T -> bool { x => !p(x) }

  function KeyIs<T, K(==)>(key: T -> K, k: K): T -> bool { x => key(x) == k }

  function KeyIsNot<T, K(==)>(key: T -> K, k: K): T -> bool { x => key(x) != k }

  /** Filtering by two predicates that agree on every row gives the same rows. */
  lemma {:induction false} WhereExt<T(!new)>(s: seq<T>, p: T -> bool, q: T -> bool)
    requires forall x :: x in s ==> p(x) == q(x)
    ensures Where(s, p) == Where(s, q)
  {
    if s != [] {
      WhereExt(s[1..], p, q);
    }
  }

  /** Filtering an appended row adds it at the end exactly when it passes. */
  lemma {:induction false} WhereSnoc<T(!new)>(s: seq<T>, x: T, p: T -> bool)
    ensures Where(s + [x], p) == Where(s, p) + (if p(x) then [x] else [])
  {
    if s == [] {
      assert [x][1..] == [];
    } else {
      assert (s + [x])[1..] == s[1..] + [x];
      WhereSnoc(s[1..], x, p);
    }
  }

  /** A filter no row passes gives no rows. */
  lemma {:induction false} WhereNone<T(!new)>(s: seq<T>, p: T -> bool)
    requires forall x :: x in s ==> !p(x)
    ensures Where(s, p) == []
  {
    if s != [] {
      assert s[0] in s;
      WhereNone(s[1..], p);
    }
  }

  /** The rows that pass and the rows that fail together make up the table. */
  lemma {:induction false} WhereSplit<T(!new)>(s: seq<T>, p: T -> bool)
    ensures |Where(s, p)| + |Where(s, Not(p))| == |s|
  {
    if s != [] {
      WhereSplit(s[1..], p);
    }
  }

  /** `rows.map(f)`. */
  function Map<A, B>(s: seq<A>, f: A -> B): (r: seq<B>)
    ensures |r| == |s|
    ensures forall i :: 0 <= i < |s| ==> r[i] == f(s[i])
  {
    if s == [] then [] else [f(s[0])] + Map(s[1..], f)
  }

  /** Mapping by a one-to-one function keeps each row's number of occurrences. */
  lemma {:induction false} MapCount<A, B>(s: seq<A>, f: A -> B, x: A)
    requires forall a, b :: f(a) == f(b) ==> a == b
    ensures multiset(Map(s, f))[f(x)] == multiset(s)[x]
  {
    if s != [] {
      MapCount(s[1..], f, x);
      BagCons(s, x);
      BagCons(Map(s, f), f(x));
      assert Map(s, f)[1..] == Map(s[1..], f);
    }
  }

  // ----------------------------------------------------------- uniqueness

  /** No two rows of s share a key (a PRIMARY KEY or UNIQUE column). */
  ghost predicate UniqueBy<T, K>(s: seq<T>, key: T -> K)
  {
    forall i, j :: 0 <= i < |s| && 0 <= j < |s| && i != j ==> key(s[i]) != key(s[j])
  }

  /** Deleting rows keeps a key unique. */
  lemma {:induction false} WhereKeepsUnique<T(!new), K>(s: seq<T>, p: T -> bool, key: T -> K)
    requires UniqueBy(s, key)
    ensures UniqueBy(Where(s, p), key)
  {
    if s != [] {
      UniqueTail(s, key);
      WhereKeepsUnique(s[1..], p, key);
      var rest := Where(s[1..], p);
      if p(s[0]) {
        var r := [s[0]] + rest;
        forall i, j | 0 <= i < |r| && 0 <= j < |r| && i != j ensures key(r[i]) != key(r[j]) {
          if i > 0 && j > 0 {
            assert r[i] == rest[i - 1] && r[j] == rest[j - 1];
          } else if i == 0 {
            assert r[j] == rest[j - 1] && r[j] in rest;
          } else {
            assert r[i] == rest[i - 1] && r[i] in rest;
          }
        }
      }
    }
  }

  /** Appending a row with a fresh key keeps the key unique. */
  lemma UniqueSnoc<T, K>(s: seq<T>, x: T, key: T -> K)
    requires UniqueBy(s, key)
    requires forall y :: y in s ==> key(y) != key(x)
    ensures UniqueBy(s + [x], key)
  {
    var r := s + [x];
    forall i, j | 0 <= i < |r| && 0 <= j < |r| && i != j ensures key(r[i]) != key(r[j]) {
      if i < |s| { assert r[i] == s[i] && r[i] in s; }
      if j < |s| { assert r[j] == s[j] && r[j] in s; }
    }
  }

  /** When one row carries a unique key, deleting by that key removes exactly
      one row. */
  lemma {:induction false} WhereRemovesOne<T(!new), K>(s: seq<T>, key: T -> K, k: K)
    requires UniqueBy(s, key)
    requires exists x :: x in s && key(x) == k
    ensures |Where(s, KeyIsNot(key, k))| == |s| - 1
  {
    var i :| 0 <= i < |s| && key(s[i]) == k;
    CountKey(s, key, k, i);
    WhereSplit(s, KeyIs(key, k));
    WhereExt(s, Not(KeyIs(key, k)), KeyIsNot(key, k));
  }

  lemma UniqueTail<T, K>(s: seq<T>, key: T -> K)
    requires s != [] && UniqueBy(s, key)
    ensures UniqueBy(s[1..], key)
    ensures forall y :: y in s[1..] ==> key(y) != key(s[0])
  {
    forall i, j | 0 <= i < |s[1..]| && 0 <= j < |s[1..]| && i != j
      ensures key(s[1..][i]) != key(s[1..][j])
    {
      assert s[1..][i] == s[i + 1] && s[1..][j] == s[j + 1];
    }
    forall y | y in s[1..] ensures key(y) != key(s[0]) {
      var k :| 0 <= k < |s[1..]| && s[1..][k] == y;
      assert s[k + 1] == y;
    }
  }

  /** A row of a table whose key is unique occurs in it at most once. */
  lemma {:induction false} UniqueOnce<T, K>(s: seq<T>, key: T -> K, x: T)
    requires UniqueBy(s, key)
    ensures multiset(s)[x] <= 1
  {
    if s != [] {
      UniqueTail(s, key);
      UniqueOnce(s[1..], key, x);
      BagCons(s, x);
      if x == s[0] {
        assert x !in s[1..];
      }
    }
  }

  lemma {:induction false} CountKey<T(!new), K>(s: seq<T>, key: T -> K, k: K, i: nat)
    requires UniqueBy(s, key)
    requires i < |s| && key(s[i]) == k
    ensures |Where(s, KeyIs(key, k))| == 1
  {
    var p := KeyIs(key, k);
    UniqueTail(s, key);
    if i == 0 {
      assert forall x :: x in s[1..] ==> !p(x);
      WhereNone(s[1..], p);
    } else {
      CountKey(s[1..], key, k, i - 1);
    }
  }

  // ----------------------------------------------------------------- JOIN

  /** The rows of `a JOIN b ON on`: one pair per matching pair of rows. */
  function Join<A(!new), B(!new)>(xs: seq<A>, ys: seq<B>, on: (A, B) -> bool): (r: seq<(A, B)>)
    ensures forall pr :: pr in r <==> pr.0 in xs && pr.1 in ys && on(pr.0, pr.1)
  {
    if xs == [] then []
    else
      assert xs == [xs[0]] + xs[1..];
      Matches(xs[0], ys, on) + Join(xs[1..], ys, on)
  }

  function Matches<A(!new), B(!new)>(x: A, ys: seq<B>, on: (A, B) -> bool): (r: seq<(A, B)>)
    ensures forall pr :: pr in r <==> pr.0 == x && pr.1 in ys && on(x, pr.1)
  {
    if ys == [] then []
    else
      assert ys == [ys[0]] + ys[1..];
      (if on(x, ys[0]) then [(x, ys[0])] else []) + Matches(x, ys[1..], on)
  }

  /** Bag semantics of `JOIN`: a matching pair occurs as often as the product
      of its two rows' occurrences in their tables, any other pair never. */
  lemma JoinCount<A(!new), B(!new)>(xs: seq<A>, ys: seq<B>, on: (A, B) -> bool)
    ensures forall pr :: multiset(Join(xs, ys, on))[pr] == JoinMultiplicity(xs, ys, on, pr)
  {
    forall pr ensures multiset(Join(xs, ys, on))[pr] == JoinMultiplicity(xs, ys, on, pr) {
      JoinCountAt(xs, ys, on, pr);
    }
  }

  lemma {:induction false} JoinCountAt<A(!new), B(!new)>(xs: seq<A>, ys: seq<B>, on: (A, B) -> bool, pr: (A, B))
    ensures multiset(Join(xs, ys, on))[pr] == JoinMultiplicity(xs, ys, on, pr)
  {
    if xs != [] {
      JoinCountAt(xs[1..], ys, on, pr);
      MatchesCount(xs[0], ys, on);
      var head := Matches(xs[0], ys, on);
      var tail := Join(xs[1..], ys, on);
      BagConcat(head, tail, pr);
      var a := if pr.0 == xs[0] then 1 else 0;
      var m := multiset(xs[1..])[pr.0];
      BagCons(xs, pr.0);
      if on(pr.0, pr.1) {
        ProductSplit(a, m, multiset(ys)[pr.1]);
      }
    }
  }

  lemma BagConcat<T>(s: seq<T>, t: seq<T>, x: T)
    ensures multiset(s + t)[x] == multiset(s)[x] + multiset(t)[x]
  {
  }

  lemma BagCons<T>(s: seq<T>, x: T)
    requires s != []
    ensures multiset(s)[x] == (if x == s[0] then 1 else 0) + multiset(s[1..])[x]
  {
    assert s == [s[0]] + s[1..];
  }

  /** The pairs one row contributes to a `JOIN`: each matching row of ys as
      often as it occurs there. */
  lemma {:induction false} MatchesCount<A(!new), B(!new)>(x: A, ys: seq<B>, on: (A, B) -> bool)
    ensures forall pr :: multiset(Matches(x, ys, on))[pr] ==
                         (if pr.0 == x && on(x, pr.1) then multiset(ys)[pr.1] else 0)
  {
    if ys != [] {
      MatchesCount(x, ys[1..], on);
      assert ys == [ys[0]] + ys[1..];
    }
  }

  /** How often the pair pr occurs in `xs JOIN ys ON on`. */
  ghost function JoinMultiplicity<A, B>(xs: seq<A>, ys: seq<B>, on: (A, B) -> bool, pr: (A, B)): nat
  {
    if on(pr.0, pr.1) then multiset(xs)[pr.0] * multiset(ys)[pr.1] else 0
  }

  /** A join of two tables whose rows are each unique by some key yields
      every pair at most once. */
  lemma JoinOnce<A(!new), B(!new), KA, KB>(xs: seq<A>, ys: seq<B>, on: (A, B) -> bool,
                                          ka: A -> KA, kb: B -> KB, pr: (A, B))
    requires UniqueBy(xs, ka) && UniqueBy(ys, kb)
    ensures JoinMultiplicity(xs, ys, on, pr) <= 1
  {
    UniqueOnce(xs, ka, pr.0);
    UniqueOnce(ys, kb, pr.1);
    BoundedProduct(multiset(xs)[pr.0], multiset(ys)[pr.1]);
  }

  lemma BoundedProduct(a: nat, b: nat)
    requires a <= 1 && b <= 1
    ensures a * b <= 1
  {
  }

  lemma ProductSplit(a: int, b: int, c: int)
    ensures (a + b) * c == a * c + b * c
  {
  }

  /** Bag semantics of a filtered `JOIN`, for one pair. */
  lemma JoinWhereCount<A(!new), B(!new)>(xs: seq<A>, ys: seq<B>, on: (A, B) -> bool, p: ((A, B)) -> bool, pr: (A, B))
    ensures multiset(Where(Join(xs, ys, on), p))[pr] ==
            (if p(pr) then JoinMultiplicity(xs, ys, on, pr) else 0)
  {
    JoinCountAt(xs, ys, on, pr);
    WhereCount(Join(xs, ys, on), p);
  }

  // ------------------------------------------------------------- ORDER BY

  ghost predicate Total<T(!new)>(le: (T, T) -> bool)
  {
    forall a, b :: le(a, b) || le(b, a)
  }

  ghost predicate Transitive<T(!new)>(le: (T, T) -> bool)
  {
    forall a, b, c :: le(a, b) && le(b, c) ==> le(a, c)
  }

  /** Every row is ordered before every later row. */
  predicate SortedBy<T>(s: seq<T>, le: (T, T) -> bool)
  {
    forall i, j :: 0 <= i < j < |s| ==> le(s[i], s[j])
  }

  function InsertBy<T>(x: T, s: seq<T>, le: (T, T) -> bool): (r: seq<T>)
    ensures multiset(r) == multiset(s) + multiset{x}
  {
    if s == [] then [x]
    else if le(x, s[0]) then [x] + s
    else
      assert s == [s[0]] + s[1..];
      [s[0]] + InsertBy(x, s[1..], le)
  }

  lemma SortedTail<T>(s: seq<T>, le: (T, T) -> bool)
    requires s != [] && SortedBy(s, le)
    ensures SortedBy(s[1..], le)
    ensures forall y :: y in s[1..] ==> le(s[0], y)
  {
    forall i, j | 0 <= i < j < |s[1..]| ensures le(s[1..][i], s[1..][j]) {
      assert s[1..][i] == s[i + 1] && s[1..][j] == s[j + 1];
    }
    forall y | y in s[1..] ensures le(s[0], y) {
      var k :| 0 <= k < |s[1..]| && s[1..][k] == y;
      assert s[k + 1] == y;
    }
  }

  /** A row ordered before every row of a sorted sequence can head it. */
  lemma SortedCons<T>(x: T, s: seq<T>, le: (T, T) -> bool)
    requires SortedBy(s, le)
    requires forall y :: y in s ==> le(x, y)
    ensures SortedBy([x] + s, le)
  {
    var r := [x] + s;
    forall i, j | 0 <= i < j < |r| ensures le(r[i], r[j]) {
      assert r[j] == s[j - 1] && s[j - 1] in s;
      if i > 0 {
        assert r[i] == s[i - 1];
      }
    }
  }

  lemma {:induction false} InsertBySorted<T(!new)>(x: T, s: seq<T>, le: (T, T) -> bool)
    requires Total(le) && Transitive(le) && SortedBy(s, le)
    ensures SortedBy(InsertBy(x, s, le), le)
  {
    if s == [] {
    } else if le(x, s[0]) {
      SortedTail(s, le);
      SortedCons(x, s, le);
    } else {
      SortedTail(s, le);
      InsertBySorted(x, s[1..], le);
      var rest := InsertBy(x, s[1..], le);
      forall y | y in rest ensures le(s[0], y) {
        assert y in multiset(rest);
        if y != x {
          assert y in multiset(s[1..]);
        }
      }
      SortedCons(s[0], rest, le);
    }
  }

  /** `ORDER BY`: a permutation of the rows. Rows that the order ties keep an
      order the store chooses. */
  function SortBy<T>(s: seq<T>, le: (T, T) -> bool): (r: seq<T>)
    ensures multiset(r) == multiset(s)
    ensures |r| == |s|
  {
    if s == [] then []
    else
      assert s == [s[0]] + s[1..];
      InsertBy(s[0], SortBy(s[1..], le), le)
  }

  /** `ORDER BY` with a total preorder yields rows in that order. */
  lemma {:induction false} SortBySorted<T(!new)>(s: seq<T>, le: (T, T) -> bool)
    requires Total(le) && Transitive(le)
    ensures SortedBy(SortBy(s, le), le)
  {
    if s != [] {
      SortBySorted(s[1..], le);
      InsertBySorted(s[0], SortBy(s[1..], le), le);
    }
  }

  /** The rows of `ORDER BY` are the rows of the table. */
  lemma SortByMembers<T>(s: seq<T>, le: (T, T) -> bool)
    ensures forall x :: x in SortBy(s, le) <==> x in s
  {
    var r := SortBy(s, le);
    forall x ensures x in r <==> x in s {
      assert x in r <==> x in multiset(r);
      assert x in s <==> x in multiset(s);
    }
  }

  /** `LIMIT n` over rows already in order: at most n rows, in order, a
      sub-bag of the rows; a row left out means the limit was reached and
      every row kept is ordered before it. */
  lemma LimitOfSorted<T>(s: seq<T>, le: (T, T) -> bool, n: nat)
    requires SortedBy(s, le)
    ensures |Limit(s, n)| <= n
    ensures SortedBy(Limit(s, n), le)
    ensures forall x :: x in Limit(s, n) ==> x in s
    ensures multiset(Limit(s, n)) <= multiset(s)
    ensures forall x :: x in s && x !in Limit(s, n) ==>
      |Limit(s, n)| == n && forall y :: y in Limit(s, n) ==> le(y, x)
  {
    var r := Limit(s, n);
    LimitSubBag(s, n);
    forall x | x in r ensures x in s {
      var i :| 0 <= i < |r| && r[i] == x;
      assert s[i] in s;
    }
    forall x | x in s && x !in r ensures |r| == n && forall y :: y in r ==> le(y, x) {
      var i :| 0 <= i < |s| && s[i] == x;
      assert forall k :: 0 <= k < |r| ==> s[k] != x by {
        forall k | 0 <= k < |r| ensures s[k] != x {
          assert r[k] in r;
        }
      }
      assert |r| <= i;
      forall y | y in r ensures le(y, x) {
        var j :| 0 <= j < |r| && r[j] == y;
        assert s[j] == y;
      }
    }
  }

  /** `ORDER BY ... LIMIT n` with a total preorder: at most n rows, in order,
      a sub-bag of the table; a row left out means the limit was reached and
      every row kept is ordered before it. */
  lemma TopN<T(!new)>(s: seq<T>, le: (T, T) -> bool, n: nat)
    requires Total(le) && Transitive(le)
    ensures |Limit(SortBy(s, le), n)| <= n
    ensures SortedBy(Limit(SortBy(s, le), n), le)
    ensures forall x :: x in Limit(SortBy(s, le), n) ==> x in s
    ensures multiset(Limit(SortBy(s, le), n)) <= multiset(s)
    ensures forall x :: x in s && x !in Limit(SortBy(s, le), n) ==>
      |Limit(SortBy(s, le), n)| == n && forall y :: y in Limit(SortBy(s, le), n) ==> le(y, x)
  {
    SortBySorted(s, le);
    SortByMembers(s, le);
    LimitOfSorted(SortBy(s, le), le, n);
  }

  // ------------------------------------------------------------- DISTINCT

  predicate StrictlyAscending(s: seq<int>)
  {
    forall i, j :: 0 <= i < j < |s| ==> s[i] < s[j]
  }

  /** A value below every element of an ascending sequence extends it at
      the front. */
  lemma AscendingCons(a: int, s: seq<int>)
    requires StrictlyAscending(s)
    requires forall y :: y in s ==> a < y
    ensures StrictlyAscending([a] + s)
  {
    forall i, j | 0 <= i < j < |[a] + s| ensures ([a] + s)[i] < ([a] + s)[j] {
      assert ([a] + s)[j] == s[j - 1] && s[j - 1] in s;
      if i > 0 { assert ([a] + s)[i] == s[i - 1]; }
    }
  }

  lemma AscendingTail(s: seq<int>)
    requires s != [] && StrictlyAscending(s)
    ensures StrictlyAscending(s[1..])
    ensures forall y :: y in s[1..] ==> s[0] < y
  {
    forall i, j | 0 <= i < j < |s[1..]| ensures s[1..][i] < s[1..][j] {
      assert s[1..][i] == s[i + 1] && s[1..][j] == s[j + 1];
    }
    forall y | y in s[1..] ensures s[0] < y {
      var k :| 0 <= k < |s[1..]| && s[1..][k] == y;
      assert s[k + 1] == y;
    }
  }

  function InsertDistinct(x: int, s: seq<int>): (r: seq<int>)
    requires StrictlyAscending(s)
    ensures StrictlyAscending(r)
    ensures forall y :: y in r <==> y == x || y in s
  {
    if s == [] then [x]
    else if x < s[0] then
      AscendingTail(s);
      assert forall y :: y in s ==> y == s[0] || y in s[1..];
      AscendingCons(x, s);
      [x] + s
    else if x == s[0] then s
    else
      assert s == [s[0]] + s[1..];
      AscendingTail(s);
      var rest := InsertDistinct(x, s[1..]);
      AscendingCons(s[0], rest);
      [s[0]] + rest
  }

  /** The distinct values of xs in ascending order (`SELECT DISTINCT ...
      ORDER BY`, and the groups of a `GROUP BY ... ORDER BY`). */
  function DistinctAsc(xs: seq<int>): (r: seq<int>)
    ensures StrictlyAscending(r)
    ensures forall y :: y in r <==> y in xs
  {
    if xs == [] then []
    else
      assert xs == [xs[0]] + xs[1..];
      InsertDistinct(xs[0], DistinctAsc(xs[1..]))
  }

  /** `COUNT(DISTINCT x)`: the distinct list has one entry per value. */
  lemma {:induction false} DistinctCount(xs: seq<int>)
    ensures |DistinctAsc(xs)| == |set y | y in xs|
  {
    var d := DistinctAsc(xs);
    AscendingCard(d);
    assert (set y | y in d) == (set y | y in xs);
  }

  lemma {:induction false} AscendingCard(s: seq<int>)
    requires StrictlyAscending(s)
    ensures |set y | y in s| == |s|
  {
    if s != [] {
      assert StrictlyAscending(s[1..]) by {
        forall i, j | 0 <= i < j < |s[1..]| ensures s[1..][i] < s[1..][j] {
          assert s[1..][i] == s[i + 1] && s[1..][j] == s[j + 1];
        }
      }
      AscendingCard(s[1..]);
      assert s[0] !in s[1..] by {
        forall k | 0 <= k < |s[1..]| ensures s[1..][k] != s[0] {
          assert s[1..][k] == s[k + 1];
        }
      }
      assert (set y | y in s) == {s[0]} + (set y | y in s[1..]) by {
        assert s == [s[0]] + s[1..];
      }
    }
  }

  // ------------------------------------------------------------------ AVG

  function Sum(xs: seq<real>): real
  {
    if xs == [] then 0.0 else xs[0] + Sum(xs[1..])
  }

  /** `m` is the arithmetic mean of the non-empty `xs`. */
  predicate MeanOf(m: real, xs: seq<real>)
  {
    xs != [] && m * (|xs| as real) == Sum(xs)
  }

  /** `AVG`: NULL over no rows, otherwise the arithmetic mean. */
  function Avg(xs: seq<real>): (r: Option<real>)
    ensures r.None? <==> xs == []
    ensures r.Some? ==> MeanOf(r.value, xs)
  {
    if xs == [] then None else Some(Sum(xs) / (|xs| as real))
  }

  lemma {:induction false} SumBounds(xs: seq<real>, lo: real, hi: real)
    requires forall i :: 0 <= i < |xs| ==> lo <= xs[i] <= hi
    ensures lo * (|xs| as real) <= Sum(xs) <= hi * (|xs| as real)
  {
    if xs != [] {
      SumBounds(xs[1..], lo, hi);
      assert lo * (|xs| as real) == lo + lo * (|xs[1..]| as real);
      assert hi * (|xs| as real) == hi + hi * (|xs[1..]| as real);
    }
  }

  /** The mean of values in [lo, hi] lies in [lo, hi]. */
  lemma AvgWithin(xs: seq<real>, lo: real, hi: real)
    requires xs != []
    requires forall i :: 0 <= i < |xs| ==> lo <= xs[i] <= hi
    ensures lo <= Avg(xs).value <= hi
  {
    SumBounds(xs, lo, hi);
    var n := |xs| as real;
    DivideBounds(Sum(xs), n, lo, hi);
  }

  lemma DivideBounds(total: real, n: real, lo: real, hi: real)
    requires n > 0.0 && lo * n <= total <= hi * n
    ensures lo <= total / n <= hi
  {
    var a := total / n;
    assert a * n == total;
    assert (a - lo) * n == total - lo * n;
    assert (hi - a) * n == hi * n - total;
  }

  // ----------------------------------------------------------------- text

  /** Binary collation: lexicographic order on characters. */
  predicate StrLe(a: string, b: string)
  {
    |a| == 0 || (|b| > 0 && (a[0] < b[0] || (a[0] == b[0] && StrLe(a[1..], b[1..]))))
  }

  lemma {:induction false} StrLeTotal(a: string, b: string)
    ensures StrLe(a, b) || StrLe(b, a)
  {
    if |a| > 0 && |b| > 0 && a[0] == b[0] {
      StrLeTotal(a[1..], b[1..]);
    }
  }

  lemma {:induction false} StrLeTransitive(a: string, b: string, c: string)
    requires StrLe(a, b) && StrLe(b, c)
    ensures StrLe(a, c)
  {
    if |a| > 0 && a[0] == b[0] && b[0] == c[0] {
      StrLeTransitive(a[1..], b[1..], c[1..]);
    }
  }

  lemma {:induction false} StrLeAntisymmetric(a: string, b: string)
    requires StrLe(a, b) && StrLe(b, a)
    ensures a == b
  {
    if |a| > 0 {
      StrLeAntisymmetric(a[1..], b[1..]);
      assert a == [a[0]] + a[1..] && b == [b[0]] + b[1..];
    }
  }

  /** ASCII lower-casing, the only case folding SQLite's LIKE does. */
  function Lower(c: char): char
  {
    if 'A' <= c <= 'Z' then (c as int + 32) as char else c
  }

  function Upper(c: char): char
  {
    if 'a' <= c <= 'z' then (c as int - 32) as char else c
  }

  function LowerStr(s: string): (r: string)
    ensures |r| == |s|
  {
    seq(|s|, i requires 0 <= i < |s| => Lower(s[i]))
  }

  function UpperStr(s: string): (r: string)
    ensures |r| == |s|
  {
    seq(|s|, i requires 0 <= i < |s| => Upper(s[i]))
  }

  /** Upper-casing a pattern does not change what it matches. */
  lemma LowerStrOfUpper(s: string)
    ensures LowerStr(UpperStr(s)) == LowerStr(s)
  {
  }

  predicate OccursAt(needle: string, hay: string, i: nat)
  {
    i + |needle| <= |hay| && hay[i..i + |needle|] == needle
  }

  predicate IsSubstring(needle: string, hay: string)
  {
    exists i: nat :: i <= |hay| && OccursAt(needle, hay, i)
  }

  /** `hay LIKE '%q%'` for a pattern without wildcards: q occurs in hay,
      ignoring ASCII letter case. */
  predicate LikeContains(hay: string, q: string)
  {
    IsSubstring(LowerStr(q), LowerStr(hay))
  }

  /** LIKE ignores ASCII letter case on both sides. */
  lemma LikeContainsIgnoresCase(hay: string, q: string)
    ensures LikeContains(UpperStr(hay), q) == LikeContains(hay, q)
    ensures LikeContains(hay, UpperStr(q)) == LikeContains(hay, q)
  {
    LowerStrOfUpper(hay);
    LowerStrOfUpper(q);
  }

  /** A text contains whatever is written inside it. */
  lemma LikeContainsInfix(a: string, q: string, b: string)
    ensures LikeContains(a + q + b, q)
  {
    var hay := LowerStr(a + q + b);
    assert hay[|a|..|a| + |q|] == LowerStr(q);
    assert OccursAt(LowerStr(q), hay, |a|);
  }
}
