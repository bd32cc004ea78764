/** Sequence utilities behind the queries: WHERE filters, ORDER BY sorts, repeated join rows. */
module Sequences {

  /** Strictly increasing key (`ORDER BY key` over a unique key). */
  predicate Ascending<T>(s: seq<T>, key: T -> int) {
    forall i, j :: 0 <= i < j < |s| ==> key(s[i]) < key(s[j])
  }

  /** Non-increasing key (`ORDER BY key DESC`). */
  predicate NonIncreasing<T>(s: seq<T>, key: T -> int) {
    forall i, j :: 0 <= i < j < |s| ==> key(s[i]) >= key(s[j])
  }

  function Identity(x: int): int { x }

  /** The elements of `s` satisfying `p`, in their original order. */
  function Filter<T(!new)>(s: seq<T>, p: T -> bool): (r: seq<T>)
    ensures |r| <= |s|
    ensures forall x :: x in r <==> x in s && p(x)
    ensures forall x :: multiset(r)[x] == if p(x) then multiset(s)[x] else 0
  {
    if s == [] then []
    else
      assert s == [s[0]] + s[1..];
      (if p(s[0]) then [s[0]] else []) + Filter(s[1..], p)
  }

  lemma AscendingHead<T>(s: seq<T>, key: T -> int, x: T)
    requires Ascending(s, key) && s != [] && x in s[1..]
    ensures key(s[0]) < key(x)
  {
    var k :| 0 <= k < |s[1..]| && s[1..][k] == x;
    assert s[k + 1] == x;
  }

  lemma AscendingCons<T>(x: T, t: seq<T>, key: T -> int)
    requires Ascending(t, key)
    requires forall y :: y in t ==> key(x) < key(y)
    ensures Ascending([x] + t, key)
  {
    var r := [x] + t;
    forall i, j | 0 <= i < j < |r| ensures key(r[i]) < key(r[j]) {
      assert r[j] == t[j - 1] && r[j] in t;
      if i > 0 {
        assert r[i] == t[i - 1];
      }
    }
  }

  /** Filtering keeps an ascending order. */
  lemma {:induction false} FilterAscending<T(!new)>(s: seq<T>, p: T -> bool, key: T -> int)
    requires Ascending(s, key)
    ensures Ascending(Filter(s, p), key)
  {
    if s != [] {
      var t := Filter(s[1..], p);
      FilterAscending(s[1..], p, key);
      if p(s[0]) {
        forall y | y in t ensures key(s[0]) < key(y) {
          AscendingHead(s, key, y);
        }
        AscendingCons(s[0], t, key);
      }
    }
  }

  lemma AscendingSnoc<T>(s: seq<T>, x: T, key: T -> int)
    requires Ascending(s, key)
    requires forall y :: y in s ==> key(y) < key(x)
    ensures Ascending(s + [x], key)
  {
    var r := s + [x];
    forall i, j | 0 <= i < j < |r| ensures key(r[i]) < key(r[j]) {
      assert r[i] == s[i] && r[i] in s;
      if j < |s| {
        assert r[j] == s[j];
      }
    }
  }

  /** In an ascending sequence the key identifies the element. */
  lemma AscendingKeyIdentifies<T(!new)>(s: seq<T>, key: T -> int)
    requires Ascending(s, key)
    ensures KeyIdentifies(s, key)
  {
    forall x, y | x in s && y in s && key(x) == key(y) ensures x == y {
      var i :| 0 <= i < |s| && s[i] == x;
      var j :| 0 <= j < |s| && s[j] == y;
      assert i == j;
    }
  }

  /** No element repeats. */
  ghost predicate Distinct<T>(s: seq<T>) {
    forall i, j :: 0 <= i < j < |s| ==> s[i] != s[j]
  }

  /** Filtering with a predicate every element satisfies keeps the whole sequence. */
  lemma {:induction false} FilterAll<T(!new)>(s: seq<T>, p: T -> bool)
    requires forall x :: x in s ==> p(x)
    ensures Filter(s, p) == s
  {
    if s != [] {
      assert s[0] in s;
      FilterAll(s[1..], p);
    }
  }

  /** Two ascending sequences with the same elements are equal. */
  lemma {:induction false} AscendingUnique<T>(a: seq<T>, b: seq<T>, key: T -> int)
    requires Ascending(a, key) && Ascending(b, key)
    requires forall x :: x in a <==> x in b
    ensures a == b
  {
    if a != [] { assert a[0] in b; }
    if b != [] { assert b[0] in a; }
    if a != [] {
      var k :| 0 <= k < |a| && a[k] == b[0];
      var m :| 0 <= m < |b| && b[m] == a[0];
      assert key(a[0]) <= key(a[k]);
      assert key(b[0]) <= key(b[m]);
      assert k == 0;
      assert a == [a[0]] + a[1..] && b == [b[0]] + b[1..];
      forall x ensures x in a[1..] <==> x in b[1..] {
        if x in a[1..] {
          AscendingHead(a, key, x);
          assert x in b && x != b[0];
        }
        if x in b[1..] {
          AscendingHead(b, key, x);
          assert x in a && x != a[0];
        }
      }
      AscendingUnique(a[1..], b[1..], key);
      assert a == [a[0]] + a[1..] && b == [b[0]] + b[1..];
    }
  }

  lemma NonIncreasingHead<T>(s: seq<T>, key: T -> int, y: T)
    requires NonIncreasing(s, key) && y in s
    ensures key(y) <= key(s[0])
  {
    var k :| 0 <= k < |s| && s[k] == y;
  }

  lemma NonIncreasingCons<T>(x: T, t: seq<T>, key: T -> int)
    requires NonIncreasing(t, key)
    requires forall y :: y in t ==> key(y) <= key(x)
    ensures NonIncreasing([x] + t, key)
  {
    var r := [x] + t;
    forall i, j | 0 <= i < j < |r| ensures key(r[i]) >= key(r[j]) {
      assert r[j] == t[j - 1] && r[j] in t;
      if i > 0 {
        assert r[i] == t[i - 1];
      }
    }
  }

  /** Places `x` before the first element whose key is not greater than its own. */
  function Insert<T>(x: T, s: seq<T>, key: T -> int): (r: seq<T>)
    ensures |r| == |s| + 1
    ensures multiset(r) == multiset(s) + multiset{x}
    ensures NonIncreasing(s, key) ==> NonIncreasing(r, key)
  {
    if s == [] || key(s[0]) <= key(x) then
      assert NonIncreasing(s, key) ==> NonIncreasing([x] + s, key) by {
        if NonIncreasing(s, key) {
          forall y | y in s ensures key(y) <= key(x) {
            NonIncreasingHead(s, key, y);
          }
          NonIncreasingCons(x, s, key);
        }
      }
      [x] + s
    else
      var t := Insert(x, s[1..], key);
      assert s == [s[0]] + s[1..];
      assert NonIncreasing(s, key) ==> NonIncreasing([s[0]] + t, key) by {
        if NonIncreasing(s, key) {
          assert NonIncreasing(s[1..], key);
          forall y | y in t ensures key(y) <= key(s[0]) {
            assert y in multiset(t);
            if y != x {
              assert y in multiset(s[1..]);
              NonIncreasingHead(s, key, y);
            }
          }
          NonIncreasingCons(s[0], t, key);
        }
      }
      [s[0]] + t
  }

  /** Stable sort by descending key (List.sort with a reversed comparator). */
  function SortDesc<T>(s: seq<T>, key: T -> int): (r: seq<T>)
    ensures |r| == |s|
    ensures multiset(r) == multiset(s)
    ensures NonIncreasing(r, key)
  {
    if s == [] then []
    else
      assert s == [s[0]] + s[1..];
      Insert(s[0], SortDesc(s[1..], key), key)
  }

  /** The elements of `s` whose key is `k`, in order: what a stable sort must not reorder. */
  function WithKey<T>(s: seq<T>, key: T -> int, k: int): seq<T> {
    if s == [] then []
    else (if key(s[0]) == k then [s[0]] else []) + WithKey(s[1..], key, k)
  }

  lemma {:induction false} InsertWithKey<T>(x: T, s: seq<T>, key: T -> int, k: int)
    ensures WithKey(Insert(x, s, key), key, k) == (if key(x) == k then [x] else []) + WithKey(s, key, k)
  {
    if s == [] || key(s[0]) <= key(x) {
      assert ([x] + s)[1..] == s;
    } else {
      var t := Insert(x, s[1..], key);
      var head, front := if key(s[0]) == k then [s[0]] else [], if key(x) == k then [x] else [];
      calc {
        WithKey(Insert(x, s, key), key, k);
        WithKey([s[0]] + t, key, k);
        { assert ([s[0]] + t)[1..] == t; }
        head + WithKey(t, key, k);
        { InsertWithKey(x, s[1..], key, k); }
        head + (front + WithKey(s[1..], key, k));
        // key(x) < key(s[0]), so at most one of the two is non-empty
        front + (head + WithKey(s[1..], key, k));
        front + WithKey(s, key, k);
      }
    }
  }

  /** The sort is stable: among equal keys the input order survives. */
  lemma {:induction false} SortDescStable<T>(s: seq<T>, key: T -> int, k: int)
    ensures WithKey(SortDesc(s, key), key, k) == WithKey(s, key, k)
  {
    if s != [] {
      SortDescStable(s[1..], key, k);
      InsertWithKey(s[0], SortDesc(s[1..], key), key, k);
    }
  }

  /** A prefix keeps the elements it takes and the order of a sorted sequence. */
  lemma PrefixOfSorted<T>(s: seq<T>, key: T -> int, n: nat)
    requires n <= |s| && NonIncreasing(s, key)
    ensures multiset(s[..n]) <= multiset(s)
    ensures NonIncreasing(s[..n], key)
  {
    assert s == s[..n] + s[n..];
    assert multiset(s) == multiset(s[..n]) + multiset(s[n..]);
    forall i, j | 0 <= i < j < n ensures key(s[..n][i]) >= key(s[..n][j]) {
      assert s[..n][i] == s[i] && s[..n][j] == s[j];
    }
  }

  /** What a prefix of a non-increasing sequence leaves out has no larger key than what it keeps. */
  lemma PrefixIsTop<T>(s: seq<T>, key: T -> int, n: nat)
    requires n <= |s| && NonIncreasing(s, key)
    ensures forall x, y :: x in s[..n] && y in s && y !in s[..n] ==> key(y) <= key(x)
  {
    assert forall m :: 0 <= m < n ==> s[m] in s[..n];
    forall x, y | x in s[..n] && y in s && y !in s[..n] ensures key(y) <= key(x) {
      var i :| 0 <= i < n && s[..n][i] == x;
      var j :| 0 <= j < |s| && s[j] == y;
      assert s[i] == x;
    }
  }

  /** Keeping equal keys commutes with taking a prefix. */
  lemma {:induction false} WithKeyPrefix<T>(a: seq<T>, b: seq<T>, key: T -> int, k: int)
    requires a <= b
    ensures WithKey(a, key, k) <= WithKey(b, key, k)
  {
    if a != [] {
      assert a[1..] <= b[1..];
      WithKeyPrefix(a[1..], b[1..], key, k);
    }
  }

  /** Elements of `s` with the same key are the same element. */
  ghost predicate KeyIdentifies<T(!new)>(s: seq<T>, key: T -> int) {
    forall x, y :: x in s && y in s && key(x) == key(y) ==> x == y
  }

  lemma KeyIdentifiesTail<T(!new)>(s: seq<T>, key: T -> int)
    requires KeyIdentifies(s, key) && s != []
    ensures KeyIdentifies(s[1..], key)
  {
    forall x, y | x in s[1..] && y in s[1..] && key(x) == key(y) ensures x == y {
      assert x in s && y in s;
    }
  }

  lemma SortedHeadsEqual<T(!new)>(a: seq<T>, b: seq<T>, key: T -> int)
    requires NonIncreasing(a, key) && NonIncreasing(b, key) && KeyIdentifies(a, key)
    requires multiset(a) == multiset(b) && a != [] && b != []
    ensures a[0] == b[0]
  {
    assert a[0] in multiset(b) && b[0] in multiset(a);
    NonIncreasingHead(a, key, b[0]);
    NonIncreasingHead(b, key, a[0]);
  }

  lemma NonIncreasingTail<T>(s: seq<T>, key: T -> int)
    requires NonIncreasing(s, key) && s != []
    ensures NonIncreasing(s[1..], key)
  {
    forall i, j | 0 <= i < j < |s[1..]| ensures key(s[1..][i]) >= key(s[1..][j]) {
      assert s[1..][i] == s[i + 1] && s[1..][j] == s[j + 1];
    }
  }

  lemma MultisetTail<T>(a: seq<T>)
    requires a != []
    ensures multiset(a[1..]) == multiset(a) - multiset{a[0]}
  {
    assert a == [a[0]] + a[1..];
  }

  /** Sorted sequences with the same elements are equal when the key identifies the element. */
  lemma {:induction false} SortedUnique<T(!new)>(a: seq<T>, b: seq<T>, key: T -> int)
    requires NonIncreasing(a, key) && NonIncreasing(b, key) && KeyIdentifies(a, key)
    requires multiset(a) == multiset(b)
    ensures a == b
  {
    assert |a| == |multiset(a)| == |multiset(b)| == |b|;
    if a != [] {
      SortedHeadsEqual(a, b, key);
      MultisetTail(a);
      MultisetTail(b);
      KeyIdentifiesTail(a, key);
      NonIncreasingTail(a, key);
      NonIncreasingTail(b, key);
      SortedUnique(a[1..], b[1..], key);
      HeadTailEqual(a, b);
    }
  }

  /** Two non-empty sequences with equal heads and equal tails are equal. */
  lemma HeadTailEqual<T>(a: seq<T>, b: seq<T>)
    requires a != [] && b != [] && a[0] == b[0] && a[1..] == b[1..]
    ensures a == b
  {
    assert a == [a[0]] + a[1..] && b == [b[0]] + b[1..];
  }

  lemma NoElementsMeansEmpty(s: set<int>)
    requires forall x :: x !in s
    ensures s == {}
  {
    assert forall x :: x in s <==> x in {};
  }

  /** A non-empty set has an element to pick. */
  lemma NonEmptyHasElement(s: set<int>)
    requires s != {}
    ensures exists x :: x in s
  {
    if forall x :: x !in s {
      NoElementsMeansEmpty(s);
      assert false;
    }
  }

  lemma {:induction false} LeastElement(s: set<int>) returns (m: int)
    requires s != {}
    ensures m in s && forall x :: x in s ==> m <= x
    decreases |s|
  {
    NonEmptyHasElement(s);
    var y :| y in s;
    if s == {y} {
      m := y;
    } else {
      var n := LeastElement(s - {y});
      m := if y < n then y else n;
      forall x | x in s ensures m <= x {
        if x != y {
          assert x in s - {y};
        }
      }
    }
  }

  /** The least element of a non-empty set of integers. */
  function MinOf(s: set<int>): (m: int)
    requires s != {}
    ensures m in s && forall x :: x in s ==> m <= x
  {
    MinExists(s);
    var m :| m in s && forall x :: x in s ==> m <= x;
    m
  }

  lemma MinExists(s: set<int>)
    requires s != {}
    ensures exists m :: m in s && forall x :: x in s ==> m <= x
  {
    var m := LeastElement(s);
  }

  /** The elements of a set of integers in ascending order. */
  function SetToSeq(s: set<int>): (r: seq<int>)
    ensures |r| == |s|
    ensures forall x :: x in r <==> x in s
    ensures Ascending(r, Identity)
    decreases |s|
  {
    if s == {} then []
    else
      var m := MinOf(s);
      var t := SetToSeq(s - {m});
      ConsAscending(m, t);
      [m] + t
  }

  /** Putting a value below every element in front of an ascending sequence keeps it ascending. */
  lemma ConsAscending(m: int, t: seq<int>)
    requires Ascending(t, Identity) && forall x :: x in t ==> m < x
    ensures Ascending([m] + t, Identity)
  {
    var r := [m] + t;
    forall i, j | 0 <= i < j < |r| ensures r[i] < r[j] {
      if i == 0 {
        assert r[j] == t[j - 1] && r[j] in t;
      } else {
        assert r[i] == t[i - 1] && r[j] == t[j - 1];
      }
    }
  }

  /** Each member of the set occurs exactly once in its listing. */
  lemma SetToSeqCount(s: set<int>)
    ensures forall x :: multiset(SetToSeq(s))[x] == if x in s then 1 else 0
  {
  }

  /** `n` copies of `x`. */
  function Repeat<T>(x: T, n: nat): (r: seq<T>)
    ensures |r| == n
    ensures forall i :: 0 <= i < n ==> r[i] == x
  {
    if n == 0 then [] else [x] + Repeat(x, n - 1)
  }

  /** Each element of `s` repeated `mult(x)` times, in order: one result row per matching join row. */
  function Expand<T(!new)>(s: seq<T>, mult: T -> nat): (r: seq<T>)
    ensures forall x :: x in r ==> x in s
  {
    if s == [] then []
    else
      assert s == [s[0]] + s[1..];
      Repeat(s[0], mult(s[0])) + Expand(s[1..], mult)
  }

  lemma {:induction false} RepeatCount<T>(x: T, n: nat, y: T)
    ensures multiset(Repeat(x, n))[y] == if x == y then n else 0
  {
    if n > 0 {
      RepeatCount(x, n - 1, y);
      assert Repeat(x, n) == [x] + Repeat(x, n - 1);
    }
  }

  /** Without duplicates in `s`, every element occurs exactly `mult(x)` times after expansion. */
  lemma {:induction false} ExpandCount<T(!new)>(s: seq<T>, mult: T -> nat, x: T)
    requires Distinct(s)
    ensures multiset(Expand(s, mult))[x] == if x in s then mult(x) else 0
  {
    if s != [] {
      assert s == [s[0]] + s[1..];
      assert Distinct(s[1..]) by {
        forall i, j | 0 <= i < j < |s[1..]| ensures s[1..][i] != s[1..][j] {
          assert s[1..][i] == s[i + 1] && s[1..][j] == s[j + 1];
        }
      }
      ExpandCount(s[1..], mult, x);
      RepeatCount(s[0], mult(s[0]), x);
      assert s[0] !in s[1..] by {
        forall k | 0 <= k < |s[1..]| ensures s[1..][k] != s[0] {
          assert s[1..][k] == s[k + 1];
        }
      }
    }
  }
}
