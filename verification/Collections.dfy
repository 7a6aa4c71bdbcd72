/** Small facts about sequences and sets. */
module Collections {

  datatype Option<+T> = None | Some(value: T)

  function Min(a: nat, b: nat): nat {
    if a < b then a else b
  }

  /** One for true, zero for false: what counting sums up. */
  function Indicator(b: bool): int {
    if b then 1 else 0
  }

  function Most<T>(s: seq<T>): seq<T>
    requires s != []
  {
    s[..|s| - 1]
  }

  function Last<T>(s: seq<T>): T
    requires s != []
  {
    s[|s| - 1]
  }

  /** The sum of the first `n` elements. */
  function SumTo(s: seq<int>, n: nat): int
    requires n <= |s|
  {
    if n == 0 then 0 else SumTo(s, n - 1) + s[n - 1]
  }

  function Sum(s: seq<int>): int {
    SumTo(s, |s|)
  }

  lemma {:induction false} SumToUpdated(s: seq<int>, n: nat, i: nat, v: int)
    requires n <= |s| && i < |s|
    ensures SumTo(s[i := v], n) == SumTo(s, n) + if i < n then v - s[i] else 0
  {
    if n == 0 {
    } else {
      SumToUpdated(s, n - 1, i, v);
    }
  }

  lemma SumUpdated(s: seq<int>, i: nat, v: int)
    requires i < |s|
    ensures Sum(s[i := v]) == Sum(s) + v - s[i]
  {
    SumToUpdated(s, |s|, i, v);
  }

  lemma {:induction false} SumToPrefix(s: seq<int>, more: seq<int>, n: nat)
    requires n <= |s|
    ensures SumTo(s + more, n) == SumTo(s, n)
  {
    if n == 0 {
    } else {
      SumToPrefix(s, more, n - 1);
    }
  }

  lemma SumAppend(s: seq<int>, x: int)
    ensures Sum(s + [x]) == Sum(s) + x
  {
    SumToPrefix(s, [x], |s|);
  }

  lemma {:induction false} SumToDropFirst(s: seq<int>, n: nat)
    requires 0 < n <= |s|
    ensures SumTo(s, n) == s[0] + SumTo(s[1..], n - 1)
  {
    if n == 1 {
    } else {
      SumToDropFirst(s, n - 1);
    }
  }

  lemma SumDropFirst(s: seq<int>)
    requires s != []
    ensures Sum(s) == s[0] + Sum(s[1..])
  {
    SumToDropFirst(s, |s|);
  }

  lemma {:induction false} SumZero(s: seq<int>, n: nat)
    requires n <= |s| && forall i :: 0 <= i < n ==> s[i] == 0
    ensures SumTo(s, n) == 0
  {
    if n == 0 {
    } else {
      SumZero(s, n - 1);
    }
  }

  lemma {:induction false} SumToBound(s: seq<int>, n: nat, m: int)
    requires n <= |s| && forall i :: 0 <= i < n ==> s[i] <= m
    ensures SumTo(s, n) <= n * m
  {
    if n == 0 {
    } else {
      SumToBound(s, n - 1, m);
      assert n * m == (n - 1) * m + m;
    }
  }

  lemma SubsetSize<T>(a: set<T>, b: set<T>)
    requires a <= b
    ensures |a| <= |b|
    ensures |a| == |b| ==> a == b
  {
    assert b == a + (b - a);
  }

  function Elements<T(==)>(s: seq<T>): set<T> {
    set x | x in s
  }

  /** A sequence without repetitions has as many elements as positions. */
  lemma {:induction false} ElementsCount<T>(s: seq<T>)
    requires forall i, j :: 0 <= i < j < |s| ==> s[i] != s[j]
    ensures |Elements(s)| == |s|
    decreases |s|
  {
    if s == [] {
    } else {
      ElementsCount(Most(s));
      assert s == Most(s) + [Last(s)];
      assert Elements(s) == Elements(Most(s)) + {Last(s)};
    }
  }

  /** An element at two places is counted twice, and the other way round. */
  lemma TwiceCounted<T>(s: seq<T>, i: nat, j: nat)
    requires i < j < |s| && s[i] == s[j]
    ensures multiset(s)[s[i]] >= 2
  {
    assert s == s[..j] + [s[j]] + s[j + 1..];
    assert s[i] in s[..j];
  }

  lemma {:induction false} TwoPlaces<T>(s: seq<T>, x: T) returns (i: nat, j: nat)
    requires multiset(s)[x] >= 2
    ensures i < j < |s| && s[i] == s[j] == x
    decreases |s|
  {
    assert s != [];
    assert s == Most(s) + [Last(s)];
    if Last(s) == x {
      assert x in Most(s);
      i :| 0 <= i < |Most(s)| && Most(s)[i] == x;
      j := |s| - 1;
    } else {
      i, j := TwoPlaces(Most(s), x);
    }
  }
}
