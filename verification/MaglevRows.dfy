/** The permutation rows of the Maglev table (section 3.4 of the Maglev paper): entry `i` of a row is
    `(offset + i * skip) mod 65537`. Because 65537 is prime, any skip below it makes the row visit
    every slot exactly once. */
module MaglevRows {
  import opened Collections

  const TABLE_SIZE: nat := 65537

  ghost predicate Prime(p: nat) {
    p >= 2 && forall d :: 2 <= d < p ==> p % d != 0
  }

  // ---------- arithmetic ----------

  lemma MulGap(a: int, b: int, m: int)
    requires a < b && m >= 0
    ensures a * m + m <= b * m
  {
    assert b * m == a * m + (b - a) * m;
    assert (b - a - 1) * m >= 0;
  }

  lemma DivModUnique(n: int, m: int, q: int, r: int)
    requires m > 0 && n == q * m + r && 0 <= r < m
    ensures n / m == q && n % m == r
  {
    var d := n / m;
    assert n == d * m + n % m;
    if d < q {
      MulGap(d, q, m);
    } else if d > q {
      MulGap(q, d, m);
    }
  }

  // ---------- 65537 is prime ----------

  /** None of the four numbers from `lo` divides `p`. */
  predicate NoneOfFour(p: nat, lo: nat)
    requires 0 < lo
  {
    p % lo != 0 && p % (lo + 1) != 0 && p % (lo + 2) != 0 && p % (lo + 3) != 0
  }

  /** None of the sixteen numbers from `lo` divides `p`. */
  predicate NoDivisorFrom(p: nat, lo: nat)
    requires 0 < lo
  {
    NoneOfFour(p, lo) && NoneOfFour(p, lo + 4) && NoneOfFour(p, lo + 8) && NoneOfFour(p, lo + 12)
  }

  lemma NoneOfFourMeans(p: nat, lo: nat, d: nat)
    requires 0 < lo && NoneOfFour(p, lo) && lo <= d < lo + 4
    ensures p % d != 0
  {
    if d == lo {
      assert p % lo != 0;
    } else if d == lo + 1 {
      assert p % (lo + 1) != 0;
    } else if d == lo + 2 {
      assert p % (lo + 2) != 0;
    } else {
      assert p % (lo + 3) != 0;
    }
  }

  lemma NoDivisorMeans(p: nat, lo: nat, d: nat)
    requires 0 < lo && NoDivisorFrom(p, lo) && lo <= d < lo + 16
    ensures p % d != 0
  {
    var from := if d < lo + 4 then lo else if d < lo + 8 then lo + 4 else if d < lo + 12 then lo + 8 else lo + 12;
    NoneOfFourMeans(p, from, d);
  }

  lemma TrialDivisionLow(lo: nat)
    requires lo in {2, 18, 34, 50, 66, 82, 98, 114}
    ensures NoDivisorFrom(65537, lo)
  {
  }

  lemma TrialDivisionHigh(lo: nat)
    requires lo in {130, 146, 162, 178, 194, 210, 226, 242}
    ensures NoDivisorFrom(65537, lo)
  {
  }

  /** Trial division of 65537. */
  lemma NoSmallDivisor(d: nat)
    requires 2 <= d < 258
    ensures 65537 % d != 0
  {
    var lo := 2 + (d - 2) / 16 * 16;
    if lo < 130 {
      TrialDivisionLow(lo);
    } else {
      TrialDivisionHigh(lo);
    }
    NoDivisorMeans(65537, lo, d);
  }

  /** Of two factors one is at most the square root. */
  lemma SmallerFactor(d: nat, e: nat, k: nat)
    requires d * e < k * k
    ensures d < k || e < k
  {
    if d >= k && e >= k {
      MulMonotone(d, e, k);
    }
  }

  lemma MulMonotone(d: nat, e: nat, k: nat)
    requires d >= k && e >= k
    ensures d * e >= k * k
  {
    assert d * e == k * k + k * (e - k) + (d - k) * e;
  }

  lemma SmallFactor(p: nat, d: nat, k: nat) returns (f: nat)
    requires 2 <= d < p < k * k && p % d == 0
    ensures 2 <= f < k && p % f == 0
  {
    var e := p / d;
    assert p == d * e;
    assert e >= 2;
    SmallerFactor(d, e, k);
    DivModUnique(p, e, d, 0);
    f := if d < k then d else e;
  }

  /** Trial division only has to go up to the square root. */
  lemma PrimeByTrial(p: nat, k: nat)
    requires 2 <= p < k * k
    requires forall d :: 2 <= d < k ==> p % d != 0
    ensures Prime(p)
  {
    forall d | 2 <= d < p ensures p % d != 0 {
      if p % d == 0 {
        var f := SmallFactor(p, d, k);
      }
    }
  }

  lemma TableSizeIsPrime()
    ensures Prime(TABLE_SIZE)
  {
    forall d | 2 <= d < 257 ensures 65537 % d != 0 {
      NoSmallDivisor(d);
    }
    PrimeByTrial(65537, 257);
  }

  /** Euclid's lemma: a prime that divides `a * b` and is above `a` divides `b`. */
  lemma {:induction false} PrimeDivides(p: nat, a: nat, b: nat, m: int) returns (n: int)
    requires Prime(p) && 0 < a < p && a * b == p * m
    ensures b == p * n
    decreases a
  {
    if a == 1 {
      n := m;
    } else {
      var q, r := p / a, p % a;
      assert p == q * a + r && 0 < r < a;
      calc {
        r * b;
        (p - q * a) * b;
        p * b - (q * a) * b;
        { assert (q * a) * b == q * (a * b); }
        p * b - q * (p * m);
        { assert q * (p * m) == p * (q * m); }
        p * b - p * (q * m);
        p * (b - q * m);
      }
      n := PrimeDivides(p, r, b, b - q * m);
    }
  }

  // ---------- rows ----------

  function RowAt(offset: nat, skip: nat, size: nat, i: nat): nat
    requires size > 0
  {
    (offset + i * skip) % size
  }

  function Row(offset: nat, skip: nat, size: nat): seq<nat>
    requires size > 0
  {
    seq(size, i requires 0 <= i < size => RowAt(offset, skip, size, i))
  }

  /** The row starts at `start` and steps on by `stride`, going round after the last slot. */
  ghost predicate Strides(row: seq<nat>, start: nat, stride: nat, size: nat)
    requires size > 0
  {
    |row| == size && row[0] == start && forall i :: 0 < i < size ==> row[i] == (row[i - 1] + stride) % size
  }

  lemma ModOfSum(x: nat, s: nat, sum: nat, size: nat)
    requires size > 0 && sum == x + s
    ensures sum % size == (x % size + s) % size
  {
    var q, r := x / size, (x % size + s) % size;
    var d := (x % size + s) / size;
    assert sum == (q + d) * size + r;
    DivModUnique(sum, size, q + d, r);
  }

  lemma NextMultiple(offset: nat, skip: nat, i: nat)
    requires i > 0
    ensures offset + i * skip == offset + (i - 1) * skip + skip
  {
  }

  lemma RowAtNext(offset: nat, skip: nat, size: nat, i: nat)
    requires size > 0 && i > 0
    ensures RowAt(offset, skip, size, i) == (RowAt(offset, skip, size, i - 1) + skip) % size
  {
    NextMultiple(offset, skip, i);
    var before, now := offset + (i - 1) * skip, offset + i * skip;
    assert now == before + skip;
    ModOfSum(offset + (i - 1) * skip, skip, offset + i * skip, size);
  }

  /** The row as a formula and the row as a walk are one. */
  lemma RowStrides(offset: nat, skip: nat, size: nat)
    requires offset < size
    ensures Strides(Row(offset, skip, size), offset, skip, size)
  {
    var row := Row(offset, skip, size);
    DivModUnique(offset + 0 * skip, size, 0, offset);
    forall i | 0 < i < size ensures row[i] == (row[i - 1] + skip) % size {
      RowAtNext(offset, skip, size, i);
    }
  }

  /** Every slot below `size` occurs in the row exactly once. */
  ghost predicate IsPermutation(row: seq<nat>, size: nat) {
    && |row| == size
    && (forall i :: 0 <= i < size ==> row[i] < size)
    && (forall i, j :: 0 <= i < j < size ==> row[i] != row[j])
    && (forall slot :: 0 <= slot < size ==> slot in row)
  }

  lemma SameRemainder(x: nat, y: nat, size: nat) returns (m: int)
    requires size > 0 && x % size == y % size
    ensures y - x == size * m
  {
    m := y / size - x / size;
    assert x == size * (x / size) + x % size;
    assert y == size * (y / size) + y % size;
    assert size * m == size * (y / size) - size * (x / size);
  }

  lemma RowInjective(offset: nat, skip: nat, size: nat, i: nat, j: nat)
    requires Prime(size) && 0 < skip < size && i < j < size
    ensures RowAt(offset, skip, size, i) != RowAt(offset, skip, size, j)
  {
    if RowAt(offset, skip, size, i) == RowAt(offset, skip, size, j) {
      var m := SameRemainder(offset + i * skip, offset + j * skip, size);
      assert skip * (j - i) == j * skip - i * skip;
      var n := PrimeDivides(size, skip, j - i, m);
      DivModUnique(j - i, size, 0, j - i);
      DivModUnique(j - i, size, n, 0);
    }
  }

  // ---------- pigeonhole ----------

  function Below(n: nat): set<nat> {
    if n == 0 then {} else Below(n - 1) + {n - 1}
  }

  lemma {:induction false} BelowSize(n: nat)
    ensures |Below(n)| == n && forall x: nat :: x in Below(n) <==> x < n
  {
    if n == 0 {
    } else {
      BelowSize(n - 1);
    }
  }

  lemma InjectiveIsPermutation(s: seq<nat>, size: nat)
    requires |s| == size && forall i :: 0 <= i < size ==> s[i] < size
    requires forall i, j :: 0 <= i < j < size ==> s[i] != s[j]
    ensures IsPermutation(s, size)
  {
    ElementsCount(s);
    BelowSize(size);
    SubsetSize(Elements(s), Below(size));
    forall slot | 0 <= slot < size ensures slot in s {
      assert slot in Below(size);
    }
  }

  /** Fewer than `size` distinct slots leave one free. */
  lemma FreeSlotExists(taken: set<nat>, size: nat) returns (slot: nat)
    requires |taken| < size
    ensures slot < size && slot !in taken
  {
    BelowSize(size);
    assert taken == taken * Below(size) + (taken - Below(size));
    assert Below(size) - taken != {} by {
      assert Below(size) == taken * Below(size) + (Below(size) - taken);
    }
    slot :| slot in Below(size) && slot !in taken;
  }

  /** Every row is a permutation of the slots. */
  lemma RowIsPermutation(offset: nat, skip: nat, size: nat)
    requires Prime(size) && 0 < skip < size
    ensures IsPermutation(Row(offset, skip, size), size)
  {
    var row := Row(offset, skip, size);
    forall i, j | 0 <= i < j < size ensures row[i] != row[j] {
      RowInjective(offset, skip, size, i, j);
    }
    InjectiveIsPermutation(row, size);
  }
}
