/** Decimal numerals: the plain ones that name virtual nodes on a hash ring, and the zero-padded
    ones that name snapshot files. */
module Decimal {
  import opened Lexicographic

  function Digit(d: nat): (c: char)
    requires d < 10
    ensures '0' <= c <= '9'
  {
    ('0' as int + d) as char
  }

  predicate IsDigit(c: char) {
    '0' <= c <= '9'
  }

  lemma DigitInjective(a: nat, b: nat)
    requires a < 10 && b < 10
    ensures Digit(a) == Digit(b) <==> a == b
    ensures Digit(a) < Digit(b) <==> a < b
  {
  }

  function Numeral(n: nat): (s: string)
    ensures s != ""
  {
    if n < 10 then [Digit(n)] else Numeral(n / 10) + [Digit(n % 10)]
  }

  lemma {:induction false} NumeralDigits(n: nat)
    ensures forall i :: 0 <= i < |Numeral(n)| ==> IsDigit(Numeral(n)[i])
  {
    if n < 10 {
    } else {
      NumeralDigits(n / 10);
    }
  }

  /** The number a string of digits stands for. */
  function Value(s: string): int
    requires forall i :: 0 <= i < |s| ==> IsDigit(s[i])
  {
    if s == "" then 0 else 10 * Value(s[..|s| - 1]) + (s[|s| - 1] as int - '0' as int)
  }

  /** A numeral stands for its number, without leading zeros. */
  lemma {:induction false} NumeralValue(n: nat)
    ensures (forall i :: 0 <= i < |Numeral(n)| ==> IsDigit(Numeral(n)[i])) && Value(Numeral(n)) == n
    ensures n > 0 ==> Numeral(n)[0] != '0'
  {
    NumeralDigits(n);
    var s := Numeral(n);
    if n < 10 {
      assert s[..0] == "";
    } else {
      NumeralValue(n / 10);
      assert s[..|s| - 1] == Numeral(n / 10);
    }
  }

  lemma NumeralLength(n: nat)
    ensures |Numeral(n)| >= 2 <==> n >= 10
  {
  }

  lemma {:induction false} NumeralInjective(a: nat, b: nat)
    requires Numeral(a) == Numeral(b)
    ensures a == b
    decreases a
  {
    var s := Numeral(a);
    NumeralLength(a);
    NumeralLength(b);
    if a < 10 && b < 10 {
      DigitInjective(a, b);
    } else if a >= 10 && b >= 10 {
      assert s[..|s| - 1] == Numeral(a / 10) == Numeral(b / 10);
      assert s[|s| - 1] == Digit(a % 10) == Digit(b % 10);
      NumeralInjective(a / 10, b / 10);
      DigitInjective(a % 10, b % 10);
    }
  }

  const MIN_INT64 := -0x8000_0000_0000_0000

  /** Negation in 64 bits, which leaves the least number as it is. */
  function Negated(n: int): int {
    if n == MIN_INT64 then n else -n
  }

  /** The loop that writes a number's digits from the back, and a sign in front. The least 64-bit
      number has no positive counterpart, and gets the sign alone. */
  method IntToString(n: int) returns (s: string)
    ensures n >= 0 ==> s == Numeral(n)
    ensures MIN_INT64 != n < 0 ==> s == "-" + Numeral(-n)
    ensures n == MIN_INT64 ==> s == "-"
  {
    if n == 0 {
      return "0";
    }
    s := "";
    var positive := if n < 0 then Negated(n) else n;
    var rest := positive;
    while rest > 0
      invariant positive > 0 ==> rest >= 0 && Numeral(positive) == (if rest > 0 then Numeral(rest) + s else s)
      invariant positive <= 0 ==> rest == positive && s == ""
    {
      s := [Digit(rest % 10)] + s;
      rest := rest / 10;
    }
    if n < 0 {
      s := "-" + s;
    }
  }

  /** The separator of the longer prefix would fall among the digits after the shorter one. */
  lemma PrefixNotShorter(p: string, q: string, sep: char, a: nat, rest: string)
    requires !IsDigit(sep) && p + [sep] + Numeral(a) == q + [sep] + rest
    ensures |q| <= |p|
  {
    NumeralDigits(a);
    var s := p + [sep] + Numeral(a);
    assert s[|q|] == sep;
    assert forall i :: |p| < i < |s| ==> s[i] == Numeral(a)[i - |p| - 1];
  }

  /** A name made of a prefix, a separator and a number determines both. */
  lemma NumberedNameInjective(p: string, q: string, sep: char, a: nat, b: nat)
    requires !IsDigit(sep) && p + [sep] + Numeral(a) == q + [sep] + Numeral(b)
    ensures p == q && a == b
  {
    PrefixNotShorter(p, q, sep, a, Numeral(b));
    PrefixNotShorter(q, p, sep, b, Numeral(a));
    var s := p + [sep] + Numeral(a);
    assert p == s[..|p|] == q;
    assert Numeral(a) == s[|p| + 1..] == Numeral(b);
    NumeralInjective(a, b);
  }

  // ---------- zero-padded ----------

  function Power10(w: nat): nat {
    if w == 0 then 1 else 10 * Power10(w - 1)
  }

  /** The last `w` decimal digits of `n`. */
  function Pad(n: nat, w: nat): (s: string)
    ensures |s| == w
  {
    if w == 0 then "" else Pad(n / 10, w - 1) + [Digit(n % 10)]
  }

  /** Below the width's limit, the padded numeral stands for its number. */
  lemma {:induction false} PadValue(n: nat, w: nat)
    requires n < Power10(w)
    ensures (forall i :: 0 <= i < w ==> IsDigit(Pad(n, w)[i])) && Value(Pad(n, w)) == n
    decreases w
  {
    if w == 0 {
    } else {
      PadValue(n / 10, w - 1);
      assert Pad(n, w)[..w - 1] == Pad(n / 10, w - 1);
    }
  }

  lemma {:induction false} LessAppend(x: string, y: string, c: char, d: char)
    requires |x| == |y|
    ensures Less(x + [c], y + [d]) <==> Less(x, y) || (x == y && c < d)
    decreases |x|
  {
    if x == "" {
    } else {
      assert (x + [c])[1..] == x[1..] + [c] && (y + [d])[1..] == y[1..] + [d];
      LessAppend(x[1..], y[1..], c, d);
      assert x == [x[0]] + x[1..] && y == [y[0]] + y[1..];
    }
  }

  lemma {:induction false} PadInjective(a: nat, b: nat, w: nat)
    requires a < Power10(w) && b < Power10(w)
    ensures Pad(a, w) == Pad(b, w) <==> a == b
    decreases w
  {
    if w == 0 {
    } else {
      PadInjective(a / 10, b / 10, w - 1);
      DigitInjective(a % 10, b % 10);
      var s, t := Pad(a, w), Pad(b, w);
      assert s[..w - 1] == Pad(a / 10, w - 1) && t[..w - 1] == Pad(b / 10, w - 1);
      assert s[w - 1] == Digit(a % 10) && t[w - 1] == Digit(b % 10);
    }
  }

  /** Zero-padded numerals of equal width sort as strings exactly as their numbers do. */
  lemma {:induction false} PadOrder(a: nat, b: nat, w: nat)
    requires a < Power10(w) && b < Power10(w)
    ensures Less(Pad(a, w), Pad(b, w)) <==> a < b
    decreases w
  {
    if w == 0 {
    } else {
      PadOrder(a / 10, b / 10, w - 1);
      PadInjective(a / 10, b / 10, w - 1);
      DigitInjective(a % 10, b % 10);
      LessAppend(Pad(a / 10, w - 1), Pad(b / 10, w - 1), Digit(a % 10), Digit(b % 10));
    }
  }

  /** A common prefix and suffix do not affect the order of strings of equal length. */
  lemma {:induction false} LessPrefix(p: string, x: string, y: string)
    ensures Less(p + x, p + y) <==> Less(x, y)
    decreases |p|
  {
    if p == "" {
      assert p + x == x && p + y == y;
    } else {
      assert (p + x)[1..] == p[1..] + x && (p + y)[1..] == p[1..] + y;
      LessPrefix(p[1..], x, y);
    }
  }

  lemma {:induction false} LessSuffix(x: string, y: string, t: string)
    requires |x| == |y|
    ensures Less(x + t, y + t) <==> Less(x, y)
    decreases |x|
  {
    if x == "" {
      assert x + t == t && y + t == t;
      LessIrreflexive(t);
    } else {
      assert (x + t)[1..] == x[1..] + t && (y + t)[1..] == y[1..] + t;
      LessSuffix(x[1..], y[1..], t);
    }
  }
}
