/** Suggestions for unknown configuration keys: the two-row edit distance, what it measures, and the
    choice of the closest key. Strings are byte strings. */
module EditDistance {
  import opened Collections
  import opened Lexicographic

  function Min3(a: nat, b: nat, c: nat): nat { Min(a, Min(b, c)) }

  /** The recursive Levenshtein distance. */
  function Distance(a: string, b: string): nat
    decreases |a| + |b|
  {
    if a == "" then |b|
    else if b == "" then |a|
    else
      var cost := if a[|a| - 1] == b[|b| - 1] then 0 else 1;
      Min3(Distance(a[..|a| - 1], b) + 1, Distance(a, b[..|b| - 1]) + 1,
           Distance(a[..|a| - 1], b[..|b| - 1]) + cost)
  }

  /** The distance between the first `i` characters of `a` and the first `j` of `b`. */
  function Cell(a: string, b: string, i: nat, j: nat): nat
    requires i <= |a| && j <= |b|
  {
    Distance(a[..i], b[..j])
  }

  lemma CellEdges(a: string, b: string, i: nat, j: nat)
    requires i <= |a| && j <= |b|
    ensures Cell(a, b, 0, j) == j && Cell(a, b, i, 0) == i
  {
    assert a[..0] == "" && b[..0] == "";
  }

  lemma CellStep(a: string, b: string, i: nat, j: nat)
    requires 0 < i <= |a| && 0 < j <= |b|
    ensures Cell(a, b, i, j) ==
            Min3(Cell(a, b, i - 1, j) + 1, Cell(a, b, i, j - 1) + 1,
                 Cell(a, b, i - 1, j - 1) + if a[i - 1] == b[j - 1] then 0 else 1)
  {
    assert a[..i][..i - 1] == a[..i - 1] && b[..j][..j - 1] == b[..j - 1];
  }

  /** Fills one row of the table from the row above it. */
  method FillRow(a: string, b: string, i: nat, prev: array<nat>, cur: array<nat>)
    requires 0 < i <= |a| && prev.Length == cur.Length == |b| + 1 && prev != cur
    requires forall j :: 0 <= j <= |b| ==> prev[j] == Cell(a, b, i - 1, j)
    modifies cur
    ensures forall j :: 0 <= j <= |b| ==> cur[j] == Cell(a, b, i, j)
  {
    cur[0] := i;
    CellEdges(a, b, i, 0);
    for j := 1 to |b| + 1
      invariant forall k :: 0 <= k < j ==> cur[k] == Cell(a, b, i, k)
    {
      var cost := 1;
      if a[i - 1] == b[j - 1] {
        cost := 0;
      }
      CellStep(a, b, i, j);
      cur[j] := Min3(prev[j] + 1, cur[j - 1] + 1, prev[j - 1] + cost);
    }
  }

  /** Two rows, swapped after each, compute the recursive distance. */
  method ComputeDistance(a: string, b: string) returns (d: nat)
    ensures d == Distance(a, b)
  {
    var prev := new nat[|b| + 1](_ => 0);
    var cur := new nat[|b| + 1](_ => 0);
    for j := 0 to |b| + 1
      invariant forall k :: 0 <= k < j ==> prev[k] == k
    {
      prev[j] := j;
    }
    forall j | 0 <= j <= |b| ensures prev[j] == Cell(a, b, 0, j) {
      CellEdges(a, b, 0, j);
    }
    for i := 1 to |a| + 1
      invariant prev != cur && prev.Length == cur.Length == |b| + 1
      invariant fresh(prev) && fresh(cur)
      invariant forall j :: 0 <= j <= |b| ==> prev[j] == Cell(a, b, i - 1, j)
    {
      FillRow(a, b, i, prev, cur);
      prev, cur := cur, prev;
    }
    assert a[..|a|] == a && b[..|b|] == b;
    d := prev[|b|];
  }

  // ---------- what the distance measures ----------

  /** `t` is `s` with one character put in at position `i`. */
  predicate InsertedAt(s: string, t: string, i: nat) {
    i <= |s| && |t| == |s| + 1 && t[..i] == s[..i] && t[i + 1..] == s[i..]
  }

  /** `t` is `s` with the character at position `i` replaced. */
  predicate ReplacedAt(s: string, t: string, i: nat) {
    i < |s| == |t| && t[..i] == s[..i] && t[i + 1..] == s[i + 1..]
  }

  /** One insertion, deletion or replacement anywhere turns `s` into `t`. */
  ghost predicate SingleEdit(s: string, t: string) {
    exists i: nat :: InsertedAt(s, t, i) || InsertedAt(t, s, i) || ReplacedAt(s, t, i)
  }

  ghost predicate EditPath(path: seq<string>) {
    path != [] && forall i :: 0 <= i < |path| - 1 ==> SingleEdit(path[i], path[i + 1])
  }

  /** A single edit, told from the end of the strings. */
  predicate EditFromEnd(s: string, t: string) {
    || (t != "" && Most(t) == s)
    || (s != "" && Most(s) == t)
    || (s != "" && t != "" && (Most(s) == Most(t) || (Last(s) == Last(t) && EditFromEnd(Most(s), Most(t)))))
  }

  lemma {:induction false} InsertFromEnd(s: string, t: string, i: nat)
    requires InsertedAt(s, t, i)
    ensures EditFromEnd(s, t) && EditFromEnd(t, s)
    decreases |s|
  {
    if i == |s| {
    } else {
      assert t[i + 1..][|s| - i - 1] == s[i..][|s| - i - 1];
      assert Last(t) == Last(s);
      assert Most(t)[..i] == t[..i] && Most(s)[..i] == s[..i];
      assert Most(t)[i + 1..] == t[i + 1..][..|s| - i - 1] == s[i..][..|s| - i - 1] == Most(s)[i..];
      InsertFromEnd(Most(s), Most(t), i);
    }
  }

  lemma {:induction false} ReplaceFromEnd(s: string, t: string, i: nat)
    requires ReplacedAt(s, t, i)
    ensures EditFromEnd(s, t)
    decreases |s|
  {
    if i == |s| - 1 {
    } else {
      assert t[i + 1..][|s| - i - 2] == s[i + 1..][|s| - i - 2];
      assert Last(t) == Last(s);
      assert Most(t)[..i] == t[..i] && Most(s)[..i] == s[..i];
      assert Most(t)[i + 1..] == t[i + 1..][..|s| - i - 2] == s[i + 1..][..|s| - i - 2] == Most(s)[i + 1..];
      ReplaceFromEnd(Most(s), Most(t), i);
    }
  }

  lemma SingleFromEnd(s: string, t: string)
    requires SingleEdit(s, t)
    ensures EditFromEnd(s, t)
  {
    var i: nat :| InsertedAt(s, t, i) || InsertedAt(t, s, i) || ReplacedAt(s, t, i);
    if InsertedAt(s, t, i) {
      InsertFromEnd(s, t, i);
    } else if InsertedAt(t, s, i) {
      InsertFromEnd(t, s, i);
    } else {
      ReplaceFromEnd(s, t, i);
    }
  }

  /** Adding a last character changes the distance from anything by at most one. */
  lemma {:induction false} LastCharacterCounts(a: string, t: string)
    requires t != ""
    ensures Distance(a, t) <= Distance(a, Most(t)) + 1 && Distance(a, Most(t)) <= Distance(a, t) + 1
    decreases |a|
  {
    if a == "" {
    } else {
      LastCharacterCounts(Most(a), t);
    }
  }

  /** A single edit changes the distance from anything by at most one. */
  lemma {:induction false} EditCounts(a: string, s: string, t: string)
    requires EditFromEnd(s, t)
    ensures Distance(a, t) <= Distance(a, s) + 1
    decreases |a| + |s| + |t|
  {
    if t != "" && Most(t) == s {
      LastCharacterCounts(a, t);
    } else if s != "" && Most(s) == t {
      LastCharacterCounts(a, s);
    } else if a != "" {
      EditCounts(Most(a), s, t);
      if Most(s) != Most(t) {
        EditCounts(a, Most(s), Most(t));
        EditCounts(Most(a), Most(s), Most(t));
      }
    } else {
      SameLengthOrNear(s, t);
    }
  }

  lemma {:induction false} SameLengthOrNear(s: string, t: string)
    requires EditFromEnd(s, t)
    ensures |t| <= |s| + 1
  {
    if s == "" || t == "" || Last(s) != Last(t) || !EditFromEnd(Most(s), Most(t)) {
    } else {
      SameLengthOrNear(Most(s), Most(t));
    }
  }

  lemma {:induction false} DistanceToItself(a: string)
    ensures Distance(a, a) == 0
  {
    if a == "" {
    } else {
      DistanceToItself(Most(a));
    }
  }

  /** No sequence of edits from `a` to `b` is shorter than the distance. */
  lemma {:induction false} NoShorterPath(path: seq<string>)
    requires EditPath(path)
    ensures Distance(path[0], path[|path| - 1]) <= |path| - 1
    decreases |path|
  {
    var n := |path| - 1;
    if n == 0 {
      DistanceToItself(path[0]);
    } else {
      NoShorterPath(path[..n]);
      SingleFromEnd(path[n - 1], path[n]);
      EditCounts(path[0], path[n - 1], path[n]);
    }
  }

  // ---------- and some sequence is that short ----------

  function Extended(path: seq<string>, c: char): seq<string> {
    seq(|path|, i requires 0 <= i < |path| => path[i] + [c])
  }

  lemma ExtendEdit(s: string, t: string, c: char)
    requires SingleEdit(s, t)
    ensures SingleEdit(s + [c], t + [c])
  {
    var i: nat :| InsertedAt(s, t, i) || InsertedAt(t, s, i) || ReplacedAt(s, t, i);
    var s1, t1 := s + [c], t + [c];
    if i <= |s| && i <= |t| {
      assert s1[..i] == s[..i] && t1[..i] == t[..i];
      assert s1[i..] == s[i..] + [c] && t1[i..] == t[i..] + [c];
    }
    if i < |s| {
      assert s1[i + 1..] == s[i + 1..] + [c];
    }
    if i < |t| {
      assert t1[i + 1..] == t[i + 1..] + [c];
    }
    assert InsertedAt(s1, t1, i) || InsertedAt(t1, s1, i) || ReplacedAt(s1, t1, i);
  }

  lemma EditLast(s: string)
    requires s != ""
    ensures SingleEdit(Most(s), s) && SingleEdit(s, Most(s))
  {
    assert InsertedAt(Most(s), s, |s| - 1);
  }

  lemma ReplaceLast(s: string, t: string)
    requires s != "" && t != "" && Most(s) == Most(t)
    ensures SingleEdit(s, t)
  {
    assert ReplacedAt(s, t, |s| - 1);
  }

  /** `n` edits lead from `a` to `b` along the path. */
  ghost predicate Leads(path: seq<string>, a: string, b: string, n: nat) {
    EditPath(path) && |path| == n + 1 && path[0] == a && path[n] == b
  }

  lemma AppendStep(path: seq<string>, a: string, s: string, b: string, n: nat)
    requires Leads(path, a, s, n) && SingleEdit(s, b)
    ensures Leads(path + [b], a, b, n + 1)
  {
  }

  lemma PrependStep(path: seq<string>, a: string, s: string, b: string, n: nat)
    requires Leads(path, s, b, n) && SingleEdit(a, s)
    ensures Leads([a] + path, a, b, n + 1)
  {
  }

  lemma ExtendPath(path: seq<string>, a: string, b: string, n: nat, c: char)
    requires Leads(path, a, b, n)
    ensures Leads(Extended(path, c), a + [c], b + [c], n)
  {
    forall i | 0 <= i < |path| - 1 ensures SingleEdit(Extended(path, c)[i], Extended(path, c)[i + 1]) {
      ExtendEdit(path[i], path[i + 1], c);
    }
  }

  lemma {:induction false} ShortestPath(a: string, b: string) returns (path: seq<string>)
    ensures Leads(path, a, b, Distance(a, b))
    decreases |a| + |b|, 1
  {
    if a == "" && b == "" {
      path := [a];
    } else if a == "" || (b != "" && Distance(a, b) == Distance(a, Most(b)) + 1) {
      var rest := ShortestPath(a, Most(b));
      EditLast(b);
      AppendStep(rest, a, Most(b), b, Distance(a, Most(b)));
      path := rest + [b];
    } else if b == "" || Distance(a, b) == Distance(Most(a), b) + 1 {
      var rest := ShortestPath(Most(a), b);
      EditLast(a);
      PrependStep(rest, a, Most(a), b, Distance(Most(a), b));
      path := [a] + rest;
    } else {
      path := ShortestPathThroughLast(a, b);
    }
  }

  lemma ShortestPathThroughLast(a: string, b: string) returns (path: seq<string>)
    requires a != "" && b != ""
    ensures Leads(path, a, b, Distance(Most(a), Most(b)) + if Last(a) == Last(b) then 0 else 1)
    decreases |a| + |b|, 0
  {
    var n, c := Distance(Most(a), Most(b)), Last(a);
    var rest := ShortestPath(Most(a), Most(b));
    ExtendPath(rest, Most(a), Most(b), n, c);
    assert a == Most(a) + [c] && b == Most(b) + [Last(b)];
    path := Extended(rest, c);
    if c != Last(b) {
      var s := Most(b) + [c];
      assert Most(s) == Most(b);
      ReplaceLast(s, b);
      AppendStep(path, a, s, b, n);
      path := path + [b];
    }
  }

  /** The distance is the least number of single edits that turns one string into the other. */
  lemma DistanceIsLeastEdits(a: string, b: string)
    ensures exists path :: EditPath(path) && path[0] == a && path[|path| - 1] == b && |path| == Distance(a, b) + 1
    ensures forall path :: EditPath(path) && path[0] == a && path[|path| - 1] == b ==> |path| >= Distance(a, b) + 1
  {
    var shortest := ShortestPath(a, b);
    forall path | EditPath(path) && path[0] == a && path[|path| - 1] == b ensures |path| >= Distance(a, b) + 1 {
      NoShorterPath(path);
    }
  }

  // ---------- the closest key ----------

  /** Closer, or as close and first in the order of strings. */
  predicate Preferred(k: string, f: string, g: string) {
    Distance(k, f) < Distance(k, g) || (Distance(k, f) == Distance(k, g) && (f == g || Less(f, g)))
  }

  ghost predicate IsClosest(k: string, fields: set<string>, best: string) {
    best in fields && Distance(k, best) <= 2 && forall f :: f in fields ==> Preferred(k, best, f)
  }

  lemma PreferredTransitive(k: string, f: string, g: string, h: string)
    requires Preferred(k, f, g) && Preferred(k, g, h)
    ensures Preferred(k, f, h)
  {
    if Less(f, g) && Less(g, h) {
      LessTransitive(f, g, h);
    }
  }

  /** The choice does not depend on the order in which the fields are visited. */
  lemma ClosestIsUnique(k: string, fields: set<string>, f: string, g: string)
    requires IsClosest(k, fields, f) && IsClosest(k, fields, g)
    ensures f == g
  {
    assert Preferred(k, f, g) && Preferred(k, g, f);
    if f != g {
      LessAsymmetric(f, g);
    }
  }

  /** The loop over the fields, in whatever order the map yields them. */
  method ClosestKey(k: string, fields: set<string>) returns (best: string)
    ensures (exists f :: f in fields && Distance(k, f) <= 2) ==> IsClosest(k, fields, best)
    ensures (forall f :: f in fields ==> Distance(k, f) > 2) ==> best == ""
  {
    best := "";
    var bestDist := 3;
    var todo := fields;
    while todo != {}
      invariant todo <= fields
      invariant if bestDist == 3 then best == "" && forall f :: f in fields - todo ==> Distance(k, f) > 2
                else bestDist == Distance(k, best) && IsClosest(k, fields - todo, best)
      decreases todo
    {
      var name :| name in todo;
      var d := ComputeDistance(k, name);
      if d < bestDist || (d == bestDist && Less(name, best)) {
        if bestDist < 3 {
          PreferAll(k, fields - todo, best, name);
        }
        best, bestDist := name, d;
      } else {
        LessTotal(best, name);
      }
      todo := todo - {name};
    }
  }

  lemma PreferAll(k: string, fields: set<string>, best: string, name: string)
    requires IsClosest(k, fields, best) && Preferred(k, name, best)
    ensures forall f :: f in fields ==> Preferred(k, name, f)
  {
    forall f | f in fields ensures Preferred(k, name, f) {
      PreferredTransitive(k, name, best, f);
    }
  }
}
