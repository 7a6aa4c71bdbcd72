/** Recent response times of one backend: a circular buffer with a running total, updated one sample
    at a time, and the same updates interleaved between threads. */
module ResponseTime {
  import opened Collections

  // ---------- one at a time ----------

  /** The last samples that the window still covers. */
  function Recent(history: seq<int>, window: nat): seq<int> {
    if |history| <= window then history else history[|history| - window..]
  }

  /** Go's integer division: toward zero. */
  function Quotient(a: int, n: int): (q: int)
    requires n > 0
    ensures a >= 0 ==> 0 <= a - n * q < n
    ensures a <= 0 ==> 0 <= n * q - a < n
  {
    if a >= 0 then a / n else -((-a) / n)
  }

  /** The integer mean of the recent samples; zero when there are none. */
  function Mean(history: seq<int>, window: nat): int {
    var recent := Recent(history, window);
    if recent == [] then 0 else Quotient(Sum(recent), |recent|)
  }

  lemma RecentSum(history: seq<int>, d: int, window: nat)
    requires window > 0
    ensures Sum(Recent(history + [d], window))
            == Sum(Recent(history, window)) + d - if |history| >= window then history[|history| - window] else 0
  {
    var n, recent := |history|, Recent(history, window);
    if n < window {
      SumAppend(history, d);
    } else {
      assert Recent(history + [d], window) == recent[1..] + [d];
      SumAppend(recent[1..], d);
      SumDropFirst(recent);
    }
  }

  lemma {:induction false} SumWithin(s: seq<int>, n: nat, lo: int, hi: int)
    requires n <= |s| && forall i :: 0 <= i < n ==> lo <= s[i] <= hi
    ensures n * lo <= SumTo(s, n) <= n * hi
  {
    if n == 0 {
    } else {
      SumWithin(s, n - 1, lo, hi);
      TimesMonotone(n, lo, hi);
      assert n * lo == (n - 1) * lo + lo && n * hi == (n - 1) * hi + hi;
    }
  }

  lemma TimesMonotone(n: int, a: int, b: int)
    requires n > 0
    ensures a <= b ==> n * a <= n * b
    ensures n * (a + 1) == n * a + n
  {
  }

  lemma FloorWithin(a: int, n: int, lo: int, hi: int)
    requires n > 0 && n * lo <= a <= n * hi
    ensures lo <= a / n <= hi
  {
    var q := a / n;
    assert n * q <= a < n * q + n;
    TimesMonotone(n, hi, hi);
    TimesMonotone(n, hi + 1, q);
    TimesMonotone(n, q, q);
    TimesMonotone(n, q + 1, lo);
  }

  lemma QuotientWithin(a: int, n: int, lo: int, hi: int)
    requires n > 0 && n * lo <= a <= n * hi
    ensures lo <= Quotient(a, n) <= hi
  {
    if a >= 0 {
      FloorWithin(a, n, lo, hi);
    } else {
      FloorWithin(-a, n, -hi, -lo);
    }
  }

  /** The average never leaves the range of the samples it is taken over. */
  lemma MeanWithin(history: seq<int>, window: nat, lo: int, hi: int)
    requires window > 0 && history != []
    requires forall i :: 0 <= i < |Recent(history, window)| ==> lo <= Recent(history, window)[i] <= hi
    ensures lo <= Mean(history, window) <= hi
  {
    var recent := Recent(history, window);
    SumWithin(recent, |recent|, lo, hi);
    QuotientWithin(Sum(recent), |recent|, lo, hi);
  }

  lemma NextSlot(pos: nat, window: nat)
    requires pos < window
    ensures (pos + 1) % window == if pos + 1 == window then 0 else pos + 1
  {
  }

  /** Read from the next position to be written, the buffer holds the recent samples oldest first;
      before the first lap it holds them from its start, and zeros beyond. */
  ghost predicate Stores(samples: seq<int>, pos: nat, history: seq<int>) {
    var n, w := |history|, |samples|;
    && pos < w
    && (n < w ==> pos == n && forall j :: 0 <= j < w ==> samples[j] == if j < n then history[j] else 0)
    && (n >= w ==> forall j :: 0 <= j < w ==> samples[j] == history[n - w + Age(j, pos, w)])
  }

  /** How many steps after the oldest sample a slot was written. */
  function Age(j: nat, pos: nat, window: nat): (a: nat)
    requires j < window && pos < window
    ensures a < window
  {
    if j >= pos then j - pos else j + window - pos
  }

  lemma StoresNext(samples: seq<int>, pos: nat, history: seq<int>, d: int, next: nat)
    requires Stores(samples, pos, history)
    requires next == if pos + 1 == |samples| then 0 else pos + 1
    ensures Stores(samples[pos := d], next, history + [d])
    ensures samples[pos] == if |history| >= |samples| then history[|history| - |samples|] else 0
  {
    var n, w, after, more := |history|, |samples|, samples[pos := d], history + [d];
    if n >= w {
      forall j | 0 <= j < w ensures after[j] == more[n + 1 - w + Age(j, next, w)] {
        assert j != pos ==> Age(j, next, w) == Age(j, pos, w) - 1;
      }
    }
  }

  /** The whole state of the buffer after a history of recordings. */
  ghost predicate Reflects(samples: seq<int>, pos: nat, count: nat, total: int, history: seq<int>) {
    && Stores(samples, pos, history)
    && count == |Recent(history, |samples|)|
    && total == Sum(Recent(history, |samples|))
  }

  lemma ReflectsNext(samples: seq<int>, pos: nat, count: nat, total: int, history: seq<int>, d: int, next: nat,
                     count': nat, total': int)
    requires Reflects(samples, pos, count, total, history)
    requires next == if pos + 1 == |samples| then 0 else pos + 1
    requires count' == if count < |samples| then count + 1 else count
    requires total' == if count' == |samples| then total + d - samples[pos] else total + d
    ensures Reflects(samples[pos := d], next, count', total', history + [d])
  {
    StoresNext(samples, pos, history, d, next);
    RecentSum(history, d, |samples|);
  }

  class BackendState {
    var samples: array<int>
    var writePos: nat
    var count: nat
    var total: int
    /** Every sample ever recorded. */
    ghost var history: seq<int>

    ghost predicate Valid()
      reads this, samples
    {
      Reflects(samples[..], writePos, count, total, history)
    }

    constructor (windowSize: nat)
      requires windowSize > 0
      ensures Valid() && fresh(samples) && samples.Length == windowSize && history == []
    {
      samples := new int[windowSize](_ => 0);
      writePos, count, total, history := 0, 0, 0, [];
    }

    method Record(d: int)
      requires Valid()
      modifies this, samples
      ensures Valid() && samples == old(samples) && history == old(history) + [d]
    {
      var windowSize := samples.Length;
      var pos := writePos;
      NextSlot(pos, windowSize);
      writePos := (pos + 1) % windowSize;
      var oldSample := samples[pos];
      samples[pos] := d;
      if count < windowSize {
        count := count + 1;
      }
      if count == windowSize {
        total := total + d - oldSample;
      } else {
        total := total + d;
      }
      ReflectsNext(old(samples[..]), pos, old(count), old(total), history, d, writePos, count, total);
      assert samples[..] == old(samples[..])[pos := d];
      history := history + [d];
    }

    method Average() returns (avg: int)
      requires Valid()
      ensures avg == Mean(history, samples.Length)
    {
      if count == 0 {
        return 0;
      }
      avg := Quotient(total, count);
    }
  }

  // ---------- interleaved ----------

  /** Where a thread is inside a recording of `d`. */
  datatype Thread =
    | Idle
    | Claimed(d: int, pos: nat)
    | Swapped(d: int, replaced: int)
    | Counted(d: int, replaced: int)
    | Loaded(d: int, replaced: int, full: bool)

  datatype Shared = Shared(samples: seq<int>, writePos: nat, count: nat, total: int, threads: seq<Thread>)

  /** One atomic operation of a thread. A failed compare-and-swap changes nothing, so only the
      successful one is a step. */
  datatype Op = Claim(d: int) | Swap | Count | Load | Add

  ghost predicate WellFormed(s: Shared) {
    && s.writePos < |s.samples| && s.count <= |s.samples|
    && forall t :: 0 <= t < |s.threads| && s.threads[t].Claimed? ==> s.threads[t].pos < |s.samples|
  }

  predicate Enabled(s: Shared, t: nat, op: Op) {
    t < |s.threads|
    && match op
       case Claim(_) => s.threads[t].Idle?
       case Swap => s.threads[t].Claimed?
       case Count => s.threads[t].Swapped?
       case Load => s.threads[t].Counted?
       case Add => s.threads[t].Loaded?
  }

  function Next(s: Shared, t: nat, op: Op): Shared
    requires WellFormed(s) && Enabled(s, t, op)
  {
    var me := s.threads[t];
    match op
    case Claim(d) =>
      s.(writePos := (s.writePos + 1) % |s.samples|, threads := s.threads[t := Claimed(d, s.writePos)])
    case Swap =>
      s.(samples := s.samples[me.pos := me.d], threads := s.threads[t := Swapped(me.d, s.samples[me.pos])])
    case Count =>
      s.(count := if s.count < |s.samples| then s.count + 1 else s.count,
         threads := s.threads[t := Counted(me.d, me.replaced)])
    case Load =>
      s.(threads := s.threads[t := Loaded(me.d, me.replaced, s.count == |s.samples|)])
    case Add =>
      s.(total := s.total + me.d - (if me.full then me.replaced else 0), threads := s.threads[t := Idle])
  }

  /** What the samples already show of a thread's recording and the total does not yet. */
  function Due(thread: Thread): int {
    match thread
    case Idle => 0
    case Claimed(_, _) => 0
    case Swapped(d, replaced) => d - replaced
    case Counted(d, replaced) => d - replaced
    case Loaded(d, replaced, _) => d - replaced
  }

  function Dues(threads: seq<Thread>): seq<int> {
    seq(|threads|, t requires 0 <= t < |threads| => Due(threads[t]))
  }

  /** How far the total, once every recording in progress is finished, is off the sum of the samples. */
  function Drift(s: Shared): int {
    s.total + Sum(Dues(s.threads)) - Sum(s.samples)
  }

  /** The replaced sample that a thread fails to take off the total. */
  function Lost(s: Shared, t: nat, op: Op): int
    requires Enabled(s, t, op)
  {
    if op.Add? && !s.threads[t].full then s.threads[t].replaced else 0
  }

  lemma DuesUpdated(threads: seq<Thread>, t: nat, thread: Thread)
    requires t < |threads|
    ensures Sum(Dues(threads[t := thread])) == Sum(Dues(threads)) + Due(thread) - Due(threads[t])
  {
    assert Dues(threads[t := thread]) == Dues(threads)[t := Due(thread)];
    SumUpdated(Dues(threads), t, Due(thread));
  }

  /** A step changes the drift by exactly the sample it fails to take off. */
  lemma StepDrift(s: Shared, t: nat, op: Op)
    requires WellFormed(s) && Enabled(s, t, op)
    ensures WellFormed(Next(s, t, op))
    ensures Drift(Next(s, t, op)) == Drift(s) + Lost(s, t, op)
  {
    DuesUpdated(s.threads, t, Next(s, t, op).threads[t]);
    if op.Swap? {
      SumUpdated(s.samples, s.threads[t].pos, s.threads[t].d);
    }
  }

  /** A schedule: the operations of all threads in the order they took effect. */
  datatype Schedule = Start | Then(before: Schedule, t: nat, op: Op)

  /** Whether a schedule can happen from a state, and the state it leads to. */
  ghost predicate Possible(s: Shared, run: Schedule)
    decreases run, 0
  {
    match run
    case Start => WellFormed(s)
    case Then(before, t, op) => Possible(s, before) && WellFormed(After(s, before)) && Enabled(After(s, before), t, op)
  }

  ghost function After(s: Shared, run: Schedule): Shared
    requires Possible(s, run)
    decreases run, 1
  {
    match run
    case Start => s
    case Then(before, t, op) => Next(After(s, before), t, op)
  }

  ghost function AllLost(s: Shared, run: Schedule): int
    requires Possible(s, run)
  {
    match run
    case Start => 0
    case Then(before, t, op) => AllLost(s, before) + Lost(After(s, before), t, op)
  }

  ghost predicate Quiet(s: Shared) {
    forall t :: 0 <= t < |s.threads| ==> s.threads[t].Idle?
  }

  lemma {:induction false} RunDrift(s: Shared, run: Schedule)
    requires Possible(s, run)
    ensures WellFormed(After(s, run)) && Drift(After(s, run)) == Drift(s) + AllLost(s, run)
  {
    match run
    case Start =>
    case Then(before, t, op) =>
      RunDrift(s, before);
      StepDrift(After(s, before), t, op);
  }

  lemma QuietDrift(s: Shared)
    requires Quiet(s)
    ensures Drift(s) == s.total - Sum(s.samples)
  {
    SumZero(Dues(s.threads), |s.threads|);
  }

  /** In every interleaving: when no recording is in progress, the total is the sum of the buffer
      exactly when the replaced samples that were not taken off add up to nothing. */
  lemma TotalExactly(s: Shared, run: Schedule)
    requires Possible(s, run) && Quiet(s) && s.total == Sum(s.samples) && Quiet(After(s, run))
    ensures After(s, run).total == Sum(After(s, run).samples) + AllLost(s, run)
  {
    RunDrift(s, run);
    QuietDrift(s);
    QuietDrift(After(s, run));
  }

  ghost predicate FullForAll(s: Shared) {
    s.count == |s.samples| && forall t :: 0 <= t < |s.threads| && s.threads[t].Loaded? ==> s.threads[t].full
  }

  lemma {:induction false} FullStaysFull(s: Shared, run: Schedule)
    requires Possible(s, run) && FullForAll(s)
    ensures FullForAll(After(s, run)) && AllLost(s, run) == 0
  {
    match run
    case Start =>
    case Then(before, t, op) => FullStaysFull(s, before);
  }

  /** Once the buffer has filled, recordings may interleave in any way: the total they leave is the
      sum of the buffer. */
  lemma FullBufferIsExact(s: Shared, run: Schedule)
    requires Possible(s, run) && Quiet(s) && s.total == Sum(s.samples) && s.count == |s.samples|
    requires Quiet(After(s, run))
    ensures After(s, run).total == Sum(After(s, run).samples)
  {
    FullStaysFull(s, run);
    TotalExactly(s, run);
  }

  // ---------- exactly when interleaved recordings are safe ----------

  function FreshBuffer(window: nat, threads: nat): Shared {
    Shared(seq(window, i => 0), 0, 0, 0, seq(threads, t => Idle))
  }

  /** The threads that have claimed a slot and not yet been counted. */
  function Uncounted(threads: seq<Thread>): seq<int> {
    seq(|threads|, t requires 0 <= t < |threads| => Indicator(threads[t].Claimed? || threads[t].Swapped?))
  }

  /** During the first lap every claim has a slot of its own that is still empty, so nothing is
      replaced. */
  ghost predicate FirstLap(s: Shared, claims: nat) {
    var w := |s.samples|;
    && s.writePos == (if claims == w then 0 else claims)
    && (forall j :: claims <= j < w ==> s.samples[j] == 0)
    && (forall t :: 0 <= t < |s.threads| ==> InFirstLap(s, s.threads[t], claims))
    && (forall t, u :: 0 <= t < u < |s.threads| && s.threads[t].Claimed? && s.threads[u].Claimed? ==>
          s.threads[t].pos != s.threads[u].pos)
  }

  ghost predicate InFirstLap(s: Shared, thread: Thread, claims: nat) {
    match thread
    case Idle => true
    case Claimed(_, pos) => pos < claims && pos < |s.samples| && s.samples[pos] == 0
    case Swapped(_, replaced) => replaced == 0
    case Counted(_, replaced) => replaced == 0
    case Loaded(_, replaced, _) => replaced == 0
  }

  /** After so many claims and counts: a thread that found the buffer not yet full replaced nothing. */
  ghost predicate OnTrack(s: Shared, claims: nat, counted: nat) {
    && WellFormed(s) && |s.samples| > 0
    && claims == counted + Sum(Uncounted(s.threads))
    && s.count == (if counted < |s.samples| then counted else |s.samples|)
    && (claims <= |s.samples| ==> FirstLap(s, claims))
    && (forall t :: 0 <= t < |s.threads| ==> Settling(s.threads[t], s.count))
  }

  predicate Settling(thread: Thread, count: nat) {
    && (thread.Counted? || thread.Loaded? ==> count >= 1)
    && (thread.Loaded? && !thread.full ==> thread.replaced == 0)
  }

  lemma UncountedUpdated(threads: seq<Thread>, t: nat, thread: Thread)
    requires t < |threads|
    ensures Sum(Uncounted(threads[t := thread])) == Sum(Uncounted(threads))
            + Indicator(thread.Claimed? || thread.Swapped?) - Indicator(threads[t].Claimed? || threads[t].Swapped?)
  {
    var x := Indicator(thread.Claimed? || thread.Swapped?);
    assert Uncounted(threads[t := thread]) == Uncounted(threads)[t := x];
    SumUpdated(Uncounted(threads), t, x);
  }

  lemma {:induction false} SumOfOthers(s: seq<int>, n: nat, t: nat)
    requires n <= |s| && forall i :: 0 <= i < n ==> s[i] <= 1
    requires t < n ==> s[t] == 0
    ensures SumTo(s, n) <= if t < n then n - 1 else n
  {
    if n == 0 {
    } else {
      SumOfOthers(s, n - 1, t);
    }
  }

  /** Few threads or a single slot: whoever replaces something finds the buffer full. */
  lemma LoaderSeesFull(s: Shared, claims: nat, counted: nat, t: nat)
    requires OnTrack(s, claims, counted) && t < |s.threads| && s.threads[t].Counted?
    requires |s.threads| <= 2 || |s.samples| == 1
    requires claims > |s.samples|
    ensures s.count == |s.samples|
  {
    assert Settling(s.threads[t], s.count);
    SumOfOthers(Uncounted(s.threads), |s.threads|, t);
  }

  lemma FirstLapNext(s: Shared, claims: nat, t: nat, op: Op)
    requires WellFormed(s) && Enabled(s, t, op) && FirstLap(s, claims)
    requires claims + Indicator(op.Claim?) <= |s.samples|
    ensures FirstLap(Next(s, t, op), claims + Indicator(op.Claim?))
  {
    var after := Next(s, t, op);
    assert InFirstLap(s, s.threads[t], claims);
    if op.Claim? {
      NextSlot(s.writePos, |s.samples|);
    }
    forall u | 0 <= u < |after.threads| ensures InFirstLap(after, after.threads[u], claims + Indicator(op.Claim?)) {
      assert InFirstLap(s, s.threads[u], claims);
    }
  }

  lemma StepOnTrack(s: Shared, claims: nat, counted: nat, t: nat, op: Op)
    requires OnTrack(s, claims, counted) && Enabled(s, t, op)
    requires |s.threads| <= 2 || |s.samples| == 1
    ensures OnTrack(Next(s, t, op), claims + Indicator(op.Claim?), counted + Indicator(op.Count?))
    ensures Lost(s, t, op) == 0
  {
    var after := Next(s, t, op);
    StepDrift(s, t, op);
    UncountedUpdated(s.threads, t, after.threads[t]);
    assert Settling(s.threads[t], s.count);
    if claims + Indicator(op.Claim?) <= |s.samples| {
      FirstLapNext(s, claims, t, op);
      assert InFirstLap(s, s.threads[t], claims);
    } else if op.Load? {
      LoaderSeesFull(s, claims, counted, t);
    }
    forall u | 0 <= u < |after.threads| ensures Settling(after.threads[u], after.count) {
      assert Settling(s.threads[u], s.count);
    }
  }

  lemma SameShape(s: Shared, t: nat, op: Op)
    requires WellFormed(s) && Enabled(s, t, op)
    ensures |Next(s, t, op).threads| == |s.threads| && |Next(s, t, op).samples| == |s.samples|
  {
  }

  ghost function Claims(run: Schedule): nat {
    match run case Start => 0 case Then(before, _, op) => Claims(before) + Indicator(op.Claim?)
  }

  ghost function Counts(run: Schedule): nat {
    match run case Start => 0 case Then(before, _, op) => Counts(before) + Indicator(op.Count?)
  }

  lemma {:induction false} RunOnTrack(window: nat, threads: nat, run: Schedule)
    requires window > 0 && (threads <= 2 || window == 1) && Possible(FreshBuffer(window, threads), run)
    ensures var s := FreshBuffer(window, threads);
            && OnTrack(After(s, run), Claims(run), Counts(run)) && AllLost(s, run) == 0
            && |After(s, run).threads| == threads && |After(s, run).samples| == window
  {
    var s := FreshBuffer(window, threads);
    match run
    case Start =>
      SumZero(Uncounted(s.threads), threads);
    case Then(before, t, op) =>
      RunOnTrack(window, threads, before);
      var at := After(s, before);
      StepOnTrack(at, Claims(before), Counts(before), t, op);
      SameShape(at, t, op);
  }

  // ---------- a schedule that drifts ----------

  lemma Extend(s: Shared, run: Schedule, at: Shared, t: nat, op: Op) returns (more: Schedule, then': Shared)
    requires Possible(s, run) && After(s, run) == at && WellFormed(at) && Enabled(at, t, op)
    ensures Possible(s, more) && After(s, more) == then' == Next(at, t, op) && WellFormed(then')
    ensures AllLost(s, more) == AllLost(s, run) + Lost(at, t, op)
  {
    more, then' := Then(run, t, op), Next(at, t, op);
    StepDrift(at, t, op);
  }

  function Following(pos: nat, window: nat): nat {
    if pos + 1 == window then 0 else pos + 1
  }

  lemma ClaimNext(s: Shared, run: Schedule, at: Shared, t: nat) returns (more: Schedule, then': Shared)
    requires Possible(s, run) && After(s, run) == at && WellFormed(at) && t < |at.threads| && at.threads[t].Idle?
    ensures Possible(s, more) && After(s, more) == then' && WellFormed(then') && AllLost(s, more) == AllLost(s, run)
    ensures then' == at.(writePos := Following(at.writePos, |at.samples|),
                         threads := at.threads[t := Claimed(1, at.writePos)])
  {
    NextSlot(at.writePos, |at.samples|);
    more, then' := Extend(s, run, at, t, Claim(1));
  }

  /** The first half of a recording, with no other thread in between. */
  lemma ClaimAndSwap(s: Shared, run: Schedule, at: Shared, t: nat) returns (more: Schedule, then': Shared)
    requires Possible(s, run) && After(s, run) == at && WellFormed(at) && t < |at.threads| && at.threads[t].Idle?
    ensures Possible(s, more) && After(s, more) == then' && WellFormed(then') && AllLost(s, more) == AllLost(s, run)
    ensures then' == at.(samples := at.samples[at.writePos := 1],
                         writePos := Following(at.writePos, |at.samples|),
                         threads := at.threads[t := Swapped(1, at.samples[at.writePos])])
  {
    more, then' := ClaimNext(s, run, at, t);
    more, then' := Extend(s, more, then', t, Swap);
    assert at.threads[t := Claimed(1, at.writePos)][t := Swapped(1, at.samples[at.writePos])]
        == at.threads[t := Swapped(1, at.samples[at.writePos])];
  }

  /** The rest of a recording, with no other thread in between. */
  lemma Finish(s: Shared, run: Schedule, at: Shared, t: nat) returns (more: Schedule, then': Shared)
    requires Possible(s, run) && After(s, run) == at && WellFormed(at) && t < |at.threads| && at.threads[t].Swapped?
    ensures Possible(s, more) && After(s, more) == then' && WellFormed(then')
    ensures then'.samples == at.samples && then'.writePos == at.writePos && then'.threads == at.threads[t := Idle]
    ensures then'.count == if at.count < |at.samples| then at.count + 1 else at.count
    ensures AllLost(s, more)
            == AllLost(s, run) + if then'.count == |at.samples| then 0 else at.threads[t].replaced
  {
    more, then' := Extend(s, run, at, t, Count);
    more, then' := Extend(s, more, then', t, Load);
    more, then' := Extend(s, more, then', t, Add);
  }

  /** A whole recording, with no other thread in between. */
  lemma RecordAlone(s: Shared, run: Schedule, at: Shared, t: nat) returns (more: Schedule, then': Shared)
    requires Possible(s, run) && After(s, run) == at && WellFormed(at) && t < |at.threads| && at.threads[t].Idle?
    ensures Possible(s, more) && After(s, more) == then' && WellFormed(then')
    ensures then'.samples == at.samples[at.writePos := 1] && then'.threads == at.threads
    ensures then'.writePos == Following(at.writePos, |at.samples|)
    ensures then'.count == if at.count < |at.samples| then at.count + 1 else at.count
    ensures AllLost(s, more)
            == AllLost(s, run) + if then'.count == |at.samples| then 0 else at.samples[at.writePos]
  {
    more, then' := ClaimAndSwap(s, run, at, t);
    more, then' := Finish(s, more, then', t);
    assert then'.threads == at.threads;
  }

  /** The first thread has swapped and the second claimed, neither is counted, and the third has
      recorded `k` times since. */
  ghost predicate Waiting(s: Shared, window: nat, threads: nat, k: nat) {
    && |s.samples| == window && |s.threads| == threads && threads >= 3 && k + 2 <= window
    && s.writePos == (if k + 2 == window then 0 else k + 2) && s.count == k
    && (forall j :: 0 <= j < window ==> s.samples[j] == Indicator(j == 0 || 2 <= j < k + 2))
    && s.threads[0] == Swapped(1, 0) && s.threads[1] == Claimed(1, 1)
    && forall t :: 2 <= t < threads ==> s.threads[t] == Idle
  }

  lemma StartWaiting(window: nat, threads: nat) returns (run: Schedule, at: Shared)
    requires threads >= 3 && window >= 2
    ensures var s := FreshBuffer(window, threads);
            && Possible(s, run) && After(s, run) == at && WellFormed(at)
            && Waiting(at, window, threads, 0) && AllLost(s, run) == 0
  {
    var s := FreshBuffer(window, threads);
    run, at := ClaimAndSwap(s, Start, s, 0);
    run, at := ClaimNext(s, run, at, 1);
  }

  lemma {:induction false} Wait(window: nat, threads: nat, k: nat) returns (run: Schedule, at: Shared)
    requires threads >= 3 && k + 2 <= window
    ensures var s := FreshBuffer(window, threads);
            && Possible(s, run) && After(s, run) == at && WellFormed(at)
            && Waiting(at, window, threads, k) && AllLost(s, run) == 0
  {
    var s := FreshBuffer(window, threads);
    if k == 0 {
      run, at := StartWaiting(window, threads);
    } else {
      run, at := Wait(window, threads, k - 1);
      run, at := RecordAlone(s, run, at, 2);
    }
  }

  /** With three threads and two slots: the third thread laps the first, finds the buffer not yet
      full, and leaves the sample it replaced in the total for good. */
  lemma CanDrift(window: nat, threads: nat) returns (run: Schedule)
    requires threads >= 3 && window >= 2
    ensures var s := FreshBuffer(window, threads);
            && Possible(s, run) && Quiet(After(s, run))
            && After(s, run).total == Sum(After(s, run).samples) + 1
  {
    var s, at := FreshBuffer(window, threads), FreshBuffer(window, threads);
    run, at := Wait(window, threads, window - 2);
    run, at := RecordAlone(s, run, at, 2);
    assert AllLost(s, run) == 1;
    run, at := Finish(s, run, at, 0);
    run, at := Extend(s, run, at, 1, Swap);
    run, at := Finish(s, run, at, 1);
    assert Quiet(at);
    SumZero(s.samples, window);
    TotalExactly(s, run);
  }

  /** From an empty buffer, every way to interleave recordings ends with the sum of the buffer in the
      total exactly when there are at most two threads or a single slot. */
  lemma InterleavingSafeExactly(window: nat, threads: nat)
    requires window > 0
    ensures var s := FreshBuffer(window, threads);
            (forall run :: Possible(s, run) && Quiet(After(s, run)) ==>
               After(s, run).total == Sum(After(s, run).samples))
            <==> threads <= 2 || window == 1
  {
    var s := FreshBuffer(window, threads);
    if threads <= 2 || window == 1 {
      forall run | Possible(s, run) && Quiet(After(s, run)) ensures After(s, run).total == Sum(After(s, run).samples) {
        RunOnTrack(window, threads, run);
        SumZero(s.samples, window);
        TotalExactly(s, run);
      }
    } else {
      var run := CanDrift(window, threads);
    }
  }
}
