/** The lock-free parts of a backend: the connection counter and its state, each changed by
    compare-and-swap loops whose single operations interleave between threads in any order. */
module BackendConns {
  import opened Collections

  // ---------- the connection counter ----------

  /** Where a thread is: outside, about to read the counter, having read it, past a successful swap
      or addition but not yet tallied, or holding a connection. */
  datatype Thread = Outside | Trying | Seen(current: int) | Counted | Holding

  /** `acquired` and `released` count the calls that returned true and the releases, and `stray`
      those releases that no acquisition of the caller's own went before. */
  datatype Counter = Counter(
    active: int, total: int, acquired: nat, released: nat, stray: nat, refused: nat, threads: seq<Thread>)

  datatype Op = Enter | Read | Refuse | Swap | Tally | Release | Stray

  predicate Enabled(max: int, s: Counter, t: nat, op: Op) {
    t < |s.threads|
    && var me := s.threads[t];
    match op
    case Enter => me.Outside?
    case Read => me.Trying? && max > 0
    case Refuse => me.Seen? && me.current >= max
    case Swap => (me.Seen? && me.current < max) || (me.Trying? && max <= 0)
    case Tally => me.Counted?
    case Release => me.Holding?
    case Stray => me.Outside?
  }

  /** One operation. A swap that finds the counter changed sends the thread back to read again; with
      no limit the counter is raised without reading. */
  function Next(max: int, s: Counter, t: nat, op: Op): Counter
    requires Enabled(max, s, t, op)
  {
    match op
    case Enter => s.(threads := s.threads[t := Trying])
    case Read => s.(threads := s.threads[t := Seen(s.active)])
    case Refuse => s.(refused := s.refused + 1, threads := s.threads[t := Outside])
    case Swap =>
      if s.threads[t].Seen? && s.active != s.threads[t].current then s.(threads := s.threads[t := Trying])
      else s.(active := s.active + 1, threads := s.threads[t := Counted])
    case Tally => s.(total := s.total + 1, acquired := s.acquired + 1, threads := s.threads[t := Holding])
    case Release => s.(active := s.active - 1, released := s.released + 1, threads := s.threads[t := Outside])
    case Stray => s.(active := s.active - 1, released := s.released + 1, stray := s.stray + 1)
  }

  function Held(threads: seq<Thread>): seq<int> {
    seq(|threads|, t requires 0 <= t < |threads| => Indicator(threads[t].Counted? || threads[t].Holding?))
  }

  function Untallied(threads: seq<Thread>): seq<int> {
    seq(|threads|, t requires 0 <= t < |threads| => Indicator(threads[t].Counted?))
  }

  lemma HeldUpdated(threads: seq<Thread>, t: nat, to': Thread)
    requires t < |threads|
    ensures Sum(Held(threads[t := to']))
            == Sum(Held(threads)) + Indicator(to'.Counted? || to'.Holding?)
               - Indicator(threads[t].Counted? || threads[t].Holding?)
    ensures Sum(Untallied(threads[t := to']))
            == Sum(Untallied(threads)) + Indicator(to'.Counted?) - Indicator(threads[t].Counted?)
  {
    var x, y := Indicator(to'.Counted? || to'.Holding?), Indicator(to'.Counted?);
    assert Held(threads[t := to']) == Held(threads)[t := x];
    assert Untallied(threads[t := to']) == Untallied(threads)[t := y];
    SumUpdated(Held(threads), t, x);
    SumUpdated(Untallied(threads), t, y);
  }

  /** The counter is what was acquired, and what has won a slot and not yet returned, less what was
      released; stray releases apart, it counts the connections held. */
  ghost predicate Exact(max: int, s: Counter) {
    && s.active == s.acquired + Sum(Untallied(s.threads)) - s.released
    && s.active == Sum(Held(s.threads)) - s.stray
    && s.total == s.acquired
    && (max > 0 ==> s.active <= max)
  }

  lemma StepExact(max: int, s: Counter, t: nat, op: Op)
    requires Enabled(max, s, t, op) && Exact(max, s)
    ensures Exact(max, Next(max, s, t, op))
  {
    HeldUpdated(s.threads, t, Next(max, s, t, op).threads[t]);
  }

  datatype Schedule = Start | Then(before: Schedule, t: nat, op: Op)

  ghost predicate Possible(max: int, s: Counter, run: Schedule)
    decreases run, 0
  {
    match run
    case Start => true
    case Then(before, t, op) => Possible(max, s, before) && Enabled(max, After(max, s, before), t, op)
  }

  ghost function After(max: int, s: Counter, run: Schedule): Counter
    requires Possible(max, s, run)
    decreases run, 1
  {
    match run
    case Start => s
    case Then(before, t, op) => Next(max, After(max, s, before), t, op)
  }

  function Fresh(n: nat): Counter {
    Counter(0, 0, 0, 0, 0, 0, seq(n, t => Outside))
  }

  lemma {:induction false} RunExact(max: int, n: nat, run: Schedule)
    requires Possible(max, Fresh(n), run)
    ensures Exact(max, After(max, Fresh(n), run))
  {
    match run
    case Start =>
      var threads := Fresh(n).threads;
      SumZero(Held(threads), n);
      SumZero(Untallied(threads), n);
    case Then(before, t, op) =>
      RunExact(max, n, before);
      StepExact(max, After(max, Fresh(n), before), t, op);
  }

  lemma {:induction false} SumOfOnes(s: seq<int>, n: nat)
    requires n <= |s| && forall i :: 0 <= i < n ==> 0 <= s[i] <= 1
    ensures 0 <= SumTo(s, n) <= n
  {
    if n == 0 {
    } else {
      SumOfOnes(s, n - 1);
    }
  }

  /** In every interleaving, with whatever releases, at every moment: the counter is never above a
      positive limit, and between calls it is exactly the acquisitions that succeeded minus the
      releases. Only stray releases can bring it below zero. */
  lemma NeverOverTheLimit(max: int, n: nat, run: Schedule)
    requires Possible(max, Fresh(n), run)
    ensures var s := After(max, Fresh(n), run);
            && (max > 0 ==> s.active <= max) && 0 <= s.active + s.stray
            && s.acquired - s.released <= s.active
            && ((forall t :: 0 <= t < |s.threads| ==> !s.threads[t].Counted?) ==> s.active == s.acquired - s.released)
  {
    var s := After(max, Fresh(n), run);
    RunExact(max, n, run);
    SumOfOnes(Held(s.threads), |s.threads|);
    SumOfOnes(Untallied(s.threads), |s.threads|);
    if forall t :: 0 <= t < |s.threads| ==> !s.threads[t].Counted? {
      SumZero(Untallied(s.threads), |s.threads|);
    }
  }

  /** What a thread has seen was the counter's value at some moment since it entered the call. */
  ghost predicate SawSince(max: int, s: Counter, run: Schedule, t: nat, value: int)
    requires Possible(max, s, run)
  {
    match run
    case Start => false
    case Then(before, u, op) =>
      if u == t && op.Read? then After(max, s, before).active == value
      else !(u == t && op.Enter?) && SawSince(max, s, before, t, value)
  }

  lemma {:induction false} SeenIsReal(max: int, s: Counter, run: Schedule, t: nat)
    requires Possible(max, s, run) && t < |s.threads| && s.threads[t].Outside?
    ensures t < |After(max, s, run).threads|
    ensures After(max, s, run).threads[t].Seen? ==> SawSince(max, s, run, t, After(max, s, run).threads[t].current)
  {
    match run
    case Start =>
    case Then(before, u, op) => SeenIsReal(max, s, before, t);
  }

  /** A refusal is never spurious: at some moment during the refused call the backend was full. */
  lemma RefusedOnlyWhenFull(max: int, n: nat, run: Schedule, t: nat)
    requires Possible(max, Fresh(n), Then(run, t, Refuse))
    ensures exists value :: value >= max && SawSince(max, Fresh(n), run, t, value)
  {
    ThreadsKeepCount(max, Fresh(n), run);
    SeenIsReal(max, Fresh(n), run, t);
  }

  lemma {:induction false} ThreadsKeepCount(max: int, s: Counter, run: Schedule)
    requires Possible(max, s, run)
    ensures |After(max, s, run).threads| == |s.threads|
  {
    match run
    case Start =>
    case Then(before, t, op) => ThreadsKeepCount(max, s, before);
  }

  // ---------- the state ----------

  datatype State = Starting | Up | Down | Draining | Maintenance | Unknown(code: int)

  predicate CanTransitionTo(s: State, to': State) {
    match s
    case Starting => to'.Up? || to'.Down? || to'.Maintenance?
    case Up => to'.Down? || to'.Draining? || to'.Maintenance?
    case Down => to'.Up? || to'.Maintenance?
    case Draining => to'.Down? || to'.Maintenance?
    case Maintenance => to'.Up? || to'.Down?
    case Unknown(_) => false
  }

  /** Where a thread is in a transition to a state: outside, about to read, or having read. */
  datatype Caller = Away | Wanting(goal: State) | Found(goal: State, current: State)

  datatype Atomic = Atomic(state: State, callers: seq<Caller>)

  datatype Act = Ask(goal: State) | Look | GiveUp | Exchange

  predicate Allowed(s: Atomic, t: nat, act: Act) {
    t < |s.callers|
    && var me := s.callers[t];
    match act
    case Ask(_) => me.Away?
    case Look => me.Wanting?
    case GiveUp => me.Found? && !CanTransitionTo(me.current, me.goal)
    case Exchange => me.Found? && CanTransitionTo(me.current, me.goal)
  }

  function Perform(s: Atomic, t: nat, act: Act): Atomic
    requires Allowed(s, t, act)
  {
    var me := s.callers[t];
    match act
    case Ask(goal) => s.(callers := s.callers[t := Wanting(goal)])
    case Look => s.(callers := s.callers[t := Found(me.goal, s.state)])
    case GiveUp => s.(callers := s.callers[t := Away])
    case Exchange =>
      if s.state == me.current then Atomic(me.goal, s.callers[t := Away])
      else s.(callers := s.callers[t := Wanting(me.goal)])
  }

  datatype Story = Begin | Next'(before: Story, t: nat, act: Act)

  ghost predicate CanHappen(s: Atomic, story: Story)
    decreases story, 0
  {
    match story
    case Begin => true
    case Next'(before, t, act) => CanHappen(s, before) && Allowed(Told(s, before), t, act)
  }

  ghost function Told(s: Atomic, story: Story): Atomic
    requires CanHappen(s, story)
    decreases story, 1
  {
    match story
    case Begin => s
    case Next'(before, t, act) => Perform(Told(s, before), t, act)
  }

  /** The states the backend went through, each one once for as long as it lasted. */
  ghost function Path(s: Atomic, story: Story): (p: seq<State>)
    requires CanHappen(s, story)
    ensures p != []
  {
    match story
    case Begin => [s.state]
    case Next'(before, t, act) =>
      var now := Told(s, story).state;
      var p := Path(s, before);
      if now == p[|p| - 1] then p else p + [now]
  }

  /** However the callers interleave, the backend only ever moves along legal edges. */
  lemma {:induction false} OnlyLegalEdges(s: Atomic, story: Story)
    requires CanHappen(s, story)
    ensures var p := Path(s, story);
            && p[0] == s.state && p[|p| - 1] == Told(s, story).state
            && forall i :: 0 < i < |p| ==> CanTransitionTo(p[i - 1], p[i])
  {
    match story
    case Begin =>
    case Next'(before, t, act) => OnlyLegalEdges(s, before);
  }

  /** So a backend that has left its starting state never returns to it, only an up backend starts
      draining, and no unknown state is ever reached. */
  lemma NeverStartsAgain(s: Atomic, story: Story, i: nat)
    requires CanHappen(s, story) && 0 < i < |Path(s, story)|
    ensures !Path(s, story)[i].Starting? && !Path(s, story)[i].Unknown?
    ensures Path(s, story)[i].Draining? ==> Path(s, story)[i - 1].Up?
  {
    OnlyLegalEdges(s, story);
  }

  /** Which transitions there are, goal by goal: a backend that is up, down or under maintenance may be
      asked for from every other known state, except that a draining backend does not come up; draining
      is entered only from up; and nothing returns to the start or enters an unknown state. */
  lemma EdgesByGoal(s: State, goal: State)
    ensures CanTransitionTo(s, goal) <==>
            !s.Unknown? && s != goal &&
            match goal
            case Up => !s.Draining?
            case Down => true
            case Maintenance => true
            case Draining => s.Up?
            case Starting => false
            case Unknown(_) => false
  {
  }

  lemma Goes(s: Atomic, story: Story, t: nat, act: Act, after: Atomic) returns (longer: Story)
    requires CanHappen(s, story) && Allowed(Told(s, story), t, act) && after == Perform(Told(s, story), t, act)
    ensures CanHappen(s, longer) && Told(s, longer) == after
  {
    longer := Next'(story, t, act);
  }

  /** One caller on its own, away from the state, moves it to any goal a legal edge leads to. */
  lemma MoveAlone(s: Atomic, story: Story, t: nat, goal: State) returns (longer: Story)
    requires CanHappen(s, story) && t < |Told(s, story).callers| && Told(s, story).callers[t].Away?
    requires CanTransitionTo(Told(s, story).state, goal)
    ensures CanHappen(s, longer) && Told(s, longer) == Told(s, story).(state := goal)
  {
    var now := Told(s, story);
    longer := Goes(s, story, t, Ask(goal), now.(callers := now.callers[t := Wanting(goal)]));
    longer := Goes(s, longer, t, Look, now.(callers := now.callers[t := Found(goal, now.state)]));
    longer := Goes(s, longer, t, Exchange, now.(state := goal));
  }

  /** Whatever has happened, a backend in a known state can be brought up by any caller that is not in
      the middle of a transition: it is never stuck. */
  lemma CanComeUp(s: Atomic, story: Story, t: nat) returns (longer: Story)
    requires CanHappen(s, story) && t < |Told(s, story).callers| && Told(s, story).callers[t].Away?
    requires !Told(s, story).state.Unknown?
    ensures CanHappen(s, longer) && Told(s, longer) == Told(s, story).(state := Up)
  {
    longer := story;
    if Told(s, longer).state.Draining? {
      longer := MoveAlone(s, longer, t, Down);
    }
    if !Told(s, longer).state.Up? {
      longer := MoveAlone(s, longer, t, Up);
    }
  }
}
