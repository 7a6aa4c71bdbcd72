/** The certificate-order tracker: sliding windows of recent orders, per account and per domain, that
    are pruned as they are read. Times are integers; every operation is given the current time. */
module OrderWindow {

  type Times = seq<int>

  /** The events after a cutoff, in order. */
  function Recent(events: Times, cutoff: int): Times {
    RecentTo(events, |events|, cutoff)
  }

  function RecentTo(events: Times, n: nat, cutoff: int): Times
    requires n <= |events|
  {
    if n == 0 then []
    else if events[n - 1] > cutoff then RecentTo(events, n - 1, cutoff) + [events[n - 1]]
    else RecentTo(events, n - 1, cutoff)
  }

  /** How many events fall in the window that ends at `t`. */
  function InWindow(events: Times, window: int, t: int): nat {
    InWindowTo(events, |events|, window, t)
  }

  function InWindowTo(events: Times, n: nat, window: int, t: int): nat
    requires n <= |events|
  {
    if n == 0 then 0 else InWindowTo(events, n - 1, window, t) + if t - window < events[n - 1] <= t then 1 else 0
  }

  // ---------- pruning ----------

  lemma {:induction false} RecentPrefix(events: Times, more: Times, n: nat, cutoff: int)
    requires n <= |events|
    ensures RecentTo(events + more, n, cutoff) == RecentTo(events, n, cutoff)
  {
    if n == 0 {
    } else {
      RecentPrefix(events, more, n - 1, cutoff);
    }
  }

  lemma RecentAppend(events: Times, e: int, cutoff: int)
    ensures Recent(events + [e], cutoff) == if e > cutoff then Recent(events, cutoff) + [e] else Recent(events, cutoff)
  {
    RecentPrefix(events, [e], |events|, cutoff);
  }

  lemma {:induction false} RecentTwiceTo(events: Times, n: nat, cutoff: int, later: int)
    requires cutoff <= later && n <= |events|
    ensures Recent(RecentTo(events, n, cutoff), later) == RecentTo(events, n, later)
    ensures |RecentTo(events, n, later)| <= |RecentTo(events, n, cutoff)|
  {
    if n == 0 {
    } else {
      RecentTwiceTo(events, n - 1, cutoff, later);
      RecentAppend(RecentTo(events, n - 1, cutoff), events[n - 1], later);
    }
  }

  /** Pruning at an earlier time cannot be seen by a later count. */
  lemma RecentTwice(events: Times, cutoff: int, later: int)
    requires cutoff <= later
    ensures Recent(Recent(events, cutoff), later) == Recent(events, later)
    ensures |Recent(events, later)| <= |Recent(events, cutoff)|
  {
    RecentTwiceTo(events, |events|, cutoff, later);
  }

  lemma {:induction false} InWindowFew(events: Times, n: nat, window: int, t: int)
    requires n <= |events|
    ensures InWindowTo(events, n, window, t) <= |RecentTo(events, n, t - window)|
  {
    if n == 0 {
    } else {
      InWindowFew(events, n - 1, window, t);
    }
  }

  lemma {:induction false} InWindowPrefix(events: Times, more: Times, n: nat, window: int, t: int)
    requires n <= |events|
    ensures InWindowTo(events + more, n, window, t) == InWindowTo(events, n, window, t)
  {
    if n == 0 {
    } else {
      InWindowPrefix(events, more, n - 1, window, t);
    }
  }

  /** Compaction in place keeps exactly the recent events, in order, at the front. */
  method PruneInPlace(events: array<int>, cutoff: int) returns (n: nat)
    modifies events
    ensures n <= events.Length && events[..n] == Recent(old(events[..]), cutoff)
  {
    n := 0;
    ghost var all := events[..];
    for i := 0 to events.Length
      invariant n <= i && events[..n] == RecentTo(all, i, cutoff)
      invariant forall k :: i <= k < events.Length ==> events[k] == all[k]
    {
      var e := events[i];
      if e > cutoff {
        events[n] := e;
        n := n + 1;
      }
    }
  }

  method PruneEvents(events: Times, now: int, window: int) returns (pruned: Times)
    ensures pruned == Recent(events, now - window)
  {
    var slice := new int[|events|](i requires 0 <= i < |events| => events[i]);
    assert slice[..] == events;
    var n := PruneInPlace(slice, now - window);
    pruned := slice[..n];
  }

  method CountInWindow(events: Times, now: int, window: int) returns (count: nat)
    ensures count == |Recent(events, now - window)|
  {
    count := 0;
    for i := 0 to |events|
      invariant count == |RecentTo(events, i, now - window)|
    {
      if events[i] > now - window {
        count := count + 1;
      }
    }
  }

  // ---------- the tracker as a value ----------

  datatype Limits = Limits(
    domainWindow: int, accountWindow: int, failureWindow: int,
    domainLimit: int, accountLimit: int, failureLimit: int)

  datatype Tracker = Tracker(account: Times, domains: map<string, Times>, failures: Times)

  function Of(domains: map<string, Times>, d: string): Times {
    if d in domains then domains[d] else []
  }

  function PruneDomain(c: Limits, t: Tracker, now: int, d: string): Tracker {
    t.(domains := t.domains[d := Recent(Of(t.domains, d), now - c.domainWindow)])
  }

  /** The domain checks, pruning as they go and stopping at the first full domain. */
  function CheckDomains(c: Limits, t: Tracker, now: int, ds: seq<string>): (Tracker, bool)
    decreases |ds|
  {
    if ds == [] then (t, true)
    else
      var p := PruneDomain(c, t, now, ds[0]);
      if |Of(p.domains, ds[0])| >= c.domainLimit then (p, false) else CheckDomains(c, p, now, ds[1..])
  }

  function Asked(c: Limits, t: Tracker, now: int, ds: seq<string>): (Tracker, bool) {
    if !HasRoom(t.account, now - c.accountWindow, c.accountLimit) then (t, false)
    else
      var (p, ok) := CheckDomains(c, t, now, ds);
      (p, ok && HasRoom(p.failures, now - c.failureWindow, c.failureLimit))
  }

  function AddOrders(m: map<string, Times>, now: int, ds: seq<string>): map<string, Times>
    decreases |ds|
  {
    if ds == [] then m else AddOrders(m[ds[0] := Of(m, ds[0]) + [now]], now, ds[1..])
  }

  function PruneDomains(c: Limits, t: Tracker, now: int, ds: seq<string>): Tracker
    decreases |ds|
  {
    if ds == [] then t else PruneDomains(c, PruneDomain(c, t, now, ds[0]), now, ds[1..])
  }

  function Recorded(c: Limits, t: Tracker, now: int, ds: seq<string>): Tracker {
    PruneDomains(c, t.(account := t.account + [now], domains := AddOrders(t.domains, now, ds)), now, ds)
  }

  function RecordFailure(t: Tracker, now: int): Tracker {
    t.(failures := t.failures + [now])
  }

  function PruneAll(m: map<string, Times>, cutoff: int): map<string, Times> {
    map d | d in m :: Recent(m[d], cutoff)
  }

  function PrunedTracker(c: Limits, t: Tracker, now: int): Tracker {
    Tracker(Recent(t.account, now - c.accountWindow),
            PruneAll(t.domains, now - c.domainWindow),
            Recent(t.failures, now - c.failureWindow))
  }

  /** The loop over all domains, in whatever order the map yields them. */
  method PruneEvery(before: map<string, Times>, now: int, window: int)
      returns (domains: map<string, Times>, most: nat, name: string)
    ensures domains == PruneAll(before, now - window)
    ensures forall d :: d in domains ==> |domains[d]| <= most
    ensures if most > 0 then name in domains && |domains[name]| == most else name == ""
  {
    domains, most, name := before, 0, "";
    var todo := before.Keys;
    while todo != {}
      invariant todo <= domains.Keys == before.Keys
      invariant forall d :: d in todo ==> domains[d] == before[d]
      invariant forall d :: d in before && d !in todo ==>
                  domains[d] == Recent(before[d], now - window) && |domains[d]| <= most
      invariant if most > 0 then name in before && name !in todo && |domains[name]| == most else name == ""
      decreases |todo|
    {
      var domain :| domain in todo;
      todo := todo - {domain};
      var pruned := PruneEvents(domains[domain], now, window);
      domains := domains[domain := pruned];
      if |pruned| > most {
        most, name := |pruned|, domain;
      }
    }
  }

  // ---------- what a tracker knows of the full history ----------

  /** Two lists agree on everything after the cutoff. */
  ghost predicate Same(a: Times, b: Times, cutoff: int) {
    Recent(a, cutoff) == Recent(b, cutoff)
  }

  lemma SameLater(a: Times, b: Times, cutoff: int, later: int)
    requires Same(a, b, cutoff) && cutoff <= later
    ensures Same(a, b, later)
  {
    RecentTwice(a, cutoff, later);
    RecentTwice(b, cutoff, later);
  }

  lemma SamePruned(a: Times, b: Times, cutoff: int)
    requires Same(a, b, cutoff)
    ensures Same(Recent(a, cutoff), b, cutoff)
  {
    RecentTwice(a, cutoff, cutoff);
  }

  lemma SameAppend(a: Times, b: Times, cutoff: int, e: int)
    requires Same(a, b, cutoff)
    ensures Same(a + [e], b + [e], cutoff)
  {
    RecentAppend(a, e, cutoff);
    RecentAppend(b, e, cutoff);
  }

  /** The tracker's lists and the full history tell the same story from now on. */
  ghost predicate Faithful(c: Limits, t: Tracker, h: Tracker, now: int) {
    && Same(t.account, h.account, now - c.accountWindow)
    && Same(t.failures, h.failures, now - c.failureWindow)
    && SameDomains(t.domains, h.domains, now - c.domainWindow)
  }

  ghost predicate SameDomains(a: map<string, Times>, b: map<string, Times>, cutoff: int) {
    forall d :: SameFor(a, b, cutoff, d)
  }

  ghost predicate SameFor(a: map<string, Times>, b: map<string, Times>, cutoff: int, d: string) {
    Same(Of(a, d), Of(b, d), cutoff)
  }

  lemma FaithfulLater(c: Limits, t: Tracker, h: Tracker, now: int, later: int)
    requires Faithful(c, t, h, now) && now <= later
    ensures Faithful(c, t, h, later)
  {
    SameLater(t.account, h.account, now - c.accountWindow, later - c.accountWindow);
    SameLater(t.failures, h.failures, now - c.failureWindow, later - c.failureWindow);
    var cutoff := later - c.domainWindow;
    forall d ensures SameFor(t.domains, h.domains, cutoff, d) {
      assert SameFor(t.domains, h.domains, now - c.domainWindow, d);
      SameLater(Of(t.domains, d), Of(h.domains, d), now - c.domainWindow, later - c.domainWindow);
    }
  }

  lemma PruneDomainFaithful(c: Limits, t: Tracker, h: Tracker, now: int, d: string)
    requires Faithful(c, t, h, now)
    ensures Faithful(c, PruneDomain(c, t, now, d), h, now)
  {
    var p, cutoff := PruneDomain(c, t, now, d), now - c.domainWindow;
    forall e ensures SameFor(p.domains, h.domains, cutoff, e) {
      assert SameFor(t.domains, h.domains, cutoff, e);
      SamePruned(Of(t.domains, e), Of(h.domains, e), cutoff);
    }
  }

  /** The window that ends now is not full. */
  predicate HasRoom(events: Times, cutoff: int, limit: int) {
    |Recent(events, cutoff)| < limit
  }

  /** No domain of the list is full. */
  ghost predicate RoomIn(c: Limits, h: Tracker, now: int, ds: seq<string>) {
    forall i :: 0 <= i < |ds| ==> HasRoom(Of(h.domains, ds[i]), now - c.domainWindow, c.domainLimit)
  }

  lemma {:induction false} CheckDomainsMeans(c: Limits, t: Tracker, h: Tracker, now: int, ds: seq<string>)
    requires Faithful(c, t, h, now)
    ensures Faithful(c, CheckDomains(c, t, now, ds).0, h, now)
    ensures CheckDomains(c, t, now, ds).1 <==> RoomIn(c, h, now, ds)
    decreases |ds|
  {
    if ds == [] {
    } else {
      var p := PruneDomain(c, t, now, ds[0]);
      assert SameFor(t.domains, h.domains, now - c.domainWindow, ds[0]);
      PruneDomainFaithful(c, t, h, now, ds[0]);
      CheckDomainsMeans(c, p, h, now, ds[1..]);
      assert forall i :: 0 < i < |ds| ==> ds[i] == ds[1..][i - 1];
    }
  }

  /** An order is allowed by the full history: room for the account, for every domain, and no excess
      of failed validations. */
  ghost predicate Allowed(c: Limits, h: Tracker, now: int, ds: seq<string>) {
    && HasRoom(h.account, now - c.accountWindow, c.accountLimit)
    && RoomIn(c, h, now, ds)
    && HasRoom(h.failures, now - c.failureWindow, c.failureLimit)
  }

  /** However the tracker has been pruned, it says yes exactly when the full history allows it. */
  lemma CanOrderExactly(c: Limits, t: Tracker, h: Tracker, now: int, ds: seq<string>)
    requires Faithful(c, t, h, now)
    ensures Asked(c, t, now, ds).1 <==> Allowed(c, h, now, ds)
    ensures Faithful(c, Asked(c, t, now, ds).0, h, now)
  {
    CheckDomainsMeans(c, t, h, now, ds);
  }

  /** So pruning at any time is unobservable: two trackers of one history always answer alike. */
  lemma PruningUnobservable(c: Limits, t: Tracker, u: Tracker, h: Tracker, now: int, later: int, ds: seq<string>)
    requires Faithful(c, t, h, now) && Faithful(c, u, h, now) && now <= later
    ensures Asked(c, t, later, ds).1 == Asked(c, u, later, ds).1
  {
    FaithfulLater(c, t, h, now, later);
    FaithfulLater(c, u, h, now, later);
    CanOrderExactly(c, t, h, later, ds);
    CanOrderExactly(c, u, h, later, ds);
  }

  lemma PruneAllSame(a: map<string, Times>, b: map<string, Times>, cutoff: int)
    requires SameDomains(a, b, cutoff)
    ensures SameDomains(PruneAll(a, cutoff), b, cutoff)
  {
    forall d ensures SameFor(PruneAll(a, cutoff), b, cutoff, d) {
      assert SameFor(a, b, cutoff, d);
      if d in a {
        SamePruned(a[d], Of(b, d), cutoff);
      }
    }
  }

  lemma StatsFaithful(c: Limits, t: Tracker, h: Tracker, now: int)
    requires Faithful(c, t, h, now)
    ensures Faithful(c, PrunedTracker(c, t, now), h, now)
  {
    SamePruned(t.account, h.account, now - c.accountWindow);
    SamePruned(t.failures, h.failures, now - c.failureWindow);
    PruneAllSame(t.domains, h.domains, now - c.domainWindow);
  }

  lemma FailureFaithful(c: Limits, t: Tracker, h: Tracker, now: int)
    requires Faithful(c, t, h, now)
    ensures Faithful(c, RecordFailure(t, now), RecordFailure(h, now), now)
  {
    SameAppend(t.failures, h.failures, now - c.failureWindow, now);
  }

  // ---------- recording an order ----------

  /** The history with an order added: no pruning. */
  function Ordered(h: Tracker, now: int, ds: seq<string>): Tracker {
    h.(account := h.account + [now], domains := AddOrders(h.domains, now, ds))
  }

  predicate Distinct(ds: seq<string>) {
    forall i, j :: 0 <= i < j < |ds| ==> ds[i] != ds[j]
  }

  lemma {:induction false} AddOrdersGives(m: map<string, Times>, now: int, ds: seq<string>, d: string)
    requires Distinct(ds)
    ensures Of(AddOrders(m, now, ds), d) == if d in ds then Of(m, d) + [now] else Of(m, d)
    decreases |ds|
  {
    if ds == [] {
    } else {
      AddOrdersGives(m[ds[0] := Of(m, ds[0]) + [now]], now, ds[1..], d);
    }
  }

  lemma {:induction false} PruneDomainsFaithful(c: Limits, t: Tracker, h: Tracker, now: int, ds: seq<string>)
    requires Faithful(c, t, h, now)
    ensures Faithful(c, PruneDomains(c, t, now, ds), h, now)
    decreases |ds|
  {
    if ds == [] {
    } else {
      PruneDomainFaithful(c, t, h, now, ds[0]);
      PruneDomainsFaithful(c, PruneDomain(c, t, now, ds[0]), h, now, ds[1..]);
    }
  }

  lemma AddOrdersSame(a: map<string, Times>, b: map<string, Times>, cutoff: int, now: int, ds: seq<string>)
    requires SameDomains(a, b, cutoff) && Distinct(ds)
    ensures SameDomains(AddOrders(a, now, ds), AddOrders(b, now, ds), cutoff)
  {
    forall d ensures SameFor(AddOrders(a, now, ds), AddOrders(b, now, ds), cutoff, d) {
      assert SameFor(a, b, cutoff, d);
      AddOrdersGives(a, now, ds, d);
      AddOrdersGives(b, now, ds, d);
      SameAppend(Of(a, d), Of(b, d), cutoff, now);
    }
  }

  lemma OrderFaithful(c: Limits, t: Tracker, h: Tracker, now: int, ds: seq<string>)
    requires Faithful(c, t, h, now) && Distinct(ds)
    ensures Faithful(c, Recorded(c, t, now, ds), Ordered(h, now, ds), now)
  {
    SameAppend(t.account, h.account, now - c.accountWindow, now);
    AddOrdersSame(t.domains, h.domains, now - c.domainWindow, now, ds);
    PruneDomainsFaithful(c, Ordered(t, now, ds), Ordered(h, now, ds), now, ds);
  }

  // ---------- the limit over whole histories ----------

  /** No window of the given length ever holds more than `limit` events. */
  ghost predicate Limited(events: Times, window: int, limit: int) {
    forall t :: InWindow(events, window, t) <= limit
  }

  lemma AddKeepsLimit(events: Times, window: int, limit: int, now: int)
    requires Limited(events, window, limit) && HasRoom(events, now - window, limit)
    ensures Limited(events + [now], window, limit)
  {
    forall t ensures InWindow(events + [now], window, t) <= limit {
      InWindowPrefix(events, [now], |events|, window, t);
      assert InWindow(events, window, t) <= limit;
      if t - window < now <= t {
        InWindowFew(events, |events|, window, t);
        RecentTwice(events, now - window, t - window);
      }
    }
  }

  /** The running system: the tracker, everything that ever happened, the clock, and the lists of
      domains that some caller was allowed to order since the last order was recorded. */
  datatype System = System(tracker: Tracker, history: Tracker, clock: int, permits: set<seq<string>>)

  datatype Event =
    | Ask(at: int, ds: seq<string>)
    | Order(at: int, ds: seq<string>)
    | Fail(at: int)
    | Report(at: int)

  /** Callers may interleave their questions. An order is placed only after the same domains, each
      listed once, were allowed, with no other order recorded in between. */
  predicate Enabled(s: System, e: Event) {
    e.at >= s.clock && (e.Order? ==> e.ds in s.permits && Distinct(e.ds))
  }

  function Step(c: Limits, s: System, e: Event): System {
    match e
    case Ask(at, ds) =>
      var (t, ok) := Asked(c, s.tracker, at, ds);
      s.(tracker := t, clock := at, permits := if ok then s.permits + {ds} else s.permits)
    case Order(at, ds) =>
      System(Recorded(c, s.tracker, at, ds), Ordered(s.history, at, ds), at, {})
    case Fail(at) => s.(tracker := RecordFailure(s.tracker, at), history := RecordFailure(s.history, at), clock := at)
    case Report(at) => s.(tracker := PrunedTracker(c, s.tracker, at), clock := at)
  }

  ghost predicate WithinLimits(c: Limits, h: Tracker) {
    && Limited(h.account, c.accountWindow, c.accountLimit)
    && forall d :: Limited(Of(h.domains, d), c.domainWindow, c.domainLimit)
  }

  ghost predicate Good(c: Limits, s: System) {
    && Faithful(c, s.tracker, s.history, s.clock) && WithinLimits(c, s.history)
    && forall ds :: ds in s.permits ==> RoomFor(c, s.history, s.clock, ds)
  }

  ghost predicate RoomFor(c: Limits, h: Tracker, now: int, ds: seq<string>) {
    HasRoom(h.account, now - c.accountWindow, c.accountLimit) && RoomIn(c, h, now, ds)
  }

  /** Room at one time is room at any later time. */
  lemma RoomLasts(events: Times, cutoff: int, later: int, limit: int)
    requires HasRoom(events, cutoff, limit) && cutoff <= later
    ensures HasRoom(events, later, limit)
  {
    RecentTwice(events, cutoff, later);
  }

  lemma RoomForLasts(c: Limits, h: Tracker, now: int, later: int, ds: seq<string>)
    requires RoomFor(c, h, now, ds) && now <= later
    ensures RoomFor(c, h, later, ds)
  {
    RoomLasts(h.account, now - c.accountWindow, later - c.accountWindow, c.accountLimit);
    forall i | 0 <= i < |ds| ensures HasRoom(Of(h.domains, ds[i]), later - c.domainWindow, c.domainLimit) {
      RoomLasts(Of(h.domains, ds[i]), now - c.domainWindow, later - c.domainWindow, c.domainLimit);
    }
  }

  lemma TimePasses(c: Limits, s: System, at: int)
    requires Good(c, s) && s.clock <= at
    ensures Good(c, s.(clock := at))
  {
    FaithfulLater(c, s.tracker, s.history, s.clock, at);
    forall ds | ds in s.permits ensures RoomFor(c, s.history, at, ds) {
      RoomForLasts(c, s.history, s.clock, at, ds);
    }
  }

  lemma OrderKeepsLimits(c: Limits, h: Tracker, now: int, ds: seq<string>)
    requires WithinLimits(c, h) && Distinct(ds)
    requires RoomFor(c, h, now, ds)
    ensures WithinLimits(c, Ordered(h, now, ds))
  {
    AddKeepsLimit(h.account, c.accountWindow, c.accountLimit, now);
    forall d ensures Limited(Of(Ordered(h, now, ds).domains, d), c.domainWindow, c.domainLimit) {
      AddOrdersGives(h.domains, now, ds, d);
      assert Limited(Of(h.domains, d), c.domainWindow, c.domainLimit);
      if d in ds {
        var i :| 0 <= i < |ds| && ds[i] == d;
        AddKeepsLimit(Of(h.domains, d), c.domainWindow, c.domainLimit, now);
      }
    }
  }

  lemma OrderGood(c: Limits, s: System, ds: seq<string>)
    requires Good(c, s) && Enabled(s, Order(s.clock, ds))
    ensures Good(c, Step(c, s, Order(s.clock, ds)))
  {
    OrderFaithful(c, s.tracker, s.history, s.clock, ds);
    OrderKeepsLimits(c, s.history, s.clock, ds);
  }

  lemma FailGood(c: Limits, s: System)
    requires Good(c, s)
    ensures Good(c, Step(c, s, Fail(s.clock)))
  {
    FailureFaithful(c, s.tracker, s.history, s.clock);
    forall ds | ds in s.permits ensures RoomFor(c, RecordFailure(s.history, s.clock), s.clock, ds) {
      assert RoomFor(c, s.history, s.clock, ds);
    }
  }

  lemma StepGood(c: Limits, s: System, e: Event)
    requires Good(c, s) && Enabled(s, e)
    ensures Good(c, Step(c, s, e))
  {
    TimePasses(c, s, e.at);
    var later := s.(clock := e.at);
    match e
    case Ask(at, ds) => CanOrderExactly(c, s.tracker, s.history, at, ds);
    case Order(at, ds) => OrderGood(c, later, ds);
    case Fail(at) => FailGood(c, later);
    case Report(at) => StatsFaithful(c, s.tracker, s.history, at);
  }

  ghost predicate IsRun(c: Limits, systems: seq<System>, events: seq<Event>) {
    && |systems| == |events| + 1
    && systems[0].tracker == systems[0].history == Tracker([], map[], []) && systems[0].permits == {}
    && forall i :: 0 <= i < |events| ==>
         Enabled(systems[i], events[i]) && systems[i + 1] == Step(c, systems[i], events[i])
  }

  lemma {:induction false} RunGood(c: Limits, systems: seq<System>, events: seq<Event>, i: nat)
    requires IsRun(c, systems, events) && i < |systems| && c.accountLimit >= 0 && c.domainLimit >= 0
    ensures Good(c, systems[i])
    decreases i
  {
    if i == 0 {
      var h := systems[0].history;
      assert Limited([], c.accountWindow, c.accountLimit) && Limited([], c.domainWindow, c.domainLimit);
      forall d ensures Limited(Of(h.domains, d), c.domainWindow, c.domainLimit) {
        assert Of(h.domains, d) == [];
      }
    } else {
      RunGood(c, systems, events, i - 1);
      StepGood(c, systems[i - 1], events[i - 1]);
    }
  }

  /** Over every run in which orders are placed under a permission still standing, no window of the past, wherever
      it ends, holds more account orders or more orders of one domain than its limit. */
  lemma NeverOverTheLimit(c: Limits, systems: seq<System>, events: seq<Event>, i: nat, t: int, d: string)
    requires IsRun(c, systems, events) && i < |systems| && c.accountLimit >= 0 && c.domainLimit >= 0
    ensures InWindow(systems[i].history.account, c.accountWindow, t) <= c.accountLimit
    ensures InWindow(Of(systems[i].history.domains, d), c.domainWindow, t) <= c.domainLimit
  {
    RunGood(c, systems, events, i);
    assert Limited(Of(systems[i].history.domains, d), c.domainWindow, c.domainLimit);
  }

  // ---------- domains listed more than once ----------

  function Copies(now: int, n: nat): Times {
    seq(n, i => now)
  }

  lemma CountFromHead(ds: seq<string>, d: string)
    requires ds != []
    ensures multiset(ds)[d] == (if ds[0] == d then 1 else 0) + multiset(ds[1..])[d]
  {
    assert ds == [ds[0]] + ds[1..];
  }

  lemma CopiesFromHead(events: Times, now: int, n: nat)
    ensures events + [now] + Copies(now, n) == events + Copies(now, n + 1)
  {
    assert [now] + Copies(now, n) == Copies(now, n + 1);
  }

  /** Recording appends one event for every time the domain is listed. */
  lemma {:induction false} AddOrdersCounts(m: map<string, Times>, now: int, ds: seq<string>, d: string)
    ensures Of(AddOrders(m, now, ds), d) == Of(m, d) + Copies(now, multiset(ds)[d])
    decreases |ds|
  {
    if ds == [] {
      assert Copies(now, 0) == [];
    } else {
      CountFromHead(ds, d);
      CopiesFromHead(Of(m, d), now, multiset(ds[1..])[d]);
      AddOrdersCounts(m[ds[0] := Of(m, ds[0]) + [now]], now, ds[1..], d);
    }
  }

  /** Every event up to now is counted by exactly one side of the cutoff. */
  lemma {:induction false} InWindowNow(events: Times, n: nat, window: int, now: int)
    requires n <= |events| && forall i :: 0 <= i < n ==> events[i] <= now
    ensures InWindowTo(events, n, window, now) == |RecentTo(events, n, now - window)|
  {
    if n == 0 {
    } else {
      InWindowNow(events, n - 1, window, now);
    }
  }

  // ---------- reports ----------

  ghost predicate Past(events: Times, now: int) {
    forall i :: 0 <= i < |events| ==> events[i] <= now
  }

  ghost predicate AllPast(h: Tracker, now: int) {
    Past(h.account, now) && Past(h.failures, now) && forall d :: Past(Of(h.domains, d), now)
  }

  lemma StepPast(c: Limits, s: System, e: Event)
    requires AllPast(s.history, s.clock) && Enabled(s, e)
    ensures AllPast(Step(c, s, e).history, e.at)
  {
    if e.Order? {
      forall d ensures Past(Of(Ordered(s.history, e.at, e.ds).domains, d), e.at) {
        assert Past(Of(s.history.domains, d), s.clock);
        AddOrdersCounts(s.history.domains, e.at, e.ds, d);
      }
    } else {
      forall d ensures Past(Of(s.history.domains, d), e.at) {
        assert Past(Of(s.history.domains, d), s.clock);
      }
    }
  }

  lemma StepFaithful(c: Limits, s: System, e: Event)
    requires Faithful(c, s.tracker, s.history, s.clock) && Enabled(s, e)
    ensures Faithful(c, Step(c, s, e).tracker, Step(c, s, e).history, e.at)
  {
    FaithfulLater(c, s.tracker, s.history, s.clock, e.at);
    match e
    case Ask(at, ds) => CanOrderExactly(c, s.tracker, s.history, at, ds);
    case Order(at, ds) => OrderFaithful(c, s.tracker, s.history, at, ds);
    case Fail(at) => FailureFaithful(c, s.tracker, s.history, at);
    case Report(at) => StatsFaithful(c, s.tracker, s.history, at);
  }

  lemma {:induction false} RunFaithful(c: Limits, systems: seq<System>, events: seq<Event>, i: nat)
    requires IsRun(c, systems, events) && i < |systems|
    ensures Faithful(c, systems[i].tracker, systems[i].history, systems[i].clock)
    ensures AllPast(systems[i].history, systems[i].clock)
    decreases i
  {
    if i == 0 {
    } else {
      RunFaithful(c, systems, events, i - 1);
      StepFaithful(c, systems[i - 1], events[i - 1]);
      StepPast(c, systems[i - 1], events[i - 1]);
    }
  }

  lemma PrunedCounts(events: Times, full: Times, window: int, now: int, clock: int)
    requires Same(events, full, clock - window) && Past(full, clock) && clock <= now
    ensures |Recent(events, now - window)| == InWindow(full, window, now)
  {
    SameLater(events, full, clock - window, now - window);
    InWindowNow(full, |full|, window, now);
  }

  /** Over every run, whatever was pruned before, what a report leaves and counts is exactly what the
      full history holds in the windows that end now. */
  lemma ReportExactly(c: Limits, systems: seq<System>, events: seq<Event>, i: nat, d: string)
    requires IsRun(c, systems, events) && i < |events| && events[i].Report?
    ensures var t, h, now := systems[i + 1].tracker, systems[i].history, events[i].at;
            && |t.account| == InWindow(h.account, c.accountWindow, now)
            && |t.failures| == InWindow(h.failures, c.failureWindow, now)
            && |Of(t.domains, d)| == InWindow(Of(h.domains, d), c.domainWindow, now)
  {
    var t, h, clock, now := systems[i].tracker, systems[i].history, systems[i].clock, events[i].at;
    RunFaithful(c, systems, events, i);
    assert Enabled(systems[i], events[i]);
    PrunedCounts(t.account, h.account, c.accountWindow, now, clock);
    PrunedCounts(t.failures, h.failures, c.failureWindow, now, clock);
    assert SameFor(t.domains, h.domains, clock - c.domainWindow, d) && Past(Of(h.domains, d), clock);
    PrunedCounts(Of(t.domains, d), Of(h.domains, d), c.domainWindow, now, clock);
  }

  /** Over every run, whatever was pruned before, the answer is yes exactly when in the windows that end
      now the full history holds fewer account orders, failures, and orders of each listed domain than
      the limits. */
  lemma AnswerExactly(c: Limits, systems: seq<System>, events: seq<Event>, i: nat)
    requires IsRun(c, systems, events) && i < |events| && events[i].Ask?
    ensures var h, now, ds := systems[i].history, events[i].at, events[i].ds;
            Asked(c, systems[i].tracker, now, ds).1 <==>
            && InWindow(h.account, c.accountWindow, now) < c.accountLimit
            && InWindow(h.failures, c.failureWindow, now) < c.failureLimit
            && forall k :: 0 <= k < |ds| ==> InWindow(Of(h.domains, ds[k]), c.domainWindow, now) < c.domainLimit
  {
    var t, h, clock, now := systems[i].tracker, systems[i].history, systems[i].clock, events[i].at;
    RunFaithful(c, systems, events, i);
    assert Enabled(systems[i], events[i]);
    FaithfulLater(c, t, h, clock, now);
    CanOrderExactly(c, t, h, now, events[i].ds);
    PrunedCounts(h.account, h.account, c.accountWindow, now, clock);
    PrunedCounts(h.failures, h.failures, c.failureWindow, now, clock);
    forall d
      ensures |Recent(Of(h.domains, d), now - c.domainWindow)| == InWindow(Of(h.domains, d), c.domainWindow, now)
    {
      assert Past(Of(h.domains, d), clock);
      PrunedCounts(Of(h.domains, d), Of(h.domains, d), c.domainWindow, now, clock);
    }
  }

  /** When, among the first `n` events, an order was recorded. */
  function OrderTimes(events: seq<Event>, n: nat): Times
    requires n <= |events|
  {
    if n == 0 then []
    else OrderTimes(events, n - 1) + if events[n - 1].Order? then [events[n - 1].at] else []
  }

  function FailureTimes(events: seq<Event>, n: nat): Times
    requires n <= |events|
  {
    if n == 0 then []
    else FailureTimes(events, n - 1) + if events[n - 1].Fail? then [events[n - 1].at] else []
  }

  function DomainTimes(events: seq<Event>, n: nat, d: string): Times
    requires n <= |events|
  {
    if n == 0 then []
    else
      DomainTimes(events, n - 1, d) +
      if events[n - 1].Order? && d in events[n - 1].ds then [events[n - 1].at] else []
  }

  /** The full history of a run is the times of its orders, those of each domain, and those of its
      failed validations. */
  lemma {:induction false} HistoryIs(c: Limits, systems: seq<System>, events: seq<Event>, i: nat, d: string)
    requires IsRun(c, systems, events) && i < |systems|
    ensures systems[i].history.account == OrderTimes(events, i)
    ensures systems[i].history.failures == FailureTimes(events, i)
    ensures Of(systems[i].history.domains, d) == DomainTimes(events, i, d)
    decreases i
  {
    if i == 0 {
    } else {
      HistoryIs(c, systems, events, i - 1, d);
      var e := events[i - 1];
      assert Enabled(systems[i - 1], e);
      if e.Order? {
        AddOrdersGives(systems[i - 1].history.domains, e.at, e.ds, d);
      }
    }
  }

  lemma {:induction false} CopiesRecent(events: Times, now: int, n: nat, window: int)
    requires window > 0
    ensures |Recent(events + Copies(now, n), now - window)| == |Recent(events, now - window)| + n
    decreases n
  {
    if n == 0 {
      assert events + Copies(now, 0) == events;
    } else {
      CopiesRecent(events, now, n - 1, window);
      assert events + Copies(now, n) == (events + Copies(now, n - 1)) + [now];
      RecentAppend(events + Copies(now, n - 1), now, now - window);
    }
  }

  lemma {:induction false} CopiesKeepLimit(events: Times, now: int, n: nat, window: int, limit: int)
    requires window > 0 && Limited(events, window, limit)
    requires n > 0 ==> |Recent(events, now - window)| + n <= limit
    ensures Limited(events + Copies(now, n), window, limit)
    decreases n
  {
    if n == 0 {
      assert events + Copies(now, 0) == events;
    } else {
      CopiesKeepLimit(events, now, n - 1, window, limit);
      CopiesRecent(events, now, n - 1, window);
      AddKeepsLimit(events + Copies(now, n - 1), window, limit, now);
      assert events + Copies(now, n) == (events + Copies(now, n - 1)) + [now];
    }
  }

  /** Appending n events now keeps the limit exactly when that many still fit in the current window. */
  lemma CopiesKeepLimitExactly(events: Times, now: int, n: nat, window: int, limit: int)
    requires window > 0 && Limited(events, window, limit)
    requires forall i :: 0 <= i < |events| ==> events[i] <= now
    ensures Limited(events + Copies(now, n), window, limit)
            <==> (n == 0 || |Recent(events, now - window)| + n <= limit)
  {
    var after := events + Copies(now, n);
    if n == 0 || |Recent(events, now - window)| + n <= limit {
      CopiesKeepLimit(events, now, n, window, limit);
    } else {
      CopiesRecent(events, now, n, window);
      InWindowNow(after, |after|, window, now);
      assert InWindow(after, window, now) > limit;
    }
  }

  /** Recording an order, whatever its list of domains, keeps every domain within its limit exactly
      when each listed domain still has room for as many orders as it is listed times. The check
      before an order only looks for room for one, so it is enough exactly when nothing that is
      listed twice is nearly full. */
  lemma OrderWithinLimitsExactly(c: Limits, m: map<string, Times>, now: int, ds: seq<string>, d: string)
    requires c.domainWindow > 0 && Limited(Of(m, d), c.domainWindow, c.domainLimit)
    requires forall i :: 0 <= i < |Of(m, d)| ==> Of(m, d)[i] <= now
    ensures Limited(Of(AddOrders(m, now, ds), d), c.domainWindow, c.domainLimit)
            <==> (d !in ds || |Recent(Of(m, d), now - c.domainWindow)| + multiset(ds)[d] <= c.domainLimit)
  {
    AddOrdersCounts(m, now, ds, d);
    CopiesKeepLimitExactly(Of(m, d), now, multiset(ds)[d], c.domainWindow, c.domainLimit);
  }

  // ---------- the tracker as an object ----------

  class RateTracker {
    const config: Limits
    var accountOrders: Times
    var domainOrders: map<string, Times>
    var failedValidations: Times

    ghost function View(): Tracker
      reads this
    {
      Tracker(accountOrders, domainOrders, failedValidations)
    }

    constructor (config: Limits)
      ensures this.config == config && View() == Tracker([], map[], [])
    {
      this.config := config;
      accountOrders, domainOrders, failedValidations := [], map[], [];
    }

    method PruneOne(now: int, domain: string) returns (count: nat)
      modifies this`domainOrders
      ensures View() == PruneDomain(config, old(View()), now, domain)
      ensures count == |Of(domainOrders, domain)|
    {
      var events := PruneEvents(if domain in domainOrders then domainOrders[domain] else [], now, config.domainWindow);
      domainOrders := domainOrders[domain := events];
      count := |events|;
    }

    method AppendToDomains(domains: seq<string>, now: int)
      modifies this`domainOrders
      ensures domainOrders == AddOrders(old(domainOrders), now, domains)
    {
      assert domains[0..] == domains;
      for i := 0 to |domains|
        invariant AddOrders(domainOrders, now, domains[i..]) == AddOrders(old(domainOrders), now, domains)
      {
        var domain := domains[i];
        assert domains[i..][1..] == domains[i + 1..];
        domainOrders := domainOrders[domain := (if domain in domainOrders then domainOrders[domain] else []) + [now]];
      }
    }

    /** The counts feed only the warning text. */
    method RecordOrder(domains: seq<string>, now: int) returns (accountCount: nat)
      modifies this
      ensures View() == Recorded(config, old(View()), now, domains)
      ensures accountCount == |Recent(accountOrders, now - config.accountWindow)|
    {
      AppendToDomains(domains, now);
      accountOrders := accountOrders + [now];
      accountCount := CountInWindow(accountOrders, now, config.accountWindow);
      ghost var recorded := View();
      assert domains[0..] == domains;
      for i := 0 to |domains|
        invariant PruneDomains(config, View(), now, domains[i..]) == PruneDomains(config, recorded, now, domains)
        invariant accountOrders == recorded.account
      {
        assert domains[i..][1..] == domains[i + 1..];
        var _ := PruneOne(now, domains[i]);
      }
    }

    method RecordFailedValidation(now: int) returns (count: nat)
      modifies this`failedValidations
      ensures View() == RecordFailure(old(View()), now)
      ensures count == |Recent(failedValidations, now - config.failureWindow)|
    {
      failedValidations := failedValidations + [now];
      count := CountInWindow(failedValidations, now, config.failureWindow);
    }

    method CanOrder(domains: seq<string>, now: int) returns (ok: bool)
      modifies this`domainOrders
      ensures (View(), ok) == Asked(config, old(View()), now, domains)
    {
      var accountCount := CountInWindow(accountOrders, now, config.accountWindow);
      if accountCount >= config.accountLimit {
        return false;
      }
      ok := CheckEach(domains, now);
      if ok {
        var failCount := CountInWindow(failedValidations, now, config.failureWindow);
        ok := failCount < config.failureLimit;
      }
    }

    method CheckEach(domains: seq<string>, now: int) returns (ok: bool)
      modifies this`domainOrders
      ensures (View(), ok) == CheckDomains(config, old(View()), now, domains)
    {
      assert domains[0..] == domains;
      for i := 0 to |domains|
        invariant CheckDomains(config, View(), now, domains[i..]) == CheckDomains(config, old(View()), now, domains)
      {
        assert domains[i..][1..] == domains[i + 1..];
        var count := PruneOne(now, domains[i]);
        if count >= config.domainLimit {
          return false;
        }
      }
      ok := true;
    }

    /** The account's and the failures' counts and the largest count of any domain; the domains are
        visited in any order. */
    method Stats(now: int) returns (account: nat, mostForDomain: nat, mostName: string, failures: nat)
      modifies this
      ensures View() == PrunedTracker(config, old(View()), now)
      ensures account == |accountOrders| && failures == |failedValidations|
      ensures forall d :: d in domainOrders ==> |domainOrders[d]| <= mostForDomain
      ensures mostForDomain > 0 ==> mostName in domainOrders && |domainOrders[mostName]| == mostForDomain
      ensures mostForDomain == 0 ==> mostName == ""
    {
      accountOrders := PruneEvents(accountOrders, now, config.accountWindow);
      account := |accountOrders|;
      domainOrders, mostForDomain, mostName := PruneEvery(domainOrders, now, config.domainWindow);
      failedValidations := PruneEvents(failedValidations, now, config.failureWindow);
      failures := |failedValidations|;
    }
  }
}
