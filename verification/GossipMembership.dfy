/** Membership of the gossip cluster as one node sees it: what each message, the local failure
    detector and the suspicion timers do to it. Every handler is one atomic step; sending, events and
    last-seen times are left out. Incarnations are 32-bit and wrap. */
module GossipMembership {
  import opened GossipCodec
  import opened GossipMessages

  datatype Health = IsAlive | IsSuspect | IsDead | HasLeft

  datatype Member = Member(state: Health, incarnation: nat, address: Bytes, port: int, metadata: Metadata)

  /** `timers` are the members whose suspicion timer runs; `pending` the probes awaiting an ACK, and
      `seqNo` the number of the last one started. */
  datatype View = View(
    localId: Bytes,
    localIncarnation: nat,
    members: map<Bytes, Member>,
    timers: set<Bytes>,
    pending: set<nat>,
    seqNo: nat)

  function Wrapped(n: nat): nat {
    n % 0x1_0000_0000
  }

  // ---------- the handlers ----------

  function OnAck(v: View, n: Notice): View {
    if n.number !in v.pending then v
    else
      var w := v.(pending := v.pending - {n.number});
      if n.id in w.members && w.members[n.id].state == IsSuspect
      then w.(members := w.members[n.id := w.members[n.id].(state := IsAlive)], timers := w.timers - {n.id})
      else w
  }

  /** A request to probe a known member in somebody's place starts a probe of its own, unless the
      probe cannot be framed. */
  function OnPingReq(v: View, p: Probe): View {
    if p.target !in v.members then v
    else
      var w := v.(seqNo := Wrapped(v.seqNo + 1));
      if PingFits(v.localId, p.target) then w.(pending := w.pending + {w.seqNo}) else w
  }

  predicate PingFits(sender: Bytes, target: Bytes) {
    |sender| + |target| + 8 <= MAX_UINT16
  }

  /** That is exactly when the encoder accepts the probe. */
  lemma PingFitsExactly(sender: Bytes, target: Bytes, seqNo: nat)
    requires seqNo <= MAX_UINT32
    ensures var p := Probe(seqNo, sender, target);
            PingFits(sender, target) <==> ProbeFits(p) && EncodeMessage(1, ProbePayload(p)).Some?
  {
  }

  function OnSuspect(v: View, n: Notice): View {
    if n.id == v.localId then
      if n.number >= v.localIncarnation then v.(localIncarnation := Wrapped(n.number + 1)) else v
    else if n.id in v.members && v.members[n.id].state == IsAlive && n.number >= v.members[n.id].incarnation
    then v.(members := v.members[n.id := v.members[n.id].(state := IsSuspect, incarnation := n.number)],
            timers := v.timers + {n.id})
    else v
  }

  function Described(n: NodeInfo): Member {
    Member(IsAlive, n.incarnation, n.address, n.port, n.metadata)
  }

  function OnAlive(v: View, n: NodeInfo): View {
    if n.id == v.localId then v
    else if n.id !in v.members then v.(members := v.members[n.id := Described(n)])
    else if n.incarnation > v.members[n.id].incarnation then
      var was := v.members[n.id].state;
      var w := v.(members := v.members[n.id := Described(n)]);
      if was == IsSuspect || was == IsDead then w.(timers := w.timers - {n.id}) else w
    else v
  }

  function OnDead(v: View, n: Notice): View {
    if n.id == v.localId then v.(localIncarnation := Wrapped(n.number + 1))
    else if n.id in v.members && n.number >= v.members[n.id].incarnation
            && v.members[n.id].state != IsDead && v.members[n.id].state != HasLeft
    then v.(members := v.members[n.id := v.members[n.id].(state := IsDead, incarnation := n.number)],
            timers := v.timers - {n.id})
    else v
  }

  function OnJoin(v: View, n: NodeInfo): View {
    if n.id == v.localId then v
    else if n.id !in v.members then v.(members := v.members[n.id := Described(n)])
    else if n.incarnation > v.members[n.id].incarnation
            || v.members[n.id].state == IsDead || v.members[n.id].state == HasLeft
    then v.(members := v.members[n.id := Described(n)], timers := v.timers - {n.id})
    else v
  }

  function OnLeave(v: View, n: NodeInfo): View {
    if n.id == v.localId then v
    else if n.id in v.members && v.members[n.id].state != HasLeft
    then v.(members := v.members[n.id := v.members[n.id].(state := HasLeft)], timers := v.timers - {n.id})
    else v
  }

  function OnMessage(v: View, m: Message): View {
    match m
    case Ping(_) => v
    case PingReq(p) => OnPingReq(v, p)
    case Ack(n) => OnAck(v, n)
    case Suspect(n) => OnSuspect(v, n)
    case Alive(n) => OnAlive(v, n)
    case Dead(n) => OnDead(v, n)
    case Join(n) => OnJoin(v, n)
    case Leave(n) => OnLeave(v, n)
  }

  function SuspectLocally(v: View, id: Bytes): View {
    if id in v.members && v.members[id].state == IsAlive
    then v.(members := v.members[id := v.members[id].(state := IsSuspect)], timers := v.timers + {id})
    else v
  }

  /** A running suspicion timer expires. */
  function Expire(v: View, id: Bytes): View {
    if id !in v.timers then v
    else
      var w := if id in v.members && v.members[id].state == IsSuspect
               then v.(members := v.members[id := v.members[id].(state := IsDead)]) else v;
      w.(timers := w.timers - {id})
  }

  // ---------- precedence ----------

  function Level(h: Health): nat {
    match h case IsAlive => 0 case IsSuspect => 1 case IsDead => 2 case HasLeft => 3
  }

  predicate Outranks(m: Member, n: Member) {
    m.incarnation > n.incarnation || (m.incarnation == n.incarnation && Level(m.state) > Level(n.state))
  }

  /** What can happen to a node's view: a message, the failure detector, a timer, a probe started
      or given up. */
  datatype Action =
    | Deliver(message: Message)
    | Detect(id: Bytes)
    | Fire(id: Bytes)
    | AwaitAck(seqNo: nat)
    | ForgetAck(seqNo: nat)

  function Act(v: View, a: Action): View {
    match a
    case Deliver(m) => OnMessage(v, m)
    case Detect(id) => SuspectLocally(v, id)
    case Fire(id) => Expire(v, id)
    case AwaitAck(n) => v.(pending := v.pending + {n})
    case ForgetAck(n) => v.(pending := v.pending - {n})
  }

  predicate NotLowered(v: View, w: View, id: Bytes)
    requires id in v.members
  {
    id in w.members && (w.members[id] == v.members[id] || Outranks(w.members[id], v.members[id]))
  }

  /** The actions that set a member back: the awaited acknowledgement of a suspect, and a join that is
      no newer than a dead or departed member. */
  predicate Lowers(v: View, a: Action, id: Bytes)
    requires id in v.members
  {
    var m := v.members[id];
    a.Deliver?
    && match a.message
       case Ack(n) => n.id == id && n.number in v.pending && m.state == IsSuspect
       case Join(n) =>
         && n.id == id && id != v.localId && n.incarnation <= m.incarnation
         && (m.state == IsDead || m.state == HasLeft)
       case _ => false
  }

  /** An action lowers a known member exactly then; any other leaves it as it was or raises it
      strictly. */
  lemma LoweredExactly(v: View, a: Action, id: Bytes)
    requires id in v.members
    ensures id in Act(v, a).members
    ensures !NotLowered(v, Act(v, a), id) <==> Lowers(v, a, id)
  {
  }

  // ---------- what changes a member, and what is recorded of it ----------

  /** The action is a message about the member from its own description of itself. */
  predicate Announces(a: Action, id: Bytes, n: NodeInfo) {
    (a == Deliver(Alive(n)) || a == Deliver(Join(n))) && n.id == id
  }

  /** A member is taken up exactly when a node other than the local one announces itself, and is then
      alive and recorded as it described itself. */
  lemma TakenUpExactly(v: View, a: Action, id: Bytes)
    requires id !in v.members
    ensures id in Act(v, a).members <==> id != v.localId && exists n :: Announces(a, id, n)
    ensures forall n :: id != v.localId && Announces(a, id, n) ==>
              Act(v, a).members[id] == Member(IsAlive, n.incarnation, n.address, n.port, n.metadata)
  {
    if id != v.localId && a.Deliver? && (a.message.Alive? || a.message.Join?) && a.message.node.id == id {
      assert Announces(a, id, a.message.node);
    }
  }

  /** A known member leaves exactly on its own LEAVE. */
  lemma LeavesExactly(v: View, a: Action, id: Bytes)
    requires id in v.members && id != v.localId && v.members[id].state != HasLeft
    ensures Act(v, a).members[id].state == HasLeft <==>
            a.Deliver? && a.message.Leave? && a.message.node.id == id
  {
  }

  /** A known member dies exactly on a DEAD notice that is not out of date, or when its suspicion timer
      runs out. */
  lemma DiesExactly(v: View, a: Action, id: Bytes)
    requires id in v.members && id != v.localId && v.members[id].state != IsDead
    ensures Act(v, a).members[id].state == IsDead <==>
            || (&& a.Deliver? && a.message.Dead? && a.message.notice.id == id && v.members[id].state != HasLeft
                && a.message.notice.number >= v.members[id].incarnation)
            || (a == Fire(id) && id in v.timers && v.members[id].state == IsSuspect)
  {
  }

  /** A known member becomes suspect exactly from alive, on a suspicion that is not out of date or when
      the local failure detector reports it. */
  lemma SuspectedExactly(v: View, a: Action, id: Bytes)
    requires id in v.members && id != v.localId && v.members[id].state != IsSuspect
    ensures Act(v, a).members[id].state == IsSuspect <==>
            && v.members[id].state == IsAlive
            && (|| (&& a.Deliver? && a.message.Suspect? && a.message.notice.id == id
                    && a.message.notice.number >= v.members[id].incarnation)
                || a == Detect(id))
  {
  }

  /** A known member is alive again exactly on the awaited acknowledgement of a suspect, on an
      announcement in a newer incarnation, or on any join of a dead or departed one. */
  lemma RevivedExactly(v: View, a: Action, id: Bytes)
    requires id in v.members && id != v.localId && v.members[id].state != IsAlive
    ensures Act(v, a).members[id].state == IsAlive <==>
            && a.Deliver?
            && (|| (&& a.message.Ack? && a.message.notice.id == id && a.message.notice.number in v.pending
                    && v.members[id].state == IsSuspect)
                || (&& (a.message.Alive? || a.message.Join?) && a.message.node.id == id
                    && a.message.node.incarnation > v.members[id].incarnation)
                || (a.message.Join? && a.message.node.id == id && v.members[id].state != IsSuspect))
  {
  }

  predicate SameDescription(m: Member, n: Member) {
    m.address == n.address && m.port == n.port && m.metadata == n.metadata
  }

  /** What is recorded when a known member changes: a notice changes at most state and incarnation, to
      the notice's; an announcement replaces everything; anything else changes the state alone. */
  lemma RecordedExactly(v: View, a: Action, id: Bytes)
    requires id in v.members && Act(v, a).members[id] != v.members[id]
    ensures var was, now := v.members[id], Act(v, a).members[id];
            if a.Deliver? && (a.message.Suspect? || a.message.Dead?)
            then now.incarnation == a.message.notice.number && SameDescription(now, was)
            else if a.Deliver? && (a.message.Alive? || a.message.Join?)
            then var n := a.message.node;
                 now == Member(IsAlive, n.incarnation, n.address, n.port, n.metadata)
            else now.incarnation == was.incarnation && SameDescription(now, was)
  {
  }

  /** A probe is awaited after an action exactly when it was before and neither its acknowledgement came
      nor it was given up, or the action started it. */
  lemma AwaitedExactly(v: View, a: Action, k: nat)
    ensures k in Act(v, a).pending <==>
            || (k in v.pending && a != ForgetAck(k) && !(a.Deliver? && a.message.Ack? && a.message.notice.number == k))
            || a == AwaitAck(k)
            || (&& a.Deliver? && a.message.PingReq? && a.message.probe.target in v.members
                && PingFits(v.localId, a.message.probe.target) && k == (v.seqNo + 1) % 0x1_0000_0000)
  {
  }

  /** No known member outside the exceptions has gone back. */
  ghost predicate NoneLowered(v: View, w: View, except: set<Bytes>) {
    forall id :: id in v.members && id !in except ==> NotLowered(v, w, id)
  }

  ghost function Lowered(v: View, a: Action): set<Bytes> {
    set id | id in v.members && Lowers(v, a, id)
  }

  lemma ActLowersNone(v: View, a: Action)
    ensures NoneLowered(v, Act(v, a), Lowered(v, a))
  {
    forall id | id in v.members && id !in Lowered(v, a) ensures NotLowered(v, Act(v, a), id) {
      LoweredExactly(v, a, id);
    }
  }

  /** Delivering a piece of membership news a second time changes nothing. */
  lemma RedeliveryIsNoOp(v: View, m: Message)
    requires m.Suspect? || m.Alive? || m.Dead? || m.Leave?
    requires (m.Suspect? || m.Dead?) ==> m.notice.number <= MAX_UINT32
    ensures OnMessage(OnMessage(v, m), m) == OnMessage(v, m)
  {
    match m
    case Suspect(n) =>
      if n.id == v.localId && n.number == MAX_UINT32 {
        assert Wrapped(n.number + 1) == 0;
      }
    case Alive(n) =>
    case Dead(n) =>
    case Leave(n) =>
  }

  // ---------- whole runs ----------

  ghost predicate Suspected(v: View, id: Bytes) {
    id in v.members && v.members[id].state == IsSuspect
  }

  /** A node is not its own member, and a suspicion timer runs for exactly the suspect members. */
  ghost predicate Consistent(v: View) {
    v.localId !in v.members && forall id :: id in v.timers <==> Suspected(v, id)
  }

  lemma ActKeepsConsistent(v: View, a: Action)
    requires Consistent(v)
    ensures Consistent(Act(v, a))
  {
  }

  function ActAll(v: View, actions: seq<Action>): View
    decreases |actions|
  {
    if actions == [] then v else Act(ActAll(v, actions[..|actions| - 1]), actions[|actions| - 1])
  }

  lemma {:induction false} RunConsistent(v: View, actions: seq<Action>)
    requires Consistent(v)
    ensures Consistent(ActAll(v, actions))
    decreases |actions|
  {
    if actions == [] {
    } else {
      RunConsistent(v, actions[..|actions| - 1]);
      ActKeepsConsistent(ActAll(v, actions[..|actions| - 1]), actions[|actions| - 1]);
    }
  }

  lemma OutranksTransitive(a: Member, b: Member, c: Member)
    requires a == b || Outranks(a, b)
    requires b == c || Outranks(b, c)
    ensures a == c || Outranks(a, c)
  {
  }

  /** Action `k` of a run does not lower the member. */
  ghost predicate KeepsRank(v: View, actions: seq<Action>, k: nat, id: Bytes)
    requires k < |actions|
  {
    var before := ActAll(v, actions[..k]);
    id in before.members ==> !Lowers(before, actions[k], id)
  }

  /** Over any stretch of a run without one of the two actions that lower a member, its precedence
      never regresses. */
  lemma {:induction false} PrecedenceNeverRegresses(v: View, actions: seq<Action>, i: nat, j: nat, id: Bytes)
    requires i <= j <= |actions| && id in ActAll(v, actions[..i]).members
    requires forall k :: i <= k < j ==> KeepsRank(v, actions, k, id)
    ensures var before, after := ActAll(v, actions[..i]), ActAll(v, actions[..j]);
            && id in after.members
            && (after.members[id] == before.members[id] || Outranks(after.members[id], before.members[id]))
    decreases j - i
  {
    if i == j {
    } else {
      PrecedenceNeverRegresses(v, actions, i, j - 1, id);
      assert actions[..j][..j - 1] == actions[..j - 1];
      var middle := ActAll(v, actions[..j - 1]);
      assert KeepsRank(v, actions, j - 1, id);
      LoweredExactly(middle, actions[j - 1], id);
      OutranksTransitive(Act(middle, actions[j - 1]).members[id], middle.members[id],
                         ActAll(v, actions[..i]).members[id]);
    }
  }

  /** Action `k` is the member's own announcement of what is recorded of it. */
  ghost predicate AnnouncedAt(actions: seq<Action>, k: nat, id: Bytes, m: Member) {
    k < |actions| && exists n :: Announces(actions[k], id, n)
                                 && n.address == m.address && n.port == m.port && n.metadata == m.metadata
  }

  /** Over every run from an empty view, the address, port and metadata recorded of a member are those
      of some announcement it made itself. */
  lemma {:induction false} DescriptionsAreAnnounced(v: View, actions: seq<Action>, id: Bytes) returns (k: nat)
    requires v.members == map[] && id in ActAll(v, actions).members
    ensures AnnouncedAt(actions, k, id, ActAll(v, actions).members[id])
    decreases |actions|
  {
    var i := |actions| - 1;
    var before, a := ActAll(v, actions[..i]), actions[i];
    if id !in before.members {
      TakenUpExactly(before, a, id);
      k := i;
    } else if Act(before, a).members[id] == before.members[id] {
      k := DescriptionsAreAnnounced(v, actions[..i], id);
    } else {
      RecordedExactly(before, a, id);
      if a.Deliver? && (a.message.Alive? || a.message.Join?) {
        assert Announces(a, id, a.message.node);
        k := i;
      } else {
        k := DescriptionsAreAnnounced(v, actions[..i], id);
      }
    }
  }

  // ---------- from bytes ----------

  datatype Input = Datagram(data: Bytes) | Other(action: Action)

  function Deliveries(messages: seq<Message>): seq<Action> {
    seq(|messages|, i requires 0 <= i < |messages| => Deliver(messages[i]))
  }

  function ActionsOf(input: Input): seq<Action> {
    match input
    case Datagram(data) => Deliveries(Receive(data).messages)
    case Other(a) => [a]
  }

  function TakeIn(v: View, inputs: seq<Input>): View
    decreases |inputs|
  {
    if inputs == [] then v
    else ActAll(TakeIn(v, inputs[..|inputs| - 1]), ActionsOf(inputs[|inputs| - 1]))
  }

  /** Whatever bytes arrive, interleaved in any way with detections and timers, a node never becomes
      its own member and the suspicion timers are those of the suspect members. */
  lemma {:induction false} AnyBytesKeepConsistent(v: View, inputs: seq<Input>)
    requires Consistent(v)
    ensures Consistent(TakeIn(v, inputs))
    decreases |inputs|
  {
    if inputs == [] {
    } else {
      AnyBytesKeepConsistent(v, inputs[..|inputs| - 1]);
      RunConsistent(TakeIn(v, inputs[..|inputs| - 1]), ActionsOf(inputs[|inputs| - 1]));
    }
  }

  // ---------- refutation ----------

  /** A suspicion that reaches its subject is answered with a fresh incarnation, and that answer
      clears the suspicion at a node that holds it, exactly when the suspected incarnation is not
      the last 32-bit one. */
  lemma RefutationClearsExactly(subject: View, accuser: View, incarnation: nat, info: NodeInfo)
    requires incarnation <= MAX_UINT32 && incarnation >= subject.localIncarnation
    requires subject.localId in accuser.members && subject.localId != accuser.localId
    requires accuser.members[subject.localId].state == IsSuspect
    requires accuser.members[subject.localId].incarnation == incarnation
    requires info.id == subject.localId
    requires info.incarnation == OnSuspect(subject, Notice(incarnation, subject.localId)).localIncarnation
    ensures OnAlive(accuser, info).members[subject.localId].state == IsAlive <==> incarnation < MAX_UINT32
  {
    if incarnation == MAX_UINT32 {
      assert Wrapped(incarnation + 1) == 0;
    } else {
      assert Wrapped(incarnation + 1) == incarnation + 1;
    }
  }

  /** A death notice resets the subject's incarnation whatever it was: it moves forward exactly when
      the notice was not stale and did not carry the last 32-bit incarnation. */
  lemma DeathRefutationForwardExactly(subject: View, incarnation: nat)
    requires incarnation <= MAX_UINT32
    ensures OnDead(subject, Notice(incarnation, subject.localId)).localIncarnation > subject.localIncarnation
            <==> subject.localIncarnation <= incarnation < MAX_UINT32
  {
    if incarnation == MAX_UINT32 {
      assert Wrapped(incarnation + 1) == 0;
    } else {
      assert Wrapped(incarnation + 1) == incarnation + 1;
    }
  }
}
