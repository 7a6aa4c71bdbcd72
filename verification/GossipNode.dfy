/** The gossip node as the program keeps it: handlers that change the member table, the timers and
    the pending probes in place, and the dispatch loop over received bytes. */
module GossipNode {
  import opened GossipCodec
  import opened GossipMessages
  import opened GossipMembership

  lemma {:induction false} ActAllConcat(v: View, a: seq<Action>, b: seq<Action>)
    ensures ActAll(v, a + b) == ActAll(ActAll(v, a), b)
    decreases |b|
  {
    if b == [] {
      assert a + b == a;
    } else {
      assert (a + b)[..|a + b| - 1] == a + b[..|b| - 1];
      ActAllConcat(v, a, b[..|b| - 1]);
    }
  }

  function DeliverAll(v: View, messages: seq<Message>): View {
    ActAll(v, Deliveries(messages))
  }

  lemma DeliverAllConcat(v: View, a: seq<Message>, b: seq<Message>)
    ensures DeliverAll(v, a + b) == DeliverAll(DeliverAll(v, a), b)
  {
    assert Deliveries(a + b) == Deliveries(a) + Deliveries(b);
    ActAllConcat(v, Deliveries(a), Deliveries(b));
  }

  lemma DeliverOne(v: View, m: Message)
    ensures DeliverAll(v, [m]) == OnMessage(v, m)
  {
    assert Deliveries([m]) == [Deliver(m)] && [Deliver(m)][..0] == [];
    assert ActAll(v, []) == v;
  }

  class Gossip {
    const localId: Bytes
    var localIncarnation: nat
    var members: map<Bytes, Member>
    var suspicionTimers: set<Bytes>
    var ackHandlers: set<nat>
    var seqNo: nat

    ghost function Snapshot(): View
      reads this
    {
      View(localId, localIncarnation, members, suspicionTimers, ackHandlers, seqNo)
    }

    /** The node is not its own member, and timers run for exactly the suspect members. */
    ghost predicate Valid()
      reads this
    {
      Consistent(Snapshot())
    }

    /** Every action keeps the object valid and lowers nobody who must not be lowered. */
    lemma ActionKeeps(a: Action)
      ensures Valid() ==> Consistent(Act(Snapshot(), a))
      ensures NoneLowered(Snapshot(), Act(Snapshot(), a), Lowered(Snapshot(), a))
    {
      ActLowersNone(Snapshot(), a);
      if Valid() {
        ActKeepsConsistent(Snapshot(), a);
      }
    }

    constructor (id: Bytes)
      ensures Snapshot() == View(id, 0, map[], {}, {}, 0) && Valid()
    {
      localId := id;
      localIncarnation, members, suspicionTimers, ackHandlers, seqNo := 0, map[], {}, {}, 0;
    }

    method StartSuspicion(id: Bytes)
      modifies this`suspicionTimers
      ensures suspicionTimers == old(suspicionTimers) + {id}
    {
      suspicionTimers := suspicionTimers + {id};
    }

    method CancelSuspicion(id: Bytes)
      modifies this`suspicionTimers
      ensures suspicionTimers == old(suspicionTimers) - {id}
    {
      if id in suspicionTimers {
        suspicionTimers := suspicionTimers - {id};
      }
    }

    method HandleAck(n: Notice)
      modifies this
      ensures Snapshot() == OnAck(old(Snapshot()), n)
      ensures old(Valid()) ==> Valid()
      ensures NoneLowered(old(Snapshot()), Snapshot(), Lowered(old(Snapshot()), Deliver(Ack(n))))
      ensures n.number !in ackHandlers
      ensures n.number in old(ackHandlers) && n.id in members ==> members[n.id].state != IsSuspect
    {
      ActionKeeps(Deliver(Ack(n)));
      if n.number in ackHandlers {
        ackHandlers := ackHandlers - {n.number};
        if n.id in members && members[n.id].state == IsSuspect {
          members := members[n.id := members[n.id].(state := IsAlive)];
          CancelSuspicion(n.id);
        }
      }
    }

    method HandlePingReq(p: Probe)
      modifies this`ackHandlers, this`seqNo
      ensures Snapshot() == OnPingReq(old(Snapshot()), p)
      ensures p.target in members && PingFits(localId, p.target) ==>
                seqNo == Wrapped(old(seqNo) + 1) && ackHandlers == old(ackHandlers) + {seqNo}
      ensures p.target !in members || !PingFits(localId, p.target) ==> ackHandlers == old(ackHandlers)
      ensures (old(Valid()) ==> Valid()) && NoneLowered(old(Snapshot()), Snapshot(), {})
    {
      ActionKeeps(Deliver(PingReq(p)));
      if p.target !in members {
        return;
      }
      seqNo := Wrapped(seqNo + 1);
      if PingFits(localId, p.target) {
        ackHandlers := ackHandlers + {seqNo};
      }
    }

    method HandleSuspect(n: Notice)
      modifies this
      ensures Snapshot() == OnSuspect(old(Snapshot()), n)
      ensures (old(Valid()) ==> Valid()) && NoneLowered(old(Snapshot()), Snapshot(), {})
      ensures n.id == localId && n.number < MAX_UINT32 ==> localIncarnation > n.number
      ensures n.id in members && n.id != localId && members[n.id].state == IsAlive ==>
                members[n.id].incarnation > n.number
    {
      ActionKeeps(Deliver(Suspect(n)));
      if n.id == localId {
        if n.number >= localIncarnation {
          localIncarnation := Wrapped(n.number + 1);
        }
        return;
      }
      if n.id !in members {
        return;
      }
      if members[n.id].state == IsAlive && n.number >= members[n.id].incarnation {
        members := members[n.id := members[n.id].(state := IsSuspect, incarnation := n.number)];
        StartSuspicion(n.id);
      }
    }

    method HandleAlive(n: NodeInfo)
      modifies this
      ensures Snapshot() == OnAlive(old(Snapshot()), n)
      ensures (old(Valid()) ==> Valid()) && NoneLowered(old(Snapshot()), Snapshot(), {})
      ensures n.id != localId ==> n.id in members && members[n.id].incarnation >= n.incarnation
    {
      ActionKeeps(Deliver(Alive(n)));
      if n.id == localId {
        return;
      }
      if n.id !in members {
        members := members[n.id := Described(n)];
        return;
      }
      if n.incarnation > members[n.id].incarnation {
        var oldState := members[n.id].state;
        members := members[n.id := Described(n)];
        if oldState == IsSuspect || oldState == IsDead {
          CancelSuspicion(n.id);
        }
      }
    }

    method HandleDead(n: Notice)
      modifies this
      ensures Snapshot() == OnDead(old(Snapshot()), n)
      ensures (old(Valid()) ==> Valid()) && NoneLowered(old(Snapshot()), Snapshot(), {})
      ensures n.id == localId && n.number < MAX_UINT32 ==> localIncarnation > n.number
      ensures n.id in members && n.id != localId && members[n.id].incarnation <= n.number ==>
                members[n.id].state == IsDead || members[n.id].state == HasLeft
    {
      ActionKeeps(Deliver(Dead(n)));
      if n.id == localId {
        localIncarnation := Wrapped(n.number + 1);
        return;
      }
      if n.id !in members {
        return;
      }
      var m := members[n.id];
      if n.number >= m.incarnation && m.state != IsDead && m.state != HasLeft {
        members := members[n.id := m.(state := IsDead, incarnation := n.number)];
        CancelSuspicion(n.id);
      }
    }

    method HandleJoin(n: NodeInfo)
      modifies this
      ensures Snapshot() == OnJoin(old(Snapshot()), n)
      ensures old(Valid()) ==> Valid()
      ensures NoneLowered(old(Snapshot()), Snapshot(), Lowered(old(Snapshot()), Deliver(Join(n))))
      ensures n.id != localId ==> n.id in members && members[n.id].state in {IsAlive, IsSuspect}
    {
      ActionKeeps(Deliver(Join(n)));
      if n.id == localId {
        return;
      }
      if n.id !in members {
        members := members[n.id := Described(n)];
      } else {
        var m := members[n.id];
        if n.incarnation > m.incarnation || m.state == IsDead || m.state == HasLeft {
          members := members[n.id := Described(n)];
          CancelSuspicion(n.id);
        }
      }
    }

    method HandleLeave(n: NodeInfo)
      modifies this
      ensures Snapshot() == OnLeave(old(Snapshot()), n)
      ensures (old(Valid()) ==> Valid()) && NoneLowered(old(Snapshot()), Snapshot(), {})
      ensures n.id in members && n.id != localId ==> members[n.id].state == HasLeft
    {
      ActionKeeps(Deliver(Leave(n)));
      if n.id == localId {
        return;
      }
      if n.id in members && members[n.id].state != HasLeft {
        members := members[n.id := members[n.id].(state := HasLeft)];
        CancelSuspicion(n.id);
      }
    }

    method SuspectNode(id: Bytes)
      modifies this
      ensures Snapshot() == SuspectLocally(old(Snapshot()), id)
      ensures (old(Valid()) ==> Valid()) && NoneLowered(old(Snapshot()), Snapshot(), {})
      ensures id in members ==> members[id].state != IsAlive
    {
      ActionKeeps(Detect(id));
      if id !in members || members[id].state != IsAlive {
        return;
      }
      members := members[id := members[id].(state := IsSuspect)];
      StartSuspicion(id);
    }

    /** The body of a suspicion timer. */
    method SuspicionExpired(id: Bytes)
      requires id in suspicionTimers
      modifies this
      ensures Snapshot() == Expire(old(Snapshot()), id)
      ensures (old(Valid()) ==> Valid()) && NoneLowered(old(Snapshot()), Snapshot(), {})
      ensures id !in suspicionTimers && (id in members ==> members[id].state != IsSuspect)
    {
      ActionKeeps(Fire(id));
      if id in members && members[id].state == IsSuspect {
        members := members[id := members[id].(state := IsDead)];
      }
      suspicionTimers := suspicionTimers - {id};
    }

    method Handle(m: Message)
      modifies this
      ensures Snapshot() == OnMessage(old(Snapshot()), m)
    {
      match m
      case Ping(_) =>
      case PingReq(p) => HandlePingReq(p);
      case Ack(n) => HandleAck(n);
      case Suspect(n) => HandleSuspect(n);
      case Alive(n) => HandleAlive(n);
      case Dead(n) => HandleDead(n);
      case Join(n) => HandleJoin(n);
      case Leave(n) => HandleLeave(n);
    }

    /** Parses one payload and runs its handler, if it parses. */
    method HandleParsed(kind: Byte, payload: Bytes) returns (failed: bool)
      modifies this
      ensures Snapshot() == DeliverAll(old(Snapshot()), One(Parse(kind, payload)).messages)
      ensures failed == One(Parse(kind, payload)).failed
    {
      var parsed := Parse(kind, payload);
      if parsed.Ok? {
        DeliverOne(Snapshot(), parsed.value);
        Handle(parsed.value);
      }
      failed := parsed.Panic?;
    }

    /** The loop over piggybacked messages. */
    method HandlePiggybacked(data: Bytes) returns (failed: bool)
      modifies this
      ensures Snapshot() == DeliverAll(old(Snapshot()), Piggybacked(data).messages)
      ensures failed == Piggybacked(data).failed
    {
      var remaining := data;
      ghost var done: seq<Message> := [];
      assert [] + Piggybacked(data).messages == Piggybacked(data).messages;
      while |remaining| >= 3
        invariant Snapshot() == DeliverAll(old(Snapshot()), done)
        invariant Piggybacked(data) == Received(done, false).Then(Piggybacked(remaining))
        decreases |remaining|
      {
        var decoded := DecodeMessage(remaining);
        if decoded.Error? {
          assert done + [] == done;
          return false;
        }
        if decoded.Panic? {
          assert done + [] == done;
          return true;
        }
        var frame := decoded.value;
        if IsNews(frame.kind) {
          ghost var handled := One(Parse(frame.kind, frame.payload)).messages;
          DeliverAllConcat(old(Snapshot()), done, handled);
          ThenAssociates(done, One(Parse(frame.kind, frame.payload)), Piggybacked(frame.remaining));
          failed := HandleParsed(frame.kind, frame.payload);
          done := done + handled;
          if failed {
            return true;
          }
        } else {
          ThenAssociates(done, Received([], false), Piggybacked(frame.remaining));
          assert done + [] == done;
        }
        remaining := frame.remaining;
      }
      assert done + [] == done;
      failed := false;
    }

    /** Dispatches a datagram. Nested messages are strictly shorter, so the recursion ends. */
    method HandleMessage(data: Bytes) returns (failed: bool)
      modifies this
      ensures Snapshot() == DeliverAll(old(Snapshot()), Receive(data).messages)
      ensures failed == Receive(data).failed
      ensures old(Valid()) ==> Valid()
      decreases |data|, 1, 0
    {
      if Valid() {
        RunConsistent(Snapshot(), Deliveries(Receive(data).messages));
      }
      var decoded := DecodeMessage(data);
      if !decoded.Ok? {
        return decoded.Panic?;
      }
      var frame := decoded.value;
      ghost var first: Received;
      failed := false;
      if frame.kind == COMPOUND {
        var parts := DecodeCompoundLoop(frame.payload);
        first := if parts.Ok? then ReceiveAll(parts.value, |data|) else Received([], false);
        if parts.Ok? {
          failed := HandleAll(parts.value, |data|);
        }
      } else {
        first := One(Parse(frame.kind, frame.payload));
        failed := HandleParsed(frame.kind, frame.payload);
      }
      assert Snapshot() == DeliverAll(old(Snapshot()), first.messages);
      if !failed {
        DeliverAllConcat(old(Snapshot()), first.messages, Piggybacked(frame.remaining).messages);
        failed := HandlePiggybacked(frame.remaining);
      }
    }

    method HandleAll(parts: seq<Bytes>, bound: nat) returns (failed: bool)
      requires forall i :: 0 <= i < |parts| ==> |parts[i]| < bound
      modifies this
      ensures Snapshot() == DeliverAll(old(Snapshot()), ReceiveAll(parts, bound).messages)
      ensures failed == ReceiveAll(parts, bound).failed
      decreases bound, 0, |parts|
    {
      failed := false;
      if |parts| > 0 {
        failed := HandleMessage(parts[0]);
        if !failed {
          DeliverAllConcat(old(Snapshot()), Receive(parts[0]).messages, ReceiveAll(parts[1..], bound).messages);
          failed := HandleAll(parts[1..], bound);
        }
      }
    }
  }

  lemma ThenAssociates(done: seq<Message>, first: Received, rest: Received)
    ensures Received(done, false).Then(first.Then(rest)) ==
            Received(done + first.messages, first.failed).Then(rest)
  {
    assert done + (first.messages + rest.messages) == done + first.messages + rest.messages;
  }
}
