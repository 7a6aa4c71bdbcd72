/** Typed gossip messages on the wire, and how a received datagram is taken apart: one message, which
    may be a compound of further messages, followed by piggybacked ones. */
module GossipMessages {
  import opened Collections
  import opened GossipCodec

  datatype Message =
    | Ping(probe: Probe)
    | Ack(notice: Notice)
    | PingReq(probe: Probe)
    | Suspect(notice: Notice)
    | Alive(node: NodeInfo)
    | Dead(notice: Notice)
    | Join(node: NodeInfo)
    | Leave(node: NodeInfo)

  const COMPOUND: Byte := 9

  function Kind(m: Message): (k: Byte)
    ensures 1 <= k <= 8
  {
    match m
    case Ping(_) => 1
    case Ack(_) => 2
    case PingReq(_) => 3
    case Suspect(_) => 4
    case Alive(_) => 5
    case Dead(_) => 6
    case Join(_) => 7
    case Leave(_) => 8
  }

  function Parse(kind: Byte, payload: Bytes): (r: Decoded<Message>)
    ensures r.Panic? ==> |payload| > MAX_UINT16
  {
    if kind == 1 || kind == 3 then
      match DecodePing(payload)
      case Ok(p) => Ok(if kind == 1 then Ping(p) else PingReq(p))
      case Error => Error
      case Panic => Panic
    else if kind == 2 || kind == 4 || kind == 6 then
      match DecodeNotice(payload)
      case Ok(n) => Ok(if kind == 2 then Ack(n) else if kind == 4 then Suspect(n) else Dead(n))
      case Error => Error
      case Panic => Panic
    else if kind == 5 || kind == 7 || kind == 8 then
      match DecodeNode(payload)
      case Ok(n) => Ok(if kind == 5 then Alive(n) else if kind == 7 then Join(n) else Leave(n))
      case Error => Error
      case Panic => Panic
    else Error
  }

  // ---------- encoding ----------

  /** What the encoders require of the fields; `pairs` is the order metadata is written in. */
  ghost predicate Fits(m: Message, pairs: seq<Pair>) {
    match m
    case Ping(p) => ProbeFits(p)
    case PingReq(p) => ProbeFits(p)
    case Ack(n) => NoticeFits(n)
    case Suspect(n) => NoticeFits(n)
    case Dead(n) => NoticeFits(n)
    case Alive(n) => NodeFits(n.incarnation, n.id, n.address, pairs) && Lists(pairs, n.metadata)
    case Join(n) => NodeFits(n.incarnation, n.id, n.address, pairs) && Lists(pairs, n.metadata)
    case Leave(n) => NodeFits(n.incarnation, n.id, n.address, pairs) && Lists(pairs, n.metadata)
  }

  ghost function Payload(m: Message, pairs: seq<Pair>): Bytes
    requires Fits(m, pairs)
  {
    match m
    case Ping(p) => ProbePayload(p)
    case PingReq(p) => ProbePayload(p)
    case Ack(n) => NoticePayload(n)
    case Suspect(n) => NoticePayload(n)
    case Dead(n) => NoticePayload(n)
    case Alive(n) => NodePayload(n.incarnation, n.id, n.address, n.port, pairs)
    case Join(n) => NodePayload(n.incarnation, n.id, n.address, n.port, pairs)
    case Leave(n) => NodePayload(n.incarnation, n.id, n.address, n.port, pairs)
  }

  ghost predicate PortFits(m: Message) {
    (m.Alive? || m.Join? || m.Leave?) ==> 0 <= m.node.port <= MAX_UINT16
  }

  lemma NodePayloadLonger(n: NodeInfo, pairs: seq<Pair>)
    requires NodeFits(n.incarnation, n.id, n.address, pairs)
    ensures |NodePayload(n.incarnation, n.id, n.address, n.port, pairs)| >= 12 + |n.id|
  {
  }

  lemma ParseProbe(kind: Byte, p: Probe, payload: Bytes)
    requires kind in {1, 3} && ProbeFits(p) && payload == ProbePayload(p) && |payload| <= MAX_UINT16
    ensures Parse(kind, payload) == Ok(if kind == 1 then Ping(p) else PingReq(p))
  {
    ProbeRoundTripExactly(p);
  }

  lemma ParseNotice(kind: Byte, n: Notice, payload: Bytes)
    requires kind in {2, 4, 6} && NoticeFits(n) && payload == NoticePayload(n) && |payload| <= MAX_UINT16
    ensures Parse(kind, payload) == Ok(if kind == 2 then Ack(n) else if kind == 4 then Suspect(n) else Dead(n))
  {
    NoticeRoundTripExactly(n);
  }

  lemma ParseNode(kind: Byte, n: NodeInfo, pairs: seq<Pair>, payload: Bytes)
    requires kind in {5, 7, 8} && NodeFits(n.incarnation, n.id, n.address, pairs) && Lists(pairs, n.metadata)
    requires 0 <= n.port <= MAX_UINT16 && |payload| <= MAX_UINT16
    requires payload == NodePayload(n.incarnation, n.id, n.address, n.port, pairs)
    ensures Parse(kind, payload) == Ok(if kind == 5 then Alive(n) else if kind == 7 then Join(n) else Leave(n))
  {
    NodeBack(n, pairs, payload);
  }

  lemma ParseBack(m: Message, pairs: seq<Pair>, payload: Bytes)
    requires Fits(m, pairs) && PortFits(m) && payload == Payload(m, pairs) && |payload| <= MAX_UINT16
    ensures Parse(Kind(m), payload) == Ok(m)
  {
    match m
    case Ping(p) => ParseProbe(1, p, payload);
    case PingReq(p) => ParseProbe(3, p, payload);
    case Ack(n) => ParseNotice(2, n, payload);
    case Suspect(n) => ParseNotice(4, n, payload);
    case Dead(n) => ParseNotice(6, n, payload);
    case Alive(n) => ParseNode(5, n, pairs, payload);
    case Join(n) => ParseNode(7, n, pairs, payload);
    case Leave(n) => ParseNode(8, n, pairs, payload);
  }

  lemma NodeBack(n: NodeInfo, pairs: seq<Pair>, payload: Bytes)
    requires NodeFits(n.incarnation, n.id, n.address, pairs) && Lists(pairs, n.metadata)
    requires 0 <= n.port <= MAX_UINT16 && |payload| <= MAX_UINT16
    requires payload == NodePayload(n.incarnation, n.id, n.address, n.port, pairs)
    ensures DecodeNode(payload) == Ok(n)
  {
    NodePayloadLonger(n, pairs);
    NodeRoundTripExactly(n, pairs, payload);
    PortSurvivesExactly(n.port);
    assert n.(port := n.port) == n;
  }

  /** Every kind of message, followed by anything, is read back exactly when its payload is at most
      65532 bytes, whatever order its metadata was written in. */
  lemma MessageRoundTripExactly(m: Message, pairs: seq<Pair>, rest: Bytes)
    requires Fits(m, pairs) && PortFits(m) && |Payload(m, pairs)| <= MAX_UINT16
    ensures var r := DecodeMessage(FrameBytes(Kind(m), Payload(m, pairs)) + rest);
            if |Payload(m, pairs)| <= 65532
            then r.Ok? && r.value.remaining == rest && Parse(r.value.kind, r.value.payload) == Ok(m)
            else r.Panic?
  {
    FrameRoundTripExactly(Kind(m), Payload(m, pairs), rest);
    ParseBack(m, pairs, Payload(m, pairs));
  }

  // ---------- taking a datagram apart ----------

  /** The messages handled, in order, and whether a decoder failed at run time after them. */
  datatype Received = Received(messages: seq<Message>, failed: bool) {
    function Then(next: Received): Received {
      if failed then this else Received(messages + next.messages, next.failed)
    }
  }

  function One(r: Decoded<Message>): Received {
    match r
    case Ok(m) => Received([m], false)
    case Error => Received([], false)
    case Panic => Received([], true)
  }

  /** Piggybacked bytes carry only membership news; anything else is skipped. */
  predicate IsNews(kind: Byte) {
    4 <= kind <= 8
  }

  function Piggybacked(data: Bytes): (r: Received)
    ensures r.failed ==> |data| > MAX_UINT16
    decreases |data|
  {
    if |data| < 3 then Received([], false)
    else
      match DecodeMessage(data)
      case Error => Received([], false)
      case Panic => Received([], true)
      case Ok(frame) =>
        var first := if IsNews(frame.kind) then One(Parse(frame.kind, frame.payload)) else Received([], false);
        first.Then(Piggybacked(frame.remaining))
  }

  /** Nested messages are strictly shorter than the message they are in, so this ends. */
  function Receive(data: Bytes): (r: Received)
    ensures r.failed ==> |data| > MAX_UINT16
    decreases |data|, 1, 0
  {
    match DecodeMessage(data)
    case Error => Received([], false)
    case Panic => Received([], true)
    case Ok(frame) =>
      var first :=
        if frame.kind == COMPOUND then
          match DecodeCompound(frame.payload)
          case Ok(parts) => ReceiveAll(parts, |data|)
          case Error => Received([], false)
        else One(Parse(frame.kind, frame.payload));
      first.Then(Piggybacked(frame.remaining))
  }

  function ReceiveAll(parts: seq<Bytes>, bound: nat): (r: Received)
    requires forall i :: 0 <= i < |parts| ==> |parts[i]| < bound
    ensures r.failed ==> bound > MAX_UINT16
    decreases bound, 0, |parts|
  {
    if parts == [] then Received([], false)
    else Receive(parts[0]).Then(ReceiveAll(parts[1..], bound))
  }

  // ---------- nested messages survive ----------

  /** Messages that can be framed, with the order their metadata is written in. */
  datatype Outgoing = Outgoing(message: Message, pairs: seq<Pair>)

  ghost predicate Sendable(o: Outgoing) {
    Fits(o.message, o.pairs) && PortFits(o.message) && |Payload(o.message, o.pairs)| <= 65532
  }

  ghost function Wire(o: Outgoing): Bytes
    requires Sendable(o)
  {
    FrameBytes(Kind(o.message), Payload(o.message, o.pairs))
  }

  ghost predicate AllSendable(os: seq<Outgoing>) {
    forall i :: 0 <= i < |os| ==> Sendable(os[i])
  }

  ghost function WireAll(os: seq<Outgoing>): Bytes
    requires AllSendable(os)
  {
    if os == [] then [] else Wire(os[0]) + WireAll(os[1..])
  }

  function Messages(os: seq<Outgoing>): seq<Message> {
    if os == [] then [] else [os[0].message] + Messages(os[1..])
  }

  /** Messages about members: suspicions, deaths, and announcements of the living, the new and the
      departing. Probes and their answers are not. */
  predicate AboutMember(m: Message) {
    m.Suspect? || m.Alive? || m.Dead? || m.Join? || m.Leave?
  }

  /** The messages about members, in order. */
  function News(ms: seq<Message>): seq<Message> {
    if ms == [] then [] else (if AboutMember(ms[0]) then [ms[0]] else []) + News(ms[1..])
  }

  lemma {:induction false} AllNews(ms: seq<Message>)
    requires forall i :: 0 <= i < |ms| ==> AboutMember(ms[i])
    ensures News(ms) == ms
  {
    if ms == [] {
    } else {
      AllNews(ms[1..]);
    }
  }

  /** Of any messages piggybacked, exactly those about members are received, in order. */
  lemma {:induction false} PiggybackedRoundTrip(os: seq<Outgoing>)
    requires AllSendable(os)
    ensures Piggybacked(WireAll(os)) == Received(News(Messages(os)), false)
  {
    if os == [] {
    } else {
      MessageRoundTripExactly(os[0].message, os[0].pairs, WireAll(os[1..]));
      PiggybackedRoundTrip(os[1..]);
    }
  }

  lemma ReceiveFirst(data: Bytes, first: Message, rest: Bytes)
    requires DecodeMessage(data).Ok? && DecodeMessage(data).value.remaining == rest
    requires DecodeMessage(data).value.kind == Kind(first)
    requires Parse(Kind(first), DecodeMessage(data).value.payload) == Ok(first)
    ensures Receive(data) == Received([first], false).Then(Piggybacked(rest))
  {
  }

  /** A datagram of a leading message and piggybacked ones is received as the leading one, whatever it
      is, and those of the others that are about members. */
  lemma DatagramRoundTrip(first: Outgoing, news: seq<Outgoing>, data: Bytes)
    requires Sendable(first) && AllSendable(news) && data == Wire(first) + WireAll(news)
    ensures Receive(data) == Received([first.message] + News(Messages(news)), false)
  {
    FrameRoundTripExactly(Kind(first.message), Payload(first.message, first.pairs), WireAll(news));
    ParseBack(first.message, first.pairs, Payload(first.message, first.pairs));
    PiggybackedRoundTrip(news);
    ReceiveFirst(data, first.message, WireAll(news));
  }

  /** A leading message of no known kind is skipped, and what follows it is still received. */
  lemma UnknownSkipped(kind: Byte, payload: Bytes, news: seq<Outgoing>)
    requires (kind == 0 || kind > 9) && |payload| <= 65532 && AllSendable(news)
    ensures Receive(FrameBytes(kind, payload) + WireAll(news)) == Received(News(Messages(news)), false)
  {
    FrameRoundTripExactly(kind, payload, WireAll(news));
    PiggybackedRoundTrip(news);
  }

  // ---------- trees of messages ----------

  /** A datagram: one message or a compound of datagrams, with piggybacked messages after it. */
  datatype Tree =
    | Single(first: Outgoing, news: seq<Outgoing>)
    | Compound(parts: seq<Tree>, news: seq<Outgoing>)

  /** Every frame in the tree fits, and so does every part of a compound. */
  ghost predicate TreeFits(t: Tree)
    decreases t, 1
  {
    && AllSendable(t.news)
    && match t
       case Single(first, _) => Sendable(first)
       case Compound(parts, _) =>
         && |parts| <= MAX_UINT16 && TreesFit(parts)
         && PartsFit(TreeWires(parts)) && |CompoundPayload(TreeWires(parts))| <= 65532
  }

  ghost predicate TreesFit(ts: seq<Tree>)
    decreases ts, 2
  {
    forall i :: 0 <= i < |ts| ==> TreeFits(ts[i])
  }

  ghost function TreeWire(t: Tree): Bytes
    requires TreeFits(t)
    decreases t, 2
  {
    match t
    case Single(first, news) => Wire(first) + WireAll(news)
    case Compound(parts, news) => FrameBytes(COMPOUND, CompoundPayload(TreeWires(parts))) + WireAll(news)
  }

  ghost function TreeWires(ts: seq<Tree>): (parts: seq<Bytes>)
    requires TreesFit(ts)
    ensures |parts| == |ts| && forall i :: 0 <= i < |ts| ==> parts[i] == TreeWire(ts[i])
    decreases ts, 3
  {
    seq(|ts|, i requires 0 <= i < |ts| => TreeWire(ts[i]))
  }

  /** The messages of a tree that are to be handled, in order. */
  function TreeMessages(t: Tree): seq<Message> {
    match t
    case Single(first, news) => [first.message] + News(Messages(news))
    case Compound(parts, news) => AllMessages(parts) + News(Messages(news))
  }

  function AllMessages(ts: seq<Tree>): seq<Message> {
    if ts == [] then [] else TreeMessages(ts[0]) + AllMessages(ts[1..])
  }

  /** A compound is received as its parts are, then the news after it. */
  lemma CompoundReceived(parts: seq<Bytes>, rest: Bytes, data: Bytes)
    requires |parts| <= MAX_UINT16 && PartsFit(parts) && |CompoundPayload(parts)| <= 65532
    requires data == FrameBytes(COMPOUND, CompoundPayload(parts)) + rest
    ensures forall i :: 0 <= i < |parts| ==> |parts[i]| < |data|
    ensures Receive(data) == ReceiveAll(parts, |data|).Then(Piggybacked(rest))
  {
    var payload := CompoundPayload(parts);
    FrameRoundTripExactly(COMPOUND, payload, rest);
    CompoundRoundTrip(parts);
    forall i | 0 <= i < |parts| ensures |parts[i]| < |data| {
      assert |parts[i]| + 4 <= |payload|;
    }
  }

  /** However deeply compounds are nested and whatever follows them, a datagram is received as exactly
      its leading messages and the piggybacked ones about members, in order. */
  lemma {:induction false} TreeReceived(t: Tree)
    requires TreeFits(t)
    ensures Receive(TreeWire(t)) == Received(TreeMessages(t), false)
    decreases t, 0
  {
    match t
    case Single(first, news) => DatagramRoundTrip(first, news, TreeWire(t));
    case Compound(parts, news) =>
      var data := TreeWire(t);
      CompoundReceived(TreeWires(parts), WireAll(news), data);
      TreesReceived(parts, |data|);
      PiggybackedRoundTrip(news);
  }

  lemma {:induction false} TreesReceived(ts: seq<Tree>, bound: nat)
    requires TreesFit(ts) && forall i :: 0 <= i < |ts| ==> |TreeWire(ts[i])| < bound
    ensures ReceiveAll(TreeWires(ts), bound) == Received(AllMessages(ts), false)
    decreases ts, 1
  {
    if ts == [] {
    } else {
      TreeReceived(ts[0]);
      TreesReceived(ts[1..], bound);
      assert TreeWires(ts)[1..] == TreeWires(ts[1..]);
    }
  }

  // ---------- the program's loops ----------

  method EncodeMessageBuffer(kind: Byte, payload: Bytes) returns (r: Option<Bytes>)
    ensures r == EncodeMessage(kind, payload)
  {
    if |payload| > MAX_UINT16 {
      return None;
    }
    var buf := new Byte[3 + |payload|](_ => 0);
    var length := U16(|payload|);
    buf[0] := kind;
    buf[1], buf[2] := length[0], length[1];
    for i := 0 to |payload|
      invariant buf[0] == kind && buf[1] == length[0] && buf[2] == length[1]
      invariant forall k :: 0 <= k < i ==> buf[3 + k] == payload[k]
    {
      buf[3 + i] := payload[i];
    }
    assert buf[..] == [kind] + length + payload;
    r := Some(buf[..]);
  }

  lemma Associates(a: Bytes, b: Bytes, c: Bytes)
    ensures a + (b + c) == a + b + c
  {
  }

  lemma {:induction false} PairsBytesAppend(pairs: seq<Pair>, p: Pair)
    requires PairsFit(pairs) && PairFits(p)
    ensures PairsFit(pairs + [p]) && PairsBytes(pairs + [p]) == PairsBytes(pairs) + PairBytes(p)
    decreases |pairs|
  {
    if pairs == [] {
      assert pairs + [p] == [p] && [p][1..] == [];
    } else {
      PairsBytesAppend(pairs[1..], p);
      assert (pairs + [p])[1..] == pairs[1..] + [p];
      Associates(PairBytes(pairs[0]), PairsBytes(pairs[1..]), PairBytes(p));
    }
  }

  method WritePair(out: Bytes, p: Pair) returns (r: Bytes)
    requires PairFits(p)
    ensures r == out + PairBytes(p)
  {
    r := out + (U16(|p.key|) + p.key + (U16(|p.value|) + p.value));
  }

  /** The metadata loop of the encoder: any order, and an error on an oversized key or value. */
  method EncodePairs(metadata: Metadata) returns (r: Option<Bytes>, ghost pairs: seq<Pair>)
    ensures Lists(pairs, metadata) || r.None?
    ensures r.Some? <==> forall k :: k in metadata ==> PairFits(Pair(k, metadata[k]))
    ensures r.Some? ==> PairsFit(pairs) && r.value == PairsBytes(pairs)
  {
    var todo := metadata.Keys;
    var out: Bytes := [];
    pairs := [];
    ghost var done: Metadata := map[];
    while todo != {}
      invariant todo <= metadata.Keys && PairsFit(pairs) && out == PairsBytes(pairs)
      invariant Lists(pairs, done) && done.Keys == metadata.Keys - todo
      invariant forall k :: k in done ==> done[k] == metadata[k] && PairFits(Pair(k, metadata[k]))
      decreases todo
    {
      var k :| k in todo;
      var p := Pair(k, metadata[k]);
      if |k| > MAX_UINT16 || |metadata[k]| > MAX_UINT16 {
        assert !PairFits(p);
        return None, pairs;
      }
      PairsBytesAppend(pairs, p);
      ListsAppend(pairs, done, p);
      out := WritePair(out, p);
      todo, done, pairs := todo - {k}, done[k := metadata[k]], pairs + [p];
    }
    assert done == metadata;
    r := Some(out);
  }

  lemma ListsAppend(pairs: seq<Pair>, m: Metadata, p: Pair)
    requires Lists(pairs, m) && p.key !in m
    ensures Lists(pairs + [p], m[p.key := p.value])
  {
    var longer, grown := pairs + [p], m[p.key := p.value];
    forall k | k in grown ensures exists i :: 0 <= i < |longer| && longer[i].key == k {
      if k == p.key {
        assert longer[|pairs|].key == k;
      } else {
        var i :| 0 <= i < |pairs| && pairs[i].key == k;
        assert longer[i].key == k;
      }
    }
  }

  method ReadPairAt(payload: Bytes, start: nat) returns (r: Decoded<(Pair, nat)>)
    requires start <= |payload|
    ensures r == ReadPair(payload, start)
  {
    var off: nat := start;
    if |payload| < off + 2 {
      return Error;
    }
    var kLen := U16At(payload, off);
    off := off + 2;
    if |payload| < off + kLen + 2 {
      return Error;
    }
    var k := Slice(payload, off, kLen);
    off := off + kLen;
    var vLen := U16At(payload, off);
    off := off + 2;
    if |payload| < off + vLen {
      return Error;
    }
    r := Ok((Pair(k, Slice(payload, off, vLen)), off + vLen));
  }

  /** The metadata loop of the decoder. */
  method DecodePairsLoop(payload: Bytes, start: nat, count: nat) returns (r: Decoded<Metadata>)
    requires start <= |payload|
    ensures r == DecodePairs(payload, start, count, map[])
  {
    var off: nat := start;
    var metadata: Metadata := map[];
    for i := 0 to count
      invariant off <= |payload|
      invariant DecodePairs(payload, start, count, map[]) == DecodePairs(payload, off, count - i, metadata)
    {
      var read := ReadPairAt(payload, off);
      if read.Error? {
        return Error;
      }
      metadata := metadata[read.value.0.key := read.value.0.value];
      off := read.value.1;
    }
    r := Ok(metadata);
  }

  /** What the loop has gathered, followed by the result for the rest. */
  ghost function Following(messages: seq<Bytes>, r: Decoded<seq<Bytes>>): Decoded<seq<Bytes>> {
    if r.Ok? then Ok(messages + r.value) else r
  }

  lemma PartsNext(payload: Bytes, off: nat, count: nat, messages: seq<Bytes>)
    requires off <= |payload| && count > 0
    ensures var read := ReadField(payload, off);
            Following(messages, DecodeParts(payload, off, count)) ==
            if read.Error? then Error
            else Following(messages + [read.value.0], DecodeParts(payload, read.value.1, count - 1))
  {
    var read := ReadField(payload, off);
    if read.Ok? {
      var rest := DecodeParts(payload, read.value.1, count - 1);
      if rest.Ok? {
        assert messages + ([read.value.0] + rest.value) == messages + [read.value.0] + rest.value;
      }
    }
  }

  /** The loop that splits a compound payload. */
  method DecodeCompoundLoop(payload: Bytes) returns (r: Decoded<seq<Bytes>>)
    ensures r == DecodeCompound(payload)
  {
    if |payload| < 2 {
      return Error;
    }
    var count := U16At(payload, 0);
    var off: nat := 2;
    var messages: seq<Bytes> := [];
    ghost var all := DecodeParts(payload, 2, count);
    assert all.Ok? ==> [] + all.value == all.value;
    for i := 0 to count
      invariant off <= |payload|
      invariant all == Following(messages, DecodeParts(payload, off, count - i))
    {
      PartsNext(payload, off, count - i, messages);
      if |payload| < off + 2 {
        return Error;
      }
      var msgLen := U16At(payload, off);
      if |payload| < off + 2 + msgLen {
        return Error;
      }
      messages := messages + [Slice(payload, off + 2, msgLen)];
      off := off + 2 + msgLen;
    }
    assert messages + [] == messages;
    r := Ok(messages);
  }
}
