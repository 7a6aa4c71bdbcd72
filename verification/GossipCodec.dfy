/** The binary gossip messages: `[type: 1][length: 2][payload]`, integers big-endian. Decoders are
    total on arbitrary bytes. Two of the slice ends in the program are computed in 16 bits; where
    that wraps, the slice expression fails at run time and the decoder yields `Panic`. */
module GossipCodec {
  import opened Collections

  type Byte = x: int | 0 <= x < 256
  type Bytes = seq<Byte>

  datatype Decoded<+T> = Ok(value: T) | Error | Panic

  const MAX_UINT16: nat := 0xFFFF
  const MAX_UINT32: nat := 0xFFFF_FFFF

  // ---------- integers ----------

  function U16(n: nat): (b: Bytes)
    requires n <= MAX_UINT16
    ensures |b| == 2
  {
    [n / 256, n % 256]
  }

  function U16At(data: Bytes, off: nat): (n: nat)
    requires off + 2 <= |data|
    ensures n <= MAX_UINT16
  {
    var high: int := data[off];
    high * 256 + data[off + 1]
  }

  function U32(n: nat): (b: Bytes)
    requires n <= MAX_UINT32
    ensures |b| == 4
  {
    U16(n / 0x1_0000) + U16(n % 0x1_0000)
  }

  function U32At(data: Bytes, off: nat): (n: nat)
    requires off + 4 <= |data|
    ensures n <= MAX_UINT32
  {
    U16At(data, off) * 0x1_0000 + U16At(data, off + 2)
  }

  /** `length` bytes from an offset on. */
  function Slice(data: Bytes, off: nat, length: nat): (b: Bytes)
    requires off + length <= |data|
    ensures |b| == length
  {
    seq(length, i requires 0 <= i < length => data[off + i])
  }

  /** The payload holds the given bytes at an offset; stated from the last byte down, so that a proof
      meets single bytes only where it asks for them. */
  predicate At(payload: Bytes, off: nat, bytes: Bytes) {
    off + |bytes| <= |payload| && AtUpTo(payload, off, bytes, |bytes|)
  }

  predicate AtUpTo(payload: Bytes, off: nat, bytes: Bytes, n: nat)
    requires n <= |bytes| && off + |bytes| <= |payload|
  {
    n == 0 || (payload[off + n - 1] == bytes[n - 1] && AtUpTo(payload, off, bytes, n - 1))
  }

  lemma {:induction false} AtByte(payload: Bytes, off: nat, bytes: Bytes, n: nat, k: nat)
    requires k < n <= |bytes| && off + |bytes| <= |payload| && AtUpTo(payload, off, bytes, n)
    ensures payload[off + k] == bytes[k]
  {
    if k == n - 1 {
    } else {
      AtByte(payload, off, bytes, n - 1, k);
    }
  }

  lemma {:induction false} AtBytes(payload: Bytes, off: nat, bytes: Bytes, n: nat)
    requires n <= |bytes| && off + |bytes| <= |payload|
    requires forall k :: 0 <= k < n ==> payload[off + k] == bytes[k]
    ensures AtUpTo(payload, off, bytes, n)
  {
    if n == 0 {
    } else {
      AtBytes(payload, off, bytes, n - 1);
    }
  }

  lemma AtBoth(payload: Bytes, off: nat, a: Bytes, b: Bytes)
    requires At(payload, off, a) && At(payload, off + |a|, b)
    ensures At(payload, off, a + b)
  {
    var all := a + b;
    forall k | 0 <= k < |all| ensures payload[off + k] == all[k] {
      if k < |a| {
        AtByte(payload, off, a, |a|, k);
      } else {
        AtByte(payload, off + |a|, b, |b|, k - |a|);
      }
    }
    AtBytes(payload, off, all, |all|);
  }

  lemma AtEach(payload: Bytes, off: nat, a: Bytes, b: Bytes)
    requires At(payload, off, a + b)
    ensures At(payload, off, a) && At(payload, off + |a|, b)
  {
    var all := a + b;
    forall k | 0 <= k < |a| ensures payload[off + k] == a[k] {
      AtByte(payload, off, all, |all|, k);
    }
    AtBytes(payload, off, a, |a|);
    forall k | 0 <= k < |b| ensures payload[off + |a| + k] == b[k] {
      AtByte(payload, off, all, |all|, |a| + k);
    }
    AtBytes(payload, off + |a|, b, |b|);
  }

  lemma AtConcat(payload: Bytes, off: nat, a: Bytes, b: Bytes)
    ensures At(payload, off, a + b) <==> At(payload, off, a) && At(payload, off + |a|, b)
  {
    if At(payload, off, a + b) {
      AtEach(payload, off, a, b);
    }
    if At(payload, off, a) && At(payload, off + |a|, b) {
      AtBoth(payload, off, a, b);
    }
  }

  lemma SliceBack(payload: Bytes, off: nat, field: Bytes)
    requires At(payload, off, field)
    ensures Slice(payload, off, |field|) == field
  {
    forall k | 0 <= k < |field| ensures payload[off + k] == field[k] {
      AtByte(payload, off, field, |field|, k);
    }
  }

  lemma U16Back(payload: Bytes, off: nat, n: nat)
    requires n <= MAX_UINT16 && At(payload, off, U16(n))
    ensures U16At(payload, off) == n
  {
    AtByte(payload, off, U16(n), 2, 0);
    AtByte(payload, off, U16(n), 2, 1);
  }

  lemma U32Back(payload: Bytes, off: nat, n: nat)
    requires n <= MAX_UINT32 && At(payload, off, U32(n))
    ensures U32At(payload, off) == n
  {
    AtConcat(payload, off, U16(n / 0x1_0000), U16(n % 0x1_0000));
    U16Back(payload, off, n / 0x1_0000);
    U16Back(payload, off + 2, n % 0x1_0000);
  }

  lemma AtWhole(payload: Bytes)
    ensures At(payload, 0, payload)
  {
    AtBytes(payload, 0, payload, |payload|);
  }

  /** A length-prefixed string. */
  function FieldBytes(field: Bytes): Bytes
    requires |field| <= MAX_UINT16
  {
    U16(|field|) + field
  }

  // ---------- frames ----------

  datatype Frame = Frame(kind: Byte, payload: Bytes, remaining: Bytes)

  function FrameBytes(kind: Byte, payload: Bytes): Bytes
    requires |payload| <= MAX_UINT16
  {
    [kind] + U16(|payload|) + payload
  }

  function EncodeMessage(kind: Byte, payload: Bytes): Option<Bytes> {
    if |payload| > MAX_UINT16 then None else Some(FrameBytes(kind, payload))
  }

  function DecodeMessage(data: Bytes): (r: Decoded<Frame>)
    ensures r.Ok? ==> |r.value.payload| + |r.value.remaining| + 3 == |data|
    ensures r.Panic? ==> |data| > MAX_UINT16
  {
    if |data| < 3 then Error
    else
      var length := U16At(data, 1);
      if length > |data| - 3 then Error
      else
        var end := (3 + length) % 0x1_0000;
        if end < 3 then Panic else Ok(Frame(data[0], data[3..end], data[end..]))
  }

  /** A frame followed by anything decodes to itself and the rest exactly when its payload is at
      most 65532 bytes; the encoder also accepts three longer lengths, on which decoding fails. */
  lemma FrameRoundTripExactly(kind: Byte, payload: Bytes, rest: Bytes)
    requires |payload| <= MAX_UINT16
    ensures DecodeMessage(FrameBytes(kind, payload) + rest) ==
            if |payload| <= 65532 then Ok(Frame(kind, payload, rest)) else Panic
  {
    var data := FrameBytes(kind, payload) + rest;
    U16Back(data, 1, |payload|);
    if |payload| <= 65532 {
      assert data[3..3 + |payload|] == payload;
      assert data[3 + |payload|..] == rest;
    }
  }

  /** A whole datagram of framed messages comes apart into those messages, in order. */
  function Frames(messages: seq<(Byte, Bytes)>): Bytes
    requires forall i :: 0 <= i < |messages| ==> |messages[i].1| <= MAX_UINT16
  {
    if messages == [] then [] else FrameBytes(messages[0].0, messages[0].1) + Frames(messages[1..])
  }

  function SplitFrames(data: Bytes): Decoded<seq<(Byte, Bytes)>>
    decreases |data|
  {
    if data == [] then Ok([])
    else
      match DecodeMessage(data)
      case Error => Error
      case Panic => Panic
      case Ok(frame) =>
        match SplitFrames(frame.remaining)
        case Ok(rest) => Ok([(frame.kind, frame.payload)] + rest)
        case Error => Error
        case Panic => Panic
  }

  lemma {:induction false} ConcatenationRoundTrip(messages: seq<(Byte, Bytes)>)
    requires forall i :: 0 <= i < |messages| ==> |messages[i].1| <= 65532
    ensures SplitFrames(Frames(messages)) == Ok(messages)
  {
    if messages == [] {
    } else {
      var rest := messages[1..];
      FrameRoundTripExactly(messages[0].0, messages[0].1, Frames(rest));
      ConcatenationRoundTrip(rest);
      assert messages == [messages[0]] + rest;
    }
  }

  // ---------- probes and verdicts ----------

  datatype Probe = Probe(seqNo: nat, sender: Bytes, target: Bytes)

  /** A number and an identifier: acknowledgements, suspicions and death notices share the form. */
  datatype Notice = Notice(number: nat, id: Bytes)

  predicate ProbeFits(p: Probe) {
    p.seqNo <= MAX_UINT32 && |p.sender| <= MAX_UINT16 && |p.target| <= MAX_UINT16
  }

  function ProbePayload(p: Probe): Bytes
    requires ProbeFits(p)
  {
    U32(p.seqNo) + FieldBytes(p.sender) + FieldBytes(p.target)
  }

  function DecodePing(payload: Bytes): (r: Decoded<Probe>)
    ensures r.Panic? ==> |payload| > MAX_UINT16
  {
    if |payload| < 8 then Error
    else
      var senderLen := U16At(payload, 4);
      if |payload| < 6 + senderLen + 2 then Error
      else if 6 + senderLen > MAX_UINT16 then Panic
      else
        var off := 6 + senderLen;
        var targetLen := U16At(payload, off);
        if |payload| < off + 2 + targetLen then Error
        else Ok(Probe(U32At(payload, 0), Slice(payload, 6, senderLen), Slice(payload, off + 2, targetLen)))
  }

  predicate NoticeFits(n: Notice) {
    n.number <= MAX_UINT32 && |n.id| <= MAX_UINT16
  }

  function NoticePayload(n: Notice): Bytes
    requires NoticeFits(n)
  {
    U32(n.number) + FieldBytes(n.id)
  }

  function DecodeNotice(payload: Bytes): (r: Decoded<Notice>)
    ensures r.Panic? ==> |payload| > MAX_UINT16
  {
    if |payload| < 6 then Error
    else
      var idLen := U16At(payload, 4);
      if |payload| < 6 + idLen then Error
      else if 6 + idLen > MAX_UINT16 then Panic
      else Ok(Notice(U32At(payload, 0), Slice(payload, 6, idLen)))
  }

  /** The payload holds a number and an identifier. */
  lemma NumberedBack(payload: Bytes, number: nat, id: Bytes)
    requires number <= MAX_UINT32 && |id| <= MAX_UINT16 && At(payload, 0, U32(number) + FieldBytes(id))
    ensures U32At(payload, 0) == number && U16At(payload, 4) == |id|
    ensures 6 + |id| <= |payload| && Slice(payload, 6, |id|) == id
  {
    AtConcat(payload, 0, U32(number), FieldBytes(id));
    AtConcat(payload, 4, U16(|id|), id);
    U32Back(payload, 0, number);
    U16Back(payload, 4, |id|);
    SliceBack(payload, 6, id);
  }

  /** Decoding undoes encoding exactly when the end of the first identifier fits 16 bits. */
  lemma ProbeRoundTripExactly(p: Probe)
    requires ProbeFits(p)
    ensures DecodePing(ProbePayload(p)) == if 6 + |p.sender| <= MAX_UINT16 then Ok(p) else Panic
  {
    var payload, off := ProbePayload(p), 6 + |p.sender|;
    AtWhole(payload);
    AtConcat(payload, 0, U32(p.seqNo) + FieldBytes(p.sender), FieldBytes(p.target));
    NumberedBack(payload, p.seqNo, p.sender);
    AtConcat(payload, off, U16(|p.target|), p.target);
    U16Back(payload, off, |p.target|);
    SliceBack(payload, off + 2, p.target);
  }

  lemma NoticeRoundTripExactly(n: Notice)
    requires NoticeFits(n)
    ensures DecodeNotice(NoticePayload(n)) == if 6 + |n.id| <= MAX_UINT16 then Ok(n) else Panic
  {
    AtWhole(NoticePayload(n));
    NumberedBack(NoticePayload(n), n.number, n.id);
  }

  // ---------- node descriptions ----------

  type Metadata = map<Bytes, Bytes>

  datatype NodeInfo = NodeInfo(incarnation: nat, id: Bytes, address: Bytes, port: int, metadata: Metadata)

  datatype Pair = Pair(key: Bytes, value: Bytes)

  predicate PairFits(p: Pair) {
    |p.key| <= MAX_UINT16 && |p.value| <= MAX_UINT16
  }

  predicate PairsFit(pairs: seq<Pair>) {
    forall i :: 0 <= i < |pairs| ==> PairFits(pairs[i])
  }

  /** Reads the length-prefixed string at `off`; the second result is the offset past it. */
  function ReadField(payload: Bytes, off: nat): (r: Decoded<(Bytes, nat)>)
    requires off <= |payload|
    ensures !r.Panic?
    ensures r.Ok? ==> off + 2 + |r.value.0| == r.value.1 <= |payload|
  {
    if |payload| < off + 2 then Error
    else
      var len := U16At(payload, off);
      if |payload| < off + 2 + len then Error
      else Ok((Slice(payload, off + 2, len), off + 2 + len))
  }

  lemma ReadFieldBack(payload: Bytes, off: nat, field: Bytes)
    requires |field| <= MAX_UINT16 && At(payload, off, FieldBytes(field))
    ensures ReadField(payload, off) == Ok((field, off + 2 + |field|))
  {
    AtConcat(payload, off, U16(|field|), field);
    U16Back(payload, off, |field|);
    SliceBack(payload, off + 2, field);
  }

  function PairBytes(p: Pair): Bytes
    requires PairFits(p)
  {
    FieldBytes(p.key) + FieldBytes(p.value)
  }

  function PairsBytes(pairs: seq<Pair>): Bytes
    requires PairsFit(pairs)
  {
    if pairs == [] then [] else PairBytes(pairs[0]) + PairsBytes(pairs[1..])
  }

  /** The map a sequence of assignments builds. */
  function Assign(m: Metadata, pairs: seq<Pair>): Metadata
    decreases |pairs|
  {
    if pairs == [] then m else Assign(m[pairs[0].key := pairs[0].value], pairs[1..])
  }

  /** `pairs` lists the map, each key once, in some order. */
  ghost predicate Lists(pairs: seq<Pair>, m: Metadata) {
    && (forall i, j :: 0 <= i < j < |pairs| ==> pairs[i].key != pairs[j].key)
    && (forall i :: 0 <= i < |pairs| ==> pairs[i].key in m && m[pairs[i].key] == pairs[i].value)
    && (forall k :: k in m ==> exists i :: 0 <= i < |pairs| && pairs[i].key == k)
  }

  predicate NodeFits(incarnation: nat, id: Bytes, address: Bytes, pairs: seq<Pair>) {
    && incarnation <= MAX_UINT32 && |id| <= MAX_UINT16 && |address| <= MAX_UINT16
    && |pairs| <= MAX_UINT16 && PairsFit(pairs)
  }

  function NodeName(incarnation: nat, id: Bytes): (b: Bytes)
    requires incarnation <= MAX_UINT32 && |id| <= MAX_UINT16
    ensures |b| == 6 + |id|
  {
    U32(incarnation) + FieldBytes(id)
  }

  /** The port is truncated to 16 bits. */
  function NodePlace(address: Bytes, port: int, count: nat): (b: Bytes)
    requires |address| <= MAX_UINT16 && count <= MAX_UINT16
    ensures |b| == 6 + |address|
  {
    FieldBytes(address) + (U16(port % 0x1_0000) + U16(count))
  }

  function NodePayload(incarnation: nat, id: Bytes, address: Bytes, port: int, pairs: seq<Pair>): Bytes
    requires NodeFits(incarnation, id, address, pairs)
  {
    NodeName(incarnation, id) + (NodePlace(address, port, |pairs|) + PairsBytes(pairs))
  }

  function ReadPair(payload: Bytes, off: nat): (r: Decoded<(Pair, nat)>)
    requires off <= |payload|
    ensures !r.Panic?
    ensures r.Ok? ==> off < r.value.1 <= |payload|
  {
    match ReadField(payload, off)
    case Error => Error
    case Ok((key, at)) =>
      match ReadField(payload, at)
      case Error => Error
      case Ok((value, end)) => Ok((Pair(key, value), end))
  }

  /** The metadata loop from offset `off`, `count` pairs to go. */
  function DecodePairs(payload: Bytes, off: nat, count: nat, m: Metadata): (r: Decoded<Metadata>)
    requires off <= |payload|
    ensures !r.Panic?
    decreases count
  {
    if count == 0 then Ok(m)
    else
      match ReadPair(payload, off)
      case Error => Error
      case Ok((pair, end)) => DecodePairs(payload, end, count - 1, m[pair.key := pair.value])
  }

  /** A node without its metadata, and how many pairs follow. The end of the identifier is computed in
      16 bits. */
  function DecodeFixed(payload: Bytes): (r: Decoded<(NodeInfo, nat)>)
    ensures r.Panic? ==> |payload| > MAX_UINT16
    ensures r.Ok? ==> 12 + |r.value.0.id| + |r.value.0.address| <= |payload|
  {
    if |payload| < 12 then Error
    else
      var idLen := U16At(payload, 4);
      if |payload| < 6 + idLen + 2 then Error
      else if 6 + idLen > MAX_UINT16 then Panic
      else
        var off := 6 + idLen;
        var addrLen := U16At(payload, off);
        if |payload| < off + 2 + addrLen + 2 + 2 then Error
        else
          var portAt := off + 2 + addrLen;
          var port := U16At(payload, portAt);
          var count := U16At(payload, portAt + 2);
          var id, address := Slice(payload, 6, idLen), Slice(payload, off + 2, addrLen);
          Ok((NodeInfo(U32At(payload, 0), id, address, port, map[]), count))
  }

  function DecodeNode(payload: Bytes): (r: Decoded<NodeInfo>)
    ensures r.Panic? ==> |payload| > MAX_UINT16
  {
    match DecodeFixed(payload)
    case Error => Error
    case Panic => Panic
    case Ok((n, count)) =>
      match DecodePairs(payload, 12 + |n.id| + |n.address|, count, map[])
      case Ok(m) => Ok(n.(metadata := m))
      case Error => Error
  }

  lemma ReadPairBack(payload: Bytes, off: nat, p: Pair)
    requires PairFits(p) && At(payload, off, PairBytes(p))
    ensures ReadPair(payload, off) == Ok((p, off + |PairBytes(p)|))
  {
    AtConcat(payload, off, FieldBytes(p.key), FieldBytes(p.value));
    ReadFieldBack(payload, off, p.key);
    ReadFieldBack(payload, off + 2 + |p.key|, p.value);
  }

  /** Reading from the offset on gives the pairs, one after the other. */
  ghost predicate ReadsPairs(payload: Bytes, off: nat, pairs: seq<Pair>)
    decreases |pairs|
  {
    off <= |payload|
    && (pairs != [] ==>
          var r := ReadPair(payload, off);
          r.Ok? && r.value.0 == pairs[0] && ReadsPairs(payload, r.value.1, pairs[1..]))
  }

  lemma {:induction false} PairsReadBack(payload: Bytes, off: nat, pairs: seq<Pair>)
    requires PairsFit(pairs) && At(payload, off, PairsBytes(pairs))
    ensures ReadsPairs(payload, off, pairs)
    decreases |pairs|
  {
    if pairs == [] {
    } else {
      var p, rest := pairs[0], pairs[1..];
      AtConcat(payload, off, PairBytes(p), PairsBytes(rest));
      ReadPairBack(payload, off, p);
      PairsReadBack(payload, off + |PairBytes(p)|, rest);
    }
  }

  lemma {:induction false} PairsDecoded(payload: Bytes, off: nat, pairs: seq<Pair>, m: Metadata)
    requires ReadsPairs(payload, off, pairs)
    ensures DecodePairs(payload, off, |pairs|, m) == Ok(Assign(m, pairs))
    decreases |pairs|
  {
    if pairs == [] {
    } else {
      var p, end := pairs[0], ReadPair(payload, off).value.1;
      PairsDecoded(payload, end, pairs[1..], m[p.key := p.value]);
    }
  }

  lemma PairsRoundTrip(payload: Bytes, off: nat, pairs: seq<Pair>, m: Metadata)
    requires PairsFit(pairs) && At(payload, off, PairsBytes(pairs))
    ensures DecodePairs(payload, off, |pairs|, m) == Ok(Assign(m, pairs))
  {
    PairsReadBack(payload, off, pairs);
    PairsDecoded(payload, off, pairs, m);
  }

  lemma {:induction false} AssignGives(m: Metadata, pairs: seq<Pair>, k: Bytes)
    requires forall i, j :: 0 <= i < j < |pairs| ==> pairs[i].key != pairs[j].key
    ensures k in Assign(m, pairs) <==> k in m || exists i :: 0 <= i < |pairs| && pairs[i].key == k
    ensures forall i :: 0 <= i < |pairs| && pairs[i].key == k ==>
              k in Assign(m, pairs) && Assign(m, pairs)[k] == pairs[i].value
    ensures (forall i :: 0 <= i < |pairs| ==> pairs[i].key != k) && k in m ==>
              k in Assign(m, pairs) && Assign(m, pairs)[k] == m[k]
    decreases |pairs|
  {
    if pairs == [] {
    } else {
      var m1, rest := m[pairs[0].key := pairs[0].value], pairs[1..];
      AssignGives(m1, rest, k);
      assert forall i :: 0 < i < |pairs| ==> pairs[i] == rest[i - 1];
      if k == pairs[0].key {
        assert forall i :: 0 <= i < |rest| ==> rest[i].key != k;
      }
    }
  }

  /** Whatever order the pairs were written in, reading them back gives the map. */
  lemma AssignIsMap(pairs: seq<Pair>, m: Metadata)
    requires Lists(pairs, m)
    ensures Assign(map[], pairs) == m
  {
    forall k
      ensures k in Assign(map[], pairs) <==> k in m
      ensures k in m ==> Assign(map[], pairs)[k] == m[k]
    {
      AssignGives(map[], pairs, k);
      if k in m {
        var i :| 0 <= i < |pairs| && pairs[i].key == k;
      }
    }
  }

  // What the decoder reads of a node's fixed fields.

  ghost predicate ReadsName(payload: Bytes, incarnation: nat, id: Bytes) {
    && |payload| >= 6 + |id|
    && U32At(payload, 0) == incarnation && U16At(payload, 4) == |id| && Slice(payload, 6, |id|) == id
  }

  ghost predicate ReadsPlace(payload: Bytes, off: nat, address: Bytes, port: int, count: nat) {
    var portAt := off + 2 + |address|;
    && |payload| >= portAt + 4
    && U16At(payload, off) == |address| && Slice(payload, off + 2, |address|) == address
    && U16At(payload, portAt) == port % 0x1_0000 && U16At(payload, portAt + 2) == count
  }

  lemma NameBack(payload: Bytes, incarnation: nat, id: Bytes)
    requires incarnation <= MAX_UINT32 && |id| <= MAX_UINT16 && At(payload, 0, NodeName(incarnation, id))
    ensures ReadsName(payload, incarnation, id)
  {
    NumberedBack(payload, incarnation, id);
  }

  lemma PlaceBack(payload: Bytes, off: nat, address: Bytes, port: int, count: nat)
    requires |address| <= MAX_UINT16 && count <= MAX_UINT16 && At(payload, off, NodePlace(address, port, count))
    ensures ReadsPlace(payload, off, address, port, count)
  {
    var portAt := off + 2 + |address|;
    AtConcat(payload, off, FieldBytes(address), U16(port % 0x1_0000) + U16(count));
    AtConcat(payload, off, U16(|address|), address);
    AtConcat(payload, portAt, U16(port % 0x1_0000), U16(count));
    U16Back(payload, off, |address|);
    SliceBack(payload, off + 2, address);
    U16Back(payload, portAt, port % 0x1_0000);
    U16Back(payload, portAt + 2, count);
  }

  /** Reading a payload gives the fields of a node and its pairs. */
  ghost predicate ReadsNode(payload: Bytes, n: NodeInfo, pairs: seq<Pair>) {
    && ReadsName(payload, n.incarnation, n.id) && ReadsPlace(payload, 6 + |n.id|, n.address, n.port, |pairs|)
    && ReadsPairs(payload, 12 + |n.id| + |n.address|, pairs)
  }

  lemma DecodeFixedBack(payload: Bytes, n: NodeInfo, count: nat)
    requires |n.id| <= MAX_UINT16 && ReadsName(payload, n.incarnation, n.id)
    requires ReadsPlace(payload, 6 + |n.id|, n.address, n.port, count)
    ensures DecodeFixed(payload) ==
            if 6 + |n.id| <= MAX_UINT16 then Ok((n.(port := n.port % 0x1_0000, metadata := map[]), count)) else Panic
  {
  }

  lemma DecodeRest(payload: Bytes, n: NodeInfo, count: nat, m: Metadata)
    requires DecodeFixed(payload) == Ok((n, count))
    requires DecodePairs(payload, 12 + |n.id| + |n.address|, count, map[]) == Ok(m)
    ensures DecodeNode(payload) == Ok(n.(metadata := m))
  {
  }

  lemma DecodeNodeBack(payload: Bytes, n: NodeInfo, pairs: seq<Pair>)
    requires |n.id| <= MAX_UINT16 && ReadsNode(payload, n, pairs) && Assign(map[], pairs) == n.metadata
    ensures DecodeNode(payload) == if 6 + |n.id| <= MAX_UINT16 then Ok(n.(port := n.port % 0x1_0000)) else Panic
  {
    DecodeFixedBack(payload, n, |pairs|);
    if 6 + |n.id| <= MAX_UINT16 {
      PairsDecoded(payload, 12 + |n.id| + |n.address|, pairs, map[]);
      DecodeRest(payload, n.(port := n.port % 0x1_0000, metadata := map[]), |pairs|, n.metadata);
    }
  }

  /** A payload holds the three parts it is put together from, one after the other. */
  lemma PayloadParts(name: Bytes, place: Bytes, pairs: Bytes, payload: Bytes)
    requires payload == name + (place + pairs)
    ensures At(payload, 0, name) && At(payload, |name|, place) && At(payload, |name| + |place|, pairs)
  {
    AtWhole(payload);
    AtConcat(payload, 0, name, place + pairs);
    AtConcat(payload, |name|, place, pairs);
  }

  lemma HoldsName(n: NodeInfo, pairs: seq<Pair>, payload: Bytes)
    requires NodeFits(n.incarnation, n.id, n.address, pairs)
    requires payload == NodePayload(n.incarnation, n.id, n.address, n.port, pairs)
    ensures At(payload, 0, NodeName(n.incarnation, n.id))
  {
    PayloadParts(NodeName(n.incarnation, n.id), NodePlace(n.address, n.port, |pairs|), PairsBytes(pairs), payload);
  }

  lemma HoldsPlace(n: NodeInfo, pairs: seq<Pair>, payload: Bytes)
    requires NodeFits(n.incarnation, n.id, n.address, pairs)
    requires payload == NodePayload(n.incarnation, n.id, n.address, n.port, pairs)
    ensures At(payload, 6 + |n.id|, NodePlace(n.address, n.port, |pairs|))
  {
    PayloadParts(NodeName(n.incarnation, n.id), NodePlace(n.address, n.port, |pairs|), PairsBytes(pairs), payload);
  }

  lemma HoldsPairs(n: NodeInfo, pairs: seq<Pair>, payload: Bytes)
    requires NodeFits(n.incarnation, n.id, n.address, pairs)
    requires payload == NodePayload(n.incarnation, n.id, n.address, n.port, pairs)
    ensures At(payload, 12 + |n.id| + |n.address|, PairsBytes(pairs))
  {
    PayloadParts(NodeName(n.incarnation, n.id), NodePlace(n.address, n.port, |pairs|), PairsBytes(pairs), payload);
  }

  lemma PayloadReadsName(n: NodeInfo, pairs: seq<Pair>, payload: Bytes)
    requires NodeFits(n.incarnation, n.id, n.address, pairs)
    requires payload == NodePayload(n.incarnation, n.id, n.address, n.port, pairs)
    ensures ReadsName(payload, n.incarnation, n.id)
  {
    HoldsName(n, pairs, payload);
    NameBack(payload, n.incarnation, n.id);
  }

  lemma PayloadReadsPlace(n: NodeInfo, pairs: seq<Pair>, payload: Bytes)
    requires NodeFits(n.incarnation, n.id, n.address, pairs)
    requires payload == NodePayload(n.incarnation, n.id, n.address, n.port, pairs)
    ensures ReadsPlace(payload, 6 + |n.id|, n.address, n.port, |pairs|)
  {
    HoldsPlace(n, pairs, payload);
    PlaceBack(payload, 6 + |n.id|, n.address, n.port, |pairs|);
  }

  lemma PayloadReadsPairs(n: NodeInfo, pairs: seq<Pair>, payload: Bytes)
    requires NodeFits(n.incarnation, n.id, n.address, pairs)
    requires payload == NodePayload(n.incarnation, n.id, n.address, n.port, pairs)
    ensures ReadsPairs(payload, 12 + |n.id| + |n.address|, pairs)
  {
    HoldsPairs(n, pairs, payload);
    PairsReadBack(payload, 12 + |n.id| + |n.address|, pairs);
  }

  lemma PayloadReads(n: NodeInfo, pairs: seq<Pair>, payload: Bytes)
    requires NodeFits(n.incarnation, n.id, n.address, pairs)
    requires payload == NodePayload(n.incarnation, n.id, n.address, n.port, pairs)
    ensures ReadsNode(payload, n, pairs)
  {
    PayloadReadsName(n, pairs, payload);
    PayloadReadsPlace(n, pairs, payload);
    PayloadReadsPairs(n, pairs, payload);
  }

  /** A node description comes back with its port reduced to 16 bits, for every order in which its
      metadata was written, exactly when the end of its identifier fits 16 bits. */
  lemma NodeRoundTripExactly(n: NodeInfo, pairs: seq<Pair>, payload: Bytes)
    requires NodeFits(n.incarnation, n.id, n.address, pairs) && Lists(pairs, n.metadata)
    requires payload == NodePayload(n.incarnation, n.id, n.address, n.port, pairs)
    ensures DecodeNode(payload) == if 6 + |n.id| <= MAX_UINT16 then Ok(n.(port := n.port % 0x1_0000)) else Panic
  {
    PayloadReads(n, pairs, payload);
    AssignIsMap(pairs, n.metadata);
    DecodeNodeBack(payload, n, pairs);
  }

  /** So the port survives exactly when it is a 16-bit one. */
  lemma PortSurvivesExactly(port: int)
    ensures port % 0x1_0000 == port <==> 0 <= port <= MAX_UINT16
  {
  }

  // ---------- compounds ----------

  predicate PartsFit(parts: seq<Bytes>) {
    forall i :: 0 <= i < |parts| ==> |parts[i]| <= MAX_UINT16
  }

  function PartsBytes(parts: seq<Bytes>): Bytes
    requires PartsFit(parts)
  {
    if parts == [] then [] else FieldBytes(parts[0]) + PartsBytes(parts[1..])
  }

  function CompoundPayload(parts: seq<Bytes>): Bytes
    requires |parts| <= MAX_UINT16 && PartsFit(parts)
  {
    U16(|parts|) + PartsBytes(parts)
  }

  function DecodeParts(payload: Bytes, off: nat, count: nat): (r: Decoded<seq<Bytes>>)
    requires off <= |payload|
    ensures !r.Panic?
    ensures r.Ok? ==> forall i :: 0 <= i < |r.value| ==> off + 2 + |r.value[i]| <= |payload|
    decreases count
  {
    if count == 0 then Ok([])
    else
      match ReadField(payload, off)
      case Error => Error
      case Ok((part, end)) =>
        match DecodeParts(payload, end, count - 1)
        case Ok(rest) => Ok([part] + rest)
        case Error => Error
  }

  /** Every part of a compound is shorter than the compound, which is what ends the recursion. */
  function DecodeCompound(payload: Bytes): (r: Decoded<seq<Bytes>>)
    ensures !r.Panic?
    ensures r.Ok? ==> forall i :: 0 <= i < |r.value| ==> |r.value[i]| + 4 <= |payload|
  {
    if |payload| < 2 then Error else DecodeParts(payload, 2, U16At(payload, 0))
  }

  lemma {:induction false} PartsRoundTrip(payload: Bytes, off: nat, parts: seq<Bytes>)
    requires PartsFit(parts) && At(payload, off, PartsBytes(parts))
    ensures DecodeParts(payload, off, |parts|) == Ok(parts)
    decreases |parts|
  {
    if parts == [] {
    } else {
      var p, rest := parts[0], parts[1..];
      AtConcat(payload, off, FieldBytes(p), PartsBytes(rest));
      ReadFieldBack(payload, off, p);
      PartsRoundTrip(payload, off + 2 + |p|, rest);
      assert parts == [p] + rest;
    }
  }

  lemma CompoundRoundTrip(parts: seq<Bytes>)
    requires |parts| <= MAX_UINT16 && PartsFit(parts)
    ensures DecodeCompound(CompoundPayload(parts)) == Ok(parts)
  {
    var payload := CompoundPayload(parts);
    AtWhole(payload);
    AtConcat(payload, 0, U16(|parts|), PartsBytes(parts));
    U16Back(payload, 0, |parts|);
    PartsRoundTrip(payload, 2, parts);
  }
}
