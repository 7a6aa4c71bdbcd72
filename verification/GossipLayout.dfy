/** The wire format byte by byte, as other implementations of the protocol see it: numbers are
    big-endian, strings are preceded by a 16-bit length, and every field has its place. */
module GossipLayout {
  import opened GossipCodec
  import opened GossipMessages

  /** Two bytes, the higher one first. */
  predicate Has16(data: Bytes, off: nat, n: int) {
    off + 2 <= |data| && (data[off] as int) * 0x100 + data[off + 1] as int == n
  }

  /** Four bytes, the highest first. */
  predicate Has32(data: Bytes, off: nat, n: int) {
    off + 4 <= |data| &&
    (data[off] as int) * 0x100_0000 + (data[off + 1] as int) * 0x1_0000
    + (data[off + 2] as int) * 0x100 + data[off + 3] as int == n
  }

  /** A 16-bit length and that many bytes. */
  predicate HasField(data: Bytes, off: nat, field: Bytes) {
    Has16(data, off, |field|) && At(data, off + 2, field)
  }

  lemma Holds16(data: Bytes, off: nat, n: nat)
    requires n <= MAX_UINT16 && At(data, off, U16(n))
    ensures Has16(data, off, n)
  {
    AtByte(data, off, U16(n), 2, 0);
    AtByte(data, off, U16(n), 2, 1);
  }

  lemma Holds32(data: Bytes, off: nat, n: nat)
    requires n <= MAX_UINT32 && At(data, off, U32(n))
    ensures Has32(data, off, n)
  {
    AtConcat(data, off, U16(n / 0x1_0000), U16(n % 0x1_0000));
    Holds16(data, off, n / 0x1_0000);
    Holds16(data, off + 2, n % 0x1_0000);
  }

  lemma HoldsField(data: Bytes, off: nat, field: Bytes)
    requires |field| <= MAX_UINT16 && At(data, off, FieldBytes(field))
    ensures HasField(data, off, field)
  {
    AtConcat(data, off, U16(|field|), field);
    Holds16(data, off, |field|);
  }

  /** A frame: the kind, the length of the payload, the payload. */
  lemma FrameLayout(kind: Byte, payload: Bytes)
    requires |payload| <= MAX_UINT16
    ensures var data := FrameBytes(kind, payload);
            |data| == 3 + |payload| && data[0] == kind && HasField(data, 1, payload)
  {
    var data := FrameBytes(kind, payload);
    AtWhole(data);
    AtConcat(data, 0, [kind] + U16(|payload|), payload);
    AtConcat(data, 0, [kind], U16(|payload|));
    Holds16(data, 1, |payload|);
  }

  /** The kinds are numbered from 1 in the order of the protocol, and a compound is 9. */
  lemma KindLayout(o: Outgoing)
    requires Sendable(o)
    ensures var kind: int := Wire(o)[0];
            match o.message
            case Ping(_) => kind == 1
            case Ack(_) => kind == 2
            case PingReq(_) => kind == 3
            case Suspect(_) => kind == 4
            case Alive(_) => kind == 5
            case Dead(_) => kind == 6
            case Join(_) => kind == 7
            case Leave(_) => kind == 8
  {
    FrameLayout(Kind(o.message), Payload(o.message, o.pairs));
  }

  /** No payload is ever taken for a message of another kind. */
  lemma ParsedKind(kind: Byte, payload: Bytes)
    requires Parse(kind, payload).Ok?
    ensures Kind(Parse(kind, payload).value) == kind
  {
  }

  /** An acknowledgement, a suspicion or a death notice: the number, then the identifier. */
  lemma NoticeLayout(n: Notice)
    requires NoticeFits(n)
    ensures var data := NoticePayload(n);
            |data| == 6 + |n.id| && Has32(data, 0, n.number) && HasField(data, 4, n.id)
  {
    var data := NoticePayload(n);
    AtWhole(data);
    AtConcat(data, 0, U32(n.number), FieldBytes(n.id));
    Holds32(data, 0, n.number);
    HoldsField(data, 4, n.id);
  }

  /** A probe: the sequence number, then the sender, then the target. */
  lemma ProbeLayout(p: Probe)
    requires ProbeFits(p)
    ensures var data := ProbePayload(p);
            && |data| == 8 + |p.sender| + |p.target|
            && Has32(data, 0, p.seqNo) && HasField(data, 4, p.sender) && HasField(data, 6 + |p.sender|, p.target)
  {
    var data := ProbePayload(p);
    AtWhole(data);
    AtConcat(data, 0, U32(p.seqNo) + FieldBytes(p.sender), FieldBytes(p.target));
    AtConcat(data, 0, U32(p.seqNo), FieldBytes(p.sender));
    Holds32(data, 0, p.seqNo);
    HoldsField(data, 4, p.sender);
    HoldsField(data, 6 + |p.sender|, p.target);
  }

  /** Where the `i`th pair starts: the pairs follow one another without gaps. */
  function PairOffset(pairs: seq<Pair>, i: nat): nat
    requires i <= |pairs|
  {
    if i == 0 then 0 else 4 + |pairs[0].key| + |pairs[0].value| + PairOffset(pairs[1..], i - 1)
  }

  /** Each pair is a key and a value. */
  ghost predicate HasPair(data: Bytes, off: nat, p: Pair) {
    HasField(data, off, p.key) && HasField(data, off + 2 + |p.key|, p.value)
  }

  lemma PairLayout(data: Bytes, off: nat, p: Pair)
    requires PairFits(p) && At(data, off, PairBytes(p))
    ensures HasPair(data, off, p)
  {
    AtConcat(data, off, FieldBytes(p.key), FieldBytes(p.value));
    HoldsField(data, off, p.key);
    HoldsField(data, off + 2 + |p.key|, p.value);
  }

  /** Wherever the pairs are, each is at its offset from there. */
  lemma {:induction false} PairsLayout(data: Bytes, off: nat, pairs: seq<Pair>, i: nat)
    requires PairsFit(pairs) && i < |pairs| && At(data, off, PairsBytes(pairs))
    ensures HasPair(data, off + PairOffset(pairs, i), pairs[i])
    decreases i
  {
    AtConcat(data, off, PairBytes(pairs[0]), PairsBytes(pairs[1..]));
    if i == 0 {
      PairLayout(data, off, pairs[0]);
    } else {
      PairsLayout(data, off + |PairBytes(pairs[0])|, pairs[1..], i - 1);
    }
  }

  ghost predicate HasName(data: Bytes, incarnation: nat, id: Bytes) {
    Has32(data, 0, incarnation) && HasField(data, 4, id)
  }

  lemma NameLayout(data: Bytes, incarnation: nat, id: Bytes)
    requires incarnation <= MAX_UINT32 && |id| <= MAX_UINT16 && At(data, 0, NodeName(incarnation, id))
    ensures HasName(data, incarnation, id)
  {
    AtConcat(data, 0, U32(incarnation), FieldBytes(id));
    Holds32(data, 0, incarnation);
    HoldsField(data, 4, id);
  }

  ghost predicate HasPlace(data: Bytes, off: nat, address: Bytes, port: int, count: nat) {
    && HasField(data, off, address) && Has16(data, off + 2 + |address|, port % 0x1_0000)
    && Has16(data, off + 4 + |address|, count)
  }

  lemma PlaceLayout(data: Bytes, off: nat, address: Bytes, port: int, count: nat)
    requires |address| <= MAX_UINT16 && count <= MAX_UINT16 && At(data, off, NodePlace(address, port, count))
    ensures HasPlace(data, off, address, port, count)
  {
    AtConcat(data, off, FieldBytes(address), U16(port % 0x1_0000) + U16(count));
    AtConcat(data, off + 2 + |address|, U16(port % 0x1_0000), U16(count));
    HoldsField(data, off, address);
    Holds16(data, off + 2 + |address|, port % 0x1_0000);
    Holds16(data, off + 4 + |address|, count);
  }

  lemma NodeNameLayout(n: NodeInfo, pairs: seq<Pair>, data: Bytes)
    requires NodeFits(n.incarnation, n.id, n.address, pairs)
    requires data == NodePayload(n.incarnation, n.id, n.address, n.port, pairs)
    ensures HasName(data, n.incarnation, n.id)
  {
    HoldsName(n, pairs, data);
    NameLayout(data, n.incarnation, n.id);
  }

  lemma NodePlaceLayout(n: NodeInfo, pairs: seq<Pair>, data: Bytes)
    requires NodeFits(n.incarnation, n.id, n.address, pairs)
    requires data == NodePayload(n.incarnation, n.id, n.address, n.port, pairs)
    ensures HasPlace(data, 6 + |n.id|, n.address, n.port, |pairs|)
  {
    HoldsPlace(n, pairs, data);
    PlaceLayout(data, 6 + |n.id|, n.address, n.port, |pairs|);
  }

  /** A node's description: incarnation, identifier, address, port modulo 65536, number of pairs, pairs. */
  lemma NodeLayout(n: NodeInfo, pairs: seq<Pair>, data: Bytes)
    requires NodeFits(n.incarnation, n.id, n.address, pairs)
    requires data == NodePayload(n.incarnation, n.id, n.address, n.port, pairs)
    ensures HasName(data, n.incarnation, n.id)
    ensures HasPlace(data, 6 + |n.id|, n.address, n.port, |pairs|)
    ensures At(data, 12 + |n.id| + |n.address|, PairsBytes(pairs))
  {
    NodeNameLayout(n, pairs, data);
    NodePlaceLayout(n, pairs, data);
    HoldsPairs(n, pairs, data);
  }

  /** Where the `i`th part of a compound starts. */
  function PartOffset(parts: seq<Bytes>, i: nat): nat
    requires i <= |parts|
  {
    if i == 0 then 0 else 2 + |parts[0]| + PartOffset(parts[1..], i - 1)
  }

  lemma {:induction false} PartsLayout(data: Bytes, off: nat, parts: seq<Bytes>, i: nat)
    requires PartsFit(parts) && i < |parts| && At(data, off, PartsBytes(parts))
    ensures HasField(data, off + PartOffset(parts, i), parts[i])
    decreases i
  {
    AtConcat(data, off, FieldBytes(parts[0]), PartsBytes(parts[1..]));
    if i == 0 {
      HoldsField(data, off, parts[0]);
    } else {
      PartsLayout(data, off + |FieldBytes(parts[0])|, parts[1..], i - 1);
    }
  }

  lemma HoldsBoth(a: Bytes, b: Bytes, data: Bytes)
    requires data == a + b
    ensures At(data, 0, a) && At(data, |a|, b)
  {
    AtWhole(data);
    AtConcat(data, 0, a, b);
  }

  lemma HoldsParts(parts: seq<Bytes>, data: Bytes)
    requires |parts| <= MAX_UINT16 && PartsFit(parts) && data == CompoundPayload(parts)
    ensures At(data, 0, U16(|parts|)) && At(data, 2, PartsBytes(parts))
  {
    HoldsBoth(U16(|parts|), PartsBytes(parts), data);
  }

  /** A compound: the number of parts, then the parts one after the other. */
  lemma CompoundLayout(parts: seq<Bytes>, data: Bytes, i: nat)
    requires |parts| <= MAX_UINT16 && PartsFit(parts) && data == CompoundPayload(parts)
    ensures Has16(data, 0, |parts|)
    ensures i < |parts| ==> HasField(data, 2 + PartOffset(parts, i), parts[i])
  {
    HoldsParts(parts, data);
    Holds16(data, 0, |parts|);
    if i < |parts| {
      PartsLayout(data, 2, parts, i);
    }
  }
}
