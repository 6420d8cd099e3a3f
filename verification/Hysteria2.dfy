/** Hysteria2 datagrams: encoding, fragmentation and reassembly. */
module Hysteria2 {
  import opened Common
  import opened BigEndian
  import opened Varint
  import opened UdpFragments

  const MAX_ADDRESS_LEN: nat := 2048
  const MAX_PENDING_PACKETS: nat := 64
  const UDP_FRAGMENT_TIMEOUT: nat := 30

  datatype Message = Message(
    sessionId: nat, packetId: nat, fragmentId: nat, fragmentCount: nat, address: Bytes, payload: Bytes)

  predicate InRange(m: Message) {
    m.sessionId < 0x1_0000_0000 && m.packetId < 0x1_0000 && m.fragmentId < 256 && m.fragmentCount < 256
  }

  function HeaderLen(address: Bytes): Result<nat> {
    match EncodeVarint(|address|)
    case Ok(v) => Ok(8 + |v| + |address|)
    case Err => Err
  }

  function Encode(m: Message): Result<Bytes>
    requires InRange(m)
  {
    match EncodeVarint(|m.address|)
    case Err => Err
    case Ok(v) => Ok(U32(m.sessionId) + U16(m.packetId) + [m.fragmentId, m.fragmentCount]
        + (v + (m.address + m.payload)))
  }

  function Decode(utf8: Bytes -> bool, b: Bytes): Result<Message> {
    if |b| < 8 then Err else
    match ReadVarint(b[8..])
    case Err => Err
    case Ok(r) =>
      if r.value == 0 || r.value > MAX_ADDRESS_LEN || |r.rest| < r.value || !utf8(r.rest[..r.value]) then Err
      else Ok(Message(GetU32(b, 0), GetU16(b, 4), b[6], b[7], r.rest[..r.value], r.rest[r.value..]))
  }

  /** A datagram is read back, for addresses of 1 to 2048 bytes. */
  lemma DecodeUndoesEncode(utf8: Bytes -> bool, m: Message)
    requires InRange(m) && 0 < |m.address| <= MAX_ADDRESS_LEN && utf8(m.address)
    ensures Encode(m).Ok? && Decode(utf8, Encode(m).value) == Ok(m)
  {
    var v := EncodeVarint(|m.address|).value;
    var id, p := U32(m.sessionId), U16(m.packetId);
    var b := Encode(m).value;
    assert b[8..] == v + (m.address + m.payload);
    VarintReadBack(|m.address|, m.address + m.payload);
    assert (m.address + m.payload)[..|m.address|] == m.address && (m.address + m.payload)[|m.address|..] == m.payload;
    assert b[0] == id[0] && b[1] == id[1] && b[2] == id[2] && b[3] == id[3] && b[4] == p[0] && b[5] == p[1];
    assert b[6] == m.fragmentId && b[7] == m.fragmentCount;
  }

  /** The layout of a datagram: session and packet in network byte order, fragment and count, the length of
      the address as a variable-length integer, the address, and the payload. */
  lemma DatagramLayout(m: Message)
    requires InRange(m) && |m.address| < VARINT_LIMIT
    ensures Encode(m).Ok?
    ensures var b, v := Encode(m).value, EncodeVarint(|m.address|).value;
            && |b| == 8 + |v| + |m.address| + |m.payload|
            && Fold(0, b[..4]) == m.sessionId && 256 * (b[4] as int) + b[5] == m.packetId
            && b[6] == m.fragmentId && b[7] == m.fragmentCount && b[8..8 + |v|] == v
            && b[8 + |v|..8 + |v| + |m.address|] == m.address && b[8 + |v| + |m.address|..] == m.payload
  {
    var b, v := Encode(m).value, EncodeVarint(|m.address|).value;
    assert b[..4] == U32(m.sessionId);
    FoldU32(0, m.sessionId);
    assert b[8..] == v + (m.address + m.payload);
    assert b[8..8 + |v|] == v && b[8 + |v|..] == m.address + m.payload;
  }

  // ---- fragmentation

  /** One logical packet. */
  datatype Whole = Whole(sessionId: nat, packetId: nat, address: Bytes, payload: Bytes)

  function Single(w: Whole): Message {
    Message(w.sessionId, w.packetId, 0, 1, w.address, w.payload)
  }

  function FragmentsOf(w: Whole, chunks: seq<Bytes>): (ms: seq<Message>)
    ensures |ms| == |chunks|
    ensures forall i :: 0 <= i < |ms| ==> ms[i] == Message(w.sessionId, w.packetId, i, |chunks|, w.address, chunks[i])
  {
    seq(|chunks|, i requires 0 <= i < |chunks| => Message(w.sessionId, w.packetId, i, |chunks|, w.address, chunks[i]))
  }

  /** The messages for a packet under a datagram limit. */
  function Fragment(w: Whole, limit: nat): Result<seq<Message>> {
    match HeaderLen(w.address)
    case Err => Err
    case Ok(h) =>
      if h + |w.payload| <= limit then Ok([Single(w)])
      else if h >= limit then Err
      else
        var chunks := Chunks(w.payload, limit - h);
        if |chunks| <= 255 then Ok(FragmentsOf(w, chunks)) else Err
  }

  /** A header takes 8 bytes, the address, and 1, 2, 4 or 8 bytes for its length. */
  function HeaderSize(length: nat): nat {
    8 + length + if length < 64 then 1 else if length < 16384 then 2 else if length < 1073741824 then 4 else 8
  }

  /** For every packet and datagram limit: it can be sent exactly if the address has an encodable length and the
      packet fits one datagram, or its payload fits 255 fragments; and the fragments are its
      consecutive full pieces, and the rest. */
  lemma FragmentsExactly(w: Whole, limit: nat)
    ensures var h := HeaderSize(|w.address|);
            && (Fragment(w, limit).Ok? <==>
                |w.address| < 4611686018427387904
                && (h + |w.payload| <= limit || (h < limit && |w.payload| <= 255 * (limit - h))))
            && (Fragment(w, limit).Ok? ==>
                var ms := Fragment(w, limit).value;
                if h + |w.payload| <= limit then ms == [Message(w.sessionId, w.packetId, 0, 1, w.address, w.payload)]
                else
                  var size := limit - h;
                  && (|ms| - 1) * size < |w.payload| <= |ms| * size
                  && forall i :: 0 <= i < |ms| ==> PieceAt(w, size, |ms|, i, ms[i]))
  {
    hide Chunks, PieceAt;
    var h := HeaderSize(|w.address|);
    if |w.address| < VARINT_LIMIT { assert HeaderLen(w.address) == Ok(h); }
    if |w.address| < VARINT_LIMIT && h + |w.payload| > limit && h < limit {
      var size := limit - h;
      var n := |Chunks(w.payload, size)|;
      ChunkNumber(w.payload, size);
      if n <= 255 { MulMonotone(n, 255, size); } else { MulMonotone(255, n - 1, size); }
      forall i | 0 <= i < n
        ensures PieceAt(w, size, n, i, FragmentsOf(w, Chunks(w.payload, size))[i])
      {
        FragmentIsPiece(w, size, i);
      }
    }
  }

  predicate PieceAt(w: Whole, size: nat, count: nat, i: nat, m: Message) {
    var from, to := i * size, Min((i + 1) * size, |w.payload|);
    0 <= from <= to && m == Message(w.sessionId, w.packetId, i, count, w.address, w.payload[from..to])
  }

  lemma FragmentIsPiece(w: Whole, size: nat, i: nat)
    requires size > 0 && i < |Chunks(w.payload, size)|
    ensures PieceAt(w, size, |Chunks(w.payload, size)|, i, FragmentsOf(w, Chunks(w.payload, size))[i])
  {
    hide Chunks;
    ChunkAt(w.payload, size, i);
  }

  predicate ValidWhole(w: Whole) {
    w.sessionId < 0x1_0000_0000 && w.packetId < 0x1_0000 && 0 < |w.address| <= MAX_ADDRESS_LEN
        && |w.payload| <= MAX_UDP_PAYLOAD
  }

  lemma ChunkCount(payload: Bytes, size: nat)
    requires size > 0 && |payload| > size
    ensures |Chunks(payload, size)| >= 2
  {
  }

  lemma EncodedLength(m: Message)
    requires InRange(m) && |m.address| <= MAX_ADDRESS_LEN
    ensures Encode(m).Ok? && |Encode(m).value| == HeaderLen(m.address).value + |m.payload|
  {
  }

  /** Every datagram fits the limit, and the fragments carry the payload, cut in order. */
  lemma FragmentsFit(w: Whole, limit: nat, i: nat)
    requires ValidWhole(w) && Fragment(w, limit).Ok? && i < |Fragment(w, limit).value|
    ensures var m := Fragment(w, limit).value[i];
            && InRange(m) && Encode(m).Ok? && |Encode(m).value| <= limit
            && m.fragmentId == i && m.fragmentCount == |Fragment(w, limit).value|
  {
    var m := Fragment(w, limit).value[i];
    var h := HeaderLen(w.address).value;
    if h + |w.payload| > limit {
      ChunksRejoin(w.payload, limit - h);
    }
    EncodedLength(m);
  }

  lemma FragmentsCarryPayload(w: Whole, limit: nat)
    requires ValidWhole(w) && Fragment(w, limit).Ok? && |Fragment(w, limit).value| != 1
    ensures var h := HeaderLen(w.address).value;
            && h < limit
            && Fragment(w, limit).value == FragmentsOf(w, Chunks(w.payload, limit - h))
            && Concat(Chunks(w.payload, limit - h)) == w.payload
  {
    ChunksRejoin(w.payload, limit - HeaderLen(w.address).value);
  }

  // ---- reassembly

  datatype Buffer = Buffer(address: Bytes, createdAt: nat, packet: Packet)

  type Key = (nat, nat)

  type Pending = map<Key, Buffer>

  function KeyOf(m: Message): Key {
    (m.sessionId, m.packetId)
  }

  predicate Expired(b: Buffer, now: nat) {
    now >= b.createdAt + UDP_FRAGMENT_TIMEOUT
  }

  function Retain(pending: Pending, now: nat): Pending {
    map k | k in pending && !Expired(pending[k], now) :: pending[k]
  }

  /** Expired packets go when the map is full, or when the packet at hand has expired. */
  function Swept(pending: Pending, key: Key, now: nat): Pending {
    if |pending| >= MAX_PENDING_PACKETS
        || (key in pending && Expired(pending[key], now)) then Retain(pending, now) else pending
  }

  datatype Outcome = Outcome(pending: Pending, result: Result<Option<Message>>)

  function BufferFor(pending: Pending, m: Message, now: nat): Buffer {
    if KeyOf(m) in pending then pending[KeyOf(m)] else Buffer(m.address, now, Empty(m.fragmentCount))
  }

  /** Adds a fragment to its buffer. */
  function Store(pending: Pending, m: Message, b: Buffer): Outcome
    requires ValidPacket(b.packet)
  {
    var held := pending[KeyOf(m) := b];
    if |b.packet.slots| != m.fragmentCount || b.address != m.address || !Accepts(b.packet, m.fragmentId, m.payload) then
      Outcome(held, Err)
    else
      var p := WithFragment(b.packet, m.fragmentId, m.payload);
      if p.remaining > 0 then Outcome(pending[KeyOf(m) := b.(packet := p)], Ok(None))
      else Outcome(held - {KeyOf(m)}, Ok(Some(Message(m.sessionId, m.packetId, 0, 1, b.address, Join(p.slots)))))
  }

  ghost predicate ValidPending(pending: Pending) {
    |pending| <= MAX_PENDING_PACKETS && forall k :: k in pending ==> ValidPacket(pending[k].packet)
  }

  function Reassemble(pending: Pending, m: Message, now: nat): Outcome
    requires ValidPending(pending)
  {
    if m.fragmentCount == 0 || m.fragmentId >= m.fragmentCount
        || |m.payload| > MAX_UDP_PAYLOAD then Outcome(pending, Err)
    else if m.fragmentCount == 1 then Outcome(pending, Ok(Some(m)))
    else
      var swept := Swept(pending, KeyOf(m), now);
      if |swept| >= MAX_PENDING_PACKETS && KeyOf(m) !in swept then Outcome(swept, Err)
      else Store(swept, m, BufferFor(swept, m, now))
  }

  /** The packets that are still waited for. */
  ghost function Live(pending: Pending, now: nat): set<Key> {
    set k | k in pending && now < pending[k].createdAt + 30
  }

  lemma LiveIsRetained(pending: Pending, now: nat)
    ensures Live(pending, now) == Retain(pending, now).Keys <= pending.Keys
    ensures |Live(pending, now)| == |Retain(pending, now)| <= |pending|
  {
    RetainShrinks(pending, now);
    assert Live(pending, now) == Retain(pending, now).Keys;
  }

  /** A packet that is not waited for finds room exactly if fewer than 64 others are. */
  lemma RoomExactly(pending: Pending, key: Key, now: nat)
    requires key !in Live(pending, now)
    ensures key !in Swept(pending, key, now)
    ensures |Swept(pending, key, now)| < 64 <==> |Live(pending, now)| < 64
  {
    LiveIsRetained(pending, now);
    if key in pending && |pending| <= 64 {
      assert Live(pending, now) <= pending.Keys - {key};
      SubsetSize(Live(pending, now), pending.Keys - {key});
    }
  }

  /** A fragment that opens its packet: it is refused exactly if 64 packets are waited for; otherwise the
      packet is waited for from now on, with this fragment alone. What was left of an expired packet
      with the same ids is gone, and packets still waited for stay as they are. */
  lemma OpensExactly(pending: Pending, m: Message, now: nat)
    requires ValidPending(pending) && KeyOf(m) !in Live(pending, now)
    requires m.fragmentId < m.fragmentCount && m.fragmentCount > 1 && |m.payload| <= 65535
    ensures var o := Reassemble(pending, m, now);
            && (o.result.Err? <==> |Live(pending, now)| >= 64)
            && (o.result.Ok? ==>
                && o.result == Ok(None) && KeyOf(m) in o.pending
                && o.pending[KeyOf(m)].address == m.address && o.pending[KeyOf(m)].createdAt == now
                && o.pending[KeyOf(m)].packet.slots
                   == seq(m.fragmentCount, i => if i == m.fragmentId then Some(m.payload) else None))
            && forall k :: k in Live(pending, now) ==> k in o.pending && o.pending[k] == pending[k]
  {
    hide Store, Swept, Live;
    RoomExactly(pending, KeyOf(m), now);
    SweptKeepsLive(pending, KeyOf(m), now);
    var swept := Swept(pending, KeyOf(m), now);
    StoreFirst(swept, m, now);
    forall k | k in Live(pending, now) && |swept| < 64
      ensures var o := Store(swept, m, Buffer(m.address, now, Empty(m.fragmentCount)));
              k in o.pending && o.pending[k] == swept[k]
    {
      StoreKeepsOthers(swept, m, Buffer(m.address, now, Empty(m.fragmentCount)), k);
    }
  }

  lemma SweptKeepsLive(pending: Pending, key: Key, now: nat)
    ensures forall k :: k in Live(pending, now)
                        ==> k in Swept(pending, key, now) && Swept(pending, key, now)[k] == pending[k]
  {
  }

  lemma StoreFirst(pending: Pending, m: Message, now: nat)
    requires m.fragmentId < m.fragmentCount && m.fragmentCount > 1 && |m.payload| <= 65535
    ensures var o := Store(pending, m, Buffer(m.address, now, Empty(m.fragmentCount)));
            && o.result == Ok(None) && KeyOf(m) in o.pending
            && o.pending[KeyOf(m)].address == m.address && o.pending[KeyOf(m)].createdAt == now
            && o.pending[KeyOf(m)].packet.slots
               == seq(m.fragmentCount, i => if i == m.fragmentId then Some(m.payload) else None)
  {
    AllMissing(m.fragmentCount);
  }

  /** A fragment of a packet that is waited for is refused exactly if it disagrees with the first on the number of
      fragments or the address, was there before, or makes the packet longer than 65535 bytes; then
      nothing that is waited for changes. */
  lemma JoinsExactly(pending: Pending, m: Message, now: nat)
    requires ValidPending(pending) && KeyOf(m) in Live(pending, now)
    requires m.fragmentId < m.fragmentCount && m.fragmentCount > 1 && |m.payload| <= 65535
    ensures var o := Reassemble(pending, m, now);
            var b := pending[KeyOf(m)];
            && (o.result.Err? <==>
                || |b.packet.slots| != m.fragmentCount || b.address != m.address
                || b.packet.slots[m.fragmentId].Some?
                || TotalLength(b.packet.slots) + |m.payload| > 65535)
            && (o.result.Err? ==> forall k :: k in Live(pending, now) ==> k in o.pending && o.pending[k] == pending[k])
  {
    hide Swept, Live, TotalLength, Missing;
    LiveMeans(pending, KeyOf(m), now);
    SweptKeepsLive(pending, KeyOf(m), now);
    var slots := pending[KeyOf(m)].packet.slots;
    if m.fragmentId < |slots| { NoneMissing(slots, m.fragmentId); }
  }

  lemma LiveMeans(pending: Pending, key: Key, now: nat)
    requires key in Live(pending, now)
    ensures key in pending && !Expired(pending[key], now)
  {
  }

  /** Anything that is not a fragment of a larger packet leaves the pending ones alone. */
  lemma AloneExactly(pending: Pending, m: Message, now: nat)
    requires ValidPending(pending)
    requires m.fragmentCount <= 1 || m.fragmentId >= m.fragmentCount || |m.payload| > 65535
    ensures Reassemble(pending, m, now)
         == Outcome(pending, if m.fragmentCount == 1 && m.fragmentId == 0
             && |m.payload| <= 65535 then Ok(Some(m)) else Err)
  {
  }

  lemma RetainShrinks(pending: Pending, now: nat)
    ensures |Retain(pending, now)| <= |pending|
    ensures Retain(pending, now).Keys <= pending.Keys
  {
    var kept := Retain(pending, now).Keys;
    assert kept <= pending.Keys;
    SubsetSize(kept, pending.Keys);
  }

  lemma StoreBounded(pending: Pending, m: Message, b: Buffer)
    requires ValidPending(pending) && ValidPacket(b.packet)
    requires |pending| < MAX_PENDING_PACKETS || KeyOf(m) in pending
    ensures ValidPending(Store(pending, m, b).pending)
  {
  }

  /** Whatever arrives, at most 64 packets are ever pending and their counters stay true. */
  lemma ReassembleBounded(pending: Pending, m: Message, now: nat)
    requires ValidPending(pending)
    ensures ValidPending(Reassemble(pending, m, now).pending)
  {
    hide Store, WithFragment;
    RetainShrinks(pending, now);
    var swept := Swept(pending, KeyOf(m), now);
    if m.fragmentCount > 1 && (|swept| < MAX_PENDING_PACKETS || KeyOf(m) in swept) {
      StoreBounded(swept, m, BufferFor(swept, m, now));
    }
  }

  // ---- the round trip

  /** The slots after the fragments with the given indices have arrived. */
  function SlotsOf(chunks: seq<Bytes>, have: set<nat>): Slots {
    seq(|chunks|, i requires 0 <= i < |chunks| => if i in have then Some(chunks[i]) else None)
  }

  /** The pending map holds exactly the given fragments of a packet since a time. */
  ghost predicate Holds(pending: Pending, w: Whole, chunks: seq<Bytes>, have: set<nat>, since: nat) {
    var k := (w.sessionId, w.packetId);
    if have == {} then k !in pending
    else k in pending && pending[k].address == w.address && pending[k].createdAt == since
         && pending[k].packet.slots == SlotsOf(chunks, have)
  }

  lemma {:induction false} LengthBound(slots: Slots, chunks: seq<Bytes>)
    requires |slots| == |chunks|
    requires forall i :: 0 <= i < |slots| ==> slots[i].Some? ==> slots[i].value == chunks[i]
    ensures TotalLength(slots) <= |Concat(chunks)|
  {
    if slots != [] {
      LengthBound(slots[1..], chunks[1..]);
    }
  }

  lemma {:induction false} JoinAll(slots: Slots, chunks: seq<Bytes>)
    requires |slots| == |chunks| && forall i :: 0 <= i < |slots| ==> slots[i] == Some(chunks[i])
    ensures Join(slots) == Concat(chunks)
  {
    if slots != [] {
      JoinAll(slots[1..], chunks[1..]);
    }
  }

  predicate Complete(chunks: seq<Bytes>, have: set<nat>) {
    forall i :: 0 <= i < |chunks| ==> i in have
  }

  lemma {:induction false} MissingMeansIncomplete(slots: Slots, chunks: seq<Bytes>)
    requires |slots| == |chunks|
    ensures Missing(slots) == 0 <==> forall i :: 0 <= i < |slots| ==> slots[i].Some?
  {
    if slots != [] {
      MissingMeansIncomplete(slots[1..], chunks[1..]);
      assert forall i :: 0 < i < |slots| ==> slots[i] == slots[1..][i - 1];
    }
  }

  lemma NewSlot(chunks: seq<Bytes>, have: set<nat>, i: nat)
    requires i < |chunks| && i !in have && |Concat(chunks)| <= MAX_UDP_PAYLOAD
    ensures SlotsOf(chunks, have)[i := Some(chunks[i])] == SlotsOf(chunks, have + {i})
    ensures TotalLength(SlotsOf(chunks, have)) + |chunks[i]| <= MAX_UDP_PAYLOAD
    ensures Missing(SlotsOf(chunks, have)) > 0
    ensures Missing(SlotsOf(chunks, have + {i})) == 0 <==> Complete(chunks, have + {i})
    ensures Complete(chunks, have + {i}) ==> Join(SlotsOf(chunks, have + {i})) == Concat(chunks)
  {
    var before, after := SlotsOf(chunks, have), SlotsOf(chunks, have + {i});
    FillSlot(before, i, chunks[i]);
    assert before[i := Some(chunks[i])] == after;
    LengthBound(after, chunks);
    NoneMissing(before, i);
    MissingMeansIncomplete(after, chunks);
    assert forall j :: 0 <= j < |after| ==> (after[j].Some? <==> j in have + {i});
    if Complete(chunks, have + {i}) { JoinAll(after, chunks); }
  }

  /** What storing one fragment of the packet does, given the fragments already there. */
  lemma StoreTracks(pending: Pending, w: Whole, chunks: seq<Bytes>, have: set<nat>, b: Buffer, i: nat)
    requires ValidPacket(b.packet) && b.packet.slots == SlotsOf(chunks, have) && b.address == w.address
    requires i < |chunks| && 2 <= |chunks| && |Concat(chunks)| <= MAX_UDP_PAYLOAD
    ensures var m := Message(w.sessionId, w.packetId, i, |chunks|, w.address, chunks[i]);
            var o := Store(pending, m, b);
            && (i in have ==> o == Outcome(pending[KeyOf(m) := b], Err))
            && (i !in have && !Complete(chunks, have + {i})
                ==> o.result == Ok(None) && Holds(o.pending, w, chunks, have + {i}, b.createdAt))
            && (i !in have && Complete(chunks, have + {i})
                ==> o.result == Ok(Some(Message(w.sessionId, w.packetId, 0, 1, w.address, Concat(chunks))))
                    && KeyOf(m) !in o.pending)
  {
    hide Missing, TotalLength, Join;
    if i !in have {
      NewSlot(chunks, have, i);
    }
  }

  datatype Event = Arrive(message: Message, now: nat) | Cleanup(now: nat)

  function Step(pending: Pending, e: Event): Outcome
    requires ValidPending(pending)
  {
    match e
    case Arrive(m, now) => Reassemble(pending, m, now)
    case Cleanup(now) => Outcome(Retain(pending, now), Ok(None))
  }

  lemma StepBounded(pending: Pending, e: Event)
    requires ValidPending(pending)
    ensures ValidPending(Step(pending, e).pending)
  {
    match e
    case Arrive(m, now) => ReassembleBounded(pending, m, now);
    case Cleanup(now) => RetainShrinks(pending, now);
  }

  /** The messages that come out of a run. */
  function Outputs(pending: Pending, events: seq<Event>): seq<Message>
    requires ValidPending(pending)
    decreases |events|
  {
    if events == [] then [] else
    StepBounded(pending, events[0]);
    var o := Step(pending, events[0]);
    (if o.result.Ok? && o.result.value.Some? then [o.result.value.value] else []) + Outputs(o.pending, events[1..])
  }

  function OfPacket(w: Whole, messages: seq<Message>): seq<Message> {
    if messages == [] then []
    else (if KeyOf(messages[0]) == (w.sessionId, w.packetId) then [messages[0]] else []) + OfPacket(w, messages[1..])
  }

  predicate Concerns(w: Whole, e: Event) {
    e.Arrive? && KeyOf(e.message) == (w.sessionId, w.packetId)
  }

  function Since(have: set<nat>, since: nat, e: Event): nat {
    if have == {} then e.now else since
  }

  function After(w: Whole, have: set<nat>, e: Event): set<nat> {
    if Concerns(w, e) then have + {e.message.fragmentId} else have
  }

  /**
    A fair run for a packet of which some fragments are there: in it, messages with the packet's ids
    are fragments of the packet; the first of them finds room; until the packet is complete nothing
    happens later than the timeout after that first one; and once it is complete no more of its
    fragments arrive. Other packets may do as they like.
  */
  ghost predicate Fair(pending: Pending, w: Whole, chunks: seq<Bytes>, have: set<nat>, since: nat, events: seq<Event>)
    requires ValidPending(pending)
    decreases |events|
  {
    events == [] ||
    (var e := events[0];
     StepBounded(pending, e);
     && (Concerns(w, e) ==> e.message in FragmentsOf(w, chunks) && !Complete(chunks, have))
     && (Concerns(w, e) && have == {} ==> |Live(pending, e.now)| < 64)
     && (have != {} && !Complete(chunks, have) ==> e.now < since + UDP_FRAGMENT_TIMEOUT)
     && Fair(Step(pending, e).pending, w, chunks, After(w, have, e), Since(have, since, e), events[1..]))
  }

  lemma SweptKeeps(pending: Pending, key: Key, other: Key, now: nat)
    requires key in pending ==> !Expired(pending[key], now)
    ensures key in Swept(pending, other, now) <==> key in pending
    ensures key in pending ==> Swept(pending, other, now)[key] == pending[key]
  {
  }

  lemma StoreKeepsOthers(pending: Pending, m: Message, b: Buffer, key: Key)
    requires ValidPacket(b.packet) && key != KeyOf(m)
    ensures var o := Store(pending, m, b);
            && (key in o.pending <==> key in pending)
            && (key in pending ==> o.pending[key] == pending[key])
            && (o.result.Ok? && o.result.value.Some? ==> KeyOf(o.result.value.value) == KeyOf(m))
  {
  }

  /** Other traffic leaves the packet's fragments alone and puts nothing out under its ids. */
  lemma OthersDoNotDisturb(pending: Pending, key: Key, e: Event)
    requires ValidPending(pending)
    requires key in pending ==> !Expired(pending[key], e.now)
    requires e.Arrive? ==> KeyOf(e.message) != key
    ensures var o := Step(pending, e);
            && (key in o.pending <==> key in pending)
            && (key in pending ==> o.pending[key] == pending[key])
            && (o.result.Ok? && o.result.value.Some? ==> KeyOf(o.result.value.value) != key)
  {
    hide Store, WithFragment, Swept;
    match e
    case Cleanup(now) =>
    case Arrive(m, now) =>
      SweptKeeps(pending, key, KeyOf(m), now);
      SweptValid(pending, KeyOf(m), now);
      var swept := Swept(pending, KeyOf(m), now);
      StoreKeepsOthers(swept, m, BufferFor(swept, m, now), key);
  }

  lemma SweptValid(pending: Pending, key: Key, now: nat)
    requires ValidPending(pending)
    ensures ValidPending(Swept(pending, key, now))
  {
    RetainShrinks(pending, now);
  }

  lemma NoSlotsYet(chunks: seq<Bytes>)
    ensures Empty(|chunks|).slots == SlotsOf(chunks, {})
  {
  }

  /** One fragment of the packet arrives in a fair run. */
  lemma FragmentArrives(pending: Pending, w: Whole, chunks: seq<Bytes>, have: set<nat>, since: nat, i: nat, now: nat)
    requires ValidPending(pending) && Holds(pending, w, chunks, have, since)
    requires i < |chunks| && 2 <= |chunks| && |Concat(chunks)| <= MAX_UDP_PAYLOAD && |chunks[i]| <= MAX_UDP_PAYLOAD
    requires !Complete(chunks, have)
    requires have != {} ==> now < since + UDP_FRAGMENT_TIMEOUT
    requires have == {} ==> |Live(pending, now)| < 64
    ensures var m := Message(w.sessionId, w.packetId, i, |chunks|, w.address, chunks[i]);
            var o := Reassemble(pending, m, now);
            && (i in have ==> o.result == Err && Holds(o.pending, w, chunks, have, since))
            && (i !in have && !Complete(chunks, have + {i})
                ==> o.result == Ok(None) && Holds(o.pending, w, chunks, have + {i}, if have == {} then now else since))
            && (i !in have && Complete(chunks, have + {i})
                ==> o.result == Ok(Some(Message(w.sessionId, w.packetId, 0, 1, w.address, Concat(chunks))))
                    && KeyOf(m) !in o.pending)
  {
    hide Store, WithFragment, Swept;
    var k := (w.sessionId, w.packetId);
    var m := Message(w.sessionId, w.packetId, i, |chunks|, w.address, chunks[i]);
    SweptKeeps(pending, k, k, now);
    SweptValid(pending, k, now);
    if have == {} { RoomExactly(pending, k, now); }
    var swept := Swept(pending, k, now);
    var b := BufferFor(swept, m, now);
    NoSlotsYet(chunks);
    StoreTracks(swept, w, chunks, have, b, i);
  }

  lemma {:induction false} NoneOfPacket(pending: Pending, w: Whole, chunks: seq<Bytes>, have: set<nat>, since: nat,
      events: seq<Event>)
    requires ValidPending(pending) && (w.sessionId, w.packetId) !in pending && Complete(chunks, have)
    requires Fair(pending, w, chunks, have, since, events)
    ensures OfPacket(w, Outputs(pending, events)) == []
    decreases |events|
  {
    hide Step, Holds, FragmentsOf, ValidPending;
    if events != [] {
      var e := events[0];
      StepBounded(pending, e);
      OthersDoNotDisturb(pending, (w.sessionId, w.packetId), e);
      var o := Step(pending, e);
      NoneOfPacket(o.pending, w, chunks, have, Since(have, since, e), events[1..]);
      OfPacketCons(w, o, Outputs(o.pending, events[1..]));
    }
  }

  lemma OfPacketCons(w: Whole, o: Outcome, rest: seq<Message>)
    ensures var first := if o.result.Ok? && o.result.value.Some? then [o.result.value.value] else [];
            OfPacket(w, first + rest)
            == (if o.result.Ok? && o.result.value.Some? && KeyOf(o.result.value.value) == (w.sessionId, w.packetId)
                then [o.result.value.value] else []) + OfPacket(w, rest)
  {
    if o.result.Ok? && o.result.value.Some? {
      var first := [o.result.value.value];
      assert (first + rest)[0] == first[0] && (first + rest)[1..] == rest;
    } else {
      assert [] + rest == rest;
    }
  }

  /** All indices seen by the end of a run. */
  function Arrived(w: Whole, have: set<nat>, events: seq<Event>): set<nat>
    decreases |events|
  {
    if events == [] then have else Arrived(w, After(w, have, events[0]), events[1..])
  }

  lemma {:induction false} ArrivedGrows(w: Whole, have: set<nat>, events: seq<Event>)
    ensures have <= Arrived(w, have, events)
    decreases |events|
  {
    if events != [] {
      ArrivedGrows(w, After(w, have, events[0]), events[1..]);
    }
  }

  predicate Splits(w: Whole, chunks: seq<Bytes>) {
    2 <= |chunks| && Concat(chunks) == w.payload && |w.payload| <= MAX_UDP_PAYLOAD
    && forall i :: 0 <= i < |chunks| ==> |chunks[i]| <= MAX_UDP_PAYLOAD
  }

  /** The fragments of a packet in any order, with duplicates and other packets in between, put the
      original message out exactly once, and put nothing out until all have arrived. */
  lemma {:induction false} ReassemblyDelivers(pending: Pending, w: Whole, chunks: seq<Bytes>, have: set<nat>,
      since: nat, events: seq<Event>)
    requires ValidPending(pending) && Splits(w, chunks) && !Complete(chunks, have)
    requires Holds(pending, w, chunks, have, since) && Fair(pending, w, chunks, have, since, events)
    ensures OfPacket(w, Outputs(pending, events))
            == if Complete(chunks, Arrived(w, have, events)) then [Single(w)] else []
    decreases |events|
  {
    hide Step, FragmentsOf, Complete, SlotsOf, ValidPending, Arrived;
    if events == [] {
      NothingArrives(w, have);
    } else {
      var e := events[0];
      StepBounded(pending, e);
      var o := Step(pending, e);
      ArrivedCons(w, have, events);
      OfPacketCons(w, o, Outputs(o.pending, events[1..]));
      if Concerns(w, e) {
        ConcernedStep(pending, w, chunks, have, since, e);
        if Complete(chunks, After(w, have, e)) {
          NoneOfPacket(o.pending, w, chunks, After(w, have, e), Since(have, since, e), events[1..]);
          CompleteStays(w, chunks, After(w, have, e), events[1..]);
        } else {
          ReassemblyDelivers(o.pending, w, chunks, After(w, have, e), Since(have, since, e), events[1..]);
        }
      } else {
        OthersDoNotDisturb(pending, (w.sessionId, w.packetId), e);
        ReassemblyDelivers(o.pending, w, chunks, have, Since(have, since, e), events[1..]);
      }
    }
  }

  lemma NothingArrives(w: Whole, have: set<nat>)
    ensures Arrived(w, have, []) == have
  {
  }

  lemma ArrivedCons(w: Whole, have: set<nat>, events: seq<Event>)
    requires events != []
    ensures Arrived(w, have, events) == Arrived(w, After(w, have, events[0]), events[1..])
  {
  }

  lemma CompleteStays(w: Whole, chunks: seq<Bytes>, have: set<nat>, events: seq<Event>)
    requires Complete(chunks, have)
    ensures Complete(chunks, Arrived(w, have, events))
  {
    ArrivedGrows(w, have, events);
  }

  lemma ConcernedStep(pending: Pending, w: Whole, chunks: seq<Bytes>, have: set<nat>, since: nat, e: Event)
    requires ValidPending(pending) && Splits(w, chunks) && Holds(pending, w, chunks, have, since)
    requires Concerns(w, e) && e.message in FragmentsOf(w, chunks) && !Complete(chunks, have)
    requires have != {} ==> e.now < since + UDP_FRAGMENT_TIMEOUT
    requires have == {} ==> |Live(pending, e.now)| < 64
    ensures var o := Step(pending, e);
            var have1 := After(w, have, e);
            && (Complete(chunks, have1) ==> o.result == Ok(Some(Single(w))) && (w.sessionId, w.packetId) !in o.pending)
            && (!Complete(chunks, have1) ==> Holds(o.pending, w, chunks, have1, Since(have, since, e))
                                             && (o.result.Err? || o.result.value.None?))
  {
    hide Reassemble, Swept, Complete;
    var ms := FragmentsOf(w, chunks);
    var i :| 0 <= i < |ms| && ms[i] == e.message;
    FragmentArrives(pending, w, chunks, have, since, i, e.now);
    if i in have { assert have + {i} == have; }
  }

  function PiecesOf(w: Whole, limit: nat): seq<Bytes>
    requires ValidWhole(w) && HeaderLen(w.address).Ok? && HeaderLen(w.address).value < limit
  {
    Chunks(w.payload, limit - HeaderLen(w.address).value)
  }

  /** Fragmentation round trip, for every packet and datagram limit that encoding accepts. A packet that
      fits goes out in one datagram and comes out as it is, whatever is pending. Any other is put back
      together from every fair run in which all of its fragments arrive, exactly once. */
  lemma FragmentationRoundTrip(w: Whole, limit: nat, pending: Pending, events: seq<Event>)
    requires ValidWhole(w) && Fragment(w, limit).Ok?
    requires ValidPending(pending) && (w.sessionId, w.packetId) !in pending
    ensures |Fragment(w, limit).value| == 1 ==>
              && Fragment(w, limit).value == [Single(w)]
              && forall p, now :: ValidPending(p) ==> Reassemble(p, Single(w), now) == Outcome(p, Ok(Some(Single(w))))
    ensures |Fragment(w, limit).value| != 1 ==>
              && HeaderLen(w.address).Ok? && HeaderLen(w.address).value < limit
              && Fragment(w, limit).value == FragmentsOf(w, PiecesOf(w, limit))
              && (Fair(pending, w, PiecesOf(w, limit), {}, 0, events)
                  ==> OfPacket(w, Outputs(pending, events))
                      == if Complete(PiecesOf(w, limit), Arrived(w, {}, events)) then [Single(w)] else [])
  {
    hide Fair, Outputs, OfPacket, Arrived, ValidPending;
    if |Fragment(w, limit).value| == 1 {
      OneDatagram(w, limit);
    } else {
      FragmentedRoundTrip(w, limit, pending, events);
    }
  }

  lemma OneDatagram(w: Whole, limit: nat)
    requires ValidWhole(w) && Fragment(w, limit).Ok? && |Fragment(w, limit).value| == 1
    ensures Fragment(w, limit).value == [Single(w)]
  {
    var h := HeaderLen(w.address).value;
    if h + |w.payload| > limit { ChunkCount(w.payload, limit - h); }
  }

  lemma FragmentedRoundTrip(w: Whole, limit: nat, pending: Pending, events: seq<Event>)
    requires ValidWhole(w) && Fragment(w, limit).Ok? && |Fragment(w, limit).value| != 1
    requires ValidPending(pending) && (w.sessionId, w.packetId) !in pending
    ensures HeaderLen(w.address).Ok? && HeaderLen(w.address).value < limit
    ensures Fragment(w, limit).value == FragmentsOf(w, PiecesOf(w, limit))
    ensures Fair(pending, w, PiecesOf(w, limit), {}, 0, events)
            ==> OfPacket(w, Outputs(pending, events))
                == if Complete(PiecesOf(w, limit), Arrived(w, {}, events)) then [Single(w)] else []
  {
    hide Fair, Outputs, OfPacket, Arrived, ValidPending;
    FragmentsCarryPayload(w, limit);
    var size := limit - HeaderLen(w.address).value;
    var pieces := PiecesOf(w, limit);
    ChunksRejoin(w.payload, size);
    ChunkCount(w.payload, size);
    PieceLengths(w.payload, size);
    assert Splits(w, pieces);
    NotCompleteAtFirst(pieces);
    if Fair(pending, w, pieces, {}, 0, events) {
      ReassemblyDelivers(pending, w, pieces, {}, 0, events);
    }
  }

  lemma NotCompleteAtFirst(chunks: seq<Bytes>)
    requires chunks != []
    ensures !Complete(chunks, {})
  {
    var none: set<nat> := {};
    assert 0 !in none;
  }

  lemma PieceLengths(payload: Bytes, size: nat)
    requires size > 0
    ensures forall i :: 0 <= i < |Chunks(payload, size)| ==> |Chunks(payload, size)[i]| <= |payload|
    decreases |payload|
  {
  }

  class Reassembler {
    var pending: Pending

    constructor ()
      ensures ValidPending(pending) && pending == map[]
    {
      pending := map[];
    }

    /** One message arrives: sweep if needed, find or open its buffer, store it. */
    method Receive(m: Message, now: nat) returns (r: Result<Option<Message>>)
      requires ValidPending(pending)
      modifies this
      ensures ValidPending(pending)
      ensures Outcome(pending, r) == Reassemble(old(pending), m, now)
    {
      hide Store;
      ReassembleBounded(pending, m, now);
      if m.fragmentCount == 0 || m.fragmentId >= m.fragmentCount || |m.payload| > MAX_UDP_PAYLOAD {
        return Err;
      }
      if m.fragmentCount == 1 {
        return Ok(Some(m));
      }
      var key := KeyOf(m);
      SweptValid(pending, key, now);
      if |pending| >= MAX_PENDING_PACKETS || (key in pending && Expired(pending[key], now)) {
        pending := Retain(pending, now);
      }
      if |pending| >= MAX_PENDING_PACKETS && key !in pending {
        return Err;
      }
      r := StoreFragment(m, BufferFor(pending, m, now));
    }

    method StoreFragment(m: Message, b: Buffer) returns (r: Result<Option<Message>>)
      requires ValidPacket(b.packet)
      modifies this
      ensures Outcome(pending, r) == Store(old(pending), m, b)
    {
      var key := KeyOf(m);
      pending := pending[key := b];
      if |b.packet.slots| != m.fragmentCount || b.address != m.address || !Accepts(b.packet, m.fragmentId, m.payload) {
        return Err;
      }
      var p := WithFragment(b.packet, m.fragmentId, m.payload);
      if p.remaining > 0 {
        pending := pending[key := b.(packet := p)];
        return Ok(None);
      }
      pending := pending - {key};
      r := Ok(Some(Message(m.sessionId, m.packetId, 0, 1, b.address, Join(p.slots))));
    }

    /** Exactly the expired packets go, and the others stay as they are. */
    method CleanupExpired(now: nat)
      requires ValidPending(pending)
      modifies this
      ensures ValidPending(pending)
      ensures forall k :: k in pending <==> k in old(pending) && !Expired(old(pending)[k], now)
      ensures forall k :: k in pending ==> pending[k] == old(pending)[k]
    {
      RetainShrinks(pending, now);
      pending := Retain(pending, now);
    }
  }
}
