/**
  One direction of a reliable session end to end: the sender, the receiver, and between them a
  network that may drop, duplicate and reorder packets without bound.

  Sequence numbers on the wire are 32-bit; `index` fields and `acked` are the unbounded numbers
  they stand for. A packet, once sent, stays in the network for ever, so it can be delivered late,
  twice or never. The only assumption on delay is that a packet is not a whole sequence cycle old.
*/
module MieruTransport {
  import opened Common
  import opened MieruSequence
  import opened MieruSendWindow
  import R = MieruReceiver

  const MAX_SESSION_OPEN_PAYLOAD: nat := 1024

  /** Bytes queued by one write, sent up to `offset`. */
  datatype Chunk = Chunk(payload: Bytes, offset: nat)

  datatype Sender = Sender(
    flow: Flow,
    nextSeq: U32,
    openSent: bool,
    unacked: map<U32, Outstanding>,
    pending: seq<Chunk>)

  datatype DataPacket = DataPacket(index: nat, seqNo: U32, payload: Bytes)

  datatype AckPacket = AckPacket(index: nat, ack: U32, window: nat)

  datatype Setup = Setup(isClient: bool, config: R.Config)

  /** History: `sent` the payload of every segment, `acked` the unbounded last ACK, `queued` all
      bytes written, `read` all bytes read. */
  datatype State = State(
    sender: Sender,
    receiver: R.Receiver,
    data: set<DataPacket>,
    acks: set<AckPacket>,
    sent: seq<Bytes>,
    acked: nat,
    queued: Bytes,
    read: Bytes)

  predicate ValidSetup(u: Setup) {
    R.ValidConfig(u.config) && u.config.mtu > R.PACKET_OVERHEAD
  }

  function MaxChunk(u: Setup): nat
    requires ValidSetup(u)
  {
    Min(u.config.mtu - R.PACKET_OVERHEAD, R.MAX_PDU)
  }

  /** A client numbers its open segment 0 when it first sends; a server has number 0 reserved for
      the open response, which is the first command of its queue. */
  function Start(u: Setup): State {
    State(Sender(INITIAL_FLOW, if u.isClient then 0 else 1, false, map[], []),
          R.Initial(u.config), {}, {}, if u.isClient then [] else [[]], 0, [], [])
  }

  datatype Event =
    | Queue(bytes: Bytes)
    | OpenResponse
    | Transmit(congestionWindow: nat)
    | Retransmit(oldest: U32)
    | ReceiveData(packet: DataPacket, capacity: nat)
    | SendAck
    | ReceiveAck(ackPacket: AckPacket)
    | ReadSome(limit: nat)

  predicate Started(u: Setup, s: State) {
    u.isClient || s.sender.openSent
  }

  ghost predicate Enabled(u: Setup, s: State, e: Event) {
    match e
    case Queue(_) => true
    case OpenResponse => !u.isClient && !s.sender.openSent
    case Transmit(cw) =>
      Started(u, s) && s.sender.pending != []
      && CanSend(s.sender.flow, s.sender.nextSeq, |s.sender.unacked|, cw)
    case Retransmit(oldest) =>
      oldest in s.sender.unacked && s.sender.unacked[oldest].attempts < PACKET_TX_COUNT_LIMIT
      && forall j :: j in s.sender.unacked
                     ==> WrapSub(oldest, s.sender.flow.peerAck) <= WrapSub(j, s.sender.flow.peerAck)
    case ReceiveData(p, _) =>
      p in s.data && |s.receiver.log| <= p.index + CYCLE - MAX_PENDING_SEGMENTS
    case SendAck => true
    case ReceiveAck(a) => Started(u, s) && a in s.acks && |s.sent| < a.index + CYCLE
    case ReadSome(_) => true
  }

  /** How many bytes of the front chunk the next segment carries. An open segment takes a whole
      small write or nothing. */
  function SegmentLen(u: Setup, openSent: bool, c: Chunk): nat
    requires ValidSetup(u) && c.offset <= |c.payload|
  {
    if u.isClient && !openSent && |c.payload| > Min(MAX_SESSION_OPEN_PAYLOAD, MaxChunk(u)) then 0
    else Min(|c.payload| - c.offset, MaxChunk(u))
  }

  function AfterSegment(pending: seq<Chunk>, n: nat): seq<Chunk>
    requires pending != [] && pending[0].offset + n <= |pending[0].payload|
  {
    var c := pending[0].(offset := pending[0].offset + n);
    if c.offset == |c.payload| then pending[1..] else [c] + pending[1..]
  }

  function TransmitNext(u: Setup, s: State): State
    requires ValidSetup(u) && s.sender.pending != []
    requires s.sender.pending[0].offset <= |s.sender.pending[0].payload|
  {
    var c := s.sender.pending[0];
    var n := SegmentLen(u, s.sender.openSent, c);
    var payload := c.payload[c.offset..c.offset + n];
    var seqNo := s.sender.nextSeq;
    s.(sender := Sender(s.sender.flow, WrapAdd(seqNo, 1), true,
                        s.sender.unacked[seqNo := Outstanding(payload, 1)],
                        AfterSegment(s.sender.pending, n)),
       data := s.data + {DataPacket(|s.sent|, seqNo, payload)},
       sent := s.sent + [payload])
  }

  function RetransmitOldest(s: State, oldest: U32): State
    requires oldest in s.sender.unacked
  {
    var segment := s.sender.unacked[oldest];
    s.(sender := s.sender.(flow := RetransmitFlow(s.sender.flow, s.sender.nextSeq),
                           unacked := s.sender.unacked[oldest := segment.(attempts := segment.attempts + 1)]),
       data := s.data + {DataPacket(s.acked + WrapSub(oldest, s.sender.flow.peerAck), oldest, segment.payload)})
  }

  function HandleAck(s: State, a: AckPacket): State {
    var f := s.sender.flow;
    s.(sender := s.sender.(flow := AckFlow(f, a.ack, a.window, s.sender.nextSeq, s.sender.unacked),
                           unacked := AckUnacked(f, a.ack, s.sender.nextSeq, s.sender.unacked)),
       acked := if Accepts(f.peerAck, s.sender.nextSeq, a.ack) then s.acked + WrapSub(a.ack, f.peerAck) else s.acked)
  }

  function Apply(u: Setup, s: State, e: Event): State
    requires ValidSetup(u) && Offsets(s.sender.pending)
    requires e.Transmit? ==> s.sender.pending != []
    requires e.Retransmit? ==> e.oldest in s.sender.unacked
  {
    match e
    case Queue(bytes) =>
      s.(sender := s.sender.(pending := s.sender.pending + [Chunk(bytes, 0)]), queued := s.queued + bytes)
    case OpenResponse =>
      s.(sender := s.sender.(openSent := true, unacked := s.sender.unacked[0 := Outstanding([], 1)]),
         data := s.data + {DataPacket(0, 0, [])})
    case Transmit(_) => TransmitNext(u, s)
    case Retransmit(oldest) => RetransmitOldest(s, oldest)
    case ReceiveData(p, capacity) =>
      s.(receiver := R.Route(u.config, s.receiver, p.seqNo, p.payload, capacity))
    case SendAck =>
      var r := R.Advertise(u.config, s.receiver);
      s.(receiver := r, acks := s.acks + {AckPacket(|s.receiver.log|, r.unAckSeq, r.window)})
    case ReceiveAck(a) => HandleAck(s, a)
    case ReadSome(limit) =>
      s.(receiver := R.Read(u.config, s.receiver, limit), read := s.read + R.Taken(s.receiver, limit))
  }

  predicate Offsets(pending: seq<Chunk>) {
    forall i :: 0 <= i < |pending| ==> pending[i].offset <= |pending[i].payload|
  }

  function Rest(pending: seq<Chunk>): Bytes
    requires Offsets(pending)
  {
    if pending == [] then [] else pending[0].payload[pending[0].offset..] + Rest(pending[1..])
  }

  /** Payloads taken out of the reorder map or straight from the network, not yet read. */
  function Unread(r: R.Receiver): Bytes {
    (if r.reading.Some? then r.reading.value.payload else []) + Queued(r.inbound)
  }

  function Queued(items: seq<R.Received>): Bytes {
    if items == [] then [] else items[0].payload + Queued(items[1..])
  }

  // ---- invariants

  ghost predicate SenderInv(u: Setup, s: State) {
    && s.sender.flow.peerAck == Wire(s.acked)
    && s.sender.nextSeq == Wire(|s.sent|)
    && s.acked <= |s.sent| <= s.acked + MAX_PENDING_SEGMENTS
    && (Started(u, s) ==> WindowInv(s.sender.flow, s.sender.nextSeq, s.sender.unacked))
    && (Started(u, s) ==> forall i :: s.acked <= i < |s.sent| ==> Holds(s.sender.unacked, i, s.sent[i]))
    && (!Started(u, s) ==> s.sender.flow == INITIAL_FLOW && s.sender.unacked == map[] && s.sent == [[]] && s.acked == 0)
  }

  ghost predicate Holds(unacked: map<U32, Outstanding>, i: nat, payload: Bytes) {
    Wire(i) in unacked && unacked[Wire(i)].payload == payload
  }

  ghost predicate NetworkInv(s: State) {
    && (forall p :: p in s.data ==> p.index < |s.sent| && p.seqNo == Wire(p.index) && p.payload == s.sent[p.index])
    && (forall a :: a in s.acks ==> a.index <= |s.receiver.log| && a.ack == Wire(a.index))
  }

  /** The receiver has delivered exactly a prefix of the segments sent, and buffers only
      segments sent, each at its own number. */
  ghost predicate Tracks(r: R.Receiver, sent: seq<Bytes>) {
    && |r.log| <= |sent|
    && r.log == sent[..|r.log|]
    && r.nextSeq == Wire(|r.log|)
    && forall k :: k in r.pending ==>
         |r.log| + WrapSub(k, r.nextSeq) < |sent| && r.pending[k].payload == sent[|r.log| + WrapSub(k, r.nextSeq)]
  }

  /** What was read and what is still to be read make up the payloads delivered. */
  ghost predicate Accounts(r: R.Receiver, read: Bytes) {
    read + Unread(r) == Concat(r.log)
  }

  ghost predicate BytesInv(s: State) {
    && Offsets(s.sender.pending)
    && Concat(s.sent) + Rest(s.sender.pending) == s.queued
    && Accounts(s.receiver, s.read)
  }

  ghost predicate Inv(u: Setup, s: State) {
    && SenderInv(u, s)
    && NetworkInv(s)
    && Tracks(s.receiver, s.sent)
    && s.acked <= |s.receiver.log|
    && R.ReceiverInv(u.config, s.receiver)
    && BytesInv(s)
  }

  lemma StartInv(u: Setup)
    requires ValidSetup(u)
    ensures Inv(u, Start(u))
  {
  }

  // ---- sender steps

  lemma OffsetsAppend(a: seq<Chunk>, c: Chunk)
    requires Offsets(a) && c.offset <= |c.payload|
    ensures Offsets(a + [c])
  {
  }

  lemma {:induction false} RestAppend(a: seq<Chunk>, c: Chunk)
    requires Offsets(a) && c.offset <= |c.payload|
    ensures Offsets(a + [c]) && Rest(a + [c]) == Rest(a) + c.payload[c.offset..]
  {
    OffsetsAppend(a, c);
    if a == [] {
      assert a + [c] == [c] && [c][1..] == [];
      assert c.payload[c.offset..] + [] == [] + c.payload[c.offset..];
    } else {
      assert (a + [c])[0] == a[0] && (a + [c])[1..] == a[1..] + [c];
      RestAppend(a[1..], c);
      Associative(a[0].payload[a[0].offset..], Rest(a[1..]), c.payload[c.offset..]);
    }
  }

  /** A segment takes its bytes off the front of what is still to be sent. */
  lemma SegmentTakesFront(pending: seq<Chunk>, n: nat)
    requires Offsets(pending) && pending != [] && pending[0].offset + n <= |pending[0].payload|
    ensures Offsets(AfterSegment(pending, n))
    ensures Rest(pending)
            == pending[0].payload[pending[0].offset..pending[0].offset + n] + Rest(AfterSegment(pending, n))
  {
    var c, after := pending[0], AfterSegment(pending, n);
    var taken, left := c.payload[c.offset..c.offset + n], c.payload[c.offset + n..];
    assert Rest(pending) == c.payload[c.offset..] + Rest(pending[1..]);
    RestOfSegment(pending, n);
    hide Rest, AfterSegment;
    SplitSlice(c.payload, c.offset, c.offset + n);
    Associative(taken, left, Rest(pending[1..]));
  }

  lemma RestOfSegment(pending: seq<Chunk>, n: nat)
    requires Offsets(pending) && pending != [] && pending[0].offset + n <= |pending[0].payload|
    ensures Offsets(AfterSegment(pending, n))
    ensures Rest(AfterSegment(pending, n)) == pending[0].payload[pending[0].offset + n..] + Rest(pending[1..])
  {
    var after, tail := AfterSegment(pending, n), pending[1..];
    assert forall i :: 0 <= i < |tail| ==> tail[i] == pending[i + 1];
    if pending[0].offset + n == |pending[0].payload| {
      assert [] + Rest(tail) == Rest(after);
    } else {
      assert after[1..] == tail;
    }
  }

  lemma TransmitSender(u: Setup, s: State, cw: nat)
    requires ValidSetup(u) && SenderInv(u, s) && Offsets(s.sender.pending) && Enabled(u, s, Transmit(cw))
    ensures SenderInv(u, TransmitNext(u, s))
  {
    var s1 := TransmitNext(u, s);
    var payload := s1.sent[|s.sent|];
    SendKeepsWindow(s.sender.flow, s.sender.nextSeq, s.sender.unacked, payload, cw);
    WireDistance(s.acked, |s.sent|);
    WireStep(|s.sent|, 1);
    forall i | s1.acked <= i < |s1.sent| ensures Holds(s1.sender.unacked, i, s1.sent[i]) {
      if i < |s.sent| {
        assert Holds(s.sender.unacked, i, s.sent[i]);
      }
    }
  }

  lemma SegmentBytes(sent: seq<Bytes>, pending: seq<Chunk>, n: nat, queued: Bytes)
    requires Offsets(pending) && pending != [] && pending[0].offset + n <= |pending[0].payload|
    requires Concat(sent) + Rest(pending) == queued
    ensures Offsets(AfterSegment(pending, n))
    ensures Concat(sent + [pending[0].payload[pending[0].offset..pending[0].offset + n]])
            + Rest(AfterSegment(pending, n)) == queued
  {
    var payload := pending[0].payload[pending[0].offset..pending[0].offset + n];
    SegmentTakesFront(pending, n);
    ConcatSnoc(sent, payload);
    Associative(Concat(sent), payload, Rest(AfterSegment(pending, n)));
  }

  lemma TransmitTracks(r: R.Receiver, sent: seq<Bytes>, payload: Bytes)
    requires Tracks(r, sent)
    ensures Tracks(r, sent + [payload])
  {
  }

  lemma TransmitInv(u: Setup, s: State, cw: nat)
    requires ValidSetup(u) && Inv(u, s) && Enabled(u, s, Transmit(cw))
    ensures Inv(u, TransmitNext(u, s))
  {
    hide WindowInv, R.ReceiverInv;
    TransmitSender(u, s, cw);
    SegmentBytes(s.sent, s.sender.pending, SegmentLen(u, s.sender.openSent, s.sender.pending[0]), s.queued);
    TransmitTracks(s.receiver, s.sent, TransmitNext(u, s).sent[|s.sent|]);
  }

  /** A sender step that sends nothing new: only the window and the copies in the network change. */
  lemma SenderStepInv(u: Setup, s: State, sender: Sender, data: set<DataPacket>)
    requires Inv(u, s) && sender.pending == s.sender.pending
    requires SenderInv(u, s.(sender := sender, data := data))
    requires forall p :: p in data ==> p.index < |s.sent| && p.seqNo == Wire(p.index) && p.payload == s.sent[p.index]
    ensures Inv(u, s.(sender := sender, data := data))
  {
  }

  lemma OpenResponseSender(u: Setup, s: State)
    requires SenderInv(u, s) && !Started(u, s)
    ensures SenderInv(u, s.(sender := s.sender.(openSent := true, unacked := map[0 := Outstanding([], 1)])))
  {
  }

  lemma OpenResponseInv(u: Setup, s: State)
    requires ValidSetup(u) && Inv(u, s) && Enabled(u, s, OpenResponse)
    ensures Inv(u, Apply(u, s, OpenResponse))
  {
    OpenResponseSender(u, s);
    var s1 := Apply(u, s, OpenResponse);
    assert s1.sender.unacked == map[0 := Outstanding([], 1)];
    SenderStepInv(u, s, s1.sender, s1.data);
  }

  lemma QueueInv(u: Setup, s: State, bytes: Bytes)
    requires ValidSetup(u) && Inv(u, s)
    ensures Inv(u, Apply(u, s, Queue(bytes)))
  {
    hide Rest, WindowInv, Holds, Tracks, R.ReceiverInv;
    RestAppend(s.sender.pending, Chunk(bytes, 0));
    var s1 := Apply(u, s, Queue(bytes));
    assert bytes[0..] == bytes;
    assert SenderInv(u, s1);
  }

  lemma RetransmitSender(u: Setup, s: State, oldest: U32)
    requires SenderInv(u, s) && Enabled(u, s, Retransmit(oldest))
    ensures SenderInv(u, RetransmitOldest(s, oldest))
    ensures oldest == s.sender.flow.peerAck && s.acked < |s.sent|
    ensures s.sender.unacked[oldest].payload == s.sent[s.acked]
  {
    var s1 := RetransmitOldest(s, oldest);
    RetransmitKeepsWindow(s.sender.flow, s.sender.nextSeq, s.sender.unacked, oldest);
    WireDistance(s.acked, |s.sent|);
    assert Holds(s.sender.unacked, s.acked, s.sent[s.acked]);
    forall i | s1.acked <= i < |s1.sent| ensures Holds(s1.sender.unacked, i, s1.sent[i]) {
      assert Holds(s.sender.unacked, i, s.sent[i]);
    }
  }

  /** What is retransmitted is always the first segment the peer has not acknowledged. */
  lemma RetransmitInv(u: Setup, s: State, oldest: U32)
    requires ValidSetup(u) && Inv(u, s) && Enabled(u, s, Retransmit(oldest))
    ensures Inv(u, RetransmitOldest(s, oldest))
    ensures oldest == s.sender.flow.peerAck && s.acked < |s.sent|
    ensures DataPacket(s.acked, oldest, s.sent[s.acked]) in RetransmitOldest(s, oldest).data
  {
    RetransmitSender(u, s, oldest);
    var s1 := RetransmitOldest(s, oldest);
    SenderStepInv(u, s, s1.sender, s1.data);
  }

  /** On unbounded numbers, an acknowledgement less than a cycle old raises `acked` to its index
      or, if it is stale, does nothing at all. */
  lemma HandleAckExact(u: Setup, s: State, a: AckPacket)
    requires SenderInv(u, s) && NetworkInv(s) && |s.receiver.log| <= |s.sent|
    requires Enabled(u, s, ReceiveAck(a))
    ensures HandleAck(s, a).acked == if s.acked <= a.index then a.index else s.acked
    ensures a.index < s.acked ==> HandleAck(s, a) == s
  {
    AcceptsUnbounded(s.acked, |s.sent|, a.index);
    if s.acked <= a.index {
      WireDistance(s.acked, a.index);
    }
  }

  lemma AckSender(u: Setup, s: State, a: AckPacket)
    requires SenderInv(u, s) && NetworkInv(s) && |s.receiver.log| <= |s.sent|
    requires Enabled(u, s, ReceiveAck(a))
    ensures SenderInv(u, HandleAck(s, a))
  {
    HandleAckExact(u, s, a);
    if s.acked <= a.index {
      var s1 := HandleAck(s, a);
      AckKeepsWindow(s.sender.flow, a.ack, a.window, s.sender.nextSeq, s.sender.unacked);
      WireDistance(s.acked, |s.sent|);
      WireDistance(s.acked, a.index);
      forall i | s1.acked <= i < |s1.sent| ensures Holds(s1.sender.unacked, i, s1.sent[i]) {
        assert Holds(s.sender.unacked, i, s.sent[i]);
        WireDistance(s.acked, i);
      }
    }
  }

  lemma AckInv(u: Setup, s: State, a: AckPacket)
    requires ValidSetup(u) && Inv(u, s) && Enabled(u, s, ReceiveAck(a))
    ensures Inv(u, HandleAck(s, a))
  {
    AckSender(u, s, a);
    HandleAckExact(u, s, a);
  }

  // ---- receiver steps

  /** Delivering the next segment in order keeps the receiver on track. */
  lemma DeliverTracks(r: R.Receiver, item: R.Received, sent: seq<Bytes>)
    requires Tracks(r, sent) && |r.log| < |sent| && item.payload == sent[|r.log|]
    requires forall k :: k in r.pending ==> 0 < WrapSub(k, r.nextSeq)
    ensures Tracks(R.Deliver(r, item), sent)
  {
    var r1 := R.Deliver(r, item);
    assert sent[..|r1.log|] == sent[..|r.log|] + [sent[|r.log|]];
    WireStep(|r.log|, 1);
    forall k | k in r1.pending
      ensures |r1.log| + WrapSub(k, r1.nextSeq) == |r.log| + WrapSub(k, r.nextSeq)
    {
      assert 0 < WrapSub(k, r.nextSeq);
    }
  }

  lemma DeliverAccounts(r: R.Receiver, item: R.Received, read: Bytes)
    requires Accounts(r, read)
    ensures Accounts(R.Deliver(r, item), read)
  {
    ConcatSnoc(r.log, item.payload);
    QueuedAppend(r.inbound, item);
    var head := if r.reading.Some? then r.reading.value.payload else [];
    Associative(head, Queued(r.inbound), item.payload);
    Associative(read, Unread(r), item.payload);
    if item.payload == [] {
      assert Concat(r.log) + [] == Concat(r.log);
    } else {
      assert Unread(R.Deliver(r, item)) == Unread(r) + item.payload;
    }
  }

  lemma {:induction false} QueuedAppend(items: seq<R.Received>, item: R.Received)
    ensures Queued(items + [item]) == Queued(items) + item.payload
  {
    if items == [] {
      assert items + [item] == [item];
    } else {
      assert (items + [item])[1..] == items[1..] + [item];
      QueuedAppend(items[1..], item);
    }
  }

  lemma {:induction false} DrainTracks(r: R.Receiver, sent: seq<Bytes>, read: Bytes)
    requires Tracks(r, sent) && Accounts(r, read)
    ensures Tracks(R.Drain(r), sent) && Accounts(R.Drain(r), read)
    ensures r.log <= R.Drain(r).log
    decreases |r.pending|
  {
    if r.nextSeq in r.pending {
      R.ShrinkMap(r.pending, r.nextSeq);
      var r0 := r.(pending := r.pending - {r.nextSeq});
      DeliverTracks(r0, r.pending[r.nextSeq], sent);
      DeliverAccounts(r0, r.pending[r.nextSeq], read);
      DrainTracks(R.Deliver(r0, r.pending[r.nextSeq]), sent, read);
    }
  }

  /** A packet that is not too old is recognised by its 32-bit number: as the head, as inside the
      window, or as a duplicate, exactly as its unbounded number says. */
  lemma Recognised(next: nat, index: nat)
    requires index < next + MAX_PENDING_SEGMENTS && next <= index + CYCLE - MAX_PENDING_SEGMENTS
    ensures Wire(index) == Wire(next) <==> index == next
    ensures WrapSub(Wire(index), Wire(next)) < MAX_PENDING_SEGMENTS <==> next <= index
    ensures next <= index ==> WrapSub(Wire(index), Wire(next)) == index - next
  {
  }

  /** The bound on age is exact: of the packets at most a cycle old that were delivered before, those
      older than the bound, and no others, are taken for ones still to come. */
  lemma TooOldIsTakenForNew(next: nat, index: nat)
    requires index < next <= index + CYCLE
    ensures WrapSub(Wire(index), Wire(next)) < MAX_PENDING_SEGMENTS <==> next > index + CYCLE - MAX_PENDING_SEGMENTS
  {
    if next < index + CYCLE { WireDistance(index, next); } else { assert Wire(next) == Wire(index); }
  }

  /** And it is needed: a packet a whole cycle old is delivered in place of the segment that is due. */
  lemma WholeCycleOldPacketIsDelivered(u: Setup, s: State, p: DataPacket, capacity: nat)
    requires ValidSetup(u) && Inv(u, s) && p in s.data && |s.receiver.log| == p.index + CYCLE
    requires s.receiver.inbound == [] && s.receiver.reading.None? && capacity <= R.LARGEST_HEAD
    ensures s.receiver.log + [s.sent[p.index]] <= Apply(u, s, ReceiveData(p, capacity)).receiver.log
  {
    hide R.ReceiverInv, R.Route, BytesInv, SenderInv, Wire;
    WholeCycle(p.index);
    R.HeadAlwaysAccepted(u.config, s.receiver, p.payload, capacity);
  }

  lemma WholeCycle(n: nat)
    ensures Wire(n + CYCLE) == Wire(n)
  {
  }

  lemma HeadTracks(r: R.Receiver, sent: seq<Bytes>, read: Bytes, payload: Bytes, permits: nat)
    requires Tracks(r, sent) && Accounts(r, read) && R.InWindow(r) && permits <= r.available
    requires |r.log| < |sent| && payload == sent[|r.log|]
    ensures var r1 := R.Place(r, r.nextSeq, payload, permits);
            Tracks(r1, sent) && Accounts(r1, read) && r.log <= r1.log
  {
    var r0 := r.(available := r.available - permits);
    assert Accounts(r0, read);
    DeliverTracks(r0, R.Received(payload, permits), sent);
    DeliverAccounts(r0, R.Received(payload, permits), read);
    DrainTracks(R.Deliver(r0, R.Received(payload, permits)), sent, read);
  }

  lemma BufferTracks(r: R.Receiver, sent: seq<Bytes>, read: Bytes, index: nat, permits: nat)
    requires Tracks(r, sent) && Accounts(r, read) && permits <= r.available
    requires |r.log| < index < |sent| && WrapSub(Wire(index), r.nextSeq) == index - |r.log|
    requires r.nextSeq != Wire(index)
    ensures var r1 := R.Place(r, Wire(index), sent[index], permits);
            Tracks(r1, sent) && Accounts(r1, read) && r.log == r1.log
  {
  }

  lemma PlaceTracks(r: R.Receiver, sent: seq<Bytes>, read: Bytes, index: nat, permits: nat)
    requires Tracks(r, sent) && Accounts(r, read) && R.InWindow(r) && permits <= r.available
    requires index < |sent| <= |r.log| + MAX_PENDING_SEGMENTS
    requires |r.log| <= index + CYCLE - MAX_PENDING_SEGMENTS
    ensures var r1 := R.Place(r, Wire(index), sent[index], permits);
            Tracks(r1, sent) && Accounts(r1, read) && r.log <= r1.log
  {
    Recognised(|r.log|, index);
    if index == |r.log| {
      HeadTracks(r, sent, read, sent[index], permits);
    } else if |r.log| < index {
      BufferTracks(r, sent, read, index, permits);
    }
  }

  lemma RouteTracks(c: R.Config, r: R.Receiver, sent: seq<Bytes>, read: Bytes, index: nat, capacity: nat)
    requires Tracks(r, sent) && Accounts(r, read) && R.InWindow(r)
    requires index < |sent| <= |r.log| + MAX_PENDING_SEGMENTS
    requires |r.log| <= index + CYCLE - MAX_PENDING_SEGMENTS
    ensures var r1 := R.Route(c, r, Wire(index), sent[index], capacity);
            Tracks(r1, sent) && Accounts(r1, read) && r.log <= r1.log
  {
    var permits := R.ReservePacket(c, r.available, capacity, Wire(index) != r.nextSeq);
    if permits.Some? {
      PlaceTracks(r, sent, read, index, permits.value);
    }
    SameBuffers(R.Admit(c, r, Wire(index), sent[index], capacity),
                R.Route(c, r, Wire(index), sent[index], capacity), sent, read);
  }

  lemma SameBuffers(r: R.Receiver, r1: R.Receiver, sent: seq<Bytes>, read: Bytes)
    requires r1.nextSeq == r.nextSeq && r1.pending == r.pending && r1.inbound == r.inbound
    requires r1.reading == r.reading && r1.log == r.log
    requires Tracks(r, sent) && Accounts(r, read)
    ensures Tracks(r1, sent) && Accounts(r1, read)
  {
  }

  /** A change at the receiver that only extends what it delivered keeps the whole invariant. */
  lemma ReceiverStepInv(u: Setup, s: State, r: R.Receiver, read: Bytes)
    requires Inv(u, s) && R.ReceiverInv(u.config, r)
    requires Tracks(r, s.sent) && Accounts(r, read) && s.receiver.log <= r.log
    ensures Inv(u, s.(receiver := r, read := read))
  {
  }

  lemma ReceiveDataInv(u: Setup, s: State, p: DataPacket, capacity: nat)
    requires ValidSetup(u) && Inv(u, s) && Enabled(u, s, ReceiveData(p, capacity))
    ensures Inv(u, Apply(u, s, ReceiveData(p, capacity)))
    ensures s.receiver.log <= Apply(u, s, ReceiveData(p, capacity)).receiver.log
  {
    R.RouteKeepsInv(u.config, s.receiver, p.seqNo, p.payload, capacity);
    RouteTracks(u.config, s.receiver, s.sent, s.read, p.index, capacity);
    ReceiverStepInv(u, s, R.Route(u.config, s.receiver, p.seqNo, p.payload, capacity), s.read);
  }

  lemma SendAckInv(u: Setup, s: State)
    requires ValidSetup(u) && Inv(u, s)
    ensures Inv(u, Apply(u, s, SendAck))
  {
    hide SenderInv, NetworkInv, Tracks, R.ReceiverInv;
    var r := R.Advertise(u.config, s.receiver);
    R.AdvertiseKeepsInv(u.config, s.receiver);
    SameBuffers(s.receiver, r, s.sent, s.read);
    ReceiverStepInv(u, s, r, s.read);
    AckSentInv(u, s.(receiver := r), AckPacket(|r.log|, r.unAckSeq, r.window));
  }

  lemma AckSentInv(u: Setup, s: State, a: AckPacket)
    requires Inv(u, s) && a.index == |s.receiver.log| && a.ack == s.receiver.nextSeq
    ensures Inv(u, s.(acks := s.acks + {a}))
  {
  }

  lemma ReadBytes(u: Setup, r: R.Receiver, limit: nat)
    ensures R.Taken(r, limit) + Unread(R.Read(u.config, r, limit)) == Unread(r)
  {
    var r1 := R.NextPayload(r);
    assert Unread(r1) == Unread(r);
    if r1.reading.Some? {
      var payload := r1.reading.value.payload;
      var n := Min(limit, |payload|);
      SplitSlice(payload, 0, n);
      Associative(payload[..n], payload[n..], Queued(r1.inbound));
    }
  }

  lemma ReadFrame(u: Setup, r: R.Receiver, limit: nat)
    ensures var r1 := R.Read(u.config, r, limit);
            r1.log == r.log && r1.nextSeq == r.nextSeq && r1.pending == r.pending
  {
  }

  lemma ReadTracks(u: Setup, r: R.Receiver, sent: seq<Bytes>, read: Bytes, limit: nat)
    requires Tracks(r, sent) && Accounts(r, read)
    ensures var r1 := R.Read(u.config, r, limit);
            Tracks(r1, sent) && Accounts(r1, read + R.Taken(r, limit)) && r1.log == r.log
  {
    ReadBytes(u, r, limit);
    ReadFrame(u, r, limit);
    Associative(read, R.Taken(r, limit), Unread(R.Read(u.config, r, limit)));
  }

  lemma ReadInv(u: Setup, s: State, limit: nat)
    requires ValidSetup(u) && Inv(u, s)
    ensures Inv(u, Apply(u, s, ReadSome(limit)))
    ensures Apply(u, s, ReadSome(limit)).receiver.log == s.receiver.log
  {
    hide SenderInv, NetworkInv, Tracks, Accounts, R.ReceiverInv, R.Read;
    R.ReadKeepsInv(u.config, s.receiver, limit);
    ReadTracks(u, s.receiver, s.sent, s.read, limit);
    ReceiverStepInv(u, s, R.Read(u.config, s.receiver, limit), s.read + R.Taken(s.receiver, limit));
  }

  /** Every step of either end or of the network keeps the invariant and retracts nothing. */
  lemma StepInv(u: Setup, s: State, e: Event)
    requires ValidSetup(u) && Inv(u, s) && Enabled(u, s, e)
    ensures Inv(u, Apply(u, s, e))
    ensures s.receiver.log <= Apply(u, s, e).receiver.log
    ensures s.sent <= Apply(u, s, e).sent
  {
    match e
    case Queue(bytes) => QueueInv(u, s, bytes);
    case OpenResponse => OpenResponseInv(u, s);
    case Transmit(cw) => TransmitInv(u, s, cw);
    case Retransmit(oldest) => RetransmitInv(u, s, oldest);
    case ReceiveData(p, capacity) => ReceiveDataInv(u, s, p, capacity);
    case SendAck => SendAckInv(u, s);
    case ReceiveAck(a) => AckInv(u, s, a);
    case ReadSome(limit) => ReadInv(u, s, limit);
  }

  // ---- runs

  /** The states of a run: each follows from the one before by an enabled event. */
  ghost predicate IsRun(u: Setup, events: seq<Event>, states: seq<State>)
    requires ValidSetup(u)
  {
    && |states| == |events| + 1
    && states[0] == Start(u)
    && forall i {:trigger events[i]} :: 0 <= i < |events| ==> Follows(u, states[i], events[i], states[i + 1])
  }

  ghost predicate Follows(u: Setup, s: State, e: Event, s1: State)
    requires ValidSetup(u)
  {
    Enabled(u, s, e) && Offsets(s.sender.pending) && s1 == Apply(u, s, e)
  }

  lemma {:induction false} RunInv(u: Setup, events: seq<Event>, states: seq<State>, i: nat)
    requires ValidSetup(u) && IsRun(u, events, states) && i < |states|
    ensures Inv(u, states[i])
  {
    if i == 0 {
      StartInv(u);
    } else {
      RunInv(u, events, states, i - 1);
      assert Follows(u, states[i - 1], events[i - 1], states[i]);
      StepInv(u, states[i - 1], events[i - 1]);
    }
  }

  /** In every state of every run: the receiver has delivered exactly the first segments sent, once
      each and in order; sender and receiver bracket each other; the reader has a prefix of the
      bytes written; and the sender holds exactly the segments not yet acknowledged. */
  lemma ReliableDelivery(u: Setup, events: seq<Event>, states: seq<State>, i: nat)
    requires ValidSetup(u) && IsRun(u, events, states) && i < |states|
    ensures var s := states[i];
            && s.acked <= |s.receiver.log| <= |s.sent| <= s.acked + MAX_PENDING_SEGMENTS
            && s.receiver.log == s.sent[..|s.receiver.log|]
            && s.read <= Concat(s.receiver.log) <= s.queued
            && (Started(u, s) ==> forall j ::
                0 <= j < |s.sent| && Wire(j) !in s.sender.unacked
                ==> j < |s.receiver.log|)
  {
    RunInv(u, events, states, i);
    var s := states[i];
    ConcatPrefix(s.sent, |s.receiver.log|);
    if Started(u, s) {
      forall j | s.acked <= j < |s.sent| ensures Wire(j) in s.sender.unacked {
        assert Holds(s.sender.unacked, j, s.sent[j]);
      }
    }
  }

  lemma RunStepGrows(u: Setup, events: seq<Event>, states: seq<State>, i: nat)
    requires ValidSetup(u) && IsRun(u, events, states) && i < |events|
    ensures states[i].receiver.log <= states[i + 1].receiver.log
  {
    RunInv(u, events, states, i);
    assert Follows(u, states[i], events[i], states[i + 1]);
    StepInv(u, states[i], events[i]);
  }

  lemma {:induction false} ChainGrows(logs: seq<seq<Bytes>>, i: nat, j: nat)
    requires forall k :: 0 <= k < |logs| - 1 ==> logs[k] <= logs[k + 1]
    requires i <= j < |logs|
    ensures logs[i] <= logs[j]
    decreases j
  {
    if i < j {
      ChainGrows(logs, i, j - 1);
      assert logs[j - 1] <= logs[(j - 1) + 1];
    }
  }

  /** Nothing delivered is ever taken back or changed by a later step. */
  lemma DeliveryOnlyGrows(u: Setup, events: seq<Event>, states: seq<State>, i: nat, j: nat)
    requires ValidSetup(u) && IsRun(u, events, states) && i <= j < |states|
    ensures states[i].receiver.log <= states[j].receiver.log
  {
    var logs := seq(|states|, k requires 0 <= k < |states| => states[k].receiver.log);
    forall k | 0 <= k < |logs| - 1 ensures logs[k] <= logs[k + 1] {
      RunStepGrows(u, events, states, k);
    }
    ChainGrows(logs, i, j);
  }

  /** The state in which a closing session lets go: by then every byte written was delivered. */
  lemma CloseLosesNothing(u: Setup, events: seq<Event>, states: seq<State>, i: nat)
    requires ValidSetup(u) && IsRun(u, events, states) && i < |states|
    requires Started(u, states[i])
    requires states[i].sender.pending == [] && states[i].sender.unacked == map[]
    ensures Concat(states[i].receiver.log) == states[i].queued
  {
    RunInv(u, events, states, i);
    var s := states[i];
    assert s.acked == |s.sent| by {
      assert Interval(s.sender.unacked, s.sender.flow.peerAck, WrapSub(s.sender.nextSeq, s.sender.flow.peerAck));
      assert s.sender.flow.peerAck !in s.sender.unacked;
      WireDistance(s.acked, |s.sent|);
    }
    assert s.receiver.log == s.sent;
    assert Rest(s.sender.pending) == [];
  }

  lemma OldestIsAcked(u: Setup, s: State)
    requires SenderInv(u, s) && Started(u, s) && s.sender.unacked != map[]
    ensures s.acked < |s.sent| && s.sender.flow.peerAck in s.sender.unacked
    ensures Enabled(u, s, Retransmit(s.sender.flow.peerAck))
            <==> s.sender.unacked[s.sender.flow.peerAck].attempts < PACKET_TX_COUNT_LIMIT
  {
    var k :| k in s.sender.unacked;
    WireDistance(s.acked, |s.sent|);
    assert WrapSub(k, s.sender.flow.peerAck) < |s.sent| - s.acked;
    assert Holds(s.sender.unacked, s.acked, s.sent[s.acked]);
  }

  /** Resending the oldest segment gets a receiver that waits for it past it. */
  lemma ResendingAdvances(u: Setup, s: State, capacity: nat)
    requires ValidSetup(u) && Inv(u, s) && Enabled(u, s, Retransmit(s.sender.flow.peerAck))
    requires s.acked == |s.receiver.log| && s.receiver.inbound == [] && s.receiver.reading.None?
    requires capacity <= R.LARGEST_HEAD
    ensures s.acked < |s.sent|
    ensures var s1 := Apply(u, s, Retransmit(s.sender.flow.peerAck));
            var e := ReceiveData(DataPacket(s.acked, s.sender.flow.peerAck, s.sent[s.acked]), capacity);
            Enabled(u, s1, e) && |Apply(u, s1, e).receiver.log| > s.acked
  {
    hide Inv, R.Route, R.ReceiverInv;
    RetransmitInv(u, s, s.sender.flow.peerAck);
    HeadIsTaken(u, s, capacity);
  }

  lemma HeadIsTaken(u: Setup, s: State, capacity: nat)
    requires ValidSetup(u) && Inv(u, s) && s.acked == |s.receiver.log| < |s.sent|
    requires s.receiver.inbound == [] && s.receiver.reading.None? && capacity <= R.LARGEST_HEAD
    ensures |R.Route(u.config, s.receiver, s.sender.flow.peerAck, s.sent[s.acked], capacity).log| > s.acked
  {
    hide R.Route, R.ReceiverInv;
    R.HeadAlwaysAccepted(u.config, s.receiver, s.sent[s.acked], capacity);
  }

  /** An acknowledgement sent now tells the sender all that was delivered. */
  lemma FreshAckAdvances(u: Setup, s: State)
    requires ValidSetup(u) && Inv(u, s) && Started(u, s)
    ensures var s1 := Apply(u, s, SendAck);
            var e := ReceiveAck(AckPacket(|s.receiver.log|, s.receiver.unAckSeq, s.receiver.window));
            Enabled(u, s, SendAck) && Enabled(u, s1, e) && Apply(u, s1, e).acked == |s.receiver.log|
  {
    SendAckInv(u, s);
    var s1 := Apply(u, s, SendAck);
    HandleAckExact(u, s1, AckPacket(|s.receiver.log|, s.receiver.unAckSeq, s.receiver.window));
  }

  /** No deadlock, in every state of every run: as long as something is unacknowledged and the reader has
      caught up, there are two steps to be taken that advance the receiver or the sender. Either an
      acknowledgement sent now moves the sender; or the oldest segment can be resent, unless that
      was done too often already, and its arrival moves the receiver. */
  lemma ProgressIsPossible(u: Setup, events: seq<Event>, states: seq<State>, i: nat, capacity: nat)
    requires ValidSetup(u) && IsRun(u, events, states) && i < |states| && Started(u, states[i])
    requires states[i].sender.unacked != map[]
    requires states[i].receiver.inbound == [] && states[i].receiver.reading.None? && capacity <= R.LARGEST_HEAD
    ensures var s := states[i];
            && Offsets(s.sender.pending) && s.sender.flow.peerAck in s.sender.unacked && s.acked < |s.sent|
    ensures var s := states[i];
            s.acked < |s.receiver.log| ==>
              var s1 := Apply(u, s, SendAck);
              var e := ReceiveAck(AckPacket(|s.receiver.log|, s.receiver.unAckSeq, s.receiver.window));
              Enabled(u, s, SendAck) && Enabled(u, s1, e) && Apply(u, s1, e).acked > s.acked
    ensures var s := states[i];
            var oldest := s.sender.flow.peerAck;
            && (Enabled(u, s, Retransmit(oldest)) <==> s.sender.unacked[oldest].attempts < PACKET_TX_COUNT_LIMIT)
            && (s.acked == |s.receiver.log| && Enabled(u, s, Retransmit(oldest)) ==>
                  var s1 := Apply(u, s, Retransmit(oldest));
                  var e := ReceiveData(DataPacket(s.acked, oldest, s.sent[s.acked]), capacity);
                  Enabled(u, s1, e) && |Apply(u, s1, e).receiver.log| > |s.receiver.log|)
  {
    hide IsRun, R.Route, R.ReceiverInv, Enabled;
    RunInv(u, events, states, i);
    var s := states[i];
    OldestIsAcked(u, s);
    if s.acked < |s.receiver.log| {
      FreshAckAdvances(u, s);
    } else if Enabled(u, s, Retransmit(s.sender.flow.peerAck)) {
      ResendingAdvances(u, s, capacity);
    }
  }
}
