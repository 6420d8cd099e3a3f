/** The receiving half of a reliable session: reorder map, byte budget and advertised window. */
module MieruReceiver {
  import opened Common
  import opened MieruSequence

  const SESSION_RECEIVE_BYTES: nat := 1024 * 1024
  const ACK_WINDOW_SIZE: nat := MAX_PENDING_SEGMENTS
  const MAX_PDU: nat := 32 * 1024
  const PACKET_OVERHEAD: nat := 24 + 32 + 16 + 16
  const AEAD_OVERHEAD: nat := 16
  const LARGEST_HEAD: nat := 0xFFFF + AEAD_OVERHEAD

  /** A payload together with the permits it holds. */
  datatype Received = Received(payload: Bytes, permits: nat)

  /** Per-item bookkeeping cost (it depends on the target) and the transfer unit of the path. */
  datatype Config = Config(itemOverhead: nat, mtu: nat)

  predicate ValidConfig(c: Config) {
    Headroom(c) <= SESSION_RECEIVE_BYTES
  }

  function Headroom(c: Config): nat {
    LARGEST_HEAD + c.itemOverhead
  }

  function PacketSize(c: Config): nat
    ensures PacketSize(c) > 0
  {
    var room := if c.mtu >= PACKET_OVERHEAD then c.mtu - PACKET_OVERHEAD else 0;
    (if room < 1 then 1 else Min(room, MAX_PDU)) + AEAD_OVERHEAD + c.itemOverhead
  }

  /** `log` is the history of payloads in delivery order, `lastAdvert` the last window told
      to the peer, `ackQueued` whether an acknowledgement is waiting to be sent. */
  datatype Receiver = Receiver(
    nextSeq: U32,
    pending: map<U32, Received>,
    available: nat,
    inbound: seq<Received>,
    reading: Option<Received>,
    window: nat,
    unAckSeq: U32,
    ackQueued: bool,
    lastAdvert: nat,
    log: seq<Bytes>)

  /** How many whole packets of a size fit: the quotient, see PacketsInIsQuotient. */
  function PacketsIn(available: nat, size: nat): nat
    requires size > 0
  {
    if available < size then 0 else 1 + PacketsIn(available - size, size)
  }

  lemma {:induction false} PacketsInIsQuotient(available: nat, size: nat)
    requires size > 0
    ensures PacketsIn(available, size) * size <= available < PacketsIn(available, size) * size + size
  {
    if available >= size {
      PacketsInIsQuotient(available - size, size);
      var q := PacketsIn(available - size, size);
      assert (1 + q) * size == size + q * size;
    }
  }

  function WindowOf(c: Config, available: nat, reordered: nat): nat {
    Min(PacketsIn(available, PacketSize(c)), if reordered <= ACK_WINDOW_SIZE then ACK_WINDOW_SIZE - reordered else 0)
  }

  /** A window of packets of some size: they fit the free bytes and, with the reordered ones, the window
      size, and one more would not. */
  predicate TellsRoom(size: nat, available: nat, reordered: nat, window: nat) {
    && window * size <= available
    && (window == 0 || window + reordered <= ACK_WINDOW_SIZE)
    && (window + reordered >= ACK_WINDOW_SIZE || available < (window + 1) * size)
  }

  lemma WindowIsRoom(c: Config, available: nat, reordered: nat)
    ensures TellsRoom(PacketSize(c), available, reordered, WindowOf(c, available, reordered))
  {
    hide PacketSize, PacketsIn;
    var size, w := PacketSize(c), WindowOf(c, available, reordered);
    var q := PacketsIn(available, size);
    PacketsInIsQuotient(available, size);
    assert (q + 1) * size == q * size + size;
    MulMonotone(w, q, size);
  }

  function Initial(c: Config): Receiver {
    var w := WindowOf(c, SESSION_RECEIVE_BYTES, 0);
    Receiver(0, map[], SESSION_RECEIVE_BYTES, [], None, w, 0, false, 32, [])
  }

  function Refresh(c: Config, r: Receiver): Receiver {
    r.(window := WindowOf(c, r.available, |r.pending|))
  }

  /** The permits a payload gets, if any. The sum is taken in 32 bits. */
  function ReservePacket(c: Config, available: nat, capacity: nat, reordered: bool): (permits: Option<nat>)
    ensures permits.Some? ==> permits.value <= available
  {
    var bytes := capacity + c.itemOverhead;
    if bytes >= CYCLE then None else
    var total := (bytes + (if reordered then Headroom(c) else 0)) % CYCLE;
    if total <= available && bytes <= total then Some(bytes) else None
  }

  /** Wrap-around never lets a payload through: within the session budget a reservation
      succeeds exactly when the payload and the headroom both fit. */
  lemma ReserveExact(c: Config, available: nat, capacity: nat, reordered: bool)
    requires ValidConfig(c) && available <= SESSION_RECEIVE_BYTES
    ensures ReservePacket(c, available, capacity, reordered).Some?
            <==> capacity + c.itemOverhead + (if reordered then Headroom(c) else 0) <= available
    ensures ReservePacket(c, available, capacity, reordered).Some?
            ==> ReservePacket(c, available, capacity, reordered).value == capacity + c.itemOverhead
  {
  }

  function Deliver(r: Receiver, item: Received): Receiver {
    var r1 := r.(nextSeq := WrapAdd(r.nextSeq, 1), log := r.log + [item.payload]);
    if item.payload == [] then r1.(available := r.available + item.permits)
    else r1.(inbound := r.inbound + [item])
  }

  function Drain(r: Receiver): Receiver
    decreases |r.pending|
  {
    if r.nextSeq in r.pending then
      var item := r.pending[r.nextSeq];
      ShrinkMap(r.pending, r.nextSeq);
      Drain(Deliver(r.(pending := r.pending - {r.nextSeq}), item))
    else r
  }

  lemma ShrinkMap(m: map<U32, Received>, k: U32)
    requires k in m
    ensures |m - {k}| == |m| - 1
  {
  }

  /** What an arriving segment with its permits does: deliver, buffer or nothing. */
  function Place(r: Receiver, seqNo: U32, payload: Bytes, permits: nat): Receiver
    requires permits <= r.available
  {
    if seqNo == r.nextSeq then
      Drain(Deliver(r.(available := r.available - permits), Received(payload, permits)))
    else if WrapSub(seqNo, r.nextSeq) < MAX_PENDING_SEGMENTS && seqNo !in r.pending then
      r.(available := r.available - permits, pending := r.pending[seqNo := Received(payload, permits)])
    else r
  }

  function Admit(c: Config, r: Receiver, seqNo: U32, payload: Bytes, capacity: nat): Receiver {
    match ReservePacket(c, r.available, capacity, seqNo != r.nextSeq)
    case Some(permits) => Place(r, seqNo, payload, permits)
    case None => r
  }

  /** One arriving segment. */
  function Route(c: Config, r: Receiver, seqNo: U32, payload: Bytes, capacity: nat): Receiver {
    var r1 := Admit(c, r, seqNo, payload, capacity);
    Refresh(c, r1).(unAckSeq := r1.nextSeq, ackQueued := true)
  }

  /** The reader gives the permits of a payload back once it is read out. */
  function Release(c: Config, r: Receiver, permits: nat): Receiver {
    var r1 := Refresh(c, r.(reading := None, available := r.available + permits));
    if r.window == 0 && r1.window > 0 then r1.(ackQueued := true) else r1
  }

  function NextPayload(r: Receiver): Receiver {
    if r.reading.None? && r.inbound != [] then r.(reading := Some(r.inbound[0]), inbound := r.inbound[1..]) else r
  }

  /** At most `limit` bytes are read; `Taken` says which. */
  function Taken(r: Receiver, limit: nat): Bytes {
    var r1 := NextPayload(r);
    if r1.reading.Some? then r1.reading.value.payload[..Min(limit, |r1.reading.value.payload|)] else []
  }

  function Read(c: Config, r: Receiver, limit: nat): Receiver {
    var r1 := NextPayload(r);
    if r1.reading.None? then r1 else
    var item := r1.reading.value;
    var n := Min(limit, |item.payload|);
    if n == |item.payload| then Release(c, r1, item.permits)
    else r1.(reading := Some(Received(item.payload[n..], item.permits)))
  }

  /** Sending an acknowledgement, alone or on a data segment, tells the peer the window. */
  function Advertise(c: Config, r: Receiver): Receiver {
    var r1 := Refresh(c, r);
    r1.(ackQueued := false, lastAdvert := r1.window)
  }

  // ---- permits

  ghost function Held(pending: map<U32, Received>): nat
    decreases |pending|
  {
    if pending == map[] then 0 else
    var k :| k in pending;
    ShrinkMap(pending, k);
    pending[k].permits + Held(pending - {k})
  }

  lemma {:induction false} HeldRemove(pending: map<U32, Received>, k: U32)
    requires k in pending
    ensures Held(pending) == pending[k].permits + Held(pending - {k})
    decreases |pending|
  {
    var j :| j in pending && Held(pending) == pending[j].permits + Held(pending - {j});
    if j != k {
      ShrinkMap(pending, j);
      HeldRemove(pending - {j}, k);
      ShrinkMap(pending, k);
      HeldRemove(pending - {k}, j);
      assert pending - {j} - {k} == pending - {k} - {j};
    }
  }

  lemma HeldInsert(pending: map<U32, Received>, k: U32, item: Received)
    requires k !in pending
    ensures Held(pending[k := item]) == Held(pending) + item.permits
  {
    HeldRemove(pending[k := item], k);
    assert pending[k := item] - {k} == pending;
  }

  function HeldByQueue(items: seq<Received>): nat {
    if items == [] then 0 else items[0].permits + HeldByQueue(items[1..])
  }

  lemma {:induction false} HeldByQueueSnoc(items: seq<Received>, item: Received)
    ensures HeldByQueue(items + [item]) == HeldByQueue(items) + item.permits
  {
    if items == [] {
      assert items + [item] == [item];
    } else {
      assert (items + [item])[1..] == items[1..] + [item];
      HeldByQueueSnoc(items[1..], item);
    }
  }

  function HeldByReader(r: Receiver): nat {
    if r.reading.Some? then r.reading.value.permits else 0
  }

  ghost function Permits(r: Receiver): nat {
    r.available + Held(r.pending) + HeldByQueue(r.inbound) + HeldByReader(r)
  }

  // ---- invariant

  /** The reorder keys lie strictly between the head and the end of the receive window. */
  ghost predicate InWindow(r: Receiver) {
    forall k :: k in r.pending ==> 0 < WrapSub(k, r.nextSeq) < MAX_PENDING_SEGMENTS
  }

  predicate NoEmptyPayload(r: Receiver) {
    && (forall i :: 0 <= i < |r.inbound| ==> r.inbound[i].payload != [])
    && (r.reading.Some? ==> r.reading.value.payload != [])
  }

  ghost predicate BudgetInv(c: Config, r: Receiver) {
    && Permits(r) == SESSION_RECEIVE_BYTES
    && Held(r.pending) + Headroom(c) <= SESSION_RECEIVE_BYTES
  }

  ghost predicate BufferInv(c: Config, r: Receiver) {
    BudgetInv(c, r) && InWindow(r) && NoEmptyPayload(r)
  }

  ghost predicate ReceiverInv(c: Config, r: Receiver) {
    && BufferInv(c, r)
    && r.unAckSeq == r.nextSeq
    // The stored window is never stale.
    && r.window == WindowOf(c, r.available, |r.pending|)
    // A window last told to be closed does not reopen without an acknowledgement on its way.
    && (r.lastAdvert == 0 && r.window > 0 ==> r.ackQueued)
  }

  /** Delivering moves permits between holders and creates none. */
  lemma DeliverPermits(r: Receiver, item: Received)
    ensures Permits(Deliver(r, item)) == Permits(r) + item.permits
  {
    HeldByQueueSnoc(r.inbound, item);
  }

  /** Draining conserves the permits, only shrinks the reorder map, delivers the buffered run
      in sequence order, and stops at the next hole. */
  lemma {:induction false} DrainFacts(r: Receiver)
    requires forall k :: k in r.pending ==> WrapSub(k, r.nextSeq) < MAX_PENDING_SEGMENTS
    requires NoEmptyPayload(r)
    ensures Permits(Drain(r)) == Permits(r)
    ensures Held(Drain(r).pending) <= Held(r.pending)
    ensures InWindow(Drain(r)) && NoEmptyPayload(Drain(r))
    ensures Drain(r).nextSeq !in Drain(r).pending
    ensures r.log <= Drain(r).log
    ensures Drain(r).reading == r.reading && Drain(r).lastAdvert == r.lastAdvert
    decreases |r.pending|
  {
    if r.nextSeq in r.pending {
      var item := r.pending[r.nextSeq];
      ShrinkMap(r.pending, r.nextSeq);
      HeldRemove(r.pending, r.nextSeq);
      var r0 := r.(pending := r.pending - {r.nextSeq});
      DeliverPermits(r0, item);
      var r1 := Deliver(r0, item);
      forall k | k in r1.pending ensures WrapSub(k, r1.nextSeq) < MAX_PENDING_SEGMENTS {
        assert WrapSub(k, r.nextSeq) >= 1;
      }
      DrainFacts(r1);
    }
  }

  /** Draining delivers exactly the buffered run: what it reaches is delivered at its place, and what it
      does not reach stays as it is. */
  lemma {:induction false} DrainExact(r: Receiver)
    requires forall k :: k in r.pending ==> WrapSub(k, r.nextSeq) < MAX_PENDING_SEGMENTS
    ensures r.log <= Drain(r).log && Drain(r).pending.Keys <= r.pending.Keys
    ensures forall k :: k in r.pending ==>
              Placed(Drain(r), |r.log| + WrapSub(k, r.nextSeq), k, r.pending[k])
    decreases |r.pending|
  {
    hide Placed;
    if r.nextSeq in r.pending {
      var item := r.pending[r.nextSeq];
      ShrinkMap(r.pending, r.nextSeq);
      var r1 := Deliver(r.(pending := r.pending - {r.nextSeq}), item);
      forall k | k in r1.pending
        ensures WrapSub(k, r1.nextSeq) < MAX_PENDING_SEGMENTS
        ensures |r1.log| + WrapSub(k, r1.nextSeq) == |r.log| + WrapSub(k, r.nextSeq)
      {
        assert WrapSub(k, r.nextSeq) >= 1;
      }
      DrainExact(r1);
      forall k | k in r.pending ensures Placed(Drain(r), |r.log| + WrapSub(k, r.nextSeq), k, r.pending[k]) {
        if k == r.nextSeq { DeliveredPlaced(Drain(r), |r.log|, k, item); } else { assert k in r1.pending; }
      }
    } else {
      forall k | k in r.pending ensures Placed(r, |r.log| + WrapSub(k, r.nextSeq), k, r.pending[k]) {
        WaitingPlaced(r, |r.log| + WrapSub(k, r.nextSeq), k, r.pending[k]);
      }
    }
  }

  /** A segment that belongs at a place of the log is there, or waits for its turn. */
  predicate Placed(r: Receiver, at: nat, k: U32, item: Received) {
    if at < |r.log| then r.log[at] == item.payload && k !in r.pending
    else k in r.pending && r.pending[k] == item
  }

  lemma DeliveredPlaced(r: Receiver, at: nat, k: U32, item: Received)
    requires at < |r.log| && r.log[at] == item.payload && k !in r.pending
    ensures Placed(r, at, k, item)
  {
  }

  lemma WaitingPlaced(r: Receiver, at: nat, k: U32, item: Received)
    requires at >= |r.log| && k in r.pending && r.pending[k] == item
    ensures Placed(r, at, k, item)
  {
  }

  /** Everything but what goes with an acknowledgement is as it was. */
  predicate SameBuffers(r: Receiver, r1: Receiver) {
    && r1.log == r.log && r1.nextSeq == r.nextSeq && r1.pending == r.pending && r1.available == r.available
    && r1.inbound == r.inbound && r1.reading == r.reading
  }

  /** What each arriving segment does, by numbers. The one that is due is delivered, with every buffered
      one that follows it without a gap, exactly if it fits the free bytes; one ahead of it in the
      window that is not there yet is buffered exactly if it leaves the headroom; and any other,
      like one that does not fit, changes nothing. An acknowledgement is queued every time. */
  lemma RouteExactly(c: Config, r: Receiver, seqNo: U32, payload: Bytes, capacity: nat)
    requires ValidConfig(c) && ReceiverInv(c, r)
    ensures var r1 := Route(c, r, seqNo, payload, capacity);
            var cost, ahead := capacity + c.itemOverhead, WrapSub(seqNo, r.nextSeq);
            && r1.ackQueued && r1.unAckSeq == r1.nextSeq
            && (ahead == 0 && cost <= r.available ==>
                  && r.log + [payload] <= r1.log && r1.pending.Keys <= r.pending.Keys && r1.nextSeq !in r1.pending
                  && forall k :: k in r.pending ==> Placed(r1, |r.log| + WrapSub(k, r.nextSeq), k, r.pending[k]))
            && (0 < ahead < MAX_PENDING_SEGMENTS && seqNo !in r.pending
                && cost + LARGEST_HEAD + c.itemOverhead <= r.available ==>
                  && SameBuffers(r.(pending := r1.pending, available := r.available - cost), r1)
                  && r1.pending == r.pending[seqNo := Received(payload, cost)])
            && (ahead == 0 && cost > r.available ==> SameBuffers(r, r1))
            && (ahead > 0 && cost + LARGEST_HEAD + c.itemOverhead > r.available ==> SameBuffers(r, r1))
            && (ahead >= MAX_PENDING_SEGMENTS || seqNo in r.pending ==> SameBuffers(r, r1))
  {
    hide WindowOf, ReservePacket, Drain, Placed, Held, HeldByQueue;
    ReserveExact(c, r.available, capacity, seqNo != r.nextSeq);
    var cost := capacity + c.itemOverhead;
    if seqNo == r.nextSeq && cost <= r.available {
      HeadExact(c, r, payload, cost);
      SamePlaces(Admit(c, r, seqNo, payload, capacity), Route(c, r, seqNo, payload, capacity));
    }
  }

  lemma SamePlaces(r: Receiver, r1: Receiver)
    requires r1.log == r.log && r1.pending == r.pending
    ensures forall at, k, item :: Placed(r, at, k, item) <==> Placed(r1, at, k, item)
  {
  }

  lemma HeadExact(c: Config, r: Receiver, payload: Bytes, permits: nat)
    requires BufferInv(c, r) && permits <= r.available
    ensures var r1 := Drain(Deliver(r.(available := r.available - permits), Received(payload, permits)));
            && r.log + [payload] <= r1.log && r1.pending.Keys <= r.pending.Keys && r1.nextSeq !in r1.pending
            && forall k :: k in r.pending ==> Placed(r1, |r.log| + WrapSub(k, r.nextSeq), k, r.pending[k])
  {
    hide Placed, Drain;
    AdmitHead(c, r, payload, permits);
    var r0 := Deliver(r.(available := r.available - permits), Received(payload, permits));
    forall k | k in r.pending
      ensures WrapSub(k, r0.nextSeq) < MAX_PENDING_SEGMENTS
      ensures |r0.log| + WrapSub(k, r0.nextSeq) == |r.log| + WrapSub(k, r.nextSeq)
    {
      assert 0 < WrapSub(k, r.nextSeq);
    }
    DrainExact(r0);
  }

  lemma AdmitHead(c: Config, r: Receiver, payload: Bytes, permits: nat)
    requires BufferInv(c, r) && permits <= r.available
    ensures var r1 := Drain(Deliver(r.(available := r.available - permits), Received(payload, permits)));
            BufferInv(c, r1) && r.log + [payload] <= r1.log
            && r1.nextSeq !in r1.pending && r1.lastAdvert == r.lastAdvert
  {
    var r0 := r.(available := r.available - permits);
    assert Permits(r0) + permits == Permits(r);
    DeliverPermits(r0, Received(payload, permits));
    var r1 := Deliver(r0, Received(payload, permits));
    assert r1.pending == r.pending;
    forall k | k in r1.pending ensures WrapSub(k, r1.nextSeq) < MAX_PENDING_SEGMENTS {
      assert 0 < WrapSub(k, r.nextSeq);
    }
    DrainFacts(r1);
  }

  lemma AdmitReordered(c: Config, r: Receiver, seqNo: U32, payload: Bytes, permits: nat)
    requires BufferInv(c, r) && permits + Headroom(c) <= r.available
    requires seqNo !in r.pending && 0 < WrapSub(seqNo, r.nextSeq) < MAX_PENDING_SEGMENTS
    ensures var r1 := r.(available := r.available - permits, pending := r.pending[seqNo := Received(payload, permits)]);
            BufferInv(c, r1)
  {
    HeldInsert(r.pending, seqNo, Received(payload, permits));
  }

  lemma PlaceBudget(c: Config, r: Receiver, seqNo: U32, payload: Bytes, permits: nat)
    requires BufferInv(c, r) && permits <= r.available
    requires seqNo != r.nextSeq ==> permits + Headroom(c) <= r.available
    ensures BufferInv(c, Place(r, seqNo, payload, permits))
    ensures r.log <= Place(r, seqNo, payload, permits).log
    ensures Place(r, seqNo, payload, permits).lastAdvert == r.lastAdvert
  {
    if seqNo == r.nextSeq {
      AdmitHead(c, r, payload, permits);
    } else if WrapSub(seqNo, r.nextSeq) < MAX_PENDING_SEGMENTS && seqNo !in r.pending {
      AdmitReordered(c, r, seqNo, payload, permits);
    }
  }

  lemma AdmitBudget(c: Config, r: Receiver, seqNo: U32, payload: Bytes, capacity: nat)
    requires ValidConfig(c) && BufferInv(c, r)
    ensures var r1 := Admit(c, r, seqNo, payload, capacity);
            BufferInv(c, r1) && r.log <= r1.log && r1.lastAdvert == r.lastAdvert
  {
    ReserveExact(c, r.available, capacity, seqNo != r.nextSeq);
    var permits := ReservePacket(c, r.available, capacity, seqNo != r.nextSeq);
    if permits.Some? {
      PlaceBudget(c, r, seqNo, payload, permits.value);
    }
  }

  /** Every arriving segment keeps the invariant. */
  lemma RouteKeepsInv(c: Config, r: Receiver, seqNo: U32, payload: Bytes, capacity: nat)
    requires ValidConfig(c) && ReceiverInv(c, r)
    ensures ReceiverInv(c, Route(c, r, seqNo, payload, capacity))
  {
    AdmitBudget(c, r, seqNo, payload, capacity);
  }

  lemma NextPayloadPermits(r: Receiver)
    requires NoEmptyPayload(r)
    ensures Permits(NextPayload(r)) == Permits(r) && NoEmptyPayload(NextPayload(r))
  {
  }

  lemma ReleasePermits(c: Config, r: Receiver)
    requires r.reading.Some?
    ensures Permits(Release(c, r, r.reading.value.permits)) == Permits(r)
  {
  }

  /** Every read keeps the invariant. */
  lemma ReadKeepsInv(c: Config, r: Receiver, limit: nat)
    requires ReceiverInv(c, r)
    ensures ReceiverInv(c, Read(c, r, limit))
  {
    NextPayloadPermits(r);
    var r1 := NextPayload(r);
    if r1.reading.Some? {
      ReleasePermits(c, r1);
      var item := r1.reading.value;
      var n := Min(limit, |item.payload|);
      var r2 := r1.(reading := Some(Received(item.payload[n..], item.permits)));
      assert Permits(r2) == Permits(r1);
    }
  }

  lemma AdvertiseKeepsInv(c: Config, r: Receiver)
    requires ValidConfig(c) && ReceiverInv(c, r)
    ensures ReceiverInv(c, Advertise(c, r))
  {
  }

  /** No reorder deadlock: however much is buffered out of order, once the reader has drained,
      the missing head packet is accepted and delivered, up to the next hole. */
  lemma HeadAlwaysAccepted(c: Config, r: Receiver, payload: Bytes, capacity: nat)
    requires ValidConfig(c) && ReceiverInv(c, r)
    requires r.inbound == [] && r.reading.None?
    requires capacity <= LARGEST_HEAD
    ensures var r1 := Route(c, r, r.nextSeq, payload, capacity);
            && r.log + [payload] <= r1.log
            && r1.unAckSeq == r1.nextSeq && r1.nextSeq !in r1.pending
  {
    hide BufferInv, ReservePacket, Drain, Deliver, WindowOf;
    HeadHasRoom(c, r, capacity);
    ReserveExact(c, r.available, capacity, false);
    AdmitHead(c, r, payload, capacity + c.itemOverhead);
  }

  lemma HeadHasRoom(c: Config, r: Receiver, capacity: nat)
    requires ValidConfig(c) && BufferInv(c, r) && r.inbound == [] && r.reading.None? && capacity <= LARGEST_HEAD
    ensures capacity + c.itemOverhead <= r.available <= SESSION_RECEIVE_BYTES
  {
  }

  class SessionReceiver {
    const config: Config
    var nextSeq: U32
    var pending: map<U32, Received>
    var available: nat
    var inbound: seq<Received>
    var reading: Option<Received>
    var window: nat
    var unAckSeq: U32
    var ackQueued: bool
    ghost var lastAdvert: nat
    ghost var log: seq<Bytes>

    ghost function View(): Receiver
      reads this
    {
      Receiver(nextSeq, pending, available, inbound, reading, window, unAckSeq, ackQueued, lastAdvert, log)
    }

    ghost predicate Valid()
      reads this
    {
      ValidConfig(config) && ReceiverInv(config, View())
    }

    constructor (c: Config)
      requires ValidConfig(c)
      ensures Valid() && config == c && View() == Initial(c)
    {
      config := c;
      nextSeq, pending, available, inbound, reading := 0, map[], SESSION_RECEIVE_BYTES, [], None;
      window, unAckSeq, ackQueued := WindowOf(c, SESSION_RECEIVE_BYTES, 0), 0, false;
      lastAdvert, log := 32, [];
    }

    method DeliverPayload(item: Received)
      modifies this`nextSeq, this`available, this`inbound, this`log
      ensures View() == Deliver(old(View()), item)
    {
      if item.payload == [] {
        available := available + item.permits;
      } else {
        inbound := inbound + [item];
      }
      log := log + [item.payload];
      nextSeq := WrapAdd(nextSeq, 1);
    }

    /** Delivers the head segment and then the buffered run that follows it. */
    method DeliverRun(item: Received)
      requires InWindow(View())
      modifies this`nextSeq, this`pending, this`available, this`inbound, this`log
      ensures View() == Drain(Deliver(old(View()), item))
      ensures nextSeq != old(nextSeq)
    {
      ghost var start, before := nextSeq, pending;
      DeliverPayload(item);
      ghost var delivered := View();
      while nextSeq in pending
        invariant Drain(View()) == Drain(delivered)
        invariant InRun(nextSeq, start, pending, before)
        decreases |pending|
      {
        var head := pending[nextSeq];
        ShrinkMap(pending, nextSeq);
        RunAdvances(nextSeq, start, pending, before);
        pending := pending - {nextSeq};
        DeliverPayload(head);
      }
    }

    method AdmitSegment(seqNo: U32, payload: Bytes, capacity: nat) returns (immediate: bool)
      requires ValidConfig(config) && InWindow(View()) && available <= SESSION_RECEIVE_BYTES
      modifies this`nextSeq, this`pending, this`available, this`inbound, this`log
      ensures View() == Admit(config, old(View()), seqNo, payload, capacity)
      ensures !immediate <==> seqNo == old(nextSeq) && nextSeq != old(nextSeq)
    {
      immediate := seqNo != nextSeq;
      ReserveExact(config, available, capacity, immediate);
      var permits := ReservePacket(config, available, capacity, immediate);
      if seqNo == nextSeq {
        if permits.Some? {
          available := available - permits.value;
          DeliverRun(Received(payload, permits.value));
        } else {
          immediate := true;
        }
      } else if WrapSub(seqNo, nextSeq) < MAX_PENDING_SEGMENTS {
        if seqNo !in pending && permits.Some? {
          available := available - permits.value;
          pending := pending[seqNo := Received(payload, permits.value)];
        }
      }
    }

    /** A segment arrives: deliver it and everything it releases, buffer it, or drop it. */
    method RouteSegment(seqNo: U32, payload: Bytes, capacity: nat) returns (immediate: bool)
      requires Valid()
      modifies this
      ensures Valid() && View() == Route(config, old(View()), seqNo, payload, capacity)
      ensures !immediate <==> seqNo == old(nextSeq) && nextSeq != old(nextSeq)
    {
      RouteKeepsInv(config, View(), seqNo, payload, capacity);
      immediate := AdmitSegment(seqNo, payload, capacity);
      window := WindowOf(config, available, |pending|);
      unAckSeq := nextSeq;
      ackQueued := true;
    }

    method TakeBytes(limit: nat) returns (data: Bytes)
      modifies this`reading, this`inbound, this`available, this`window, this`ackQueued
      ensures View() == Read(config, old(View()), limit)
      ensures data == Taken(old(View()), limit)
    {
      data := [];
      if reading.None? && inbound != [] {
        reading, inbound := Some(inbound[0]), inbound[1..];
      }
      if reading.Some? {
        var item := reading.value;
        var n := Min(limit, |item.payload|);
        data := item.payload[..n];
        if n == |item.payload| {
          reading := None;
          available := available + item.permits;
          var previous := window;
          window := WindowOf(config, available, |pending|);
          if previous == 0 && window > 0 {
            ackQueued := true;
          }
        } else {
          reading := Some(Received(item.payload[n..], item.permits));
        }
      }
    }

    /** Reads at most `limit` bytes and frees the payload's permits when it is read out. */
    method ReadSome(limit: nat) returns (data: Bytes)
      requires Valid()
      modifies this
      ensures Valid() && View() == Read(config, old(View()), limit)
      ensures data == Taken(old(View()), limit)
    {
      ReadKeepsInv(config, View(), limit);
      data := TakeBytes(limit);
    }
  }

  /** During a drain the head has advanced by at most the window, over buffered segments. */
  ghost predicate InRun(nextSeq: U32, start: U32, pending: map<U32, Received>, before: map<U32, Received>) {
    && 1 <= WrapSub(nextSeq, start) <= MAX_PENDING_SEGMENTS
    && (forall k :: k in pending ==> k in before)
    && (forall k :: k in before ==> 0 < WrapSub(k, start) < MAX_PENDING_SEGMENTS)
  }

  lemma RunAdvances(nextSeq: U32, start: U32, pending: map<U32, Received>, before: map<U32, Received>)
    requires InRun(nextSeq, start, pending, before) && nextSeq in pending
    ensures InRun(WrapAdd(nextSeq, 1), start, pending - {nextSeq}, before)
  {
  }
}
