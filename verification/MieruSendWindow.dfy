/** The sliding send window of the reliable UDP transport. */
module MieruSendWindow {
  import opened Common
  import opened MieruSequence

  const PACKET_TX_COUNT_LIMIT: nat := 20

  datatype Outstanding = Outstanding(payload: Bytes, attempts: nat)

  /** The fields of the send window that its decisions depend on. */
  datatype Flow = Flow(
    peerAck: U32,
    peerWindow: nat,
    duplicateAcks: nat,
    fastRetransmit: bool,
    recoveryUntil: Option<U32>)

  const INITIAL_FLOW: Flow := Flow(0, 32, 0, false, None)

  /** The keys are exactly the circular interval of `width` numbers from `from` on. */
  ghost predicate Interval(unacked: map<U32, Outstanding>, from: U32, width: nat) {
    forall k: U32 :: k in unacked <==> WrapSub(k, from) < width
  }

  predicate Accepts(peerAck: U32, nextSeq: U32, ack: U32) {
    !(WrapSub(ack, peerAck) >= HALF || (WrapSub(ack, nextSeq) < HALF && ack != nextSeq))
  }

  /** The test accepts exactly the circular range from the last ACK to the next sequence number. */
  lemma AcceptsCircularRange(peerAck: U32, nextSeq: U32, ack: U32)
    requires WrapSub(nextSeq, peerAck) < HALF
    ensures Accepts(peerAck, nextSeq, ack) <==> WrapSub(ack, peerAck) <= WrapSub(nextSeq, peerAck)
  {
  }

  /** On unbounded numbers: of all acknowledgements less than a whole cycle old, and never
      ahead of what was sent, exactly those in [p, n] are accepted. */
  lemma AcceptsUnbounded(p: nat, n: nat, a: nat)
    requires p <= n < p + HALF
    requires a <= n < a + CYCLE
    ensures Accepts(Wire(p), Wire(n), Wire(a)) <==> p <= a
  {
    WireDistance(p, n);
    AcceptsCircularRange(Wire(p), Wire(n), Wire(a));
    if p <= a { WireDistance(p, a); } else { WireDistance(a, p); }
  }

  /** The bound on age is exact: an acknowledgement a whole cycle old passes for a fresh one. */
  lemma WholeCycleOldAckIsAccepted(p: nat, n: nat, a: nat)
    requires p <= n < p + HALF
    requires p <= a + CYCLE <= n
    ensures Accepts(Wire(p), Wire(n), Wire(a))
  {
    assert Wire(a) == Wire(a + CYCLE);
    AcceptsUnbounded(p, n, a + CYCLE);
  }

  predicate Acknowledged(ack: U32, seqNo: U32) {
    0 < WrapSub(ack, seqNo) < HALF
  }

  /** What an ACK leaves outstanding, by a scan over every segment. */
  function Remaining(unacked: map<U32, Outstanding>, ack: U32): map<U32, Outstanding> {
    map k | k in unacked && !Acknowledged(ack, k) :: unacked[k]
  }

  function DuplicateCount(f: Flow, ack: U32, unacked: map<U32, Outstanding>): nat {
    if ack == f.peerAck && ack in unacked then Min(255, f.duplicateAcks + 1) else 0
  }

  predicate FastAfterDuplicate(f: Flow, ack: U32, unacked: map<U32, Outstanding>) {
    ack == f.peerAck && ack in unacked
    && (f.fastRetransmit || (DuplicateCount(f, ack, unacked) == 3 && unacked[ack].attempts == 1))
  }

  predicate RecoveryContinues(f: Flow, ack: U32) {
    f.recoveryUntil.Some? && WrapSub(ack, f.recoveryUntil.value) >= HALF
  }

  predicate ExposesHole(f: Flow, ack: U32, rest: map<U32, Outstanding>) {
    RecoveryContinues(f, ack) && ack != f.peerAck && ack in rest && rest[ack].attempts == 1
  }

  /** The window after an acknowledgement. */
  function AckFlow(f: Flow, ack: U32, window: nat, nextSeq: U32, unacked: map<U32, Outstanding>): Flow {
    if !Accepts(f.peerAck, nextSeq, ack) then f else
    Flow(ack,
         Min(window, MAX_PENDING_SEGMENTS),
         DuplicateCount(f, ack, unacked),
         FastAfterDuplicate(f, ack, unacked) || ExposesHole(f, ack, Remaining(unacked, ack)),
         if RecoveryContinues(f, ack) then f.recoveryUntil else None)
  }

  function AckUnacked(f: Flow, ack: U32, nextSeq: U32, unacked: map<U32, Outstanding>): map<U32, Outstanding> {
    if Accepts(f.peerAck, nextSeq, ack) then Remaining(unacked, ack) else unacked
  }

  function RetransmitFlow(f: Flow, nextSeq: U32): Flow {
    f.(recoveryUntil := if f.recoveryUntil.None? then Some(nextSeq) else f.recoveryUntil,
       fastRetransmit := false)
  }

  predicate CanSend(f: Flow, nextSeq: U32, inFlight: nat, congestionWindow: nat) {
    inFlight < congestionWindow && WrapSub(nextSeq, f.peerAck) < f.peerWindow
  }

  /** What holds of a send window between any two operations. */
  ghost predicate WindowInv(f: Flow, nextSeq: U32, unacked: map<U32, Outstanding>) {
    && f.peerWindow <= MAX_PENDING_SEGMENTS
    && f.duplicateAcks <= 255
    && WrapSub(nextSeq, f.peerAck) <= MAX_PENDING_SEGMENTS
    && Interval(unacked, f.peerAck, WrapSub(nextSeq, f.peerAck))
    // A fast retransmission is only ever due for a hole sent exactly once.
    && (f.fastRetransmit ==> f.peerAck in unacked && unacked[f.peerAck].attempts == 1)
    // The recovery point is ahead of the last ACK and not ahead of what was sent.
    && (f.recoveryUntil.Some? ==> 0 < WrapSub(f.recoveryUntil.value, f.peerAck) <= WrapSub(nextSeq, f.peerAck))
  }

  /** Removing the acknowledged prefix moves the start of the interval to the ACK. */
  lemma RemainingInterval(unacked: map<U32, Outstanding>, from: U32, width: nat, ack: U32)
    requires Interval(unacked, from, width) && width < HALF
    requires WrapSub(ack, from) <= width
    ensures Interval(Remaining(unacked, ack), ack, width - WrapSub(ack, from))
    ensures forall k: U32 :: k in unacked && k !in Remaining(unacked, ack) <==> WrapSub(k, from) < WrapSub(ack, from)
  {
  }

  /** Every acknowledgement, accepted or not, keeps the window invariant; an accepted one
      outlives exactly the segments before it. */
  lemma AckKeepsWindow(f: Flow, ack: U32, window: nat, nextSeq: U32, unacked: map<U32, Outstanding>)
    requires WindowInv(f, nextSeq, unacked)
    ensures WindowInv(AckFlow(f, ack, window, nextSeq, unacked), nextSeq, AckUnacked(f, ack, nextSeq, unacked))
    ensures Accepts(f.peerAck, nextSeq, ack) <==> WrapSub(ack, f.peerAck) <= WrapSub(nextSeq, f.peerAck)
    ensures forall k :: k in unacked && k !in AckUnacked(f, ack, nextSeq, unacked)
                        ==> Accepts(f.peerAck, nextSeq, ack) && WrapSub(k, f.peerAck) < WrapSub(ack, f.peerAck)
  {
    AcceptsCircularRange(f.peerAck, nextSeq, ack);
    if Accepts(f.peerAck, nextSeq, ack) {
      var width := WrapSub(nextSeq, f.peerAck);
      RemainingInterval(unacked, f.peerAck, width, ack);
      WrapSubShift(nextSeq, f.peerAck, ack);
      if f.recoveryUntil.Some? {
        RecoveryPoint(f.recoveryUntil.value, f.peerAck, ack, nextSeq);
      }
    }
  }

  /** The half-circle test on the recovery point means: the ACK has not reached it yet. */
  lemma RecoveryPoint(end: U32, peerAck: U32, ack: U32, nextSeq: U32)
    requires 0 < WrapSub(end, peerAck) <= WrapSub(nextSeq, peerAck) < HALF
    requires WrapSub(ack, peerAck) <= WrapSub(nextSeq, peerAck)
    ensures WrapSub(ack, end) >= HALF <==> WrapSub(ack, peerAck) < WrapSub(end, peerAck)
    ensures WrapSub(ack, end) >= HALF ==> 0 < WrapSub(end, ack) <= WrapSub(nextSeq, ack)
  {
  }

  /** Sending the next segment keeps the window invariant, and so its width bound. */
  lemma SendKeepsWindow(f: Flow, nextSeq: U32, unacked: map<U32, Outstanding>, payload: Bytes, congestionWindow: nat)
    requires WindowInv(f, nextSeq, unacked)
    requires CanSend(f, nextSeq, |unacked|, congestionWindow)
    ensures nextSeq !in unacked
    ensures WindowInv(f, WrapAdd(nextSeq, 1), unacked[nextSeq := Outstanding(payload, 1)])
  {
  }

  /** The segment retransmitted is the one the peer waits for; resending it keeps the invariant. */
  lemma RetransmitKeepsWindow(f: Flow, nextSeq: U32, unacked: map<U32, Outstanding>, oldest: U32)
    requires WindowInv(f, nextSeq, unacked)
    requires oldest in unacked
    requires forall j :: j in unacked ==> WrapSub(oldest, f.peerAck) <= WrapSub(j, f.peerAck)
    ensures oldest == f.peerAck
    ensures WindowInv(RetransmitFlow(f, nextSeq), nextSeq,
                      unacked[oldest := unacked[oldest].(attempts := unacked[oldest].attempts + 1)])
  {
    assert f.peerAck in unacked;
    var after := unacked[oldest := unacked[oldest].(attempts := unacked[oldest].attempts + 1)];
    assert after.Keys == unacked.Keys;
  }

  /** The least element of a nonempty key set. */
  method LeastKey(keys: set<U32>) returns (least: U32)
    requires keys != {}
    ensures least in keys && forall j :: j in keys ==> least <= j
  {
    least :| least in keys;
    var rest := keys - {least};
    while rest != {}
      invariant rest <= keys && least in keys
      invariant forall j :: j in keys ==> j in rest || least <= j
      decreases rest
    {
      var k :| k in rest;
      if k < least {
        least := k;
      }
      rest := rest - {k};
    }
  }

  /** The first key at or after `from` in key order, or else the first key of all. Whatever
      the keys are, it is the one nearest to `from` going round the circle. */
  method OldestSeq(keys: set<U32>, from: U32) returns (oldest: Option<U32>)
    ensures oldest.None? <==> keys == {}
    ensures oldest.Some? ==> oldest.value in keys
                             && forall j :: j in keys ==> WrapSub(oldest.value, from) <= WrapSub(j, from)
  {
    var upper := set k | k in keys && from <= k;
    if upper != {} {
      var k := LeastKey(upper);
      assert forall j :: j in keys ==> j in upper || j < from;
      oldest := Some(k);
    } else if keys != {} {
      var k := LeastKey(keys);
      assert forall j :: j in keys ==> j !in upper;
      oldest := Some(k);
    } else {
      oldest := None;
    }
  }

  class PacketSendWindow {
    var peerAck: U32
    var peerWindow: nat
    var duplicateAcks: nat
    var fastRetransmit: bool
    var recoveryUntil: Option<U32>

    constructor ()
      ensures View() == INITIAL_FLOW
    {
      peerAck, peerWindow, duplicateAcks, fastRetransmit, recoveryUntil := 0, 32, 0, false, None;
    }

    function View(): Flow
      reads this
    {
      Flow(peerAck, peerWindow, duplicateAcks, fastRetransmit, recoveryUntil)
    }

    /** Removes acknowledged segments from the front, one at a time, instead of scanning them all. */
    method Ack(ack: U32, window: nat, nextSeq: U32, unacked: map<U32, Outstanding>)
      returns (acknowledged: nat, rest: map<U32, Outstanding>)
      requires WindowInv(View(), nextSeq, unacked)
      modifies this
      ensures View() == AckFlow(old(View()), ack, window, nextSeq, unacked)
      ensures rest == AckUnacked(old(View()), ack, nextSeq, unacked)
      ensures acknowledged == if Accepts(old(peerAck), nextSeq, ack) then WrapSub(ack, old(peerAck)) else 0
      ensures WindowInv(View(), nextSeq, rest)
    {
      AckKeepsWindow(View(), ack, window, nextSeq, unacked);
      acknowledged, rest := 0, unacked;
      var advance := WrapSub(ack, peerAck);
      if advance >= HALF || (WrapSub(ack, nextSeq) < HALF && ack != nextSeq) {
        return;
      }
      peerWindow := Min(window, MAX_PENDING_SEGMENTS);
      if advance == 0 && ack in unacked {
        duplicateAcks := Min(255, duplicateAcks + 1);
        if duplicateAcks == 3 && unacked[ack].attempts == 1 {
          fastRetransmit := true;
        }
      } else {
        duplicateAcks := 0;
        fastRetransmit := false;
      }
      acknowledged, rest := RemovePrefix(ack, peerAck, WrapSub(nextSeq, peerAck), unacked);
      peerAck := ack;
      if recoveryUntil.Some? {
        if WrapSub(ack, recoveryUntil.value) < HALF {
          recoveryUntil := None;
        } else if advance > 0 && ack in rest && rest[ack].attempts == 1 {
          fastRetransmit := true;
        }
      }
    }

    method OnRetransmit(nextSeq: U32)
      modifies this
      ensures View() == RetransmitFlow(old(View()), nextSeq)
    {
      if recoveryUntil.None? {
        recoveryUntil := Some(nextSeq);
      }
      fastRetransmit := false;
    }
  }

  /** The prefix removal loop: it agrees with the scan, and counts what it removes. */
  method RemovePrefix(ack: U32, peerAck: U32, ghost width: nat, unacked: map<U32, Outstanding>)
    returns (acknowledged: nat, rest: map<U32, Outstanding>)
    requires Interval(unacked, peerAck, width) && width < HALF
    requires WrapSub(ack, peerAck) <= width
    ensures acknowledged == WrapSub(ack, peerAck)
    ensures rest == Remaining(unacked, ack)
  {
    acknowledged, rest := 0, unacked;
    ghost var a := WrapSub(ack, peerAck);
    RemainingInterval(unacked, peerAck, width, ack);
    while true
      invariant acknowledged <= a
      invariant forall k: U32 :: k in rest <==> acknowledged <= WrapSub(k, peerAck) < width
      invariant forall k :: k in rest ==> rest[k] == unacked[k]
      decreases a - acknowledged
    {
      var oldest := OldestSeq(rest.Keys, peerAck);
      if oldest.None? {
        assert acknowledged < width ==> WrapAdd(peerAck, acknowledged) in rest;
        break;
      }
      assert WrapAdd(peerAck, acknowledged) in rest;
      assert WrapSub(oldest.value, peerAck) == acknowledged;
      if WrapSub(ack, oldest.value) == 0 || WrapSub(ack, oldest.value) >= HALF {
        break;
      }
      rest := rest - {oldest.value};
      acknowledged := acknowledged + 1;
    }
    assert acknowledged == a;
    assert forall k :: k in rest <==> k in Remaining(unacked, ack);
  }
}
