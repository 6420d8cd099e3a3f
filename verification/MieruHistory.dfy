/**
  What a Mieru sender does, told by the history of its session alone: which packets were sent and which
  acknowledgements came, on unbounded numbers. The circular arithmetic and the fields of the send
  window do not appear in the telling; that they amount to it is proved for every run.
*/
module MieruHistory {
  import opened Common
  import opened MieruSequence
  import opened MieruSendWindow
  import opened MieruTransport
  import R = MieruReceiver

  const FIRST_WINDOW: nat := 32
  const REPEATS_FOR_LOSS: nat := 3

  /** An acknowledgement counts unless it is older than the last that counted. */
  predicate CountsAck(s: State, e: Event) {
    e.ReceiveAck? && s.acked <= e.ackPacket.index
  }

  /** An acknowledgement that asks again for a segment that is out. */
  predicate Repeats(s: State, e: Event) {
    e.ReceiveAck? && s.acked == e.ackPacket.index < |s.sent|
  }

  /** An acknowledgement that goes further, but not as far as what was sent. */
  predicate Partial(s: State, e: Event) {
    e.ReceiveAck? && s.acked < e.ackPacket.index < |s.sent|
  }

  ghost predicate Shaped(events: seq<Event>, states: seq<State>, i: nat) {
    |states| == |events| + 1 && i < |states|
  }

  /** The window told by the last acknowledgement that counts. */
  ghost function LastWindow(events: seq<Event>, states: seq<State>, i: nat): nat
    requires Shaped(events, states, i)
  {
    if i == 0 then FIRST_WINDOW
    else if CountsAck(states[i - 1], events[i - 1]) then events[i - 1].ackPacket.window
    else LastWindow(events, states, i - 1)
  }

  /** How many of the last acknowledgements that count ask again for the same segment. */
  ghost function RepeatRun(events: seq<Event>, states: seq<State>, i: nat): nat
    requires Shaped(events, states, i)
  {
    if i == 0 then 0
    else if Repeats(states[i - 1], events[i - 1]) then RepeatRun(events, states, i - 1) + 1
    else if CountsAck(states[i - 1], events[i - 1]) then 0
    else RepeatRun(events, states, i - 1)
  }

  predicate Sends(s: State, e: Event, k: nat) {
    (e.Transmit? && k == |s.sent|) || (e.Retransmit? && k == s.acked) || (e.OpenResponse? && k == 0)
  }

  /** How often a segment was sent. */
  ghost function Tries(events: seq<Event>, states: seq<State>, i: nat, k: nat): nat
    requires Shaped(events, states, i)
  {
    if i == 0 then 0
    else Tries(events, states, i - 1, k) + (if Sends(states[i - 1], events[i - 1], k) then 1 else 0)
  }

  /** How much had been sent at the first retransmission that acknowledgements have not caught up with. */
  ghost function RecoveryEnd(events: seq<Event>, states: seq<State>, i: nat): Option<nat>
    requires Shaped(events, states, i)
  {
    if i == 0 then None else
    var s, e, end := states[i - 1], events[i - 1], RecoveryEnd(events, states, i - 1);
    if e.Retransmit? && end.None? then Some(|s.sent|)
    else if CountsAck(s, e) && end.Some? && e.ackPacket.index >= end.value then None
    else end
  }

  /** Whether a retransmission is due at once. */
  ghost predicate Urgent(events: seq<Event>, states: seq<State>, i: nat)
    requires Shaped(events, states, i)
  {
    if i == 0 then false else
    var s, e := states[i - 1], events[i - 1];
    if e.Retransmit? then false
    else if Repeats(s, e) then
      || Urgent(events, states, i - 1)
      || (RepeatRun(events, states, i) == REPEATS_FOR_LOSS && Tries(events, states, i, s.acked) == 1)
    else if CountsAck(s, e) then
      Partial(s, e) && RecoveryEnd(events, states, i).Some? && Tries(events, states, i, e.ackPacket.index) == 1
    else Urgent(events, states, i - 1)
  }

  // ---- how often each segment was sent

  ghost predicate TriesHold(u: Setup, s: State, t: nat -> nat) {
    && (forall k :: |s.sent| <= k ==> t(k) == 0)
    && (!Started(u, s) ==> t(0) == 0)
    && (Started(u, s) ==> forall k :: s.acked <= k < |s.sent| ==>
          Wire(k) in s.sender.unacked && s.sender.unacked[Wire(k)].attempts == t(k))
  }

  ghost function OneMore(s: State, e: Event, t: nat -> nat): nat -> nat {
    k => t(k) + (if Sends(s, e, k) then 1 else 0)
  }

  lemma TransmitTries(u: Setup, s: State, cw: nat, t: nat -> nat)
    requires ValidSetup(u) && SenderInv(u, s) && Offsets(s.sender.pending) && Enabled(u, s, Transmit(cw))
    requires TriesHold(u, s, t)
    ensures TriesHold(u, TransmitNext(u, s), OneMore(s, Transmit(cw), t))
  {
    hide WindowInv;
    var s1, t1 := TransmitNext(u, s), OneMore(s, Transmit(cw), t);
    forall k | s1.acked <= k < |s1.sent|
      ensures Wire(k) in s1.sender.unacked && s1.sender.unacked[Wire(k)].attempts == t1(k)
    {
      WireDistance(k, |s.sent|);
    }
  }

  lemma RetransmitTries(u: Setup, s: State, oldest: U32, t: nat -> nat)
    requires SenderInv(u, s) && Enabled(u, s, Retransmit(oldest)) && TriesHold(u, s, t)
    ensures TriesHold(u, RetransmitOldest(s, oldest), OneMore(s, Retransmit(oldest), t))
  {
    RetransmitSender(u, s, oldest);
    hide WindowInv;
    var s1, t1 := RetransmitOldest(s, oldest), OneMore(s, Retransmit(oldest), t);
    forall k | s1.acked <= k < |s1.sent|
      ensures Wire(k) in s1.sender.unacked && s1.sender.unacked[Wire(k)].attempts == t1(k)
    {
      WireDistance(s.acked, k);
    }
  }

  lemma AckTries(u: Setup, s: State, a: AckPacket, t: nat -> nat)
    requires SenderInv(u, s) && NetworkInv(s) && |s.receiver.log| <= |s.sent| && Enabled(u, s, ReceiveAck(a))
    requires TriesHold(u, s, t)
    ensures TriesHold(u, HandleAck(s, a), OneMore(s, ReceiveAck(a), t))
  {
    HandleAckExact(u, s, a);
    AckSender(u, s, a);
    hide WindowInv, Accepts, AckFlow;
    var s1, t1 := HandleAck(s, a), OneMore(s, ReceiveAck(a), t);
    forall k | s1.acked <= k < |s1.sent|
      ensures Wire(k) in s1.sender.unacked && s1.sender.unacked[Wire(k)].attempts == t1(k)
    {
      assert Holds(s1.sender.unacked, k, s1.sent[k]);
    }
  }

  lemma StepTries(u: Setup, s: State, e: Event, t: nat -> nat)
    requires ValidSetup(u) && Inv(u, s) && Enabled(u, s, e) && TriesHold(u, s, t)
    ensures TriesHold(u, Apply(u, s, e), OneMore(s, e, t))
  {
    hide WindowInv, R.ReceiverInv, R.Route, R.Read, R.Advertise, AckFlow, RetransmitFlow;
    match e
    case Transmit(cw) => TransmitTries(u, s, cw, t);
    case Retransmit(oldest) => RetransmitTries(u, s, oldest, t);
    case ReceiveAck(a) => AckTries(u, s, a, t);
    case OpenResponse =>
    case _ =>
  }

  // ---- the fields of the window

  /** The fields of the send window say what the history says. */
  ghost predicate FieldsTell(s: State, window: nat, run: nat, urgent: bool, end: Option<nat>) {
    && s.sender.flow.peerWindow == Min(window, MAX_PENDING_SEGMENTS)
    && s.sender.flow.duplicateAcks == Min(255, run)
    && s.sender.flow.fastRetransmit == urgent
    && (end.None? ==> s.sender.flow.recoveryUntil.None?)
    && (end.Some? ==> s.acked < end.value <= |s.sent| && s.sender.flow.recoveryUntil == Some(Wire(end.value)))
  }

  /** The tests of an acknowledgement that counts, on unbounded numbers. */
  lemma AckTests(u: Setup, s: State, a: AckPacket, end: Option<nat>)
    requires SenderInv(u, s) && NetworkInv(s) && |s.receiver.log| <= |s.sent| && Enabled(u, s, ReceiveAck(a))
    requires s.acked <= a.index
    requires end.None? ==> s.sender.flow.recoveryUntil.None?
    requires end.Some? ==> s.acked < end.value <= |s.sent| && s.sender.flow.recoveryUntil == Some(Wire(end.value))
    ensures var f, unacked := s.sender.flow, s.sender.unacked;
            && Accepts(f.peerAck, s.sender.nextSeq, a.ack)
            && (a.ack == f.peerAck <==> a.index == s.acked)
            && (a.ack in unacked <==> a.index < |s.sent|)
            && (a.ack in Remaining(unacked, a.ack) <==> a.index < |s.sent|)
            && (RecoveryContinues(f, a.ack) <==> end.Some? && a.index < end.value)
  {
    AcceptsUnbounded(s.acked, |s.sent|, a.index);
    WireDistance(s.acked, a.index);
    WireDistance(s.acked, |s.sent|);
    if end.Some? {
      WireDistance(s.acked, end.value);
      RecoveryPoint(Wire(end.value), Wire(s.acked), a.ack, Wire(|s.sent|));
    }
  }

  lemma AckTells(u: Setup, s: State, a: AckPacket, window: nat, run: nat, urgent: bool, end: Option<nat>)
    requires SenderInv(u, s) && NetworkInv(s) && |s.receiver.log| <= |s.sent| && Enabled(u, s, ReceiveAck(a))
    requires FieldsTell(s, window, run, urgent, end) && s.acked <= a.index
    ensures var e := ReceiveAck(a);
            var run1 := if Repeats(s, e) then run + 1 else 0;
            var end1 := if end.Some? && a.index >= end.value then None else end;
            var once := a.index < |s.sent| && Wire(a.index) in s.sender.unacked
                        && s.sender.unacked[Wire(a.index)].attempts == 1;
            var urgent1 := if Repeats(s, e) then urgent || (run1 == REPEATS_FOR_LOSS && once)
                           else Partial(s, e) && end1.Some? && once;
            FieldsTell(HandleAck(s, a), a.window, run1, urgent1, end1)
  {
    AckTests(u, s, a, end);
    HandleAckExact(u, s, a);
    hide Accepts, WindowInv, Interval, Acknowledged, RecoveryContinues;
  }

  lemma RetransmitTells(u: Setup, s: State, oldest: U32, window: nat, run: nat, urgent: bool, end: Option<nat>)
    requires SenderInv(u, s) && Enabled(u, s, Retransmit(oldest)) && FieldsTell(s, window, run, urgent, end)
    ensures FieldsTell(RetransmitOldest(s, oldest), window, run, false, if end.None? then Some(|s.sent|) else end)
  {
    RetransmitSender(u, s, oldest);
  }

  ghost predicate Tells(u: Setup, events: seq<Event>, states: seq<State>, i: nat)
    requires Shaped(events, states, i)
  {
    && TriesHold(u, states[i], k => Tries(events, states, i, k))
    && FieldsTell(states[i], LastWindow(events, states, i), RepeatRun(events, states, i), Urgent(events, states, i),
                  RecoveryEnd(events, states, i))
  }

  lemma SameFields(s: State, s1: State, window: nat, run: nat, urgent: bool, end: Option<nat>)
    requires FieldsTell(s, window, run, urgent, end)
    requires s1.sender.flow == s.sender.flow && s1.acked == s.acked && |s.sent| <= |s1.sent|
    ensures FieldsTell(s1, window, run, urgent, end)
  {
  }

  lemma StepTells(u: Setup, events: seq<Event>, states: seq<State>, i: nat)
    requires ValidSetup(u) && Shaped(events, states, i) && i < |events|
    requires Inv(u, states[i]) && Follows(u, states[i], events[i], states[i + 1]) && Tells(u, events, states, i)
    ensures Tells(u, events, states, i + 1)
  {
    hide WindowInv, R.ReceiverInv, Inv, FieldsTell, Apply, Enabled;
    var s, e, s1 := states[i], events[i], states[i + 1];
    var t: nat -> nat := k => Tries(events, states, i, k);
    StepTries(u, s, e, t);
    TriesStep(u, events, states, i);
    FieldsStep(u, events, states, i);
  }

  lemma TriesStep(u: Setup, events: seq<Event>, states: seq<State>, i: nat)
    requires Shaped(events, states, i) && i < |events|
    requires TriesHold(u, states[i + 1], OneMore(states[i], events[i], k => Tries(events, states, i, k)))
    ensures TriesHold(u, states[i + 1], k => Tries(events, states, i + 1, k))
  {
    var f := OneMore(states[i], events[i], k => Tries(events, states, i, k));
    var g: nat -> nat := k => Tries(events, states, i + 1, k);
    assert forall k :: f(k) == g(k);
    var s := states[i + 1];
    assert forall k :: |s.sent| <= k ==> g(k) == f(k);
    assert Started(u, s) ==> forall k :: s.acked <= k < |s.sent| ==> g(k) == f(k);
  }

  lemma FieldsStep(u: Setup, events: seq<Event>, states: seq<State>, i: nat)
    requires ValidSetup(u) && Shaped(events, states, i) && i < |events|
    requires Inv(u, states[i]) && Follows(u, states[i], events[i], states[i + 1]) && Tells(u, events, states, i)
    ensures FieldsTell(states[i + 1], LastWindow(events, states, i + 1), RepeatRun(events, states, i + 1),
                       Urgent(events, states, i + 1), RecoveryEnd(events, states, i + 1))
  {
    hide WindowInv, FieldsTell, Inv, AckFlow, RetransmitFlow, R.Route, R.Read, R.Advertise, TriesHold;
    var s, e, s1 := states[i], events[i], states[i + 1];
    SenderParts(u, s);
    var window, run := LastWindow(events, states, i), RepeatRun(events, states, i);
    var urgent, end := Urgent(events, states, i), RecoveryEnd(events, states, i);
    match e
    case Retransmit(oldest) => RetransmitTells(u, s, oldest, window, run, urgent, end);
    case ReceiveAck(a) => AckStep(u, events, states, i, a);
    case _ => SameFields(s, s1, window, run, urgent, end);
  }

  lemma SenderParts(u: Setup, s: State)
    requires Inv(u, s)
    ensures SenderInv(u, s) && NetworkInv(s) && |s.receiver.log| <= |s.sent|
  {
  }

  lemma AckStep(u: Setup, events: seq<Event>, states: seq<State>, i: nat, a: AckPacket)
    requires Shaped(events, states, i) && i < |events| && events[i] == ReceiveAck(a)
    requires SenderInv(u, states[i]) && NetworkInv(states[i]) && |states[i].receiver.log| <= |states[i].sent|
    requires Enabled(u, states[i], ReceiveAck(a)) && states[i + 1] == HandleAck(states[i], a)
    requires Tells(u, events, states, i)
    ensures FieldsTell(states[i + 1], LastWindow(events, states, i + 1), RepeatRun(events, states, i + 1),
                       Urgent(events, states, i + 1), RecoveryEnd(events, states, i + 1))
  {
    hide SenderInv, NetworkInv, FieldsTell, HandleAck;
    var s, t := states[i], Tries(events, states, i, a.index);
    if s.acked <= a.index {
      AckTells(u, s, a, LastWindow(events, states, i), RepeatRun(events, states, i), Urgent(events, states, i),
               RecoveryEnd(events, states, i));
      var tries: nat -> nat := k => Tries(events, states, i, k);
      assert a.index < |s.sent| ==> s.sender.unacked[Wire(a.index)].attempts == tries(a.index);
      AckSendsNothing(events, states, i);
    } else {
      HandleAckExact(u, s, a);
    }
  }

  lemma {:induction false} RunTells(u: Setup, events: seq<Event>, states: seq<State>, i: nat)
    requires ValidSetup(u) && IsRun(u, events, states) && i < |states|
    ensures Tells(u, events, states, i)
  {
    hide Inv, Follows, Tells;
    if i == 0 {
      StartTells(u, events, states);
    } else {
      RunTells(u, events, states, i - 1);
      RunInv(u, events, states, i - 1);
      assert Follows(u, states[i - 1], events[i - 1], states[i]);
      StepTells(u, events, states, i - 1);
    }
  }

  lemma StartTells(u: Setup, events: seq<Event>, states: seq<State>)
    requires ValidSetup(u) && Shaped(events, states, 0) && states[0] == Start(u)
    ensures Tells(u, events, states, 0)
  {
  }

  // ---- when new segments may go out

  lemma {:induction false} IntervalSize(unacked: map<U32, Outstanding>, from: U32, width: nat)
    requires Interval(unacked, from, width) && width < HALF
    ensures |unacked| == width
    decreases width
  {
    if width == 0 {
      assert forall k: U32 :: k !in unacked;
      assert unacked == map[];
    } else {
      var last := WrapAdd(from, width - 1);
      var rest := unacked - {last};
      assert WrapSub(last, from) == width - 1;
      forall k: U32 ensures k in rest <==> WrapSub(k, from) < width - 1 {
        if WrapSub(k, from) == width - 1 { assert k == last; }
      }
      IntervalSize(rest, from, width - 1);
      assert unacked.Keys == rest.Keys + {last};
      assert |unacked.Keys| == |rest.Keys| + 1;
    }
  }

  /** In every state of every run a new segment may go out if and only if the session is open, something
      is queued, and the segments in flight are fewer than the congestion window, than the window
      told by the last acknowledgement that counts, and than 1024. */
  lemma TransmitExactly(u: Setup, events: seq<Event>, states: seq<State>, i: nat, cw: nat)
    requires ValidSetup(u) && IsRun(u, events, states) && i < |states|
    ensures var s := states[i];
            var flying := |s.sent| - s.acked;
            Enabled(u, s, Transmit(cw)) <==>
              && Started(u, s) && s.sender.pending != []
              && flying < cw && flying < LastWindow(events, states, i) && flying < MAX_PENDING_SEGMENTS
  {
    RunShaped(u, events, states, i);
    hide IsRun, FieldsTell, TriesHold, Inv, SenderInv, LastWindow;
    RunInv(u, events, states, i);
    RunTells(u, events, states, i);
    var s := states[i];
    SenderParts(u, s);
    WindowTold(s, LastWindow(events, states, i), RepeatRun(events, states, i), Urgent(events, states, i),
               RecoveryEnd(events, states, i));
    if Started(u, s) { InFlight(u, s); }
  }

  lemma WindowTold(s: State, window: nat, run: nat, urgent: bool, end: Option<nat>)
    requires FieldsTell(s, window, run, urgent, end)
    ensures s.sender.flow.peerWindow == Min(window, MAX_PENDING_SEGMENTS)
  {
  }

  lemma InFlight(u: Setup, s: State)
    requires SenderInv(u, s) && Started(u, s)
    ensures |s.sender.unacked| == |s.sent| - s.acked == WrapSub(s.sender.nextSeq, s.sender.flow.peerAck)
  {
    WireDistance(s.acked, |s.sent|);
    IntervalSize(s.sender.unacked, s.sender.flow.peerAck, |s.sent| - s.acked);
  }

  lemma {:induction false} WindowStays(events: seq<Event>, states: seq<State>, i: nat, j: nat)
    requires Shaped(events, states, j) && i <= j
    requires forall k {:trigger events[k]} :: i <= k < j ==> !CountsAck(states[k], events[k])
    ensures LastWindow(events, states, j) == LastWindow(events, states, i)
    decreases j
  {
    if i < j {
      assert !CountsAck(states[j - 1], events[j - 1]);
      WindowStays(events, states, i, j - 1);
    }
  }

  /** An acknowledgement that counts and tells a window of zero stops new segments until the next one. */
  lemma ZeroWindowStops(u: Setup, events: seq<Event>, states: seq<State>, i: nat, j: nat, cw: nat)
    requires ValidSetup(u) && IsRun(u, events, states) && i < j < |states|
    requires CountsAck(states[i], events[i]) && events[i].ackPacket.window == 0
    requires forall k {:trigger events[k]} :: i + 1 <= k < j ==> !CountsAck(states[k], events[k])
    ensures !Enabled(u, states[j], Transmit(cw))
  {
    hide Enabled, IsRun;
    assert Shaped(events, states, j) && Shaped(events, states, i + 1) by { RunShaped(u, events, states, j); }
    WindowStays(events, states, i + 1, j);
    RunInv(u, events, states, j);
    TransmitExactly(u, events, states, j, cw);
  }

  lemma RunShaped(u: Setup, events: seq<Event>, states: seq<State>, i: nat)
    requires ValidSetup(u) && IsRun(u, events, states) && i < |states|
    ensures Shaped(events, states, i)
  {
  }

  /** A retransmission becomes due at once exactly at the third acknowledgement in a row that asks for a
      segment sent once, or at a partial one in recovery that asks for a segment sent once; the
      flag then stays until the segment is resent or acknowledged. */
  lemma UrgentExactly(u: Setup, events: seq<Event>, states: seq<State>, i: nat)
    requires ValidSetup(u) && IsRun(u, events, states) && i < |events|
    ensures !states[i].sender.flow.fastRetransmit ==>
              var s, e := states[i], events[i];
              (states[i + 1].sender.flow.fastRetransmit <==>
                || (Repeats(s, e) && RepeatRun(events, states, i) == REPEATS_FOR_LOSS - 1
                    && Tries(events, states, i, s.acked) == 1)
                || (Partial(s, e) && Tries(events, states, i, e.ackPacket.index) == 1
                    && RecoveryEnd(events, states, i).Some?
                    && e.ackPacket.index < RecoveryEnd(events, states, i).value))
    ensures states[i].sender.flow.fastRetransmit && !states[i + 1].sender.flow.fastRetransmit ==>
              var s, e := states[i], events[i];
              e.Retransmit? || (CountsAck(s, e) && s.acked < e.ackPacket.index)
  {
    RunShaped(u, events, states, i + 1);
    hide IsRun, TriesHold, Tries;
    RunTells(u, events, states, i);
    RunTells(u, events, states, i + 1);
    UrgentHead(u, events, states, i);
    if events[i].ReceiveAck? { AckSendsNothing(events, states, i); }
  }

  lemma AckSendsNothing(events: seq<Event>, states: seq<State>, i: nat)
    requires Shaped(events, states, i) && i < |events| && events[i].ReceiveAck?
    ensures forall k :: Tries(events, states, i + 1, k) == Tries(events, states, i, k)
  {
  }

  /** While it is due there is a segment to resend. */
  lemma UrgentHead(u: Setup, events: seq<Event>, states: seq<State>, i: nat)
    requires ValidSetup(u) && IsRun(u, events, states) && i < |states|
    ensures states[i].sender.flow.fastRetransmit ==> states[i].acked < |states[i].sent|
  {
    RunInv(u, events, states, i);
    var s := states[i];
    if Started(u, s) && s.sender.flow.fastRetransmit { WireDistance(s.acked, |s.sent|); }
  }

  // ---- how long segments are

  /** Every segment fits the path, the client's open segment its own limit, and a segment is empty only if
      it opens the session or `idle` says that nothing was written in some write. */
  ghost predicate Sized(u: Setup, s: State, idle: bool)
    requires ValidSetup(u)
  {
    && (forall k :: 0 <= k < |s.sent| ==> |s.sent[k]| <= MaxChunk(u) && (s.sent[k] == [] ==> k == 0 || idle))
    && (u.isClient && s.sent != [] ==> s.sender.openSent && |s.sent[0]| <= MAX_SESSION_OPEN_PAYLOAD)
    && (!u.isClient || s.sender.openSent ==> s.sent != [])
    && (forall k :: 0 <= k < |s.sender.pending| ==>
          s.sender.pending[k].offset < |s.sender.pending[k].payload| || idle)
    && (u.isClient && !s.sender.openSent ==> forall k ::
        0 <= k < |s.sender.pending|
        ==> s.sender.pending[k].offset == 0)
  }

  lemma TransmitSized(u: Setup, s: State, idle: bool)
    requires ValidSetup(u) && Sized(u, s, idle) && Offsets(s.sender.pending) && s.sender.pending != []
    ensures Sized(u, TransmitNext(u, s), idle)
  {
    var s1, c := TransmitNext(u, s), s.sender.pending[0];
    var n := SegmentLen(u, s.sender.openSent, c);
    var payload := c.payload[c.offset..c.offset + n];
    assert |payload| == n <= MaxChunk(u);
    assert forall k :: 0 <= k < |s.sent| ==> s1.sent[k] == s.sent[k];
    PendingSized(s.sender.pending, n, idle);
  }

  lemma PendingSized(pending: seq<Chunk>, n: nat, idle: bool)
    requires Offsets(pending) && pending != [] && pending[0].offset + n <= |pending[0].payload|
    requires forall k :: 0 <= k < |pending| ==> pending[k].offset < |pending[k].payload| || idle
    ensures var after := AfterSegment(pending, n);
            forall k :: 0 <= k < |after| ==> after[k].offset < |after[k].payload| || idle
  {
    var after, tail := AfterSegment(pending, n), pending[1..];
    assert forall k :: 0 <= k < |tail| ==> tail[k] == pending[k + 1];
    if after != tail { assert forall k :: 0 < k < |after| ==> after[k] == tail[k - 1]; }
  }

  lemma StepSized(u: Setup, s: State, e: Event, idle: bool)
    requires ValidSetup(u) && Sized(u, s, idle) && Enabled(u, s, e) && Offsets(s.sender.pending)
    ensures Sized(u, Apply(u, s, e), idle || e == Queue([]))
  {
    match e
    case Transmit(_) => TransmitSized(u, s, idle);
    case _ =>
  }

  ghost predicate EmptyWrite(events: seq<Event>, i: nat)
    requires i <= |events|
  {
    exists j :: 0 <= j < i && events[j] == Queue([])
  }

  lemma {:induction false} RunSized(u: Setup, events: seq<Event>, states: seq<State>, i: nat)
    requires ValidSetup(u) && IsRun(u, events, states) && i < |states|
    ensures Sized(u, states[i], EmptyWrite(events, i))
  {
    hide Sized, Enabled, Apply;
    if i == 0 {
      StartSized(u);
    } else {
      RunSized(u, events, states, i - 1);
      assert Follows(u, states[i - 1], events[i - 1], states[i]);
      StepSized(u, states[i - 1], events[i - 1], EmptyWrite(events, i - 1));
      assert EmptyWrite(events, i) <==> EmptyWrite(events, i - 1) || events[i - 1] == Queue([]);
    }
  }

  lemma StartSized(u: Setup)
    requires ValidSetup(u)
    ensures Sized(u, Start(u), false)
  {
  }

  /** Segments are as long as they may be: a new segment has the longest size the path takes, or the write it is
      cut from is done with it, or it opens the session alone, as the first write is too long to go
      with it. */
  lemma SegmentsFull(u: Setup, events: seq<Event>, states: seq<State>, i: nat, cw: nat)
    requires ValidSetup(u) && IsRun(u, events, states) && i < |events| && events[i] == Transmit(cw)
    ensures var s, s1 := states[i], states[i + 1];
            && s.sender.pending != [] && |s1.sent| == |s.sent| + 1
            && (var segment, write := s1.sent[|s.sent|], s.sender.pending[0].payload;
                || |segment| == Min(u.config.mtu - R.PACKET_OVERHEAD, R.MAX_PDU)
                || s1.sender.pending == s.sender.pending[1..]
                || (u.isClient && s.sent == [] && segment == [] && |write| > Min(1024, MaxChunk(u))
                    && s1.sender.pending == s.sender.pending))
  {
    hide Sized;
    RunSized(u, events, states, i);
    RunInv(u, events, states, i);
    assert Follows(u, states[i], events[i], states[i + 1]);
    OpenedOnce(u, states[i], EmptyWrite(events, i));
    NextFull(u, states[i]);
  }

  lemma OpenedOnce(u: Setup, s: State, idle: bool)
    requires ValidSetup(u) && Sized(u, s, idle)
    ensures u.isClient && !s.sender.openSent ==> s.sent == []
  {
  }

  lemma NextFull(u: Setup, s: State)
    requires ValidSetup(u) && s.sender.pending != [] && Offsets(s.sender.pending)
    requires u.isClient && !s.sender.openSent ==> s.sent == []
    ensures var s1 := TransmitNext(u, s);
            && |s1.sent| == |s.sent| + 1
            && (var segment, write := s1.sent[|s.sent|], s.sender.pending[0].payload;
                || |segment| == MaxChunk(u)
                || s1.sender.pending == s.sender.pending[1..]
                || (u.isClient && s.sent == [] && segment == [] && |write| > Min(1024, MaxChunk(u))
                    && s1.sender.pending == s.sender.pending))
  {
    var c := s.sender.pending[0];
    assert c.(offset := c.offset + 0) == c && [c] + s.sender.pending[1..] == s.sender.pending;
  }

  /** In every state of every run no packet in the network is longer than the path takes, the client's
      open segment is at most 1024 bytes, and a segment other than the first is empty only if
      there was an empty write. */
  lemma SegmentsFit(u: Setup, events: seq<Event>, states: seq<State>, i: nat)
    requires ValidSetup(u) && IsRun(u, events, states) && i < |states|
    ensures forall p ::
            p in states[i].data
            ==> |p.payload| <= u.config.mtu - R.PACKET_OVERHEAD && |p.payload| <= R.MAX_PDU
    ensures u.isClient && states[i].sent != [] ==> |states[i].sent[0]| <= MAX_SESSION_OPEN_PAYLOAD
    ensures forall k :: 0 < k < |states[i].sent| && states[i].sent[k] == [] ==>
              exists j :: 0 <= j < i && events[j] == Queue([])
  {
    RunSized(u, events, states, i);
    RunInv(u, events, states, i);
  }

  // ---- what acknowledgements say

  /** An acknowledgement is for all that was delivered, and tells a window of the longest segments the path
      takes: they fit the free bytes and, with the reordered ones, the window size, and one more
      would not. */
  lemma AcksTellRoom(u: Setup, events: seq<Event>, states: seq<State>, i: nat)
    requires ValidSetup(u) && IsRun(u, events, states) && i < |events| && events[i] == SendAck
    ensures exists a :: states[i + 1].acks == states[i].acks + {a} && a.index == |states[i].receiver.log|
                        && R.TellsRoom(MaxChunk(u) + R.AEAD_OVERHEAD + u.config.itemOverhead,
                                       states[i].receiver.available, |states[i].receiver.pending|, a.window)
  {
    hide R.WindowOf;
    assert Follows(u, states[i], events[i], states[i + 1]);
    var r := states[i].receiver;
    R.WindowIsRoom(u.config, r.available, |r.pending|);
    assert R.PacketSize(u.config) == MaxChunk(u) + R.AEAD_OVERHEAD + u.config.itemOverhead;
    var a := AckPacket(|r.log|, R.Advertise(u.config, r).unAckSeq, R.Advertise(u.config, r).window);
    assert states[i + 1].acks == states[i].acks + {a};
  }

  /** Something happened since the last acknowledgement that asks for one: a segment arrived, whatever became of
      it, or reading opened a closed window. */
  predicate AckDue(events: seq<Event>, states: seq<State>, i: nat)
    requires Shaped(events, states, i)
  {
    i > 0
    && match events[i - 1]
       case ReceiveData(_, _) => true
       case SendAck => false
       case ReadSome(_) =>
         AckDue(events, states, i - 1) || (states[i - 1].receiver.window == 0 && states[i].receiver.window > 0)
       case _ => AckDue(events, states, i - 1)
  }

  /** In every state of every run an acknowledgement is queued exactly if one is due. */
  lemma {:induction false} AckQueuedExactly(u: Setup, events: seq<Event>, states: seq<State>, i: nat)
    requires ValidSetup(u) && IsRun(u, events, states) && i < |states|
    ensures Shaped(events, states, i)
    ensures states[i].receiver.ackQueued <==> AckDue(events, states, i)
  {
    hide IsRun, R.WindowOf, Enabled;
    RunShaped(u, events, states, i);
    if i == 0 {
      RunStarts(u, events, states);
    } else {
      AckQueuedExactly(u, events, states, i - 1);
      RunFollows(u, events, states, i - 1);
      AckQueuedStep(u, states[i - 1], events[i - 1], states[i]);
    }
  }

  lemma RunStarts(u: Setup, events: seq<Event>, states: seq<State>)
    requires ValidSetup(u) && IsRun(u, events, states)
    ensures states != [] && !states[0].receiver.ackQueued
  {
  }

  lemma RunFollows(u: Setup, events: seq<Event>, states: seq<State>, i: nat)
    requires ValidSetup(u) && IsRun(u, events, states) && i < |events|
    ensures |states| == |events| + 1 && Follows(u, states[i], events[i], states[i + 1])
  {
    assert Follows(u, states[i], events[i], states[i + 1]);
  }

  lemma AckQueuedStep(u: Setup, s: State, e: Event, s1: State)
    requires ValidSetup(u) && Follows(u, s, e, s1)
    ensures s1.receiver.ackQueued
            <==> (match e
                  case ReceiveData(_, _) => true
                  case SendAck => false
                  case ReadSome(_) => s.receiver.ackQueued || (s.receiver.window == 0 && s1.receiver.window > 0)
                  case _ => s.receiver.ackQueued)
  {
    hide R.WindowOf, Enabled, R.Admit;
  }
}
