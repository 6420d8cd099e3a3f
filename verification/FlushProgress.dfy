/**
  Flush accounting of the REALITY stream. The writing task and the pump share an atomic byte count,
  a closed flag and a waker slot; every atomic access is a step of its own, so that all
  interleavings of the two are covered.
*/
module FlushProgress {

  /** Where a poll_write stands: between counting the bytes, offering them and taking back the rest. */
  datatype Write = Idle | Counted(len: nat) | Offered(len: nat, taken: nat)

  /** Where a poll_flush stands; Sleeping means it returned Pending and nobody polled since. */
  datatype Flush = NoFlush | Registered | SawPending | Sleeping

  /** Where the pump stands between two accesses. */
  datatype Pump = Ready | Holding(n: nat) | OnWire(n: nat) | Subtracted | Stopping | ClosedSet | Done

  /** `pending`, `closed` and `waker` are the shared cells; `woken` says whether the registered waker
      was fired; the rest counts bytes: taken by the pipe, by the pump, flushed to TCP, subtracted. */
  datatype State = State(
    pending: int,
    closed: bool,
    waker: bool,
    woken: bool,
    write: Write,
    flush: Flush,
    pump: Pump,
    accepted: nat,
    pumped: nat,
    onTcp: nat,
    subtracted: nat)

  const START: State := State(0, false, false, false, Idle, NoFlush, Ready, 0, 0, 0, 0)

  datatype Event =
    | CountWrite(len: nat)      // fetch_add of the whole buffer
    | OfferWrite(taken: nat)    // the pipe takes some of it, or nothing
    | SettleWrite               // fetch_sub of what it did not take
    | Register                  // poll_flush stores its waker
    | LoadPending               // and reads the count
    | LoadClosed                // and then the flag
    | Take(n: nat)              // the pump reads from the pipe
    | FlushTcp                  // writes and flushes the record
    | Subtract                  // fetch_sub
    | Wake                      // takes and fires the waker
    | Stop                      // ends, for whatever reason
    | SetClosed
    | WakeClosed

  predicate Enabled(s: State, e: Event) {
    match e
    case CountWrite(_) => s.write.Idle? && (s.flush.NoFlush? || s.flush.Sleeping?)
    case OfferWrite(taken) => s.write.Counted? && taken <= s.write.len
    case SettleWrite => s.write.Offered?
    case Register => s.write.Idle? && (s.flush.NoFlush? || s.flush.Sleeping?)
    case LoadPending => s.flush.Registered?
    case LoadClosed => s.flush.SawPending?
    case Take(n) => s.pump.Ready? && 0 < n && s.pumped + n <= s.accepted
    case FlushTcp => s.pump.Holding?
    case Subtract => s.pump.OnWire?
    case Wake => s.pump.Subtracted?
    case Stop => s.pump.Ready? || s.pump.Holding?
    case SetClosed => s.pump.Stopping?
    case WakeClosed => s.pump.ClosedSet?
  }

  function Fire(s: State): State {
    if s.waker then s.(waker := false, woken := true) else s
  }

  function Apply(s: State, e: Event): State
    requires Enabled(s, e)
  {
    match e
    case CountWrite(len) => s.(pending := s.pending + len, write := Counted(len))
    case OfferWrite(taken) => s.(accepted := s.accepted + taken, write := Offered(s.write.len, taken))
    case SettleWrite => s.(pending := s.pending - (s.write.len - s.write.taken), write := Idle)
    case Register => s.(waker := true, woken := false, flush := Registered)
    case LoadPending => s.(flush := if s.pending == 0 then NoFlush else SawPending)
    case LoadClosed => s.(flush := if s.closed then NoFlush else Sleeping)
    case Take(n) => s.(pumped := s.pumped + n, pump := Holding(n))
    case FlushTcp => s.(onTcp := s.onTcp + s.pump.n, pump := OnWire(s.pump.n))
    case Subtract => s.(pending := s.pending - s.pump.n, subtracted := s.subtracted + s.pump.n, pump := Subtracted)
    case Wake => Fire(s).(pump := Ready)
    case Stop => s.(pump := Stopping)
    case SetClosed => s.(closed := true, pump := ClosedSet)
    case WakeClosed => Fire(s).(pump := Done)
  }

  /** Bytes counted by a poll_write in progress and not accepted by the pipe. */
  function Surplus(w: Write): int {
    match w
    case Idle => 0
    case Counted(len) => len
    case Offered(len, taken) => len - taken
  }

  predicate CountInv(s: State) {
    && s.pending == (s.accepted - s.subtracted) + Surplus(s.write)
    && (s.write.Offered? ==> s.write.taken <= s.write.len)
    && s.subtracted <= s.onTcp <= s.pumped <= s.accepted
    && (s.pump.Ready? || s.pump.Subtracted? ==> s.pumped == s.subtracted)
    && (s.pump.Holding? ==> s.pumped == s.subtracted + s.pump.n && s.onTcp == s.subtracted)
    && (s.pump.OnWire? ==> s.onTcp == s.pumped == s.subtracted + s.pump.n)
  }

  /** The pump has still something to do that ends in firing the waker. */
  predicate WakeComing(s: State) {
    match s.pump
    case Ready => s.pumped < s.accepted
    case Done => false
    case _ => true
  }

  predicate WakeInv(s: State) {
    && (s.closed <==> s.pump.ClosedSet? || s.pump.Done?)
    && (!s.flush.NoFlush? ==> s.waker || s.woken)
    && (s.flush.SawPending? && !s.woken ==> WakeComing(s) || s.closed)
    && (s.flush.Sleeping? && !s.woken ==> WakeComing(s))
    && (!s.flush.NoFlush? && !s.flush.Sleeping? ==> s.write.Idle?)
  }

  predicate Inv(s: State) {
    CountInv(s) && WakeInv(s)
  }

  lemma StepKeepsInv(s: State, e: Event)
    requires Inv(s) && Enabled(s, e)
    ensures Inv(Apply(s, e))
  {
  }

  predicate Follows(s: State, e: Event, s1: State) {
    Enabled(s, e) && s1 == Apply(s, e)
  }

  ghost predicate IsRun(events: seq<Event>, states: seq<State>) {
    && |states| == |events| + 1
    && states[0] == START
    && forall i {:trigger events[i]} :: 0 <= i < |events| ==> Follows(states[i], events[i], states[i + 1])
  }

  lemma StartCounts()
    ensures CountInv(START)
  {
  }

  lemma StartWakes()
    ensures WakeInv(START)
  {
  }

  lemma FollowsKeepsInv(s: State, e: Event, s1: State)
    requires Inv(s) && Follows(s, e, s1)
    ensures Inv(s1)
  {
    StepKeepsInv(s, e);
  }

  lemma {:induction false} RunKeepsInv(events: seq<Event>, states: seq<State>, i: nat)
    requires IsRun(events, states) && i < |states|
    ensures Inv(states[i])
  {
    hide CountInv, WakeInv, Follows;
    if i == 0 {
      StartCounts();
      StartWakes();
    } else {
      RunKeepsInv(events, states, i - 1);
      FollowsKeepsInv(states[i - 1], events[i - 1], states[i]);
    }
  }

  /** In every interleaving the count never goes below zero and always covers the accepted bytes
      that TCP has not been given yet. */
  lemma PendingCovers(events: seq<Event>, states: seq<State>, i: nat)
    requires IsRun(events, states) && i < |states|
    ensures states[i].pending >= 0
    ensures states[i].accepted - states[i].onTcp <= states[i].pending
  {
    RunKeepsInv(events, states, i);
  }

  /** A flush succeeds exactly if the pump is done with every accepted byte, and then TCP has them all; it
      fails exactly if it saw bytes pending and the pump has ended. */
  lemma FlushExactly(events: seq<Event>, states: seq<State>, i: nat)
    requires IsRun(events, states) && i < |events|
    ensures events[i] == LoadPending ==>
              && (states[i + 1].flush == NoFlush <==> states[i].subtracted == states[i].accepted)
              && (states[i + 1].flush == NoFlush ==> states[i].onTcp == states[i].accepted)
    ensures events[i] == LoadClosed ==>
              (states[i + 1].flush == NoFlush <==> exists j :: 0 <= j < i && events[j] == SetClosed)
  {
    RunKeepsInv(events, states, i);
    ClosedExactly(events, states, i);
    assert Follows(states[i], events[i], states[i + 1]);
  }

  lemma {:induction false} ClosedExactly(events: seq<Event>, states: seq<State>, i: nat)
    requires IsRun(events, states) && i < |states|
    ensures states[i].closed <==> exists j :: 0 <= j < i && events[j] == SetClosed
  {
    if i > 0 {
      ClosedExactly(events, states, i - 1);
      assert Follows(states[i - 1], events[i - 1], states[i]);
    }
  }

  /** The waker last stored was taken and fired since. */
  predicate FiredSince(events: seq<Event>, i: nat)
    requires i <= |events|
  {
    i > 0 && !events[i - 1].Register?
    && if events[i - 1].Wake? || events[i - 1].WakeClosed? then exists j :: 0 <= j < i && events[j].Register?
       else FiredSince(events, i - 1)
  }

  /** A flush is woken exactly by a wake-up after its own registration, and its waker is in place until then. */
  lemma {:induction false} WokenExactly(events: seq<Event>, states: seq<State>, i: nat)
    requires IsRun(events, states) && i < |states|
    ensures states[i].woken <==> FiredSince(events, i)
    ensures states[i].waker <==> !FiredSince(events, i) && exists j :: 0 <= j < i && events[j].Register?
  {
    if i > 0 {
      WokenExactly(events, states, i - 1);
      assert Follows(states[i - 1], events[i - 1], states[i]);
      assert (exists j :: 0 <= j < i && events[j].Register?)
        <==> events[i - 1].Register? || exists j :: 0 <= j < i - 1 && events[j].Register?;
      FiredAfterRegister(events, i - 1);
    }
  }

  lemma {:induction false} FiredAfterRegister(events: seq<Event>, i: nat)
    requires i <= |events|
    ensures FiredSince(events, i) ==> exists j :: 0 <= j < i && events[j].Register?
  {
    if i > 0 { FiredAfterRegister(events, i - 1); }
  }

  /** No lost wake-up: a flush that returned Pending was woken since, or its waker is in place and the
      pump's way forward, which is never blocked, ends in firing it. */
  lemma NoLostWakeup(events: seq<Event>, states: seq<State>, i: nat)
    requires IsRun(events, states) && i < |states|
    requires states[i].flush == Sleeping && !states[i].woken
    ensures states[i].waker && WakeComing(states[i])
    ensures exists e :: PumpStep(e) && Enabled(states[i], e)
    ensures Enabled(states[i], Wake) ==> Apply(states[i], Wake).woken
    ensures Enabled(states[i], WakeClosed) ==> Apply(states[i], WakeClosed).woken
  {
    RunKeepsInv(events, states, i);
    var s := states[i];
    var e := match s.pump
      case Ready => Take(s.accepted - s.pumped)
      case Holding(_) => FlushTcp
      case OnWire(_) => Subtract
      case Subtracted => Wake
      case Stopping => SetClosed
      case ClosedSet => WakeClosed
      case Done => Stop;
    assert PumpStep(e) && Enabled(s, e);
  }

  predicate PumpStep(e: Event) {
    e.Take? || e.FlushTcp? || e.Subtract? || e.Wake? || e.SetClosed? || e.WakeClosed?
  }

  /** How far the pump is from firing the waker. */
  function Distance(p: Pump): nat {
    match p
    case Ready => 4
    case Holding(_) => 3
    case OnWire(_) => 2
    case Subtracted => 1
    case Stopping => 2
    case ClosedSet => 1
    case Done => 0
  }

  /** Each pump step brings the sleeping flush nearer to its wake-up or delivers it. */
  lemma PumpStepsTowardWakeup(s: State, e: Event)
    requires Inv(s) && Enabled(s, e) && PumpStep(e) && s.flush.Sleeping? && !s.woken
    ensures Apply(s, e).woken || Distance(Apply(s, e).pump) < Distance(s.pump)
  {
  }
}
