/**
  Traffic accounting of one user under interleaving. Recording traffic is two atomic steps, a
  reservation against the total and the count of its direction; any number of sessions may be
  between the two at once, and the quota may change at any time.
*/
module Quota {
  import opened Common

  const U64_LIMIT: nat := 0x1_0000_0000_0000_0000

  datatype Direction = Upload | Download

  /** Traffic that is reserved and not yet counted. */
  datatype Flight = Flight(session: nat, direction: Direction, bytes: nat)

  datatype State = State(total: nat, upload: nat, download: nat, flights: seq<Flight>, quota: Option<nat>)

  datatype Event =
    | Reserve(flight: Flight)
    | Count(index: nat)
    | SetQuota(quota: Option<nat>)

  function Start(quota: Option<nat>): State {
    State(0, 0, 0, [], quota)
  }

  predicate Admits(s: State, bytes: nat) {
    s.total + bytes < U64_LIMIT && (s.quota.Some? ==> s.total + bytes <= s.quota.value)
  }

  predicate Enabled(s: State, e: Event) {
    match e
    case Reserve(f) => f.bytes > 0
    case Count(i) => i < |s.flights|
    case SetQuota(_) => true
  }

  /** A reservation that is not admitted changes nothing: the recording fails. */
  function Apply(s: State, e: Event): State
    requires Enabled(s, e)
  {
    match e
    case Reserve(f) =>
      if Admits(s, f.bytes)
      then s.(total := s.total + f.bytes, flights := s.flights + [f])
      else s
    case Count(i) =>
      var f := s.flights[i];
      var s1 := s.(flights := s.flights[..i] + s.flights[i + 1..]);
      if f.direction.Upload? then s1.(upload := s.upload + f.bytes) else s1.(download := s.download + f.bytes)
    case SetQuota(q) => s.(quota := q)
  }

  function InFlight(flights: seq<Flight>): nat {
    if flights == [] then 0 else flights[0].bytes + InFlight(flights[1..])
  }

  lemma {:induction false} InFlightAppend(a: seq<Flight>, b: seq<Flight>)
    ensures InFlight(a + b) == InFlight(a) + InFlight(b)
  {
    if a == [] {
      assert a + b == b;
    } else {
      assert (a + b)[0] == a[0] && (a + b)[1..] == a[1..] + b;
      InFlightAppend(a[1..], b);
    }
  }

  lemma InFlightRemove(flights: seq<Flight>, i: nat)
    requires i < |flights|
    ensures InFlight(flights) == InFlight(flights[..i] + flights[i + 1..]) + flights[i].bytes
  {
    InFlightAppend(flights[..i], flights[i + 1..]);
    InFlightAppend(flights[..i], flights[i..]);
    assert flights == flights[..i] + flights[i..];
    assert flights[i..][1..] == flights[i + 1..];
  }

  predicate Inv(s: State) {
    && s.total == s.upload + s.download + InFlight(s.flights)
    && s.total < U64_LIMIT
  }

  lemma StepKeepsInv(s: State, e: Event)
    requires Inv(s) && Enabled(s, e)
    ensures Inv(Apply(s, e))
  {
    match e
    case Reserve(f) =>
      InFlightAppend(s.flights, [f]);
      assert InFlight([f]) == f.bytes + InFlight([]);
    case Count(i) => InFlightRemove(s.flights, i);
    case SetQuota(_) =>
  }

  predicate Follows(s: State, e: Event, s1: State) {
    Enabled(s, e) && s1 == Apply(s, e)
  }

  ghost predicate IsRun(quota: Option<nat>, events: seq<Event>, states: seq<State>) {
    && |states| == |events| + 1
    && states[0] == Start(quota)
    && forall i {:trigger events[i]} :: 0 <= i < |events| ==> Follows(states[i], events[i], states[i + 1])
  }

  lemma {:induction false} RunKeepsInv(quota: Option<nat>, events: seq<Event>, states: seq<State>, i: nat)
    requires IsRun(quota, events, states) && i < |states|
    ensures Inv(states[i])
  {
    if i > 0 {
      RunKeepsInv(quota, events, states, i - 1);
      assert Follows(states[i - 1], events[i - 1], states[i]);
      StepKeepsInv(states[i - 1], events[i - 1]);
    }
  }

  /** In every state of every interleaving nothing is lost and nothing is counted twice, and no counter
      can overflow, not even by the traffic still in flight. */
  lemma TrafficIsConserved(quota: Option<nat>, events: seq<Event>, states: seq<State>, i: nat)
    requires IsRun(quota, events, states) && i < |states|
    ensures states[i].total == states[i].upload + states[i].download + InFlight(states[i].flights)
    ensures states[i].upload + InFlight(states[i].flights) < U64_LIMIT
    ensures states[i].download + InFlight(states[i].flights) < U64_LIMIT
  {
    RunKeepsInv(quota, events, states, i);
  }

  // ---- per direction

  /** Traffic of one direction that is reserved and not yet counted. */
  function InFlightOf(flights: seq<Flight>, d: Direction): nat {
    if flights == [] then 0
    else (if flights[0].direction == d then flights[0].bytes else 0) + InFlightOf(flights[1..], d)
  }

  lemma {:induction false} InFlightOfAppend(a: seq<Flight>, b: seq<Flight>, d: Direction)
    ensures InFlightOf(a + b, d) == InFlightOf(a, d) + InFlightOf(b, d)
  {
    if a == [] {
      assert a + b == b;
    } else {
      assert (a + b)[0] == a[0] && (a + b)[1..] == a[1..] + b;
      InFlightOfAppend(a[1..], b, d);
    }
  }

  function OfOne(f: Flight, d: Direction): nat {
    if f.direction == d then f.bytes else 0
  }

  lemma InFlightOfRemove(flights: seq<Flight>, i: nat, d: Direction)
    requires i < |flights|
    ensures InFlightOf(flights, d) == InFlightOf(flights[..i] + flights[i + 1..], d) + OfOne(flights[i], d)
  {
    InFlightOfAppend(flights[..i], flights[i + 1..], d);
    InFlightOfAppend(flights[..i], flights[i..], d);
    assert flights == flights[..i] + flights[i..];
    assert flights[i..][1..] == flights[i + 1..];
  }

  /** A reservation was admitted if the total moved. */
  predicate Admitted(s: State, e: Event, s1: State) {
    e.Reserve? && s1.total != s.total
  }

  /** All traffic of one direction admitted in the first `i` steps, read off the run. */
  ghost function AdmittedOf(events: seq<Event>, states: seq<State>, i: nat, d: Direction): nat
    requires i <= |events| && |states| == |events| + 1
  {
    if i == 0 then 0 else
    AdmittedOf(events, states, i - 1, d)
    + (if Admitted(states[i - 1], events[i - 1], states[i]) then OfOne(events[i - 1].flight, d) else 0)
  }

  function CountedOf(s: State, d: Direction): nat {
    if d.Upload? then s.upload else s.download
  }

  lemma StepCounts(s: State, e: Event, d: Direction)
    requires Enabled(s, e)
    ensures var s1 := Apply(s, e);
            CountedOf(s1, d) + InFlightOf(s1.flights, d)
            == CountedOf(s, d) + InFlightOf(s.flights, d) + (if Admitted(s, e, s1) then OfOne(e.flight, d) else 0)
  {
    match e
    case Reserve(f) =>
      InFlightOfAppend(s.flights, [f], d);
      assert InFlightOf([f], d) == OfOne(f, d) + InFlightOf([], d);
    case Count(i) => InFlightOfRemove(s.flights, i, d);
    case SetQuota(_) =>
  }

  /** In every state of every interleaving, in each direction: what is counted and what is in flight is
      exactly what was admitted. */
  lemma {:induction false} EachDirectionIsConserved(
    quota: Option<nat>, events: seq<Event>, states: seq<State>, i: nat, d: Direction)
    requires IsRun(quota, events, states) && i < |states|
    ensures CountedOf(states[i], d) + InFlightOf(states[i].flights, d) == AdmittedOf(events, states, i, d)
  {
    if i > 0 {
      EachDirectionIsConserved(quota, events, states, i - 1, d);
      assert Follows(states[i - 1], events[i - 1], states[i]);
      StepCounts(states[i - 1], events[i - 1], d);
    }
  }

  /** The quota in force: the last one set, or the first. */
  function QuotaAt(quota: Option<nat>, events: seq<Event>, i: nat): Option<nat>
    requires i <= |events|
  {
    if i == 0 then quota
    else if events[i - 1].SetQuota? then events[i - 1].quota else QuotaAt(quota, events, i - 1)
  }

  lemma {:induction false} QuotaInForce(quota: Option<nat>, events: seq<Event>, states: seq<State>, i: nat)
    requires IsRun(quota, events, states) && i < |states|
    ensures states[i].quota == QuotaAt(quota, events, i)
  {
    if i > 0 {
      QuotaInForce(quota, events, states, i - 1);
      assert Follows(states[i - 1], events[i - 1], states[i]);
    }
  }

  /** A reservation raises the total by its bytes exactly if the sum stays within 64 bits and within the
      quota in force, and otherwise changes nothing; nothing else moves the total. */
  lemma AdmissionExactly(quota: Option<nat>, events: seq<Event>, states: seq<State>, i: nat)
    requires IsRun(quota, events, states) && i < |events|
    ensures events[i].Reserve? ==>
              var sum := states[i].total + events[i].flight.bytes;
              var q := QuotaAt(quota, events, i);
              if sum <= 0xFFFF_FFFF_FFFF_FFFF && (q.Some? ==> sum <= q.value)
              then states[i + 1].total == sum && states[i + 1].flights == states[i].flights + [events[i].flight]
              else states[i + 1] == states[i]
    ensures !events[i].Reserve? ==> states[i + 1].total == states[i].total
  {
    QuotaInForce(quota, events, states, i);
    assert Follows(states[i], events[i], states[i + 1]);
  }

  /** Over any stretch of a run the total grows only within the quotas then in force: it ends no higher
      than it began, or within the largest of them. So a quota lowered below the total stops it. */
  lemma {:induction false} TotalGrowsWithinQuotas(
    quota: Option<nat>, events: seq<Event>, states: seq<State>, k: nat, i: nat, limit: nat)
    requires IsRun(quota, events, states) && k <= i < |states|
    requires forall j {:trigger states[j]} :: k <= j < i ==> states[j].quota.Some? && states[j].quota.value <= limit
    ensures states[i].total <= states[k].total || states[i].total <= limit
    decreases i
  {
    if k < i {
      TotalGrowsWithinQuotas(quota, events, states, k, i - 1, limit);
      assert Follows(states[i - 1], events[i - 1], states[i]);
    }
  }

  predicate Lowers(s: State, e: Event) {
    e.SetQuota? && e.quota.Some? && (s.quota.None? || e.quota.value < s.quota.value)
  }

  /** As long as the quota is never lowered the total never exceeds it. */
  lemma {:induction false} TotalStaysWithinQuota(quota: Option<nat>, events: seq<Event>, states: seq<State>, i: nat)
    requires IsRun(quota, events, states) && i < |states|
    requires forall j {:trigger events[j]} :: 0 <= j < i ==> !Lowers(states[j], events[j])
    ensures states[i].quota.Some? ==> states[i].total <= states[i].quota.value
  {
    if i > 0 {
      TotalStaysWithinQuota(quota, events, states, i - 1);
      assert Follows(states[i - 1], events[i - 1], states[i]);
      assert !Lowers(states[i - 1], events[i - 1]);
    }
  }
}
