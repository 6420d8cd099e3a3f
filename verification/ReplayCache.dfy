/** The cache of recently seen handshake keys, and the plain log of accepted keys it stands for. */
module ReplayCache {
  datatype Answer = Accepted | Replayed | Full

  datatype Request<K> = Request(time: nat, key: K)

  datatype Cache<K> = Cache(keys: set<K>, expiry: seq<Request<K>>)

  /** Time differences do not go below zero. */
  function Since(now: nat, seen: nat): nat {
    if now < seen then 0 else now - seen
  }

  predicate Expired<K>(e: Request<K>, ttl: nat, now: nat) {
    Since(now, e.time) > ttl
  }

  /** Pops expired entries off the front, and stops at the first that is not. */
  function Expire<K>(c: Cache<K>, ttl: nat, now: nat): Cache<K>
    decreases |c.expiry|
  {
    if c.expiry == [] || !Expired(c.expiry[0], ttl, now) then c
    else Expire(Cache(c.keys - {c.expiry[0].key}, c.expiry[1..]), ttl, now)
  }

  function Insert<K>(c: Cache<K>, ttl: nat, capacity: nat, r: Request<K>): (Cache<K>, Answer) {
    var c1 := Expire(c, ttl, r.time);
    if r.key in c1.keys then (c1, Replayed)
    else if |c1.keys| >= capacity then (c1, Full)
    else (Cache(c1.keys + {r.key}, c1.expiry + [r]), Accepted)
  }

  function KeysOf<K>(q: seq<Request<K>>): set<K> {
    set i | 0 <= i < |q| :: q[i].key
  }

  /** The set holds the keys of the queue, and the queue holds each once. */
  ghost predicate Consistent<K(!new)>(c: Cache<K>) {
    c.keys == KeysOf(c.expiry) && forall i, j :: 0 <= i < j < |c.expiry| ==> c.expiry[i].key != c.expiry[j].key
  }

  ghost predicate Sorted<K(!new)>(q: seq<Request<K>>) {
    forall i, j :: 0 <= i < j < |q| ==> q[i].time <= q[j].time
  }

  lemma PopConsistent<K(!new)>(c: Cache<K>)
    requires Consistent(c) && c.expiry != []
    ensures Consistent(Cache(c.keys - {c.expiry[0].key}, c.expiry[1..]))
  {
  }

  /** Whatever the clock does, set and queue stay the same thing, and only a front part goes. */
  lemma {:induction false} ExpireKeeps<K(!new)>(c: Cache<K>, ttl: nat, now: nat)
    requires Consistent(c)
    ensures Consistent(Expire(c, ttl, now))
    ensures |Expire(c, ttl, now).expiry| <= |c.expiry|
    ensures Expire(c, ttl, now).expiry == c.expiry[|c.expiry| - |Expire(c, ttl, now).expiry|..]
    ensures forall i :: 0 <= i < |c.expiry| - |Expire(c, ttl, now).expiry| ==> Expired(c.expiry[i], ttl, now)
    decreases |c.expiry|
  {
    if c.expiry != [] && Expired(c.expiry[0], ttl, now) {
      PopConsistent(c);
      ExpireKeeps(Cache(c.keys - {c.expiry[0].key}, c.expiry[1..]), ttl, now);
    }
  }

  lemma {:induction false} FrontStays<K>(c: Cache<K>, ttl: nat, now: nat)
    ensures Expire(c, ttl, now).expiry != [] ==> !Expired(Expire(c, ttl, now).expiry[0], ttl, now)
    decreases |c.expiry|
  {
    if c.expiry != [] && Expired(c.expiry[0], ttl, now) {
      FrontStays(Cache(c.keys - {c.expiry[0].key}, c.expiry[1..]), ttl, now);
    }
  }

  /** With times in order, popping the front removes every expired entry: the keys left are exactly
      those with an unexpired entry. */
  lemma ExpireExact<K(!new)>(c: Cache<K>, ttl: nat, now: nat)
    requires Consistent(c) && Sorted(c.expiry)
    ensures forall i :: 0 <= i < |Expire(c, ttl, now).expiry| ==> !Expired(Expire(c, ttl, now).expiry[i], ttl, now)
  {
    ExpireKeeps(c, ttl, now);
    FrontStays(c, ttl, now);
  }

  // ---- the log

  /** The keys accepted at most `ttl` before `now`. */
  function Recent<K>(log: seq<Request<K>>, ttl: nat, now: nat): set<K> {
    set i | 0 <= i < |log| && !Expired(log[i], ttl, now) :: log[i].key
  }

  /** The answer by the log alone. */
  function Verdict<K(==)>(log: seq<Request<K>>, ttl: nat, capacity: nat, r: Request<K>): Answer {
    if r.key in Recent(log, ttl, r.time) then Replayed
    else if |Recent(log, ttl, r.time)| >= capacity then Full
    else Accepted
  }

  /** The cache holds the end of the log, and all before it had expired by time `now`. */
  ghost predicate Tracks<K(!new)>(log: seq<Request<K>>, c: Cache<K>, ttl: nat, now: nat) {
    && Consistent(c) && Sorted(log) && |c.expiry| <= |log|
    && c.expiry == log[|log| - |c.expiry|..]
    && (forall i :: 0 <= i < |log| - |c.expiry| ==> Expired(log[i], ttl, now))
    && (forall i :: 0 <= i < |log| ==> log[i].time <= now)
  }

  lemma ExpireTracks<K(!new)>(log: seq<Request<K>>, c: Cache<K>, ttl: nat, before: nat, now: nat)
    requires Tracks(log, c, ttl, before) && before <= now
    ensures Tracks(log, Expire(c, ttl, now), ttl, now)
    ensures Expire(c, ttl, now).keys == Recent(log, ttl, now)
  {
    var c1 := Expire(c, ttl, now);
    ExpireKeeps(c, ttl, now);
    var cut := |log| - |c.expiry|;
    var cut1 := |log| - |c1.expiry|;
    assert c1.expiry == log[cut1..];
    forall i | 0 <= i < cut1 ensures Expired(log[i], ttl, now) {
      if i >= cut { assert log[i] == c.expiry[i - cut]; }
    }
    assert Sorted(c.expiry) by { SortedEnd(log, cut); }
    ExpireExact(c, ttl, now);
    assert c1.keys == KeysOf(c1.expiry);
    RecentIsEnd(log, cut1, ttl, now);
  }

  lemma SortedEnd<K(!new)>(log: seq<Request<K>>, cut: nat)
    requires Sorted(log) && cut <= |log|
    ensures Sorted(log[cut..])
  {
  }

  lemma RecentIsEnd<K(!new)>(log: seq<Request<K>>, cut: nat, ttl: nat, now: nat)
    requires cut <= |log| && forall i :: 0 <= i < cut ==> Expired(log[i], ttl, now)
    requires forall i :: 0 <= i < |log[cut..]| ==> !Expired(log[cut..][i], ttl, now)
    ensures KeysOf(log[cut..]) == Recent(log, ttl, now)
  {
  }

  lemma AppendConsistent<K(!new)>(c: Cache<K>, r: Request<K>)
    requires Consistent(c) && r.key !in c.keys
    ensures Consistent(Cache(c.keys + {r.key}, c.expiry + [r]))
  {
    var q := c.expiry + [r];
    forall k ensures k in KeysOf(q) <==> k in c.keys + {r.key} {
      if k in c.keys {
        var i :| 0 <= i < |c.expiry| && c.expiry[i].key == k;
        assert q[i].key == k;
      }
      assert q[|c.expiry|] == r;
    }
    forall i, j | 0 <= i < j < |q| ensures q[i].key != q[j].key {
      assert q[i] == c.expiry[i] && c.expiry[i].key in KeysOf(c.expiry);
    }
  }

  /** One request: the cache answers as the log does, and goes on standing for it. */
  lemma InsertRefines<K(!new)>(log: seq<Request<K>>, c: Cache<K>, ttl: nat, capacity: nat, before: nat, r: Request<K>)
    requires Tracks(log, c, ttl, before) && before <= r.time
    ensures Insert(c, ttl, capacity, r).1 == Verdict(log, ttl, capacity, r)
    ensures Tracks(if Verdict(log, ttl, capacity, r).Accepted?
            then log + [r] else log, Insert(c, ttl, capacity, r).0, ttl, r.time)
  {
    hide Expire, Recent, Expired, Consistent;
    var c1 := Expire(c, ttl, r.time);
    ExpireTracks(log, c, ttl, before, r.time);
    if Verdict(log, ttl, capacity, r).Accepted? {
      AppendConsistent(c1, r);
      assert (log + [r])[|log| - |c1.expiry|..] == c1.expiry + [r];
      assert forall i :: 0 <= i < |log| ==> (log + [r])[i] == log[i];
    }
  }

  // ---- runs

  datatype Served<K> = Served(cache: Cache<K>, answers: seq<Answer>)

  function Serve<K>(rs: seq<Request<K>>, ttl: nat, capacity: nat): (s: Served<K>)
    ensures |s.answers| == |rs|
  {
    if rs == [] then Served(Cache({}, []), []) else
    var s := Serve(rs[..|rs| - 1], ttl, capacity);
    var (c, a) := Insert(s.cache, ttl, capacity, rs[|rs| - 1]);
    Served(c, s.answers + [a])
  }

  /** The requests that were accepted, in order. */
  function AcceptedOf<K>(rs: seq<Request<K>>, answers: seq<Answer>): seq<Request<K>>
    requires |answers| == |rs|
  {
    if rs == [] then [] else
    var n := |rs| - 1;
    AcceptedOf(rs[..n], answers[..n]) + (if answers[n].Accepted? then [rs[n]] else [])
  }

  function LastTime<K>(rs: seq<Request<K>>): nat {
    if rs == [] then 0 else rs[|rs| - 1].time
  }

  lemma SortedInit<K(!new)>(rs: seq<Request<K>>)
    requires Sorted(rs) && rs != []
    ensures Sorted(rs[..|rs| - 1]) && LastTime(rs[..|rs| - 1]) <= rs[|rs| - 1].time
  {
  }

  /** In every run with times in order the cache stands for the log of accepted requests. */
  lemma {:induction false} ServeTracks<K(!new)>(rs: seq<Request<K>>, ttl: nat, capacity: nat)
    requires Sorted(rs)
    ensures Tracks(AcceptedOf(rs, Serve(rs, ttl, capacity).answers), Serve(rs, ttl, capacity).cache, ttl, LastTime(rs))
  {
    hide Tracks, Insert;
    if rs == [] {
      EmptyTracks<K>(ttl);
    } else {
      var init, last := rs[..|rs| - 1], rs[|rs| - 1];
      SortedInit(rs);
      ServeTracks(init, ttl, capacity);
      var s := Serve(init, ttl, capacity);
      var log := AcceptedOf(init, s.answers);
      InsertRefines(log, s.cache, ttl, capacity, LastTime(init), last);
      var answers := Serve(rs, ttl, capacity).answers;
      assert answers[..|rs| - 1] == s.answers;
      if !answers[|rs| - 1].Accepted? { assert log + [] == log; }
    }
  }

  lemma EmptyTracks<K(!new)>(ttl: nat)
    ensures Tracks<K>([], Cache({}, []), ttl, 0)
  {
  }

  lemma {:induction false} ServePrefix<K>(rs: seq<Request<K>>, ttl: nat, capacity: nat, j: nat)
    requires j <= |rs|
    ensures Serve(rs[..j], ttl, capacity).answers == Serve(rs, ttl, capacity).answers[..j]
  {
    if j == |rs| {
      assert rs[..j] == rs;
    } else {
      var init := rs[..|rs| - 1];
      ServePrefix(init, ttl, capacity, j);
      assert init[..j] == rs[..j];
      assert Serve(rs, ttl, capacity).answers[..j] == Serve(init, ttl, capacity).answers[..j];
    }
  }

  /** The keys accepted by the first `j` requests at most `ttl` before `now`. */
  function RecentlyAccepted<K>(rs: seq<Request<K>>, answers: seq<Answer>, j: nat, ttl: nat, now: nat): set<K>
    requires j <= |rs| == |answers|
  {
    set i | 0 <= i < j && answers[i].Accepted? && !Expired(rs[i], ttl, now) :: rs[i].key
  }

  lemma {:induction false} RecentOfAccepted<K(!new)>(rs: seq<Request<K>>, answers: seq<Answer>, j: nat, ttl: nat,
      now: nat)
    requires j <= |rs| == |answers|
    ensures Recent(AcceptedOf(rs[..j], answers[..j]), ttl, now) == RecentlyAccepted(rs, answers, j, ttl, now)
  {
    hide Expired;
    if j > 0 {
      RecentOfAccepted(rs, answers, j - 1, ttl, now);
      assert rs[..j][..j - 1] == rs[..j - 1] && answers[..j][..j - 1] == answers[..j - 1];
      var log := AcceptedOf(rs[..j - 1], answers[..j - 1]);
      if answers[j - 1].Accepted? {
        assert AcceptedOf(rs[..j], answers[..j]) == log + [rs[j - 1]];
        RecentAppend(log, rs[j - 1], ttl, now);
      } else {
        assert AcceptedOf(rs[..j], answers[..j]) == log;
      }
      AcceptedAppend(rs, answers, j - 1, ttl, now);
    }
  }

  lemma RecentAppend<K(!new)>(log: seq<Request<K>>, r: Request<K>, ttl: nat, now: nat)
    ensures Recent(log + [r], ttl, now) == Recent(log, ttl, now) + (if Expired(r, ttl, now) then {} else {r.key})
  {
    var q := log + [r];
    forall k ensures k in Recent(q, ttl, now) <==> k in Recent(log, ttl, now) || (!Expired(r, ttl, now) && k == r.key) {
      if k in Recent(log, ttl, now) {
        var i :| 0 <= i < |log| && !Expired(log[i], ttl, now) && log[i].key == k;
        assert q[i] == log[i];
      }
      assert q[|log|] == r;
    }
  }

  lemma AcceptedAppend<K(!new)>(rs: seq<Request<K>>, answers: seq<Answer>, j: nat, ttl: nat, now: nat)
    requires j < |rs| == |answers|
    ensures RecentlyAccepted(rs, answers, j + 1, ttl, now)
         == RecentlyAccepted(rs, answers, j, ttl, now)
            + (if answers[j].Accepted? && !Expired(rs[j], ttl, now) then {rs[j].key} else {})
  {
  }

  /** Every answer of every run with times in order, by the earlier requests alone: `Replayed` exactly
      when the key was accepted at most `ttl` ago, otherwise `Full` exactly when at least `capacity`
      different keys were accepted at most `ttl` ago. */
  lemma AnswersByLog<K(!new)>(rs: seq<Request<K>>, ttl: nat, capacity: nat, j: nat)
    requires Sorted(rs) && j < |rs|
    ensures var answers := Serve(rs, ttl, capacity).answers;
            var recent := RecentlyAccepted(rs, answers, j, ttl, rs[j].time);
            answers[j] == if rs[j].key in recent then Replayed else if |recent| >= capacity then Full else Accepted
  {
    hide Insert, Tracks, Serve, AcceptedOf, Sorted, Expired;
    var answers := Serve(rs, ttl, capacity).answers;
    SortedUpTo(rs, j);
    LastAnswer(rs, ttl, capacity, j);
    ServeTracks(rs[..j], ttl, capacity);
    ServePrefix(rs, ttl, capacity, j);
    InsertRefines(AcceptedOf(rs[..j], answers[..j]), Serve(rs[..j], ttl, capacity).cache, ttl, capacity,
        LastTime(rs[..j]), rs[j]);
    RecentOfAccepted(rs, answers, j, ttl, rs[j].time);
  }

  lemma SortedUpTo<K(!new)>(rs: seq<Request<K>>, j: nat)
    requires Sorted(rs) && j < |rs|
    ensures Sorted(rs[..j]) && LastTime(rs[..j]) <= rs[j].time
  {
  }

  lemma LastAnswer<K>(rs: seq<Request<K>>, ttl: nat, capacity: nat, j: nat)
    requires j < |rs|
    ensures Serve(rs, ttl, capacity).answers[j] == Insert(Serve(rs[..j], ttl, capacity).cache, ttl, capacity, rs[j]).1
  {
    hide Insert;
    ServePrefix(rs, ttl, capacity, j + 1);
    var upTo := rs[..j + 1];
    assert upTo[..j] == rs[..j] && upTo[j] == rs[j];
  }

  /** No key is accepted twice within `ttl`. */
  lemma NoReplay<K(!new)>(rs: seq<Request<K>>, ttl: nat, capacity: nat, i: nat, j: nat)
    requires Sorted(rs) && i < j < |rs| && rs[i].key == rs[j].key
    requires Serve(rs, ttl, capacity).answers[i].Accepted? && Serve(rs, ttl, capacity).answers[j].Accepted?
    ensures rs[j].time - rs[i].time > ttl
  {
    AnswersByLog(rs, ttl, capacity, j);
    var answers := Serve(rs, ttl, capacity).answers;
    assert rs[i].key !in RecentlyAccepted(rs, answers, j, ttl, rs[j].time);
  }

  // ---- the cache, updated in place

  class ReplayCache<K(==, !new)> {
    var keys: set<K>
    var expiry: seq<Request<K>>
    const ttl: nat
    const capacity: nat

    constructor (ttl: nat, capacity: nat)
      ensures View() == Cache({}, []) && this.ttl == ttl && this.capacity == capacity
    {
      keys, expiry := {}, [];
      this.ttl, this.capacity := ttl, capacity;
    }

    ghost function View(): Cache<K>
      reads this
    {
      Cache(keys, expiry)
    }

    method CheckAndStore(key: K, now: nat) returns (answer: Answer)
      modifies this
      ensures (View(), answer) == Insert(old(View()), ttl, capacity, Request(now, key))
    {
      while expiry != [] && Expired(expiry[0], ttl, now)
        invariant Expire(View(), ttl, now) == Expire(old(View()), ttl, now)
        decreases |expiry|
      {
        keys := keys - {expiry[0].key};
        expiry := expiry[1..];
      }
      if key in keys { return Replayed; }
      if |keys| >= capacity { return Full; }
      keys := keys + {key};
      expiry := expiry + [Request(now, key)];
      return Accepted;
    }
  }
}
