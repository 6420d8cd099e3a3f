/** The frame loop of an AnyTLS server session: which bytes reach which stream. */
module AnyTlsServer {
  import opened Common
  import opened Targets
  import opened Uot
  import AnyTls

  const MAX_PENDING_UOT: nat := 256
  const MAX_SESSION_STREAMS: nat := 1024
  const CMD_FIN: Byte := 3
  const CMD_SETTINGS: Byte := 4
  const CMD_ALERT: Byte := 5

  function Ascii(s: string): Bytes {
    seq(|s|, i requires 0 <= i < |s| => s[i] as int % 256)
  }

  const MAGIC_ADDRESS: Bytes := Ascii("sp.v2.udp-over-tcp.arpa")
  const LEGACY_MAGIC_ADDRESS: Bytes := Ascii("sp.udp-over-tcp.arpa")

  function Lower(b: Bytes): Bytes {
    seq(|b|, i requires 0 <= i < |b| => if 65 <= b[i] <= 90 then b[i] + 32 else b[i])
  }

  predicate IsLegacy(t: Target) {
    t.Domain? && Lower(t.host) == LEGACY_MAGIC_ADDRESS
  }

  predicate IsMagic(t: Target) {
    t.Domain? && (Lower(t.host) == MAGIC_ADDRESS || Lower(t.host) == LEGACY_MAGIC_ADDRESS)
  }

  const LEGACY_REQUEST: Request := Request(false, V4([0, 0, 0, 0], 0))

  /** An open stream: its target, its request if it carries UDP, and the chunks queued for its task. */
  datatype Stream = Stream(target: Target, request: Option<Request>, handed: seq<Bytes>)

  datatype Waiting = Waiting(target: Target, buffer: Bytes)

  datatype Session = Session(
    settings: bool, pending: set<nat>, pendingUot: map<nat, Waiting>, streams: map<nat, Stream>)

  const START: Session := Session(false, {}, map[], map[])

  /** First bytes are queued as one chunk, if there are any. */
  function Queued(initial: Bytes): seq<Bytes> {
    if initial == [] then [] else [initial]
  }

  /** Opening a stream on its target and first bytes. Binding and dialing are taken to succeed. */
  function OpenStream(utf8: Bytes -> bool, target: Target, initial: Bytes): Option<Stream> {
    if !IsMagic(target) then Some(Stream(target, None, Queued(initial)))
    else if IsLegacy(target) then Some(Stream(target, Some(LEGACY_REQUEST), Queued(initial)))
    else match TakeRequest(utf8, initial)
      case Ok(Some(t)) => Some(Stream(target, Some(t.request), Queued(t.rest)))
      case _ => None
  }

  function WithStream(st: Session, id: nat, stream: Option<Stream>): Session {
    if stream.Some? then st.(streams := st.streams[id := stream.value]) else st
  }

  /** A PSH for a stream whose request is still incomplete. Once it is complete the server writes the
      target out again and reads it back, which changes nothing: see TargetUnchanged. */
  function PushWaiting(utf8: Bytes -> bool, st: Session, id: nat, payload: Bytes): Result<Session>
    requires id in st.pendingUot
  {
    var w := st.pendingUot[id];
    if |w.buffer| + |payload| > MAX_UOT_BUFFER then Err else
    var buffer := w.buffer + payload;
    match RequestComplete(buffer)
    case Err => Err
    case Ok(false) => Ok(st.(pendingUot := st.pendingUot[id := w.(buffer := buffer)]))
    case Ok(true) => Ok(WithStream(st.(pendingUot := st.pendingUot - {id}), id, OpenStream(utf8, w.target, buffer)))
  }

  predicate NeedsMore(target: Target) {
    IsMagic(target) && !IsLegacy(target)
  }

  /** The first PSH of a stream: it starts with the target. */
  function PushFirst(utf8: Bytes -> bool, st0: Session, id: nat, payload: Bytes): Result<Session> {
    var st := st0.(pending := st0.pending - {id});
    match DecodeTarget(utf8, payload)
    case Err => Err
    case Ok(r) =>
      if NeedsMore(r.target) && RequestComplete(r.rest).Err? then Err
      else if NeedsMore(r.target) && !RequestComplete(r.rest).value then
        var st1 := st.(pendingUot := st.pendingUot[id := Waiting(r.target, r.rest)]);
        if |st1.pendingUot| <= MAX_PENDING_UOT then Ok(st1) else Err
      else Ok(WithStream(st, id, OpenStream(utf8, r.target, r.rest)))
  }

  /** One frame; an error ends the session. */
  function Handle(utf8: Bytes -> bool, st: Session, f: AnyTls.Frame): Result<Session> {
    var id := f.streamId;
    if f.cmd == AnyTls.CMD_SYN then
      if |st.streams| + |st.pending| + |st.pendingUot| < MAX_SESSION_STREAMS && st.settings
      then Ok(st.(pending := st.pending + {id})) else Err
    else if f.cmd == AnyTls.CMD_PSH && id in st.streams then
      Ok(st.(streams := st.streams[id := st.streams[id].(handed := st.streams[id].handed + [f.payload])]))
    else if f.cmd == AnyTls.CMD_PSH && id in st.pendingUot then PushWaiting(utf8, st, id, f.payload)
    else if f.cmd == AnyTls.CMD_PSH && id in st.pending then PushFirst(utf8, st, id, f.payload)
    else if f.cmd == CMD_FIN then
      Ok(st.(streams := st.streams - {id}, pending := st.pending - {id}, pendingUot := st.pendingUot - {id}))
    else if f.cmd == CMD_SETTINGS then Ok(st.(settings := true))
    else if f.cmd == CMD_ALERT then Err
    else Ok(st)
  }

  class ServerSession {
    const utf8: Bytes -> bool
    var settings: bool
    var pending: set<nat>
    var pendingUot: map<nat, Waiting>
    var streams: map<nat, Stream>

    function View(): Session
      reads this
    {
      Session(settings, pending, pendingUot, streams)
    }

    constructor (utf8: Bytes -> bool)
      ensures View() == START && this.utf8 == utf8
    {
      this.utf8 := utf8;
      settings, pending, pendingUot, streams := false, {}, map[], map[];
    }

    method Open(id: nat, target: Target, initial: Bytes)
      modifies this`streams
      ensures View() == WithStream(old(View()), id, OpenStream(utf8, target, initial))
    {
      var s := OpenStream(utf8, target, initial);
      if s.Some? {
        streams := streams[id := s.value];
      }
    }

    method Push(id: nat, payload: Bytes) returns (ok: bool)
      modifies this
      ensures ok <==> old(Handle(utf8, View(), AnyTls.Frame(AnyTls.CMD_PSH, id, payload))).Ok?
      ensures ok ==> View() == old(Handle(utf8, View(), AnyTls.Frame(AnyTls.CMD_PSH, id, payload))).value
    {
      hide OpenStream, RequestComplete, DecodeTarget, NeedsMore;
      ok := true;
      if id in streams {
        streams := streams[id := streams[id].(handed := streams[id].handed + [payload])];
      } else if id in pendingUot {
        var w := pendingUot[id];
        if |w.buffer| + |payload| > MAX_UOT_BUFFER {
          return false;
        }
        var buffer := w.buffer + payload;
        var complete := RequestComplete(buffer);
        if complete.Err? {
          return false;
        }
        if complete.value {
          pendingUot := pendingUot - {id};
          Open(id, w.target, buffer);
        } else {
          pendingUot := pendingUot[id := w.(buffer := buffer)];
        }
      } else if id in pending {
        ok := PushTarget(id, payload);
      }
    }

    method PushTarget(id: nat, payload: Bytes) returns (ok: bool)
      modifies this
      ensures ok <==> old(PushFirst(utf8, View(), id, payload)).Ok?
      ensures ok ==> View() == old(PushFirst(utf8, View(), id, payload)).value
    {
      hide OpenStream, RequestComplete, DecodeTarget, NeedsMore;
      pending := pending - {id};
      var read := DecodeTarget(utf8, payload);
      if read.Err? {
        return false;
      }
      var target, rest := read.value.target, read.value.rest;
      if NeedsMore(target) {
        var complete := RequestComplete(rest);
        if complete.Err? {
          return false;
        }
        if !complete.value {
          pendingUot := pendingUot[id := Waiting(target, rest)];
          return |pendingUot| <= MAX_PENDING_UOT;
        }
      }
      Open(id, target, rest);
      ok := true;
    }

    /** One turn of the frame loop. */
    method HandleFrame(f: AnyTls.Frame) returns (ok: bool)
      modifies this
      ensures ok <==> old(Handle(utf8, View(), f)).Ok?
      ensures ok ==> View() == old(Handle(utf8, View(), f)).value
    {
      ok := true;
      if f.cmd == AnyTls.CMD_SYN {
        if |streams| + |pending| + |pendingUot| >= MAX_SESSION_STREAMS || !settings {
          return false;
        }
        pending := pending + {f.streamId};
      } else if f.cmd == AnyTls.CMD_PSH {
        ok := Push(f.streamId, f.payload);
      } else if f.cmd == CMD_FIN {
        streams, pending, pendingUot := streams - {f.streamId}, pending - {f.streamId}, pendingUot - {f.streamId};
      } else if f.cmd == CMD_SETTINGS {
        settings := true;
      } else if f.cmd == CMD_ALERT {
        return false;
      }
    }
  }

  function HandleAll(utf8: Bytes -> bool, st: Session, frames: seq<AnyTls.Frame>): Result<Session>
    decreases |frames|
  {
    if frames == [] then Ok(st) else
    match Handle(utf8, st, frames[0])
    case Err => Err
    case Ok(st1) => HandleAll(utf8, st1, frames[1..])
  }

  predicate IsPushTo(id: nat, f: AnyTls.Frame) {
    f.cmd == AnyTls.CMD_PSH && f.streamId == id
  }

  /** The payloads pushed to one stream, in order. */
  function PushesTo(id: nat, frames: seq<AnyTls.Frame>): seq<Bytes> {
    if frames == [] then []
    else (if IsPushTo(id, frames[0]) then [frames[0].payload] else []) + PushesTo(id, frames[1..])
  }

  predicate NotFinished(id: nat, frames: seq<AnyTls.Frame>) {
    forall i :: 0 <= i < |frames| ==> !(frames[i].cmd == CMD_FIN && frames[i].streamId == id)
  }

  /** The stream that is open after the target, the bytes beside it and later pushes: as long as its
      request is not there whole, pushes are collected; then it opens, and pushes are queued. */
  function OpenedBy(utf8: Bytes -> bool, target: Target, bytes: Bytes, pushes: seq<Bytes>): Option<Stream>
    decreases |pushes|
  {
    if NeedsMore(target) && RequestComplete(bytes) == Ok(false) then
      (if pushes == [] then None else OpenedBy(utf8, target, bytes + pushes[0], pushes[1..]))
    else
      match OpenStream(utf8, target, bytes)
      case None => None
      case Some(s) => Some(s.(handed := s.handed + pushes))
  }

  /** The state of a stream depends only on its target and what came after it: it waits for the rest of
      its request, or it is open as above. */
  ghost predicate Stands(utf8: Bytes -> bool, st: Session, id: nat, target: Target, bytes: Bytes, pushes: seq<Bytes>) {
    if NeedsMore(target) && RequestComplete(bytes + Concat(pushes)) == Ok(false) then
      id !in st.streams && id in st.pendingUot && st.pendingUot[id] == Waiting(target, bytes + Concat(pushes))
    else
      id in st.streams && OpenedBy(utf8, target, bytes, pushes) == Some(st.streams[id])
  }

  /** The request at the front of the bytes, as far as it is there, is one the server can read. */
  ghost predicate Acceptable(utf8: Bytes -> bool, target: Target, bytes: Bytes) {
    NeedsMore(target) ==> TakeRequest(utf8, bytes).Ok?
  }

  lemma CompleteMeansTaken(utf8: Bytes -> bool, b: Bytes)
    requires TakeRequest(utf8, b).Ok?
    ensures RequestComplete(b).Ok? && (RequestComplete(b).value <==> TakeRequest(utf8, b).value.Some?)
  {
  }

  /** More bytes do not change a request that is complete, only add to what follows it. */
  lemma RequestSettled(utf8: Bytes -> bool, b: Bytes, c: Bytes)
    requires TakeRequest(utf8, b).Ok? && TakeRequest(utf8, b).value.Some?
    ensures var t := TakeRequest(utf8, b).value.value;
            TakeRequest(utf8, b + c) == Ok(Some(TakenRequest(t.request, t.rest + c)))
  {
    var n := RequestLen(b).value.value;
    RequestLenOfExtension(b, c);
    assert (b + c)[..n] == b[..n] && (b + c)[n..] == b[n..] + c;
  }

  /** A request that was there whole stays so. */
  lemma CompleteStays(utf8: Bytes -> bool, b: Bytes, c: Bytes)
    requires TakeRequest(utf8, b + c).Ok? && RequestComplete(b + c) == Ok(false)
    ensures RequestComplete(b) == Ok(false)
  {
    if |b| >= 2 { assert (b + c)[1] == b[1]; }
    if RequestLen(b).Ok? && RequestLen(b).value.Some? { RequestLenOfExtension(b, c); }
  }

  /** One more push is collected, opens the stream, or is queued. */
  lemma {:induction false} OneMorePush(utf8: Bytes -> bool, target: Target, bytes: Bytes, pushes: seq<Bytes>, p: Bytes)
    requires NeedsMore(target) ==> TakeRequest(utf8, bytes + Concat(pushes)).Ok?
    ensures NeedsMore(target) && RequestComplete(bytes + Concat(pushes)) == Ok(false)
            ==> OpenedBy(utf8, target, bytes, pushes + [p]) == OpenedBy(utf8, target, bytes + Concat(pushes) + p, [])
    ensures OpenedBy(utf8, target, bytes, pushes).Some?
            ==> var s := OpenedBy(utf8, target, bytes, pushes).value;
                OpenedBy(utf8, target, bytes, pushes + [p]) == Some(s.(handed := s.handed + [p]))
    decreases |pushes|
  {
    hide TakeRequest, RequestComplete, OpenStream, NeedsMore;
    var all := bytes + Concat(pushes);
    if NeedsMore(target) && RequestComplete(bytes) == Ok(false) {
      if pushes == [] {
        assert bytes + [] == bytes && [] + [p] == [p] && [p][1..] == [];
        assert OpenedBy(utf8, target, bytes, pushes) == None;
      } else {
        Associative(bytes, pushes[0], Concat(pushes[1..]));
        assert (pushes + [p])[0] == pushes[0] && (pushes + [p])[1..] == pushes[1..] + [p];
        OneMorePush(utf8, target, bytes + pushes[0], pushes[1..], p);
        assert OpenedBy(utf8, target, bytes, pushes) == OpenedBy(utf8, target, bytes + pushes[0], pushes[1..]);
      }
    } else {
      if NeedsMore(target) && RequestComplete(all) == Ok(false) { CompleteStays(utf8, bytes, Concat(pushes)); }
      if OpenStream(utf8, target, bytes).Some? {
        Associative(OpenStream(utf8, target, bytes).value.handed, pushes, [p]);
      }
    }
  }

  /** A PSH to the stream: a waiting stream accepts it exactly if it fits the buffer beside what is
      waiting, an open one always. */
  lemma PushStands(
    utf8: Bytes -> bool, st: Session, id: nat, target: Target, bytes: Bytes, pushes: seq<Bytes>, payload: Bytes)
    requires Stands(utf8, st, id, target, bytes, pushes)
    requires Acceptable(utf8, target, bytes + Concat(pushes))
             && Acceptable(utf8, target, bytes + Concat(pushes) + payload)
    ensures var r := Handle(utf8, st, AnyTls.Frame(AnyTls.CMD_PSH, id, payload));
            && (r.Ok? <==> id in st.streams || |bytes + Concat(pushes)| + |payload| <= MAX_UOT_BUFFER)
            && (r.Ok? ==> Stands(utf8, r.value, id, target, bytes, pushes + [payload]))
  {
    hide TakeRequest, RequestComplete, IsMagic, IsLegacy, OpenedBy;
    var all := bytes + Concat(pushes);
    ConcatSnoc(pushes, payload);
    Associative(bytes, Concat(pushes), payload);
    OneMorePush(utf8, target, bytes, pushes, payload);
    NeedsMoreIsMagic(target);
    if NeedsMore(target) {
      CompleteMeansTaken(utf8, all);
      CompleteMeansTaken(utf8, all + payload);
      if RequestComplete(all + payload) == Ok(false) { CompleteStays(utf8, all, payload); }
      if RequestComplete(all + payload) != Ok(false) { OpenedNow(utf8, target, all + payload); }
    }
  }

  lemma NeedsMoreIsMagic(t: Target)
    ensures NeedsMore(t) ==> IsMagic(t) && !IsLegacy(t)
  {
  }

  predicate Untouched(st: Session, st1: Session, id: nat) {
    && (id in st1.streams <==> id in st.streams) && (id in st.streams ==> st1.streams[id] == st.streams[id])
    && (id in st1.pendingUot <==> id in st.pendingUot)
    && (id in st.pendingUot ==> st1.pendingUot[id] == st.pendingUot[id])
  }

  lemma PushesElsewhere(utf8: Bytes -> bool, st: Session, other: nat, payload: Bytes, id: nat)
    requires other != id
    ensures other in st.pendingUot && PushWaiting(utf8, st, other, payload).Ok?
            ==> Untouched(st, PushWaiting(utf8, st, other, payload).value, id)
    ensures PushFirst(utf8, st, other, payload).Ok? ==> Untouched(st, PushFirst(utf8, st, other, payload).value, id)
  {
  }

  lemma HandleElsewhere(utf8: Bytes -> bool, st: Session, f: AnyTls.Frame, id: nat)
    requires f.streamId != id || (f.cmd != AnyTls.CMD_PSH && f.cmd != CMD_FIN)
    requires Handle(utf8, st, f).Ok?
    ensures Untouched(st, Handle(utf8, st, f).value, id)
  {
    hide PushWaiting, PushFirst;
    if f.streamId != id {
      PushesElsewhere(utf8, st, f.streamId, f.payload, id);
      RemovalElsewhere(st, f.streamId, id);
      HandedElsewhere(st, f.streamId, f.payload, id);
    }
    hide Untouched;
    SameUntouched(st, Handle(utf8, st, f).value, id);
  }

  lemma SameUntouched(st: Session, st1: Session, id: nat)
    ensures st1.streams == st.streams && st1.pendingUot == st.pendingUot ==> Untouched(st, st1, id)
  {
  }

  lemma RemovalElsewhere(st: Session, other: nat, id: nat)
    requires other != id
    ensures var st1 := st.(streams := st.streams - {other}, pending := st.pending - {other},
                           pendingUot := st.pendingUot - {other});
            Untouched(st, st1, id)
  {
  }

  lemma HandedElsewhere(st: Session, other: nat, payload: Bytes, id: nat)
    requires other != id
    ensures other in st.streams ==>
              var s := st.streams[other];
              Untouched(st, st.(streams := st.streams[other := s.(handed := s.handed + [payload])]), id)
  {
  }

  /** Any frame that is not for the stream, or does not push or finish it. */
  lemma OthersStand(
    utf8: Bytes -> bool, st: Session, id: nat, target: Target, bytes: Bytes, pushes: seq<Bytes>, f: AnyTls.Frame)
    requires Stands(utf8, st, id, target, bytes, pushes) && Handle(utf8, st, f).Ok?
    requires f.streamId != id || (f.cmd != AnyTls.CMD_PSH && f.cmd != CMD_FIN)
    ensures Stands(utf8, Handle(utf8, st, f).value, id, target, bytes, pushes)
  {
    hide RequestComplete, NeedsMore, OpenedBy, Handle;
    HandleElsewhere(utf8, st, f, id);
  }

  ghost predicate AcceptableThroughout(utf8: Bytes -> bool, target: Target, bytes: Bytes) {
    forall k :: 0 <= k <= |bytes| ==> Acceptable(utf8, target, bytes[..k])
  }

  lemma AcceptableParts(utf8: Bytes -> bool, target: Target, a: Bytes, b: Bytes, c: Bytes)
    requires AcceptableThroughout(utf8, target, a + (b + c))
    ensures Acceptable(utf8, target, a) && Acceptable(utf8, target, a + b)
  {
    var all := a + (b + c);
    assert all[..|a|] == a && all[..|a + b|] == a + b;
  }

  /** However the bytes after the target are split over PSH frames, and whatever other streams do in
      between, the stream ends up where its target and those pushes put it. */
  lemma {:induction false} PushesDecide(
    utf8: Bytes -> bool, st: Session, id: nat, target: Target, bytes: Bytes, pushes: seq<Bytes>,
    frames: seq<AnyTls.Frame>)
    requires Stands(utf8, st, id, target, bytes, pushes) && NotFinished(id, frames)
    requires AcceptableThroughout(utf8, target, bytes + Concat(pushes) + Concat(PushesTo(id, frames)))
    requires HandleAll(utf8, st, frames).Ok?
    ensures Stands(utf8, HandleAll(utf8, st, frames).value, id, target, bytes, pushes + PushesTo(id, frames))
    decreases |frames|
  {
    hide Stands, Handle, Acceptable, AcceptableThroughout;
    if frames == [] {
      assert pushes + [] == pushes;
    } else {
      var f, rest := frames[0], PushesTo(id, frames[1..]);
      var st1 := Handle(utf8, st, f).value;
      if IsPushTo(id, f) {
        PushStep(bytes, pushes, f.payload, rest);
        assert ([f.payload] + rest)[1..] == rest;
        AcceptableParts(utf8, target, bytes + Concat(pushes), f.payload, Concat(rest));
        PushStands(utf8, st, id, target, bytes, pushes, f.payload);
        PushesDecide(utf8, st1, id, target, bytes, pushes + [f.payload], frames[1..]);
      } else {
        assert [] + rest == rest;
        OthersStand(utf8, st, id, target, bytes, pushes, f);
        PushesDecide(utf8, st1, id, target, bytes, pushes, frames[1..]);
      }
    }
  }

  lemma PushStep(bytes: Bytes, pushes: seq<Bytes>, p: Bytes, rest: seq<Bytes>)
    ensures bytes + Concat(pushes) + Concat([p] + rest) == bytes + Concat(pushes + [p]) + Concat(rest)
    ensures bytes + Concat(pushes) + Concat([p] + rest) == (bytes + Concat(pushes)) + (p + Concat(rest))
    ensures pushes + ([p] + rest) == (pushes + [p]) + rest
  {
    ConcatSnoc(pushes, p);
    assert ([p] + rest)[1..] == rest;
  }

  /** The split does not matter: target, request and all bytes handed on are those that the bytes in one
      piece would give. */
  lemma {:induction false} SplitDoesNotMatter(utf8: Bytes -> bool, target: Target, bytes: Bytes, pushes: seq<Bytes>)
    requires OpenedBy(utf8, target, bytes, pushes).Some?
    ensures var s := OpenedBy(utf8, target, bytes, pushes).value;
            var t := OpenStream(utf8, target, bytes + Concat(pushes));
            && t.Some? && s.target == t.value.target && s.request == t.value.request
            && Concat(s.handed) == Concat(t.value.handed)
    decreases |pushes|
  {
    hide TakeRequest, RequestComplete, NeedsMore;
    if NeedsMore(target) && RequestComplete(bytes) == Ok(false) {
      Associative(bytes, pushes[0], Concat(pushes[1..]));
      SplitDoesNotMatter(utf8, target, bytes + pushes[0], pushes[1..]);
    } else {
      var s := OpenStream(utf8, target, bytes).value;
      OpenStreamExtends(utf8, target, bytes, Concat(pushes));
      ConcatAppend(s.handed, pushes);
    }
  }

  lemma OpenStreamExtends(utf8: Bytes -> bool, target: Target, b: Bytes, c: Bytes)
    requires OpenStream(utf8, target, b).Some?
    ensures var s, t := OpenStream(utf8, target, b).value, OpenStream(utf8, target, b + c);
            && t.Some? && t.value.target == s.target && t.value.request == s.request
            && Concat(t.value.handed) == Concat(s.handed) + c
  {
    hide TakeRequest;
    QueuedBytes(b);
    QueuedBytes(b + c);
    if IsMagic(target) && !IsLegacy(target) {
      RequestSettled(utf8, b, c);
      var rest := TakeRequest(utf8, b).value.value.rest;
      QueuedBytes(rest);
      QueuedBytes(rest + c);
    }
  }

  lemma QueuedBytes(b: Bytes)
    ensures Concat(Queued(b)) == b
  {
  }

  /** The first PSH holds the whole target. It is accepted exactly if the request is there too, or one
      more stream may wait. */
  lemma FirstPushStands(utf8: Bytes -> bool, st: Session, id: nat, target: Target, bytes: Bytes)
    requires id in st.pending && id !in st.streams && id !in st.pendingUot
    requires Readable(utf8, target) && Canonical(target) == target && Acceptable(utf8, target, bytes)
    ensures EncodeTarget(target).Ok?
    ensures var r := Handle(utf8, st, AnyTls.Frame(AnyTls.CMD_PSH, id, EncodeTarget(target).value + bytes));
            && (r.Ok? <==>
                !(NeedsMore(target) && RequestComplete(bytes) == Ok(false))
                || |st.pendingUot| < MAX_PENDING_UOT)
            && (r.Ok? ==> Stands(utf8, r.value, id, target, bytes, []))
  {
    hide TakeRequest, RequestComplete, IsMagic, IsLegacy, DecodeTarget, EncodeTarget, OpenedBy;
    TargetReadBack(utf8, target, bytes);
    NeedsMoreIsMagic(target);
    assert bytes + Concat([]) == bytes;
    assert st.pendingUot[id := Waiting(target, bytes)].Keys == st.pendingUot.Keys + {id};
    if NeedsMore(target) { CompleteMeansTaken(utf8, bytes); }
    if !NeedsMore(target) || RequestComplete(bytes) != Ok(false) { OpenedNow(utf8, target, bytes); }
  }

  lemma OpenedNow(utf8: Bytes -> bool, target: Target, bytes: Bytes)
    requires !NeedsMore(target) || RequestComplete(bytes) != Ok(false)
    ensures OpenedBy(utf8, target, bytes, []) == OpenStream(utf8, target, bytes)
  {
    hide RequestComplete, OpenStream;
    if OpenStream(utf8, target, bytes).Some? {
      var s := OpenStream(utf8, target, bytes).value;
      assert s.handed + [] == s.handed;
    }
  }

  // ---- the life of a stream, from the start of the session

  function Syn(id: nat): AnyTls.Frame {
    AnyTls.Frame(AnyTls.CMD_SYN, id, [])
  }

  predicate IsFor(id: nat, cmd: Byte, f: AnyTls.Frame) {
    f.cmd == cmd && f.streamId == id
  }

  /** The stream was announced, and not finished after that. */
  predicate SynSinceFin(id: nat, frames: seq<AnyTls.Frame>) {
    frames != []
    && (var f := frames[|frames| - 1];
        IsFor(id, AnyTls.CMD_SYN, f) || (!IsFor(id, CMD_FIN, f) && SynSinceFin(id, frames[..|frames| - 1])))
  }

  /** No frame pushes to the stream, or finishes it. */
  predicate Quiet(id: nat, frames: seq<AnyTls.Frame>) {
    NotFinished(id, frames) && forall i :: 0 <= i < |frames| ==> !IsPushTo(id, frames[i])
  }

  predicate Announces(id: nat, frames: seq<AnyTls.Frame>) {
    exists i :: 0 <= i < |frames| && IsFor(id, AnyTls.CMD_SYN, frames[i])
  }

  predicate Held(st: Session, id: nat) {
    id in st.pending || id in st.pendingUot || id in st.streams
  }

  lemma {:induction false} HandleAllAppend(
    utf8: Bytes -> bool, st: Session, a: seq<AnyTls.Frame>, b: seq<AnyTls.Frame>)
    ensures var r := HandleAll(utf8, st, a);
            HandleAll(utf8, st, a + b) == if r.Ok? then HandleAll(utf8, r.value, b) else Err
    decreases |a|
  {
    hide Handle;
    if a == [] {
      assert a + b == b;
    } else {
      assert (a + b)[0] == a[0] && (a + b)[1..] == a[1..] + b;
      var r := Handle(utf8, st, a[0]);
      if r.Ok? { HandleAllAppend(utf8, r.value, a[1..], b); }
    }
  }

  lemma HandleLast(utf8: Bytes -> bool, st: Session, a: seq<AnyTls.Frame>, f: AnyTls.Frame)
    ensures var r := HandleAll(utf8, st, a);
            HandleAll(utf8, st, a + [f]) == if r.Ok? then Handle(utf8, r.value, f) else Err
  {
    hide Handle;
    HandleAllAppend(utf8, st, a, [f]);
    assert [f][1..] == [];
  }

  /** A push moves a stream on, to other maps or out, and no other stream in. */
  lemma PushTells(utf8: Bytes -> bool, st: Session, other: nat, payload: Bytes, id: nat)
    ensures other in st.pendingUot && PushWaiting(utf8, st, other, payload).Ok?
            ==> var st1 := PushWaiting(utf8, st, other, payload).value;
                st1.settings == st.settings && st1.pending == st.pending && (Held(st1, id) ==> Held(st, id))
    ensures other in st.pending && PushFirst(utf8, st, other, payload).Ok?
            ==> var st1 := PushFirst(utf8, st, other, payload).value;
                && st1.settings == st.settings && st1.pending == st.pending - {other}
                && (Held(st1, id) ==> Held(st, id))
  {
    hide OpenStream, RequestComplete, DecodeTarget;
  }

  /** What one frame does to the settings, and to one stream's being held. */
  lemma HandleTells(utf8: Bytes -> bool, st: Session, f: AnyTls.Frame, id: nat)
    requires Handle(utf8, st, f).Ok?
    ensures var st1 := Handle(utf8, st, f).value;
            && (st1.settings <==> st.settings || f.cmd == CMD_SETTINGS)
            && (IsFor(id, AnyTls.CMD_SYN, f) ==> id in st1.pending)
            && (IsFor(id, CMD_FIN, f) ==> !Held(st1, id))
            && (!IsFor(id, AnyTls.CMD_SYN, f) && Held(st1, id) ==> Held(st, id))
            && (!IsFor(id, AnyTls.CMD_SYN, f) && !IsFor(id, CMD_FIN, f) && !IsPushTo(id, f)
                ==> (id in st1.pending <==> id in st.pending))
  {
    hide PushWaiting, PushFirst;
    PushTells(utf8, st, f.streamId, f.payload, id);
  }

  /** A session knows settings exactly after a SETTINGS frame, and holds no stream that was not
      announced since it was last finished: after a FIN the stream is in none of the three maps. */
  lemma {:induction false} HeldOnlyAfterSyn(utf8: Bytes -> bool, frames: seq<AnyTls.Frame>, id: nat)
    requires HandleAll(utf8, START, frames).Ok?
    ensures var st := HandleAll(utf8, START, frames).value;
            && (st.settings <==> exists i :: 0 <= i < |frames| && frames[i].cmd == CMD_SETTINGS)
            && (Held(st, id) ==> SynSinceFin(id, frames))
    decreases |frames|
  {
    hide Handle;
    if frames != [] {
      var n := |frames| - 1;
      var front, f := frames[..n], frames[n];
      assert frames == front + [f];
      HandleLast(utf8, START, front, f);
      HeldOnlyAfterSyn(utf8, front, id);
      HandleTells(utf8, HandleAll(utf8, START, front).value, f, id);
      assert (exists i :: 0 <= i < |frames| && frames[i].cmd == CMD_SETTINGS)
        <==> f.cmd == CMD_SETTINGS || exists i :: 0 <= i < n && front[i].cmd == CMD_SETTINGS;
    }
  }

  /** A SYN is accepted exactly if settings came before it and fewer than 1024 streams are held; then the
      stream waits for its target, and everything else stays. */
  lemma SynExactly(utf8: Bytes -> bool, frames: seq<AnyTls.Frame>, id: nat)
    requires HandleAll(utf8, START, frames).Ok?
    ensures var st := HandleAll(utf8, START, frames).value;
            var r := HandleAll(utf8, START, frames + [Syn(id)]);
            && (r.Ok? <==>
                (exists i :: 0 <= i < |frames| && frames[i].cmd == CMD_SETTINGS)
                && |st.streams| + |st.pending| + |st.pendingUot| < 1024)
            && (r.Ok? ==> r.value == Session(true, st.pending + {id}, st.pendingUot, st.streams))
  {
    HandleLast(utf8, START, frames, Syn(id));
    HeldOnlyAfterSyn(utf8, frames, id);
  }

  /** A PSH for a stream that was not announced since it was last finished changes nothing. */
  lemma PushWithoutSyn(utf8: Bytes -> bool, frames: seq<AnyTls.Frame>, id: nat, payload: Bytes)
    requires HandleAll(utf8, START, frames).Ok? && !SynSinceFin(id, frames)
    ensures HandleAll(utf8, START, frames + [AnyTls.Frame(AnyTls.CMD_PSH, id, payload)])
            == HandleAll(utf8, START, frames)
  {
    HandleLast(utf8, START, frames, AnyTls.Frame(AnyTls.CMD_PSH, id, payload));
    HeldOnlyAfterSyn(utf8, frames, id);
  }

  lemma {:induction false} QuietStays(utf8: Bytes -> bool, st: Session, id: nat, frames: seq<AnyTls.Frame>)
    requires HandleAll(utf8, st, frames).Ok? && Quiet(id, frames)
    ensures var st1 := HandleAll(utf8, st, frames).value;
            && (id in st1.pending <==> id in st.pending || Announces(id, frames))
            && (id in st1.streams <==> id in st.streams) && (id in st1.pendingUot <==> id in st.pendingUot)
    decreases |frames|
  {
    hide Handle;
    if frames != [] {
      var f, rest := frames[0], frames[1..];
      HandleTells(utf8, st, f, id);
      HandleElsewhere(utf8, st, f, id);
      QuietStays(utf8, Handle(utf8, st, f).value, id, rest);
      AnnouncesHead(id, frames);
    }
  }

  lemma AnnouncesHead(id: nat, frames: seq<AnyTls.Frame>)
    requires frames != []
    ensures Announces(id, frames) <==> IsFor(id, AnyTls.CMD_SYN, frames[0]) || Announces(id, frames[1..])
  {
    if Announces(id, frames[1..]) {
      var i :| 0 <= i < |frames[1..]| && IsFor(id, AnyTls.CMD_SYN, frames[1..][i]);
      assert frames[i + 1] == frames[1..][i];
    }
    if Announces(id, frames) {
      var i :| 0 <= i < |frames| && IsFor(id, AnyTls.CMD_SYN, frames[i]);
      if i > 0 { assert frames[1..][i - 1] == frames[i]; }
    }
  }

  function Opening(before: seq<AnyTls.Frame>, id: nat, between: seq<AnyTls.Frame>): seq<AnyTls.Frame> {
    before + ([Syn(id)] + between)
  }

  /** From its SYN to its first PSH a stream waits for its target, whatever other streams do. */
  lemma AnnouncedWaits(utf8: Bytes -> bool, before: seq<AnyTls.Frame>, id: nat, between: seq<AnyTls.Frame>)
    requires !SynSinceFin(id, before) && Quiet(id, between)
    requires HandleAll(utf8, START, Opening(before, id, between)).Ok?
    ensures var st := HandleAll(utf8, START, Opening(before, id, between)).value;
            id in st.pending && id !in st.streams && id !in st.pendingUot
  {
    hide Handle, SynSinceFin, HandleAll, Quiet;
    HandleAllAppend(utf8, START, before, [Syn(id)] + between);
    var st := HandleAll(utf8, START, before).value;
    HeldOnlyAfterSyn(utf8, before, id);
    OneFrame(utf8, st, id, Syn(id), between);
    HandleTells(utf8, st, Syn(id), id);
    HandleElsewhere(utf8, st, Syn(id), id);
    QuietStays(utf8, Handle(utf8, st, Syn(id)).value, id, between);
  }

  lemma {:induction false} OpenStaysAnnounced(
    utf8: Bytes -> bool, st: Session, id: nat, frames: seq<AnyTls.Frame>)
    requires HandleAll(utf8, st, frames).Ok? && NotFinished(id, frames) && id in st.streams
    ensures var st1 := HandleAll(utf8, st, frames).value;
            && id in st1.streams && (id in st1.pending <==> id in st.pending || Announces(id, frames))
            && (id in st1.pendingUot <==> id in st.pendingUot)
    decreases |frames|
  {
    hide Handle;
    if frames != [] {
      var f, rest := frames[0], frames[1..];
      OpenStep(utf8, st, id, f);
      OpenStaysAnnounced(utf8, Handle(utf8, st, f).value, id, rest);
      AnnouncesHead(id, frames);
    }
  }

  lemma OpenStep(utf8: Bytes -> bool, st: Session, id: nat, f: AnyTls.Frame)
    requires Handle(utf8, st, f).Ok? && id in st.streams && !IsFor(id, CMD_FIN, f)
    ensures var st1 := Handle(utf8, st, f).value;
            && id in st1.streams && (id in st1.pending <==> id in st.pending || IsFor(id, AnyTls.CMD_SYN, f))
            && (id in st1.pendingUot <==> id in st.pendingUot)
  {
    if !IsPushTo(id, f) {
      hide Handle;
      HandleTells(utf8, st, f, id);
      HandleElsewhere(utf8, st, f, id);
    }
  }

  /** The life of a stream that needs no request of its own: to a target for TCP, or to the legacy name for UDP,
      whose request is fixed. After its SYN the first PSH names the target, and opens exactly this
      stream on it; the bytes after the target and every later push are queued for it in order,
      whatever other streams do, and it is not waiting for a target any more unless it is announced
      again. */
  lemma StreamLife(
    utf8: Bytes -> bool, before: seq<AnyTls.Frame>, id: nat, between: seq<AnyTls.Frame>, target: Target, first: Bytes,
    frames: seq<AnyTls.Frame>)
    requires !SynSinceFin(id, before) && Quiet(id, between) && NotFinished(id, frames)
    requires Readable(utf8, target) && !NeedsMore(target) && EncodeTarget(target).Ok?
    requires HandleAll(utf8, START, Opening(before, id, between) + FromFirst(id, target, first, frames)).Ok?
    ensures var st := HandleAll(utf8, START, Opening(before, id, between) + FromFirst(id, target, first, frames)).value;
            && id in st.streams && id !in st.pendingUot && (id in st.pending <==> Announces(id, frames))
            && st.streams[id]
               == Stream(Canonical(target), FixedRequest(target),
                         (if first == [] then [] else [first]) + PushesTo(id, frames))
  {
    hide Handle, SynSinceFin, HandleAll, Quiet, NotFinished, EncodeTarget, DecodeTarget, NeedsMore, FixedRequest,
         PushesTo, Opening;
    var f := AnyTls.Frame(AnyTls.CMD_PSH, id, EncodeTarget(target).value + first);
    HandleAllAppend(utf8, START, Opening(before, id, between), FromFirst(id, target, first, frames));
    AnnouncedWaits(utf8, before, id, between);
    var st := HandleAll(utf8, START, Opening(before, id, between)).value;
    OneFrame(utf8, st, id, f, frames);
    FirstOpens(utf8, st, id, target, first);
    var st1 := Handle(utf8, st, f).value;
    OpenStaysAnnounced(utf8, st1, id, frames);
    SameKind(target);
    FixedStays(utf8, st1, id, Canonical(target), first, frames);
  }

  lemma FirstOpens(utf8: Bytes -> bool, st: Session, id: nat, target: Target, first: Bytes)
    requires id in st.pending && id !in st.streams && id !in st.pendingUot
    requires Readable(utf8, target) && !NeedsMore(target) && EncodeTarget(target).Ok?
    ensures Handle(utf8, st, AnyTls.Frame(AnyTls.CMD_PSH, id, EncodeTarget(target).value + first))
            == (var stream := Stream(Canonical(target), FixedRequest(target), if first == [] then [] else [first]);
                Ok(Session(st.settings, st.pending - {id}, st.pendingUot, st.streams[id := stream])))
  {
    hide EncodeTarget, DecodeTarget, IsMagic, IsLegacy, NeedsMore, OpenStream, FixedRequest;
    TargetReadBack(utf8, target, first);
    SameKind(target);
    OpensFixed(utf8, Canonical(target), first);
  }

  lemma SameKind(target: Target)
    requires ValidTarget(target)
    ensures NeedsMore(Canonical(target)) <==> NeedsMore(target)
    ensures FixedRequest(Canonical(target)) == FixedRequest(target)
  {
  }

  /** The request of a stream that does not carry its own. */
  function FixedRequest(target: Target): Option<Request> {
    if IsLegacy(target) then Some(Request(false, V4([0, 0, 0, 0], 0))) else None
  }

  lemma OpensFixed(utf8: Bytes -> bool, target: Target, first: Bytes)
    requires !NeedsMore(target)
    ensures OpenStream(utf8, target, first)
         == Some(Stream(target, FixedRequest(target), if first == [] then [] else [first]))
  {
    hide Lower;
  }

  lemma FixedStays(
    utf8: Bytes -> bool, st: Session, id: nat, target: Target, first: Bytes, frames: seq<AnyTls.Frame>)
    requires !NeedsMore(target) && HandleAll(utf8, st, frames).Ok? && NotFinished(id, frames)
    requires id in st.streams && st.streams[id] == Stream(target, FixedRequest(target), Queued(first))
    ensures var st1 := HandleAll(utf8, st, frames).value;
            && id in st1.streams
            && st1.streams[id] == Stream(target, FixedRequest(target), Queued(first) + PushesTo(id, frames))
  {
    hide HandleAll, PushesTo, NotFinished, NeedsMore, FixedRequest;
    OpensFixed(utf8, target, first);
    assert OpenedBy(utf8, target, first, []) == Some(st.streams[id]) by { assert Queued(first) + [] == Queued(first); }
    PushesDecide(utf8, st, id, target, first, [], frames);
    assert [] + PushesTo(id, frames) == PushesTo(id, frames);
  }

  /** The pushes that end a session: the request of a waiting stream is malformed or outgrows the buffer, or
      a first push has no readable target, a malformed request, or a request that would be the 257th
      to wait. */
  predicate BadPush(utf8: Bytes -> bool, st: Session, id: nat, payload: Bytes) {
    if id in st.streams then false
    else if id in st.pendingUot then
      |st.pendingUot[id].buffer| + |payload| > 65536 || RequestComplete(st.pendingUot[id].buffer + payload).Err?
    else
      && id in st.pending
      && (var r := DecodeTarget(utf8, payload);
          || r.Err?
          || (NeedsMore(r.value.target)
              && (RequestComplete(r.value.rest).Err?
                  || (!RequestComplete(r.value.rest).value && |st.pendingUot| >= 256))))
  }

  /** A session ends exactly with an alert, a SYN before the settings or beyond 1024 streams, or a bad push. */
  lemma EndsExactly(utf8: Bytes -> bool, frames: seq<AnyTls.Frame>, f: AnyTls.Frame)
    requires HandleAll(utf8, START, frames).Ok?
    ensures var st := HandleAll(utf8, START, frames).value;
            HandleAll(utf8, START, frames + [f]).Err? <==>
            || f.cmd == CMD_ALERT
            || (f.cmd == AnyTls.CMD_SYN
                && ((forall i :: 0 <= i < |frames| ==> frames[i].cmd != CMD_SETTINGS)
                    || |st.streams| + |st.pending| + |st.pendingUot| >= 1024))
            || (f.cmd == AnyTls.CMD_PSH && BadPush(utf8, st, f.streamId, f.payload))
  {
    hide BadPush, PushFirst, PushWaiting;
    HandleLast(utf8, START, frames, f);
    HeldOnlyAfterSyn(utf8, frames, f.streamId);
    if f.cmd == AnyTls.CMD_PSH { BadPushEnds(utf8, HandleAll(utf8, START, frames).value, f); }
  }

  lemma BadPushEnds(utf8: Bytes -> bool, st: Session, f: AnyTls.Frame)
    requires f.cmd == AnyTls.CMD_PSH
    ensures Handle(utf8, st, f).Err? <==> BadPush(utf8, st, f.streamId, f.payload)
  {
    hide DecodeTarget, RequestComplete, OpenStream, NeedsMore;
    var r := DecodeTarget(utf8, f.payload);
    if f.streamId !in st.pendingUot && r.Ok? {
      var more := st.pendingUot[f.streamId := Waiting(r.value.target, r.value.rest)];
      assert more.Keys == st.pendingUot.Keys + {f.streamId};
    }
  }

  // ---- UDP over an AnyTLS stream, end to end

  /** Every frame that is not a push to the stream is accepted in the state it arrives in. */
  ghost predicate OthersAccepted(utf8: Bytes -> bool, st: Session, id: nat, frames: seq<AnyTls.Frame>)
    decreases |frames|
  {
    frames == []
    || (var r := Handle(utf8, st, frames[0]);
        && (!IsPushTo(id, frames[0]) ==> r.Ok?)
        && (r.Ok? ==> OthersAccepted(utf8, r.value, id, frames[1..])))
  }

  /** As long as a request of `n` bytes is not whole, each push fits the buffer beside what is waiting. */
  predicate WaitingFits(n: nat, have: nat, pushes: seq<Bytes>)
    decreases |pushes|
  {
    pushes == [] || have >= n
    || (have + |pushes[0]| <= MAX_UOT_BUFFER && WaitingFits(n, have + |pushes[0]|, pushes[1..]))
  }

  /** The chunks queued for the uplink: what came with the end of the request, and later pushes. */
  function AfterRequest(n: nat, bytes: Bytes, pushes: seq<Bytes>): seq<Bytes>
    decreases |pushes|
  {
    if |bytes| >= n then Queued(bytes[n..]) + pushes
    else if pushes == [] then []
    else AfterRequest(n, bytes + pushes[0], pushes[1..])
  }

  ghost predicate ReadableRequest(utf8: Bytes -> bool, q: Request) {
    Readable(utf8, q.destination) && Canonical(q.destination) == q.destination && EncodeRequest(q).Ok?
  }

  /** Any part of a stream that starts with a request: the request is not there yet, or it is read. */
  lemma PrefixOfRequest(utf8: Bytes -> bool, q: Request, b: Bytes, c: Bytes, rest: Bytes)
    requires ReadableRequest(utf8, q) && b + c == EncodeRequest(q).value + rest
    ensures var n := |EncodeRequest(q).value|;
            && TakeRequest(utf8, b).Ok? && RequestComplete(b) == Ok(|b| >= n)
            && (|b| >= n ==> TakeRequest(utf8, b) == Ok(Some(TakenRequest(q, b[n..]))))
  {
    hide TakeRequest, EncodeRequest, RequestComplete;
    var e := EncodeRequest(q).value;
    var all := e + rest;
    assert (b + c)[..|b|] == b;
    if |b| < |e| {
      assert all[..|b|] == e[..|b|];
      RequestPrefix(utf8, q, |b|);
    } else {
      assert all[..|b|] == e + rest[..|b| - |e|];
      assert b[|e|..] == rest[..|b| - |e|];
      RequestTaken(utf8, q, rest[..|b| - |e|]);
    }
    CompleteMeansTaken(utf8, b);
  }

  lemma RequestPrefix(utf8: Bytes -> bool, q: Request, k: nat)
    requires ReadableRequest(utf8, q) && k < |EncodeRequest(q).value|
    ensures TakeRequest(utf8, EncodeRequest(q).value[..k]) == Ok(None)
  {
  }

  lemma RequestAcceptable(utf8: Bytes -> bool, target: Target, q: Request, rest: Bytes)
    requires ReadableRequest(utf8, q)
    ensures AcceptableThroughout(utf8, target, EncodeRequest(q).value + rest)
  {
    hide TakeRequest, EncodeRequest, RequestComplete;
    var all := EncodeRequest(q).value + rest;
    forall k | 0 <= k <= |all| ensures TakeRequest(utf8, all[..k]).Ok? {
      assert all[..k] + all[k..] == all;
      PrefixOfRequest(utf8, q, all[..k], all[k..], rest);
    }
  }

  /** The session accepts the pushes exactly as long as the request that is waiting fits the buffer. */
  lemma {:induction false} AcceptedExactly(
    utf8: Bytes -> bool, st: Session, id: nat, target: Target, q: Request, rest: Bytes, bytes: Bytes,
    pushes: seq<Bytes>, frames: seq<AnyTls.Frame>)
    requires ReadableRequest(utf8, q) && NeedsMore(target)
    requires Stands(utf8, st, id, target, bytes, pushes) && NotFinished(id, frames)
             && OthersAccepted(utf8, st, id, frames)
    requires bytes + Concat(pushes) + Concat(PushesTo(id, frames)) == EncodeRequest(q).value + rest
    ensures HandleAll(utf8, st, frames).Ok?
            <==> WaitingFits(|EncodeRequest(q).value|, |bytes + Concat(pushes)|, PushesTo(id, frames))
    decreases |frames|
  {
    hide Stands, Handle, EncodeRequest, Readable, NeedsMore, Acceptable, AcceptableThroughout, RequestComplete;
    if frames != [] {
      var f, later := frames[0], PushesTo(id, frames[1..]);
      var have := bytes + Concat(pushes);
      var r := Handle(utf8, st, f);
      if IsPushTo(id, f) {
        PushStep(bytes, pushes, f.payload, later);
        assert ([f.payload] + later)[1..] == later;
        RequestAcceptable(utf8, target, q, rest);
        AcceptableParts(utf8, target, have, f.payload, Concat(later));
        PushStands(utf8, st, id, target, bytes, pushes, f.payload);
        PrefixOfRequest(utf8, q, have, f.payload + Concat(later), rest);
        OpenMeansWhole(utf8, st, id, target, bytes, pushes);
        ConcatSnoc(pushes, f.payload);
        if r.Ok? { AcceptedExactly(utf8, r.value, id, target, q, rest, bytes, pushes + [f.payload], frames[1..]); }
      } else {
        assert [] + later == later;
        OthersStand(utf8, st, id, target, bytes, pushes, f);
        AcceptedExactly(utf8, r.value, id, target, q, rest, bytes, pushes, frames[1..]);
      }
    }
  }

  lemma OpenMeansWhole(utf8: Bytes -> bool, st: Session, id: nat, target: Target, bytes: Bytes, pushes: seq<Bytes>)
    requires Stands(utf8, st, id, target, bytes, pushes) && NeedsMore(target)
    ensures id in st.streams <==> RequestComplete(bytes + Concat(pushes)) != Ok(false)
  {
    hide NeedsMore, RequestComplete, OpenedBy;
  }

  /** What a stream that starts with a request opens as. */
  lemma {:induction false} OpenedOnRequest(
    utf8: Bytes -> bool, target: Target, q: Request, rest: Bytes, bytes: Bytes, pushes: seq<Bytes>)
    requires ReadableRequest(utf8, q) && NeedsMore(target) && bytes + Concat(pushes) == EncodeRequest(q).value + rest
    ensures var chunks := AfterRequest(|EncodeRequest(q).value|, bytes, pushes);
            OpenedBy(utf8, target, bytes, pushes) == Some(Stream(target, Some(q), chunks)) && Concat(chunks) == rest
    decreases |pushes|
  {
    hide TakeRequest, RequestComplete, EncodeRequest, IsMagic, IsLegacy;
    NeedsMoreIsMagic(target);
    PrefixOfRequest(utf8, q, bytes, Concat(pushes), rest);
    var n := |EncodeRequest(q).value|;
    if |bytes| < n {
      assert pushes != [];
      Associative(bytes, pushes[0], Concat(pushes[1..]));
      OpenedOnRequest(utf8, target, q, rest, bytes + pushes[0], pushes[1..]);
    } else {
      ConcatAppend(Queued(bytes[n..]), pushes);
      QueuedBytes(bytes[n..]);
      assert (bytes + Concat(pushes))[n..] == bytes[n..] + Concat(pushes);
      assert (EncodeRequest(q).value + rest)[n..] == rest;
    }
  }

  /** The frames of a session from the first PSH of a stream on. */
  function FromFirst(id: nat, target: Target, first: Bytes, frames: seq<AnyTls.Frame>): seq<AnyTls.Frame>
    requires ValidTarget(target) && EncodeTarget(target).Ok?
  {
    [AnyTls.Frame(AnyTls.CMD_PSH, id, EncodeTarget(target).value + first)] + frames
  }

  /** UDP over an AnyTLS stream end to end, from its SYN on. A request and its packets are split over PSH
      frames in any way after the target, among frames of other streams. The session accepts them exactly if the
      waiting request stays within its limits; then the stream is open on that request with the
      remaining bytes queued as they came, and its uplink sends exactly those packets if the
      queued chunks fit its buffer, and fails if not. */
  lemma UotOverFrames(
    utf8: Bytes -> bool, before: seq<AnyTls.Frame>, id: nat, between: seq<AnyTls.Frame>, target: Target, q: Request,
    ps: seq<Packet>, first: Bytes, frames: seq<AnyTls.Frame>)
    requires !SynSinceFin(id, before) && Quiet(id, between)
    requires HandleAll(utf8, START, Opening(before, id, between)).Ok?
    requires Readable(utf8, target) && NeedsMore(target) && EncodeTarget(target).Ok?
    requires ReadableRequest(utf8, q) && AllSendable(utf8, q, ps)
    requires first + Concat(PushesTo(id, frames)) == EncodeRequest(q).value + EncodePackets(q.isConnect, ps)
    requires var st := HandleAll(utf8, START, Opening(before, id, between)).value;
             NotFinished(id, frames) && OthersAccepted(utf8, st, id, FromFirst(id, target, first, frames))
    ensures var n := |EncodeRequest(q).value|;
            var st := HandleAll(utf8, START, Opening(before, id, between)).value;
            var r := HandleAll(utf8, START, Opening(before, id, between) + FromFirst(id, target, first, frames));
            var chunks := AfterRequest(n, first, PushesTo(id, frames));
            && (r.Ok? <==>
                (|first| >= n || |st.pendingUot| < MAX_PENDING_UOT)
                && WaitingFits(n, |first|, PushesTo(id, frames)))
            && (r.Ok? ==> id in r.value.streams && r.value.streams[id] == Stream(target, Some(q), chunks))
            && (!Uplink(utf8, q, [], chunks).failed <==> LengthsFit(q.isConnect, ps, chunks))
            && (LengthsFit(q.isConnect, ps, chunks) ==> Uplink(utf8, q, [], chunks).packets == ps)
  {
    hide Handle, TakeRequest, RequestComplete, EncodeRequest, EncodePackets, EncodeTarget, EncodePacket, Acceptable,
         AcceptableThroughout, Uplink, LengthsFit, OpenedBy, Stands, WaitingFits, IsMagic, IsLegacy, HandleAll, Opening,
         SynSinceFin, Quiet;
    AnnouncedWaits(utf8, before, id, between);
    HandleAllAppend(utf8, START, Opening(before, id, between), FromFirst(id, target, first, frames));
    var st := HandleAll(utf8, START, Opening(before, id, between)).value;
    var rest, pushes, n := EncodePackets(q.isConnect, ps), PushesTo(id, frames), |EncodeRequest(q).value|;
    assert first + Concat([]) == first && [] + pushes == pushes;
    SessionAccepts(utf8, st, id, target, q, rest, first, frames);
    OpenedOnRequest(utf8, target, q, rest, first, pushes);
    AllSent(utf8, q, ps, AfterRequest(n, first, pushes));
  }

  lemma SessionAccepts(
    utf8: Bytes -> bool, st: Session, id: nat, target: Target, q: Request, rest: Bytes, first: Bytes,
    frames: seq<AnyTls.Frame>)
    requires id in st.pending && id !in st.streams && id !in st.pendingUot
    requires Readable(utf8, target) && NeedsMore(target) && EncodeTarget(target).Ok? && ReadableRequest(utf8, q)
    requires first + Concat(PushesTo(id, frames)) == EncodeRequest(q).value + rest
    requires NotFinished(id, frames) && OthersAccepted(utf8, st, id, FromFirst(id, target, first, frames))
    ensures var n := |EncodeRequest(q).value|;
            var r := HandleAll(utf8, st, FromFirst(id, target, first, frames));
            && (r.Ok? <==>
                (|first| >= n || |st.pendingUot| < MAX_PENDING_UOT)
                && WaitingFits(n, |first|, PushesTo(id, frames)))
            && (r.Ok? ==>
                id in r.value.streams
                && OpenedBy(utf8, target, first, PushesTo(id, frames)) == Some(r.value.streams[id]))
  {
    hide Handle, TakeRequest, RequestComplete, EncodeRequest, EncodeTarget, OpenedBy, NeedsMore, Stands,
         PushesTo, HandleAll, OthersAccepted, NotFinished, WaitingFits;
    var f := AnyTls.Frame(AnyTls.CMD_PSH, id, EncodeTarget(target).value + first);
    OneFrame(utf8, st, id, f, frames);
    FirstAccepted(utf8, st, id, target, q, rest, first, Concat(PushesTo(id, frames)));
    var r := Handle(utf8, st, f);
    if r.Ok? { LaterAccepted(utf8, r.value, id, target, q, rest, first, frames); }
  }

  lemma OneFrame(utf8: Bytes -> bool, st: Session, id: nat, f: AnyTls.Frame, frames: seq<AnyTls.Frame>)
    ensures Handle(utf8, st, f).Err? ==> HandleAll(utf8, st, [f] + frames).Err?
    ensures Handle(utf8, st, f).Ok? ==>
              var st1 := Handle(utf8, st, f).value;
              && HandleAll(utf8, st, [f] + frames) == HandleAll(utf8, st1, frames)
              && (OthersAccepted(utf8, st, id, [f] + frames) ==> OthersAccepted(utf8, st1, id, frames))
  {
    hide Handle;
    assert ([f] + frames)[0] == f && ([f] + frames)[1..] == frames;
  }

  lemma LaterAccepted(
    utf8: Bytes -> bool, st: Session, id: nat, target: Target, q: Request, rest: Bytes, first: Bytes,
    frames: seq<AnyTls.Frame>)
    requires NeedsMore(target) && ReadableRequest(utf8, q) && Stands(utf8, st, id, target, first, [])
    requires first + Concat(PushesTo(id, frames)) == EncodeRequest(q).value + rest
    requires NotFinished(id, frames) && OthersAccepted(utf8, st, id, frames)
    ensures var r := HandleAll(utf8, st, frames);
            && (r.Ok? <==> WaitingFits(|EncodeRequest(q).value|, |first|, PushesTo(id, frames)))
            && (r.Ok? ==>
                id in r.value.streams
                && OpenedBy(utf8, target, first, PushesTo(id, frames)) == Some(r.value.streams[id]))
  {
    hide TakeRequest, RequestComplete, EncodeRequest, Acceptable, AcceptableThroughout, OpenedBy, Readable, WaitingFits,
         NeedsMore, Stands, PushesTo, HandleAll, OthersAccepted, NotFinished;
    var pushes := PushesTo(id, frames);
    assert first + Concat([]) == first;
    AcceptedExactly(utf8, st, id, target, q, rest, first, [], frames);
    if HandleAll(utf8, st, frames).Ok? {
      RequestAcceptable(utf8, target, q, rest);
      PushesDecide(utf8, st, id, target, first, [], frames);
      assert [] + pushes == pushes && (first + Concat(pushes)) + [] == first + Concat(pushes);
      PrefixOfRequest(utf8, q, first + Concat(pushes), [], rest);
      StandsOpen(utf8, HandleAll(utf8, st, frames).value, id, target, first, pushes);
    }
  }

  lemma FirstAccepted(
    utf8: Bytes -> bool, st: Session, id: nat, target: Target, q: Request, rest: Bytes, first: Bytes, later: Bytes)
    requires id in st.pending && id !in st.streams && id !in st.pendingUot
    requires Readable(utf8, target) && NeedsMore(target) && EncodeTarget(target).Ok? && ReadableRequest(utf8, q)
    requires first + later == EncodeRequest(q).value + rest
    ensures var r := Handle(utf8, st, AnyTls.Frame(AnyTls.CMD_PSH, id, EncodeTarget(target).value + first));
            && (r.Ok? <==> |first| >= |EncodeRequest(q).value| || |st.pendingUot| < MAX_PENDING_UOT)
            && (r.Ok? ==> Stands(utf8, r.value, id, target, first, []))
  {
    hide Handle, TakeRequest, RequestComplete, EncodeRequest, EncodeTarget, AcceptableThroughout, Stands;
    MagicIsCanonical(target);
    hide NeedsMore;
    PrefixOfRequest(utf8, q, first, later, rest);
    FirstPushStands(utf8, st, id, target, first);
  }

  lemma StandsOpen(utf8: Bytes -> bool, st: Session, id: nat, target: Target, bytes: Bytes, pushes: seq<Bytes>)
    requires Stands(utf8, st, id, target, bytes, pushes) && RequestComplete(bytes + Concat(pushes)) != Ok(false)
    ensures id in st.streams && OpenedBy(utf8, target, bytes, pushes) == Some(st.streams[id])
  {
    hide RequestComplete, OpenedBy, NeedsMore;
  }

  lemma MagicIsCanonical(target: Target)
    requires NeedsMore(target) && ValidTarget(target)
    ensures Canonical(target) == target
  {
  }

  lemma AllSent(utf8: Bytes -> bool, q: Request, ps: seq<Packet>, chunks: seq<Bytes>)
    requires AllSendable(utf8, q, ps) && Concat(chunks) == EncodePackets(q.isConnect, ps)
    ensures !Uplink(utf8, q, [], chunks).failed <==> LengthsFit(q.isConnect, ps, chunks)
    ensures LengthsFit(q.isConnect, ps, chunks) ==> Uplink(utf8, q, [], chunks).packets == ps
  {
    hide Uplink, EncodePacket, LengthsFit;
    UplinkSendsPackets(utf8, q, ps, chunks);
    AllWhole(q.isConnect, ps);
    assert ps[..|ps|] == ps;
  }

  lemma {:induction false} AllWhole(isConnect: bool, ps: seq<Packet>)
    requires forall i :: 0 <= i < |ps| ==> ValidTarget(ps[i].target) && EncodePacket(isConnect, ps[i]).Ok?
    ensures WholeIn(isConnect, ps, |EncodePackets(isConnect, ps)|) == |ps|
  {
    hide EncodePacket;
    if ps != [] {
      AllWhole(isConnect, ps[1..]);
    }
  }
}
