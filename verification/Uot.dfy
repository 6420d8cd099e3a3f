/** UDP over TCP: requests and packets in a byte stream. */
module Uot {
  import opened Common
  import opened BigEndian
  import opened Targets

  datatype Request = Request(isConnect: bool, destination: Target)

  datatype Packet = Packet(target: Target, payload: Bytes)

  function EncodeRequest(q: Request): Result<Bytes>
    requires ValidTarget(q.destination)
  {
    match EncodeTarget(q.destination)
    case Ok(b) => Ok([if q.isConnect then 1 else 0] + b)
    case Err => Err
  }

  /** The layout of a request: 1 to connect or 0, and the destination with the kinds of SOCKS. */
  lemma RequestLayout(q: Request)
    requires ValidTarget(q.destination)
    ensures EncodeRequest(q).Ok? <==> !(q.destination.Domain? && |q.destination.host| > 255)
    ensures EncodeRequest(q).Ok? ==>
              var b := EncodeRequest(q).value;
              && b != [] && b[0] == (if q.isConnect then 1 else 0)
              && WriteAddress(Tags(1, 4, 3), Canonical(q.destination)) == Ok(b[1..])
  {
    hide WriteAddress;
    AddressLayout(SOCKS, Canonical(q.destination));
  }

  /** How long a request is, once enough of it is there to tell. */
  function RequestLen(b: Bytes): Result<Option<nat>> {
    if |b| < 2 then Ok(None)
    else if b[1] == 0x01 then Ok(Some(1 + 7))
    else if b[1] == 0x04 then Ok(Some(1 + 19))
    else if b[1] == 0x03 then (if |b| < 3 then Ok(None) else Ok(Some(1 + 2 + b[2] as int + 2)))
    else Err
  }

  function RequestComplete(b: Bytes): Result<bool> {
    match RequestLen(b)
    case Ok(Some(n)) => Ok(|b| >= n)
    case Ok(None) => Ok(false)
    case Err => Err
  }

  function DecodeRequest(utf8: Bytes -> bool, b: Bytes): Result<Request> {
    if b == [] then Err else
    match DecodeTarget(utf8, b[1..])
    case Err => Err
    case Ok(r) => if r.rest == [] then Ok(Request(b[0] != 0, r.target)) else Err
  }

  datatype TakenRequest = TakenRequest(request: Request, rest: Bytes)

  /** None while the request is incomplete. */
  function TakeRequest(utf8: Bytes -> bool, b: Bytes): Result<Option<TakenRequest>> {
    match RequestLen(b)
    case Err => Err
    case Ok(None) => Ok(None)
    case Ok(Some(n)) =>
      if |b| < n then Ok(None) else
      match DecodeRequest(utf8, b[..n])
      case Err => Err
      case Ok(q) => Ok(Some(TakenRequest(q, b[n..])))
  }

  function EncodePacket(isConnect: bool, p: Packet): Result<Bytes>
    requires ValidTarget(p.target)
  {
    if |p.payload| > 0xFFFF then Err
    else if isConnect then Ok(U16(|p.payload|) + p.payload)
    else match WriteAddress(UOT, p.target)
      case Err => Err
      case Ok(a) => Ok(a + (U16(|p.payload|) + p.payload))
  }

  /** The layout of a packet: its address, kinds counted from zero, unless the stream is for one address; the
      length in two bytes, and the payload. */
  lemma PacketLayout(isConnect: bool, p: Packet)
    requires ValidTarget(p.target)
    ensures EncodePacket(isConnect, p).Ok?
            <==> |p.payload| <= 65535 && (isConnect || !(p.target.Domain? && |p.target.host| > 255))
    ensures EncodePacket(isConnect, p).Ok? ==>
              var b := EncodePacket(isConnect, p).value;
              var n := |b| - |p.payload| - 2;
              && n >= 0 && 256 * (b[n] as int) + b[n + 1] == |p.payload| && b[n + 2..] == p.payload
              && (if isConnect then n == 0 else WriteAddress(Tags(0, 1, 2), p.target) == Ok(b[..n]))
  {
    hide WriteAddress;
    AddressLayout(UOT, p.target);
    if EncodePacket(isConnect, p).Ok? {
      var b := EncodePacket(isConnect, p).value;
      var n := |b| - |p.payload| - 2;
      assert b[n + 2..] == p.payload;
      if !isConnect { assert b[..n] == WriteAddress(UOT, p.target).value; }
    }
  }

  /** How much of an associate packet comes before its length field. */
  function AddressLen(b: Bytes): Result<Option<nat>> {
    if b == [] then Ok(None)
    else if b[0] == 0x00 then (if |b| < 7 then Ok(None) else Ok(Some(7)))
    else if b[0] == 0x01 then (if |b| < 19 then Ok(None) else Ok(Some(19)))
    else if b[0] == 0x02 then
      (if |b| < 2 || |b| - 4 < b[1] then Ok(None) else Ok(Some(2 + b[1] as int + 2)))
    else Err
  }

  function PacketLen(isConnect: bool, b: Bytes): Result<Option<nat>> {
    if isConnect then (if |b| < 2 then Ok(None) else Ok(Some(2 + GetU16(b, 0))))
    else match AddressLen(b)
      case Err => Err
      case Ok(None) => Ok(None)
      case Ok(Some(n)) => if |b| < n + 2 then Ok(None) else Ok(Some(n + 2 + GetU16(b, n)))
  }

  function DecodePacket(utf8: Bytes -> bool, q: Request, b: Bytes): Result<Packet> {
    if q.isConnect then
      if |b| < 2 || |b| != 2 + GetU16(b, 0) then Err else Ok(Packet(q.destination, b[2..]))
    else match ReadAddress(UOT, utf8, b)
      case Err => Err
      case Ok(r) =>
        if |r.rest| < 2 || |r.rest| != 2 + GetU16(r.rest, 0) then Err else Ok(Packet(r.target, r.rest[2..]))
  }

  datatype TakenPacket = TakenPacket(packet: Packet, rest: Bytes)

  function TakePacket(utf8: Bytes -> bool, q: Request, b: Bytes): (r: Result<Option<TakenPacket>>)
    ensures r.Ok? && r.value.Some? ==> |r.value.value.rest| < |b|
  {
    match PacketLen(q.isConnect, b)
    case Err => Err
    case Ok(None) => Ok(None)
    case Ok(Some(n)) =>
      if |b| < n then Ok(None) else
      match DecodePacket(utf8, q, b[..n])
      case Err => Err
      case Ok(p) => Ok(Some(TakenPacket(p, b[n..])))
  }

  // ---- one packet

  /** A packet the sender may put on a stream: on a connected one it goes to the one destination. */
  predicate Sendable(utf8: Bytes -> bool, q: Request, p: Packet) {
    Readable(utf8, p.target) && |p.payload| <= 0xFFFF && (q.isConnect ==> p.target == q.destination)
  }

  lemma AddressLenExact(utf8: Bytes -> bool, t: Target, rest: Bytes)
    requires Readable(utf8, t)
    ensures var a := WriteAddress(UOT, t).value;
            WriteAddress(UOT, t).Ok? && AddressLen(a + rest) == Ok(Some(|a|))
  {
  }

  lemma AddressLenOfPrefix(utf8: Bytes -> bool, t: Target, k: nat)
    requires Readable(utf8, t)
    requires k < |WriteAddress(UOT, t).value|
    ensures AddressLen(WriteAddress(UOT, t).value[..k]) == Ok(None)
  {
  }

  lemma PacketLenExact(utf8: Bytes -> bool, q: Request, p: Packet, rest: Bytes)
    requires Sendable(utf8, q, p)
    ensures EncodePacket(q.isConnect, p).Ok?
    ensures var e := EncodePacket(q.isConnect, p).value; PacketLen(q.isConnect, e + rest) == Ok(Some(|e|))
  {
    hide WriteAddress, AddressLen;
    var n := |p.payload|;
    if q.isConnect {
      var e := EncodePacket(true, p).value;
      assert e + rest == U16(n) + (p.payload + rest);
      FrontU16(n, p.payload + rest);
    } else {
      AddressReadBack(UOT, utf8, p.target, []);
      var a := WriteAddress(UOT, p.target).value;
      var e := EncodePacket(false, p).value;
      AddressLenExact(utf8, p.target, (U16(n) + p.payload) + rest);
      Associative(a, U16(n) + p.payload, rest);
      FieldAfter(a, n, p.payload + rest);
      assert e + rest == a + (U16(n) + (p.payload + rest));
    }
  }

  lemma FieldAfter(a: Bytes, n: nat, rest: Bytes)
    requires n < 0x1_0000
    ensures GetU16(a + (U16(n) + rest), |a|) == n
  {
  }

  lemma PacketDecodes(utf8: Bytes -> bool, q: Request, p: Packet)
    requires Sendable(utf8, q, p)
    ensures EncodePacket(q.isConnect, p).Ok? && DecodePacket(utf8, q, EncodePacket(q.isConnect, p).value) == Ok(p)
  {
    hide WriteAddress, ReadAddress;
    AddressReadBack(UOT, utf8, p.target, U16(|p.payload|) + p.payload);
    FrontU16(|p.payload|, p.payload);
  }

  /** A whole packet is taken off the front, whatever follows it. */
  lemma TakesWhole(utf8: Bytes -> bool, q: Request, p: Packet, rest: Bytes)
    requires Sendable(utf8, q, p)
    ensures EncodePacket(q.isConnect, p).Ok?
    ensures TakePacket(utf8, q, EncodePacket(q.isConnect, p).value + rest) == Ok(Some(TakenPacket(p, rest)))
  {
    hide EncodePacket, DecodePacket, PacketLen;
    PacketLenExact(utf8, q, p, rest);
    PacketDecodes(utf8, q, p);
    var e := EncodePacket(q.isConnect, p).value;
    assert (e + rest)[..|e|] == e && (e + rest)[|e|..] == rest;
  }

  lemma PayloadSound(b: Bytes)
    requires |b| >= 2 && |b| == 2 + GetU16(b, 0)
    ensures |b[2..]| <= 65535 && b == U16(|b[2..]|) + b[2..]
  {
    U16Back(b, 0);
    assert b == b[..2] + b[2..] && b[0..2] == b[..2];
  }

  lemma DecodeSound(utf8: Bytes -> bool, q: Request, b: Bytes)
    requires DecodePacket(utf8, q, b).Ok? && ValidTarget(q.destination)
    ensures var p := DecodePacket(utf8, q, b).value;
            && ValidTarget(p.target) && (q.isConnect ==> p.target == q.destination)
            && (!q.isConnect ==> Readable(utf8, p.target))
            && EncodePacket(q.isConnect, p) == Ok(b)
  {
    hide WriteAddress, ReadAddress, GetU16, U16;
    if q.isConnect {
      PayloadSound(b);
    } else {
      AddressSound(UOT, utf8, b);
      PayloadSound(ReadAddress(UOT, utf8, b).value.rest);
    }
  }

  /** Whatever is taken off the front of a stream, the stream starts with the encoding of that packet. */
  lemma TakenSound(utf8: Bytes -> bool, q: Request, b: Bytes)
    requires ValidTarget(q.destination) && TakePacket(utf8, q, b).Ok? && TakePacket(utf8, q, b).value.Some?
    ensures var t := TakePacket(utf8, q, b).value.value;
            && ValidTarget(t.packet.target) && (q.isConnect ==> t.packet.target == q.destination)
            && (!q.isConnect ==> Readable(utf8, t.packet.target))
            && EncodePacket(q.isConnect, t.packet).Ok?
            && b == EncodePacket(q.isConnect, t.packet).value + t.rest
  {
    hide EncodePacket, DecodePacket, PacketLen;
    var n := PacketLen(q.isConnect, b).value.value;
    DecodeSound(utf8, q, b[..n]);
    SplitSlice(b, 0, n);
  }

  /** And what is taken for a request is one, in front of the rest: a first byte other than zero connects. */
  lemma RequestSound(utf8: Bytes -> bool, b: Bytes)
    requires TakeRequest(utf8, b).Ok? && TakeRequest(utf8, b).value.Some?
    ensures var t := TakeRequest(utf8, b).value.value;
            && b != [] && t.request.isConnect == (b[0] != 0) && Readable(utf8, t.request.destination)
            && WriteAddress(SOCKS, t.request.destination).Ok?
            && b == [b[0]] + WriteAddress(SOCKS, t.request.destination).value + t.rest
  {
    hide WriteAddress, ReadAddress;
    var n := RequestLen(b).value.value;
    var front := b[..n];
    AddressSound(SOCKS, utf8, front[1..]);
    SplitSlice(b, 0, n);
    var a := WriteAddress(SOCKS, TakeRequest(utf8, b).value.value.request.destination).value;
    assert a + [] == a && front == [front[0]] + front[1..];
  }

  /** Less than a whole packet is left alone. */
  lemma LeavesPartial(utf8: Bytes -> bool, q: Request, p: Packet, k: nat)
    requires Sendable(utf8, q, p)
    requires EncodePacket(q.isConnect, p).Ok? && k < |EncodePacket(q.isConnect, p).value|
    ensures TakePacket(utf8, q, EncodePacket(q.isConnect, p).value[..k]) == Ok(None)
  {
    hide DecodePacket, WriteAddress, AddressLen;
    var e := EncodePacket(q.isConnect, p).value;
    var b := e[..k];
    PacketLenExact(utf8, q, p, []);
    assert e + [] == e;
    if q.isConnect {
      if k >= 2 { assert GetU16(b, 0) == GetU16(e, 0); }
    } else {
      PartialAssociate(utf8, p, e, k);
    }
  }

  lemma PartialAssociate(utf8: Bytes -> bool, p: Packet, e: Bytes, k: nat)
    requires Readable(utf8, p.target) && |p.payload| <= 0xFFFF && EncodePacket(false, p) == Ok(e) && k < |e|
    requires PacketLen(false, e) == Ok(Some(|e|))
    ensures PacketLen(false, e[..k]) == Ok(None) || PacketLen(false, e[..k]) == Ok(Some(|e|))
  {
    hide WriteAddress, AddressLen;
    AddressReadBack(UOT, utf8, p.target, []);
    var a := WriteAddress(UOT, p.target).value;
    var tail := U16(|p.payload|) + p.payload;
    if k < |a| {
      assert e[..k] == a[..k];
      AddressLenOfPrefix(utf8, p.target, k);
    } else {
      assert e[..k] == a + tail[..k - |a|];
      AddressLenExact(utf8, p.target, tail[..k - |a|]);
      AddressLenExact(utf8, p.target, tail);
      if k >= |a| + 2 { assert GetU16(e[..k], |a|) == GetU16(e, |a|); }
    }
  }

  // ---- a stream of packets

  function EncodePackets(isConnect: bool, ps: seq<Packet>): Bytes
    requires forall i :: 0 <= i < |ps| ==> ValidTarget(ps[i].target) && EncodePacket(isConnect, ps[i]).Ok?
  {
    if ps == [] then [] else EncodePacket(isConnect, ps[0]).value + EncodePackets(isConnect, ps[1..])
  }

  datatype Drained = Drained(packets: seq<Packet>, rest: Bytes, failed: bool)

  /** Takes packets off until none is whole. */
  function Drain(utf8: Bytes -> bool, q: Request, b: Bytes): Drained
    decreases |b|
  {
    match TakePacket(utf8, q, b)
    case Err => Drained([], b, true)
    case Ok(None) => Drained([], b, false)
    case Ok(Some(t)) =>
      var d := Drain(utf8, q, t.rest);
      Drained([t.packet] + d.packets, d.rest, d.failed)
  }

  method DrainLoop(utf8: Bytes -> bool, q: Request, b: Bytes) returns (packets: seq<Packet>, rest: Bytes, failed: bool)
    ensures Drained(packets, rest, failed) == Drain(utf8, q, b)
  {
    packets, rest := [], b;
    while true
      invariant var d, all := Drain(utf8, q, rest), Drain(utf8, q, b);
                packets + d.packets == all.packets && d.rest == all.rest && d.failed == all.failed
      decreases |rest|
    {
      var taken := TakePacket(utf8, q, rest);
      if taken.Err? {
        return packets, rest, true;
      }
      if taken.value.None? {
        return packets, rest, false;
      }
      Associative(packets, [taken.value.value.packet], Drain(utf8, q, taken.value.value.rest).packets);
      packets, rest := packets + [taken.value.value.packet], taken.value.value.rest;
    }
  }

  predicate AllSendable(utf8: Bytes -> bool, q: Request, ps: seq<Packet>) {
    forall i :: 0 <= i < |ps|
        ==> Sendable(utf8, q, ps[i]) && ValidTarget(ps[i].target) && EncodePacket(q.isConnect, ps[i]).Ok?
  }

  /** How many whole packets a prefix of the stream holds. */
  function WholeIn(isConnect: bool, ps: seq<Packet>, k: nat): (n: nat)
    requires forall i :: 0 <= i < |ps| ==> ValidTarget(ps[i].target) && EncodePacket(isConnect, ps[i]).Ok?
    ensures n <= |ps|
  {
    if ps == [] then 0 else
    var e := |EncodePacket(isConnect, ps[0]).value|;
    if k < e then 0 else 1 + WholeIn(isConnect, ps[1..], k - e)
  }

  /** A prefix of a packet stream of any length gives exactly the packets that are whole in it, and
      leaves less than the next one. */
  lemma {:induction false} DrainsPrefix(utf8: Bytes -> bool, q: Request, ps: seq<Packet>, k: nat)
    requires AllSendable(utf8, q, ps) && k <= |EncodePackets(q.isConnect, ps)|
    ensures var n := WholeIn(q.isConnect, ps, k);
            var d := Drain(utf8, q, EncodePackets(q.isConnect, ps)[..k]);
            && d.packets == ps[..n] && !d.failed
            && (n < |ps| ==> |d.rest| < |EncodePacket(q.isConnect, ps[n]).value|
                             && d.rest == EncodePacket(q.isConnect, ps[n]).value[..|d.rest|])
            && (n == |ps| ==> d.rest == [])
    decreases |ps|
  {
    hide TakePacket, EncodePacket, Drain;
    if ps == [] {
      DrainsNothing(utf8, q);
    } else {
      var e := EncodePacket(q.isConnect, ps[0]).value;
      var more := EncodePackets(q.isConnect, ps[1..]);
      if k < |e| {
        assert (e + more)[..k] == e[..k];
        DrainsPartial(utf8, q, ps[0], k);
        assert WholeIn(q.isConnect, ps, k) == 0 && ps[..0] == [];
      } else {
        assert (e + more)[..k] == e + more[..k - |e|];
        DrainsPrefix(utf8, q, ps[1..], k - |e|);
        DrainsOneMore(utf8, q, ps[0], more[..k - |e|]);
        var n := WholeIn(q.isConnect, ps[1..], k - |e|);
        assert WholeIn(q.isConnect, ps, k) == n + 1 && ps[..n + 1] == [ps[0]] + ps[1..][..n];
      }
    }
  }

  lemma DrainsNothing(utf8: Bytes -> bool, q: Request)
    ensures Drain(utf8, q, []) == Drained([], [], false)
  {
  }

  lemma DrainsPartial(utf8: Bytes -> bool, q: Request, p: Packet, k: nat)
    requires Sendable(utf8, q, p) && EncodePacket(q.isConnect, p).Ok? && k < |EncodePacket(q.isConnect, p).value|
    ensures Drain(utf8, q, EncodePacket(q.isConnect, p).value[..k])
            == Drained([], EncodePacket(q.isConnect, p).value[..k], false)
  {
    hide TakePacket, EncodePacket;
    LeavesPartial(utf8, q, p, k);
  }

  lemma DrainsOneMore(utf8: Bytes -> bool, q: Request, p: Packet, more: Bytes)
    requires Sendable(utf8, q, p)
    ensures EncodePacket(q.isConnect, p).Ok?
    ensures var d := Drain(utf8, q, more);
            Drain(utf8, q, EncodePacket(q.isConnect, p).value + more) == Drained([p] + d.packets, d.rest, d.failed)
  {
    hide TakePacket, EncodePacket;
    TakesWhole(utf8, q, p, more);
  }

  /** Bytes that arrive later only add to what was drained before. */
  lemma DrainOnce(utf8: Bytes -> bool, q: Request, b: Bytes)
    ensures match TakePacket(utf8, q, b)
            case Err => Drain(utf8, q, b) == Drained([], b, true)
            case Ok(None) => Drain(utf8, q, b) == Drained([], b, false)
            case Ok(Some(t)) =>
              var d := Drain(utf8, q, t.rest);
              Drain(utf8, q, b) == Drained([t.packet] + d.packets, d.rest, d.failed)
  {
  }

  lemma {:induction false} DrainContinues(utf8: Bytes -> bool, q: Request, b: Bytes, c: Bytes)
    requires !Drain(utf8, q, b).failed
    ensures var d, all := Drain(utf8, q, b), Drain(utf8, q, b + c);
            var e := Drain(utf8, q, d.rest + c);
            all.packets == d.packets + e.packets && all.rest == e.rest && all.failed == e.failed
    decreases |b|
  {
    hide TakePacket, Drain;
    DrainOnce(utf8, q, b);
    match TakePacket(utf8, q, b)
    case Err =>
    case Ok(None) => assert [] + Drain(utf8, q, b + c).packets == Drain(utf8, q, b + c).packets;
    case Ok(Some(t)) =>
      StillTakes(utf8, q, b, c);
      DrainContinues(utf8, q, t.rest, c);
      DrainOnce(utf8, q, b + c);
      Associative([t.packet], Drain(utf8, q, t.rest).packets, Drain(utf8, q, Drain(utf8, q, t.rest).rest + c).packets);
  }

  lemma {:induction false} StillTakes(utf8: Bytes -> bool, q: Request, b: Bytes, c: Bytes)
    requires TakePacket(utf8, q, b).Ok? && TakePacket(utf8, q, b).value.Some?
    ensures var t := TakePacket(utf8, q, b).value.value;
            TakePacket(utf8, q, b + c) == Ok(Some(TakenPacket(t.packet, t.rest + c)))
  {
    hide DecodePacket;
    var n := PacketLen(q.isConnect, b).value.value;
    assert (b + c)[..n] == b[..n] && (b + c)[n..] == b[n..] + c;
    LenOfExtension(q.isConnect, b, c);
  }

  lemma LenOfExtension(isConnect: bool, b: Bytes, c: Bytes)
    requires PacketLen(isConnect, b).Ok? && PacketLen(isConnect, b).value.Some?
    ensures PacketLen(isConnect, b + c) == PacketLen(isConnect, b)
  {
  }

  // ---- the uplink

  const MAX_UOT_BUFFER: nat := 64 * 1024

  /** Each chunk is added to what is left over, and whole packets are sent on. A chunk that does not
      fit the buffer beside what is left over ends the uplink. */
  function Uplink(utf8: Bytes -> bool, q: Request, left: Bytes, chunks: seq<Bytes>): Drained
    decreases |chunks|
  {
    if chunks == [] then Drained([], left, false)
    else if |left| + |chunks[0]| > MAX_UOT_BUFFER then Drained([], left, true)
    else
      var d := Drain(utf8, q, left + chunks[0]);
      if d.failed then d else
      var e := Uplink(utf8, q, d.rest, chunks[1..]);
      Drained(d.packets + e.packets, e.rest, e.failed)
  }

  method UplinkLoop(utf8: Bytes -> bool, q: Request, chunks: seq<Bytes>)
    returns (sent: seq<Packet>, pending: Bytes, failed: bool)
    ensures Drained(sent, pending, failed) == Uplink(utf8, q, [], chunks)
  {
    hide Drain;
    sent, pending := [], [];
    assert chunks[0..] == chunks;
    for i := 0 to |chunks|
      invariant var u, all := Uplink(utf8, q, pending, chunks[i..]), Uplink(utf8, q, [], chunks);
                sent + u.packets == all.packets && u.rest == all.rest && u.failed == all.failed
    {
      assert chunks[i..][0] == chunks[i] && chunks[i..][1..] == chunks[i + 1..];
      if |pending| + |chunks[i]| > MAX_UOT_BUFFER {
        return sent, pending, true;
      }
      var packets, rest, bad := DrainLoop(utf8, q, pending + chunks[i]);
      if bad {
        return sent + packets, rest, true;
      }
      Associative(sent, packets, Uplink(utf8, q, rest, chunks[i + 1..]).packets);
      sent, pending := sent + packets, rest;
    }
    return sent, pending, false;
  }

  /** Every chunk fits the buffer beside what earlier chunks have left over. */
  ghost predicate ChunksFit(utf8: Bytes -> bool, q: Request, left: Bytes, chunks: seq<Bytes>) {
    forall i :: 0 <= i < |chunks| ==> |Drain(utf8, q, left + Concat(chunks[..i])).rest| + |chunks[i]| <= MAX_UOT_BUFFER
  }

  /** The fit of a list of chunks is that of the first, and of the others after it. */
  lemma ChunksFitFirst(utf8: Bytes -> bool, q: Request, left: Bytes, chunks: seq<Bytes>)
    requires chunks != [] && !Drain(utf8, q, left + chunks[0]).failed
             && Drain(utf8, q, left) == Drained([], left, false)
    ensures ChunksFit(utf8, q, left, chunks)
            <==>
                |left| + |chunks[0]| <= MAX_UOT_BUFFER
                && ChunksFit(utf8, q, Drain(utf8, q, left + chunks[0]).rest, chunks[1..])
  {
    hide Drain;
    var d, tail := Drain(utf8, q, left + chunks[0]), chunks[1..];
    assert left + Concat(chunks[..0]) == left;
    forall i | 0 <= i < |tail|
      ensures Drain(utf8, q, left + Concat(chunks[..i + 1])).rest == Drain(utf8, q, d.rest + Concat(tail[..i])).rest
    {
      assert chunks[..i + 1][1..] == tail[..i];
      Associative(left, chunks[0], Concat(tail[..i]));
      DrainContinues(utf8, q, left + chunks[0], Concat(tail[..i]));
    }
    if ChunksFit(utf8, q, left, chunks) {
      forall i | 0 <= i < |tail| ensures |Drain(utf8, q, d.rest + Concat(tail[..i])).rest|
          + |tail[i]| <= MAX_UOT_BUFFER {
        assert chunks[i + 1] == tail[i];
      }
    }
    if |left| + |chunks[0]| <= MAX_UOT_BUFFER && ChunksFit(utf8, q, d.rest, tail) {
      forall i | 0 <= i < |chunks|
        ensures |Drain(utf8, q, left + Concat(chunks[..i])).rest| + |chunks[i]| <= MAX_UOT_BUFFER
      {
        if i > 0 { assert chunks[i] == tail[i - 1] && chunks[..(i - 1) + 1] == chunks[..i]; }
      }
    }
  }

  /** Chunking matters to the uplink only through the buffer limit: it fails exactly if some chunk does
      not fit beside what is left over before it, and otherwise sends and leaves what the stream
      in one piece would give. */
  lemma {:induction false} ChunkingMattersOnlyByLimit(utf8: Bytes -> bool, q: Request, left: Bytes, chunks: seq<Bytes>)
    requires !Drain(utf8, q, left + Concat(chunks)).failed && Drain(utf8, q, left) == Drained([], left, false)
    ensures !Uplink(utf8, q, left, chunks).failed <==> ChunksFit(utf8, q, left, chunks)
    ensures ChunksFit(utf8, q, left, chunks) ==> Uplink(utf8, q, left, chunks) == Drain(utf8, q, left + Concat(chunks))
    ensures Uplink(utf8, q, left, chunks).packets <= Drain(utf8, q, left + Concat(chunks)).packets
    decreases |chunks|
  {
    hide Drain, ChunksFit;
    if chunks == [] {
      assert left + [] == left;
      assert ChunksFit(utf8, q, left, chunks) by { NoChunksFit(utf8, q, left); }
    } else {
      var first, more := left + chunks[0], Concat(chunks[1..]);
      Associative(left, chunks[0], more);
      DrainFailsEarly(utf8, q, first, more);
      DrainContinues(utf8, q, first, more);
      DrainIsDone(utf8, q, first);
      ChunksFitFirst(utf8, q, left, chunks);
      ChunkingMattersOnlyByLimit(utf8, q, Drain(utf8, q, first).rest, chunks[1..]);
    }
  }

  lemma NoChunksFit(utf8: Bytes -> bool, q: Request, left: Bytes)
    ensures ChunksFit(utf8, q, left, [])
  {
  }

  lemma {:induction false} DrainFailsEarly(utf8: Bytes -> bool, q: Request, b: Bytes, c: Bytes)
    requires !Drain(utf8, q, b + c).failed
    ensures !Drain(utf8, q, b).failed
    decreases |b|
  {
    hide TakePacket;
    match TakePacket(utf8, q, b)
    case Ok(None) =>
    case Err => ErrorStays(utf8, q, b, c);
    case Ok(Some(t)) =>
      StillTakes(utf8, q, b, c);
      DrainFailsEarly(utf8, q, t.rest, c);
  }

  lemma ErrorStays(utf8: Bytes -> bool, q: Request, b: Bytes, c: Bytes)
    requires TakePacket(utf8, q, b).Err?
    ensures TakePacket(utf8, q, b + c).Err?
  {
    hide DecodePacket;
    if PacketLen(q.isConnect, b).Ok? {
      var n := PacketLen(q.isConnect, b).value.value;
      LenOfExtension(q.isConnect, b, c);
      assert (b + c)[..n] == b[..n];
    } else {
      assert (b + c)[0] == b[0];
    }
  }

  lemma {:induction false} DrainIsDone(utf8: Bytes -> bool, q: Request, b: Bytes)
    ensures var d := Drain(utf8, q, b); !d.failed ==> Drain(utf8, q, d.rest) == Drained([], d.rest, false)
    decreases |b|
  {
    hide TakePacket;
    match TakePacket(utf8, q, b)
    case Ok(Some(t)) => DrainIsDone(utf8, q, t.rest);
    case _ =>
  }

  /** How much of a packet stream is left over after its first `k` bytes. */
  function Leftover(isConnect: bool, ps: seq<Packet>, k: nat): nat
    requires forall i :: 0 <= i < |ps| ==> ValidTarget(ps[i].target) && EncodePacket(isConnect, ps[i]).Ok?
  {
    if ps == [] then k else
    var e := |EncodePacket(isConnect, ps[0]).value|;
    if k < e then k else Leftover(isConnect, ps[1..], k - e)
  }

  lemma {:induction false} LeftoverIsRest(utf8: Bytes -> bool, q: Request, ps: seq<Packet>, k: nat)
    requires AllSendable(utf8, q, ps) && k <= |EncodePackets(q.isConnect, ps)|
    ensures |Drain(utf8, q, EncodePackets(q.isConnect, ps)[..k]).rest| == Leftover(q.isConnect, ps, k)
    decreases |ps|
  {
    hide TakePacket, EncodePacket, Drain;
    if ps == [] {
      DrainsNothing(utf8, q);
    } else {
      var e := EncodePacket(q.isConnect, ps[0]).value;
      var more := EncodePackets(q.isConnect, ps[1..]);
      if k < |e| {
        assert (e + more)[..k] == e[..k];
        DrainsPartial(utf8, q, ps[0], k);
      } else {
        assert (e + more)[..k] == e + more[..k - |e|];
        LeftoverIsRest(utf8, q, ps[1..], k - |e|);
        DrainsOneMore(utf8, q, ps[0], more[..k - |e|]);
      }
    }
  }

  /** The buffer limit in lengths alone: a sender can tell from the packets and the cuts. */
  predicate LengthsFit(isConnect: bool, ps: seq<Packet>, chunks: seq<Bytes>)
    requires forall i :: 0 <= i < |ps| ==> ValidTarget(ps[i].target) && EncodePacket(isConnect, ps[i]).Ok?
  {
    forall i :: 0 <= i < |chunks| ==> Leftover(isConnect, ps, |Concat(chunks[..i])|) + |chunks[i]| <= MAX_UOT_BUFFER
  }

  lemma LengthsDecide(utf8: Bytes -> bool, q: Request, ps: seq<Packet>, chunks: seq<Bytes>)
    requires AllSendable(utf8, q, ps) && Concat(chunks) <= EncodePackets(q.isConnect, ps)
    ensures ChunksFit(utf8, q, [], chunks) <==> LengthsFit(q.isConnect, ps, chunks)
  {
    hide Drain, Leftover, EncodePackets, EncodePacket;
    forall i | 0 <= i < |chunks|
      ensures |Drain(utf8, q, [] + Concat(chunks[..i])).rest| == Leftover(q.isConnect, ps, |Concat(chunks[..i])|)
    {
      var part := Concat(chunks[..i]);
      ChunksPrefix(chunks, i);
      assert EncodePackets(q.isConnect, ps)[..|part|] == part;
      LeftoverIsRest(utf8, q, ps, |part|);
      assert [] + part == part;
    }
  }

  lemma ChunksPrefix(chunks: seq<Bytes>, i: nat)
    requires i <= |chunks|
    ensures Concat(chunks[..i]) <= Concat(chunks)
  {
    ConcatAppend(chunks[..i], chunks[i..]);
    assert chunks[..i] + chunks[i..] == chunks;
  }

  /** For any packets, however their stream is cut into chunks and wherever it stops: the uplink goes on
      exactly if every chunk fits beside what is left over, and then it sends exactly the packets
      that are there whole, in order; if not, it has sent the first of them. */
  lemma UplinkSendsPackets(utf8: Bytes -> bool, q: Request, ps: seq<Packet>, chunks: seq<Bytes>)
    requires AllSendable(utf8, q, ps) && Concat(chunks) <= EncodePackets(q.isConnect, ps)
    ensures !Uplink(utf8, q, [], chunks).failed <==> LengthsFit(q.isConnect, ps, chunks)
    ensures LengthsFit(q.isConnect, ps, chunks)
            ==> Uplink(utf8, q, [], chunks).packets == ps[..WholeIn(q.isConnect, ps, |Concat(chunks)|)]
    ensures Uplink(utf8, q, [], chunks).packets <= ps
  {
    hide Drain, Uplink, ChunksFit, LengthsFit;
    var k := |Concat(chunks)|;
    DrainsPrefix(utf8, q, ps, k);
    assert EncodePackets(q.isConnect, ps)[..k] == Concat(chunks);
    assert [] + Concat(chunks) == Concat(chunks);
    DrainsNothing(utf8, q);
    ChunkingMattersOnlyByLimit(utf8, q, [], chunks);
    LengthsDecide(utf8, q, ps, chunks);
  }

  // ---- which packets can be sent at all

  function StartOf(isConnect: bool, ps: seq<Packet>, j: nat): nat
    requires forall i :: 0 <= i < |ps| ==> ValidTarget(ps[i].target) && EncodePacket(isConnect, ps[i]).Ok?
    requires j <= |ps|
  {
    if j == 0 then 0 else |EncodePacket(isConnect, ps[0]).value| + StartOf(isConnect, ps[1..], j - 1)
  }

  /** Until a packet is whole, all of it that has arrived is left over. */
  lemma {:induction false} LeftoverFrom(isConnect: bool, ps: seq<Packet>, j: nat, k: nat)
    requires forall i :: 0 <= i < |ps| ==> ValidTarget(ps[i].target) && EncodePacket(isConnect, ps[i]).Ok?
    requires j < |ps| && k < StartOf(isConnect, ps, j) + |EncodePacket(isConnect, ps[j]).value|
    ensures k - StartOf(isConnect, ps, j) <= Leftover(isConnect, ps, k)
    decreases |ps|
  {
    hide EncodePacket;
    if j > 0 && k >= |EncodePacket(isConnect, ps[0]).value| {
      LeftoverFrom(isConnect, ps[1..], j - 1, k - |EncodePacket(isConnect, ps[0]).value|);
    }
  }

  /** Where a stream is cut does not help a packet longer than the buffer. */
  lemma {:induction false} LongPacketBlocks(isConnect: bool, ps: seq<Packet>, j: nat, k: nat, chunks: seq<Bytes>)
    requires forall i :: 0 <= i < |ps| ==> ValidTarget(ps[i].target) && EncodePacket(isConnect, ps[i]).Ok?
    requires j < |ps| && |EncodePacket(isConnect, ps[j]).value| > MAX_UOT_BUFFER
    requires k < StartOf(isConnect, ps, j) + |EncodePacket(isConnect, ps[j]).value| <= k + |Concat(chunks)|
    ensures exists i ::
            0 <= i < |chunks|
            && Leftover(isConnect, ps, k + |Concat(chunks[..i])|) + |chunks[i]| > MAX_UOT_BUFFER
    decreases |chunks|
  {
    hide EncodePacket, Leftover, StartOf;
    assert chunks != [];
    assert |Concat(chunks)| == |chunks[0]| + |Concat(chunks[1..])|;
    LeftoverFrom(isConnect, ps, j, k);
    assert Concat(chunks[..0]) == [];
    if k + |chunks[0]| >= StartOf(isConnect, ps, j) + |EncodePacket(isConnect, ps[j]).value| {
      assert Leftover(isConnect, ps, k + |Concat(chunks[..0])|) + |chunks[0]| > MAX_UOT_BUFFER;
    } else {
      LongPacketBlocks(isConnect, ps, j, k + |chunks[0]|, chunks[1..]);
      var i :| 0 <= i < |chunks[1..]|
               && Leftover(isConnect, ps, k + |chunks[0]| + |Concat(chunks[1..][..i])|)
                   + |chunks[1..][i]| > MAX_UOT_BUFFER;
      assert chunks[..i + 1][1..] == chunks[1..][..i] && chunks[1..][i] == chunks[i + 1];
      assert |Concat(chunks[..i + 1])| == |chunks[0]| + |Concat(chunks[1..][..i])|;
    }
  }

  lemma {:induction false} StartsWithin(isConnect: bool, ps: seq<Packet>, j: nat)
    requires forall i :: 0 <= i < |ps| ==> ValidTarget(ps[i].target) && EncodePacket(isConnect, ps[i]).Ok?
    requires j < |ps|
    ensures StartOf(isConnect, ps, j) + |EncodePacket(isConnect, ps[j]).value| <= |EncodePackets(isConnect, ps)|
    decreases |ps|
  {
    hide EncodePacket;
    if j > 0 { StartsWithin(isConnect, ps[1..], j - 1); }
  }

  /** One chunk a packet. */
  function PacketChunks(isConnect: bool, ps: seq<Packet>): (chunks: seq<Bytes>)
    requires forall i :: 0 <= i < |ps| ==> ValidTarget(ps[i].target) && EncodePacket(isConnect, ps[i]).Ok?
    ensures Concat(chunks) == EncodePackets(isConnect, ps)
  {
    if ps == [] then [] else
    var chunks := [EncodePacket(isConnect, ps[0]).value] + PacketChunks(isConnect, ps[1..]);
    assert chunks[1..] == PacketChunks(isConnect, ps[1..]);
    chunks
  }

  lemma {:induction false} PacketChunksFit(isConnect: bool, ps: seq<Packet>, i: nat)
    requires forall i :: 0 <= i < |ps| ==> ValidTarget(ps[i].target) && EncodePacket(isConnect, ps[i]).Ok?
    requires i < |PacketChunks(isConnect, ps)|
    ensures i < |ps| && PacketChunks(isConnect, ps)[i] == EncodePacket(isConnect, ps[i]).value
    ensures Leftover(isConnect, ps, |Concat(PacketChunks(isConnect, ps)[..i])|) == 0
    decreases |ps|
  {
    hide EncodePacket;
    var chunks := PacketChunks(isConnect, ps);
    if i == 0 {
      LeftoverNone(isConnect, ps);
    } else {
      assert chunks[1..] == PacketChunks(isConnect, ps[1..]);
      PacketChunksFit(isConnect, ps[1..], i - 1);
      assert chunks[..i][1..] == chunks[1..][..i - 1];
    }
  }

  lemma {:induction false} LeftoverNone(isConnect: bool, ps: seq<Packet>)
    requires forall i :: 0 <= i < |ps| ==> ValidTarget(ps[i].target) && EncodePacket(isConnect, ps[i]).Ok?
    ensures Leftover(isConnect, ps, 0) == 0
  {
    hide EncodePacket;
    if ps != [] { LeftoverNone(isConnect, ps[1..]); }
  }

  ghost predicate GetsThrough(utf8: Bytes -> bool, q: Request, ps: seq<Packet>, chunks: seq<Bytes>)
    requires AllSendable(utf8, q, ps)
  {
    Concat(chunks) == EncodePackets(q.isConnect, ps) && !Uplink(utf8, q, [], chunks).failed
  }

  /** Some way to cut the stream of these packets gets it through if and only if no packet is, encoded,
      longer than the buffer. */
  lemma DeliverableExactly(utf8: Bytes -> bool, q: Request, ps: seq<Packet>)
    requires AllSendable(utf8, q, ps)
    ensures (exists chunks :: GetsThrough(utf8, q, ps, chunks))
            <==> forall j :: 0 <= j < |ps| ==> |EncodePacket(q.isConnect, ps[j]).value| <= MAX_UOT_BUFFER
  {
    hide EncodePacket, EncodePackets, Uplink, Leftover, StartOf, PacketChunks;
    if forall j :: 0 <= j < |ps| ==> |EncodePacket(q.isConnect, ps[j]).value| <= MAX_UOT_BUFFER {
      var chunks := PacketChunks(q.isConnect, ps);
      forall i | 0 <= i < |chunks| ensures Leftover(q.isConnect, ps, |Concat(chunks[..i])|)
          + |chunks[i]| <= MAX_UOT_BUFFER {
        PacketChunksFit(q.isConnect, ps, i);
      }
      UplinkSendsPackets(utf8, q, ps, chunks);
      assert GetsThrough(utf8, q, ps, chunks);
    } else {
      var j :| 0 <= j < |ps| && |EncodePacket(q.isConnect, ps[j]).value| > MAX_UOT_BUFFER;
      forall chunks | Concat(chunks) == EncodePackets(q.isConnect, ps) ensures !GetsThrough(utf8, q, ps, chunks) {
        StartsWithin(q.isConnect, ps, j);
        LongPacketBlocks(q.isConnect, ps, j, 0, chunks);
        UplinkSendsPackets(utf8, q, ps, chunks);
      }
    }
  }

  const ANYWHERE: Target := V4([0, 0, 0, 0], 0)

  /** The longest datagram to an IPv4 address is, encoded, eight bytes too long. */
  lemma LongestDatagramIsRefused(utf8: Bytes -> bool, q: Request, payload: Bytes, chunks: seq<Bytes>)
    requires !q.isConnect && |payload| == 0xFFFF
    ensures AllSendable(utf8, q, [Packet(ANYWHERE, payload)])
    ensures |EncodePacket(false, Packet(ANYWHERE, payload)).value| == MAX_UOT_BUFFER + 8
    ensures !GetsThrough(utf8, q, [Packet(ANYWHERE, payload)], chunks)
  {
    hide Uplink, EncodePackets;
    var ps := [Packet(ANYWHERE, payload)];
    assert AllSendable(utf8, q, ps);
    DeliverableExactly(utf8, q, ps);
    assert |EncodePacket(q.isConnect, ps[0]).value| > MAX_UOT_BUFFER;
  }

  // ---- requests

  lemma RequestLenOfExtension(b: Bytes, c: Bytes)
    requires RequestLen(b).Ok? && RequestLen(b).value.Some?
    ensures RequestLen(b + c) == RequestLen(b)
  {
  }

  /** A request is recognised at the front of a stream and taken off it. */
  lemma RequestTaken(utf8: Bytes -> bool, q: Request, rest: Bytes)
    requires Readable(utf8, q.destination) && Canonical(q.destination) == q.destination
    ensures EncodeRequest(q).Ok?
    ensures TakeRequest(utf8, EncodeRequest(q).value + rest) == Ok(Some(TakenRequest(q, rest)))
  {
    TargetReadBack(utf8, q.destination, []);
    var e := EncodeRequest(q).value;
    var t := EncodeTarget(q.destination).value;
    assert e[1..] == t && t + [] == t;
    var b := e + rest;
    assert b[1] == t[0] && (q.destination.Domain? ==> b[2] == t[1]);
    assert RequestLen(b) == Ok(Some(|e|));
    assert b[..|e|] == e && b[|e|..] == rest;
  }
}
