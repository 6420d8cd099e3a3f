/** The REALITY server's reader of a ClientHello: record reassembly, then the message itself. */
module RealityParser {
  import opened Common
  import opened BigEndian

  const TLS_GROUP_X25519: nat := 29
  const TLS_GROUP_X25519_KYBER768_DRAFT00: nat := 0x6399
  const TLS_GROUP_X25519_MLKEM768: nat := 0x11ec

  // ---- reassembly from records

  datatype Prefix = NeedMore(size: nat) | Complete(handshake: Bytes, end: nat) | Malformed

  /** A handshake collected so far: nothing yet, or its header and less than all of its body. */
  predicate Unfinished(h: Bytes) {
    h == [] || (4 <= |h| < GetU24(h, 1) + 4)
  }

  datatype Fed = Bad | Partial(h: Bytes) | Whole(h: Bytes)

  /** Adds the payload of one record. */
  function Feed(h: Bytes, payload: Bytes): (f: Fed)
    requires Unfinished(h)
    ensures f.Partial? ==> Unfinished(f.h)
  {
    if payload == [] then Partial(h)
    else if h == [] && (|payload| < 4 || payload[0] != 1) then Bad
    else
      var h1 := if h == [] then payload[..4] else h;
      var p1 := if h == [] then payload[4..] else payload;
      var h2 := h1 + p1[..Min(GetU24(h1, 1) + 4 - |h1|, |p1|)];
      assert GetU24(h2, 1) == GetU24(h1, 1);
      if |h2| == GetU24(h1, 1) + 4 then Whole(h2) else Partial(h2)
  }

  function Scan(data: Bytes, offset: nat, h: Bytes): Prefix
    requires Unfinished(h) && offset <= |data|
    decreases |data| - offset
  {
    if |data| < offset + 5 then NeedMore(offset + 5)
    else if data[offset] != 22 then Malformed
    else
      var end := offset + 5 + GetU16(data, offset + 3);
      if |data| < end then NeedMore(end)
      else match Feed(h, data[offset + 5..end])
        case Bad => Malformed
        case Whole(m) => Complete(m, end)
        case Partial(h1) => Scan(data, end, h1)
  }

  predicate Expects(expected: Option<nat>, h: Bytes) {
    expected == if h == [] then None else if |h| < 4 then None else Some(GetU24(h, 1) + 4)
  }

  /** The inner loop: the payload of one record, taken until it is empty or the message is whole. */
  method TakePayload(handshake0: Bytes, expected0: Option<nat>, payload0: Bytes)
    returns (fed: Fed, expected: Option<nat>)
    requires Unfinished(handshake0) && Expects(expected0, handshake0)
    ensures fed == Feed(handshake0, payload0)
    ensures fed.Partial? ==> Expects(expected, fed.h)
  {
    var handshake, payload := handshake0, payload0;
    expected := expected0;
    while payload != []
      invariant Unfinished(handshake) && Expects(expected, handshake)
      invariant payload == [] || (payload == payload0 && handshake == handshake0)
      invariant payload == [] ==> Feed(handshake0, payload0) == Partial(handshake)
      decreases |payload|
    {
      if expected.None? {
        if |payload| < 4 || payload[0] != 1 {
          return Bad, expected;
        }
        handshake := handshake + payload[..4];
        expected := Some(GetU24(payload, 1) + 4);
        payload := payload[4..];
      }
      var take := Min(expected.value - |handshake|, |payload|);
      handshake := handshake + payload[..take];
      payload := payload[take..];
      if |handshake| == expected.value {
        return Whole(handshake), expected;
      }
    }
    return Partial(handshake), expected;
  }

  method ParseClientHelloPrefix(data: Bytes) returns (r: Prefix)
    ensures r == Scan(data, 0, [])
  {
    hide Feed;
    var offset, handshake: Bytes := 0, [];
    var expected: Option<nat> := None;
    while true
      invariant offset <= |data| && Unfinished(handshake) && Expects(expected, handshake)
      invariant Scan(data, offset, handshake) == Scan(data, 0, [])
      decreases |data| - offset
    {
      if |data| < offset + 5 {
        return NeedMore(offset + 5);
      }
      if data[offset] != 22 {
        return Malformed;
      }
      var recordEnd := offset + 5 + GetU16(data, offset + 3);
      if |data| < recordEnd {
        return NeedMore(recordEnd);
      }
      var fed;
      fed, expected := TakePayload(handshake, expected, data[offset + 5..recordEnd]);
      match fed
      case Bad => return Malformed;
      case Whole(m) => return Complete(m, recordEnd);
      case Partial(h) =>
        handshake := h;
        offset := recordEnd;
    }
  }

  // ---- any split into records is reassembled

  function RecordOf(version: nat, payload: Bytes): Bytes
    requires version < 0x1_0000 && |payload| < 0x1_0000
  {
    ([22] + U16(version) + U16(|payload|)) + payload
  }

  predicate Fit(parts: seq<Bytes>) {
    forall i :: 0 <= i < |parts| ==> |parts[i]| < 0x1_0000
  }

  /** The records that carry the given payloads. */
  function Stream(version: nat, parts: seq<Bytes>): Bytes
    requires version < 0x1_0000 && Fit(parts)
  {
    if parts == [] then [] else RecordOf(version, parts[0]) + Stream(version, parts[1..])
  }

  /** A whole handshake message of the ClientHello type. */
  predicate IsMessage(m: Bytes) {
    |m| >= 4 && m[0] == 1 && GetU24(m, 1) + 4 == |m|
  }

  /** The first record with a payload holds the whole header. */
  predicate HeaderWhole(parts: seq<Bytes>) {
    parts != [] && (if parts[0] == [] then HeaderWhole(parts[1..]) else |parts[0]| >= 4)
  }

  lemma FeedPart(m: Bytes, h: Bytes, part: Bytes, rest: Bytes)
    requires IsMessage(m) && m == h + (part + rest) && |h| < |m| && Unfinished(h)
    requires h == [] && part != [] ==> |part| >= 4
    ensures h + part == m ==> Feed(h, part) == Whole(m)
    ensures h + part != m ==> Feed(h, part) == Partial(h + part) && |h + part| < |m| && Unfinished(h + part)
  {
  }

  /** Where a record starts in the data, its header and payload are read back. */
  lemma RecordAt(data: Bytes, offset: nat, version: nat, payload: Bytes, tail: Bytes)
    requires version < 0x1_0000 && |payload| < 0x1_0000 && offset <= |data|
    requires data[offset..] == RecordOf(version, payload) + tail
    ensures |data| >= offset + 5 + |payload| && data[offset] == 22
    ensures GetU16(data, offset + 3) == |payload|
    ensures data[offset + 5..offset + 5 + |payload|] == payload
    ensures data[offset + 5 + |payload|..] == tail
  {
  }

  /** However a ClientHello is split over records, even with empty records in between, the server
      reassembles exactly its bytes, as long as its 4-byte header is not split. */
  lemma {:induction false} Reassembles(m: Bytes, version: nat, parts: seq<Bytes>, data: Bytes, offset: nat, h: Bytes)
    requires IsMessage(m) && version < 0x1_0000 && Fit(parts)
    requires offset <= |data| && data[offset..] == Stream(version, parts)
    requires m == h + Concat(parts) && |h| < |m| && Unfinished(h)
    requires h == [] ==> HeaderWhole(parts)
    ensures Scan(data, offset, h).Complete? && Scan(data, offset, h).handshake == m
    decreases |parts|
  {
    hide Feed, RecordOf;
    assert |Concat(parts)| > 0;
    RecordAt(data, offset, version, parts[0], Stream(version, parts[1..]));
    FeedPart(m, h, parts[0], Concat(parts[1..]));
    if h + parts[0] != m {
      Associative(h, parts[0], Concat(parts[1..]));
      if parts[0] == [] { assert h + parts[0] == h; }
      Reassembles(m, version, parts[1..], data, offset + 5 + |parts[0]|, h + parts[0]);
    }
  }

  /** A first payload of one to three bytes is refused, whatever comes after it. */
  lemma {:induction false} SplitHeaderIsRefused(version: nat, parts: seq<Bytes>, data: Bytes, offset: nat)
    requires version < 0x1_0000 && Fit(parts) && Concat(parts) != [] && !HeaderWhole(parts)
    requires offset <= |data| && data[offset..] == Stream(version, parts)
    ensures Scan(data, offset, []) == Malformed
    decreases |parts|
  {
    hide RecordOf;
    assert parts != [];
    RecordAt(data, offset, version, parts[0], Stream(version, parts[1..]));
    if parts[0] == [] {
      assert [] + Concat(parts[1..]) == Concat(parts[1..]);
      SplitHeaderIsRefused(version, parts[1..], data, offset + 5);
    }
  }

  /** Of all splits of a ClientHello over records, exactly those that keep its header whole are
      reassembled; every other is refused. */
  lemma ReassembledExactly(m: Bytes, version: nat, parts: seq<Bytes>)
    requires IsMessage(m) && version < 0x1_0000 && Fit(parts) && m == Concat(parts)
    ensures HeaderWhole(parts) <==> Scan(Stream(version, parts), 0, []).Complete?
    ensures HeaderWhole(parts) ==> Scan(Stream(version, parts), 0, []).handshake == m
    ensures !HeaderWhole(parts) ==> Scan(Stream(version, parts), 0, []) == Malformed
  {
    hide Scan;
    var data := Stream(version, parts);
    assert data[0..] == data && [] + m == m;
    if HeaderWhole(parts) {
      Reassembles(m, version, parts, data, 0, []);
    } else {
      SplitHeaderIsRefused(version, parts, data, 0);
    }
  }

  /** Before all records have arrived the server asks for more, never for more than is coming, and
      never gives up: so peeking with a growing buffer ends with the whole message. */
  lemma {:induction false} WaitsForMore(m: Bytes, version: nat, parts: seq<Bytes>, all: Bytes, offset: nat, h: Bytes,
      k: nat)
    requires IsMessage(m) && version < 0x1_0000 && Fit(parts)
    requires offset <= k < |all| && all[offset..] == Stream(version, parts)
    requires m == h + Concat(parts) && |h| < |m| && Unfinished(h)
    requires h == [] ==> HeaderWhole(parts)
    requires parts != [] ==> parts[|parts| - 1] != []
    ensures Scan(all[..k], offset, h).NeedMore?
    ensures k < Scan(all[..k], offset, h).size <= |all|
    decreases |parts|
  {
    hide Feed, RecordOf;
    assert |Stream(version, parts)| > 0;
    var data := all[..k];
    RecordAt(all, offset, version, parts[0], Stream(version, parts[1..]));
    var end := offset + 5 + |parts[0]|;
    if k >= offset + 5 {
      assert data[offset] == all[offset] && GetU16(data, offset + 3) == GetU16(all, offset + 3);
      if k >= end {
        assert data[offset + 5..end] == all[offset + 5..end];
        FeedPart(m, h, parts[0], Concat(parts[1..]));
        Associative(h, parts[0], Concat(parts[1..]));
        assert |Stream(version, parts[1..])| > 0;
        if h + parts[0] == m { LaterPartsEmpty(m, h, parts); }
        if parts[0] == [] { assert h + parts[0] == h; }
        WaitsForMore(m, version, parts[1..], all, end, h + parts[0], k);
      }
    }
  }

  lemma {:induction false} SomethingThere(parts: seq<Bytes>)
    requires parts != [] && parts[|parts| - 1] != []
    ensures |Concat(parts)| > 0
  {
    if |parts| > 1 {
      SomethingThere(parts[1..]);
    }
  }

  lemma LaterPartsEmpty(m: Bytes, h: Bytes, parts: seq<Bytes>)
    requires parts != [] && m == h + Concat(parts) && h + parts[0] == m
    requires parts[|parts| - 1] != []
    ensures |parts| == 1
  {
    assert |m| == |h| + |parts[0]| + |Concat(parts[1..])|;
    if |parts| > 1 {
      SomethingThere(parts[1..]);
    }
  }

  // ---- the message

  datatype Found = Found(name: Option<Bytes>, keyShare: Option<Bytes>, tls13: bool)

  const NOTHING: Found := Found(None, None, false)

  datatype Parsed = Parsed(serverName: Bytes, random: Bytes, sessionId: Bytes, keyShare: Bytes)

  /** The entries of a server_name list; the first of type host_name counts. */
  function HostName(utf8: Bytes -> bool, entries: Bytes): Result<Bytes> {
    if |entries| < 3 then Err else
    var n := GetU16(entries, 1);
    if 3 + n > |entries| then Err
    else if entries[0] == 0 then
      if n > 0 && utf8(entries[3..3 + n]) then Ok(entries[3..3 + n]) else Err
    else HostName(utf8, entries[3 + n..])
  }

  function ParseServerName(utf8: Bytes -> bool, b: Bytes): Result<Bytes> {
    if |b| < 2 || GetU16(b, 0) + 2 != |b| then Err else HostName(utf8, b[2..])
  }

  predicate OffersTls13(versions: Bytes) {
    |versions| >= 2 && (versions[..2] == [3, 4] || OffersTls13(versions[2..]))
  }

  function ParseVersions(b: Bytes): Result<bool> {
    if b == [] || |b| - 1 != b[0] || b[0] % 2 != 0 then Err else Ok(OffersTls13(b[1..]))
  }

  function Note(utf8: Bytes -> bool, acc: Found, ty: nat, data: Bytes): Result<Found> {
    if ty == 0 then
      match ParseServerName(utf8, data)
      case Ok(name) => Ok(acc.(name := Some(name)))
      case Err => Err
    else if ty == 43 then
      match ParseVersions(data)
      case Ok(yes) => Ok(acc.(tls13 := yes))
      case Err => Err
    else if ty == 51 then Ok(acc.(keyShare := Some(data)))
    else Ok(acc)
  }

  function ParseExtensions(utf8: Bytes -> bool, data: Bytes, acc: Found): Result<Found> {
    if data == [] then Ok(acc)
    else if |data| < 4 then Err
    else
      var n := GetU16(data, 2);
      if 4 + n > |data| then Err
      else match Note(utf8, acc, GetU16(data, 0), data[4..4 + n])
        case Err => Err
        case Ok(acc1) => ParseExtensions(utf8, data[4 + n..], acc1)
  }

  /** Everything after the session id. */
  function ParseAfterSession(utf8: Bytes -> bool, b: Bytes): Result<Found> {
    if |b| < 2 || 2 + GetU16(b, 0) > |b| then Err else
    var c := b[2 + GetU16(b, 0)..];
    if |c| < 1 || 1 + c[0] > |c| then Err else
    var e := c[1 + c[0]..];
    if |e| < 2 || 2 + GetU16(e, 0) != |e| then Err
    else ParseExtensions(utf8, e[2..], NOTHING)
  }

  const SESSION_START: nat := 39
  const SESSION_END: nat := 71

  function ParseHello(utf8: Bytes -> bool, raw: Bytes): (r: Result<Parsed>)
    ensures r.Ok? ==> |raw| >= SESSION_END && |r.value.random| == 32 && |r.value.sessionId| == 32
  {
    if |raw| < SESSION_START || raw[0] != 1 || GetU24(raw, 1) + 4 != |raw| then Err
    else if raw[38] != 32 || |raw| < SESSION_END then Err
    else match ParseAfterSession(utf8, raw[SESSION_END..])
      case Err => Err
      case Ok(found) =>
        if found.tls13 && found.name.Some? && found.keyShare.Some? then
          Ok(Parsed(found.name.value, raw[6..38], raw[SESSION_START..SESSION_END], found.keyShare.value))
        else Err
  }

  /** The parser as written: one pass with a moving offset. */
  method ParseClientHello(utf8: Bytes -> bool, raw: Bytes) returns (r: Result<Parsed>)
    ensures r == ParseHello(utf8, raw)
  {
    if |raw| < 4 + 2 + 32 + 1 || raw[0] != 1 || GetU24(raw, 1) + 4 != |raw| {
      return Err;
    }
    var offset := 4 + 2;
    var random := raw[offset..offset + 32];
    offset := offset + 32;
    var sessionLen := raw[offset];
    offset := offset + 1;
    if offset + sessionLen > |raw| || sessionLen != 32 {
      return Err;
    }
    var session := raw[offset..offset + sessionLen];
    var found := ReadAfterSession(utf8, raw, offset + sessionLen);
    if found.Ok? && found.value.tls13 && found.value.name.Some? && found.value.keyShare.Some? {
      r := Ok(Parsed(found.value.name.value, random, session, found.value.keyShare.value));
    } else {
      r := Err;
    }
  }

  method ReadAfterSession(utf8: Bytes -> bool, raw: Bytes, start: nat) returns (r: Result<Found>)
    requires start <= |raw|
    ensures r == ParseAfterSession(utf8, raw[start..])
  {
    hide ParseExtensions, GetU16;
    var offset := start;
    if offset + 2 > |raw| || offset + 2 + GetU16(raw, offset) > |raw| {
      if offset + 2 <= |raw| { SuffixU16(raw, offset, 0); }
      return Err;
    }
    SuffixU16(raw, offset, 0);
    ghost var b := raw[offset..];
    offset := offset + 2 + GetU16(raw, offset);
    ghost var c := raw[offset..];
    assert b[2 + GetU16(b, 0)..] == c;
    if offset >= |raw| || offset + 1 + raw[offset] > |raw| {
      return Err;
    }
    assert c[0] == raw[offset];
    offset := offset + 1 + raw[offset];
    ghost var e := raw[offset..];
    assert c[1 + c[0]..] == e;
    if offset + 2 > |raw| || offset + 2 + GetU16(raw, offset) != |raw| {
      if offset + 2 <= |raw| { SuffixU16(raw, offset, 0); }
      return Err;
    }
    SuffixU16(raw, offset, 0);
    assert e[2..] == raw[offset + 2..];
    r := ReadExtensions(utf8, raw, offset + 2);
  }

  method ReadExtensions(utf8: Bytes -> bool, raw: Bytes, start: nat) returns (r: Result<Found>)
    requires start <= |raw|
    ensures r == ParseExtensions(utf8, raw[start..], NOTHING)
  {
    var offset := start;
    var acc := NOTHING;
    while offset < |raw|
      invariant start <= offset <= |raw|
      invariant ParseExtensions(utf8, raw[offset..], acc) == ParseExtensions(utf8, raw[start..], NOTHING)
    {
      ghost var data := raw[offset..];
      if offset + 4 > |raw| {
        return Err;
      }
      var n := GetU16(raw, offset + 2);
      assert GetU16(data, 0) == GetU16(raw, offset) && GetU16(data, 2) == n;
      if offset + 4 + n > |raw| {
        return Err;
      }
      assert data[4..4 + n] == raw[offset + 4..offset + 4 + n] && data[4 + n..] == raw[offset + 4 + n..];
      var noted := Note(utf8, acc, GetU16(raw, offset), raw[offset + 4..offset + 4 + n]);
      if noted.Err? {
        return Err;
      }
      acc := noted.value;
      offset := offset + 4 + n;
    }
    r := Ok(acc);
  }

  // ---- only hellos are read

  datatype Field = Field(ty: nat, data: Bytes)

  predicate FieldsFit(fields: seq<Field>) {
    forall i :: 0 <= i < |fields| ==> fields[i].ty < 0x1_0000 && |fields[i].data| < 0x1_0000
  }

  /** Extensions as section 4.2 of RFC 8446 lays them out. */
  function FieldBytes(fields: seq<Field>): Bytes
    requires FieldsFit(fields)
  {
    if fields == [] then []
    else U16(fields[0].ty) + U16(|fields[0].data|) + fields[0].data + FieldBytes(fields[1..])
  }

  /** The last extension of a type, which is the one that counts. */
  function LastOf(fields: seq<Field>, ty: nat): Option<Bytes> {
    if fields == [] then None
    else if fields[|fields| - 1].ty == ty then Some(fields[|fields| - 1].data)
    else LastOf(fields[..|fields| - 1], ty)
  }

  lemma {:induction false} LastOfCons(f: Field, fields: seq<Field>, ty: nat)
    ensures LastOf([f] + fields, ty)
            == if LastOf(fields, ty).Some? then LastOf(fields, ty) else if f.ty == ty then Some(f.data) else None
  {
    var all := [f] + fields;
    if fields != [] {
      assert all[..|all| - 1] == [f] + fields[..|fields| - 1];
      LastOfCons(f, fields[..|fields| - 1], ty);
    } else {
      assert all[..0] == [];
    }
  }

  lemma FieldIs(data: Bytes)
    requires |data| >= 4 && 4 + GetU16(data, 2) <= |data|
    ensures var n := GetU16(data, 2);
            data == U16(GetU16(data, 0)) + U16(|data[4..4 + n]|) + data[4..4 + n] + data[4 + n..]
  {
    U16Back(data, 0);
    U16Back(data, 2);
    hide U16, GetU16;
    var n := GetU16(data, 2);
    assert data == data[0..2] + data[2..4] + data[4..4 + n] + data[4 + n..];
  }

  /** What counts of a list of extensions, one kind at a time. */
  ghost predicate Noted(utf8: Bytes -> bool, fields: seq<Field>, before: Found, found: Found) {
    && found.keyShare == (if LastOf(fields, 51).Some? then LastOf(fields, 51) else before.keyShare)
    && (LastOf(fields, 0).Some? ==>
          ParseServerName(utf8, LastOf(fields, 0).value).Ok?
          && found.name == Some(ParseServerName(utf8, LastOf(fields, 0).value).value))
    && (LastOf(fields, 0).None? ==> found.name == before.name)
    && (LastOf(fields, 43).Some? ==>
          ParseVersions(LastOf(fields, 43).value).Ok? && found.tls13 == ParseVersions(LastOf(fields, 43).value).value)
    && (LastOf(fields, 43).None? ==> found.tls13 == before.tls13)
  }

  lemma {:induction false} ExtensionsSound(utf8: Bytes -> bool, data: Bytes, acc: Found) returns (fields: seq<Field>)
    requires ParseExtensions(utf8, data, acc).Ok?
    ensures FieldsFit(fields) && FieldBytes(fields) == data
    ensures Noted(utf8, fields, acc, ParseExtensions(utf8, data, acc).value)
    decreases |data|
  {
    hide ParseServerName, ParseVersions, U16, GetU16;
    if data == [] { return []; }
    var n := GetU16(data, 2);
    var f := Field(GetU16(data, 0), data[4..4 + n]);
    var acc1 := Note(utf8, acc, f.ty, f.data).value;
    var later := ExtensionsSound(utf8, data[4 + n..], acc1);
    fields := [f] + later;
    assert fields[1..] == later;
    FieldIs(data);
    LastOfCons(f, later, 0);
    LastOfCons(f, later, 43);
    LastOfCons(f, later, 51);
    hide LastOf, FieldBytes;
  }

  /** The versions offered, two bytes each, have TLS 1.3 among them. */
  lemma {:induction false} OffersSomewhere(versions: Bytes)
    ensures OffersTls13(versions) <==>
              exists i {:trigger versions[2 * i]} :: 0 <= i && 2 * i + 2 <= |versions| && versions[2 * i] == 3
                  && versions[2 * i + 1] == 4
  {
    if |versions| >= 2 {
      var later := versions[2..];
      OffersSomewhere(later);
      assert versions[..2] == [versions[0], versions[1]];
      if versions[..2] == [3, 4] {
        assert versions[2 * 0] == versions[..2][0] && versions[1] == versions[..2][1];
      } else if OffersTls13(later) {
        var i :| 0 <= i && 2 * i + 2 <= |later| && later[2 * i] == 3 && later[2 * i + 1] == 4;
        assert versions[2 * (i + 1)] == 3 && versions[2 * (i + 1) + 1] == 4;
      } else {
        forall i | 0 <= i && 2 * i + 2 <= |versions| ensures !(versions[2 * i] == 3 && versions[2 * i + 1] == 4) {
          if i > 0 {
            assert versions[2 * i] == later[2 * (i - 1)] && versions[2 * i + 1] == later[2 * (i - 1) + 1];
          }
        }
      }
    }
  }

  /** A name that is read is there, as the host name of an entry of the list. */
  lemma {:induction false} NameIsThere(utf8: Bytes -> bool, entries: Bytes) returns (i: nat)
    requires HostName(utf8, entries).Ok?
    ensures var name := HostName(utf8, entries).value;
            && name != [] && utf8(name) && i + 3 + |name| <= |entries| && entries[i] == 0
            && GetU16(entries, i + 1) == |name| && entries[i + 3..i + 3 + |name|] == name
    decreases |entries|
  {
    var n := GetU16(entries, 1);
    if entries[0] == 0 {
      i := 0;
    } else {
      var rest := entries[3 + n..];
      var j := NameIsThere(utf8, rest);
      i := 3 + n + j;
      var name := HostName(utf8, rest).value;
      assert rest[j + 1] == entries[i + 1] && rest[j + 2] == entries[i + 2];
      assert entries[i + 3..i + 3 + |name|] == rest[j + 3..j + 3 + |name|];
    }
  }

  /** A whole ClientHello as section 4.1.2 of RFC 8446 lays it out. */
  function HelloBytes(version: Bytes, random: Bytes, session: Bytes, ciphers: Bytes, compression: Bytes,
      fields: seq<Field>): Bytes
    requires |ciphers| < 0x1_0000 && |compression| < 256 && |session| < 256
    requires FieldsFit(fields) && |FieldBytes(fields)| < 0x1_0000
  {
    version + random + [|session|] + session + (U16(|ciphers|) + ciphers + ([|compression|] + compression
                                                + (U16(|FieldBytes(fields)|) + FieldBytes(fields))))
  }

  /** What is read is a ClientHello: a message of that type and length, laid out as it must be, with a
      32-byte session id; the key share and the name are those of its last such extensions, and its
      last supported_versions lists TLS 1.3. */
  lemma HelloSound(utf8: Bytes -> bool, raw: Bytes) returns (ciphers: Bytes, compression: Bytes, fields: seq<Field>)
    requires ParseHello(utf8, raw).Ok?
    ensures |ciphers| < 0x1_0000 && |compression| < 256 && FieldsFit(fields) && |FieldBytes(fields)| < 0x1_0000
    ensures var p := ParseHello(utf8, raw).value;
            && |raw| >= 71 && raw[0] == 1 && Fold(0, raw[1..4]) == |raw| - 4 && |p.random| == |p.sessionId| == 32
            && raw[4..] == HelloBytes(raw[4..6], p.random, p.sessionId, ciphers, compression, fields)
            && LastOf(fields, 51) == Some(p.keyShare)
            && LastOf(fields, 0).Some? && ParseServerName(utf8, LastOf(fields, 0).value) == Ok(p.serverName)
            && LastOf(fields, 43).Some?
            && (var v := LastOf(fields, 43).value;
                && |v| >= 3 && v[0] == |v| - 1 && v[0] % 2 == 0
                && exists i {:trigger v[1..][2 * i]} :: 0 <= i && 2 * i + 3 <= |v| && v[1..][2 * i] == 3
                    && v[1..][2 * i + 1] == 4)
  {
    hide ParseServerName, ParseExtensions, FieldBytes, LastOf, OffersTls13;
    var b := raw[SESSION_END..];
    ciphers, compression, fields := AfterSessionSound(utf8, b);
    ThreeBytes(raw[1..4]);
    assert GetU24(raw[1..4], 0) == GetU24(raw, 1);
    assert raw[4..] == raw[4..6] + raw[6..38] + [raw[38]] + raw[39..71] + b;
    OffersSomewhere(LastOf(fields, 43).value[1..]);
  }

  lemma ThreeBytes(b: Bytes)
    requires |b| == 3
    ensures Fold(0, b) == GetU24(b, 0)
  {
    assert b == [b[0], b[1], b[2]] && [b[0], b[1], b[2]][1..] == [b[1], b[2]] && [b[1], b[2]][1..] == [b[2]];
    var v1: nat := b[0];
    var v2 := 256 * v1 + b[1];
    assert Fold(0, b) == Fold(v1, [b[1], b[2]]) == Fold(v2, [b[2]]);
    FoldOne(v2, b[2]);
  }

  lemma AfterSessionSound(utf8: Bytes -> bool, b: Bytes) returns (ciphers: Bytes, compression: Bytes,
      fields: seq<Field>)
    requires ParseAfterSession(utf8, b).Ok?
    ensures |ciphers| < 0x1_0000 && |compression| < 256 && FieldsFit(fields) && |FieldBytes(fields)| < 0x1_0000
    ensures b == U16(|ciphers|) + ciphers + ([|compression|] + compression
                                             + (U16(|FieldBytes(fields)|) + FieldBytes(fields)))
    ensures Noted(utf8, fields, NOTHING, ParseAfterSession(utf8, b).value)
  {
    hide ParseExtensions, FieldBytes, Noted, U16, GetU16;
    var n := GetU16(b, 0);
    ciphers := b[2..2 + n];
    var c := b[2 + n..];
    var k: nat := c[0];
    compression := c[1..1 + k];
    var e := c[1 + k..];
    fields := ExtensionsSound(utf8, e[2..], NOTHING);
    U16Back(b, 0);
    U16Back(e, 0);
    assert e == e[0..2] + e[2..];
    assert c == [c[0]] + compression + e;
    assert b == b[0..2] + ciphers + c;
  }

  // ---- the key share

  /** The X25519 key of the list, or else the X25519 part of the last hybrid key. */
  function PeerKey(entries: Bytes, hybrid: Option<Bytes>): Result<Bytes> {
    if entries == [] then (if hybrid.Some? then Ok(hybrid.value) else Err)
    else if |entries| < 4 || 4 + GetU16(entries, 2) > |entries| then Err
    else
      var n := GetU16(entries, 2);
      var data := entries[4..4 + n];
      if GetU16(entries, 0) == TLS_GROUP_X25519 && n == 32 then Ok(data)
      else PeerKey(entries[4 + n..], HybridAfter(GetU16(entries, 0), data, hybrid))
  }

  function HybridAfter(group: nat, data: Bytes, hybrid: Option<Bytes>): Option<Bytes> {
    if group == TLS_GROUP_X25519_KYBER768_DRAFT00 && |data| >= 32 then Some(data[..32])
    else if group == TLS_GROUP_X25519_MLKEM768 && |data| >= 32 then Some(data[|data| - 32..])
    else hybrid
  }

  function PeerPublicKey(keyShare: Bytes): Result<Bytes> {
    if |keyShare| < 2 || GetU16(keyShare, 0) + 2 != |keyShare| then Err else PeerKey(keyShare[2..], None)
  }

  method ParsePeerPublicKey(keyShare: Bytes) returns (r: Result<Bytes>)
    ensures r == PeerPublicKey(keyShare)
    ensures r.Ok? ==> |r.value| == 32
  {
    if |keyShare| < 2 || GetU16(keyShare, 0) + 2 != |keyShare| {
      return Err;
    }
    var offset := 2;
    var hybrid: Option<Bytes> := None;
    while offset < |keyShare|
      invariant 2 <= offset <= |keyShare|
      invariant hybrid.Some? ==> |hybrid.value| == 32
      invariant PeerKey(keyShare[offset..], hybrid) == PeerKey(keyShare[2..], None)
    {
      ghost var entries := keyShare[offset..];
      if offset + 4 > |keyShare| {
        return Err;
      }
      var group, n := GetU16(keyShare, offset), GetU16(keyShare, offset + 2);
      assert GetU16(entries, 0) == group && GetU16(entries, 2) == n;
      if offset + 4 + n > |keyShare| {
        return Err;
      }
      var data := keyShare[offset + 4..offset + 4 + n];
      assert entries[4..4 + n] == data && entries[4 + n..] == keyShare[offset + 4 + n..];
      if group == TLS_GROUP_X25519 && n == 32 {
        return Ok(data);
      }
      hybrid := HybridAfter(group, data, hybrid);
      offset := offset + 4 + n;
    }
    r := if hybrid.Some? then Ok(hybrid.value) else Err;
  }
}
