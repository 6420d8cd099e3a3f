/** Proxy targets and their two byte forms. */
module Targets {
  import opened Common
  import opened BigEndian

  datatype Target = V4(ip: Bytes, port: nat) | V6(ip: Bytes, port: nat) | Domain(host: Bytes, port: nat)

  predicate ValidTarget(t: Target) {
    t.port < 0x1_0000 && (t.V4? ==> |t.ip| == 4) && (t.V6? ==> |t.ip| == 16)
  }

  /** The leading bytes that tell the address kinds apart. */
  datatype Tags = Tags(v4: Byte, v6: Byte, domain: Byte)

  const SOCKS: Tags := Tags(0x01, 0x04, 0x03)
  const UOT: Tags := Tags(0x00, 0x01, 0x02)

  predicate Distinct(g: Tags) {
    g.v4 != g.v6 && g.v6 != g.domain && g.v4 != g.domain
  }

  function WriteAddress(g: Tags, t: Target): Result<Bytes>
    requires ValidTarget(t)
  {
    match t
    case V4(ip, port) => Ok([g.v4] + ip + U16(port))
    case V6(ip, port) => Ok([g.v6] + ip + U16(port))
    case Domain(host, port) => if |host| <= 255 then Ok([g.domain, |host|] + host + U16(port)) else Err
  }

  datatype Read = Read(target: Target, rest: Bytes)

  function ReadAddress(g: Tags, utf8: Bytes -> bool, b: Bytes): Result<Read> {
    if b == [] then Err
    else if b[0] == g.v4 then
      if |b| < 7 then Err else Ok(Read(V4(b[1..5], GetU16(b, 5)), b[7..]))
    else if b[0] == g.domain then
      if |b| < 2 || |b| - 4 < b[1] || !utf8(b[2..2 + b[1]]) then Err
      else Ok(Read(Domain(b[2..2 + b[1]], GetU16(b, 2 + b[1] as int)), b[2 + b[1] as int + 2..]))
    else if b[0] == g.v6 then
      if |b| < 19 then Err else Ok(Read(V6(b[1..17], GetU16(b, 17)), b[19..]))
    else Err
  }

  predicate Readable(utf8: Bytes -> bool, t: Target) {
    ValidTarget(t) && (t.Domain? ==> |t.host| <= 255 && utf8(t.host))
  }

  /** The layout of an address: its kind, four or sixteen bytes or a counted host name, and the port. */
  lemma AddressLayout(g: Tags, t: Target)
    requires ValidTarget(t)
    ensures WriteAddress(g, t).Ok? <==> !(t.Domain? && |t.host| > 255)
    ensures WriteAddress(g, t).Ok? ==>
              var b := WriteAddress(g, t).value;
              var n := |b| - 2;
              && n > 0 && 256 * (b[n] as int) + b[n + 1] == t.port
              && b[0] == (if t.V4? then g.v4 else if t.V6? then g.v6 else g.domain)
              && (!t.Domain? ==> b[1..n] == t.ip)
              && (t.Domain? ==> n >= 2 && b[1] == |t.host| && b[2..n] == t.host)
  {
    if WriteAddress(g, t).Ok? {
      var b := WriteAddress(g, t).value;
      var n := |b| - 2;
      if t.Domain? { assert b[2..n] == t.host; } else { assert b[1..n] == t.ip; }
    }
  }

  lemma AddressReadBack(g: Tags, utf8: Bytes -> bool, t: Target, rest: Bytes)
    requires Distinct(g) && Readable(utf8, t)
    ensures WriteAddress(g, t).Ok?
    ensures ReadAddress(g, utf8, WriteAddress(g, t).value + rest) == Ok(Read(t, rest))
  {
    var e := WriteAddress(g, t).value;
    var b := e + rest;
    var p := U16(t.port);
    match t
    case V4(ip, port) =>
      assert b[1..5] == ip && b[5] == p[0] && b[6] == p[1] && b[7..] == rest;
    case V6(ip, port) =>
      assert b[1..17] == ip && b[17] == p[0] && b[18] == p[1] && b[19..] == rest;
    case Domain(host, port) =>
      var n := |host|;
      assert b[1] == n && b[2..2 + n] == host && b[2 + n] == p[0] && b[3 + n] == p[1] && b[4 + n..] == rest;
  }

  /** Whatever bytes are read as an address start with the encoding of that address: with AddressReadBack,
      reading succeeds exactly on encoded addresses with a readable host. */
  lemma AddressSound(g: Tags, utf8: Bytes -> bool, b: Bytes)
    requires Distinct(g) && ReadAddress(g, utf8, b).Ok?
    ensures var r := ReadAddress(g, utf8, b).value;
            && Readable(utf8, r.target) && WriteAddress(g, r.target).Ok?
            && b == WriteAddress(g, r.target).value + r.rest
  {
    var r := ReadAddress(g, utf8, b).value;
    var n := |b| - |r.rest|;
    U16Back(b, n - 2);
    hide GetU16, U16;
    match r.target
    case V4(ip, port) => assert b == [b[0]] + b[1..5] + b[5..7] + b[7..];
    case V6(ip, port) => assert b == [b[0]] + b[1..17] + b[17..19] + b[19..];
    case Domain(host, port) => assert b == [b[0], b[1]] + b[2..n - 2] + b[n - 2..n] + b[n..];
  }

  // ---- the form shared with SOCKS

  predicate IsMapped(ip: Bytes)
    requires |ip| == 16
  {
    (forall i :: 0 <= i < 10 ==> ip[i] == 0) && ip[10] == 255 && ip[11] == 255
  }

  /** An IPv4 address written as an IPv6 one is taken for what it is. */
  function Canonical(t: Target): Target
    requires ValidTarget(t)
  {
    if t.V6? && IsMapped(t.ip) then V4(t.ip[12..], t.port) else t
  }

  function EncodeTarget(t: Target): Result<Bytes>
    requires ValidTarget(t)
  {
    WriteAddress(SOCKS, Canonical(t))
  }

  function DecodeTarget(utf8: Bytes -> bool, b: Bytes): Result<Read> {
    ReadAddress(SOCKS, utf8, b)
  }

  /** A target comes back canonical, whatever follows it. */
  lemma TargetReadBack(utf8: Bytes -> bool, t: Target, rest: Bytes)
    requires Readable(utf8, t)
    ensures EncodeTarget(t).Ok? && DecodeTarget(utf8, EncodeTarget(t).value + rest) == Ok(Read(Canonical(t), rest))
  {
    AddressReadBack(SOCKS, utf8, Canonical(t), rest);
  }

  /** So it comes back unchanged exactly when it is not an IPv4-mapped IPv6 address. */
  lemma TargetUnchanged(utf8: Bytes -> bool, t: Target, rest: Bytes)
    requires Readable(utf8, t)
    ensures DecodeTarget(utf8, EncodeTarget(t).value + rest) == Ok(Read(t, rest)) <==> !(t.V6? && IsMapped(t.ip))
  {
    TargetReadBack(utf8, t, rest);
  }
}
