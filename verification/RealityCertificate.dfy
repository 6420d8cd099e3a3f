/**
  The REALITY certificate: the server overwrites the signature of a DER template with a keyed hash
  of its public key, the client parses the result with its own code (certificate shape in section
  4.1 of RFC 5280).
*/
module RealityCertificate {
  import opened Common
  import opened BigEndian

  datatype Element = Element(tag: Byte, contentStart: nat, contentEnd: nat)

  /** The element that starts at an offset; lengths in short form or with one to four bytes. */
  function ReadElement(b: Bytes, offset: nat): (r: Result<Element>)
    ensures r.Ok? ==>
            offset + 2 <= r.value.contentStart <= r.value.contentEnd <= |b|
            && r.value.contentStart <= offset + 6
  {
    if offset + 2 > |b| then Err
    else if b[offset + 1] < 128 then
      if offset + 2 + b[offset + 1] <= |b| then Ok(Element(b[offset], offset + 2, offset + 2 + b[offset + 1])) else Err
    else
      var k := b[offset + 1] as int - 128;
      if k == 0 || k > 4 || offset + 2 + k > |b| then Err
      else
        var start := offset + 2 + k;
        var n := Fold(0, b[offset + 2..start]);
        if start + n <= |b| then Ok(Element(b[offset], start, start + n)) else Err
  }

  method ReadDerElement(b: Bytes, offset: nat) returns (r: Result<Element>)
    ensures r == ReadElement(b, offset)
  {
    if offset + 2 > |b| {
      return Err;
    }
    var length, contentStart: nat := b[offset + 1], offset + 2;
    if b[offset + 1] >= 128 {
      var k := b[offset + 1] as int - 128;
      if k == 0 || k > 4 || offset + 2 + k > |b| {
        return Err;
      }
      length, contentStart := 0, offset + 2 + k;
      for i := offset + 2 to contentStart
        invariant length == Fold(0, b[offset + 2..i])
      {
        assert b[offset + 2..i + 1] == b[offset + 2..i] + [b[i]];
        FoldAppend(0, b[offset + 2..i], [b[i]]);
        FoldOne(Fold(0, b[offset + 2..i]), b[i]);
        length := 256 * length + (b[i] as int);
      }
    }
    if contentStart + length > |b| {
      return Err;
    }
    r := Ok(Element(b[offset], contentStart, contentStart + length));
  }

  /** The outer shape both ends look at: certificate, TBS part, algorithm, signature. */
  datatype Outer = Outer(root: Element, tbs: Element, algorithm: Element, signature: Element)

  function ReadOuter(b: Bytes): (r: Result<Outer>)
    ensures r.Ok? ==>
              var o := r.value;
              && o.tbs.contentEnd <= o.algorithm.contentStart
              && o.algorithm.contentEnd <= o.signature.contentStart <= o.signature.contentEnd <= |b|
  {
    match ReadElement(b, 0)
    case Err => Err
    case Ok(root) =>
      if root.tag != 0x30 || root.contentEnd != |b| then Err else
      match ReadElement(b, root.contentStart)
      case Err => Err
      case Ok(tbs) =>
        if tbs.tag != 0x30 then Err else
        match ReadElement(b, tbs.contentEnd)
        case Err => Err
        case Ok(algorithm) =>
          if algorithm.tag != 0x30 then Err else
          match ReadElement(b, algorithm.contentEnd)
          case Err => Err
          case Ok(signature) =>
            if signature.tag != 0x03 || signature.contentEnd != root.contentEnd then Err
            else Ok(Outer(root, tbs, algorithm, signature))
  }

  /** Where the server puts its keyed hash. */
  function SignatureOffset(b: Bytes): (r: Result<nat>)
    ensures r.Ok? ==> r.value + 64 <= |b|
  {
    match ReadOuter(b)
    case Err => Err
    case Ok(o) =>
      if o.signature.contentEnd >= o.signature.contentStart + 1 + 64 && b[o.signature.contentStart] == 0
      then Ok(o.signature.contentStart + 1) else Err
  }

  /** Skips a number of elements. */
  function Skip(b: Bytes, offset: nat, count: nat): (r: Result<nat>)
    requires offset <= |b|
    ensures r.Ok? ==> offset <= r.value <= |b|
    decreases count
  {
    if count == 0 then Ok(offset) else
    match ReadElement(b, offset)
    case Err => Err
    case Ok(e) => Skip(b, e.contentEnd, count - 1)
  }

  /** The SubjectPublicKeyInfo: after an optional version and five further fields. An index past the
      end, which would stop the client's task, counts as an error here. */
  function FindSpki(b: Bytes, tbs: Element): (r: Result<Element>)
    requires tbs.contentStart <= |b|
    ensures r.Ok? ==>
            tbs.contentStart < |b|
            && tbs.contentStart + 2 <= r.value.contentStart <= r.value.contentEnd <= |b|
  {
    if tbs.contentStart >= |b| then Err else
    match Skip(b, tbs.contentStart, if b[tbs.contentStart] == 0xa0 then 6 else 5)
    case Err => Err
    case Ok(offset) =>
      match ReadElement(b, offset)
      case Err => Err
      case Ok(spki) => if spki.tag == 0x30 then Ok(spki) else Err
  }

  method FindSpkiLoop(b: Bytes, tbs: Element) returns (r: Result<Element>)
    requires tbs.contentStart < |b|
    ensures r == FindSpki(b, tbs)
  {
    var offset: nat := tbs.contentStart;
    ghost var total: nat := if b[offset] == 0xa0 then 6 else 5;
    if b[offset] == 0xa0 {
      var version := ReadDerElement(b, offset);
      if version.Err? {
        return Err;
      }
      offset := version.value.contentEnd;
    }
    for i := 0 to 5
      invariant offset <= |b|
      invariant Skip(b, offset, 5 - i) == Skip(b, tbs.contentStart, total)
    {
      var field := ReadDerElement(b, offset);
      if field.Err? {
        return Err;
      }
      offset := field.value.contentEnd;
    }
    var spki := ReadDerElement(b, offset);
    if spki.Err? || spki.value.tag != 0x30 {
      return Err;
    }
    r := spki;
  }

  /** The Ed25519 key inside the SubjectPublicKeyInfo. */
  function KeyOf(b: Bytes, spki: Element): Result<Bytes>
    requires spki.contentStart <= spki.contentEnd <= |b|
  {
    match ReadElement(b, spki.contentStart)
    case Err => Err
    case Ok(algorithm) =>
      if algorithm.tag != 0x30 then Err else
      match ReadElement(b, algorithm.contentStart)
      case Err => Err
      case Ok(oid) =>
        if oid.tag != 0x06 || b[oid.contentStart..oid.contentEnd] != [0x2b, 0x65, 0x70] then Err else
        match ReadElement(b, algorithm.contentEnd)
        case Err => Err
        case Ok(bits) =>
          if bits.tag != 0x03 || bits.contentEnd != spki.contentEnd
              || bits.contentEnd != bits.contentStart + 33 then Err
          else if b[bits.contentStart] != 0 then Err
          else Ok(b[bits.contentStart + 1..bits.contentEnd])
  }

  datatype KeyAndSignature = KeyAndSignature(publicKey: Bytes, signature: Bytes)

  /** What the client takes out of a certificate. */
  function ClientReads(b: Bytes): Result<KeyAndSignature> {
    match ReadOuter(b)
    case Err => Err
    case Ok(o) =>
      if o.signature.contentEnd != o.signature.contentStart + 65 || b[o.signature.contentStart] != 0 then Err else
      match FindSpki(b, o.tbs)
      case Err => Err
      case Ok(spki) =>
        match KeyOf(b, spki)
        case Err => Err
        case Ok(key) => Ok(KeyAndSignature(key, b[o.signature.contentStart + 1..o.signature.contentEnd]))
  }

  /** The SubjectPublicKeyInfo ends where the TBS part ends, or before. */
  predicate KeyInsideTbs(b: Bytes) {
    ReadOuter(b).Ok? && FindSpki(b, ReadOuter(b).value.tbs).Ok?
    && FindSpki(b, ReadOuter(b).value.tbs).value.contentEnd <= ReadOuter(b).value.tbs.contentEnd
  }

  // ---- patching moves no boundary

  /** Two byte strings of the same length that agree before a limit. */
  predicate AgreeUpTo(a: Bytes, b: Bytes, limit: nat) {
    |a| == |b| && limit <= |a| && a[..limit] == b[..limit]
  }

  /** An element whose header lies before the limit is read the same. */
  lemma ElementUnmoved(a: Bytes, b: Bytes, limit: nat, offset: nat)
    requires AgreeUpTo(a, b, limit)
    requires ReadElement(a, offset).Ok? && ReadElement(a, offset).value.contentStart <= limit
    ensures ReadElement(b, offset) == ReadElement(a, offset)
  {
    hide Fold;
    var start := ReadElement(a, offset).value.contentStart;
    assert a[offset] == a[..limit][offset] && b[offset] == b[..limit][offset];
    assert a[offset + 1] == a[..limit][offset + 1] && b[offset + 1] == b[..limit][offset + 1];
    SliceUnmoved(a, b, limit, offset + 2, start);
  }

  lemma {:induction false} SkipUnmoved(a: Bytes, b: Bytes, limit: nat, offset: nat, count: nat)
    requires AgreeUpTo(a, b, limit) && offset <= |a|
    requires Skip(a, offset, count).Ok? && Skip(a, offset, count).value <= limit
    ensures Skip(b, offset, count) == Skip(a, offset, count)
    decreases count
  {
    if count > 0 {
      var e := ReadElement(a, offset).value;
      ElementUnmoved(a, b, limit, offset);
      SkipUnmoved(a, b, limit, e.contentEnd, count - 1);
    }
  }

  lemma OuterUnmoved(a: Bytes, b: Bytes, limit: nat)
    requires AgreeUpTo(a, b, limit)
    requires ReadOuter(a).Ok? && ReadOuter(a).value.signature.contentStart <= limit
    ensures ReadOuter(b) == ReadOuter(a)
  {
    hide ReadElement;
    var o := ReadOuter(a).value;
    ElementUnmoved(a, b, limit, 0);
    ElementUnmoved(a, b, limit, o.root.contentStart);
    ElementUnmoved(a, b, limit, o.tbs.contentEnd);
    ElementUnmoved(a, b, limit, o.algorithm.contentEnd);
  }

  lemma SpkiUnmoved(a: Bytes, b: Bytes, limit: nat, tbs: Element)
    requires AgreeUpTo(a, b, limit) && tbs.contentStart <= |a|
    requires FindSpki(a, tbs).Ok? && FindSpki(a, tbs).value.contentStart <= limit
    ensures FindSpki(b, tbs) == FindSpki(a, tbs)
  {
    hide ReadElement, Skip;
    assert a[tbs.contentStart] == a[..limit][tbs.contentStart] && b[tbs.contentStart] == b[..limit][tbs.contentStart];
    var count := if a[tbs.contentStart] == 0xa0 then 6 else 5;
    var offset := Skip(a, tbs.contentStart, count).value;
    SkipUnmoved(a, b, limit, tbs.contentStart, count);
    ElementUnmoved(a, b, limit, offset);
  }

  lemma SliceUnmoved(a: Bytes, b: Bytes, limit: nat, i: nat, j: nat)
    requires AgreeUpTo(a, b, limit) && i <= j <= limit
    ensures a[i..j] == b[i..j]
    ensures i < j ==> a[i] == b[i]
  {
    assert a[i..j] == a[..limit][i..j];
    assert b[i..j] == b[..limit][i..j];
    assert i < j ==> a[i] == a[i..j][0] && b[i] == b[i..j][0];
  }

  lemma KeyUnmoved(a: Bytes, b: Bytes, limit: nat, spki: Element)
    requires AgreeUpTo(a, b, limit) && spki.contentStart <= spki.contentEnd <= limit
    requires KeyOf(a, spki).Ok?
    ensures KeyOf(b, spki) == KeyOf(a, spki)
  {
    hide ReadElement;
    var algorithm := ReadElement(a, spki.contentStart).value;
    var oid := ReadElement(a, algorithm.contentStart).value;
    var bits := ReadElement(a, algorithm.contentEnd).value;
    assert |a[oid.contentStart..oid.contentEnd]| == 3;
    ElementUnmoved(a, b, limit, spki.contentStart);
    ElementUnmoved(a, b, limit, algorithm.contentStart);
    ElementUnmoved(a, b, limit, algorithm.contentEnd);
    SliceUnmoved(a, b, limit, oid.contentStart, oid.contentEnd);
    SliceUnmoved(a, b, limit, bits.contentStart, bits.contentEnd);
    SliceUnmoved(a, b, limit, bits.contentStart + 1, bits.contentEnd);
  }

  /** Overwriting the signature bytes of a template both ends accept leaves every boundary where it
      was: the client reads the same public key, and as signature exactly what was written. */
  lemma PatchedCertificateReadsBack(template: Bytes, signature: Bytes)
    requires |signature| == 64 && SignatureOffset(template).Ok?
    requires ClientReads(template).Ok? && KeyInsideTbs(template)
    ensures ClientReads(Overwrite(template, SignatureOffset(template).value, signature))
            == Ok(KeyAndSignature(ClientReads(template).value.publicKey, signature))
  {
    hide ReadElement, FindSpki, KeyOf;
    var at := SignatureOffset(template).value;
    var b := Overwrite(template, at, signature);
    assert AgreeUpTo(template, b, at);
    var o := ReadOuter(template).value;
    OuterUnmoved(template, b, at);
    SpkiUnmoved(template, b, at, o.tbs);
    KeyUnmoved(template, b, at, FindSpki(template, o.tbs).value);
    SliceUnmoved(template, b, at, at - 1, at);
    assert b[at..at + 64] == signature;
  }

  // ---- the handshake check

  /** The client's check of a certificate against its own authentication key. */
  function Verify(hmac: (Bytes, Bytes) -> Bytes, certificate: Bytes, authKey: Bytes): Result<Bytes> {
    match ClientReads(certificate)
    case Err => Err
    case Ok(ks) => if ks.signature == hmac(authKey, ks.publicKey) then Ok(ks.publicKey) else Err
  }

  /** The server's certificate for an authentication key. */
  function CertificateFor(hmac: (Bytes, Bytes) -> Bytes, template: Bytes, publicKey: Bytes,
      authKey: Bytes): Result<Bytes> {
    match SignatureOffset(template)
    case Err => Err
    case Ok(at) =>
      var signature := hmac(authKey, publicKey);
      if at + |signature| <= |template| then Ok(Overwrite(template, at, signature)) else Err
  }

  /** A client accepts the server's certificate, and learns the server's public key from it, exactly
      when the two ends' authentication keys hash that key to the same value. */
  lemma CertificateAgreement(hmac: (Bytes, Bytes) -> Bytes, template: Bytes, serverKey: Bytes, clientKey: Bytes)
    requires forall k, m :: |hmac(k, m)| == 64
    requires SignatureOffset(template).Ok? && ClientReads(template).Ok? && KeyInsideTbs(template)
    ensures var publicKey := ClientReads(template).value.publicKey;
            var certificate := CertificateFor(hmac, template, publicKey, serverKey);
            && certificate.Ok?
            && Verify(hmac, certificate.value, clientKey)
               == if hmac(serverKey, publicKey) == hmac(clientKey, publicKey) then Ok(publicKey) else Err
  {
    hide ClientReads;
    PatchedCertificateReadsBack(template, hmac(serverKey, ClientReads(template).value.publicKey));
  }

  // ---- certificates as they are built

  /** An element as it is written: tag, length bytes and content. */
  datatype Der = Der(tag: Byte, length: Bytes, content: Bytes)

  /** The length is one byte below 128, or tells in that byte how many bytes follow with it. */
  predicate ValidDer(d: Der) {
    if |d.length| == 1 then d.length[0] == |d.content| < 128
    else 2 <= |d.length| <= 5 && d.length[0] == 127 + |d.length| && Fold(0, d.length[1..]) == |d.content|
  }

  function DerBytes(d: Der): Bytes {
    [d.tag] + d.length + d.content
  }

  function AllBytes(ds: seq<Der>): Bytes {
    if ds == [] then [] else DerBytes(ds[0]) + AllBytes(ds[1..])
  }

  function Header(d: Der): nat {
    1 + |d.length|
  }

  /** The element starts at the offset. */
  predicate StartsAt(b: Bytes, offset: nat, d: Der) {
    offset + |DerBytes(d)| <= |b| && b[offset..offset + |DerBytes(d)|] == DerBytes(d)
  }

  /** Part of a slice that is known. */
  lemma PartOf(b: Bytes, offset: nat, s: Bytes, i: nat, j: nat)
    requires i <= j <= |s| && offset + |s| <= |b| && b[offset..offset + |s|] == s
    ensures b[offset + i..offset + j] == s[i..j]
    ensures i < j ==> b[offset + i] == s[i]
  {
    assert forall k {:trigger s[k]} :: 0 <= k < |s| ==> s[k] == b[offset + k];
  }

  lemma ElementRead(b: Bytes, offset: nat, d: Der)
    requires ValidDer(d) && StartsAt(b, offset, d)
    ensures ReadElement(b, offset) == Ok(Element(d.tag, offset + Header(d), offset + |DerBytes(d)|))
    ensures b[offset + Header(d)..offset + |DerBytes(d)|] == d.content
  {
    hide ReadElement;
    LengthThere(b, offset, d);
    var n := |d.length|;
    hide DerBytes, StartsAt;
    if n == 1 { ShortRead(b, offset, |d.content|); } else { LongRead(b, offset, n - 1, |d.content|); }
  }

  lemma LengthThere(b: Bytes, offset: nat, d: Der)
    requires ValidDer(d) && StartsAt(b, offset, d)
    ensures offset + Header(d) + |d.content| == offset + |DerBytes(d)| <= |b|
    ensures b[offset] == d.tag && b[offset + 1] == d.length[0]
    ensures b[offset + 2..offset + Header(d)] == d.length[1..]
    ensures b[offset + Header(d)..offset + |DerBytes(d)|] == d.content
  {
    hide ValidDer;
    var e, n := DerBytes(d), Header(d);
    assert |d.length| >= 1 by { LengthNotEmpty(d); }
    PartOf(b, offset, e, 0, 1);
    PartOf(b, offset, e, 1, 2);
    PartOf(b, offset, e, 2, n);
    PartOf(b, offset, e, n, |e|);
    assert e[0] == d.tag && e[1] == d.length[0] && e[2..n] == d.length[1..] && e[n..] == d.content;
  }

  lemma LengthNotEmpty(d: Der)
    requires ValidDer(d)
    ensures d.length != []
  {
  }

  lemma ShortRead(b: Bytes, offset: nat, n: nat)
    requires offset + 2 + n <= |b| && b[offset + 1] == n < 128
    ensures ReadElement(b, offset) == Ok(Element(b[offset], offset + 2, offset + 2 + n))
  {
  }

  lemma LongRead(b: Bytes, offset: nat, k: nat, n: nat)
    requires 1 <= k <= 4 && offset + 2 + k + n <= |b| && b[offset + 1] == 128 + k
    requires Fold(0, b[offset + 2..offset + 2 + k]) == n
    ensures ReadElement(b, offset) == Ok(Element(b[offset], offset + 2 + k, offset + 2 + k + n))
  {
  }

  /** Elements in a row are skipped one by one. */
  lemma {:induction false} RowSkipped(b: Bytes, offset: nat, ds: seq<Der>)
    requires forall i :: 0 <= i < |ds| ==> ValidDer(ds[i])
    requires offset + |AllBytes(ds)| <= |b| && b[offset..offset + |AllBytes(ds)|] == AllBytes(ds)
    ensures Skip(b, offset, |ds|) == Ok(offset + |AllBytes(ds)|)
    decreases |ds|
  {
    hide ReadElement, DerBytes, ValidDer;
    if ds != [] {
      var n, all := |DerBytes(ds[0])|, AllBytes(ds);
      assert b[offset..offset + n] == all[..n] == DerBytes(ds[0]);
      assert b[offset + n..offset + |all|] == all[n..] == AllBytes(ds[1..]);
      BoundsRead(b, offset, ds[0]);
      RowSkipped(b, offset + n, ds[1..]);
    }
  }

  lemma BoundsRead(b: Bytes, offset: nat, d: Der)
    requires ValidDer(d) && StartsAt(b, offset, d)
    ensures ReadElement(b, offset) == Ok(Element(d.tag, offset + Header(d), offset + |DerBytes(d)|))
  {
    ElementRead(b, offset, d);
  }

  /** A certificate with an Ed25519 key, from its parts: the fields before the key (version if it is given,
      serial number, algorithm, issuer, validity, subject), the key, whatever follows it, the
      signature algorithm and the signature. */
  datatype Parts = Parts(
    root: Der, tbs: Der, fields: seq<Der>, spki: Der, algorithm: Der, oid: Der, bits: Der, extensions: Bytes,
    parameters: Bytes, signatureAlgorithm: Der, signature: Der, key: Bytes, value: Bytes)

  ghost predicate IsCertificate(b: Bytes, c: Parts) {
    && ValidDer(c.root) && ValidDer(c.tbs) && ValidDer(c.spki) && ValidDer(c.algorithm) && ValidDer(c.oid)
    && ValidDer(c.bits) && ValidDer(c.signatureAlgorithm) && ValidDer(c.signature)
    && (forall i :: 0 <= i < |c.fields| ==> ValidDer(c.fields[i]))
    && |c.fields| >= 5 && |c.fields| == (if c.fields[0].tag == 0xa0 then 6 else 5)
    && c.root.tag == 0x30 && c.tbs.tag == 0x30 && c.spki.tag == 0x30 && c.algorithm.tag == 0x30
    && c.oid.tag == 0x06 && c.bits.tag == 0x03 && c.signatureAlgorithm.tag == 0x30 && c.signature.tag == 0x03
    && b == DerBytes(c.root)
    && c.root.content == DerBytes(c.tbs) + (DerBytes(c.signatureAlgorithm) + DerBytes(c.signature))
    && c.tbs.content == AllBytes(c.fields) + (DerBytes(c.spki) + c.extensions)
    && c.spki.content == DerBytes(c.algorithm) + DerBytes(c.bits)
    && c.algorithm.content == DerBytes(c.oid) + c.parameters && c.oid.content == [0x2b, 0x65, 0x70]
    && c.bits.content == [0] + c.key && |c.key| == 32
    && c.signature.content == [0] + c.value && |c.value| == 64
  }

  /** Where the parts of a certificate start. */
  ghost predicate Placed(b: Bytes, c: Parts, tbs: nat, spki: nat, signature: nat) {
    && StartsAt(b, tbs, c.tbs) && StartsAt(b, tbs + |DerBytes(c.tbs)|, c.signatureAlgorithm)
    && signature == tbs + |DerBytes(c.tbs)| + |DerBytes(c.signatureAlgorithm)| && StartsAt(b, signature, c.signature)
    && signature + |DerBytes(c.signature)| == |b|
    && spki == tbs + Header(c.tbs) + |AllBytes(c.fields)| && StartsAt(b, spki, c.spki)
    && b[tbs + Header(c.tbs)..spki] == AllBytes(c.fields)
  }

  lemma PartsPlaced(b: Bytes, c: Parts)
    requires IsCertificate(b, c)
    ensures Placed(b, c, Header(c.root), Header(c.root) + Header(c.tbs) + |AllBytes(c.fields)|,
                   Header(c.root) + |DerBytes(c.tbs)| + |DerBytes(c.signatureAlgorithm)|)
  {
    var tbs, x, y, z := Header(c.root), DerBytes(c.tbs), DerBytes(c.signatureAlgorithm), DerBytes(c.signature);
    ContentOf(c.root);
    ContentOf(c.tbs);
    hide ValidDer, AllBytes, DerBytes;
    InsideContent(b, tbs, |b|, x, y, z);
    InsideLast(b, tbs, x, y, z);
    PartOf(b, tbs, x, Header(c.tbs), |x|);
    InsideContent(b, tbs + Header(c.tbs), tbs + |x|, AllBytes(c.fields), DerBytes(c.spki), c.extensions);
  }

  lemma ContentOf(d: Der)
    ensures Header(d) <= |DerBytes(d)| && DerBytes(d)[Header(d)..] == d.content
    ensures |DerBytes(d)| == Header(d) + |d.content|
  {
  }

  lemma InsideLast(b: Bytes, from: nat, x: Bytes, y: Bytes, z: Bytes)
    requires from <= |b| && b[from..] == x + (y + z)
    ensures from + |x| + |y| + |z| == |b| && b[from + |x| + |y|..] == z
  {
    PartOf(b, from, x + (y + z), |x| + |y|, |x| + |y| + |z|);
    assert (x + (y + z))[|x| + |y|..] == z;
  }

  lemma InsideContent(b: Bytes, from: nat, to: nat, x: Bytes, y: Bytes, z: Bytes)
    requires from <= to <= |b| && b[from..to] == x + (y + z)
    ensures b[from..from + |x|] == x && from + |x| + |y| <= |b| && b[from + |x|..from + |x| + |y|] == y
  {
    var s := x + (y + z);
    PartOf(b, from, s, 0, |x|);
    PartOf(b, from, s, |x|, |x| + |y|);
    assert s[0..|x|] == x && s[|x|..|x| + |y|] == y;
  }

  lemma OuterRead(b: Bytes, c: Parts, tbs: nat, spki: nat, signature: nat)
    requires IsCertificate(b, c) && Placed(b, c, tbs, spki, signature) && tbs == Header(c.root)
    ensures ReadOuter(b).Ok?
    ensures var o := ReadOuter(b).value;
            && o.tbs == Element(0x30, tbs + Header(c.tbs), tbs + |DerBytes(c.tbs)|)
            && o.signature == Element(0x03, signature + Header(c.signature), |b|)
            && o.signature.contentEnd == o.signature.contentStart + 65 && b[o.signature.contentStart] == 0
            && b[o.signature.contentStart + 1..o.signature.contentEnd] == c.value
  {
    hide ReadElement, ValidDer, AllBytes, ReadOuter;
    assert StartsAt(b, 0, c.root) by { assert b[0..|b|] == b; }
    hide DerBytes, StartsAt;
    var algorithm := tbs + |DerBytes(c.tbs)|;
    BoundsRead(b, 0, c.root);
    BoundsRead(b, tbs, c.tbs);
    BoundsRead(b, algorithm, c.signatureAlgorithm);
    BoundsRead(b, signature, c.signature);
    BitsThere(b, signature, c.signature, c.value);
    OuterOfParts(b, Element(0x30, tbs, |b|), Element(0x30, tbs + Header(c.tbs), algorithm),
                 Element(0x30, algorithm + Header(c.signatureAlgorithm), signature),
                 Element(0x03, signature + Header(c.signature), |b|));
  }

  /** The bits of a bit string follow a zero byte. */
  lemma BitsThere(b: Bytes, at: nat, d: Der, value: Bytes)
    requires ValidDer(d) && StartsAt(b, at, d) && d.content == [0] + value
    ensures at + |DerBytes(d)| == at + Header(d) + 1 + |value| <= |b|
    ensures b[at + Header(d)] == 0 && b[at + Header(d) + 1..at + Header(d) + 1 + |value|] == value
  {
    hide ValidDer;
    LengthThere(b, at, d);
    PartOf(b, at + Header(d), [0] + value, 0, 1);
    PartOf(b, at + Header(d), [0] + value, 1, 1 + |value|);
    assert ([0] + value)[1..] == value;
  }

  lemma OuterOfParts(b: Bytes, root: Element, tbs: Element, algorithm: Element, signature: Element)
    requires ReadElement(b, 0) == Ok(root) && ReadElement(b, root.contentStart) == Ok(tbs)
    requires ReadElement(b, tbs.contentEnd) == Ok(algorithm) && ReadElement(b, algorithm.contentEnd) == Ok(signature)
    requires root.tag == 0x30 && root.contentEnd == |b| && tbs.tag == 0x30 && algorithm.tag == 0x30
    requires signature.tag == 0x03 && signature.contentEnd == |b|
    ensures ReadOuter(b) == Ok(Outer(root, tbs, algorithm, signature))
  {
    hide ReadElement;
  }

  lemma SpkiRead(b: Bytes, from: nat, to: nat, fields: seq<Der>, spki: Der, at: nat)
    requires (forall i :: 0 <= i < |fields| ==> ValidDer(fields[i])) && ValidDer(spki) && spki.tag == 0x30
    requires |fields| >= 5 && |fields| == (if fields[0].tag == 0xa0 then 6 else 5)
    requires at == from + |AllBytes(fields)| && at <= |b| && b[from..at] == AllBytes(fields) && StartsAt(b, at, spki)
    ensures FindSpki(b, Element(0x30, from, to)) == Ok(Element(0x30, at + Header(spki), at + |DerBytes(spki)|))
  {
    hide ReadElement, ValidDer, Skip;
    RowSkipped(b, from, fields);
    FirstTag(fields);
    PartOf(b, from, AllBytes(fields), 0, 1);
    hide AllBytes;
    ElementRead(b, at, spki);
  }

  lemma FirstTag(fields: seq<Der>)
    requires fields != []
    ensures AllBytes(fields) != [] && AllBytes(fields)[0] == fields[0].tag
  {
  }

  lemma KeyPlaces(b: Bytes, c: Parts, spki: nat)
    requires ValidDer(c.spki) && ValidDer(c.algorithm) && StartsAt(b, spki, c.spki)
    requires c.spki.content == DerBytes(c.algorithm) + DerBytes(c.bits)
    requires c.algorithm.content == DerBytes(c.oid) + c.parameters
    ensures var from := spki + Header(c.spki);
            var bits := from + |DerBytes(c.algorithm)|;
            && StartsAt(b, from, c.algorithm) && StartsAt(b, from + Header(c.algorithm), c.oid)
            && StartsAt(b, bits, c.bits) && bits + |DerBytes(c.bits)| == spki + |DerBytes(c.spki)|
  {
    hide ReadElement, ValidDer;
    var from, to := spki + Header(c.spki), spki + |DerBytes(c.spki)|;
    var x, y := DerBytes(c.algorithm), DerBytes(c.bits);
    ElementRead(b, spki, c.spki);
    InsideTwo(b, from, to, c.algorithm, y);
    PartOf(b, from, x + y, |x|, |x| + |y|);
    assert (x + y)[|x|..] == y;
    ElementRead(b, from, c.algorithm);
    InsideTwo(b, from + Header(c.algorithm), from + |x|, c.oid, c.parameters);
  }

  lemma KeyRead(b: Bytes, c: Parts, spki: nat)
    requires ValidDer(c.spki) && ValidDer(c.algorithm) && ValidDer(c.oid) && ValidDer(c.bits)
    requires c.algorithm.tag == 0x30 && c.oid.tag == 0x06 && c.bits.tag == 0x03
    requires c.spki.content == DerBytes(c.algorithm) + DerBytes(c.bits)
    requires c.algorithm.content == DerBytes(c.oid) + c.parameters && c.oid.content == [0x2b, 0x65, 0x70]
    requires c.bits.content == [0] + c.key && |c.key| == 32 && StartsAt(b, spki, c.spki)
    ensures KeyOf(b, Element(0x30, spki + Header(c.spki), spki + |DerBytes(c.spki)|)) == Ok(c.key)
  {
    hide ReadElement, ValidDer, DerBytes, StartsAt, KeyOf;
    var from := spki + Header(c.spki);
    var bits := from + |DerBytes(c.algorithm)|;
    KeyPlaces(b, c, spki);
    BitsRead(b, bits, c.bits, c.key);
    OidRead(b, from + Header(c.algorithm), c.oid);
    BoundsRead(b, from, c.algorithm);
    KeyOfParts(b, Element(0x30, from, spki + |DerBytes(c.spki)|),
               Element(0x30, from + Header(c.algorithm), bits), ReadElement(b, from + Header(c.algorithm)).value,
               ReadElement(b, bits).value);
  }

  lemma OidRead(b: Bytes, at: nat, d: Der)
    requires ValidDer(d) && StartsAt(b, at, d)
    ensures ReadElement(b, at).Ok?
    ensures var e := ReadElement(b, at).value; e.tag == d.tag && b[e.contentStart..e.contentEnd] == d.content
  {
    ElementRead(b, at, d);
  }

  lemma BitsRead(b: Bytes, at: nat, d: Der, key: Bytes)
    requires ValidDer(d) && StartsAt(b, at, d) && d.content == [0] + key && |key| == 32
    ensures ReadElement(b, at).Ok?
    ensures var e := ReadElement(b, at).value;
            && e.tag == d.tag && e.contentEnd == at + |DerBytes(d)| && e.contentEnd == e.contentStart + 33
            && b[e.contentStart] == 0 && b[e.contentStart + 1..e.contentEnd] == key
  {
    hide ReadElement, ValidDer;
    ElementRead(b, at, d);
    BitsThere(b, at, d, key);
  }

  lemma KeyOfParts(b: Bytes, spki: Element, algorithm: Element, oid: Element, bits: Element)
    requires spki.contentStart <= spki.contentEnd <= |b| && ReadElement(b, spki.contentStart) == Ok(algorithm)
    requires ReadElement(b, algorithm.contentStart) == Ok(oid) && ReadElement(b, algorithm.contentEnd) == Ok(bits)
    requires algorithm.tag == 0x30 && oid.tag == 0x06 && b[oid.contentStart..oid.contentEnd] == [0x2b, 0x65, 0x70]
    requires bits.tag == 0x03 && bits.contentEnd == spki.contentEnd && bits.contentEnd == bits.contentStart + 33
    requires b[bits.contentStart] == 0
    ensures KeyOf(b, spki) == Ok(b[bits.contentStart + 1..bits.contentEnd])
  {
    hide ReadElement;
  }

  lemma InsideTwo(b: Bytes, from: nat, to: nat, d: Der, rest: Bytes)
    requires from <= to <= |b| && b[from..to] == DerBytes(d) + rest
    ensures StartsAt(b, from, d)
  {
    PartOf(b, from, DerBytes(d) + rest, 0, |DerBytes(d)|);
    assert (DerBytes(d) + rest)[0..|DerBytes(d)|] == DerBytes(d);
  }

  /** From every certificate of this shape, with lengths in any form, the client reads the key and the
      signature, and the server finds the place of the signature. */
  lemma CertificateRead(b: Bytes, c: Parts)
    requires IsCertificate(b, c)
    ensures ClientReads(b) == Ok(KeyAndSignature(c.key, c.value))
    ensures SignatureOffset(b).Ok? && b[SignatureOffset(b).value..SignatureOffset(b).value + 64] == c.value
    ensures KeyInsideTbs(b)
  {
    hide ReadOuter, FindSpki, KeyOf, Placed, ValidDer, AllBytes;
    var tbs := Header(c.root);
    var spki, signature := tbs + Header(c.tbs) + |AllBytes(c.fields)|,
                           tbs + |DerBytes(c.tbs)| + |DerBytes(c.signatureAlgorithm)|;
    PartsPlaced(b, c);
    OuterRead(b, c, tbs, spki, signature);
    SpkiPlaced(b, c, tbs, spki, signature);
    SpkiRead(b, tbs + Header(c.tbs), tbs + |DerBytes(c.tbs)|, c.fields, c.spki, spki);
    KeyRead(b, c, spki);
  }

  lemma SpkiPlaced(b: Bytes, c: Parts, tbs: nat, spki: nat, signature: nat)
    requires Placed(b, c, tbs, spki, signature)
    ensures StartsAt(b, spki, c.spki) && spki == tbs + Header(c.tbs) + |AllBytes(c.fields)| && spki <= |b|
    ensures b[tbs + Header(c.tbs)..spki] == AllBytes(c.fields)
  {
  }
}
