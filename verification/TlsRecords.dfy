/**
  The TLS 1.3 record layer of the REALITY client (RFC 8446, sections 4.6.3, 5.2, 5.3 and 7.2).
  Key derivation and the cipher are functions given from outside.
*/
module TlsRecords {
  import opened Common
  import opened BigEndian

  const TLS_MAX_PLAINTEXT_LEN: nat := 16 * 1024
  const TAG_LEN: nat := 16
  const ALERT: Byte := 21
  const HANDSHAKE: Byte := 22
  const APPLICATION_DATA: Byte := 23
  const NEW_SESSION_TICKET: Byte := 4
  const KEY_UPDATE: Byte := 24
  const CLOSE_NOTIFY: Byte := 0
  const SEQUENCE_LIMIT: nat := 0x1_0000_0000_0000_0000

  datatype Sealed = Sealed(ciphertext: Bytes, tag: Bytes)

  /** A cipher suite: the key, the iv and the next secret of a traffic secret, and the cipher. */
  datatype Suite = Suite(
    key: Bytes -> Bytes,
    iv: Bytes -> Bytes,
    next: Bytes -> Bytes,
    seal: (Bytes, Bytes, Bytes, Bytes) -> Sealed,
    open: (Bytes, Bytes, Bytes, Sealed) -> Option<Bytes>)

  ghost predicate Lawful(suite: Suite) {
    && (forall s :: |suite.iv(s)| == 12)
    && (forall k, n, a, p :: |suite.seal(k, n, a, p).ciphertext| == |p| && |suite.seal(k, n, a, p).tag| == TAG_LEN)
    && (forall k, n, a, p :: suite.open(k, n, a, suite.seal(k, n, a, p)) == Some(p))
  }

  /** What identifies the state of one direction. */
  datatype Cipher = Cipher(secret: Bytes, sequence: nat)

  // ---- nonces

  function PowerOfTwo(k: nat): nat {
    if k == 0 then 1 else 2 * PowerOfTwo(k - 1)
  }

  /** Exclusive or of the lowest k bits. */
  function XorBits(a: nat, b: nat, k: nat): (x: nat)
    ensures x < PowerOfTwo(k)
  {
    if k == 0 then 0 else (a % 2 + b % 2) % 2 + 2 * XorBits(a / 2, b / 2, k - 1)
  }

  lemma {:induction false} XorBitsInjective(a: nat, b: nat, c: nat, k: nat)
    requires b < PowerOfTwo(k) && c < PowerOfTwo(k) && XorBits(a, b, k) == XorBits(a, c, k)
    ensures b == c
  {
    if k > 0 {
      LowBit(a % 2, b % 2, c % 2, XorBits(a / 2, b / 2, k - 1), XorBits(a / 2, c / 2, k - 1));
      XorBitsInjective(a / 2, b / 2, c / 2, k - 1);
    }
  }

  lemma LowBit(a: nat, b: nat, c: nat, x: nat, y: nat)
    requires a < 2 && b < 2 && c < 2 && (a + b) % 2 + 2 * x == (a + c) % 2 + 2 * y
    ensures b == c && x == y
  {
  }

  lemma EightBits()
    ensures PowerOfTwo(8) == 256
  {
  }

  function Xor(a: Byte, b: Byte): Byte {
    EightBits();
    XorBits(a, b, 8)
  }

  lemma XorInjective(a: Byte, b: Byte, c: Byte)
    requires Xor(a, b) == Xor(a, c)
    ensures b == c
  {
    EightBits();
    XorBitsInjective(a, b, c, 8);
  }

  function Nonce(iv: Bytes, sequence: nat): Bytes
    requires |iv| == 12 && sequence < SEQUENCE_LIMIT
  {
    seq(12, i requires 0 <= i < 12 => if i < 4 then iv[i] else Xor(iv[i], U64(sequence)[i - 4]))
  }

  method BuildNonce(iv: Bytes, sequence: nat) returns (nonce: Bytes)
    requires |iv| == 12 && sequence < SEQUENCE_LIMIT
    ensures nonce == Nonce(iv, sequence)
  {
    nonce := iv;
    var bytes := U64(sequence);
    for i := 0 to 8
      invariant |nonce| == 12
      invariant forall j :: 0 <= j < 12 ==> nonce[j] == if 4 <= j < 4 + i then Xor(iv[j], bytes[j - 4]) else iv[j]
    {
      nonce := nonce[4 + i := Xor(nonce[4 + i], bytes[i])];
    }
  }

  /** The k-th bit of a number. */
  function Bit(n: nat, k: nat): nat
    decreases k
  {
    if k == 0 then n % 2 else Bit(n / 2, k - 1)
  }

  /** A bit is set exactly if it is set in one of the two. */
  lemma {:induction false} XorIsBitwise(a: nat, b: nat, n: nat, k: nat)
    requires k < n
    ensures Bit(XorBits(a, b, n), k) == if Bit(a, k) != Bit(b, k) then 1 else 0
    decreases n
  {
    BitsAboveFirst(a, b, n);
    if k > 0 { XorIsBitwise(a / 2, b / 2, n - 1, k - 1); }
  }

  lemma BitsAboveFirst(a: nat, b: nat, n: nat)
    requires n > 0
    ensures XorBits(a, b, n) % 2 == (a % 2 + b % 2) % 2 && XorBits(a, b, n) / 2 == XorBits(a / 2, b / 2, n - 1)
  {
    var low, high := (a % 2 + b % 2) % 2, XorBits(a / 2, b / 2, n - 1);
    assert XorBits(a, b, n) == low + 2 * high;
    hide XorBits;
    LowAndHigh(low, high);
  }

  lemma LowAndHigh(low: nat, high: nat)
    requires low < 2
    ensures (low + 2 * high) % 2 == low && (low + 2 * high) / 2 == high
  {
  }

  lemma {:induction false} XorUndone(a: nat, b: nat, k: nat)
    requires b < PowerOfTwo(k)
    ensures XorBits(XorBits(a, b, k), a, k) == b
  {
    if k > 0 {
      var x := XorBits(a, b, k);
      BitsAboveFirst(a, b, k);
      BitsAboveFirst(x, a, k);
      XorUndone(a / 2, b / 2, k - 1);
      hide XorBits;
      LowBack(a % 2, b % 2, x % 2);
    }
  }

  lemma LowBack(a: nat, b: nat, x: nat)
    requires a < 2 && b < 2 && x == (a + b) % 2
    ensures (x + a) % 2 == b
  {
  }

  /** The exclusive or of two byte strings of the same length. */
  function XorAll(a: Bytes, b: Bytes): (x: Bytes)
    requires |a| == |b|
    ensures |x| == |a| && forall i :: 0 <= i < |a| ==> x[i] == Xor(a[i], b[i])
  {
    seq(|a|, i requires 0 <= i < |a| => Xor(a[i], b[i]))
  }

  /** The nonce of section 5.3 of RFC 8446: the first four bytes are those of the iv, and the last eight
      differ from it by the record number in network byte order. */
  lemma NonceByNumber(iv: Bytes, sequence: nat)
    requires |iv| == 12 && sequence < SEQUENCE_LIMIT
    ensures Nonce(iv, sequence)[..4] == iv[..4]
    ensures Fold(0, XorAll(Nonce(iv, sequence)[4..], iv[4..])) == sequence
  {
    hide Xor, U64;
    var x := XorAll(Nonce(iv, sequence)[4..], iv[4..]);
    forall i | 0 <= i < 8 ensures x[i] == U64(sequence)[i] {
      XorBack(iv[4 + i], U64(sequence)[i]);
    }
    assert x == U64(sequence);
    FoldU64(sequence);
  }

  lemma XorBack(a: Byte, b: Byte)
    ensures Xor(Xor(a, b), a) == b
  {
    EightBits();
    XorUndone(a, b, 8);
  }

  /** Under one iv, different record numbers have different nonces. */
  lemma NonceInjective(iv: Bytes, m: nat, n: nat)
    requires |iv| == 12 && m < SEQUENCE_LIMIT && n < SEQUENCE_LIMIT
    requires Nonce(iv, m) == Nonce(iv, n)
    ensures m == n
  {
    forall i | 0 <= i < 8 ensures U64(m)[i] == U64(n)[i] {
      assert Nonce(iv, m)[4 + i] == Nonce(iv, n)[4 + i];
      XorInjective(iv[4 + i], U64(m)[i], U64(n)[i]);
    }
    assert U64(m) == U64(n);
    U64Injective(m, n);
  }

  // ---- records

  function Header(payloadLen: nat): Bytes
    requires payloadLen < 0x1_0000
  {
    [23, 3, 3] + U16(payloadLen)
  }

  function Advance(c: Cipher): Cipher {
    c.(sequence := c.sequence + 1)
  }

  function UpdateKey(suite: Suite, c: Cipher): Cipher {
    Cipher(suite.next(c.secret), 0)
  }

  predicate CanSeal(suite: Suite, c: Cipher, plaintext: Bytes) {
    |plaintext| <= TLS_MAX_PLAINTEXT_LEN && c.sequence < SEQUENCE_LIMIT - 1 && |suite.iv(c.secret)| == 12
  }

  /** The payload of the encrypted record, without its header. */
  function Seal(suite: Suite, c: Cipher, contentType: Byte, plaintext: Bytes): Bytes
    requires CanSeal(suite, c, plaintext)
  {
    var inner := plaintext + [contentType];
    var s := suite.seal(suite.key(c.secret), Nonce(suite.iv(c.secret), c.sequence), Header(|inner| + TAG_LEN), inner);
    s.ciphertext + s.tag
  }

  datatype Opened = Opened(contentType: Byte, plaintext: Bytes)

  /** Cuts the zero padding and splits off the last byte before it. */
  function Strip(inner: Bytes): Option<Opened> {
    if inner == [] then None
    else if inner[|inner| - 1] != 0 then Some(Opened(inner[|inner| - 1], inner[..|inner| - 1]))
    else Strip(inner[..|inner| - 1])
  }

  /** None if the record cannot be opened at all; the inner result is None if it has no type. */
  function Open(suite: Suite, c: Cipher, payload: Bytes): Option<Option<Opened>>
    requires c.sequence < SEQUENCE_LIMIT - 1 && |suite.iv(c.secret)| == 12
  {
    if |payload| < TAG_LEN || |payload| >= 0x1_0000 then None else
    var n := |payload| - TAG_LEN;
    match suite.open(suite.key(c.secret), Nonce(suite.iv(c.secret), c.sequence), Header(|payload|),
        Sealed(payload[..n], payload[n..]))
    case None => None
    case Some(inner) => Some(Strip(inner))
  }

  /** The receiver recovers the content type and the plaintext, even one that ends in zeros. */
  lemma OpenUndoesSeal(suite: Suite, c: Cipher, contentType: Byte, plaintext: Bytes)
    requires Lawful(suite) && CanSeal(suite, c, plaintext) && contentType != 0
    ensures Open(suite, c, Seal(suite, c, contentType, plaintext)) == Some(Some(Opened(contentType, plaintext)))
  {
  }

  /** What a peer that follows section 5.2 of RFC 8446 may send: any number of zeros after the type. */
  lemma {:induction false} StripPadding(plaintext: Bytes, contentType: Byte, zeros: nat)
    requires contentType != 0
    ensures Strip(plaintext + [contentType] + Zeros(zeros)) == Some(Opened(contentType, plaintext))
  {
    var inner := plaintext + [contentType] + Zeros(zeros);
    if zeros > 0 {
      assert inner[|inner| - 1] == 0 && inner[..|inner| - 1] == plaintext + [contentType] + Zeros(zeros - 1);
      StripPadding(plaintext, contentType, zeros - 1);
    } else {
      assert inner[..|inner| - 1] == plaintext;
    }
  }

  lemma {:induction false} StripNothing(zeros: nat)
    ensures Strip(Zeros(zeros)).None?
  {
    if zeros > 0 {
      assert Zeros(zeros)[..zeros - 1] == Zeros(zeros - 1);
      StripNothing(zeros - 1);
    }
  }

  /** A record as a peer that follows section 5.2 seals it: the type, then zeros, all under the header of
      the record as additional data. */
  function PeerRecord(suite: Suite, c: Cipher, inner: Bytes): Bytes
    requires |inner| + TAG_LEN < 0x1_0000 && c.sequence < SEQUENCE_LIMIT && |suite.iv(c.secret)| == 12
  {
    var length := |inner| + TAG_LEN;
    var header: Bytes := [APPLICATION_DATA, 3, 3, length / 256, length % 256];
    var s := suite.seal(suite.key(c.secret), Nonce(suite.iv(c.secret), c.sequence), header, inner);
    header + (s.ciphertext + s.tag)
  }

  lemma HeaderBytes(length: nat)
    requires length < 0x1_0000
    ensures Header(length) == [APPLICATION_DATA, 3, 3, length / 256, length % 256]
  {
  }

  /** Every padded record of such a peer is read: content type and plaintext come out whatever the amount
      of padding, and a record of zeros alone has no type. */
  lemma PaddedRecordsOpen(suite: Suite, c: Cipher, plaintext: Bytes, contentType: Byte, zeros: nat)
    requires Lawful(suite) && c.sequence < SEQUENCE_LIMIT - 1 && |suite.iv(c.secret)| == 12
    requires |plaintext| + 1 + zeros + TAG_LEN < 0x1_0000 && contentType != 0
    ensures Open(suite, c, PeerRecord(suite, c, plaintext + [contentType] + Zeros(zeros))[5..])
            == Some(Some(Opened(contentType, plaintext)))
    ensures Open(suite, c, PeerRecord(suite, c, Zeros(zeros))[5..]) == Some(None)
  {
    hide Strip, Nonce, Zeros;
    StripPadding(plaintext, contentType, zeros);
    StripNothing(zeros);
    PeerOpens(suite, c, plaintext + [contentType] + Zeros(zeros));
    PeerOpens(suite, c, Zeros(zeros));
  }

  lemma PeerOpens(suite: Suite, c: Cipher, inner: Bytes)
    requires Lawful(suite) && c.sequence < SEQUENCE_LIMIT - 1 && |suite.iv(c.secret)| == 12
    requires |inner| + TAG_LEN < 0x1_0000
    ensures Open(suite, c, PeerRecord(suite, c, inner)[5..]) == Some(Strip(inner))
  {
    hide Nonce, Strip, Header, Lawful, Open;
    HeaderBytes(|inner| + TAG_LEN);
    var s := suite.seal(suite.key(c.secret), Nonce(suite.iv(c.secret), c.sequence), Header(|inner| + TAG_LEN), inner);
    AfterHeader(Header(|inner| + TAG_LEN), s.ciphertext + s.tag);
    SealedOpens(suite, c, inner);
  }

  lemma SealedOpens(suite: Suite, c: Cipher, inner: Bytes)
    requires Lawful(suite) && c.sequence < SEQUENCE_LIMIT - 1 && |suite.iv(c.secret)| == 12
    requires |inner| + TAG_LEN < 0x1_0000
    ensures var s := suite.seal(suite.key(c.secret), Nonce(suite.iv(c.secret), c.sequence), Header(|inner| + TAG_LEN),
                                inner);
            Open(suite, c, s.ciphertext + s.tag) == Some(Strip(inner))
  {
    hide Nonce, Strip, Header, Open, Lawful;
    var key, nonce, header := suite.key(c.secret), Nonce(suite.iv(c.secret), c.sequence), Header(|inner| + TAG_LEN);
    var s := suite.seal(key, nonce, header, inner);
    LawfulOpens(suite, key, nonce, header, inner);
    OpenSplits(suite, c, s.ciphertext, s.tag);
  }

  lemma LawfulOpens(suite: Suite, key: Bytes, nonce: Bytes, header: Bytes, inner: Bytes)
    requires Lawful(suite)
    ensures var s := suite.seal(key, nonce, header, inner);
            && |s.tag| == TAG_LEN && |s.ciphertext| == |inner| && suite.open(key, nonce, header, s) == Some(inner)
            && Sealed(s.ciphertext, s.tag) == s
  {
    var s := suite.seal(key, nonce, header, inner);
    assert Sealed(s.ciphertext, s.tag) == s;
  }

  lemma OpenSplits(suite: Suite, c: Cipher, ciphertext: Bytes, tag: Bytes)
    requires c.sequence < SEQUENCE_LIMIT - 1 && |suite.iv(c.secret)| == 12
    requires |tag| == TAG_LEN && |ciphertext| + TAG_LEN < 0x1_0000
    ensures var r := suite.open(suite.key(c.secret), Nonce(suite.iv(c.secret), c.sequence),
                                Header(|ciphertext| + TAG_LEN), Sealed(ciphertext, tag));
            Open(suite, c, ciphertext + tag) == if r.Some? then Some(Strip(r.value)) else None
  {
    hide Nonce, Strip, Header;
    Halves(ciphertext, tag);
  }

  lemma AfterHeader(header: Bytes, payload: Bytes)
    requires |header| == 5
    ensures (header + payload)[5..] == payload
  {
  }

  lemma Halves(a: Bytes, b: Bytes)
    ensures (a + b)[..|a|] == a && (a + b)[|a|..] == b
  {
  }

  // ---- post-handshake messages

  function Message(ty: Byte, body: Bytes): Bytes
    requires |body| < 0x100_0000
  {
    [ty] + U24(|body|) + body
  }

  /** The receiving side: cipher, and how many key updates it has been asked to answer. */
  datatype Receiver = Receiver(cipher: Cipher, requested: nat)

  function HandleMessages(suite: Suite, r: Receiver, messages: Bytes): Result<Receiver>
    decreases |messages|
  {
    if messages == [] then Ok(r)
    else if |messages| < 4 || |messages| < 4 + GetU24(messages, 1) then Err
    else
      var n := GetU24(messages, 1);
      if messages[0] == NEW_SESSION_TICKET then HandleMessages(suite, r, messages[4 + n..])
      else if messages[0] == KEY_UPDATE && n == 1 && messages[4] <= 1 then
        HandleMessages(suite, Receiver(UpdateKey(suite, r.cipher), r.requested + messages[4]), messages[4 + n..])
      else Err
  }

  /** Whether the reader goes on, has seen the peer close, or has given up. */
  datatype Status = Reading | Closed | Failed

  datatype Outcome = Outcome(receiver: Receiver, delivered: seq<Bytes>, status: Status)

  predicate IsCloseNotify(alert: Bytes) {
    |alert| == 2 && alert[1] == CLOSE_NOTIFY
  }

  /** One application_data record arrives. Every alert ends the reader. */
  function Receive(suite: Suite, r: Receiver, payload: Bytes): Outcome
    requires r.cipher.sequence < SEQUENCE_LIMIT - 1 && |suite.iv(r.cipher.secret)| == 12
  {
    match Open(suite, r.cipher, payload)
    case None => Outcome(r, [], Failed)
    case Some(None) => Outcome(r, [], Failed)
    case Some(Some(o)) =>
      var r1 := r.(cipher := Advance(r.cipher));
      if o.contentType == HANDSHAKE then
        match HandleMessages(suite, r1, o.plaintext)
        case Ok(r2) => Outcome(r2, [], Reading)
        case Err => Outcome(r1, [], Failed)
      else if o.contentType == APPLICATION_DATA then Outcome(r1, [o.plaintext], Reading)
      else if o.contentType == ALERT && IsCloseNotify(o.plaintext) then Outcome(r1, [], Closed)
      else Outcome(r1, [], Failed)
  }

  datatype Post = Ticket(body: Bytes) | Update(request: Byte)

  predicate ValidPost(m: Post) {
    match m
    case Ticket(body) => |body| < 0x100_0000
    case Update(request) => request <= 1
  }

  predicate ValidPosts(ms: seq<Post>) {
    forall i :: 0 <= i < |ms| ==> ValidPost(ms[i])
  }

  function PostBytes(ms: seq<Post>): Bytes
    requires ValidPosts(ms)
  {
    if ms == [] then [] else
    (match ms[0]
     case Ticket(body) => Message(NEW_SESSION_TICKET, body)
     case Update(request) => Message(KEY_UPDATE, [request])) + PostBytes(ms[1..])
  }

  function AfterPosts(suite: Suite, c: Cipher, ms: seq<Post>): Cipher
    decreases |ms|
  {
    if ms == [] then c else AfterPosts(suite, if ms[0].Update? then UpdateKey(suite, c) else c, ms[1..])
  }

  function RequestsIn(ms: seq<Post>): nat {
    if ms == [] then 0 else (if ms[0].Update? then ms[0].request else 0) + RequestsIn(ms[1..])
  }

  lemma MessageRead(ty: Byte, body: Bytes, rest: Bytes)
    requires |body| < 0x100_0000
    ensures var m := Message(ty, body) + rest;
            && |m| >= 4 + |body| && m[0] == ty && GetU24(m, 1) == |body|
            && m[4..4 + |body|] == body && m[4 + |body|..] == rest
  {
  }

  /** Tickets are passed over and each KeyUpdate moves the receiver to the next secret, in any mixture. */
  lemma {:induction false} PostsHandled(suite: Suite, r: Receiver, ms: seq<Post>)
    requires ValidPosts(ms)
    ensures HandleMessages(suite, r, PostBytes(ms))
            == Ok(Receiver(AfterPosts(suite, r.cipher, ms), r.requested + RequestsIn(ms)))
    decreases |ms|
  {
    hide Message, HandleMessages;
    if ms == [] {
      NothingHandled(suite, r);
    } else {
      var rest := PostBytes(ms[1..]);
      match ms[0]
      case Ticket(body) =>
        TicketPassed(suite, r, body, rest);
        PostsHandled(suite, r, ms[1..]);
      case Update(request) =>
        UpdateHandled(suite, r, request, rest);
        PostsHandled(suite, Receiver(UpdateKey(suite, r.cipher), r.requested + request), ms[1..]);
    }
  }

  lemma NothingHandled(suite: Suite, r: Receiver)
    ensures HandleMessages(suite, r, []) == Ok(r)
  {
  }

  lemma TicketPassed(suite: Suite, r: Receiver, body: Bytes, rest: Bytes)
    requires |body| < 0x100_0000
    ensures HandleMessages(suite, r, Message(NEW_SESSION_TICKET, body) + rest) == HandleMessages(suite, r, rest)
  {
    MessageRead(NEW_SESSION_TICKET, body, rest);
    hide Message, GetU24;
  }

  lemma UpdateHandled(suite: Suite, r: Receiver, request: Byte, rest: Bytes)
    requires request <= 1
    ensures HandleMessages(suite, r, Message(KEY_UPDATE, [request]) + rest)
            == HandleMessages(suite, Receiver(UpdateKey(suite, r.cipher), r.requested + request), rest)
  {
    MessageRead(KEY_UPDATE, [request], rest);
    hide Message, GetU24;
    assert (Message(KEY_UPDATE, [request]) + rest)[4..5][0] == request;
  }

  lemma MessageIs(b: Bytes)
    requires |b| >= 4 && |b| >= 4 + GetU24(b, 1)
    ensures var n := GetU24(b, 1); b == Message(b[0], b[4..4 + n]) + b[4 + n..]
  {
    var n := GetU24(b, 1);
    assert U24(n) == b[1..4];
    assert b == [b[0]] + b[1..4] + b[4..4 + n] + b[4 + n..];
  }

  /** Nothing else is accepted: what the receiver takes is tickets and well-formed KeyUpdates, whole. */
  lemma {:induction false} OnlyPostsAccepted(suite: Suite, r: Receiver, b: Bytes) returns (ms: seq<Post>)
    requires HandleMessages(suite, r, b).Ok?
    ensures ValidPosts(ms) && PostBytes(ms) == b
    decreases |b|
  {
    hide Message;
    if b == [] { return []; }
    var n := GetU24(b, 1);
    MessageIs(b);
    var first, r1 := Ticket(b[4..4 + n]), r;
    if b[0] != NEW_SESSION_TICKET {
      assert b[4..5] == [b[4]];
      first, r1 := Update(b[4]), Receiver(UpdateKey(suite, r.cipher), r.requested + b[4]);
    }
    var later := OnlyPostsAccepted(suite, r1, b[4 + n..]);
    ms := [first] + later;
    assert ms[1..] == later;
  }

  // ---- lockstep

  /** What a sender puts on the wire: data, one record of post-handshake messages, or an alert. */
  datatype Event = Data(plaintext: Bytes) | Posts(messages: seq<Post>) | Alert(body: Bytes)

  predicate WellFormed(e: Event) {
    match e
    case Data(p) => |p| <= TLS_MAX_PLAINTEXT_LEN
    case Alert(b) => |b| <= TLS_MAX_PLAINTEXT_LEN
    case Posts(ms) => ValidPosts(ms) && |PostBytes(ms)| <= TLS_MAX_PLAINTEXT_LEN
  }

  function ContentOf(e: Event): Opened
    requires WellFormed(e)
  {
    match e
    case Data(p) => Opened(APPLICATION_DATA, p)
    case Alert(b) => Opened(ALERT, b)
    case Posts(ms) => Opened(HANDSHAKE, PostBytes(ms))
  }

  /** The sender replaces its key right after the record that announces it. */
  function AfterSending(suite: Suite, c: Cipher, e: Event): Cipher {
    if e.Posts? then AfterPosts(suite, Advance(c), e.messages) else Advance(c)
  }

  ghost predicate CanSend(suite: Suite, c: Cipher, events: seq<Event>)
    decreases |events|
  {
    events == [] || (WellFormed(events[0]) && c.sequence < SEQUENCE_LIMIT - 1
                     && CanSend(suite, AfterSending(suite, c, events[0]), events[1..]))
  }

  function SendAll(suite: Suite, c: Cipher, events: seq<Event>): seq<Bytes>
    requires Lawful(suite) && CanSend(suite, c, events)
    decreases |events|
  {
    if events == [] then []
    else [Seal(suite, c, ContentOf(events[0]).contentType, ContentOf(events[0]).plaintext)]
         + SendAll(suite, AfterSending(suite, c, events[0]), events[1..])
  }

  function FinalCipher(suite: Suite, c: Cipher, events: seq<Event>): Cipher
    decreases |events|
  {
    if events == [] then c else FinalCipher(suite, AfterSending(suite, c, events[0]), events[1..])
  }

  function DataOf(events: seq<Event>): seq<Bytes> {
    if events == [] then []
    else (if events[0].Data? then [events[0].plaintext] else []) + DataOf(events[1..])
  }

  /** The events up to the first alert, which is the last that the reader takes in. */
  function Heard(events: seq<Event>): seq<Event> {
    if events == [] then []
    else [events[0]] + (if events[0].Alert? then [] else Heard(events[1..]))
  }

  function StatusAfter(events: seq<Event>): Status {
    if events == [] then Reading
    else if events[0].Alert? then (if IsCloseNotify(events[0].body) then Closed else Failed)
    else StatusAfter(events[1..])
  }

  function RequestsOf(events: seq<Event>): nat {
    if events == [] then 0
        else (if events[0].Posts? then RequestsIn(events[0].messages) else 0) + RequestsOf(events[1..])
  }

  /** The reader takes the records in order, as long as it goes on. */
  function ReceiveAll(suite: Suite, r: Receiver, records: seq<Bytes>): Outcome
    requires Lawful(suite)
    decreases |records|
  {
    if records == [] then Outcome(r, [], Reading)
    else if r.cipher.sequence >= SEQUENCE_LIMIT - 1 then Outcome(r, [], Failed)
    else
      var first := Receive(suite, r, records[0]);
      if first.status != Reading then first else
      var later := ReceiveAll(suite, first.receiver, records[1..]);
      later.(delivered := first.delivered + later.delivered)
  }

  /** One record keeps both ends on the same secret and sequence number; an alert ends the reader. */
  lemma OneRecord(suite: Suite, r: Receiver, e: Event)
    requires Lawful(suite) && WellFormed(e) && r.cipher.sequence < SEQUENCE_LIMIT - 1
    ensures var o := ContentOf(e);
            |o.plaintext| <= TLS_MAX_PLAINTEXT_LEN
            && Receive(suite, r, Seal(suite, r.cipher, o.contentType, o.plaintext))
               == Outcome(Receiver(AfterSending(suite, r.cipher, e), r.requested + RequestsOf([e])),
                          DataOf([e]), StatusAfter([e]))
  {
    hide Seal, Open, HandleMessages, PostBytes, AfterPosts, RequestsIn;
    var o := ContentOf(e);
    OpenUndoesSeal(suite, r.cipher, o.contentType, o.plaintext);
    assert [e][1..] == [];
    match e
    case Posts(ms) => PostsHandled(suite, r.(cipher := Advance(r.cipher)), ms);
    case _ =>
  }

  /** Lockstep: for every interleaving of data, tickets, key updates and alerts, the reader is on the
      sender's secret and sequence number as of the last record it takes in, has delivered exactly
      the data sent before any alert, in order, and counted exactly the updates it must answer.
      Nothing after an alert is delivered. */
  lemma {:induction false} Lockstep(suite: Suite, r: Receiver, events: seq<Event>)
    requires Lawful(suite) && CanSend(suite, r.cipher, events)
    ensures ReceiveAll(suite, r, SendAll(suite, r.cipher, events))
            == Outcome(Receiver(FinalCipher(suite, r.cipher, Heard(events)), r.requested + RequestsOf(Heard(events))),
                       DataOf(Heard(events)), StatusAfter(events))
    decreases |events|
  {
    hide Receive, Seal, Lawful, ContentOf, WellFormed, AfterSending, IsCloseNotify;
    if events != [] {
      var e := events[0];
      OneRecord(suite, r, e);
      var r1 := Receiver(AfterSending(suite, r.cipher, e), r.requested + RequestsOf([e]));
      assert [e][1..] == [] && [e] + [] == [e];
      var records := SendAll(suite, r.cipher, events);
      assert records[1..] == SendAll(suite, AfterSending(suite, r.cipher, e), events[1..]);
      if !e.Alert? {
        assert Heard(events)[1..] == Heard(events[1..]);
        Lockstep(suite, r1, events[1..]);
      }
    }
  }

  lemma {:induction false} AllHeard(events: seq<Event>)
    ensures StatusAfter(events) == Reading ==> Heard(events) == events
  {
    if events != [] { AllHeard(events[1..]); }
  }

  /** The same after any prefix: as long as no alert was sent the ends agree at every point of a run, not
      only at its end. */
  lemma LockstepAtEveryPoint(suite: Suite, r: Receiver, events: seq<Event>, k: nat)
    requires Lawful(suite) && CanSend(suite, r.cipher, events) && k <= |events|
    ensures CanSend(suite, r.cipher, events[..k])
    ensures SendAll(suite, r.cipher, events[..k]) <= SendAll(suite, r.cipher, events)
    ensures StatusAfter(events[..k]) == Reading
            ==> ReceiveAll(suite, r, SendAll(suite, r.cipher, events[..k])).receiver.cipher
                == FinalCipher(suite, r.cipher, events[..k])
  {
    SendPrefix(suite, r.cipher, events, k);
    Lockstep(suite, r, events[..k]);
    AllHeard(events[..k]);
  }

  lemma {:induction false} SendPrefix(suite: Suite, c: Cipher, events: seq<Event>, k: nat)
    requires Lawful(suite) && CanSend(suite, c, events) && k <= |events|
    ensures CanSend(suite, c, events[..k])
    ensures SendAll(suite, c, events[..k]) <= SendAll(suite, c, events)
    decreases |events|
  {
    hide Seal, Lawful;
    if k > 0 {
      assert events[..k][0] == events[0] && events[..k][1..] == events[1..][..k - 1];
      SendPrefix(suite, AfterSending(suite, c, events[0]), events[1..], k - 1);
    }
  }

  // ---- no nonce is used twice under one key

  function CipherAt(suite: Suite, c: Cipher, events: seq<Event>, i: nat): Cipher
    requires i <= |events|
  {
    FinalCipher(suite, c, events[..i])
  }

  function UpdatesIn(ms: seq<Post>): nat {
    if ms == [] then 0 else (if ms[0].Update? then 1 else 0) + UpdatesIn(ms[1..])
  }

  /** The number of updates so far. */
  function Epoch(events: seq<Event>): nat {
    if events == [] then 0 else (if events[0].Posts? then UpdatesIn(events[0].messages) else 0) + Epoch(events[1..])
  }

  function SecretOf(suite: Suite, secret: Bytes, epoch: nat): Bytes
    decreases epoch
  {
    if epoch == 0 then secret else SecretOf(suite, suite.next(secret), epoch - 1)
  }

  lemma {:induction false} SecretAfterPosts(suite: Suite, c: Cipher, ms: seq<Post>)
    ensures AfterPosts(suite, c, ms).secret == SecretOf(suite, c.secret, UpdatesIn(ms))
    ensures AfterPosts(suite, c, ms).sequence == if UpdatesIn(ms) == 0 then c.sequence else 0
    decreases |ms|
  {
    if ms != [] { SecretAfterPosts(suite, if ms[0].Update? then UpdateKey(suite, c) else c, ms[1..]); }
  }

  lemma {:induction false} SecretLater(suite: Suite, secret: Bytes, m: nat, n: nat)
    ensures SecretOf(suite, SecretOf(suite, secret, m), n) == SecretOf(suite, secret, m + n)
    decreases m
  {
    if m > 0 { SecretLater(suite, suite.next(secret), m - 1, n); }
  }

  /** The secret in use depends on the number of updates alone. */
  lemma {:induction false} SecretIsEpochs(suite: Suite, c: Cipher, events: seq<Event>)
    ensures FinalCipher(suite, c, events).secret == SecretOf(suite, c.secret, Epoch(events))
    decreases |events|
  {
    hide AfterPosts, UpdatesIn, SecretOf;
    if events == [] {
      NoUpdates(suite, c.secret);
    } else {
      var c1 := AfterSending(suite, c, events[0]);
      SecretIsEpochs(suite, c1, events[1..]);
      if events[0].Posts? {
        SecretAfterPosts(suite, Advance(c), events[0].messages);
        SecretLater(suite, c.secret, UpdatesIn(events[0].messages), Epoch(events[1..]));
      }
    }
  }

  lemma NoUpdates(suite: Suite, secret: Bytes)
    ensures SecretOf(suite, secret, 0) == secret
  {
  }

  lemma {:induction false} FinalCipherAppend(suite: Suite, c: Cipher, a: seq<Event>, b: seq<Event>)
    ensures FinalCipher(suite, c, a + b) == FinalCipher(suite, FinalCipher(suite, c, a), b)
    ensures Epoch(a + b) == Epoch(a) + Epoch(b)
    decreases |a|
  {
    if a == [] {
      assert a + b == b;
    } else {
      assert (a + b)[0] == a[0] && (a + b)[1..] == a[1..] + b;
      FinalCipherAppend(suite, AfterSending(suite, c, a[0]), a[1..], b);
    }
  }

  /** Without an update in between, the sequence number counts the records. */
  lemma {:induction false} SequenceCounts(suite: Suite, c: Cipher, events: seq<Event>)
    requires Epoch(events) == 0
    ensures FinalCipher(suite, c, events) == Cipher(c.secret, c.sequence + |events|)
    decreases |events|
  {
    if events != [] {
      if events[0].Posts? {
        SecretAfterPosts(suite, Advance(c), events[0].messages);
        NoUpdates(suite, c.secret);
      }
      SequenceCounts(suite, AfterSending(suite, c, events[0]), events[1..]);
    }
  }

  /** Two records fall between the same updates, or the secrets derived for them differ. */
  predicate FreshFor(suite: Suite, secret: Bytes, events: seq<Event>, i: nat, j: nat)
    requires i <= |events| && j <= |events|
  {
    var m, n := Epoch(events[..i]), Epoch(events[..j]);
    m == n || SecretOf(suite, secret, m) != SecretOf(suite, secret, n)
  }

  predicate WithinLimit(suite: Suite, c: Cipher, events: seq<Event>) {
    forall k {:trigger CipherAt(suite, c, events, k)} ::
      0 <= k < |events| ==> CipherAt(suite, c, events, k).sequence < SEQUENCE_LIMIT
  }

  /** Two records of a run are sealed with the same secret and nonce. */
  predicate SameNonce(suite: Suite, c: Cipher, events: seq<Event>, i: nat, j: nat)
    requires Lawful(suite) && i < |events| && j < |events| && WithinLimit(suite, c, events)
  {
    var a, b := CipherAt(suite, c, events, i), CipherAt(suite, c, events, j);
    a.secret == b.secret && Nonce(suite.iv(a.secret), a.sequence) == Nonce(suite.iv(b.secret), b.sequence)
  }

  /** Two records share secret and nonce only if the derivation came back to an earlier secret between them. */
  lemma NoNonceReuse(suite: Suite, c: Cipher, events: seq<Event>, i: nat, j: nat)
    requires Lawful(suite) && i < j < |events| && WithinLimit(suite, c, events)
    requires FreshFor(suite, c.secret, events, i, j)
    ensures !SameNonce(suite, c, events, i, j)
  {
    hide FinalCipher, Nonce;
    var a, b := CipherAt(suite, c, events, i), CipherAt(suite, c, events, j);
    var between := events[i..j];
    assert events[..j] == events[..i] + between;
    FinalCipherAppend(suite, c, events[..i], between);
    SecretIsEpochs(suite, c, events[..i]);
    SecretIsEpochs(suite, c, events[..j]);
    if SameNonce(suite, c, events, i, j) {
      assert Epoch(between) == 0;
      SequenceCounts(suite, a, between);
      NonceInjective(suite.iv(a.secret), a.sequence, b.sequence);
    }
  }

  function UpdatesOf(e: Event): nat {
    if e.Posts? then UpdatesIn(e.messages) else 0
  }

  lemma EpochStep(suite: Suite, c: Cipher, events: seq<Event>, i: nat)
    requires 0 < i <= |events|
    ensures Epoch(events[..i]) == Epoch(events[..i - 1]) + UpdatesOf(events[i - 1])
    ensures CipherAt(suite, c, events, i) == AfterSending(suite, CipherAt(suite, c, events, i - 1), events[i - 1])
    ensures UpdatesOf(events[i - 1]) > 0 ==> CipherAt(suite, c, events, i).sequence == 0
  {
    hide AfterPosts, UpdatesIn;
    var last := [events[i - 1]];
    assert events[..i] == events[..i - 1] + last && last[1..] == [];
    FinalCipherAppend(suite, c, events[..i - 1], last);
    if events[i - 1].Posts? {
      SecretAfterPosts(suite, Advance(CipherAt(suite, c, events, i - 1)), events[i - 1].messages);
    }
  }

  /** The first record after an update, or of the run, has sequence number 0. */
  lemma {:induction false} EpochStarts(suite: Suite, c: Cipher, events: seq<Event>, from: nat) returns (i: nat)
    requires c.sequence == 0 && from <= |events|
    ensures i <= from && Epoch(events[..i]) == Epoch(events[..from]) && CipherAt(suite, c, events, i).sequence == 0
    decreases from
  {
    if from == 0 {
      assert events[..0] == [];
      return 0;
    }
    EpochStep(suite, c, events, from);
    if UpdatesOf(events[from - 1]) > 0 {
      return from;
    }
    i := EpochStarts(suite, c, events, from - 1);
  }

  /** From a new cipher, for every run: no two records share secret and nonce if and only if no two of the
      secrets that seal a record are the same. */
  lemma NoncesUniqueExactly(suite: Suite, c: Cipher, events: seq<Event>)
    requires Lawful(suite) && c.sequence == 0 && WithinLimit(suite, c, events)
    ensures (forall i, j :: 0 <= i < j < |events| ==> !SameNonce(suite, c, events, i, j))
            <==> forall i, j :: 0 <= i < j < |events| ==> FreshFor(suite, c.secret, events, i, j)
  {
    hide SameNonce, WithinLimit, Lawful, FreshFor;
    forall i, j | 0 <= i < j < |events| && FreshFor(suite, c.secret, events, i, j)
      ensures !SameNonce(suite, c, events, i, j)
    {
      NoNonceReuse(suite, c, events, i, j);
    }
    if k, l :| 0 <= k < l < |events| && !FreshFor(suite, c.secret, events, k, l) {
      var i, j := RepeatedNonce(suite, c, events, k, l);
    }
  }

  /** If the derivation comes back to an earlier secret, the first records under it share the nonce. */
  lemma RepeatedNonce(suite: Suite, c: Cipher, events: seq<Event>, k: nat, l: nat) returns (i: nat, j: nat)
    requires Lawful(suite) && c.sequence == 0 && WithinLimit(suite, c, events)
    requires k < l < |events| && !FreshFor(suite, c.secret, events, k, l)
    ensures i < j < |events| && SameNonce(suite, c, events, i, j)
  {
    hide WithinLimit, Lawful, SameNonce;
    i := EpochStarts(suite, c, events, k);
    j := EpochStarts(suite, c, events, l);
    SecretIsEpochs(suite, c, events[..i]);
    SecretIsEpochs(suite, c, events[..j]);
    EpochGrows(suite, c, events, k, l);
    if j <= i { EpochGrows(suite, c, events, j, i); }
    RepeatedSecret(suite, c, events, i, j);
  }

  lemma RepeatedSecret(suite: Suite, c: Cipher, events: seq<Event>, i: nat, j: nat)
    requires Lawful(suite) && i < |events| && j < |events| && WithinLimit(suite, c, events)
    requires CipherAt(suite, c, events, i) == CipherAt(suite, c, events, j)
    ensures SameNonce(suite, c, events, i, j)
  {
  }

  lemma {:induction false} EpochGrows(suite: Suite, c: Cipher, events: seq<Event>, i: nat, j: nat)
    requires i <= j <= |events|
    ensures Epoch(events[..i]) <= Epoch(events[..j])
    decreases j
  {
    if i < j {
      EpochStep(suite, c, events, j);
      EpochGrows(suite, c, events, i, j - 1);
    }
  }

  // ---- the cipher object

  class RecordCipher {
    const suite: Suite
    var trafficSecret: Bytes
    var key: Bytes
    var iv: Bytes
    var sequence: nat

    function View(): Cipher
      reads this
    {
      Cipher(trafficSecret, sequence)
    }

    predicate Valid()
      reads this
    {
      key == suite.key(trafficSecret) && iv == suite.iv(trafficSecret) && |iv| == 12
    }

    constructor (suite: Suite, secret: Bytes)
      requires |suite.iv(secret)| == 12
      ensures Valid() && this.suite == suite && View() == Cipher(secret, 0)
    {
      this.suite := suite;
      trafficSecret, key, iv, sequence := secret, suite.key(secret), suite.iv(secret), 0;
    }

    method EncryptRecord(contentType: Byte, plaintext: Bytes) returns (record: Result<Bytes>)
      requires Valid() && sequence < SEQUENCE_LIMIT - 1 && Lawful(suite)
      modifies this
      ensures Valid()
      ensures record.Ok? <==> |plaintext| <= TLS_MAX_PLAINTEXT_LEN
      ensures record.Ok? ==> View() == Advance(old(View()))
                             && record.value == Header(|plaintext| + 1 + TAG_LEN)
                                 + Seal(suite, old(View()), contentType, plaintext)
                             && record.value == PeerRecord(suite, old(View()), plaintext + [contentType])
      ensures record.Err? ==> View() == old(View())
    {
      if |plaintext| > TLS_MAX_PLAINTEXT_LEN {
        return Err;
      }
      var payload := plaintext + [contentType];
      var header := Header(|payload| + TAG_LEN);
      var nonce := BuildNonce(iv, sequence);
      var s := suite.seal(key, nonce, header, payload);
      sequence := sequence + 1;
      HeaderBytes(|payload| + TAG_LEN);
      Associative(header, s.ciphertext, s.tag);
      record := Ok(header + s.ciphertext + s.tag);
    }

    /** Opens a record; the sequence number moves as soon as the cipher accepts it. */
    method DecryptRecord(recordType: Byte, payload: Bytes) returns (r: Result<Opened>)
      requires Valid() && sequence < SEQUENCE_LIMIT - 1
      modifies this
      ensures Valid()
      ensures r.Ok? <==>
              recordType == APPLICATION_DATA && old(Open(suite, View(), payload)).Some?
              && old(Open(suite, View(), payload)).value.Some?
      ensures r.Ok? ==> r.value == old(Open(suite, View(), payload)).value.value
      ensures View() == if recordType == APPLICATION_DATA && old(Open(suite, View(), payload)).Some?
                        then Advance(old(View())) else old(View())
    {
      if recordType != APPLICATION_DATA || |payload| < TAG_LEN || |payload| >= 0x1_0000 {
        return Err;
      }
      var n := |payload| - TAG_LEN;
      var nonce := BuildNonce(iv, sequence);
      var result := suite.open(key, nonce, Header(|payload|), Sealed(payload[..n], payload[n..]));
      if result.None? {
        return Err;
      }
      sequence := sequence + 1;
      var inner := result.value;
      var i := |inner|;
      assert inner[..i] == inner;
      while i > 0 && inner[i - 1] == 0
        invariant i <= |inner|
        invariant Strip(inner[..i]) == Strip(inner)
      {
        assert inner[..i][..i - 1] == inner[..i - 1];
        i := i - 1;
      }
      if i == 0 {
        return Err;
      }
      assert inner[..i][..i - 1] == inner[..i - 1];
      r := Ok(Opened(inner[i - 1], inner[..i - 1]));
    }

    method ReplaceKey()
      requires |suite.iv(suite.next(trafficSecret))| == 12
      modifies this
      ensures Valid() && View() == UpdateKey(suite, old(View()))
    {
      trafficSecret := suite.next(trafficSecret);
      key, iv, sequence := suite.key(trafficSecret), suite.iv(trafficSecret), 0;
    }
  }
}
