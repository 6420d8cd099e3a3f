/**
  REALITY authentication end to end: what the client prints, the server reads back.

  The cryptographic primitives are functions given from outside; all that is used of them is that
  key agreement commutes and that opening undoes sealing.
*/
module Reality {
  import opened Common
  import opened BigEndian
  import opened ClientHello
  import opened RealityParser

  datatype Crypto = Crypto(
    publicOf: Bytes -> Bytes,
    agree: (Bytes, Bytes) -> Bytes,
    derive: (Bytes, Bytes) -> Bytes,
    seal: (Bytes, Bytes, Bytes, Bytes) -> Bytes,
    open: (Bytes, Bytes, Bytes, Bytes) -> Option<Bytes>,
    utf8: Bytes -> bool)

  ghost predicate Lawful(cr: Crypto) {
    && (forall x :: |cr.publicOf(x)| == 32)
    && (forall x, y :: cr.agree(x, cr.publicOf(y)) == cr.agree(y, cr.publicOf(x)))
    && (forall k, n, a, m :: |cr.seal(k, n, a, m)| == |m| + 16)
    && (forall k, n, a, m :: cr.open(k, n, a, cr.seal(k, n, a, m)) == Some(m))
  }

  datatype ServerConfig = ServerConfig(
    serverNames: seq<Bytes>,
    privateKey: Bytes,
    shortIds: seq<Bytes>,
    maxVersion: Option<nat>,
    maxTimeDiff: nat)

  datatype ClientConfig = ClientConfig(publicKey: Bytes, shortId: Bytes)

  /** All that goes into one hello besides the configuration, random choices included. */
  datatype Attempt = Attempt(
    profile: Profile,
    serverName: Bytes,
    alpn: seq<Bytes>,
    grease: Option<U16Value>,
    random: Bytes,
    privateKey: Bytes,
    version: Bytes,
    time: nat)

  predicate ValidAttempt(t: Attempt) {
    |t.random| == 32 && |t.version| == 4 && t.time < 0x1_0000_0000
  }

  datatype Hello = Hello(record: Bytes, handshake: Bytes, authKey: Bytes)

  datatype Authenticated = Authenticated(serverName: Bytes, version: Bytes, time: nat, shortId: Bytes, authKey: Bytes)

  function ContextOf(cr: Crypto, t: Attempt): Context {
    Context(t.profile, t.serverName, t.alpn, cr.publicOf(t.privateKey), t.grease)
  }

  function ClientAuthKey(cr: Crypto, client: ClientConfig, t: Attempt): Bytes
    requires ValidAttempt(t)
  {
    cr.derive(t.random[..20], cr.agree(t.privateKey, client.publicKey))
  }

  function Plaintext(client: ClientConfig, t: Attempt): Bytes
    requires ValidAttempt(t)
  {
    t.version + U32(t.time) + client.shortId
  }

  /** The client: seal version, time and short id into the session id of a hello whose session id
      was zero when it was sealed. */
  function BuildRealityHello(cr: Crypto, client: ClientConfig, t: Attempt): Result<Hello>
    requires ValidAttempt(t) && |cr.publicOf(t.privateKey)| == 32
  {
    match BuildClientHello(ContextOf(cr, t), t.random, Zeros(32))
    case Err => Err
    case Ok(built) =>
      var authKey := ClientAuthKey(cr, client, t);
      var encrypted := cr.seal(authKey, t.random[20..], built.handshake, Plaintext(client, t));
      if |encrypted| != 32 then Err else
      SessionInside(ContextOf(cr, t), t.random, Zeros(32));
      Ok(Hello(Overwrite(built.record, 5 + SESSION_OFFSET, encrypted),
               Overwrite(built.handshake, SESSION_OFFSET, encrypted), authKey))
  }

  lemma SessionInside(c: Context, random: Bytes, session: Bytes)
    requires |c.publicKey| == 32 && |random| == 32 && |session| == 32
    requires BuildClientHello(c, random, session).Ok?
    ensures var b := BuildClientHello(c, random, session).value;
            |b.handshake| >= SESSION_OFFSET + 32 && |b.record| == |b.handshake| + 5
  {
  }

  predicate WithinLimits(server: ServerConfig, version: Bytes, time: nat, now: nat)
    requires |version| == 4
  {
    && (server.maxVersion.Some? ==> GetU32(version, 0) <= server.maxVersion.value)
    && (server.maxTimeDiff > 0 ==> (if now >= time then now - time else time - now) <= server.maxTimeDiff)
  }

  /** The server. */
  function Authenticate(cr: Crypto, server: ServerConfig, handshake: Bytes, now: nat): Result<Authenticated> {
    match ParseHello(cr.utf8, handshake)
    case Err => Err
    case Ok(p) =>
      if p.serverName !in server.serverNames then Err else
      match PeerPublicKey(p.keyShare)
      case Err => Err
      case Ok(peerKey) =>
        if |peerKey| != 32 then Err else
        var authKey := cr.derive(p.random[..20], cr.agree(server.privateKey, peerKey));
        match cr.open(authKey, p.random[20..], Overwrite(handshake, SESSION_START, Zeros(32)), p.sessionId)
        case None => Err
        case Some(plain) =>
          if |plain| != 16 || plain[8..] !in server.shortIds then Err
          else if !WithinLimits(server, plain[..4], GetU32(plain, 4), now) then Err
          else Ok(Authenticated(p.serverName, plain[..4], GetU32(plain, 4), plain[8..], authKey))
  }

  /** A server lets in nobody it should not. Whoever authenticates names a configured server, has a
      configured short id, is not newer than allowed and not further off in time than allowed;
      and the session id in the hello, at its place in the message, opens under the key agreed with
      the hello's own key share, with the hello as additional data and its session id zeroed, to
      just that version, time and short id. */
  lemma AuthenticateSound(cr: Crypto, server: ServerConfig, handshake: Bytes, now: nat)
    requires Authenticate(cr, server, handshake, now).Ok?
    ensures var a := Authenticate(cr, server, handshake, now).value;
            && a.serverName in server.serverNames && a.shortId in server.shortIds
            && |a.version| == 4 && a.time < 0x1_0000_0000 && |a.shortId| == 8
            && (server.maxVersion.Some? ==> Fold(0, a.version) <= server.maxVersion.value)
            && (server.maxTimeDiff > 0 ==> now - server.maxTimeDiff <= a.time <= now + server.maxTimeDiff)
    ensures var a := Authenticate(cr, server, handshake, now).value;
            var p := ParseHello(cr.utf8, handshake);
            && p.Ok? && p.value.serverName == a.serverName && |handshake| >= 71
            && PeerPublicKey(p.value.keyShare).Ok?
            && a.authKey == cr.derive(handshake[6..26],
                cr.agree(server.privateKey, PeerPublicKey(p.value.keyShare).value))
            && cr.open(a.authKey, handshake[26..38], handshake[..39] + Zeros(32) + handshake[71..], handshake[39..71])
               == Some(a.version + U32(a.time) + a.shortId)
  {
    var a := Authenticate(cr, server, handshake, now).value;
    var p := ParseHello(cr.utf8, handshake).value;
    assert p.random == handshake[6..38] && p.sessionId == handshake[39..71];
    assert p.random[..20] == handshake[6..26] && p.random[20..] == handshake[26..38];
    hide ParseHello, PeerPublicKey;
    var plain := cr.open(a.authKey, p.random[20..], Overwrite(handshake, SESSION_START, Zeros(32)), p.sessionId).value;
    FourBytes(plain[..4]);
    U32Back(plain, 4);
    assert plain == plain[..4] + plain[4..8] + plain[8..];
  }

  lemma FourBytes(b: Bytes)
    requires |b| == 4
    ensures Fold(0, b) == GetU32(b, 0)
  {
    assert b == [b[0], b[1], b[2], b[3]];
    FoldFour(0, b[0], b[1], b[2], b[3]);
  }

  // ---- extensions

  /** What a reader should know after the extensions of a hello. */
  function Expected(c: Context, kinds: seq<Kind>, acc: Found): Found
    requires |c.publicKey| == 32
  {
    if kinds == [] then acc else
    Expected(c, kinds[1..],
      match kinds[0]
      case ServerName => acc.(name := Some(c.serverName))
      case SupportedVersions => acc.(tls13 := true)
      case KeyShare => acc.(keyShare := Some(KeySharePayload(c.publicKey, c.grease)))
      case _ => acc)
  }

  lemma ServerNameRead(utf8: Bytes -> bool, name: Bytes)
    requires ServerNamePayload(name).Ok? && name != [] && utf8(name)
    ensures ParseServerName(utf8, ServerNamePayload(name).value) == Ok(name)
  {
    var entry := [0] + U16(|name|) + name;
    FrontU16(|name| + 3, entry);
    assert ServerNamePayload(name).value == U16(|name| + 3) + entry;
    assert entry[0] == 0 && entry[1] == U16(|name|)[0] && entry[2] == U16(|name|)[1];
    assert entry[3..3 + |name|] == name;
  }

  lemma VersionsRead(grease: Option<U16Value>)
    ensures ParseVersions(VersionsPayload(grease)) == Ok(true)
  {
    var plain: seq<U16Value> := [0x0304, 0x0303];
    assert U16s(plain) == U16(0x0304) + U16s(plain[1..]);
    assert U16s(plain)[..2] == [3, 4];
    var versions := WithGrease(grease, plain);
    if grease.Some? {
      assert versions[0] == grease.value && versions[1..] == plain;
      assert U16s(versions)[2..] == U16s(plain);
    }
    assert OffersTls13(U16s(plain)) && OffersTls13(U16s(versions));
    assert VersionsPayload(grease)[1..] == U16s(versions);
  }

  lemma ExtensionRead(utf8: Bytes -> bool, e: Extension, rest: Bytes, acc: Found)
    requires |e.payload| < 0x1_0000
    ensures ParseExtensions(utf8, EncodeExtension(e).value + rest, acc)
            == match Note(utf8, acc, e.ty, e.payload)
               case Err => Err
               case Ok(acc1) => ParseExtensions(utf8, rest, acc1)
  {
  }

  predicate Presentable(cr: Crypto, c: Context) {
    |c.publicKey| == 32 && c.serverName != [] && cr.utf8(c.serverName) && (c.grease.Some? ==> IsGrease(c.grease.value))
  }

  /** The reader notes of each kind exactly what it stands for. */
  lemma KindNoted(cr: Crypto, c: Context, k: Kind, e: Extension, acc: Found)
    requires Presentable(cr, c) && ExtensionOf(c, k) == Ok(Some(e))
    ensures Note(cr.utf8, acc, e.ty, e.payload) == Ok(Expected(c, [k], acc))
  {
    match k
    case ServerName => ServerNameRead(cr.utf8, c.serverName);
    case SupportedVersions => VersionsRead(c.grease);
    case _ =>
  }

  lemma ExpectedCons(c: Context, kinds: seq<Kind>, acc: Found)
    requires |c.publicKey| == 32 && kinds != []
    ensures Expected(c, kinds, acc) == Expected(c, kinds[1..], Expected(c, [kinds[0]], acc))
  {
  }

  lemma KindSkipped(c: Context, k: Kind, acc: Found)
    requires |c.publicKey| == 32 && ExtensionOf(c, k) == Ok(None)
    ensures Expected(c, [k], acc) == acc
  {
  }

  /** The extension block of any hello, in whatever order, is read back. */
  lemma {:induction false} ExtensionsRead(cr: Crypto, c: Context, kinds: seq<Kind>, acc: Found)
    requires Presentable(cr, c) && EncodeKinds(c, kinds).Ok?
    ensures ParseExtensions(cr.utf8, EncodeKinds(c, kinds).value, acc) == Ok(Expected(c, kinds, acc))
  {
    hide ExtensionOf, EncodeExtension, Note;
    if kinds != [] {
      var rest := EncodeKinds(c, kinds[1..]).value;
      var acc1 := Expected(c, [kinds[0]], acc);
      ExpectedCons(c, kinds, acc);
      ExtensionsRead(cr, c, kinds[1..], acc1);
      match ExtensionOf(c, kinds[0])
      case Ok(None) =>
        KindSkipped(c, kinds[0], acc);
        assert [] + rest == rest;
      case Ok(Some(e)) =>
        EncodedFits(e);
        KindNoted(cr, c, kinds[0], e, acc);
        ExtensionRead(cr.utf8, e, rest, acc);
    }
  }

  lemma EncodedFits(e: Extension)
    ensures EncodeExtension(e).Ok? ==> |e.payload| < 0x1_0000
  {
  }

  lemma {:induction false} ExpectedHas(c: Context, kinds: seq<Kind>, acc: Found)
    requires |c.publicKey| == 32
    ensures ServerName in kinds || acc.name == Some(c.serverName) ==> Expected(c, kinds, acc).name == Some(c.serverName)
    ensures SupportedVersions in kinds || acc.tls13 ==> Expected(c, kinds, acc).tls13
    ensures KeyShare in kinds || acc.keyShare == Some(KeySharePayload(c.publicKey, c.grease))
            ==> Expected(c, kinds, acc).keyShare == Some(KeySharePayload(c.publicKey, c.grease))
  {
    if kinds != [] {
      ExpectedCons(c, kinds, acc);
      ExpectedHas(c, kinds[1..], Expected(c, [kinds[0]], acc));
      assert kinds == [kinds[0]] + kinds[1..];
    }
  }

  // ---- message and key share

  lemma AfterSessionRead(utf8: Bytes -> bool, ciphers: seq<U16Value>, extensions: Bytes)
    requires 2 * |ciphers| < 0x1_0000 && |extensions| < 0x1_0000
    ensures ParseAfterSession(utf8, AfterSession(ciphers, extensions)) == ParseExtensions(utf8, extensions, NOTHING)
  {
    hide ParseExtensions, GetU16, U16, U16s;
    var tail := U16(|extensions|) + extensions;
    var n := 2 * |ciphers|;
    var b := AfterSession(ciphers, extensions);
    FrontU16(n, U16s(ciphers) + ([1, 0] + tail));
    Associative(U16(n), U16s(ciphers), [1, 0] + tail);
    assert b[2 + n..] == [1, 0] + tail;
    assert ([1, 0] + tail)[2..] == tail;
    FrontU16(|extensions|, extensions);
  }

  lemma HelloRead(utf8: Bytes -> bool, random: Bytes, session: Bytes, rest: Bytes)
    requires |random| == 32 && |session| == 32 && |rest| < 0x1_0000
    ensures var raw := Handshake(random, session, rest);
            && IsMessage(raw) && raw[38] == 32
            && raw[6..38] == random && raw[SESSION_START..SESSION_END] == session && raw[SESSION_END..] == rest
  {
  }

  /** Writing the sealed session id over the zero one, and zeroing it again. */
  lemma SessionOverwritten(random: Bytes, before: Bytes, after: Bytes, rest: Bytes)
    requires |random| == 32 && |before| == 32 && |after| == 32 && |rest| < 0x1_0000
    ensures Overwrite(Handshake(random, before, rest), SESSION_OFFSET, after) == Handshake(random, after, rest)
  {
  }

  lemma RecordOverwritten(handshake: Bytes, at: nat, piece: Bytes)
    requires |handshake| < 0x1_0000 && at + |piece| <= |handshake|
    ensures |Overwrite(handshake, at, piece)| == |handshake|
    ensures Overwrite(Record(handshake), 5 + at, piece) == Record(Overwrite(handshake, at, piece))
  {
  }

  lemma EntryRead(group: U16Value, key: Bytes, rest: Bytes, hybrid: Option<Bytes>)
    requires |key| < 0x1_0000
    ensures PeerKey(KeyShareEntry(group, key) + rest, hybrid)
            == if group == TLS_GROUP_X25519 && |key| == 32 then Ok(key)
               else PeerKey(rest, HybridAfter(group, key, hybrid))
  {
  }

  /** The server picks the client's X25519 key out of the key share, past any GREASE entry. */
  lemma KeyShareRead(publicKey: Bytes, grease: Option<U16Value>)
    requires |publicKey| == 32 && (grease.Some? ==> IsGrease(grease.value))
    ensures PeerPublicKey(KeySharePayload(publicKey, grease)) == Ok(publicKey)
  {
    hide PeerKey;
    var entries := KeyShareEntries(publicKey, grease);
    FrontU16(|entries|, entries);
    var own := KeyShareEntry(GROUP_X25519, publicKey);
    EntryRead(GROUP_X25519, publicKey, [], None);
    assert own + [] == own;
    if grease.Some? {
      EntryRead(grease.value, [0], own, None);
    } else {
      assert entries == own;
    }
  }

  /** A share that holds a hybrid entry alone: the X25519 part comes first in the older group and last in
      the newer one. */
  lemma HybridShareRead(key: Bytes, kem: Bytes)
    requires |key| == 32 && |key + kem| + 4 < 0x1_0000
    ensures var e := KeyShareEntry(0x6399, key + kem); PeerPublicKey(U16(|e|) + e) == Ok(key)
    ensures var e := KeyShareEntry(0x11ec, kem + key); PeerPublicKey(U16(|e|) + e) == Ok(key)
  {
    HybridEntry(0x6399, key + kem);
    HybridEntry(0x11ec, kem + key);
    assert (key + kem)[..32] == key && (kem + key)[|kem|..] == key;
  }

  lemma HybridEntry(group: U16Value, data: Bytes)
    requires group != GROUP_X25519 && |data| + 4 < 0x1_0000
    ensures var e := KeyShareEntry(group, data);
            |e| < 0x1_0000 && PeerPublicKey(U16(|e|) + e) == PeerKey([], HybridAfter(group, data, None))
  {
    hide PeerKey, HybridAfter;
    var e := KeyShareEntry(group, data);
    EntryRead(group, data, [], None);
    assert e + [] == e;
    FrontU16(|e|, e);
  }

  // ---- the theorem

  /** What the built hello looks like, sealed session id included. */
  lemma HelloShape(cr: Crypto, client: ClientConfig, t: Attempt)
    requires Lawful(cr) && ValidAttempt(t) && BuildRealityHello(cr, client, t).Ok?
    ensures var c := ContextOf(cr, t);
            var ciphers := WithGrease(t.grease, t.profile.ciphers);
            EncodeKinds(c, t.profile.extensions).Ok?
            && var extensions := EncodeKinds(c, t.profile.extensions).value;
            2 * |ciphers| < 0x1_0000 && |extensions| < 0x1_0000
            && |AfterSession(ciphers, extensions)| < 0x1_0000 - 71
            && var rest := AfterSession(ciphers, extensions);
            var plain := Handshake(t.random, Zeros(32), rest);
            var sealed := cr.seal(ClientAuthKey(cr, client, t), t.random[20..], plain, Plaintext(client, t));
            |sealed| == 32
            && BuildRealityHello(cr, client, t).value
               == Hello(Record(Handshake(t.random, sealed, rest)), Handshake(t.random, sealed, rest),
                   ClientAuthKey(cr, client, t))
  {
    hide EncodeKinds;
    var c := ContextOf(cr, t);
    var rest := AfterSession(WithGrease(t.grease, t.profile.ciphers), EncodeKinds(c, t.profile.extensions).value);
    var plain := Handshake(t.random, Zeros(32), rest);
    var sealed := cr.seal(ClientAuthKey(cr, client, t), t.random[20..], plain, Plaintext(client, t));
    SessionOverwritten(t.random, Zeros(32), sealed, rest);
    RecordOverwritten(plain, SESSION_OFFSET, sealed);
  }

  /** The server's reader recovers name, random, session id and key share from what was printed. */
  lemma ServerParses(cr: Crypto, c: Context, random: Bytes, session: Bytes, ciphers: seq<U16Value>, extensions: Bytes)
    requires Presentable(cr, c) && HasRequired(c.profile.extensions)
    requires |random| == 32 && |session| == 32
    requires EncodeKinds(c, c.profile.extensions) == Ok(extensions)
    requires 2 * |ciphers| < 0x1_0000 && |extensions| < 0x1_0000 && |AfterSession(ciphers, extensions)| < 0x1_0000
    ensures ParseHello(cr.utf8, Handshake(random, session, AfterSession(ciphers, extensions)))
            == Ok(Parsed(c.serverName, random, session, KeySharePayload(c.publicKey, c.grease)))
  {
    hide Handshake, AfterSession, ParseAfterSession, ParseExtensions, EncodeKinds, Expected;
    HelloRead(cr.utf8, random, session, AfterSession(ciphers, extensions));
    HandshakeLength(random, session, AfterSession(ciphers, extensions));
    AfterSessionRead(cr.utf8, ciphers, extensions);
    ExtensionsRead(cr, c, c.profile.extensions, NOTHING);
    ExpectedHas(c, c.profile.extensions, NOTHING);
  }

  lemma PlaintextFields(client: ClientConfig, t: Attempt)
    requires ValidAttempt(t) && |client.shortId| == 8
    ensures var plain := Plaintext(client, t);
            |plain| == 16 && plain[..4] == t.version && GetU32(plain, 4) == t.time && plain[8..] == client.shortId
  {
  }

  /** The additional data the server authenticates is the client's hello with a zero session id. */
  lemma SameAdditionalData(random: Bytes, sealed: Bytes, rest: Bytes)
    requires |random| == 32 && |sealed| == 32 && |rest| < 0x1_0000
    ensures Overwrite(Handshake(random, sealed, rest), SESSION_START, Zeros(32)) == Handshake(random, Zeros(32), rest)
  {
  }

  /** Whom a server lets in, by its configuration: the name and the short id are listed, and version and
      time are within the limits that are set. */
  predicate Welcome(server: ServerConfig, client: ClientConfig, t: Attempt, now: nat) {
    && t.serverName in server.serverNames && client.shortId in server.shortIds
    && (server.maxVersion.Some? ==> Fold(0, t.version) <= server.maxVersion.value)
    && (server.maxTimeDiff > 0 ==> now - server.maxTimeDiff <= t.time <= now + server.maxTimeDiff)
  }

  lemma ServerOpens(cr: Crypto, server: ServerConfig, client: ClientConfig, t: Attempt, rest: Bytes, now: nat)
    requires Lawful(cr) && ValidAttempt(t) && |client.shortId| == 8 && |rest| < 0x1_0000
    requires (t.grease.Some? ==> IsGrease(t.grease.value))
    requires client.publicKey == cr.publicOf(server.privateKey)
    requires var plain := Handshake(t.random, Zeros(32), rest);
             var sealed := cr.seal(ClientAuthKey(cr, client, t), t.random[20..], plain, Plaintext(client, t));
             |sealed| == 32
             && ParseHello(cr.utf8, Handshake(t.random, sealed, rest))
                == Ok(Parsed(t.serverName, t.random, sealed, KeySharePayload(cr.publicOf(t.privateKey), t.grease)))
    ensures var sealed := cr.seal(ClientAuthKey(cr, client, t), t.random[20..], Handshake(t.random, Zeros(32), rest),
            Plaintext(client, t));
            Authenticate(cr, server, Handshake(t.random, sealed, rest), now)
            == if Welcome(server, client, t, now)
               then Ok(Authenticated(t.serverName, t.version, t.time, client.shortId, ClientAuthKey(cr, client, t)))
               else Err
  {
    FourBytes(t.version);
    hide ParseHello, PeerPublicKey, KeySharePayload, Plaintext, Overwrite;
    var plain := Handshake(t.random, Zeros(32), rest);
    var sealed := cr.seal(ClientAuthKey(cr, client, t), t.random[20..], plain, Plaintext(client, t));
    HelloRead(cr.utf8, t.random, sealed, rest);
    KeyShareRead(cr.publicOf(t.privateKey), t.grease);
    SameAdditionalData(t.random, sealed, rest);
    PlaintextFields(client, t);
    assert cr.agree(server.privateKey, cr.publicOf(t.privateKey)) == cr.agree(t.privateKey, client.publicKey);
  }

  lemma OneRecord(handshake: Bytes)
    requires IsMessage(handshake) && |handshake| < 0x1_0000
    ensures Scan(Record(handshake), 0, []).Complete? && Scan(Record(handshake), 0, []).handshake == handshake
  {
    var data := Record(handshake);
    assert RecordOf(0x0301, handshake) == data;
    var parts := [handshake];
    assert parts[1..] == [];
    assert Stream(0x0301, parts) == data + [];
    assert Concat(parts) == handshake + [];
    assert data[0..] == Stream(0x0301, parts);
    assert [] + Concat(parts) == handshake;
    Reassembles(handshake, 0x0301, parts, data, 0, []);
  }

  /** Completeness: for every profile with the required extensions in any order, every ALPN list,
      GREASE value and padding, if the hello can be built at all, the server reassembles it from its
      record. It lets the client in if and only if name and short id are listed and the limits that
      are set are kept, and then it has name, version, time, short id and the same authentication key. */
  lemma RealityCompleteness(cr: Crypto, server: ServerConfig, client: ClientConfig, t: Attempt, now: nat)
    requires Lawful(cr) && ValidAttempt(t) && |client.shortId| == 8
    requires HasRequired(t.profile.extensions) && cr.utf8(t.serverName)
    requires (t.grease.Some? ==> IsGrease(t.grease.value))
    requires client.publicKey == cr.publicOf(server.privateKey)
    requires BuildRealityHello(cr, client, t).Ok?
    ensures var hello := BuildRealityHello(cr, client, t).value;
            && Scan(hello.record, 0, []).Complete?
            && Scan(hello.record, 0, []).handshake == hello.handshake
            && Authenticate(cr, server, hello.handshake, now)
               == if Welcome(server, client, t, now)
                  then Ok(Authenticated(t.serverName, t.version, t.time, client.shortId, hello.authKey))
                  else Err
  {
    HelloShape(cr, client, t);
    NameNotEmpty(cr, client, t);
    hide BuildRealityHello, Authenticate, Handshake, EncodeKinds, AfterSession, ParseHello, Record, Scan;
    var c := ContextOf(cr, t);
    var ciphers := WithGrease(t.grease, t.profile.ciphers);
    var extensions := EncodeKinds(c, t.profile.extensions).value;
    var rest := AfterSession(ciphers, extensions);
    var sealed := cr.seal(ClientAuthKey(cr, client, t), t.random[20..], Handshake(t.random, Zeros(32), rest),
        Plaintext(client, t));
    ServerParses(cr, c, t.random, sealed, ciphers, extensions);
    ServerOpens(cr, server, client, t, rest, now);
    HelloRead(cr.utf8, t.random, sealed, rest);
    HandshakeLength(t.random, sealed, rest);
    OneRecord(Handshake(t.random, sealed, rest));
  }

  /** So it is for every fingerprint, with its extensions in any order: without limits, exactly the listed
      clients are let in. */
  lemma EveryFingerprintAuthenticates(
    cr: Crypto, server: ServerConfig, client: ClientConfig, t: Attempt, f: Fingerprint, b: Byte, now: nat)
    requires Lawful(cr) && ValidAttempt(t) && |client.shortId| == 8 && cr.utf8(t.serverName)
    requires multiset(t.profile.extensions) == multiset(ProfileOf(f, b).extensions)
    requires (t.grease.Some? ==> IsGrease(t.grease.value))
    requires client.publicKey == cr.publicOf(server.privateKey)
    requires server.maxVersion.None? && server.maxTimeDiff == 0
    requires BuildRealityHello(cr, client, t).Ok?
    ensures var hello := BuildRealityHello(cr, client, t).value;
            var scanned := Scan(hello.record, 0, []);
            && scanned.Complete?
            && Authenticate(cr, server, scanned.handshake, now)
               == if t.serverName in server.serverNames && client.shortId in server.shortIds
                  then Ok(Authenticated(t.serverName, t.version, t.time, client.shortId, hello.authKey))
                  else Err
  {
    hide Authenticate, BuildRealityHello, Scan, ProfileOf;
    EveryProfileHasRequired(f, b);
    ShuffledHasRequired(ProfileOf(f, b).extensions, t.profile.extensions);
    RealityCompleteness(cr, server, client, t, now);
  }

  lemma HandshakeLength(random: Bytes, session: Bytes, rest: Bytes)
    requires |random| == 32 && |session| == 32 && |rest| < 0x1_0000
    ensures |Handshake(random, session, rest)| == 71 + |rest|
  {
  }

  lemma NameNotEmpty(cr: Crypto, client: ClientConfig, t: Attempt)
    requires Lawful(cr) && ValidAttempt(t) && BuildRealityHello(cr, client, t).Ok?
    ensures t.serverName != []
  {
  }
}
