/** The TLS ClientHello printer: profiles, random shuffles and the byte-exact encoding. */
module ClientHello {
  import opened Common
  import opened BigEndian

  type U16Value = x: int | 0 <= x < 0x1_0000

  const EXT_SERVER_NAME: U16Value := 0x0000
  const EXT_STATUS_REQUEST: U16Value := 0x0005
  const EXT_SUPPORTED_GROUPS: U16Value := 0x000a
  const EXT_EC_POINT_FORMATS: U16Value := 0x000b
  const EXT_SIGNATURE_ALGORITHMS: U16Value := 0x000d
  const EXT_ALPN: U16Value := 0x0010
  const EXT_SIGNED_CERT_TIMESTAMP: U16Value := 0x0012
  const EXT_PADDING: U16Value := 0x0015
  const EXT_EXTENDED_MASTER_SECRET: U16Value := 0x0017
  const EXT_COMPRESS_CERTIFICATE: U16Value := 0x001b
  const EXT_SESSION_TICKET: U16Value := 0x0023
  const EXT_SUPPORTED_VERSIONS: U16Value := 0x002b
  const EXT_PSK_KEY_EXCHANGE_MODES: U16Value := 0x002d
  const EXT_KEY_SHARE: U16Value := 0x0033
  const EXT_RENEGOTIATION_INFO: U16Value := 0xff01
  const GROUP_X25519: U16Value := 0x001d

  datatype Kind =
    | Grease | ServerName | ExtendedMasterSecret | RenegotiationInfo | SupportedGroups
    | EcPointFormats | SessionTicket | Alpn | StatusRequest | SignatureAlgorithms
    | SignedCertificateTimestamp | SupportedVersions | PskModes | KeyShare
    | CompressCertificate | Padding

  datatype Profile = Profile(
    ciphers: seq<U16Value>,
    groups: seq<U16Value>,
    signatures: seq<U16Value>,
    extensions: seq<Kind>,
    includeGrease: bool,
    paddingLen: nat)

  datatype Fingerprint =
    | Chrome | Firefox | Safari | Ios | Android | Edge | Qihoo360 | Qq
    | Random | Randomized | RandomizedAlpn | RandomizedNoAlpn

  const GROUPS: seq<U16Value> := [0x001d, 0x0017, 0x0018]

  const FIREFOX: Profile := Profile(
    [0x1301, 0x1303, 0x1302, 0xc02b, 0xc02f, 0xcca9, 0xcca8, 0xc02c, 0xc030, 0xc00a,
     0xc009, 0xc013, 0xc014, 0x009c, 0x009d, 0x002f, 0x0035],
    GROUPS,
    [0x0403, 0x0804, 0x0807, 0x0401, 0x0503, 0x0805, 0x0501, 0x0806, 0x0601],
    [ServerName, ExtendedMasterSecret, RenegotiationInfo, SupportedGroups, EcPointFormats,
     SignatureAlgorithms, StatusRequest, Alpn, SupportedVersions, PskModes, KeyShare, Padding],
    false, 32)

  const SAFARI: Profile := Profile(
    [0x1301, 0x1302, 0x1303, 0xc02c, 0xc02b, 0xc030, 0xc02f, 0xcca9, 0xcca8, 0xc024,
     0xc023, 0xc028, 0xc027, 0xc00a, 0xc009, 0xc014, 0xc013, 0x009d, 0x009c, 0x003d,
     0x003c, 0x0035, 0x002f],
    GROUPS,
    [0x0403, 0x0804, 0x0807, 0x0401, 0x0503, 0x0805, 0x0501, 0x0806, 0x0601],
    [ServerName, ExtendedMasterSecret, RenegotiationInfo, SupportedGroups, EcPointFormats, Alpn,
     StatusRequest, SignatureAlgorithms, SignedCertificateTimestamp, KeyShare, PskModes,
     SupportedVersions, Padding],
    true, 18)

  function ChromeLike(paddingLen: nat): Profile {
    Profile(
      [0x1301, 0x1302, 0x1303, 0xc02b, 0xc02f, 0xc02c, 0xc030, 0xcca9, 0xcca8, 0xc013, 0xc014,
       0x009c, 0x009d, 0x002f, 0x0035],
      GROUPS,
      [0x0403, 0x0804, 0x0401, 0x0503, 0x0805, 0x0501, 0x0806, 0x0601],
      [Grease, ServerName, ExtendedMasterSecret, RenegotiationInfo, SupportedGroups, EcPointFormats,
       SessionTicket, Alpn, StatusRequest, SignatureAlgorithms, SignedCertificateTimestamp, KeyShare,
       PskModes, SupportedVersions, CompressCertificate, Padding],
      true, paddingLen)
  }

  function WithoutAlpn(kinds: seq<Kind>): seq<Kind> {
    if kinds == [] then []
    else (if kinds[0].Alpn? then [] else [kinds[0]]) + WithoutAlpn(kinds[1..])
  }

  /** The profile of a fingerprint; `b` is the random byte that randomized profiles draw. */
  function ProfileOf(f: Fingerprint, b: Byte): Profile {
    match f
    case Firefox => FIREFOX
    case Safari => SAFARI
    case Ios => SAFARI
    case RandomizedNoAlpn =>
      var p := ChromeLike(1 + b % 64);
      p.(extensions := WithoutAlpn(p.extensions))
    case Random => ChromeLike(1 + b % 64)
    case Randomized => ChromeLike(1 + b % 64)
    case RandomizedAlpn => ChromeLike(1 + b % 64)
    case _ => ChromeLike(21)
  }

  /** The extensions a REALITY server cannot do without. */
  predicate HasRequired(kinds: seq<Kind>) {
    ServerName in kinds && SupportedVersions in kinds && KeyShare in kinds
  }

  lemma {:induction false} WithoutAlpnKeeps(kinds: seq<Kind>, k: Kind)
    requires k in kinds && !k.Alpn?
    ensures k in WithoutAlpn(kinds)
  {
    if kinds[0] != k {
      assert k in kinds[1..];
      WithoutAlpnKeeps(kinds[1..], k);
    }
  }

  lemma ChromeHasRequired(n: nat)
    ensures HasRequired(ChromeLike(n).extensions)
  {
  }

  lemma FixedProfilesHaveRequired()
    ensures HasRequired(FIREFOX.extensions) && HasRequired(SAFARI.extensions)
  {
  }

  lemma EveryProfileHasRequired(f: Fingerprint, b: Byte)
    ensures HasRequired(ProfileOf(f, b).extensions)
  {
    hide ChromeLike;
    FixedProfilesHaveRequired();
    ChromeHasRequired(21);
    ChromeHasRequired(1 + b % 64);
    var e := ChromeLike(1 + b % 64).extensions;
    WithoutAlpnKeeps(e, ServerName);
    WithoutAlpnKeeps(e, SupportedVersions);
    WithoutAlpnKeeps(e, KeyShare);
  }

  // ---- shuffles

  function Swapped<T>(s: seq<T>, i: nat, j: nat): (t: seq<T>)
    requires i < |s| && j < |s|
    ensures |t| == |s| && t[i] == s[j]
  {
    s[i := s[j]][j := s[i]]
  }

  /** Fisher-Yates with the given random bytes: the last place is drawn first. */
  function FisherYates<T>(s: seq<T>, random: nat -> Byte): (t: seq<T>)
    ensures |t| == |s|
    decreases |s|
  {
    if |s| <= 1 then s else
    var last := |s| - 1;
    var t := Swapped(s, last, random(last) % |s|);
    FisherYates(t[..last], random) + [t[last]]
  }

  lemma SwapPermutes<T>(s: seq<T>, i: nat, j: nat)
    requires i < |s| && j < |s|
    ensures multiset(Swapped(s, i, j)) == multiset(s)
  {
  }

  lemma {:induction false} FisherYatesPermutes<T>(s: seq<T>, random: nat -> Byte)
    ensures multiset(FisherYates(s, random)) == multiset(s)
    decreases |s|
  {
    hide Swapped, FisherYates;
    if |s| <= 1 {
      NothingToShuffle(s, random);
    } else {
      var last := |s| - 1;
      var t := Swapped(s, last, random(last) % |s|);
      SwapPermutes(s, last, random(last) % |s|);
      FisherYatesPermutes(t[..last], random);
      LastDrawn(s, random);
      AppendedPermutes(FisherYates(t[..last], random), t);
    }
  }

  lemma AppendedPermutes<T>(front: seq<T>, t: seq<T>)
    requires t != [] && multiset(front) == multiset(t[..|t| - 1])
    ensures multiset(front + [t[|t| - 1]]) == multiset(t)
  {
    assert t == t[..|t| - 1] + [t[|t| - 1]];
  }

  lemma {:induction false} DrawsAgree<T>(s: seq<T>, r: nat -> Byte, r1: nat -> Byte)
    requires forall i :: 0 <= i < |s| ==> r(i) == r1(i)
    ensures FisherYates(s, r) == FisherYates(s, r1)
    decreases |s|
  {
    if |s| > 1 {
      var last := |s| - 1;
      DrawsAgree(Swapped(s, last, r(last) % |s|)[..last], r, r1);
    }
  }

  lemma LastIsThere<T>(s: seq<T>, t: seq<T>) returns (j: nat)
    requires s != [] && multiset(s) == multiset(t)
    ensures |t| == |s| && j < |s| && s[j] == t[|s| - 1]
  {
    assert |multiset(s)| == |multiset(t)|;
    assert t[|t| - 1] in multiset(s);
    j :| 0 <= j < |s| && s[j] == t[|t| - 1];
  }

  /** Every order can come out: for any rearrangement of a list of up to 256 elements there are random bytes
      with which the shuffle gives it. */
  lemma {:induction false} EveryOrderComesOut<T>(s: seq<T>, t: seq<T>) returns (random: nat -> Byte)
    requires |s| <= 256 && multiset(s) == multiset(t)
    ensures FisherYates(s, random) == t
    decreases |s|
  {
    hide FisherYates, Swapped;
    if s == [] {
      random := _ => 0;
      NothingToShuffle(s, random);
      assert |multiset(s)| == |multiset(t)|;
    } else {
      var last := |s| - 1;
      var j := LastIsThere(s, t);
      FrontsMatch(s, t, j);
      var r := EveryOrderComesOut(Swapped(s, last, j)[..last], t[..last]);
      random := i => if i == last then j else r(i);
      DrawnLast(s, t, j, random, r);
    }
  }

  lemma FrontsMatch<T>(s: seq<T>, t: seq<T>, j: nat)
    requires multiset(s) == multiset(t) && |s| == |t| && j < |s| && s[j] == t[|s| - 1]
    ensures multiset(Swapped(s, |s| - 1, j)[..|s| - 1]) == multiset(t[..|s| - 1])
  {
    hide Swapped;
    SwapPermutes(s, |s| - 1, j);
    SameWithoutLast(Swapped(s, |s| - 1, j), t);
  }

  lemma DrawnLast<T>(s: seq<T>, t: seq<T>, j: nat, random: nat -> Byte, r: nat -> Byte)
    requires |s| == |t| && j < |s| && s[j] == t[|s| - 1] && random(|s| - 1) == j
    requires forall i :: 0 <= i < |s| - 1 ==> random(i) == r(i)
    requires FisherYates(Swapped(s, |s| - 1, j)[..|s| - 1], r) == t[..|s| - 1]
    ensures FisherYates(s, random) == t
  {
    hide FisherYates, Swapped;
    if |s| == 1 {
      NothingToShuffle(s, random);
      assert s == t;
    } else {
      DrawsAgree(Swapped(s, |s| - 1, j)[..|s| - 1], random, r);
      SmallRemainder(j, |s|);
      LastDrawn(s, random);
      WithoutLast(t);
    }
  }

  lemma SameWithoutLast<T>(s: seq<T>, t: seq<T>)
    requires s != [] && |s| == |t| && multiset(s) == multiset(t) && s[|s| - 1] == t[|s| - 1]
    ensures multiset(s[..|s| - 1]) == multiset(t[..|s| - 1])
  {
    WithoutLast(s);
    WithoutLast(t);
  }

  lemma LastDrawn<T>(s: seq<T>, random: nat -> Byte)
    requires |s| > 1
    ensures var last := |s| - 1;
            var t := Swapped(s, last, random(last) % |s|);
            FisherYates(s, random) == FisherYates(t[..last], random) + [t[last]]
  {
  }

  lemma WithoutLast<T>(s: seq<T>)
    requires s != []
    ensures multiset(s[..|s| - 1]) == multiset(s) - multiset{s[|s| - 1]} && s == s[..|s| - 1] + [s[|s| - 1]]
  {
    assert s == s[..|s| - 1] + [s[|s| - 1]];
  }

  /** The shuffle in place. */
  method Shuffle<T>(a: array<T>, random: nat -> Byte)
    modifies a
    ensures a[..] == FisherYates(old(a[..]), random)
  {
    hide FisherYates, Swapped;
    var index := a.Length;
    assert a[..index] == a[..] && a[index..] == [];
    assert FisherYates(a[..], random) + [] == FisherYates(a[..], random);
    while index > 1
      invariant 0 <= index <= a.Length
      invariant FisherYates(a[..index], random) + a[index..] == FisherYates(old(a[..]), random)
    {
      ghost var front, back, before := a[..index], a[index..], a[..];
      assert before == front + back;
      index := index - 1;
      var other := random(index) % (index + 1);
      a[index], a[other] := a[other], a[index];
      assert a[..] == before[index := before[other]][other := before[index]];
      Parted(a[..], front, back, other);
      assert a[..][..index] == a[..index] && a[..][index..] == a[index..];
      ShuffleStep(front, back, random);
    }
    NothingToShuffle(a[..index], random);
    assert a[..index] + a[index..] == a[..];
  }

  lemma NothingToShuffle<T>(s: seq<T>, random: nat -> Byte)
    requires |s| <= 1
    ensures FisherYates(s, random) == s
  {
  }

  lemma Parted<T>(all: seq<T>, front: seq<T>, back: seq<T>, other: nat)
    requires front != [] && other < |front| && |all| == |front| + |back|
    requires all == (front + back)[|front| - 1 := front[other]][other := front[|front| - 1]]
    ensures var last := |front| - 1;
            var t := Swapped(front, last, other);
            all[..last] == t[..last] && all[last..] == [t[last]] + back
  {
  }

  lemma ShuffleStep<T>(front: seq<T>, back: seq<T>, random: nat -> Byte)
    requires |front| > 1
    ensures var last := |front| - 1;
            var t := Swapped(front, last, random(last) % |front|);
            FisherYates(front, random) + back == FisherYates(t[..last], random) + ([t[last]] + back)
  {
    hide FisherYates, Swapped;
    LastDrawn(front, random);
    var t := Swapped(front, |front| - 1, random(|front| - 1) % |front|);
    Associative(FisherYates(t[..|front| - 1], random), [t[|front| - 1]], back);
  }

  predicate IsFixed(k: Kind) {
    k.ServerName? || k.KeyShare? || k.SupportedVersions?
  }

  function FixedOf(kinds: seq<Kind>): seq<Kind> {
    if kinds == [] then [] else
    FixedOf(kinds[..|kinds| - 1]) + (if IsFixed(kinds[|kinds| - 1]) then [kinds[|kinds| - 1]] else [])
  }

  lemma NoneFixed()
    ensures FixedOf([]) == [] && LooseOf([]) == []
  {
  }

  lemma FixedOfSnoc(kinds: seq<Kind>, k: Kind)
    ensures FixedOf(kinds + [k]) == if IsFixed(k) then FixedOf(kinds) + [k] else FixedOf(kinds)
    ensures LooseOf(kinds + [k]) == if IsFixed(k) then LooseOf(kinds) else LooseOf(kinds) + [k]
  {
  }

  function LooseOf(kinds: seq<Kind>): seq<Kind> {
    if kinds == [] then [] else
    LooseOf(kinds[..|kinds| - 1]) + (if IsFixed(kinds[|kinds| - 1]) then [] else [kinds[|kinds| - 1]])
  }

  method Separate(kinds: seq<Kind>) returns (fixed: seq<Kind>, loose: seq<Kind>)
    ensures multiset(fixed) + multiset(loose) == multiset(kinds) && fixed == FixedOf(kinds) && loose == LooseOf(kinds)
  {
    hide FixedOf, LooseOf;
    fixed, loose := [], [];
    assert kinds[..0] == [] && FixedOf([]) == [] && LooseOf([]) == [] by { NoneFixed(); }
    for i := 0 to |kinds|
      invariant multiset(fixed) + multiset(loose) == multiset(kinds[..i])
      invariant fixed == FixedOf(kinds[..i]) && loose == LooseOf(kinds[..i])
    {
      assert kinds[..i + 1] == kinds[..i] + [kinds[i]];
      FixedOfSnoc(kinds[..i], kinds[i]);
      if IsFixed(kinds[i]) {
        fixed := fixed + [kinds[i]];
      } else {
        loose := loose + [kinds[i]];
      }
    }
    assert kinds[..|kinds|] == kinds;
  }

  /** The extensions a server needs go first, in their own order; the others are shuffled. */
  method ShuffleExtensions(kinds: seq<Kind>, random: nat -> Byte) returns (shuffled: seq<Kind>)
    ensures multiset(shuffled) == multiset(kinds)
    ensures shuffled == FixedOf(kinds) + FisherYates(LooseOf(kinds), random)
  {
    hide FixedOf, LooseOf, FisherYates;
    var fixed, loose := Separate(kinds);
    var a := new Kind[|loose|](i requires 0 <= i < |loose| => loose[i]);
    assert a[..] == loose;
    Shuffle(a, random);
    FisherYatesPermutes(loose, random);
    shuffled := fixed + a[..];
    assert multiset(shuffled) == multiset(fixed) + multiset(a[..]);
  }

  /** No shuffle loses what a server needs. */
  lemma ShuffledHasRequired(kinds: seq<Kind>, shuffled: seq<Kind>)
    requires HasRequired(kinds) && multiset(shuffled) == multiset(kinds)
    ensures HasRequired(shuffled)
  {
    assert forall k :: k in kinds <==> k in multiset(kinds);
    assert forall k :: k in shuffled <==> k in multiset(shuffled);
  }

  // ---- extension payloads

  predicate IsGrease(v: U16Value) {
    v / 256 == v % 256 && v % 16 == 10
  }

  function U16s(values: seq<U16Value>): (b: Bytes)
    ensures |b| == 2 * |values|
  {
    if values == [] then [] else U16(values[0]) + U16s(values[1..])
  }

  function WithGrease(grease: Option<U16Value>, values: seq<U16Value>): seq<U16Value> {
    if grease.Some? then [grease.value] + values else values
  }

  function U16ListPayload(values: seq<U16Value>): Result<Bytes> {
    if 2 * |values| < 0x1_0000 then Ok(U16(2 * |values|) + U16s(values)) else Err
  }

  function ServerNamePayload(name: Bytes): Result<Bytes> {
    if |name| + 3 < 0x1_0000 then Ok(U16(|name| + 3) + ([0] + U16(|name|) + name)) else Err
  }

  function AlpnList(protocols: seq<Bytes>): Result<Bytes> {
    if protocols == [] then Ok([])
    else if protocols[0] == [] || |protocols[0]| > 255 then Err
    else match AlpnList(protocols[1..])
      case Ok(rest) => Ok([|protocols[0]|] + protocols[0] + rest)
      case Err => Err
  }

  function AlpnPayload(protocols: seq<Bytes>): Result<Bytes> {
    match AlpnList(protocols)
    case Ok(list) => if |list| < 0x1_0000 then Ok(U16(|list|) + list) else Err
    case Err => Err
  }

  function VersionsPayload(grease: Option<U16Value>): Bytes {
    var versions := WithGrease(grease, [0x0304, 0x0303]);
    [2 * |versions|] + U16s(versions)
  }

  function KeyShareEntry(group: U16Value, key: Bytes): Bytes
    requires |key| < 0x1_0000
  {
    U16(group) + U16(|key|) + key
  }

  function KeyShareEntries(publicKey: Bytes, grease: Option<U16Value>): (b: Bytes)
    requires |publicKey| == 32
    ensures |b| < 0x1_0000
  {
    (if grease.Some? then KeyShareEntry(grease.value, [0]) else []) + KeyShareEntry(GROUP_X25519, publicKey)
  }

  function KeySharePayload(publicKey: Bytes, grease: Option<U16Value>): Bytes
    requires |publicKey| == 32
  {
    var entries := KeyShareEntries(publicKey, grease);
    U16(|entries|) + entries
  }

  /** What the extensions of one hello are made of. */
  datatype Context = Context(
    profile: Profile,
    serverName: Bytes,
    alpn: seq<Bytes>,
    publicKey: Bytes,
    grease: Option<U16Value>)

  datatype Extension = Extension(ty: U16Value, payload: Bytes)

  function Wrap(ty: U16Value, payload: Result<Bytes>): Result<Option<Extension>> {
    match payload
    case Ok(p) => Ok(Some(Extension(ty, p)))
    case Err => Err
  }

  /** The extension of a kind, nothing if the kind is left out, or an error. */
  function ExtensionOf(c: Context, k: Kind): Result<Option<Extension>>
    requires |c.publicKey| == 32
  {
    match k
    case Grease => if c.grease.Some? then Wrap(c.grease.value, Ok([])) else Ok(None)
    case ServerName => Wrap(EXT_SERVER_NAME, ServerNamePayload(c.serverName))
    case ExtendedMasterSecret => Wrap(EXT_EXTENDED_MASTER_SECRET, Ok([]))
    case RenegotiationInfo => Wrap(EXT_RENEGOTIATION_INFO, Ok([0]))
    case SupportedGroups => Wrap(EXT_SUPPORTED_GROUPS, U16ListPayload(WithGrease(c.grease, c.profile.groups)))
    case EcPointFormats => Wrap(EXT_EC_POINT_FORMATS, Ok([1, 0]))
    case SessionTicket => Wrap(EXT_SESSION_TICKET, Ok([]))
    case Alpn => if c.alpn == [] then Ok(None) else Wrap(EXT_ALPN, AlpnPayload(c.alpn))
    case StatusRequest => Wrap(EXT_STATUS_REQUEST, Ok([1, 0, 0, 0, 0]))
    case SignatureAlgorithms => Wrap(EXT_SIGNATURE_ALGORITHMS, U16ListPayload(c.profile.signatures))
    case SignedCertificateTimestamp => Wrap(EXT_SIGNED_CERT_TIMESTAMP, Ok([]))
    case SupportedVersions => Wrap(EXT_SUPPORTED_VERSIONS, Ok(VersionsPayload(c.grease)))
    case PskModes => Wrap(EXT_PSK_KEY_EXCHANGE_MODES, Ok([1, 1]))
    case KeyShare => Wrap(EXT_KEY_SHARE, Ok(KeySharePayload(c.publicKey, c.grease)))
    case CompressCertificate => Wrap(EXT_COMPRESS_CERTIFICATE, Ok([2, 0, 2]))
    case Padding => Wrap(EXT_PADDING, Ok(Zeros(c.profile.paddingLen)))
  }

  function EncodeExtension(e: Extension): Result<Bytes> {
    if |e.payload| < 0x1_0000 then Ok(U16(e.ty) + U16(|e.payload|) + e.payload) else Err
  }

  function EncodeKind(c: Context, k: Kind): Result<Bytes>
    requires |c.publicKey| == 32
  {
    match ExtensionOf(c, k)
    case Err => Err
    case Ok(None) => Ok([])
    case Ok(Some(e)) => EncodeExtension(e)
  }

  function EncodeKinds(c: Context, kinds: seq<Kind>): Result<Bytes>
    requires |c.publicKey| == 32
  {
    if kinds == [] then Ok([])
    else match (EncodeKind(c, kinds[0]), EncodeKinds(c, kinds[1..]))
      case (Ok(b), Ok(rest)) => Ok(b + rest)
      case _ => Err
  }

  /** Appends the encoding of each kind in turn. */
  method EncodeExtensions(c: Context) returns (r: Result<Bytes>)
    requires |c.publicKey| == 32
    ensures r == EncodeKinds(c, c.profile.extensions)
  {
    var out: Bytes := [];
    var kinds := c.profile.extensions;
    assert kinds[0..] == kinds && EncodeKinds(c, kinds).Ok?
        ==> [] + EncodeKinds(c, kinds).value == EncodeKinds(c, kinds).value;
    for i := 0 to |kinds|
      invariant Prefixed(out, EncodeKinds(c, kinds[i..])) == EncodeKinds(c, kinds)
    {
      assert kinds[i..][0] == kinds[i] && kinds[i..][1..] == kinds[i + 1..];
      var one := EncodeKind(c, kinds[i]);
      if one.Err? {
        return Err;
      }
      if EncodeKinds(c, kinds[i + 1..]).Ok? {
        Associative(out, one.value, EncodeKinds(c, kinds[i + 1..]).value);
      }
      out := out + one.value;
    }
    assert kinds[|kinds|..] == [] && out + [] == out;
    r := Ok(out);
  }

  function Prefixed(b: Bytes, r: Result<Bytes>): Result<Bytes> {
    if r.Ok? then Ok(b + r.value) else Err
  }

  // ---- what is printed, as section 4.2 of RFC 8446 reads it

  /** The types of the extensions a hello lists, in order, as its fingerprint reports them. */
  function TypesOf(c: Context, kinds: seq<Kind>): seq<U16Value> {
    if kinds == [] then [] else TypeOf(c, kinds[0]) + TypesOf(c, kinds[1..])
  }

  function TypeOf(c: Context, k: Kind): seq<U16Value> {
    match k
    case Grease => if c.grease.Some? then [c.grease.value] else []
    case Alpn => if c.alpn == [] then [] else [EXT_ALPN]
    case ServerName => [EXT_SERVER_NAME]
    case ExtendedMasterSecret => [EXT_EXTENDED_MASTER_SECRET]
    case RenegotiationInfo => [EXT_RENEGOTIATION_INFO]
    case SupportedGroups => [EXT_SUPPORTED_GROUPS]
    case EcPointFormats => [EXT_EC_POINT_FORMATS]
    case SessionTicket => [EXT_SESSION_TICKET]
    case StatusRequest => [EXT_STATUS_REQUEST]
    case SignatureAlgorithms => [EXT_SIGNATURE_ALGORITHMS]
    case SignedCertificateTimestamp => [EXT_SIGNED_CERT_TIMESTAMP]
    case SupportedVersions => [EXT_SUPPORTED_VERSIONS]
    case PskModes => [EXT_PSK_KEY_EXCHANGE_MODES]
    case KeyShare => [EXT_KEY_SHARE]
    case CompressCertificate => [EXT_COMPRESS_CERTIFICATE]
    case Padding => [EXT_PADDING]
  }

  /** A list of extensions read off: type, length, that many bytes, and so on to the end. */
  function ReadExtensionList(b: Bytes): Result<seq<Extension>> {
    if b == [] then Ok([])
    else if |b| < 4 || |b| < 4 + GetU16(b, 2) then Err
    else
      var n := 4 + GetU16(b, 2);
      match ReadExtensionList(b[n..])
      case Ok(rest) => Ok([Extension(GetU16(b, 0), b[4..n])] + rest)
      case Err => Err
  }

  predicate Typed(types: seq<U16Value>, es: seq<Extension>) {
    |es| == |types| && forall i :: 0 <= i < |es| ==> es[i].ty == types[i]
  }

  lemma OneExtensionRead(e: Extension, rest: Bytes)
    requires EncodeExtension(e).Ok? && ReadExtensionList(rest).Ok?
    ensures ReadExtensionList(EncodeExtension(e).value + rest) == Ok([e] + ReadExtensionList(rest).value)
  {
    var b, n := EncodeExtension(e).value + rest, |e.payload|;
    assert b[0] == U16(e.ty)[0] && b[1] == U16(e.ty)[1] && b[2] == U16(n)[0] && b[3] == U16(n)[1];
    assert GetU16(b, 0) == e.ty && GetU16(b, 2) == n;
    assert b[4..4 + n] == e.payload && b[4 + n..] == rest;
  }

  lemma OneKindTyped(c: Context, k: Kind)
    requires |c.publicKey| == 32 && ExtensionOf(c, k).Ok?
    ensures TypeOf(c, k) == if ExtensionOf(c, k).value.Some? then [ExtensionOf(c, k).value.value.ty] else []
  {
  }

  /** The printed extensions read off one by one have exactly the types the fingerprint lists, in its order. */
  lemma {:induction false} TypesPrinted(c: Context, kinds: seq<Kind>)
    requires |c.publicKey| == 32 && EncodeKinds(c, kinds).Ok?
    ensures var r := ReadExtensionList(EncodeKinds(c, kinds).value);
            r.Ok? && Typed(TypesOf(c, kinds), r.value)
  {
    hide ExtensionOf, EncodeExtension, TypeOf, ReadExtensionList;
    if kinds == [] {
      NoExtensions();
    } else {
      var rest := EncodeKinds(c, kinds[1..]).value;
      TypesPrinted(c, kinds[1..]);
      OneKindTyped(c, kinds[0]);
      match ExtensionOf(c, kinds[0]).value
      case None => assert [] + rest == rest;
      case Some(e) => OneExtensionRead(e, rest);
    }
  }

  lemma NoExtensions()
    ensures ReadExtensionList([]) == Ok([])
  {
  }

  function ReadU16s(b: Bytes): Result<seq<U16Value>> {
    if b == [] then Ok([])
    else if |b| < 2 then Err
    else match ReadU16s(b[2..])
      case Ok(rest) => Ok([GetU16(b, 0)] + rest)
      case Err => Err
  }

  lemma {:induction false} U16sRead(values: seq<U16Value>)
    ensures ReadU16s(U16s(values)) == Ok(values)
  {
    if values != [] {
      U16sRead(values[1..]);
      FrontU16(values[0], U16s(values[1..]));
      assert values == [values[0]] + values[1..];
    }
  }

  /** Protocol names read off a list: a length byte and the name, again and again. */
  function ReadNames(b: Bytes): Result<seq<Bytes>> {
    if b == [] then Ok([])
    else if |b| < 1 + b[0] as int then Err
    else match ReadNames(b[1 + b[0] as int..])
      case Ok(rest) => Ok([b[1..1 + b[0] as int]] + rest)
      case Err => Err
  }

  lemma {:induction false} NamesRead(protocols: seq<Bytes>)
    ensures AlpnList(protocols).Ok? <==> forall i :: 0 <= i < |protocols| ==> 0 < |protocols[i]| <= 255
    ensures AlpnList(protocols).Ok? ==> ReadNames(AlpnList(protocols).value) == Ok(protocols)
  {
    if protocols != [] {
      var p, rest := protocols[0], protocols[1..];
      NamesRead(rest);
      assert forall i :: 0 < i < |protocols| ==> protocols[i] == rest[i - 1];
      if AlpnList(protocols).Ok? {
        var b := AlpnList(protocols).value;
        assert b[0] == |p| && b[1..1 + |p|] == p && b[1 + |p|..] == AlpnList(rest).value;
        assert protocols == [p] + rest;
      }
    }
  }

  /** The lists inside the extensions, each behind its length in bytes: groups, signature algorithms and
      versions as numbers, protocols as names. */
  lemma ListsRead(values: seq<U16Value>, protocols: seq<Bytes>, grease: Option<U16Value>)
    ensures U16ListPayload(values).Ok? <==> |values| < 32768
    ensures U16ListPayload(values).Ok? ==>
              var b := U16ListPayload(values).value;
              |b| == 2 + GetU16(b, 0) && ReadU16s(b[2..]) == Ok(values)
    ensures AlpnPayload(protocols).Ok? ==>
              var b := AlpnPayload(protocols).value;
              |b| == 2 + GetU16(b, 0) && ReadNames(b[2..]) == Ok(protocols)
    ensures var b := VersionsPayload(grease);
            && |b| == 1 + b[0] as int
            && ReadU16s(b[1..]) == Ok(if grease.Some? then [grease.value, 0x0304, 0x0303] else [0x0304, 0x0303])
  {
    hide U16s, AlpnList, ReadU16s, ReadNames, U16, GetU16;
    U16sRead(values);
    if 2 * |values| < 0x1_0000 { FrontU16(2 * |values|, U16s(values)); }
    NamesRead(protocols);
    if AlpnPayload(protocols).Ok? { FrontU16(|AlpnList(protocols).value|, AlpnList(protocols).value); }
    var versions := WithGrease(grease, [0x0304, 0x0303]);
    U16sRead(versions);
    assert VersionsPayload(grease)[1..] == U16s(versions);
    assert versions == if grease.Some? then [grease.value, 0x0304, 0x0303] else [0x0304, 0x0303];
  }

  /** What each extension holds, read off its payload. */
  predicate Holds(c: Context, k: Kind, payload: Bytes)
    requires |c.publicKey| == 32
  {
    match k
    case ServerName =>
      && |payload| == 5 + |c.serverName| && GetU16(payload, 0) == 3 + |c.serverName| && payload[2] == 0
      && GetU16(payload, 3) == |c.serverName| && payload[5..] == c.serverName
    case SupportedGroups =>
      |payload| >= 2 && GetU16(payload, 0) == |payload| - 2
      && ReadU16s(payload[2..]) == Ok(WithGrease(c.grease, c.profile.groups))
    case SignatureAlgorithms =>
      |payload| >= 2 && GetU16(payload, 0) == |payload| - 2 && ReadU16s(payload[2..]) == Ok(c.profile.signatures)
    case Alpn => |payload| >= 2 && GetU16(payload, 0) == |payload| - 2 && ReadNames(payload[2..]) == Ok(c.alpn)
    case SupportedVersions =>
      |payload| >= 1 && |payload| == 1 + payload[0] as int
      && ReadU16s(payload[1..])
         == Ok(if c.grease.Some? then [c.grease.value, 0x0304, 0x0303] else [0x0304, 0x0303])
    case KeyShare =>
      var share := [0, 0x1d, 0, 32] + c.publicKey;
      |payload| >= 2 && GetU16(payload, 0) == |payload| - 2
      && payload[2..] == if c.grease.Some? then U16(c.grease.value) + [0, 1, 0] + share else share
    case Padding => |payload| == c.profile.paddingLen && forall i :: 0 <= i < |payload| ==> payload[i] == 0
    case RenegotiationInfo => payload == [0]
    case EcPointFormats => payload == [1, 0]
    case StatusRequest => payload == [1, 0, 0, 0, 0]
    case PskModes => payload == [1, 1]
    case CompressCertificate => payload == [2, 0, 2]
    case _ => payload == []
  }

  lemma ContentsRead(c: Context, k: Kind)
    requires |c.publicKey| == 32 && ExtensionOf(c, k).Ok? && ExtensionOf(c, k).value.Some?
    ensures Holds(c, k, ExtensionOf(c, k).value.value.payload)
  {
    hide U16s, AlpnList, ReadU16s, ReadNames, U16, GetU16;
    match k
    case ServerName => NameRead(c.serverName);
    case SupportedGroups => ListsRead(WithGrease(c.grease, c.profile.groups), [], None);
    case SignatureAlgorithms => ListsRead(c.profile.signatures, [], None);
    case Alpn => ListsRead([], c.alpn, None);
    case SupportedVersions => ListsRead([], [], c.grease);
    case KeyShare => ShareRead(c.publicKey, c.grease);
    case _ =>
  }

  lemma NameRead(name: Bytes)
    requires ServerNamePayload(name).Ok?
    ensures var b := ServerNamePayload(name).value;
            && |b| == 5 + |name| && GetU16(b, 0) == 3 + |name| && b[2] == 0 && GetU16(b, 3) == |name|
            && b[5..] == name
  {
    var b := ServerNamePayload(name).value;
    assert b[3] == U16(|name|)[0] && b[4] == U16(|name|)[1] && b[5..] == name;
  }

  lemma ShareRead(publicKey: Bytes, grease: Option<U16Value>)
    requires |publicKey| == 32
    ensures var b, share := KeySharePayload(publicKey, grease), [0, 0x1d, 0, 32] + publicKey;
            && GetU16(b, 0) == |b| - 2
            && b[2..] == if grease.Some? then U16(grease.value) + [0, 1, 0] + share else share
  {
    var entries := KeyShareEntries(publicKey, grease);
    FrontU16(|entries|, entries);
    assert KeyShareEntry(GROUP_X25519, publicKey) == [0, 0x1d, 0, 32] + publicKey;
    if grease.Some? {
      assert KeyShareEntry(grease.value, [0]) == U16(grease.value) + [0, 1, 0];
    } else {
      assert entries == KeyShareEntry(GROUP_X25519, publicKey);
    }
  }

  // ---- the message

  function AfterSession(ciphers: seq<U16Value>, extensions: Bytes): Bytes
    requires 2 * |ciphers| < 0x1_0000 && |extensions| < 0x1_0000
  {
    (U16(2 * |ciphers|) + U16s(ciphers)) + ([1, 0] + (U16(|extensions|) + extensions))
  }

  /** A handshake message with the given session id. */
  function Handshake(random: Bytes, session: Bytes, rest: Bytes): Bytes
    requires |random| == 32 && |session| == 32 && |rest| < 0x100_0000 - 67
  {
    [1] + U24(67 + |rest|) + [3, 3] + random + [32] + session + rest
  }

  const SESSION_OFFSET: nat := 4 + 2 + 32 + 1

  function Record(handshake: Bytes): Bytes
    requires |handshake| < 0x1_0000
  {
    [22] + U16(0x0301) + U16(|handshake|) + handshake
  }

  datatype Built = Built(record: Bytes, handshake: Bytes)

  function NonBlank(name: Bytes): bool {
    exists i :: 0 <= i < |name| && !(name[i] == 0x20 || 9 <= name[i] <= 13)
  }

  /** The hello with a 32-byte session id. */
  function BuildClientHello(c: Context, random: Bytes, session: Bytes): Result<Built>
    requires |c.publicKey| == 32 && |random| == 32 && |session| == 32
  {
    if !NonBlank(c.serverName) then Err else
    var ciphers := WithGrease(c.grease, c.profile.ciphers);
    if 2 * |ciphers| >= 0x1_0000 then Err else
    match EncodeKinds(c, c.profile.extensions)
    case Err => Err
    case Ok(extensions) =>
      if |extensions| >= 0x1_0000 then Err else
      var rest := AfterSession(ciphers, extensions);
      var handshake := Handshake(random, session, rest);
      if |handshake| >= 0x1_0000 then Err else Ok(Built(Record(handshake), handshake))
  }

  /** The layout of a hello: after the record header and the handshake header the version, the random, the
      session id, the cipher suites, with GREASE in front if there is any, no compression, and the
      extensions. */
  lemma HelloLayout(c: Context, random: Bytes, session: Bytes)
    requires |c.publicKey| == 32 && |random| == 32 && |session| == 32
    requires BuildClientHello(c, random, session).Ok?
    ensures var b := BuildClientHello(c, random, session).value;
            var h, n := b.handshake, 2 * |WithGrease(c.grease, c.profile.ciphers)|;
            && b.record == [22, 3, 1] + U16(|h|) + h && h[0] == 1 && GetU24(h, 1) == |h| - 4 && h[4..6] == [3, 3]
            && h[6..38] == random && h[38] == 32 && h[39..71] == session
            && |h| >= 77 + n && GetU16(h, 71) == n
            && ReadU16s(h[73..73 + n]) == Ok(WithGrease(c.grease, c.profile.ciphers))
            && h[73 + n..75 + n] == [1, 0]
            && GetU16(h, 75 + n) == |h| - 77 - n
            && EncodeKinds(c, c.profile.extensions) == Ok(h[77 + n..])
  {
    hide EncodeKinds, NonBlank, U16s, ReadU16s, WithGrease;
    var ciphers := WithGrease(c.grease, c.profile.ciphers);
    var extensions := EncodeKinds(c, c.profile.extensions).value;
    var rest := AfterSession(ciphers, extensions);
    var h := BuildClientHello(c, random, session).value.handshake;
    U16sRead(ciphers);
    assert Record(h) == [22, 3, 1] + U16(|h|) + h;
    HandshakeLayout(random, session, rest);
    AfterSessionLayout(ciphers, extensions);
    RestOf(h, rest, 2 * |ciphers|);
  }

  lemma HandshakeLayout(random: Bytes, session: Bytes, rest: Bytes)
    requires |random| == 32 && |session| == 32 && |rest| < 0x100_0000 - 67
    ensures var h := Handshake(random, session, rest);
            && |h| == 71 + |rest| && h[0] == 1 && GetU24(h, 1) == |h| - 4 && h[4..6] == [3, 3] && h[6..38] == random
            && h[38] == 32 && h[39..71] == session && h[71..] == rest
  {
    var h := Handshake(random, session, rest);
    var length := U24(67 + |rest|);
    assert h[1] == length[0] && h[2] == length[1] && h[3] == length[2];
    assert h[4..6] == [3, 3] && h[6..38] == random && h[39..71] == session && h[71..] == rest;
  }

  lemma AfterSessionLayout(ciphers: seq<U16Value>, extensions: Bytes)
    requires 2 * |ciphers| < 0x1_0000 && |extensions| < 0x1_0000
    ensures var r, n := AfterSession(ciphers, extensions), 2 * |ciphers|;
            && |r| == 6 + n + |extensions| && GetU16(r, 0) == n && r[2..2 + n] == U16s(ciphers)
            && r[2 + n..4 + n] == [1, 0] && GetU16(r, 4 + n) == |extensions| && r[6 + n..] == extensions
  {
    hide U16s;
    var r, n := AfterSession(ciphers, extensions), 2 * |ciphers|;
    var count, length := U16(n), U16(|extensions|);
    assert r[0] == count[0] && r[1] == count[1] && r[4 + n] == length[0] && r[5 + n] == length[1];
    assert r[2..2 + n] == U16s(ciphers) && r[2 + n..4 + n] == [1, 0] && r[6 + n..] == extensions;
  }

  lemma RestOf(h: Bytes, rest: Bytes, n: nat)
    requires |h| == 71 + |rest| && h[71..] == rest && |rest| >= 6 + n
    ensures GetU16(h, 71) == GetU16(rest, 0) && GetU16(h, 75 + n) == GetU16(rest, 4 + n)
    ensures h[73..73 + n] == rest[2..2 + n] && h[73 + n..75 + n] == rest[2 + n..4 + n] && h[77 + n..] == rest[6 + n..]
  {
    assert forall i :: 0 <= i < |rest| ==> h[71 + i] == rest[i];
  }
}
