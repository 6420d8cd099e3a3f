/** Frames, and the writer that cuts and pads them. */
module AnyTls {
  import opened Common
  import opened BigEndian
  import opened Padding

  const CMD_WASTE: Byte := 0
  const CMD_SYN: Byte := 1
  const CMD_PSH: Byte := 2
  const FRAME_HEADER_LEN: nat := 7
  const MAX_FRAME_PAYLOAD_LEN: nat := 0xFFFF
  const VECTORED_FRAME_MIN_PAYLOAD: nat := 32 * 1024
  const U32_MAX: nat := 0xFFFF_FFFF

  datatype Frame = Frame(cmd: Byte, streamId: nat, payload: Bytes)

  function Header(cmd: Byte, streamId: nat, length: nat): (h: Bytes)
    requires streamId <= U32_MAX
    ensures |h| == FRAME_HEADER_LEN
  {
    [cmd] + U32(streamId) + U16(length % 0x1_0000)
  }

  /** The length field is the payload's length cut to 16 bits. */
  function EncodeFrame(f: Frame): Bytes
    requires f.streamId <= U32_MAX
  {
    Header(f.cmd, f.streamId, |f.payload|) + f.payload
  }

  function Waste(n: nat): Frame {
    Frame(CMD_WASTE, 0, Zeros(n))
  }

  // ---- reading

  datatype ReadResult = Incomplete | Got(frame: Frame, rest: Bytes)

  function ReadFrame(b: Bytes): (r: ReadResult)
    ensures r.Got? ==> |r.rest| < |b|
  {
    if |b| < FRAME_HEADER_LEN then Incomplete else
    var n := GetU16(b, 5);
    if |b| < FRAME_HEADER_LEN + n then Incomplete
    else Got(Frame(b[0], GetU32(b, 1), b[7..7 + n]), b[7 + n..])
  }

  /** All frames of a byte stream, up to the first that is not there whole. */
  function Frames(b: Bytes): seq<Frame> {
    match ReadFrame(b)
    case Incomplete => []
    case Got(f, rest) => [f] + Frames(rest)
  }

  lemma FrameReadBack(f: Frame, rest: Bytes)
    requires f.streamId <= U32_MAX && |f.payload| <= MAX_FRAME_PAYLOAD_LEN
    ensures ReadFrame(EncodeFrame(f) + rest) == Got(f, rest)
  {
  }

  /** The layout of a frame: command, stream and length in network byte order, and the payload. */
  lemma FrameLayout(f: Frame)
    requires f.streamId <= U32_MAX
    ensures var b := EncodeFrame(f);
            && |b| == 7 + |f.payload| && b[0] == f.cmd && b[7..] == f.payload
            && Fold(0, b[1..5]) == f.streamId && 256 * (b[5] as int) + b[6] == |f.payload| % 65536
  {
    var b := EncodeFrame(f);
    assert b[1..5] == U32(f.streamId) && b[7..] == f.payload;
    FoldU32(0, f.streamId);
  }

  /** A frame is read exactly if the stream starts with its encoding, of up to 65535 bytes of payload. */
  lemma FrameReadExactly(b: Bytes, f: Frame, rest: Bytes)
    ensures ReadFrame(b) == Got(f, rest)
            <==> f.streamId <= U32_MAX && |f.payload| <= MAX_FRAME_PAYLOAD_LEN && b == EncodeFrame(f) + rest
  {
    if ReadFrame(b) == Got(f, rest) {
      HeaderBack(b);
      hide GetU16, GetU32, Header;
      SplitSlice(b, 0, 7);
      SplitSlice(b, 7, 7 + GetU16(b, 5));
      Associative(b[..7], f.payload, rest);
    } else if f.streamId <= U32_MAX && |f.payload| <= MAX_FRAME_PAYLOAD_LEN {
      hide ReadFrame;
      FrameReadBack(f, rest);
    }
  }

  lemma HeaderBack(b: Bytes)
    requires |b| >= 7
    ensures Header(b[0], GetU32(b, 1), GetU16(b, 5)) == b[..7]
  {
    U16Back(b, 5);
    U32Back(b, 1);
  }

  /** However little of the stream has arrived, the frames read so far are a prefix of all. */
  lemma {:induction false} FramesOfPrefix(b: Bytes, k: nat)
    requires k <= |b|
    ensures Frames(b[..k]) <= Frames(b)
    decreases |b|
  {
    hide ReadFrame;
    if ReadFrame(b[..k]).Got? {
      ReadOfPrefix(b, k);
      FramesOfPrefix(ReadFrame(b).rest, |ReadFrame(b[..k]).rest|);
    }
  }

  lemma ReadOfPrefix(b: Bytes, k: nat)
    requires k <= |b| && ReadFrame(b[..k]).Got?
    ensures ReadFrame(b).Got? && ReadFrame(b).frame == ReadFrame(b[..k]).frame
    ensures |ReadFrame(b[..k]).rest| <= |ReadFrame(b).rest| < |b|
    ensures ReadFrame(b[..k]).rest == ReadFrame(b).rest[..|ReadFrame(b[..k]).rest|]
  {
    var p := b[..k];
    SameFields(b, k);
    hide GetU16, GetU32;
    var n := GetU16(p, 5);
    assert p[7..7 + n] == b[7..7 + n];
    assert p[7 + n..] == b[7 + n..][..k - (7 + n)];
  }

  lemma SameFields(b: Bytes, k: nat)
    requires 7 <= k <= |b|
    ensures GetU16(b[..k], 5) == GetU16(b, 5) && GetU32(b[..k], 1) == GetU32(b, 1)
  {
  }

  // ---- one packet, cut and padded

  /** The records the writer puts out for a packet and the sizes drawn for it, one by one. */
  function Records(payload: Bytes, sizes: seq<int>): seq<Bytes>
    decreases |sizes|
  {
    if sizes == [] then (if payload == [] then [] else [payload])
    else if sizes[0] < 0 then (if payload == [] then [] else Records(payload, sizes[1..]))
    else if |payload| > sizes[0] then [payload[..sizes[0]]] + Records(payload[sizes[0]..], sizes[1..])
    else if payload != [] then [LastPiece(payload, sizes[0])] + Records([], sizes[1..])
    else [EncodeFrame(Waste(sizes[0]))] + Records([], sizes[1..])
  }

  function Emit(payload: Bytes, sizes: seq<int>): Bytes {
    Concat(Records(payload, sizes))
  }

  /** What is emitted at the first size. */
  lemma EmitStep(payload: Bytes, sizes: seq<int>)
    ensures sizes == [] ==> Emit(payload, sizes) == payload
    ensures sizes != [] && sizes[0] < 0 ==>
              Emit(payload, sizes) == if payload == [] then [] else Emit(payload, sizes[1..])
    ensures sizes != [] && 0 <= sizes[0] < |payload| ==>
              Emit(payload, sizes) == payload[..sizes[0]] + Emit(payload[sizes[0]..], sizes[1..])
    ensures sizes != [] && |payload| <= sizes[0] ==>
              Emit(payload, sizes)
              == (if payload == [] then EncodeFrame(Waste(sizes[0])) else LastPiece(payload, sizes[0]))
                 + Emit([], sizes[1..])
  {
    hide EncodeFrame, LastPiece;
    if sizes == [] {
      ConcatCons(payload, []);
      assert [payload] + [] == [payload];
    } else if 0 <= sizes[0] < |payload| {
      ConcatCons(payload[..sizes[0]], Records(payload[sizes[0]..], sizes[1..]));
    } else if sizes[0] >= 0 {
      ConcatCons(if payload == [] then EncodeFrame(Waste(sizes[0])) else LastPiece(payload, sizes[0]),
                 Records([], sizes[1..]));
    }
  }

  /** The end of a packet, filled up to a size if there is room for a waste frame. */
  function LastPiece(payload: Bytes, size: nat): Bytes {
    if size > |payload| + FRAME_HEADER_LEN
    then payload + EncodeFrame(Waste(size - |payload| - FRAME_HEADER_LEN)) else payload
  }

  /** The lengths of the waste frames among it; only the length of the packet matters. */
  function Wastes(length: nat, sizes: seq<int>): seq<nat>
    decreases |sizes|
  {
    if sizes == [] then []
    else if sizes[0] < 0 then (if length == 0 then [] else Wastes(length, sizes[1..]))
    else if length > sizes[0] then Wastes(length - sizes[0], sizes[1..])
    else if length > 0 then Filler(length, sizes[0]) + Wastes(0, sizes[1..])
    else [sizes[0]] + Wastes(0, sizes[1..])
  }

  function Filler(length: nat, size: nat): seq<nat> {
    if size > length + FRAME_HEADER_LEN then [size - length - FRAME_HEADER_LEN] else []
  }

  function WasteBytes(ws: seq<nat>): Bytes {
    if ws == [] then [] else EncodeFrame(Waste(ws[0])) + WasteBytes(ws[1..])
  }

  lemma {:induction false} WasteBytesAppend(a: seq<nat>, b: seq<nat>)
    ensures WasteBytes(a + b) == WasteBytes(a) + WasteBytes(b)
  {
    if a == [] {
      assert a + b == b;
    } else {
      assert (a + b)[0] == a[0] && (a + b)[1..] == a[1..] + b;
      WasteBytesAppend(a[1..], b);
    }
  }

  /** Cutting moves no byte: what is emitted is the packet itself and then waste frames alone. */
  lemma {:induction false} EmitIsPacketThenWaste(payload: Bytes, sizes: seq<int>)
    ensures Emit(payload, sizes) == payload + WasteBytes(Wastes(|payload|, sizes))
    decreases |sizes|
  {
    hide Emit;
    EmitStep(payload, sizes);
    if sizes != [] {
      var s := sizes[0];
      if s < 0 {
        if payload != [] { EmitIsPacketThenWaste(payload, sizes[1..]); }
      } else if |payload| > s {
        EmitIsPacketThenWaste(payload[s..], sizes[1..]);
        CutStep(payload, sizes);
      } else {
        EmitIsPacketThenWaste([], sizes[1..]);
        hide Wastes, WasteBytes;
        assert [] + WasteBytes(Wastes(0, sizes[1..])) == WasteBytes(Wastes(0, sizes[1..]));
        assert [] + WasteBytes(Wastes(0, sizes)) == WasteBytes(Wastes(0, sizes));
        if payload == [] { FillEmpty(sizes); } else { FillLast(payload, sizes); }
      }
    }
  }

  lemma CutStep(payload: Bytes, sizes: seq<int>)
    requires sizes != [] && 0 <= sizes[0] < |payload|
    requires Emit(payload[sizes[0]..], sizes[1..])
          == payload[sizes[0]..] + WasteBytes(Wastes(|payload| - sizes[0], sizes[1..]))
    ensures Emit(payload, sizes) == payload + WasteBytes(Wastes(|payload|, sizes))
  {
    hide Emit, Wastes, WasteBytes;
    CutUnfolds(payload, sizes);
    CutRejoins(payload, sizes[0], WasteBytes(Wastes(|payload| - sizes[0], sizes[1..])));
  }

  lemma CutRejoins(payload: Bytes, s: nat, waste: Bytes)
    requires s <= |payload|
    ensures payload[..s] + (payload[s..] + waste) == payload + waste
  {
  }

  lemma CutUnfolds(payload: Bytes, sizes: seq<int>)
    requires sizes != [] && 0 <= sizes[0] < |payload|
    ensures Emit(payload, sizes) == payload[..sizes[0]] + Emit(payload[sizes[0]..], sizes[1..])
    ensures Wastes(|payload|, sizes) == Wastes(|payload| - sizes[0], sizes[1..])
  {
    hide Emit;
    EmitStep(payload, sizes);
  }

  lemma FillEmpty(sizes: seq<int>)
    requires sizes != [] && sizes[0] >= 0 && Emit([], sizes[1..]) == WasteBytes(Wastes(0, sizes[1..]))
    ensures Emit([], sizes) == WasteBytes(Wastes(0, sizes))
  {
    hide Emit;
    EmitStep([], sizes);
  }

  lemma LastPieceIsFilled(payload: Bytes, size: nat)
    ensures LastPiece(payload, size) == payload + WasteBytes(Filler(|payload|, size))
  {
  }

  lemma LastStep(payload: Bytes, sizes: seq<int>)
    requires sizes != [] && payload != [] && |payload| <= sizes[0]
    ensures Emit(payload, sizes) == LastPiece(payload, sizes[0]) + Emit([], sizes[1..])
    ensures Wastes(|payload|, sizes) == Filler(|payload|, sizes[0]) + Wastes(0, sizes[1..])
  {
    hide Emit;
    EmitStep(payload, sizes);
  }

  lemma FillLast(payload: Bytes, sizes: seq<int>)
    requires sizes != [] && payload != [] && |payload| <= sizes[0]
    requires Emit([], sizes[1..]) == WasteBytes(Wastes(0, sizes[1..]))
    ensures Emit(payload, sizes) == payload + WasteBytes(Wastes(|payload|, sizes))
  {
    hide Emit, Wastes, LastPiece, Filler, WasteBytes;
    var filler, later := Filler(|payload|, sizes[0]), Wastes(0, sizes[1..]);
    LastStep(payload, sizes);
    LastPieceIsFilled(payload, sizes[0]);
    WasteBytesAppend(filler, later);
    Associative(payload, WasteBytes(filler), WasteBytes(later));
  }

  // ---- the sizes of the records

  /** The sizes drawn, checkpoints aside. */
  function Cuts(sizes: seq<int>): seq<nat> {
    if sizes == [] then [] else (if sizes[0] < 0 then [] else [sizes[0] as nat]) + Cuts(sizes[1..])
  }

  function Sum(ns: seq<nat>): nat {
    if ns == [] then 0 else ns[0] + Sum(ns[1..])
  }

  /** One record, for a packet of which `from` bytes are out and the size next in turn, if there is one. */
  predicate RecordFits(payload: Bytes, from: nat, size: Option<nat>, record: Bytes) {
    match size
    case None => from < |payload| && record == payload[from..]
    case Some(n) =>
      if from + n < |payload| then record == payload[from..from + n]
      else if from < |payload| then
        && payload[from..] <= record
        && |record| == if n > |payload| - from + 7 then n else |payload| - from
      else |record| == n + 7
  }

  function SizeInTurn(cuts: seq<nat>, i: nat): Option<nat> {
    if i < |cuts| then Some(cuts[i]) else None
  }

  /** For every packet and all sizes: record i is the piece of the packet after the first i sizes, of exactly
      the size next in turn; the last piece is filled up to exactly that size if a waste frame fits
      beside it, and is alone if not; after the packet come waste frames with that many bytes. */
  lemma {:induction false} RecordSizes(payload: Bytes, sizes: seq<int>, i: nat)
    requires i < |Records(payload, sizes)|
    ensures i <= |Cuts(sizes)|
    ensures RecordFits(payload, Sum(Cuts(sizes)[..i]), SizeInTurn(Cuts(sizes), i), Records(payload, sizes)[i])
    decreases |sizes|
  {
    hide RecordFits, EncodeFrame, LastPiece, Sum;
    if sizes == [] {
      AloneFits(payload);
    } else if sizes[0] < 0 {
      assert [] + Cuts(sizes[1..]) == Cuts(sizes[1..]);
      RecordSizes(payload, sizes[1..], i);
    } else if i == 0 {
      FirstFits(payload, sizes[0]);
    } else {
      var size, later := sizes[0] as nat, Cuts(sizes[1..]);
      var left := if |payload| > size then payload[size..] else [];
      RecordSizes(left, sizes[1..], i - 1);
      CutsInTurn(size, later, i);
      FitsLater(payload, size, Sum(later[..i - 1]), SizeInTurn(later, i - 1), Records(left, sizes[1..])[i - 1]);
    }
  }

  lemma CutsInTurn(size: nat, later: seq<nat>, i: nat)
    requires 0 < i <= |later| + 1
    ensures Sum(([size] + later)[..i]) == size + Sum(later[..i - 1])
    ensures SizeInTurn([size] + later, i) == SizeInTurn(later, i - 1)
  {
    assert ([size] + later)[..i] == [size] + later[..i - 1];
    assert ([size] + later[..i - 1])[1..] == later[..i - 1];
  }

  lemma AloneFits(payload: Bytes)
    ensures payload != [] ==> RecordFits(payload, Sum([]), None, payload)
  {
    assert payload[0..] == payload;
  }

  lemma FirstFits(payload: Bytes, size: nat)
    ensures RecordFits(payload, Sum([]), Some(size),
                       if |payload| > size then payload[..size]
                       else if payload != [] then LastPiece(payload, size)
                       else EncodeFrame(Waste(size)))
  {
    assert payload[0..] == payload;
  }

  lemma FitsLater(payload: Bytes, size: nat, from: nat, next: Option<nat>, record: Bytes)
    requires RecordFits(if |payload| > size then payload[size..] else [], from, next, record)
    ensures RecordFits(payload, size + from, next, record)
  {
    if |payload| > size + from {
      assert payload[size..][from..] == payload[size + from..];
      if next.Some? && size + from + next.value < |payload| {
        assert payload[size..][from..from + next.value] == payload[size + from..size + from + next.value];
      }
    }
  }

  /** Without checkpoints there is a record for each size, and one more for what the sizes do not cover. */
  lemma {:induction false} RecordCount(payload: Bytes, sizes: seq<int>)
    requires forall i :: 0 <= i < |sizes| ==> sizes[i] >= 0
    ensures |Records(payload, sizes)| == |sizes| + if Sum(Cuts(sizes)) < |payload| then 1 else 0
    decreases |sizes|
  {
    hide EncodeFrame, LastPiece;
    if sizes != [] {
      RecordCount(if |payload| > sizes[0] then payload[sizes[0]..] else [], sizes[1..]);
      assert Cuts(sizes)[1..] == Cuts(sizes[1..]);
    }
  }

  /** A checkpoint ends the padding exactly if the sizes before it cover the packet; otherwise it does nothing. */
  lemma {:induction false} CheckpointExactly(payload: Bytes, a: seq<int>, b: seq<int>)
    ensures Records(payload, a + [CHECKPOINT] + b)
         == if Sum(Cuts(a)) >= |payload| then Records(payload, a) else Records(payload, a + b)
    decreases |a|
  {
    hide EncodeFrame, LastPiece;
    var all := a + [CHECKPOINT] + b;
    if a == [] {
      assert all[0] == CHECKPOINT && all[1..] == b && a + b == b;
    } else {
      assert all[0] == a[0] && all[1..] == a[1..] + [CHECKPOINT] + b;
      assert (a + b)[0] == a[0] && (a + b)[1..] == a[1..] + b;
      assert a[0] < 0 ==> Cuts(a) == Cuts(a[1..]);
      assert a[0] >= 0 ==> Cuts(a)[0] == a[0] && Cuts(a)[1..] == Cuts(a[1..]);
      CheckpointExactly(if a[0] < 0 then payload else if |payload| > a[0] then payload[a[0]..] else [], a[1..], b);
    }
  }

  // ---- padding that the reader does not see

  /** The frames a reader drops and that belong to no stream. */
  predicate IsFiller(f: Frame) {
    f.cmd == CMD_WASTE && f.streamId == 0
  }

  /** Filler frames, and then the others. */
  predicate FillersThen(frames: seq<Frame>, others: seq<Frame>) {
    && |others| <= |frames| && frames[|frames| - |others|..] == others
    && forall i :: 0 <= i < |frames| - |others| ==> IsFiller(frames[i])
  }

  /** Bytes are invisible if the reader gets past them, whatever follows, with nothing but fillers. */
  ghost predicate Invisible(b: Bytes) {
    forall rest :: FillersThen(Frames(b + rest), Frames(rest))
  }

  /** The bytes taken alone: filler frames up to the last byte. A writer can tell before it writes. */
  predicate OnlyFiller(b: Bytes) {
    b == []
    || (match ReadFrame(b)
        case Incomplete => false
        case Got(f, rest) => IsFiller(f) && OnlyFiller(rest))
  }

  lemma ReadMore(b: Bytes, c: Bytes)
    requires ReadFrame(b).Got?
    ensures ReadFrame(b + c) == Got(ReadFrame(b).frame, ReadFrame(b).rest + c)
  {
    var n := GetU16(b, 5);
    assert (b + c)[..|b|] == b;
    SameFields(b + c, |b|);
    assert (b + c)[7..7 + n] == b[7..7 + n] && (b + c)[7 + n..] == b[7 + n..] + c;
  }

  lemma {:induction false} OnlyFillerPassed(b: Bytes, rest: Bytes)
    requires OnlyFiller(b)
    ensures FillersThen(Frames(b + rest), Frames(rest))
    decreases |b|
  {
    hide ReadFrame;
    if b == [] {
      assert b + rest == rest;
    } else {
      ReadMore(b, rest);
      OnlyFillerPassed(ReadFrame(b).rest, rest);
      FillerFirst(ReadFrame(b).frame, Frames(ReadFrame(b).rest + rest), Frames(rest));
    }
  }

  lemma FillerFirst(f: Frame, frames: seq<Frame>, others: seq<Frame>)
    requires IsFiller(f) && FillersThen(frames, others)
    ensures FillersThen([f] + frames, others)
  {
    var all := [f] + frames;
    assert all[|all| - |others|..] == frames[|frames| - |others|..];
  }

  /** The frames that are not fillers. */
  function Kept(frames: seq<Frame>): seq<Frame> {
    if frames == [] then [] else (if IsFiller(frames[0]) then [] else [frames[0]]) + Kept(frames[1..])
  }

  lemma KeptFirst(f: Frame, frames: seq<Frame>)
    ensures Kept([f] + frames) == (if IsFiller(f) then [] else [f]) + Kept(frames)
  {
    assert ([f] + frames)[1..] == frames;
  }

  lemma {:induction false} KeptAfterFillers(frames: seq<Frame>, others: seq<Frame>)
    requires FillersThen(frames, others)
    ensures Kept(frames) == Kept(others)
    decreases |frames|
  {
    if |frames| == |others| {
      assert frames == others;
    } else {
      assert IsFiller(frames[0]);
      forall i | 0 <= i < |frames[1..]| - |others| ensures IsFiller(frames[1..][i]) {
        assert frames[i + 1] == frames[1..][i];
      }
      KeptAfterFillers(frames[1..], others);
    }
  }

  /** A frame whose first byte differs from a given one. */
  function Probe(b: Byte): Frame {
    Frame(if b == CMD_PSH then CMD_SYN else CMD_PSH, 1, [])
  }

  lemma ProbeFrames(b: Byte)
    ensures Frames(EncodeFrame(Probe(b))) == [Probe(b)] && |EncodeFrame(Probe(b))| == FRAME_HEADER_LEN
  {
    var e := EncodeFrame(Probe(b));
    FrameReadBack(Probe(b), []);
    assert e + [] == e && |Header(Probe(b).cmd, 1, 0)| == 7;
    hide ReadFrame;
    ShortStream([]);
  }

  lemma ShortStream(b: Bytes)
    requires |b| < FRAME_HEADER_LEN
    ensures Frames(b) == []
  {
  }

  /** A frame that is cut off ends in what follows it. */
  lemma CutFrameEndsLater(b: Bytes, c: Bytes)
    requires b != [] && ReadFrame(b).Incomplete? && ReadFrame(b + c).Got?
    ensures |ReadFrame(b + c).rest| < |c| && ReadFrame(b + c).frame.cmd == b[0]
  {
    var all := b + c;
    assert all[0] == b[0];
    if |b| >= 7 {
      assert all[..|b|] == b;
      SameFields(all, |b|);
    }
    hide GetU16, GetU32;
  }

  /** So it takes in a frame that follows it. */
  lemma CutFrameTakesNext(b: Bytes)
    requires b != [] && ReadFrame(b).Incomplete?
    ensures Kept(Frames(b + EncodeFrame(Probe(b[0])))) != [Probe(b[0])]
  {
    hide EncodeFrame, ReadFrame;
    var e := EncodeFrame(Probe(b[0]));
    ProbeFrames(b[0]);
    if ReadFrame(b + e).Got? {
      CutFrameEndsLater(b, e);
      ShortStream(ReadFrame(b + e).rest);
      KeptFirst(ReadFrame(b + e).frame, []);
    }
  }

  /** Padding of any other kind is seen before some continuation. */
  lemma {:induction false} VisibleSomehow(b: Bytes) returns (rest: Bytes)
    requires !OnlyFiller(b)
    ensures Kept(Frames(b + rest)) != Kept(Frames(rest))
    decreases |b|
  {
    hide ReadFrame, EncodeFrame;
    match ReadFrame(b)
    case Incomplete =>
      rest := EncodeFrame(Probe(b[0]));
      ProbeFrames(b[0]);
      KeptFirst(Probe(b[0]), []);
      CutFrameTakesNext(b);
    case Got(f, tail) =>
      if IsFiller(f) {
        rest := VisibleSomehow(tail);
      } else {
        rest := [];
        ShortStream([]);
      }
      ReadMore(b, rest);
      KeptFirst(f, Frames(tail + rest));
  }

  /** Padding is invisible before every continuation if and only if it is, taken alone, filler frames up
      to its last byte. */
  lemma InvisibleExactly(b: Bytes)
    ensures Invisible(b) <==> OnlyFiller(b)
  {
    hide Frames, OnlyFiller, FillersThen;
    if OnlyFiller(b) {
      forall rest ensures FillersThen(Frames(b + rest), Frames(rest)) { OnlyFillerPassed(b, rest); }
    } else {
      var rest := VisibleSomehow(b);
      if FillersThen(Frames(b + rest), Frames(rest)) { KeptAfterFillers(Frames(b + rest), Frames(rest)); }
    }
  }

  // ---- one waste frame

  /** Zero bytes read as empty waste frames, seven bytes each. */
  lemma {:induction false} ZerosAreFiller(k: nat)
    ensures OnlyFiller(Zeros(k)) <==> k % 7 == 0
  {
    hide ReadFrame;
    ZerosRead(k);
    if k >= 7 { ZerosAreFiller(k - 7); }
  }

  lemma ZerosRead(k: nat)
    ensures k >= 7 ==> ReadFrame(Zeros(k)) == Got(Frame(0, 0, []), Zeros(k - 7))
    ensures k < 7 ==> ReadFrame(Zeros(k)).Incomplete?
  {
    var b := Zeros(k);
    if k >= 7 {
      assert b[0] == 0 && b[1] == 0 && b[2] == 0 && b[3] == 0 && b[4] == 0 && b[5] == 0 && b[6] == 0;
      assert b[7..] == Zeros(k - 7) && b[7..7] == [];
    }
  }

  lemma WasteSplits(n: nat)
    ensures EncodeFrame(Waste(n)) == EncodeFrame(Waste(n % 0x1_0000)) + Zeros(n / 0x1_0000 * 0x1_0000)
  {
  }

  /** A waste frame reads as one of its length modulo 65536, and leaves the excess zeros behind. */
  lemma WasteRead(n: nat, rest: Bytes)
    ensures ReadFrame(EncodeFrame(Waste(n)) + rest)
         == Got(Waste(n % 0x1_0000), Zeros(n / 0x1_0000 * 0x1_0000) + rest)
  {
    var m, excess := n % 0x1_0000, Zeros(n / 0x1_0000 * 0x1_0000);
    WasteSplits(n);
    FrameReadBack(Waste(m), excess + rest);
    hide EncodeFrame, ReadFrame;
    Associative(EncodeFrame(Waste(m)), excess, rest);
  }

  /** The numeric form for one waste frame: always invisible below 65536 bytes, and beyond that only if
      its length has a multiple of seven in its 65536s place. */
  lemma HarmlessExactly(n: nat)
    ensures OnlyFiller(EncodeFrame(Waste(n))) <==> (n / 0x1_0000) % 7 == 0
    ensures Invisible(EncodeFrame(Waste(n))) <==> (n / 0x1_0000) % 7 == 0
  {
    hide EncodeFrame, ReadFrame, Zeros;
    var q := n / 0x1_0000;
    var e := EncodeFrame(Waste(n));
    WasteRead(n, []);
    assert e + [] == e && Zeros(q * 0x1_0000) + [] == Zeros(q * 0x1_0000);
    ZerosAreFiller(q * 0x1_0000);
    SevensInExcess(q);
    assert e != [] by { WasteNotEmpty(n); }
    hide OnlyFiller;
    InvisibleExactly(e);
  }

  lemma SevensInExcess(q: nat)
    ensures (q * 0x1_0000) % 7 == 0 <==> q % 7 == 0
  {
    assert q * 0x1_0000 == 7 * (9362 * q) + 2 * q;
  }

  lemma WasteNotEmpty(n: nat)
    ensures EncodeFrame(Waste(n)) != []
  {
  }

  lemma {:induction false} OnlyFillerAppend(a: Bytes, b: Bytes)
    requires OnlyFiller(a) && OnlyFiller(b)
    ensures OnlyFiller(a + b)
    decreases |a|
  {
    hide ReadFrame;
    if a == [] {
      assert a + b == b;
    } else {
      ReadMore(a, b);
      OnlyFillerAppend(ReadFrame(a).rest, b);
    }
  }

  predicate AllHarmless(ws: seq<nat>) {
    forall i :: 0 <= i < |ws| ==> (ws[i] / 0x1_0000) % 7 == 0
  }

  lemma {:induction false} HarmlessWastes(ws: seq<nat>)
    requires AllHarmless(ws)
    ensures OnlyFiller(WasteBytes(ws))
  {
    hide OnlyFiller, EncodeFrame;
    if ws == [] {
      NothingIsFiller();
    } else {
      HarmlessExactly(ws[0]);
      HarmlessWastes(ws[1..]);
      OnlyFillerAppend(EncodeFrame(Waste(ws[0])), WasteBytes(ws[1..]));
    }
  }

  lemma NothingIsFiller()
    ensures OnlyFiller([])
  {
  }

  /** Sizes within 16 bits give harmless waste only. */
  lemma {:induction false} SmallSizesAreHarmless(length: nat, sizes: seq<int>)
    requires forall i :: 0 <= i < |sizes| ==> sizes[i] < 0x1_0000
    ensures AllHarmless(Wastes(length, sizes))
    decreases |sizes|
  {
    if sizes != [] {
      var s := sizes[0];
      if s < 0 {
        SmallSizesAreHarmless(length, sizes[1..]);
      } else if length > s {
        SmallSizesAreHarmless(length - s, sizes[1..]);
      } else {
        SmallSizesAreHarmless(0, sizes[1..]);
      }
    }
  }

  /** What is added to a packet of some length when it is cut at some sizes. */
  function PaddingOf(length: nat, sizes: seq<int>): Bytes {
    WasteBytes(Wastes(length, sizes))
  }

  /** A write is seen as the frame written and then fillers, whatever follows it. */
  ghost predicate SeenAsWritten(f: Frame, sizes: seq<int>)
    requires f.streamId <= U32_MAX
  {
    forall rest :: var frames := Frames(Emit(EncodeFrame(f), sizes) + rest);
                   frames != [] && frames[0] == f && FillersThen(frames[1..], Frames(rest))
  }

  lemma FramesOfWrite(f: Frame, sizes: seq<int>, rest: Bytes)
    requires f.streamId <= U32_MAX && |f.payload| <= MAX_FRAME_PAYLOAD_LEN
    ensures Frames(Emit(EncodeFrame(f), sizes) + rest) == [f] + Frames(PaddingOf(|EncodeFrame(f)|, sizes) + rest)
  {
    hide EncodeFrame, ReadFrame, Emit;
    var e, padding := EncodeFrame(f), PaddingOf(|EncodeFrame(f)|, sizes);
    EmitIsPacketThenWaste(e, sizes);
    Associative(e, padding, rest);
    FrameReadBack(f, padding + rest);
  }

  /** For every frame and all sizes: the write is seen as written before every continuation if and only
      if its padding is, taken alone, filler frames up to its last byte. */
  lemma SeenExactly(f: Frame, sizes: seq<int>)
    requires f.streamId <= U32_MAX && |f.payload| <= MAX_FRAME_PAYLOAD_LEN
    ensures SeenAsWritten(f, sizes) <==> OnlyFiller(PaddingOf(|EncodeFrame(f)|, sizes))
  {
    hide EncodeFrame, Frames, Emit, FillersThen, OnlyFiller, PaddingOf;
    var padding := PaddingOf(|EncodeFrame(f)|, sizes);
    InvisibleExactly(padding);
    forall rest
      ensures var frames := Frames(Emit(EncodeFrame(f), sizes) + rest);
              frames != [] && frames[0] == f && frames[1..] == Frames(padding + rest)
    {
      FramesOfWrite(f, sizes, rest);
    }
    if SeenAsWritten(f, sizes) {
      forall rest ensures FillersThen(Frames(padding + rest), Frames(rest)) {
        var frames := Frames(Emit(EncodeFrame(f), sizes) + rest);
        assert frames[1..] == Frames(padding + rest);
      }
    }
  }

  // ---- the frames that are not waste

  function Useful(frames: seq<Frame>): seq<Frame> {
    if frames == [] then []
    else (if frames[0].cmd == CMD_WASTE then [] else [frames[0]]) + Useful(frames[1..])
  }

  lemma {:induction false} UsefulAppend(a: seq<Frame>, b: seq<Frame>)
    ensures Useful(a + b) == Useful(a) + Useful(b)
  {
    if a == [] {
      assert a + b == b;
    } else {
      assert (a + b)[0] == a[0] && (a + b)[1..] == a[1..] + b;
      UsefulAppend(a[1..], b);
    }
  }

  // ---- a whole session

  datatype Writer = Writer(padding: Scheme, packetCounter: nat, sendPadding: bool)

  /** One call on the writer: a frame, with the sizes that will be drawn, or a new scheme. */
  datatype Op = Write(frame: Frame, sizes: seq<int>) | NewScheme(scheme: Scheme)

  function NextPacket(w: Writer): nat {
    Min(w.packetCounter + 1, U32_MAX)
  }

  predicate Pads(w: Writer) {
    w.sendPadding && NextPacket(w) < w.padding.stop
  }

  function AfterOp(w: Writer, op: Op): Writer {
    match op
    case NewScheme(s) => w.(padding := s)
    case Write(_, _) =>
      if !w.sendPadding then w
      else w.(packetCounter := NextPacket(w), sendPadding := NextPacket(w) < w.padding.stop)
  }

  function Emitted(w: Writer, op: Op): Bytes
    requires op.Write? ==> op.frame.streamId <= U32_MAX
  {
    match op
    case NewScheme(_) => []
    case Write(f, sizes) => if Pads(w) then Emit(EncodeFrame(f), sizes) else EncodeFrame(f)
  }

  ghost predicate ValidOp(w: Writer, op: Op) {
    match op
    case NewScheme(s) => ValidScheme(s)
    case Write(f, sizes) =>
      f.streamId <= U32_MAX && |f.payload| <= MAX_FRAME_PAYLOAD_LEN
      && (Pads(w) && ValidScheme(w.padding) ==> Drawn(w.padding, NextPacket(w), sizes))
  }

  ghost predicate ValidOps(w: Writer, ops: seq<Op>)
    decreases |ops|
  {
    ops == [] || (ValidOp(w, ops[0]) && ValidOps(AfterOp(w, ops[0]), ops[1..]))
  }

  function Output(w: Writer, ops: seq<Op>): Bytes
    requires forall i :: 0 <= i < |ops| ==> ops[i].Write? ==> ops[i].frame.streamId <= U32_MAX
    decreases |ops|
  {
    if ops == [] then [] else Emitted(w, ops[0]) + Output(AfterOp(w, ops[0]), ops[1..])
  }

  function Written(ops: seq<Op>): seq<Frame> {
    if ops == [] then [] else (if ops[0].Write? then [ops[0].frame] else []) + Written(ops[1..])
  }

  /** The padding of each padded write is filler frames up to its last byte. */
  predicate FillsCleanly(w: Writer, ops: seq<Op>)
    requires forall i :: 0 <= i < |ops| ==> ops[i].Write? ==> ops[i].frame.streamId <= U32_MAX
    decreases |ops|
  {
    ops == []
    || (&& (ops[0].Write? && Pads(w) ==> OnlyFiller(PaddingOf(|EncodeFrame(ops[0].frame)|, ops[0].sizes)))
        && FillsCleanly(AfterOp(w, ops[0]), ops[1..]))
  }

  /** The frames read are the frames written, in order, with fillers put in between. */
  predicate Padded(written: seq<Frame>, read: seq<Frame>)
    decreases |read|
  {
    if read == [] then written == []
    else (written != [] && read[0] == written[0] && Padded(written[1..], read[1..]))
         || (IsFiller(read[0]) && Padded(written, read[1..]))
  }

  lemma {:induction false} FillersArePadding(written: seq<Frame>, frames: seq<Frame>, others: seq<Frame>)
    requires FillersThen(frames, others) && Padded(written, others)
    ensures Padded(written, frames)
    decreases |frames|
  {
    if |frames| == |others| {
      assert frames == others;
    } else {
      assert IsFiller(frames[0]);
      forall i | 0 <= i < |frames[1..]| - |others| ensures IsFiller(frames[1..][i]) {
        assert frames[i + 1] == frames[1..][i];
      }
      FillersArePadding(written, frames[1..], others);
    }
  }

  lemma {:induction false} PaddedUseful(written: seq<Frame>, read: seq<Frame>)
    requires Padded(written, read)
    ensures Useful(read) == Useful(written)
    decreases |read|
  {
    if read != [] {
      if written != [] && read[0] == written[0] && Padded(written[1..], read[1..]) {
        PaddedUseful(written[1..], read[1..]);
      } else {
        PaddedUseful(written, read[1..]);
      }
    }
  }

  lemma OneOp(w: Writer, op: Op, rest: Bytes)
    requires op.Write? && op.frame.streamId <= U32_MAX && |op.frame.payload| <= MAX_FRAME_PAYLOAD_LEN
    requires Pads(w) ==> OnlyFiller(PaddingOf(|EncodeFrame(op.frame)|, op.sizes))
    ensures var frames := Frames(Emitted(w, op) + rest);
            frames != [] && frames[0] == op.frame && FillersThen(frames[1..], Frames(rest))
  {
    hide EncodeFrame, ReadFrame, Emit, OnlyFiller, PaddingOf, Frames;
    if Pads(w) {
      FramesOfWrite(op.frame, op.sizes, rest);
      OnlyFillerPassed(PaddingOf(|EncodeFrame(op.frame)|, op.sizes), rest);
    } else {
      FramesOfPlainWrite(op.frame, rest);
    }
  }

  lemma FramesOfPlainWrite(f: Frame, rest: Bytes)
    requires f.streamId <= U32_MAX && |f.payload| <= MAX_FRAME_PAYLOAD_LEN
    ensures Frames(EncodeFrame(f) + rest) == [f] + Frames(rest)
  {
    FrameReadBack(f, rest);
    hide ReadFrame, EncodeFrame;
  }

  lemma {:induction false} ValidOpsFit(w: Writer, ops: seq<Op>, i: nat)
    requires ValidOps(w, ops) && i < |ops|
    ensures ops[i].Write? ==> ops[i].frame.streamId <= U32_MAX && |ops[i].frame.payload| <= MAX_FRAME_PAYLOAD_LEN
    decreases |ops|
  {
    if i > 0 {
      ValidOpsFit(AfterOp(w, ops[0]), ops[1..], i - 1);
    }
  }

  lemma OpsFit(w: Writer, ops: seq<Op>)
    requires ValidOps(w, ops)
    ensures forall i :: 0 <= i < |ops| ==> ops[i].Write? ==> ops[i].frame.streamId <= U32_MAX
  {
    forall i | 0 <= i < |ops| ensures ops[i].Write? ==> ops[i].frame.streamId <= U32_MAX {
      ValidOpsFit(w, ops, i);
    }
  }

  /** Padding is transparent: whatever frames are written, waste frames among them, and however the
      scheme changes on the way, as long as the padding of each write fills cleanly the reader gets
      the frames written, in order, and besides them only waste frames of stream 0. */
  lemma {:induction false} PaddingIsTransparent(w: Writer, ops: seq<Op>)
    requires ValidOps(w, ops)
    ensures forall i :: 0 <= i < |ops| ==> ops[i].Write? ==> ops[i].frame.streamId <= U32_MAX
    ensures FillsCleanly(w, ops) ==> Padded(Written(ops), Frames(Output(w, ops)))
    decreases |ops|
  {
    hide Emitted, Drawn, ValidScheme, ReadFrame, OnlyFiller, PaddingOf, EncodeFrame, Frames;
    OpsFit(w, ops);
    if ops == [] {
      EmptyStream();
    } else if FillsCleanly(w, ops) {
      var w1 := AfterOp(w, ops[0]);
      PaddingIsTransparent(w1, ops[1..]);
      var rest := Output(w1, ops[1..]);
      if ops[0].Write? {
        OneOp(w, ops[0], rest);
        var frames := Frames(Emitted(w, ops[0]) + rest);
        FillersArePadding(Written(ops[1..]), frames[1..], Frames(rest));
        assert Written(ops)[1..] == Written(ops[1..]);
      } else {
        NothingEmitted(w, ops[0]);
        assert [] + rest == rest;
        assert [] + Written(ops[1..]) == Written(ops[1..]);
      }
    }
  }

  /** In every state of the session, whatever follows: the frames written so far, fillers aside, and then
      those of what follows. */
  ghost predicate TransparentThroughout(w: Writer, ops: seq<Op>)
    requires forall i :: 0 <= i < |ops| ==> ops[i].Write? ==> ops[i].frame.streamId <= U32_MAX
  {
    forall k, rest :: 0 <= k <= |ops| ==> SeenUpTo(w, ops[..k], rest)
  }

  predicate SeenUpTo(w: Writer, ops: seq<Op>, rest: Bytes)
    requires forall i :: 0 <= i < |ops| ==> ops[i].Write? ==> ops[i].frame.streamId <= U32_MAX
  {
    Kept(Frames(Output(w, ops) + rest)) == Kept(Written(ops)) + Kept(Frames(rest))
  }

  lemma Cancel<T>(a: seq<T>, x: seq<T>, y: seq<T>, z: seq<T>)
    ensures a + x == (a + y) + z <==> x == y + z
  {
    Associative(a, y, z);
    assert (a + x)[|a|..] == x && (a + (y + z))[|a|..] == y + z;
  }

  lemma OneMoreSeen(f: Frame, frames: seq<Frame>, later: seq<Frame>, written: seq<Frame>, rest: seq<Frame>)
    requires frames != [] && frames[0] == f && FillersThen(frames[1..], later)
    ensures Kept(frames) == Kept([f] + written) + Kept(rest) <==> Kept(later) == Kept(written) + Kept(rest)
  {
    hide IsFiller;
    assert frames == [f] + frames[1..];
    KeptFirst(f, frames[1..]);
    KeptAfterFillers(frames[1..], later);
    KeptFirst(f, written);
    Cancel(if IsFiller(f) then [] else [f], Kept(later), Kept(written), Kept(rest));
  }

  /** A write that fills cleanly adds its frame to what is seen. */
  lemma CleanStep(w: Writer, ops: seq<Op>, rest: Bytes)
    requires ops != [] && ValidOps(w, ops)
    requires forall i :: 0 <= i < |ops| ==> ops[i].Write? ==> ops[i].frame.streamId <= U32_MAX
    requires ops[0].Write? && Pads(w) ==> OnlyFiller(PaddingOf(|EncodeFrame(ops[0].frame)|, ops[0].sizes))
    ensures SeenUpTo(w, ops, rest) <==> SeenUpTo(AfterOp(w, ops[0]), ops[1..], rest)
  {
    hide Emitted, Drawn, ValidScheme, ReadFrame, OnlyFiller, PaddingOf, EncodeFrame, Frames, Kept, FillersThen;
    var w1 := AfterOp(w, ops[0]);
    var later := Output(w1, ops[1..]);
    Associative(Emitted(w, ops[0]), later, rest);
    if ops[0].Write? {
      OneOp(w, ops[0], later + rest);
      OneMoreSeen(ops[0].frame, Frames(Emitted(w, ops[0]) + (later + rest)), Frames(later + rest), Written(ops[1..]),
                  Frames(rest));
    } else {
      NothingEmitted(w, ops[0]);
      assert [] + (later + rest) == later + rest && [] + Written(ops[1..]) == Written(ops[1..]);
    }
  }

  lemma {:induction false} CleanIsTransparent(w: Writer, ops: seq<Op>, k: nat, rest: Bytes)
    requires ValidOps(w, ops) && k <= |ops|
    requires forall i :: 0 <= i < |ops| ==> ops[i].Write? ==> ops[i].frame.streamId <= U32_MAX
    requires FillsCleanly(w, ops)
    ensures SeenUpTo(w, ops[..k], rest)
    decreases k
  {
    hide SeenUpTo, OnlyFiller, PaddingOf, EncodeFrame, ValidOp;
    if k == 0 {
      NothingSeen(w, rest);
    } else {
      var part := ops[..k];
      assert part[0] == ops[0] && part[1..] == ops[1..][..k - 1];
      CleanIsTransparent(AfterOp(w, ops[0]), ops[1..], k - 1, rest);
      ValidPart(w, ops, k);
      CleanStep(w, part, rest);
    }
  }

  lemma NothingSeen(w: Writer, rest: Bytes)
    ensures SeenUpTo(w, [], rest)
  {
    assert [] + rest == rest;
  }

  lemma {:induction false} ValidPart(w: Writer, ops: seq<Op>, k: nat)
    requires ValidOps(w, ops) && k <= |ops|
    ensures ValidOps(w, ops[..k])
    decreases k
  {
    hide ValidOp;
    if k > 0 {
      assert ops[..k][0] == ops[0] && ops[..k][1..] == ops[1..][..k - 1];
      ValidPart(AfterOp(w, ops[0]), ops[1..], k - 1);
    }
  }

  lemma {:induction false} UncleanIsSeen(w: Writer, ops: seq<Op>) returns (k: nat, rest: Bytes)
    requires ValidOps(w, ops)
    requires forall i :: 0 <= i < |ops| ==> ops[i].Write? ==> ops[i].frame.streamId <= U32_MAX
    requires !FillsCleanly(w, ops)
    ensures k <= |ops| && !SeenUpTo(w, ops[..k], rest)
    decreases |ops|
  {
    hide SeenUpTo, OnlyFiller, PaddingOf, EncodeFrame, ValidOp;
    if ops[0].Write? && Pads(w) && !OnlyFiller(PaddingOf(|EncodeFrame(ops[0].frame)|, ops[0].sizes)) {
      k := 1;
      assert ops[..1] == [ops[0]];
      rest := UncleanWriteIsSeen(w, ops[0]);
    } else {
      k, rest := UncleanIsSeen(AfterOp(w, ops[0]), ops[1..]);
      var part := ops[..k + 1];
      assert part[0] == ops[0] && part[1..] == ops[1..][..k];
      ValidPart(w, ops, k + 1);
      CleanStep(w, part, rest);
      k := k + 1;
    }
  }

  lemma UncleanWriteIsSeen(w: Writer, op: Op) returns (rest: Bytes)
    requires ValidOp(w, op) && op.Write? && Pads(w)
    requires !OnlyFiller(PaddingOf(|EncodeFrame(op.frame)|, op.sizes))
    ensures !SeenUpTo(w, [op], rest)
  {
    hide OnlyFiller, PaddingOf, EncodeFrame, Frames, Emit, Drawn, ValidScheme;
    var padding := PaddingOf(|EncodeFrame(op.frame)|, op.sizes);
    rest := VisibleSomehow(padding);
    assert [op][1..] == [];
    assert Output(w, [op]) == Emitted(w, op) + [];
    assert Emitted(w, op) + [] == Emitted(w, op);
    FramesOfWrite(op.frame, op.sizes, rest);
    KeptFirst(op.frame, Frames(padding + rest));
    KeptFirst(op.frame, []);
    assert Written([op]) == [op.frame] + [];
    Cancel(if IsFiller(op.frame) then [] else [op.frame], Kept(Frames(padding + rest)), Kept([]), Kept(Frames(rest)));
    assert [] + Kept(Frames(rest)) == Kept(Frames(rest));
  }

  /** For every session: it is transparent at every point and before every continuation if and only if
      each of its writes fills cleanly. */
  lemma TransparentExactly(w: Writer, ops: seq<Op>)
    requires ValidOps(w, ops)
    ensures forall i :: 0 <= i < |ops| ==> ops[i].Write? ==> ops[i].frame.streamId <= U32_MAX
    ensures TransparentThroughout(w, ops) <==> FillsCleanly(w, ops)
  {
    hide SeenUpTo, FillsCleanly, ValidOps;
    OpsFit(w, ops);
    if FillsCleanly(w, ops) {
      forall k, rest | 0 <= k <= |ops| ensures SeenUpTo(w, ops[..k], rest) { CleanIsTransparent(w, ops, k, rest); }
    } else {
      var k, rest := UncleanIsSeen(w, ops);
    }
  }

  // ---- which writes are padded

  function StateAt(w: Writer, ops: seq<Op>, k: nat): Writer
    requires k <= |ops|
  {
    if k == 0 then w else AfterOp(StateAt(w, ops, k - 1), ops[k - 1])
  }

  /** How many of the first calls are writes. */
  function WritesIn(ops: seq<Op>, k: nat): nat
    requires k <= |ops|
  {
    if k == 0 then 0 else WritesIn(ops, k - 1) + if ops[k - 1].Write? then 1 else 0
  }

  /** The scheme in force after the first calls: the one given last. */
  function SchemeAt(scheme: Scheme, ops: seq<Op>, k: nat): Scheme
    requires k <= |ops|
  {
    if k == 0 then scheme
    else if ops[k - 1].NewScheme? then ops[k - 1].scheme else SchemeAt(scheme, ops, k - 1)
  }

  /** The number of a write is below the stop of the scheme in force at it. */
  predicate BelowStop(scheme: Scheme, ops: seq<Op>, j: nat)
    requires j < |ops|
  {
    ops[j].Write? ==> Min(WritesIn(ops, j + 1), U32_MAX) < SchemeAt(scheme, ops, j).stop
  }

  /** Output goes on from the state in which the calls so far leave the writer. */
  lemma {:induction false} OutputContinues(w: Writer, ops: seq<Op>, k: nat)
    requires k < |ops| && forall i :: 0 <= i < |ops| ==> ops[i].Write? ==> ops[i].frame.streamId <= U32_MAX
    ensures Output(w, ops[..k + 1]) == Output(w, ops[..k]) + Emitted(StateAt(w, ops, k), ops[k])
    decreases k
  {
    hide Emitted;
    assert ops[..k + 1][0] == ops[0] && ops[..k + 1][1..] == ops[1..][..k];
    if k > 0 {
      var w1 := AfterOp(w, ops[0]);
      assert ops[..k][0] == ops[0] && ops[..k][1..] == ops[1..][..k - 1];
      OutputContinues(w1, ops[1..], k - 1);
      StateAfterFirst(w, ops, k);
      Associative(Emitted(w, ops[0]), Output(w1, ops[1..][..k - 1]), Emitted(StateAt(w, ops, k), ops[k]));
    } else {
      assert ops[..1][1..] == [] && Emitted(w, ops[0]) + [] == [] + Emitted(w, ops[0]);
    }
  }

  lemma {:induction false} StateAfterFirst(w: Writer, ops: seq<Op>, k: nat)
    requires 0 < k <= |ops|
    ensures StateAt(w, ops, k) == StateAt(AfterOp(w, ops[0]), ops[1..], k - 1)
    decreases k
  {
    if k > 1 { StateAfterFirst(w, ops, k - 1); }
  }

  /** For every run of a new writer: a write is padded exactly if every write so far, it too, had a number below
      the stop of the scheme in force at it; then the sizes are drawn from that scheme, for that
      number. */
  lemma {:induction false} PaddedExactly(scheme: Scheme, ops: seq<Op>, k: nat)
    requires k < |ops| && ops[k].Write?
    ensures var w := StateAt(Writer(scheme, 0, true), ops, k);
            && (Pads(w) <==> forall j :: 0 <= j <= k ==> BelowStop(scheme, ops, j))
            && (Pads(w) ==> w.padding == SchemeAt(scheme, ops, k)
                            && NextPacket(w) == Min(WritesIn(ops, k + 1), U32_MAX))
  {
    hide BelowStop;
    StillPadding(scheme, ops, k);
    assert BelowStop(scheme, ops, k)
      <==> Min(WritesIn(ops, k + 1), U32_MAX) < SchemeAt(scheme, ops, k).stop by { BelowStopMeans(scheme, ops, k); }
  }

  lemma BelowStopMeans(scheme: Scheme, ops: seq<Op>, j: nat)
    requires j < |ops| && ops[j].Write?
    ensures BelowStop(scheme, ops, j) <==> Min(WritesIn(ops, j + 1), U32_MAX) < SchemeAt(scheme, ops, j).stop
  {
  }

  lemma {:induction false} StillPadding(scheme: Scheme, ops: seq<Op>, k: nat)
    requires k <= |ops|
    ensures var w := StateAt(Writer(scheme, 0, true), ops, k);
            && w.padding == SchemeAt(scheme, ops, k)
            && (w.sendPadding <==> forall j :: 0 <= j < k ==> BelowStop(scheme, ops, j))
            && (w.sendPadding ==> w.packetCounter == Min(WritesIn(ops, k), U32_MAX))
  {
    if k > 0 {
      StillPadding(scheme, ops, k - 1);
      assert (forall j :: 0 <= j < k ==> BelowStop(scheme, ops, j))
        <==> BelowStop(scheme, ops, k - 1) && forall j :: 0 <= j < k - 1 ==> BelowStop(scheme, ops, j);
    }
  }

  predicate FitThroughout(ops: seq<Op>) {
    forall i :: 0 <= i < |ops| ==> ops[i].NewScheme? ==> FitsLength(ops[i].scheme)
  }

  /** A session whose schemes stay within 16 bits fills cleanly, whatever it draws. */
  lemma {:induction false} FittingSchemesFillCleanly(w: Writer, ops: seq<Op>)
    requires ValidScheme(w.padding) && FitsLength(w.padding) && ValidOps(w, ops) && FitThroughout(ops)
    ensures forall i :: 0 <= i < |ops| ==> ops[i].Write? ==> ops[i].frame.streamId <= U32_MAX
    ensures FillsCleanly(w, ops)
    decreases |ops|
  {
    hide Drawn, ValidScheme, FitsLength, OnlyFiller, EncodeFrame, Wastes;
    OpsFit(w, ops);
    if ops != [] {
      var op := ops[0];
      FittingSchemesFillCleanly(AfterOp(w, op), ops[1..]);
      if op.Write? && Pads(w) {
        forall k | 0 <= k < |op.sizes| ensures op.sizes[k] < 0x1_0000 {
          DrawnSizesFit(w.padding, NextPacket(w), op.sizes, k);
        }
        SmallSizesAreHarmless(|EncodeFrame(op.frame)|, op.sizes);
        HarmlessWastes(Wastes(|EncodeFrame(op.frame)|, op.sizes));
      }
    }
  }

  const PROBE: Frame := Frame(CMD_PSH, 1, [])

  /** Two stray zeros before a frame hide it from the reader. */
  lemma StrayZerosHideFrame()
    ensures Useful(Frames(Zeros(2) + EncodeFrame(PROBE))) == []
  {
  }

  /** A scheme is free to ask for 70000 bytes. The first frame is then filled up with a waste frame of
      69986 bytes, and the frame written next is lost. */
  lemma OversizedPaddingLosesFrames()
    ensures var w := Writer(Scheme(8, [(1, [Range(70000, 70000)])]), 0, true);
            var ops := [Write(PROBE, [70000]), Write(PROBE, [])];
            && ValidScheme(w.padding) && ValidOps(w, ops)
            && Written(ops) == [PROBE, PROBE] && Useful(Frames(Output(w, ops))) == [PROBE]
  {
    hide Emit, Output, Frames;
    var w := Writer(Scheme(8, [(1, [Range(70000, 70000)])]), 0, true);
    var first, second := Write(PROBE, [70000]), Write(PROBE, []);
    LargeSizeIsDrawn();
    EmitStep(EncodeFrame(PROBE), []);
    var w1 := AfterOp(w, first);
    assert w1.packetCounter == 1 && NextPacket(w1) == 2 && ValidOp(w1, second);
    TwoOps(w, first, second);
    assert Written([first, second]) == [PROBE, PROBE] by {
      assert [first, second][1..] == [second] && [second][1..] == [];
      assert Written([second]) == [PROBE] + Written([]);
    }
    OutputOfTwo(w, first, second);
    LostAfterLargeWaste();
  }

  lemma TwoOps(w: Writer, a: Op, b: Op)
    requires ValidOp(w, a) && ValidOp(AfterOp(w, a), b)
    ensures ValidOps(w, [a, b])
  {
    hide ValidOp;
    assert [a, b][1..] == [b] && [b][1..] == [];
    assert ValidOps(AfterOp(w, a), [b]);
  }

  lemma LargeSizeIsDrawn()
    ensures var s := Scheme(8, [(1, [Range(70000, 70000)])]);
            ValidScheme(s) && Drawn(s, 1, [70000]) && Drawn(s, 2, [])
  {
    var s := Scheme(8, [(1, [Range(70000, 70000)])]);
    assert SizesOf([Range(70000, 70000)], [0]) == [70000];
    assert RulesFor(s.rules, 2) == [] && SizesOf([], []) == [];
  }

  lemma OutputOfTwo(w: Writer, a: Op, b: Op)
    requires a.Write? && b.Write? && a.frame.streamId <= U32_MAX && b.frame.streamId <= U32_MAX
    ensures Output(w, [a, b]) == Emitted(w, a) + Emitted(AfterOp(w, a), b)
  {
    hide Emitted;
    var w1 := AfterOp(w, a);
    assert [a, b][1..] == [b] && [b][1..] == [];
    assert Output(w1, [b]) == Emitted(w1, b) + Output(AfterOp(w1, b), []);
    assert Output(w1, [b]) == Emitted(w1, b);
  }

  lemma LostAfterLargeWaste()
    ensures Useful(Frames(Emit(EncodeFrame(PROBE), [70000]) + EncodeFrame(PROBE))) == [PROBE]
  {
    var e := EncodeFrame(PROBE);
    assert |e| == 7;
    hide EncodeFrame, ReadFrame, Frames;
    FramesOfWrite(PROBE, [70000], e);
    assert Wastes(7, [70000]) == [69986];
    assert WasteBytes([69986]) == EncodeFrame(Waste(69986));
    UsefulOfWaste(e);
    UsefulAppend([PROBE], Frames(EncodeFrame(Waste(69986)) + e));
    assert Useful([PROBE]) == [PROBE];
  }

  lemma UsefulOfWaste(e: Bytes)
    requires e == EncodeFrame(PROBE)
    ensures Useful(Frames(EncodeFrame(Waste(69986)) + e)) == []
  {
    hide EncodeFrame, ReadFrame, OnlyFiller, FillersThen;
    WasteRead(69986, e);
    var tail := Zeros(0x1_0000) + e;
    assert Frames(EncodeFrame(Waste(69986)) + e) == [Waste(4450)] + Frames(tail);
    assert Zeros(0x1_0000) == Zeros(65534) + Zeros(2);
    hide Zeros, Frames;
    Associative(Zeros(65534), Zeros(2), e);
    ZerosAreFiller(65534);
    OnlyFillerPassed(Zeros(65534), Zeros(2) + e);
    StrayZerosHideFrame();
    UsefulAfterFillers(Frames(tail), Frames(Zeros(2) + e));
    UsefulAppend([Waste(4450)], Frames(tail));
  }

  lemma {:induction false} UsefulAfterFillers(frames: seq<Frame>, others: seq<Frame>)
    requires FillersThen(frames, others)
    ensures Useful(frames) == Useful(others)
    decreases |frames|
  {
    if |frames| == |others| {
      assert frames == others;
    } else {
      assert IsFiller(frames[0]);
      forall i | 0 <= i < |frames[1..]| - |others| ensures IsFiller(frames[1..][i]) {
        assert frames[i + 1] == frames[1..][i];
      }
      UsefulAfterFillers(frames[1..], others);
    }
  }

  lemma EmptyStream()
    ensures Frames([]) == []
  {
  }

  lemma NothingEmitted(w: Writer, op: Op)
    requires op.NewScheme?
    ensures Emitted(w, op) == []
  {
  }

  // ---- the preface

  /** The first size of packet 0 that is not a checkpoint, or zero. */
  function PrefaceSize(sizes: seq<int>): int {
    if sizes == [] then 0 else if sizes[0] >= 0 then sizes[0] else PrefaceSize(sizes[1..])
  }

  function Preface(hash: Bytes, sizes: seq<int>): Result<Bytes>
    requires |hash| == 32
  {
    var n := PrefaceSize(sizes);
    if 0 <= n < 0x1_0000 then Ok(hash + U16(n) + Zeros(n)) else Err
  }

  /** The preface fails exactly if the first size for packet 0 that is not a checkpoint exceeds 65535; its
      padding has that many bytes, and none if there is no size. */
  lemma {:induction false} PrefaceExactly(hash: Bytes, sizes: seq<int>)
    requires |hash| == 32
    ensures var n := if Cuts(sizes) == [] then 0 else Cuts(sizes)[0];
            && (Preface(hash, sizes).Ok? <==> n <= 65535)
            && (Preface(hash, sizes).Ok? ==> |Preface(hash, sizes).value| == 34 + n)
  {
    hide Zeros;
    if sizes != [] && sizes[0] < 0 {
      assert Cuts(sizes) == Cuts(sizes[1..]);
      PrefaceExactly(hash, sizes[1..]);
    }
  }

  /** The hash, and what follows the padding. */
  function ReadPreface(b: Bytes): Result<(Bytes, Bytes)> {
    if |b| < 34 || |b| < 34 + GetU16(b, 32) then Err else Ok((b[..32], b[34 + GetU16(b, 32)..]))
  }

  /** After the preface the reader stands exactly at the first frame. */
  lemma PrefaceReadBack(hash: Bytes, sizes: seq<int>, rest: Bytes)
    requires |hash| == 32 && Preface(hash, sizes).Ok?
    ensures ReadPreface(Preface(hash, sizes).value + rest) == Ok((hash, rest))
  {
    var n := PrefaceSize(sizes);
    var b := Preface(hash, sizes).value + rest;
    assert b[32] == U16(n)[0] && b[33] == U16(n)[1];
    assert b[..32] == hash && b[34 + n..] == rest;
  }

  // ---- payload chunks

  function PshFrames(streamId: nat, chunks: seq<Bytes>): seq<Frame> {
    if chunks == [] then [] else [Frame(CMD_PSH, streamId, chunks[0])] + PshFrames(streamId, chunks[1..])
  }

  function Payloads(frames: seq<Frame>): Bytes {
    if frames == [] then [] else frames[0].payload + Payloads(frames[1..])
  }

  lemma {:induction false} PshFramesAreUseful(streamId: nat, chunks: seq<Bytes>)
    ensures Useful(PshFrames(streamId, chunks)) == PshFrames(streamId, chunks)
    ensures Payloads(PshFrames(streamId, chunks)) == Concat(chunks)
  {
    if chunks != [] {
      var frames := PshFrames(streamId, chunks);
      assert frames[1..] == PshFrames(streamId, chunks[1..]);
      PshFramesAreUseful(streamId, chunks[1..]);
    }
  }

  /** A write of any length, cut into frames of at most 65535 bytes and padded on the way, arrives
      byte for byte. */
  lemma PayloadArrives(w: Writer, ops: seq<Op>, streamId: nat, payload: Bytes)
    requires ValidOps(w, ops) && Written(ops) == PshFrames(streamId, Chunks(payload, MAX_FRAME_PAYLOAD_LEN))
    ensures forall i :: 0 <= i < |ops| ==> ops[i].Write? ==> ops[i].frame.streamId <= U32_MAX
    ensures FillsCleanly(w, ops) ==> Payloads(Useful(Frames(Output(w, ops)))) == payload
  {
    hide Frames, Chunks, FillsCleanly;
    PaddingIsTransparent(w, ops);
    if FillsCleanly(w, ops) { PaddedUseful(Written(ops), Frames(Output(w, ops))); }
    PshFramesAreUseful(streamId, Chunks(payload, MAX_FRAME_PAYLOAD_LEN));
    ChunksRejoin(payload, MAX_FRAME_PAYLOAD_LEN);
  }

  // ---- vectored writes

  /** Drops written bytes from the front of a list of slices, and slices that become empty. */
  function Advance(buffers: seq<Bytes>, n: nat): (rest: seq<Bytes>)
    requires n <= |Concat(buffers)|
    ensures Concat(rest) == Concat(buffers)[n..]
    ensures rest != [] ==> rest[0] != []
    decreases |buffers|
  {
    if buffers == [] then []
    else if n >= |buffers[0]| then
      assert Concat(buffers)[n..] == Concat(buffers[1..])[n - |buffers[0]|..];
      Advance(buffers[1..], n - |buffers[0]|)
    else
      assert Concat(buffers)[n..] == buffers[0][n..] + Concat(buffers[1..]);
      [buffers[0][n..]] + buffers[1..]
  }

  /** The sink of a writer: the records put into it. It takes as much of a vectored write as it likes. */
  class Sink {
    var records: seq<Bytes>

    constructor ()
      ensures records == []
    {
      records := [];
    }

    function Out(): Bytes
      reads this
    {
      Concat(records)
    }

    method WriteAll(b: Bytes)
      modifies this
      ensures records == old(records) + [b] && Out() == old(Out()) + b
    {
      ConcatSnoc(records, b);
      records := records + [b];
    }

    method Accept(buffers: seq<Bytes>, limit: nat) returns (written: nat)
      modifies this
      ensures written == Min(limit, |Concat(buffers)|)
      ensures Out() == old(Out()) + Concat(buffers)[..written]
    {
      var all := Concat(buffers);
      written := Min(limit, |all|);
      WriteAll(all[..written]);
    }

    /** Writes all slices however the sink splits them up, or fails on a write of nothing. */
    method WriteAllVectored(buffers: seq<Bytes>, limits: nat -> nat) returns (r: Result<bool>)
      modifies this
      ensures old(Out()) <= Out() <= old(Out()) + Concat(buffers)
      ensures r.Ok? ==> Out() == old(Out()) + Concat(buffers)
      ensures (forall i :: limits(i) > 0) ==> r.Ok?
    {
      ghost var start, all := Out(), Concat(buffers);
      var remaining := buffers;
      var turn := 0;
      assert Out() + all == start + all;
      while remaining != []
        invariant Out() + Concat(remaining) == start + all
        invariant start <= Out()
        decreases |Concat(remaining)|, |remaining|
      {
        remaining := Advance(remaining, 0);
        if remaining == [] {
          break;
        }
        ghost var before, left := Out(), Concat(remaining);
        var written := Accept(remaining, limits(turn));
        SplitSlice(left, 0, written);
        Associative(before, left[..written], left[written..]);
        if written == 0 {
          return Err;
        }
        remaining := Advance(remaining, written);
        turn := turn + 1;
      }
      assert Concat(remaining) == [];
      assert Out() + [] == Out();
      r := Ok(true);
    }
  }

  class PaddedFrameWriter {
    var padding: Scheme
    var packetCounter: nat
    var sendPadding: bool
    const sink: Sink

    ghost function View(): Writer
      reads this
    {
      Writer(padding, packetCounter, sendPadding)
    }

    constructor (sink: Sink, padding: Scheme)
      ensures View() == Writer(padding, 0, true) && this.sink == sink
    {
      this.sink := sink;
      this.padding, packetCounter, sendPadding := padding, 0, true;
    }

    method UpdatePaddingScheme(scheme: Scheme)
      modifies this
      ensures View() == AfterOp(old(View()), NewScheme(scheme))
    {
      padding := scheme;
    }

    /** Cuts and pads one packet in a loop over the sizes drawn. */
    method WriteCut(packet: Bytes, sizes: seq<int>)
      modifies sink
      ensures sink.records == old(sink.records) + Records(packet, sizes)
    {
      var payload := packet;
      ghost var start := sink.records;
      assert sizes[0..] == sizes;
      for i := 0 to |sizes|
        invariant start + Records(packet, sizes) == sink.records + Records(payload, sizes[i..])
      {
        var size := sizes[i];
        ghost var rest, before := sizes[i + 1..], sink.records;
        assert sizes[i..][0] == size && sizes[i..][1..] == rest;
        if size < 0 {
          if payload == [] {
            assert before + [] == before;
            return;
          }
        } else if |payload| > size {
          sink.WriteAll(payload[..size]);
          Associative(before, [payload[..size]], Records(payload[size..], rest));
          payload := payload[size..];
        } else if payload != [] {
          sink.WriteAll(LastPiece(payload, size));
          Associative(before, [LastPiece(payload, size)], Records([], rest));
          payload := [];
        } else {
          sink.WriteAll(EncodeFrame(Waste(size)));
          Associative(before, [EncodeFrame(Waste(size))], Records([], rest));
        }
      }
      assert sizes[|sizes|..] == [];
      if payload != [] {
        sink.WriteAll(payload);
      }
    }

    /** Writes one frame. A large frame that needs no padding goes out as header and payload in one
        vectored write; every other as one packet. */
    method WriteFrame(f: Frame, random: nat -> nat, vectored: bool, limits: nat -> nat)
      returns (r: Result<bool>, ghost sizes: seq<int>)
      requires f.streamId <= U32_MAX && ValidScheme(padding)
      modifies this, sink
      ensures r.Ok? ==> |f.payload| <= MAX_FRAME_PAYLOAD_LEN
                        && (old(Pads(View())) ==> Drawn(old(padding), NextPacket(old(View())), sizes)
                                                  && sink.records == old(sink.records) + Records(EncodeFrame(f), sizes))
                        && sink.Out() == old(sink.Out()) + Emitted(old(View()), Write(f, sizes))
                        && View() == AfterOp(old(View()), Write(f, sizes))
      ensures |f.payload| > MAX_FRAME_PAYLOAD_LEN
              ==> r.Err? && View() == old(View()) && sink.records == old(sink.records)
      ensures |f.payload| <= MAX_FRAME_PAYLOAD_LEN && (forall i :: limits(i) > 0) ==> r.Ok?
    {
      sizes := [];
      if |f.payload| > MAX_FRAME_PAYLOAD_LEN {
        return Err, [];
      }
      if !sendPadding && |f.payload| >= VECTORED_FRAME_MIN_PAYLOAD && vectored {
        var header := Header(f.cmd, f.streamId, |f.payload|);
        TwoParts(header, f.payload);
        r := sink.WriteAllVectored([header, f.payload], limits);
        return;
      }
      var packet := EncodeFrame(f);
      r := Ok(true);
      if sendPadding {
        packetCounter := Min(packetCounter + 1, U32_MAX);
        if packetCounter < padding.stop {
          var drawn := RecordPayloadSizes(padding, packetCounter, random);
          sizes := drawn;
          ConcatAppend(sink.records, Records(packet, drawn));
          WriteCut(packet, drawn);
          return;
        }
        sendPadding := false;
      }
      sink.WriteAll(packet);
    }
  }

  lemma TwoParts(a: Bytes, b: Bytes)
    ensures Concat([a, b]) == a + b
  {
    assert [a, b][1..] == [b];
    assert Concat([b]) == b + Concat([]);
  }
}
