/**
  The Naive padded stream: the first eight chunks of a direction carry a header and padding, the
  rest is raw. The reader may be handed the bytes in any segments and may ask for any number.
*/
module Naive {
  import opened Common
  import opened BigEndian

  const NAIVE_PADDING_COUNT: nat := 8
  const NAIVE_MAX_CHUNK: nat := 0xFFFF

  /** A chunk of data with the padding drawn for it. */
  datatype Chunk = Chunk(data: Bytes, padding: Byte)

  // ---- the writer

  function EncodeChunk(c: Chunk): Bytes
    requires |c.data| <= NAIVE_MAX_CHUNK
  {
    (U16(|c.data|) + [c.padding]) + (c.data + Zeros(c.padding))
  }

  predicate Fit(chunks: seq<Chunk>) {
    forall i :: 0 <= i < |chunks| ==> |chunks[i].data| <= NAIVE_MAX_CHUNK
  }

  /** The bytes of a list of chunks when `count` padded ones have gone before. */
  function Encode(count: nat, chunks: seq<Chunk>): Bytes
    requires Fit(chunks)
    decreases |chunks|
  {
    if chunks == [] then []
    else if count < NAIVE_PADDING_COUNT then EncodeChunk(chunks[0]) + Encode(count + 1, chunks[1..])
    else chunks[0].data + Encode(count, chunks[1..])
  }

  function DataOf(chunks: seq<Chunk>): Bytes {
    if chunks == [] then [] else chunks[0].data + DataOf(chunks[1..])
  }

  function After(count: nat, chunks: seq<Chunk>): nat {
    if count >= NAIVE_PADDING_COUNT then count else Min(NAIVE_PADDING_COUNT, count + |chunks|)
  }

  /** Successive writes encode like one write of all their chunks. */
  lemma {:induction false} EncodeAppend(count: nat, a: seq<Chunk>, b: seq<Chunk>)
    requires Fit(a) && Fit(b) && count <= NAIVE_PADDING_COUNT
    ensures Fit(a + b) && Encode(count, a + b) == Encode(count, a) + Encode(After(count, a), b)
    ensures DataOf(a + b) == DataOf(a) + DataOf(b)
    decreases |a|
  {
    hide EncodeChunk, Encode, DataOf;
    if a == [] {
      assert a + b == b;
      EncodeNone(count);
    } else {
      assert (a + b)[0] == a[0] && (a + b)[1..] == a[1..] + b;
      var next := if count < NAIVE_PADDING_COUNT then count + 1 else count;
      var first := if count < NAIVE_PADDING_COUNT then EncodeChunk(a[0]) else a[0].data;
      EncodeAppend(next, a[1..], b);
      EncodeFirst(count, a);
      EncodeFirst(count, a + b);
      Associative(first, Encode(next, a[1..]), Encode(After(count, a), b));
      Associative(a[0].data, DataOf(a[1..]), DataOf(b));
    }
  }

  lemma EncodeNone(count: nat)
    ensures Encode(count, []) == [] && DataOf([]) == []
  {
  }

  lemma EncodeFirst(count: nat, chunks: seq<Chunk>)
    requires Fit(chunks) && chunks != []
    ensures count < NAIVE_PADDING_COUNT
            ==> Encode(count, chunks) == EncodeChunk(chunks[0]) + Encode(count + 1, chunks[1..])
    ensures count >= NAIVE_PADDING_COUNT ==> Encode(count, chunks) == chunks[0].data + Encode(count, chunks[1..])
    ensures DataOf(chunks) == chunks[0].data + DataOf(chunks[1..])
  {
  }

  /** The layout of a padded chunk: two bytes of length, one of padding length, the data, and zeros. */
  lemma ChunkLayout(c: Chunk)
    requires |c.data| <= NAIVE_MAX_CHUNK
    ensures var b, n := EncodeChunk(c), |c.data|;
            && |b| == 3 + n + c.padding && b[0] == n / 256 && b[1] == n % 256 && b[2] == c.padding
            && b[3..3 + n] == c.data && forall i :: 3 + n <= i < |b| ==> b[i] == 0
  {
    var b, n := EncodeChunk(c), |c.data|;
    assert b[3..3 + n] == c.data;
  }

  /** What padding adds to a list of chunks: three bytes and the padding for each of the first eight. */
  function Overhead(count: nat, chunks: seq<Chunk>): nat
    decreases |chunks|
  {
    if chunks == [] || count >= 8 then 0 else 3 + chunks[0].padding + Overhead(count + 1, chunks[1..])
  }

  lemma {:induction false} EncodedLength(count: nat, chunks: seq<Chunk>)
    requires Fit(chunks)
    ensures |Encode(count, chunks)| == |DataOf(chunks)| + Overhead(count, chunks)
    decreases |chunks|
  {
    if chunks != [] {
      EncodedLength(if count < NAIVE_PADDING_COUNT then count + 1 else count, chunks[1..]);
      ChunkLayout(chunks[0]);
      hide EncodeChunk;
      if count >= NAIVE_PADDING_COUNT { assert Overhead(count, chunks[1..]) == 0; }
    }
  }

  /** The pieces of a write with the padding sizes drawn for them in turn. */
  function WithPadding(pieces: seq<Bytes>, random: nat -> Byte, i: nat): (chunks: seq<Chunk>)
    ensures |chunks| == |pieces|
    ensures forall k :: 0 <= k < |pieces| ==> chunks[k] == Chunk(pieces[k], random(i + k))
    decreases |pieces|
  {
    if pieces == [] then [] else [Chunk(pieces[0], random(i))] + WithPadding(pieces[1..], random, i + 1)
  }

  /** Where both ends start: with no padded chunk behind them, or past all of them. */
  function Start(enabled: bool): nat {
    if enabled then 0 else NAIVE_PADDING_COUNT
  }

  predicate NonEmpty(chunks: seq<Chunk>) {
    forall i :: 0 <= i < |chunks| ==> chunks[i].data != []
  }

  class NaiveWriter {
    const enabled: bool
    var writePadding: nat
    var sent: Bytes
    ghost var chunks: seq<Chunk>

    ghost predicate Valid()
      reads this
    {
      Fit(chunks) && NonEmpty(chunks) && sent == Encode(Start(enabled), chunks)
          && writePadding == After(Start(enabled), chunks)
    }

    constructor (enabled: bool)
      ensures Valid() && this.enabled == enabled && chunks == []
    {
      this.enabled := enabled;
      writePadding, sent, chunks := Start(enabled), [], [];
    }

    /** One write of any length; `random` gives the padding sizes. */
    method Write(data: Bytes, random: nat -> Byte)
      requires Valid()
      modifies this
      ensures Valid() && DataOf(chunks) == old(DataOf(chunks)) + data
      ensures chunks == old(chunks) + WithPadding(Chunks(data, NAIVE_MAX_CHUNK), random, 0)
    {
      var rest := data;
      var i := 0;
      while rest != []
        invariant Valid()
        invariant chunks + WithPadding(Chunks(rest, NAIVE_MAX_CHUNK), random, i)
               == old(chunks) + WithPadding(Chunks(data, NAIVE_MAX_CHUNK), random, 0)
        invariant DataOf(chunks) + rest == old(DataOf(chunks)) + data
        decreases |rest|
      {
        var n := Min(|rest|, NAIVE_MAX_CHUNK);
        var c := Chunk(rest[..n], random(i));
        EncodeAppend(Start(enabled), chunks, [c]);
        OneChunk(After(Start(enabled), chunks), c);
        SplitSlice(rest, 0, n);
        Associative(DataOf(chunks), rest[..n], rest[n..]);
        FirstPiece(rest, random, i);
        Associative(chunks, [c], WithPadding(Chunks(rest[n..], NAIVE_MAX_CHUNK), random, i + 1));
        if writePadding < NAIVE_PADDING_COUNT {
          sent := sent + EncodeChunk(c);
          writePadding := writePadding + 1;
        } else {
          sent := sent + c.data;
        }
        chunks := chunks + [c];
        rest := rest[n..];
        i := i + 1;
      }
      assert DataOf(chunks) + [] == DataOf(chunks);
    }
  }

  lemma FirstPiece(rest: Bytes, random: nat -> Byte, i: nat)
    requires rest != []
    ensures var n := Min(|rest|, NAIVE_MAX_CHUNK);
            WithPadding(Chunks(rest, NAIVE_MAX_CHUNK), random, i)
            == [Chunk(rest[..n], random(i))] + WithPadding(Chunks(rest[n..], NAIVE_MAX_CHUNK), random, i + 1)
  {
    var n := Min(|rest|, NAIVE_MAX_CHUNK);
    if n == |rest| { assert rest[..n] == rest && rest[n..] == []; }
    assert Chunks(rest, NAIVE_MAX_CHUNK)[1..] == Chunks(rest[n..], NAIVE_MAX_CHUNK);
  }

  lemma OneChunk(count: nat, c: Chunk)
    requires |c.data| <= NAIVE_MAX_CHUNK
    ensures Encode(count, [c]) == if count < NAIVE_PADDING_COUNT then EncodeChunk(c) else c.data
    ensures DataOf([c]) == c.data
  {
  }

  // ---- the reader

  /** `pending` are bytes read too early, `wire` those the transport still holds. */
  datatype Reader = Reader(
    readPadding: nat, readRemaining: nat, paddingRemaining: nat, pending: Bytes, wire: Bytes)

  function Raw(r: Reader): Bytes {
    r.pending + r.wire
  }

  datatype Taken = Taken(reader: Reader, data: Bytes)

  /** How much the transport hands over: at least one byte, unless none is wanted or left. */
  function Segment(want: nat, left: nat, pick: nat): nat {
    Min(1 + pick, Min(want, left))
  }

  function RawSome(r: Reader, want: nat, pick: nat): Taken {
    if r.pending != [] then
      var n := Min(|r.pending|, want);
      Taken(r.(pending := r.pending[n..]), r.pending[..n])
    else
      var n := Segment(want, |r.wire|, pick);
      Taken(r.(wire := r.wire[n..]), r.wire[..n])
  }

  function RawExact(r: Reader, size: nat): Result<Taken> {
    var n := Min(|r.pending|, size);
    if |r.wire| < size - n then Err
    else Ok(Taken(r.(pending := r.pending[n..], wire := r.wire[size - n..]), r.pending[..n] + r.wire[..size - n]))
  }

  function ReadHeader(r: Reader, want: nat, pick: nat): Result<Taken> {
    match RawExact(r, 3)
    case Err => Err
    case Ok(h) =>
      var size := GetU16(h.data, 0);
      var s := RawSome(h.reader, Min(size, want), pick);
      Ok(Taken(s.reader.(readPadding := r.readPadding + 1,
                        readRemaining := size - |s.data|,
                        paddingRemaining := h.data[2]), s.data))
  }

  /** One read into a buffer of `want` bytes. */
  function ReadData(r: Reader, want: nat, pick: nat): Result<Taken> {
    if r.readRemaining > 0 then
      var s := RawSome(r, Min(r.readRemaining, want), pick);
      Ok(Taken(s.reader.(readRemaining := r.readRemaining - |s.data|), s.data))
    else
      match (if r.paddingRemaining > 0 then RawExact(r, r.paddingRemaining) else Ok(Taken(r, [])))
      case Err => Err
      case Ok(skipped) =>
        var r1 := skipped.reader.(paddingRemaining := 0);
        if r1.readPadding < NAIVE_PADDING_COUNT then ReadHeader(r1, want, pick)
        else Ok(RawSome(r1, want, pick))
  }

  /** `current` is what is left of the chunk being read, `rest` the chunks after it; `missing` is what
      a cut connection never delivers. */
  ghost predicate Shape(r: Reader, current: Bytes, rest: seq<Chunk>, missing: Bytes) {
    && r.readPadding <= NAIVE_PADDING_COUNT
    && |current| == r.readRemaining
    && r.paddingRemaining < 256
    && Fit(rest)
    && Raw(r) + missing == current + (Zeros(r.paddingRemaining) + Encode(r.readPadding, rest))
  }

  lemma RawSomeFacts(r: Reader, want: nat, pick: nat)
    ensures var s := RawSome(r, want, pick);
            && s.data + Raw(s.reader) == Raw(r) && |s.data| <= want
            && s.reader == r.(pending := s.reader.pending, wire := s.reader.wire)
            && (want > 0 && Raw(r) != [] ==> s.data != [])
            && (s.data == [] ==> s.reader == r)
  {
  }

  lemma RawExactFacts(r: Reader, size: nat)
    ensures RawExact(r, size).Ok? <==> |Raw(r)| >= size
    ensures RawExact(r, size).Ok? ==>
              var s := RawExact(r, size).value;
              && s.data == Raw(r)[..size] && Raw(s.reader) == Raw(r)[size..]
              && s.reader == r.(pending := s.reader.pending, wire := s.reader.wire)
  {
  }

  /** What one read gives, as the writer meant it: `got` bytes off the front of what is left. */
  ghost predicate Continues(before: Bytes, s: Taken, current: Bytes, rest: seq<Chunk>, missing: Bytes) {
    Shape(s.reader, current, rest, missing) && before == s.data + (current + DataOf(rest))
  }

  lemma SplitFront(a: Bytes, b: Bytes, c: Bytes, n: nat)
    requires a + b == c && n <= |a| && n <= |c|
    ensures a[..n] == c[..n] && a[n..] + b == c[n..]
  {
  }

  lemma ReadCurrent(r: Reader, want: nat, pick: nat, current: Bytes, rest: seq<Chunk>, missing: Bytes)
    requires Shape(r, current, rest, missing) && r.readRemaining > 0 && want > 0
    ensures var s := ReadData(r, want, pick).value;
            && Continues(current + DataOf(rest), s, current[|s.data|..], rest, missing)
            && |s.data| <= |current|
            && (missing == [] ==> s.data != [])
  {
    hide RawSome, Encode;
    var s0 := RawSome(r, Min(r.readRemaining, want), pick);
    RawSomeFacts(r, Min(r.readRemaining, want), pick);
    var n := |s0.data|;
    var tail := Zeros(r.paddingRemaining) + Encode(r.readPadding, rest);
    SplitFront(Raw(r), missing, current + tail, n);
    assert Raw(r)[..n] == s0.data && Raw(r)[n..] == Raw(s0.reader);
    assert (current + tail)[..n] == current[..n] && (current + tail)[n..] == current[n..] + tail;
    Associative(current[..n], current[n..], DataOf(rest));
    SplitSlice(current, 0, n);
    assert missing == [] ==> |Raw(r)| >= |current|;
  }

  /** Skipping the padding of the chunk just finished. */
  lemma SkipPadding(r: Reader, rest: seq<Chunk>, missing: Bytes)
    requires Shape(r, [], rest, missing)
    ensures var skipped := if r.paddingRemaining > 0 then RawExact(r, r.paddingRemaining) else Ok(Taken(r, []));
            && (missing == [] ==> skipped.Ok?)
            && (skipped.Ok? ==> Shape(skipped.value.reader.(paddingRemaining := 0), [], rest, missing)
                                && skipped.value.reader.readPadding == r.readPadding)
  {
    var p := r.paddingRemaining;
    var tail := Encode(r.readPadding, rest);
    assert [] + (Zeros(p) + tail) == Zeros(p) + tail;
    assert Zeros(0) + tail == tail && [] + tail == tail;
    RawExactFacts(r, p);
    if |Raw(r)| >= p {
      SplitFront(Raw(r), missing, Zeros(p) + tail, p);
      assert (Zeros(p) + tail)[p..] == tail;
    }
  }

  lemma EncodeStep(count: nat, chunks: seq<Chunk>)
    requires Fit(chunks) && chunks != [] && count < NAIVE_PADDING_COUNT
    ensures var c := chunks[0];
            Encode(count, chunks)
                == (U16(|c.data|) + [c.padding]) + (c.data + (Zeros(c.padding) + Encode(count + 1, chunks[1..])))
  {
  }

  lemma HeaderFields(h: Bytes, c: Chunk)
    requires |c.data| <= NAIVE_MAX_CHUNK && h == U16(|c.data|) + [c.padding]
    ensures |h| == 3 && GetU16(h, 0) == |c.data| && h[2] == c.padding
  {
  }

  /** The header of the next padded chunk, and the first of its data. */
  lemma ReadNext(r: Reader, want: nat, pick: nat, rest: seq<Chunk>, missing: Bytes)
    requires Shape(r, [], rest, missing) && r.paddingRemaining == 0 && r.readPadding < NAIVE_PADDING_COUNT && want > 0
    requires rest != []
    ensures missing == [] ==> ReadHeader(r, want, pick).Ok?
    ensures ReadHeader(r, want, pick).Ok? ==>
              var s := ReadHeader(r, want, pick).value;
              && |s.data| <= |rest[0].data|
              && Continues(DataOf(rest), s, rest[0].data[|s.data|..], rest[1..], missing)
              && (missing == [] && rest[0].data != [] ==> s.data != [])
  {
    hide Encode, RawExact, RawSome, DataOf, GetU16, U16, Continues;
    var c := rest[0];
    var header := U16(|c.data|) + [c.padding];
    var body := c.data + (Zeros(c.padding) + Encode(r.readPadding + 1, rest[1..]));
    EncodeStep(r.readPadding, rest);
    assert Raw(r) + missing == header + body by {
      assert Zeros(0) + Encode(r.readPadding, rest) == Encode(r.readPadding, rest);
      assert [] + Encode(r.readPadding, rest) == Encode(r.readPadding, rest);
    }
    HeaderFields(header, c);
    RawExactFacts(r, 3);
    if |Raw(r)| >= 3 {
      SplitFront(Raw(r), missing, header + body, 3);
      assert (header + body)[..3] == header && (header + body)[3..] == body;
      AfterHeader(RawExact(r, 3).value.reader, want, pick, c, rest, Zeros(c.padding)
          + Encode(r.readPadding + 1, rest[1..]), missing);
    }
  }

  lemma AfterHeader(r: Reader, want: nat, pick: nat, c: Chunk, rest: seq<Chunk>, tail: Bytes, missing: Bytes)
    requires rest != [] && c == rest[0] && Fit(rest) && r.readPadding < NAIVE_PADDING_COUNT && want > 0
    requires tail == Zeros(c.padding) + Encode(r.readPadding + 1, rest[1..])
    requires Raw(r) + missing == c.data + tail
    ensures var s := RawSome(r, Min(|c.data|, want), pick);
            var s1 := Taken(s.reader.(readPadding := r.readPadding + 1, readRemaining := |c.data| - |s.data|,
                                     paddingRemaining := c.padding), s.data);
            && |s.data| <= |c.data|
            && Continues(DataOf(rest), s1, c.data[|s.data|..], rest[1..], missing)
            && (missing == [] && c.data != [] ==> s.data != [])
  {
    hide Encode, RawSome;
    var s := RawSome(r, Min(|c.data|, want), pick);
    RawSomeFacts(r, Min(|c.data|, want), pick);
    var n := |s.data|;
    SplitFront(Raw(r), missing, c.data + tail, n);
    assert Raw(r)[..n] == s.data && Raw(r)[n..] == Raw(s.reader);
    assert (c.data + tail)[..n] == c.data[..n] && (c.data + tail)[n..] == c.data[n..] + tail;
    SplitSlice(c.data, 0, n);
    Associative(c.data[..n], c.data[n..], DataOf(rest[1..]));
    assert missing == [] ==> |Raw(r)| >= |c.data|;
  }

  lemma {:induction false} RawMode(chunks: seq<Chunk>)
    requires Fit(chunks)
    ensures Encode(NAIVE_PADDING_COUNT, chunks) == DataOf(chunks)
  {
    if chunks != [] {
      RawMode(chunks[1..]);
    }
  }

  /** Cuts raw bytes into chunks that fit; in raw mode boundaries do not matter. */
  function Rechunk(data: Bytes): (chunks: seq<Chunk>)
    ensures Fit(chunks) && DataOf(chunks) == data
  {
    if data == [] then []
    else
      var n := Min(|data|, NAIVE_MAX_CHUNK);
      [Chunk(data[..n], 0)] + Rechunk(data[n..])
  }

  lemma ReadRaw(r: Reader, want: nat, pick: nat, rest: seq<Chunk>, missing: Bytes)
    requires Shape(r, [], rest, missing) && r.paddingRemaining == 0 && r.readPadding == NAIVE_PADDING_COUNT && want > 0
    ensures var s := RawSome(r, want, pick);
            && |s.data| <= |DataOf(rest)|
            && Continues(DataOf(rest), s, [], Rechunk(DataOf(rest)[|s.data|..]), missing)
            && (missing == [] && DataOf(rest) != [] ==> s.data != [])
  {
    hide RawSome, Encode, Rechunk;
    var s := RawSome(r, want, pick);
    var all := DataOf(rest);
    var n := |s.data|;
    RawSomeFacts(r, want, pick);
    RawMode(rest);
    Prepended(all);
    assert Raw(r) + missing == all;
    SplitFront(Raw(r), missing, all, n);
    assert Raw(r)[..n] == s.data && Raw(r)[n..] == Raw(s.reader);
    RawMode(Rechunk(all[n..]));
    Prepended(all[n..]);
    SplitSlice(all, 0, n);
  }

  lemma Prepended(b: Bytes)
    ensures [] + (Zeros(0) + b) == b && [] + b == b
  {
  }

  /** What the writer wrote and the reader has not been given yet. */
  function Left(current: Bytes, rest: seq<Chunk>): Bytes {
    current + DataOf(rest)
  }

  /** Every read gives the next bytes of the data written, under every segmentation. While data is
      left and the connection is whole, a read never fails and never returns nothing; when
      all of it has been read, it returns nothing in raw mode and fails in padded mode. */
  lemma ReadGivesNext(r: Reader, want: nat, pick: nat, current: Bytes, rest: seq<Chunk>, missing: Bytes)
    requires Shape(r, current, rest, missing) && want > 0 && NonEmpty(rest)
    ensures ReadData(r, want, pick).Ok? ==>
              exists current1, rest1 :: NonEmpty(rest1)
                  && Continues(Left(current, rest), ReadData(r, want, pick).value, current1, rest1, missing)
    ensures missing == [] && Left(current, rest) != [] ==>
              ReadData(r, want, pick).Ok? && ReadData(r, want, pick).value.data != []
    ensures missing == [] && Left(current, rest) == [] ==>
              (if r.readPadding < NAIVE_PADDING_COUNT then ReadData(r, want, pick).Err?
               else ReadData(r, want, pick).Ok? && ReadData(r, want, pick).value.data == [])
  {
    hide Shape, RawSome, RawExact, Encode;
    if r.readRemaining > 0 {
      ReadCurrentFor(r, want, pick, current, rest, missing);
    } else {
      NoCurrent(r, current, rest, missing);
      SkipPadding(r, rest, missing);
      var skipped := if r.paddingRemaining > 0 then RawExact(r, r.paddingRemaining) else Ok(Taken(r, []));
      if skipped.Ok? {
        var r1 := skipped.value.reader.(paddingRemaining := 0);
        ReadBetween(r1, want, pick, rest, missing);
      }
    }
  }

  lemma NoCurrent(r: Reader, current: Bytes, rest: seq<Chunk>, missing: Bytes)
    requires Shape(r, current, rest, missing) && r.readRemaining == 0
    ensures current == [] && Left(current, rest) == DataOf(rest)
  {
  }

  lemma ReadCurrentFor(r: Reader, want: nat, pick: nat, current: Bytes, rest: seq<Chunk>, missing: Bytes)
    requires Shape(r, current, rest, missing) && r.readRemaining > 0 && want > 0 && NonEmpty(rest)
    ensures ReadData(r, want, pick).Ok? && Left(current, rest) != []
    ensures missing == [] ==> ReadData(r, want, pick).value.data != []
    ensures exists current1, rest1 ::
            NonEmpty(rest1)
            && Continues(Left(current, rest), ReadData(r, want, pick).value, current1, rest1, missing)
  {
    ReadCurrent(r, want, pick, current, rest, missing);
    var s := ReadData(r, want, pick).value;
    assert NonEmpty(rest) && Continues(Left(current, rest), s, current[|s.data|..], rest, missing);
  }

  lemma {:induction false} NothingLeft(chunks: seq<Chunk>)
    requires NonEmpty(chunks)
    ensures DataOf(chunks) == [] <==> chunks == []
  {
  }

  lemma {:induction false} RechunkNonEmpty(data: Bytes)
    ensures NonEmpty(Rechunk(data))
    decreases |data|
  {
    if data != [] {
      RechunkNonEmpty(data[Min(|data|, NAIVE_MAX_CHUNK)..]);
    }
  }

  /** A read that starts between two chunks, padding already skipped. */
  function ReadFresh(r: Reader, want: nat, pick: nat): Result<Taken> {
    if r.readPadding < NAIVE_PADDING_COUNT then ReadHeader(r, want, pick) else Ok(RawSome(r, want, pick))
  }

  lemma ReadBetween(r: Reader, want: nat, pick: nat, rest: seq<Chunk>, missing: Bytes)
    requires Shape(r, [], rest, missing) && r.paddingRemaining == 0 && want > 0 && NonEmpty(rest)
    ensures var result := ReadFresh(r, want, pick);
            && (result.Ok? ==> exists current1, rest1 ::
                NonEmpty(rest1)
                && Continues(DataOf(rest), result.value, current1, rest1, missing))
            && (missing == [] && DataOf(rest) != [] ==> result.Ok? && result.value.data != [])
            && (missing == [] && DataOf(rest) == [] ==>
                  if r.readPadding < NAIVE_PADDING_COUNT then result.Err? else result.Ok? && result.value.data == [])
  {
    hide RawSome, RawExact, Encode;
    NothingLeft(rest);
    if r.readPadding == NAIVE_PADDING_COUNT {
      ReadRaw(r, want, pick, rest, missing);
      var s := RawSome(r, want, pick);
      RechunkNonEmpty(DataOf(rest)[|s.data|..]);
      assert NonEmpty(Rechunk(DataOf(rest)[|s.data|..]))
             && Continues(DataOf(rest), s, [], Rechunk(DataOf(rest)[|s.data|..]), missing);
    } else if rest != [] {
      ReadNext(r, want, pick, rest, missing);
      if ReadHeader(r, want, pick).Ok? {
        var s := ReadHeader(r, want, pick).value;
        assert NonEmpty(rest[1..]) && Continues(DataOf(rest), s, rest[0].data[|s.data|..], rest[1..], missing);
      }
    } else {
      NoHeaderLeft(r, want, pick, missing);
    }
  }

  lemma NoHeaderLeft(r: Reader, want: nat, pick: nat, missing: Bytes)
    requires Shape(r, [], [], missing) && r.paddingRemaining == 0
    ensures ReadHeader(r, want, pick).Err?
  {
  }

  // ---- whole runs

  /** Reads with the given buffer sizes and segmentations; stops at the first failure. */
  function ReadAll(r: Reader, wants: seq<nat>, picks: nat -> nat): Bytes
    decreases |wants|
  {
    if wants == [] then [] else
    match ReadData(r, wants[0], picks(|wants|))
    case Err => []
    case Ok(s) => s.data + ReadAll(s.reader, wants[1..], picks)
  }

  /** For any writes, padding, segmentation and buffer sizes, even when the connection is cut: what
      has been read is always a prefix of what was written. */
  lemma {:induction false} ReadsArePrefix(r: Reader, wants: seq<nat>, picks: nat -> nat, current: Bytes,
      rest: seq<Chunk>, missing: Bytes)
    requires Shape(r, current, rest, missing) && NonEmpty(rest)
    requires forall i :: 0 <= i < |wants| ==> wants[i] > 0
    ensures ReadAll(r, wants, picks) <= Left(current, rest)
    decreases |wants|
  {
    hide Shape, ReadData;
    if wants != [] {
      ReadGivesNext(r, wants[0], picks(|wants|), current, rest, missing);
      var result := ReadData(r, wants[0], picks(|wants|));
      if result.Ok? {
        var current1, rest1 :| NonEmpty(rest1)
            && Continues(Left(current, rest), result.value, current1, rest1, missing);
        ReadsArePrefix(result.value.reader, wants[1..], picks, current1, rest1, missing);
      }
    }
  }

  /** On a whole connection as many reads as there are bytes reach the end of the data. */
  lemma {:induction false} ReadsReachEnd(r: Reader, wants: seq<nat>, picks: nat -> nat, current: Bytes,
      rest: seq<Chunk>)
    requires Shape(r, current, rest, []) && NonEmpty(rest)
    requires forall i :: 0 <= i < |wants| ==> wants[i] > 0
    requires |wants| >= |Left(current, rest)|
    ensures ReadAll(r, wants, picks) == Left(current, rest)
    decreases |wants|
  {
    hide Shape, ReadData;
    ReadsArePrefix(r, wants, picks, current, rest, []);
    if wants != [] && Left(current, rest) != [] {
      ReadGivesNext(r, wants[0], picks(|wants|), current, rest, []);
      var s := ReadData(r, wants[0], picks(|wants|)).value;
      var current1, rest1 :| NonEmpty(rest1) && Continues(Left(current, rest), s, current1, rest1, []);
      ReadsReachEnd(s.reader, wants[1..], picks, current1, rest1);
    }
  }

  lemma FreshReader(enabled: bool, chunks: seq<Chunk>, pending: Bytes, wire: Bytes, missing: Bytes)
    requires Fit(chunks) && pending + wire + missing == Encode(Start(enabled), chunks)
    ensures Shape(Reader(Start(enabled), 0, 0, pending, wire), [], chunks, missing)
  {
  }

  /** A fresh reader on what a writer sent, with padding on or off and the first bytes possibly read
      too early: it reads a prefix of the data written, and all of it if nothing is cut off. */
  lemma StreamRoundTrip(enabled: bool, chunks: seq<Chunk>, pending: Bytes, wire: Bytes, missing: Bytes,
      wants: seq<nat>, picks: nat -> nat)
    requires Fit(chunks) && NonEmpty(chunks) && pending + wire + missing == Encode(Start(enabled), chunks)
    requires forall i :: 0 <= i < |wants| ==> wants[i] > 0
    ensures var read := ReadAll(Reader(Start(enabled), 0, 0, pending, wire), wants, picks);
            && read <= DataOf(chunks)
            && (missing == [] && |wants| >= |DataOf(chunks)| ==> read == DataOf(chunks))
  {
    hide Shape, ReadAll;
    var r := Reader(Start(enabled), 0, 0, pending, wire);
    FreshReader(enabled, chunks, pending, wire, missing);
    assert Left([], chunks) == DataOf(chunks);
    ReadsArePrefix(r, wants, picks, [], chunks, missing);
    if missing == [] && |wants| >= |DataOf(chunks)| {
      ReadsReachEnd(r, wants, picks, [], chunks);
    }
  }

  class NaiveReader {
    var readPadding: nat
    var readRemaining: nat
    var paddingRemaining: nat
    var pending: Bytes
    var wire: Bytes

    function View(): Reader
      reads this
    {
      Reader(readPadding, readRemaining, paddingRemaining, pending, wire)
    }

    constructor (enabled: bool, pending: Bytes, wire: Bytes)
      ensures View() == Reader(Start(enabled), 0, 0, pending, wire)
    {
      readPadding, readRemaining, paddingRemaining := Start(enabled), 0, 0;
      this.pending, this.wire := pending, wire;
    }

    method ReadRawSome(want: nat, pick: nat) returns (data: Bytes)
      modifies this`pending, this`wire
      ensures Taken(View(), data) == RawSome(old(View()), want, pick)
    {
      if pending != [] {
        var n := Min(|pending|, want);
        data, pending := pending[..n], pending[n..];
      } else {
        var n := Segment(want, |wire|, pick);
        data, wire := wire[..n], wire[n..];
      }
    }

    method ReadRawExact(size: nat) returns (r: Result<Bytes>)
      modifies this`pending, this`wire
      ensures r.Ok? <==> RawExact(old(View()), size).Ok?
      ensures r.Ok? ==> Taken(View(), r.value) == RawExact(old(View()), size).value
      ensures r.Err? ==> View() == old(View()).(pending := pending, wire := wire)
    {
      var n := Min(|pending|, size);
      var output := pending[..n];
      pending := pending[n..];
      if |wire| < size - n {
        wire := [];
        return Err;
      }
      output, wire := output + wire[..size - n], wire[size - n..];
      r := Ok(output);
    }

    method ReadPaddedChunk(want: nat, pick: nat) returns (r: Result<Bytes>)
      modifies this
      ensures r.Ok? <==> ReadHeader(old(View()), want, pick).Ok?
      ensures r.Ok? ==> Taken(View(), r.value) == ReadHeader(old(View()), want, pick).value
    {
      hide RawSome, GetU16;
      RawExactFacts(View(), 3);
      var header := ReadRawExact(3);
      if header.Err? {
        return Err;
      }
      var size := GetU16(header.value, 0);
      RawSomeFacts(View(), Min(size, want), pick);
      var data := ReadRawSome(Min(size, want), pick);
      readPadding := readPadding + 1;
      readRemaining := size - |data|;
      paddingRemaining := header.value[2];
      r := Ok(data);
    }

    method Read(want: nat, pick: nat) returns (r: Result<Bytes>)
      modifies this
      ensures r.Ok? <==> ReadData(old(View()), want, pick).Ok?
      ensures r.Ok? ==> Taken(View(), r.value) == ReadData(old(View()), want, pick).value
    {
      hide RawSome, RawExact, ReadHeader;
      if readRemaining > 0 {
        RawSomeFacts(View(), Min(readRemaining, want), pick);
        var data := ReadRawSome(Min(readRemaining, want), pick);
        readRemaining := readRemaining - |data|;
        return Ok(data);
      }
      if paddingRemaining > 0 {
        var skipped := ReadRawExact(paddingRemaining);
        if skipped.Err? {
          return Err;
        }
        paddingRemaining := 0;
      }
      if readPadding < NAIVE_PADDING_COUNT {
        r := ReadPaddedChunk(want, pick);
        return;
      }
      var data := ReadRawSome(want, pick);
      r := Ok(data);
    }
  }
}
