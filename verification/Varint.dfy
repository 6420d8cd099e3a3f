/** Variable-length integers of QUIC (RFC 9000, section 16). */
module Varint {
  import opened Common
  import opened BigEndian

  const VARINT_LIMIT: nat := 0x4000_0000_0000_0000

  function EncodeVarint(v: nat): (r: Result<Bytes>)
    ensures r.Ok? <==> v < VARINT_LIMIT
    ensures r.Ok? ==> 1 <= |r.value| <= 8
  {
    if v < 0x40 then Ok([v])
    else if v < 0x4000 then Ok(U16(v + 0x4000))
    else if v < 0x4000_0000 then Ok(U32(v + 0x8000_0000))
    else if v < VARINT_LIMIT then Ok(U64(v + 0xC000_0000_0000_0000))
    else Err
  }

  /** The length of an encoding is in the two highest bits of its first byte. */
  function LengthOf(first: Byte): nat {
    if first < 0x40 then 1 else if first < 0x80 then 2 else if first < 0xC0 then 4 else 8
  }

  datatype Read = Read(value: nat, rest: Bytes)

  function ReadVarint(b: Bytes): Result<Read> {
    if b == [] || |b| < LengthOf(b[0]) then Err
    else Ok(Read(Fold(b[0] % 0x40, b[1..LengthOf(b[0])]), b[LengthOf(b[0])..]))
  }

  method ReadVarintFromSlice(b: Bytes) returns (r: Result<Read>)
    ensures r == ReadVarint(b)
  {
    if b == [] {
      return Err;
    }
    var n := LengthOf(b[0]);
    if |b| < n {
      return Err;
    }
    var value: nat := b[0] % 0x40;
    for i := 1 to n
      invariant Fold(value, b[i..n]) == Fold(b[0] % 0x40, b[1..n])
    {
      assert b[i..n][0] == b[i] && b[i..n][1..] == b[i + 1..n];
      value := 256 * value + (b[i] as int);
    }
    assert b[n..n] == [];
    r := Ok(Read(value, b[n..]));
  }

  lemma FoldFirst(b: Bytes, high: nat)
    requires b != [] && high <= b[0]
    ensures Fold(b[0] - high, b[1..]) == Fold(0, [b[0] - high] + b[1..])
  {
  }

  /** The four forms: the first byte tells the length, and the marked bits are taken off again. */
  lemma FormOfOne(v: nat)
    requires v < 0x40
    ensures var e := EncodeVarint(v).value; |e| == LengthOf(e[0]) && Fold(e[0] % 0x40, e[1..]) == v
  {
  }

  lemma FormOfTwo(v: nat)
    requires 0x40 <= v < 0x4000
    ensures var e := EncodeVarint(v).value; |e| == LengthOf(e[0]) && Fold(e[0] % 0x40, e[1..]) == v
  {
  }

  lemma MarkU32(v: nat, mark: nat)
    requires v < 0x4000_0000 && (mark == 0x80 || mark == 0xC0)
    ensures var e := U32(v + mark * 0x100_0000);
            && mark <= e[0] < mark + 0x40 && e[0] % 0x40 == e[0] - mark
            && [e[0] - mark] + e[1..] == U32(v)
  {
    var e, u := U32(v + mark * 0x100_0000), U32(v);
    assert e[0] == u[0] + mark;
    assert e[1] == u[1] && e[2] == u[2] && e[3] == u[3];
  }

  lemma FormOfFour(v: nat)
    requires 0x4000 <= v < 0x4000_0000
    ensures var e := EncodeVarint(v).value; |e| == LengthOf(e[0]) && Fold(e[0] % 0x40, e[1..]) == v
  {
    hide Fold, U32;
    var e := EncodeVarint(v).value;
    MarkU32(v, 0x80);
    FoldFirst(e, 0x80);
    FoldU32(0, v);
  }

  lemma FormOfEight(v: nat)
    requires 0x4000_0000 <= v < VARINT_LIMIT
    ensures var e := EncodeVarint(v).value; |e| == LengthOf(e[0]) && Fold(e[0] % 0x40, e[1..]) == v
  {
    hide Fold, U32;
    var e := EncodeVarint(v).value;
    var hi, lo := v / 0x1_0000_0000, v % 0x1_0000_0000;
    var top := U32(hi + 0xC0 * 0x100_0000);
    assert (v + 0xC000_0000_0000_0000) / 0x1_0000_0000 == hi + 0xC0 * 0x100_0000;
    assert (v + 0xC000_0000_0000_0000) % 0x1_0000_0000 == lo;
    assert e == top + U32(lo);
    MarkU32(hi, 0xC0);
    assert e[0] == top[0] && e[1..] == top[1..] + U32(lo);
    assert [e[0] - 0xC0] + e[1..] == ([top[0] - 0xC0] + top[1..]) + U32(lo);
    FoldFirst(e, 0xC0);
    FoldAppend(0, U32(hi), U32(lo));
    FoldU32(0, hi);
    FoldU32(hi, lo);
  }

  /** What is encoded is read back, whatever follows it. */
  lemma VarintReadBack(v: nat, rest: Bytes)
    requires v < VARINT_LIMIT
    ensures ReadVarint(EncodeVarint(v).value + rest) == Ok(Read(v, rest))
  {
    hide EncodeVarint, Fold;
    var e := EncodeVarint(v).value;
    var b := e + rest;
    if v < 0x40 { FormOfOne(v); }
    else if v < 0x4000 { FormOfTwo(v); }
    else if v < 0x4000_0000 { FormOfFour(v); }
    else { FormOfEight(v); }
    assert b[0] == e[0];
    assert b[|e|..] == rest && b[1..|e|] == e[1..];
  }
}
