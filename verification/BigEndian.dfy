/** Big-endian integers of fixed width. */
module BigEndian {
  import opened Common

  function U16(n: nat): (b: Bytes)
    requires n < 0x1_0000
    ensures |b| == 2 && GetU16(b, 0) == n
  {
    [n / 256, n % 256]
  }

  function U24(n: nat): (b: Bytes)
    requires n < 0x100_0000
    ensures |b| == 3 && GetU24(b, 0) == n
  {
    [n / 0x1_0000, n / 256 % 256, n % 256]
  }

  function U32(n: nat): (b: Bytes)
    requires n < 0x1_0000_0000
    ensures |b| == 4 && GetU32(b, 0) == n
  {
    var high, low := n / 0x1_0000, n % 0x1_0000;
    [high / 256, high % 256, low / 256, low % 256]
  }

  function U64(n: nat): (b: Bytes)
    requires n < 0x1_0000_0000_0000_0000
    ensures |b| == 8
  {
    U32(n / 0x1_0000_0000) + U32(n % 0x1_0000_0000)
  }

  function GetU16(b: Bytes, i: nat): (n: nat)
    requires i + 2 <= |b|
    ensures n < 0x1_0000
  {
    256 * (b[i] as int) + b[i + 1]
  }

  function GetU24(b: Bytes, i: nat): (n: nat)
    requires i + 3 <= |b|
    ensures n < 0x100_0000
  {
    0x1_0000 * (b[i] as int) + 256 * (b[i + 1] as int) + b[i + 2]
  }

  function GetU32(b: Bytes, i: nat): (n: nat)
    requires i + 4 <= |b|
    ensures n < 0x1_0000_0000
  {
    0x100_0000 * (b[i] as int) + 0x1_0000 * (b[i + 1] as int) + 256 * (b[i + 2] as int) + b[i + 3]
  }

  /** Writing a number that was read gives the bytes it was read from. */
  lemma U16Back(b: Bytes, i: nat)
    requires i + 2 <= |b|
    ensures U16(GetU16(b, i)) == b[i..i + 2]
  {
  }

  lemma U32Back(b: Bytes, i: nat)
    requires i + 4 <= |b|
    ensures U32(GetU32(b, i)) == b[i..i + 4]
  {
    U16Back(b, i);
    U16Back(b, i + 2);
    var high, low := GetU16(b, i), GetU16(b, i + 2);
    assert GetU32(b, i) == 0x1_0000 * high + low;
    QuotientAndRest(high, low);
    assert U32(GetU32(b, i)) == U16(high) + U16(low);
  }

  lemma QuotientAndRest(high: nat, low: nat)
    requires low < 0x1_0000
    ensures (0x1_0000 * high + low) / 0x1_0000 == high && (0x1_0000 * high + low) % 0x1_0000 == low
  {
  }

  /** A field at the front of a message is read back whatever follows it. */
  lemma FrontU16(n: nat, rest: Bytes)
    requires n < 0x1_0000
    ensures GetU16(U16(n) + rest, 0) == n && (U16(n) + rest)[2..] == rest
  {
  }

  /** A field of a suffix is a field of the whole. */
  lemma SuffixU16(b: Bytes, offset: nat, i: nat)
    requires offset <= |b| && offset + i + 2 <= |b|
    ensures GetU16(b[offset..], i) == GetU16(b, offset + i)
  {
  }

  lemma U64Injective(m: nat, n: nat)
    requires m < 0x1_0000_0000_0000_0000 && n < 0x1_0000_0000_0000_0000 && U64(m) == U64(n)
    ensures m == n
  {
    assert U64(m)[..4] == U32(m / 0x1_0000_0000) && U64(m)[4..] == U32(m % 0x1_0000_0000);
    assert U64(n)[..4] == U32(n / 0x1_0000_0000) && U64(n)[4..] == U32(n % 0x1_0000_0000);
    assert GetU32(U32(m / 0x1_0000_0000), 0) == GetU32(U32(n / 0x1_0000_0000), 0);
    assert GetU32(U32(m % 0x1_0000_0000), 0) == GetU32(U32(n % 0x1_0000_0000), 0);
  }

  /** The number that big-endian digits stand for, after a number in front of them. */
  function Fold(v: nat, b: Bytes): nat
    decreases |b|
  {
    if b == [] then v else Fold(256 * v + b[0], b[1..])
  }

  lemma FoldOne(v: nat, a: Byte)
    ensures Fold(v, [a]) == 256 * v + a
  {
  }

  lemma {:induction false} FoldAppend(v: nat, a: Bytes, b: Bytes)
    ensures Fold(v, a + b) == Fold(Fold(v, a), b)
    decreases |a|
  {
    if a == [] {
      assert a + b == b;
    } else {
      assert (a + b)[0] == a[0] && (a + b)[1..] == a[1..] + b;
      FoldAppend(256 * v + a[0], a[1..], b);
    }
  }

  lemma FoldFour(v: nat, a: Byte, b: Byte, c: Byte, d: Byte)
    ensures Fold(v, [a, b, c, d]) == 256 * (256 * (256 * (256 * v + a) + b) + c) + d
  {
    assert [a, b, c, d][1..] == [b, c, d] && [b, c, d][1..] == [c, d] && [c, d][1..] == [d];
    var v1 := 256 * v + a;
    var v2 := 256 * v1 + b;
    var v3 := 256 * v2 + c;
    assert Fold(v, [a, b, c, d]) == Fold(v1, [b, c, d]);
    assert Fold(v1, [b, c, d]) == Fold(v2, [c, d]);
    assert Fold(v2, [c, d]) == Fold(v3, [d]);
    FoldOne(v3, d);
  }

  lemma FoldU32(v: nat, n: nat)
    requires n < 0x1_0000_0000
    ensures Fold(v, U32(n)) == 0x1_0000_0000 * v + n
  {
    var b := U32(n);
    assert b == [b[0], b[1], b[2], b[3]];
    FoldFour(v, b[0], b[1], b[2], b[3]);
    assert GetU32(b, 0) == n;
  }

  lemma FoldU64(n: nat)
    requires n < 0x1_0000_0000_0000_0000
    ensures Fold(0, U64(n)) == n
  {
    var high, low := n / 0x1_0000_0000, n % 0x1_0000_0000;
    FoldAppend(0, U32(high), U32(low));
    FoldU32(0, high);
    FoldU32(high, low);
  }
}
