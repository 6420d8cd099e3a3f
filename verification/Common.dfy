/** Types shared by every component: optional values, bytes and byte strings. */
module Common {

  datatype Option<+T> = None | Some(value: T)

  datatype Result<+T> = Ok(value: T) | Err

  type Byte = x: int | 0 <= x < 256

  type Bytes = seq<Byte>

  function Min(a: int, b: int): int {
    if a <= b then a else b
  }

  function Zeros(n: nat): (b: Bytes)
    ensures |b| == n && forall i :: 0 <= i < n ==> b[i] == 0
  {
    seq(n, _ => 0)
  }

  /** The concatenation of a list of byte strings. */
  function Concat(parts: seq<Bytes>): Bytes {
    if parts == [] then [] else parts[0] + Concat(parts[1..])
  }

  lemma ConcatCons(first: Bytes, rest: seq<Bytes>)
    ensures Concat([first] + rest) == first + Concat(rest)
  {
    assert ([first] + rest)[1..] == rest;
  }

  lemma {:induction false} ConcatAppend(a: seq<Bytes>, b: seq<Bytes>)
    ensures Concat(a + b) == Concat(a) + Concat(b)
  {
    if a == [] {
      assert a + b == b;
    } else {
      assert (a + b)[0] == a[0] && (a + b)[1..] == a[1..] + b;
      ConcatAppend(a[1..], b);
    }
  }

  lemma ConcatSnoc(a: seq<Bytes>, x: Bytes)
    ensures Concat(a + [x]) == Concat(a) + x
  {
    ConcatAppend(a, [x]);
    assert Concat([x]) == x + Concat([]);
  }

  /** A prefix of a list of byte strings concatenates to a prefix. */
  lemma ConcatPrefix(parts: seq<Bytes>, k: nat)
    requires k <= |parts|
    ensures Concat(parts[..k]) <= Concat(parts)
  {
    assert parts == parts[..k] + parts[k..];
    ConcatAppend(parts[..k], parts[k..]);
  }

  /** Cuts a payload into pieces of a size; only the last may be shorter. */
  function Chunks(payload: Bytes, size: nat): seq<Bytes>
    requires size > 0
  {
    if payload == [] then []
    else if |payload| <= size then [payload]
    else [payload[..size]] + Chunks(payload[size..], size)
  }

  lemma {:induction false} ChunksRejoin(payload: Bytes, size: nat)
    requires size > 0
    ensures Concat(Chunks(payload, size)) == payload
    ensures forall i :: 0 <= i < |Chunks(payload, size)| ==> 0 < |Chunks(payload, size)[i]| <= size
    decreases |payload|
  {
    if |payload| > size {
      ChunksRejoin(payload[size..], size);
      SplitSlice(payload, 0, size);
      assert Chunks(payload, size)[1..] == Chunks(payload[size..], size);
    } else if payload != [] {
      assert Concat([payload]) == payload + Concat([]);
    }
  }

  lemma SmallRemainder(x: nat, n: nat)
    requires x < n
    ensures x % n == x
  {
  }

  lemma MulMonotone(a: nat, b: nat, size: nat)
    requires a <= b
    ensures a * size <= b * size
  {
  }

  /** There are as many pieces as the length divided by the size, rounded up. */
  lemma {:induction false} ChunkNumber(payload: Bytes, size: nat)
    requires size > 0
    ensures |payload| <= |Chunks(payload, size)| * size
    ensures payload != [] ==> (|Chunks(payload, size)| - 1) * size < |payload|
    ensures payload == [] ==> Chunks(payload, size) == []
    decreases |payload|
  {
    if |payload| > size {
      ChunkNumber(payload[size..], size);
      var n := |Chunks(payload[size..], size)|;
      assert (n + 1) * size == n * size + size && (n - 1) * size + size == n * size;
    }
  }

  /** A piece starts where the pieces before it end, and is full unless it is the last. */
  lemma {:induction false} ChunkAt(payload: Bytes, size: nat, i: nat)
    requires size > 0 && i < |Chunks(payload, size)|
    ensures 0 <= i * size <= Min((i + 1) * size, |payload|)
    ensures Chunks(payload, size)[i] == payload[i * size..Min((i + 1) * size, |payload|)]
    decreases i
  {
    if i > 0 {
      ChunkAt(payload[size..], size, i - 1);
      MulStep(i - 1, size);
      MulStep(i, size);
      ShiftSlice(payload, size, (i - 1) * size, Min(i * size, |payload| - size));
      assert Chunks(payload, size)[i] == Chunks(payload[size..], size)[i - 1];
    }
  }

  lemma MulStep(i: int, size: int)
    ensures (i + 1) * size == i * size + size
  {
  }

  lemma ShiftSlice(s: Bytes, skip: nat, from: nat, to: nat)
    requires skip <= |s| && from <= to <= |s| - skip
    ensures s[skip..][from..to] == s[skip + from..skip + to]
  {
  }

  lemma SplitSlice<T>(s: seq<T>, a: nat, b: nat)
    requires a <= b <= |s|
    ensures s[a..] == s[a..b] + s[b..]
  {
  }

  lemma Associative<T>(a: seq<T>, b: seq<T>, c: seq<T>)
    ensures (a + b) + c == a + (b + c)
  {
  }

  lemma {:induction false} SubsetSize<T>(a: set<T>, b: set<T>)
    requires a <= b
    ensures |a| <= |b|
    decreases |a|
  {
    if a != {} {
      var x :| x in a;
      SubsetSize(a - {x}, b - {x});
    }
  }

  /** The bytes with a piece of them written over. */
  function Overwrite(b: Bytes, at: nat, piece: Bytes): Bytes
    requires at + |piece| <= |b|
  {
    b[..at] + piece + b[at + |piece|..]
  }
}
