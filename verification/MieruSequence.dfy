/** 32-bit circular sequence numbers, and the unbounded ones they stand for. */
module MieruSequence {

  const CYCLE: int := 0x1_0000_0000
  const HALF: int := 0x8000_0000
  const MAX_PENDING_SEGMENTS: nat := 1024

  type U32 = x: int | 0 <= x < 0x1_0000_0000

  function WrapSub(a: U32, b: U32): U32 {
    if a >= b then a - b else a - b + CYCLE
  }

  function WrapAdd(a: U32, b: U32): U32 {
    if a + b < CYCLE then a + b else a + b - CYCLE
  }

  /** The wire form of an unbounded sequence number. */
  function Wire(n: nat): U32 {
    n % CYCLE
  }

  /** Numbers less than a cycle apart: their circular distance is their real one. */
  lemma WireDistance(x: nat, y: nat)
    requires x <= y < x + CYCLE
    ensures WrapSub(Wire(y), Wire(x)) == y - x
    ensures x < y ==> WrapSub(Wire(x), Wire(y)) == CYCLE - (y - x)
  {
  }

  lemma WireStep(n: nat, d: U32)
    ensures WrapAdd(Wire(n), d) == Wire(n + d)
  {
  }

  lemma WrapSubShift(k: U32, a: U32, b: U32)
    requires WrapSub(b, a) <= WrapSub(k, a)
    ensures WrapSub(k, b) == WrapSub(k, a) - WrapSub(b, a)
  {
  }
}
