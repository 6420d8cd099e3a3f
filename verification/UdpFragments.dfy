/** Slots for the fragments of one packet. */
module UdpFragments {
  import opened Common

  const MAX_UDP_PAYLOAD: nat := 0xFFFF

  type Slots = seq<Option<Bytes>>

  function Missing(slots: Slots): nat {
    if slots == [] then 0 else (if slots[0].None? then 1 else 0) + Missing(slots[1..])
  }

  function TotalLength(slots: Slots): nat {
    if slots == [] then 0 else (if slots[0].Some? then |slots[0].value| else 0) + TotalLength(slots[1..])
  }

  function Join(slots: Slots): Bytes {
    if slots == [] then [] else (if slots[0].Some? then slots[0].value else []) + Join(slots[1..])
  }

  lemma {:induction false} FillSlot(slots: Slots, i: nat, payload: Bytes)
    requires i < |slots| && slots[i].None?
    ensures Missing(slots[i := Some(payload)]) == Missing(slots) - 1
    ensures TotalLength(slots[i := Some(payload)]) == TotalLength(slots) + |payload|
  {
    var after := slots[i := Some(payload)];
    if i == 0 {
      assert after[1..] == slots[1..];
    } else {
      assert after[1..] == slots[1..][i - 1 := Some(payload)];
      FillSlot(slots[1..], i - 1, payload);
    }
  }

  lemma {:induction false} NoneMissing(slots: Slots, i: nat)
    requires i < |slots|
    ensures Missing(slots) == 0 ==> slots[i].Some?
    ensures slots[i].None? ==> Missing(slots) > 0
  {
    if i > 0 {
      NoneMissing(slots[1..], i - 1);
    }
  }

  lemma {:induction false} AllMissing(n: nat)
    ensures Missing(seq(n, _ => None)) == n && TotalLength(seq(n, _ => None)) == 0
  {
    if n > 0 {
      var s: Slots := seq(n, _ => None);
      assert s[1..] == seq(n - 1, _ => None);
      AllMissing(n - 1);
    }
  }

  /** The fragments of one packet: the counters agree with the slots. */
  datatype Packet = Packet(slots: Slots, remaining: nat, length: nat)

  predicate ValidPacket(p: Packet) {
    p.remaining == Missing(p.slots) && p.length == TotalLength(p.slots) <= MAX_UDP_PAYLOAD
  }

  function Empty(count: nat): (p: Packet)
    ensures ValidPacket(p)
  {
    AllMissing(count);
    Packet(seq(count, _ => None), count, 0)
  }

  predicate Accepts(p: Packet, index: nat, payload: Bytes) {
    p.remaining > 0 && index < |p.slots| && p.slots[index].None? && p.length + |payload| <= MAX_UDP_PAYLOAD
  }

  function WithFragment(p: Packet, index: nat, payload: Bytes): (q: Packet)
    requires ValidPacket(p) && Accepts(p, index, payload)
    ensures ValidPacket(q)
  {
    FillSlot(p.slots, index, payload);
    Packet(p.slots[index := Some(payload)], p.remaining - 1, p.length + |payload|)
  }

  class FragmentPayload {
    var chunks: Slots
    var remaining: nat
    var length: nat
    /** Whether the chunks were taken out. */
    var taken: bool

    function View(): Packet
      reads this
    {
      Packet(chunks, remaining, length)
    }

    constructor (count: nat)
      ensures View() == Empty(count) && !taken
    {
      chunks, remaining, length, taken := seq(count, _ => None), count, 0, false;
    }

    /** Stores a fragment; with the last one the whole payload comes out, in index order. */
    method Insert(index: nat, payload: Bytes) returns (r: Result<Option<Bytes>>)
      requires !taken && ValidPacket(View())
      modifies this
      ensures r.Ok? <==> old(Accepts(View(), index, payload))
      ensures r.Err? ==> View() == old(View()) && !taken
      ensures r.Ok? ==> var p := old(WithFragment(View(), index, payload));
                        && r.value == (if p.remaining == 0 then Some(Join(p.slots)) else None)
                        && taken == (p.remaining == 0)
                        && (p.remaining > 0 ==> View() == p)
    {
      if remaining == 0 || index >= |chunks| || chunks[index].Some? || length + |payload| > MAX_UDP_PAYLOAD {
        return Err;
      }
      ghost var p := WithFragment(View(), index, payload);
      length := length + |payload|;
      remaining := remaining - 1;
      chunks := chunks[index := Some(payload)];
      if remaining != 0 {
        return Ok(None);
      }
      var whole: Bytes := [];
      assert chunks[0..] == chunks && [] + Join(chunks) == Join(chunks);
      for i := 0 to |chunks|
        invariant |chunks| == |p.slots| && chunks[i..] == p.slots[i..]
        invariant whole + Join(p.slots[i..]) == Join(p.slots)
      {
        NoneMissing(p.slots, i);
        assert p.slots[i..][0] == p.slots[i] && p.slots[i..][1..] == p.slots[i + 1..];
        assert chunks[i] == chunks[i..][0];
        Associative(whole, p.slots[i].value, Join(p.slots[i + 1..]));
        whole := whole + chunks[i].value;
        chunks := chunks[i := None];
        assert chunks[i + 1..] == p.slots[i + 1..];
      }
      assert p.slots[|p.slots|..] == [] && whole + [] == whole;
      taken := true;
      r := Ok(Some(whole));
    }
  }
}
