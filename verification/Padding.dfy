/** Padding schemes: which sizes the first packets of a session are cut and filled to. */
module Padding {
  import opened Common

  const CHECKPOINT: int := -1

  datatype Rule = Range(min: nat, max: nat) | Checkpoint

  /** A parsed scheme: the first unpadded packet, and rules per packet number. */
  datatype Scheme = Scheme(stop: nat, rules: seq<(nat, seq<Rule>)>)

  /** What parsing a scheme guarantees. There is no upper bound on a range. */
  predicate ValidRule(r: Rule) {
    r.Range? ==> 0 < r.min <= r.max
  }

  predicate ValidScheme(s: Scheme) {
    s.stop > 0 && forall i, j :: 0 <= i < |s.rules| && 0 <= j < |s.rules[i].1| ==> ValidRule(s.rules[i].1[j])
  }

  function SizeOf(r: Rule, random: nat): int
    requires ValidRule(r)
  {
    match r
    case Checkpoint => CHECKPOINT
    case Range(min, max) => if min == max then min else min + random % (max - min)
  }

  function SizesOf(rules: seq<Rule>, random: seq<nat>): (sizes: seq<int>)
    requires |random| == |rules| && forall j :: 0 <= j < |rules| ==> ValidRule(rules[j])
    ensures |sizes| == |rules|
    ensures forall j :: 0 <= j < |rules| ==> sizes[j] == SizeOf(rules[j], random[j])
  {
    if rules == [] then [] else [SizeOf(rules[0], random[0])] + SizesOf(rules[1..], random[1..])
  }

  function RulesFor(rules: seq<(nat, seq<Rule>)>, packet: nat): seq<Rule> {
    if rules == [] then [] else if rules[0].0 == packet then rules[0].1 else RulesFor(rules[1..], packet)
  }

  lemma {:induction false} RulesForAreRules(rules: seq<(nat, seq<Rule>)>, packet: nat)
    ensures RulesFor(rules, packet) == [] || exists i :: 0 <= i < |rules| && RulesFor(rules, packet) == rules[i].1
  {
    if rules != [] && rules[0].0 != packet {
      RulesForAreRules(rules[1..], packet);
      if RulesFor(rules[1..], packet) != [] {
        var i :| 0 <= i < |rules[1..]| && RulesFor(rules[1..], packet) == rules[1..][i].1;
        assert rules[i + 1] == rules[1..][i];
      }
    }
  }

  /** A list of sizes that a scheme may draw for a packet. */
  ghost predicate Drawn(s: Scheme, packet: nat, sizes: seq<int>)
    requires ValidScheme(s)
  {
    RulesForAreRules(s.rules, packet);
    var rules := RulesFor(s.rules, packet);
    exists random: seq<nat> :: |random| == |rules| && sizes == SizesOf(rules, random)
  }

  /** No range of the scheme goes past what a 16-bit length can say. */
  predicate FitsLength(s: Scheme) {
    forall i, j :: 0 <= i < |s.rules| && 0 <= j < |s.rules[i].1| && s.rules[i].1[j].Range?
                   ==> s.rules[i].1[j].max < 0x1_0000
  }

  /** A size that a rule allows: the upper end of a range is not drawn, unless it is the only one. */
  predicate Allows(r: Rule, size: int) {
    match r
    case Checkpoint => size == -1
    case Range(min, max) => min <= size < max || min == size == max
  }

  /** The sizes are one for each rule of the first entry for the packet, and none without an entry. */
  predicate FollowsFirst(rules: seq<(nat, seq<Rule>)>, packet: nat, sizes: seq<int>) {
    if exists i :: 0 <= i < |rules| && rules[i].0 == packet then
      exists i :: 0 <= i < |rules| && IsFirst(rules, packet, i) && |sizes| == |rules[i].1|
                  && forall j :: 0 <= j < |sizes| ==> Allows(rules[i].1[j], sizes[j])
    else sizes == []
  }

  predicate IsFirst(rules: seq<(nat, seq<Rule>)>, packet: nat, i: nat)
    requires i < |rules|
  {
    rules[i].0 == packet && forall j :: 0 <= j < i ==> rules[j].0 != packet
  }

  lemma {:induction false} RulesForFirst(rules: seq<(nat, seq<Rule>)>, packet: nat)
    ensures forall i :: 0 <= i < |rules| && IsFirst(rules, packet, i) ==> RulesFor(rules, packet) == rules[i].1
    ensures (forall i :: 0 <= i < |rules| ==> rules[i].0 != packet) ==> RulesFor(rules, packet) == []
    ensures (exists i :: 0 <= i < |rules| && rules[i].0 == packet)
            ==> exists i :: 0 <= i < |rules| && IsFirst(rules, packet, i)
  {
    if rules != [] {
      var rest := rules[1..];
      RulesForFirst(rest, packet);
      assert forall i :: 0 < i < |rules| ==> rules[i] == rest[i - 1];
      if rules[0].0 == packet {
        assert IsFirst(rules, packet, 0);
      } else {
        forall i | 0 <= i < |rules| && IsFirst(rules, packet, i) ensures i > 0 && IsFirst(rest, packet, i - 1) {
        }
        if exists i :: 0 <= i < |rest| && IsFirst(rest, packet, i) {
          var i :| 0 <= i < |rest| && IsFirst(rest, packet, i);
          assert IsFirst(rules, packet, i + 1);
        }
      }
    }
  }

  lemma SizeAllowed(r: Rule, random: nat)
    requires ValidRule(r)
    ensures Allows(r, SizeOf(r, random))
  {
  }

  function Choice(r: Rule, size: int): nat {
    if r.Range? && size >= r.min then size - r.min else 0
  }

  lemma AllowedIsDrawn(r: Rule, size: int)
    requires ValidRule(r) && Allows(r, size)
    ensures SizeOf(r, Choice(r, size)) == size
  {
    if r.Range? && r.min < r.max { SmallRemainder(size - r.min, r.max - r.min); }
  }

  lemma SizesAllowed(rules: seq<Rule>, sizes: seq<int>)
    requires forall j :: 0 <= j < |rules| ==> ValidRule(rules[j])
    ensures (exists random: seq<nat> :: |random| == |rules| && sizes == SizesOf(rules, random))
            <==> |sizes| == |rules| && forall j :: 0 <= j < |sizes| ==> Allows(rules[j], sizes[j])
  {
    hide Allows, SizeOf, Choice, SizesOf;
    forall j, x: nat | 0 <= j < |rules| ensures Allows(rules[j], SizeOf(rules[j], x)) { SizeAllowed(rules[j], x); }
    if |sizes| == |rules| && forall j :: 0 <= j < |sizes| ==> Allows(rules[j], sizes[j]) {
      var random := seq(|rules|, j requires 0 <= j < |rules| => Choice(rules[j], sizes[j]));
      forall j | 0 <= j < |rules| ensures SizesOf(rules, random)[j] == sizes[j] { AllowedIsDrawn(rules[j], sizes[j]); }
      assert sizes == SizesOf(rules, random);
    }
  }

  /** A list of sizes can be drawn exactly if the first entry for the packet allows it, size by size. */
  lemma DrawnExactly(s: Scheme, packet: nat, sizes: seq<int>)
    requires ValidScheme(s)
    ensures Drawn(s, packet, sizes) <==> FollowsFirst(s.rules, packet, sizes)
  {
    hide SizesOf, Allows, RulesFor;
    RulesForAreRules(s.rules, packet);
    RulesForFirst(s.rules, packet);
    SizesAllowed(RulesFor(s.rules, packet), sizes);
  }

  /** Every size drawn is a checkpoint or positive, and within 16 bits if the scheme is. */
  lemma DrawnSizesFit(s: Scheme, packet: nat, sizes: seq<int>, k: nat)
    requires ValidScheme(s) && Drawn(s, packet, sizes) && k < |sizes|
    ensures sizes[k] == CHECKPOINT || sizes[k] > 0
    ensures FitsLength(s) ==> sizes[k] < 0x1_0000
  {
    RulesForAreRules(s.rules, packet);
    var rules := RulesFor(s.rules, packet);
    var random: seq<nat> :| |random| == |rules| && sizes == SizesOf(rules, random);
    var i :| 0 <= i < |s.rules| && rules == s.rules[i].1;
    assert ValidRule(s.rules[i].1[k]);
    assert sizes[k] == SizeOf(rules[k], random[k]);
  }

  /** The sizes of one packet, drawn with the given random numbers. */
  method RecordPayloadSizes(s: Scheme, packet: nat, random: nat -> nat) returns (sizes: seq<int>)
    requires ValidScheme(s)
    ensures Drawn(s, packet, sizes)
  {
    RulesForAreRules(s.rules, packet);
    var rules := RulesFor(s.rules, packet);
    sizes := [];
    ghost var drawn: seq<nat> := [];
    for i := 0 to |rules|
      invariant |drawn| == i && sizes == SizesOf(rules[..i], drawn)
    {
      assert rules[..i + 1] == rules[..i] + [rules[i]];
      sizes := sizes + [SizeOf(rules[i], random(i))];
      drawn := drawn + [random(i)];
      assert sizes == SizesOf(rules[..i + 1], drawn);
    }
    assert rules[..|rules|] == rules;
  }
}
