/** The five-byte radio address of every listening pipe, and who hears what is sent to it. */
module PhysicalPipes {
  import opened Bits
  import opened OctalTree
  import opened OctalValue
  import opened NodeRouting

  const TRANSLATION: seq<int> := [0xC3, 0x3C, 0x33, 0xCE, 0x3E, 0xE3, 0xEC]
  const FILLER := 0xCC

  // Names the translation table can spell: tree addresses and the multicast level addresses.
  ghost predicate Spellable(name: Digits) {
    Normal(name) && |name| <= 4 && forall i :: 0 <= i < |name| ==> name[i] <= 6
  }

  // Byte k of the address of one pipe of one node.
  ghost function AddressByte(name: Digits, pipe: nat, k: nat): int
    requires Spellable(name) && pipe <= 6
  {
    if pipe != 0 || name == [] then
      if k == 0 then TRANSLATION[pipe] else if k <= |name| then TRANSLATION[name[k - 1]] else FILLER
    else
      if k == 1 then TRANSLATION[|name|] else FILLER
  }

  ghost function PhysicalAddress(name: Digits, pipe: nat): (a: seq<int>)
    requires Spellable(name) && pipe <= 6
  {
    seq(5, k requires 0 <= k => AddressByte(name, pipe, k))
  }

  /** The bytes in full: spelled-out addresses begin with the pipe, and shared ones tell the level. */
  lemma AddressBytes()
    ensures PhysicalAddress([], 0) == [0xC3, 0xCC, 0xCC, 0xCC, 0xCC]
    ensures PhysicalAddress([1, 2], 4) == [0x3E, 0x3C, 0x33, 0xCC, 0xCC]
    ensures PhysicalAddress([3, 4, 5, 6], 5) == [0xE3, 0xCE, 0x3E, 0xE3, 0xEC]
    ensures PhysicalAddress([1, 2], 0) == [0xCC, 0x33, 0xCC, 0xCC, 0xCC]
    ensures forall d :: 1 <= d <= 5 ==> PhysicalAddress([d, d, d], 0) == [0xCC, 0xCE, 0xCC, 0xCC, 0xCC]
  {
  }

  /** The bytes are translated digit by digit; pipe 0 below the master spells only its level. */
  method PipeAddress(node: uint16, pipe: nat) returns (result: seq<int>)
    requires Spellable(DigitsOf(node)) && pipe <= 6
    ensures |result| == 8 && result[..5] == PhysicalAddress(DigitsOf(node), pipe)
    ensures result[5..] == [0, 0, 0]
  {
    ghost var name := DigitsOf(node);
    var out := new int[8](i => if i < 5 then FILLER else 0);
    var spelled := pipe != 0 || node == 0;
    var count := TranslateDigits(out, node, spelled);
    FinishedAddress(out[..], name, pipe);
    if spelled {
      out[0] := TRANSLATION[pipe];
    } else {
      out[1] := TRANSLATION[count - 1];
    }
    result := out[..];
  }

  // The digit loop: one byte per digit from byte 1 on, counted even where none is written.
  method TranslateDigits(out: array<int>, node: uint16, spelled: bool) returns (count: nat)
    requires Spellable(DigitsOf(node)) && out.Length == 8
    requires forall i :: 0 <= i < 8 ==> out[i] == if i < 5 then FILLER else 0
    modifies out
    ensures count == |DigitsOf(node)| + 1
    ensures forall i :: 0 <= i < 8 ==> out[i] == Spelled(DigitsOf(node), spelled, count, i)
  {
    ghost var name := DigitsOf(node);
    ghost var done: nat := 0; // digits translated
    var dec := node;
    count := 1;
    while dec != 0
      invariant 0 <= dec < WORD && count == done + 1
      invariant Remaining(name, done, dec)
      invariant forall i :: 0 <= i < 8 ==> out[i] == Spelled(name, spelled, count, i)
      decreases dec
    {
      NextDigit(name, done, dec);
      var digit := dec % 8;
      if spelled {
        out[count] := TRANSLATION[digit];
      }
      dec := dec / 8;
      count := count + 1;
      done := done + 1;
    }
    NoDigit(name, done);
  }

  ghost predicate Remaining(name: Digits, i: nat, rest: nat) {
    i <= |name| && name[i..] == DigitsOf(rest)
  }

  lemma NextDigit(name: Digits, i: nat, rest: nat)
    requires rest > 0 && Remaining(name, i, rest)
    ensures i < |name| && name[i] == rest % 8 && Remaining(name, i + 1, rest / 8)
  {
    DigitStep(rest);
    assert name[i] == name[i..][0];
    assert name[i + 1..] == name[i..][1..];
  }

  lemma NoDigit(name: Digits, i: nat)
    requires Remaining(name, i, 0)
    ensures i == |name|
  {
    assert |name[i..]| == 0;
  }

  lemma FinishedAddress(digits: seq<int>, name: Digits, pipe: nat)
    requires Spellable(name) && pipe <= 6 && |digits| == 8
    requires forall k :: 0 <= k < 8 ==> digits[k] == Spelled(name, pipe != 0 || name == [], |name| + 1, k)
    ensures var bytes :=
              if pipe != 0 || name == [] then digits[0 := TRANSLATION[pipe]] else digits[1 := TRANSLATION[|name|]];
            bytes[..5] == PhysicalAddress(name, pipe) && bytes[5..] == [0, 0, 0]
  {
  }

  // Byte i of the buffer while the digits below `count` have been written.
  ghost function Spelled(name: Digits, spelled: bool, count: nat, i: nat): int
    requires Spellable(name)
  {
    if spelled && 1 <= i < count && i <= |name| then TRANSLATION[name[i - 1]] else if i < 5 then FILLER else 0
  }

  lemma TranslationInjective(i: nat, j: nat)
    requires i <= 6 && j <= 6
    ensures TRANSLATION[i] == TRANSLATION[j] <==> i == j
    ensures TRANSLATION[i] != FILLER
  {
  }

  lemma SameBytes(a: Digits, p: nat, b: Digits, q: nat)
    requires Spellable(a) && p <= 6 && Spellable(b) && q <= 6
    ensures PhysicalAddress(a, p) == PhysicalAddress(b, q) <==>
            forall k :: 0 <= k < 5 ==> AddressByte(a, p, k) == AddressByte(b, q, k)
  {
    assert forall k :: 0 <= k < 5 ==> PhysicalAddress(a, p)[k] == AddressByte(a, p, k);
    assert forall k :: 0 <= k < 5 ==> PhysicalAddress(b, q)[k] == AddressByte(b, q, k);
  }

  /** The bytes of a spelled-out address give the name and the pipe back. */
  lemma SpelledUnique(a: Digits, p: nat, b: Digits, q: nat)
    requires Spellable(a) && p <= 6 && Spellable(b) && q <= 6
    requires (p != 0 || a == []) && (q != 0 || b == [])
    requires forall k :: 0 <= k < 5 ==> AddressByte(a, p, k) == AddressByte(b, q, k)
    ensures a == b && p == q
  {
    assert AddressByte(a, p, 0) == AddressByte(b, q, 0);
    TranslationInjective(p, q);
    forall i | 0 <= i < 4
      ensures i < |a| <==> i < |b|
      ensures i < |a| ==> a[i] == b[i]
    {
      assert AddressByte(a, p, i + 1) == AddressByte(b, q, i + 1);
      TranslationInjective(if i < |a| then a[i] else 0, if i < |b| then b[i] else 0);
    }
    assert |a| == |b| by {
      assert |a| < 4 ==> (|a| < |a| <==> |a| < |b|);
      assert |b| < 4 ==> (|b| < |a| <==> |b| < |b|);
    }
  }

  /** Two pipes share an address only if they are the same, or both the shared pipe 0 of one level below the master. */
  lemma SharedAddress(a: Digits, p: nat, b: Digits, q: nat)
    requires Spellable(a) && p <= 6 && Spellable(b) && q <= 6
    ensures PhysicalAddress(a, p) == PhysicalAddress(b, q) <==>
            (a == b && p == q) || (p == 0 && q == 0 && a != [] && b != [] && |a| == |b|)
  {
    SameBytes(a, p, b, q);
    TranslationInjective(p, q);
    TranslationInjective(|a|, |b|);
    if forall k :: 0 <= k < 5 ==> AddressByte(a, p, k) == AddressByte(b, q, k) {
      assert AddressByte(a, p, 0) == AddressByte(b, q, 0) && AddressByte(a, p, 1) == AddressByte(b, q, 1);
      if p != 0 || a == [] { SpelledUnique(a, p, b, q); }
    }
  }

  /** The neighbour and pipe a routed frame is sent to. */
  ghost function HopPipe(me: Digits, to: Digits): nat
    requires me != to && TreeAddress(me)
  {
    if me <= to then 5 else me[|me| - 1]
  }

  /** Of all nodes and pipes, exactly the next hop, on exactly the chosen pipe, hears a routed frame. */
  lemma OnlyNextHopHears(me: Digits, to: Digits, node: Digits, pipe: nat)
    requires NodeName(me) && NodeName(to) && me != to && NodeName(node) && pipe <= 5
    ensures NodeName(NextHop(me, to)) && 1 <= HopPipe(me, to) <= 5
    ensures PhysicalAddress(node, pipe) == PhysicalAddress(NextHop(me, to), HopPipe(me, to)) <==>
            node == NextHop(me, to) && pipe == HopPipe(me, to)
  {
    NextHopCloser(me, to);
    SharedAddress(node, pipe, NextHop(me, to), HopPipe(me, to));
  }

  /** Pipes 2 to 5 may borrow the upper four bytes of pipe 1. */
  lemma UpperBytesShared(name: Digits, pipe: nat)
    requires Spellable(name) && 1 <= pipe <= 5
    ensures PhysicalAddress(name, pipe)[1..] == PhysicalAddress(name, 1)[1..]
  {
  }

  // The address that stands for a whole level: a one in the level's digit.
  function LevelToAddress(level: nat): uint16
    requires level <= 4
  {
    Pow8Values();
    if level == 0 then 0 else Pow8Monotone(level - 1, 3); Pow8(level - 1)
  }

  lemma LevelAddressLevel(level: nat)
    requires level <= 4
    ensures |DigitsOf(LevelToAddress(level))| == level && Spellable(DigitsOf(LevelToAddress(level)))
  {
    Pow8Values();
    var d: Digits := if level == 0 then [] else seq(level - 1, i => 0) + [1];
    PowerOfEight(d);
    DigitsOfValue(d);
  }

  lemma {:induction false} PowerOfEight(d: Digits)
    requires forall i :: 0 <= i < |d| ==> d[i] == if i == |d| - 1 then 1 else 0
    ensures Normal(d) && (d != [] ==> Value(d) == Pow8(|d| - 1)) && (d == [] ==> Value(d) == 0)
  {
    if |d| > 1 { PowerOfEight(d[1..]); }
  }

  /** The address of a level is listened to by exactly the nodes of that level, on pipe 0. */
  lemma LevelAddressHeard(level: nat, node: Digits, pipe: nat)
    requires level <= 4 && NodeName(node) && pipe <= 5
    ensures Spellable(DigitsOf(LevelToAddress(level)))
    ensures PhysicalAddress(node, pipe) == PhysicalAddress(DigitsOf(LevelToAddress(level)), 0) <==>
            pipe == 0 && |node| == level
  {
    LevelAddressLevel(level);
    SharedAddress(node, pipe, DigitsOf(LevelToAddress(level)), 0);
  }
}
