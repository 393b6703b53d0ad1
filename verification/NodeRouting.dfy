/** One node's routing state: the address masks `setup_address` caches, and the next-hop decision made with them. */
module NodeRouting {
  import opened Bits
  import opened OctalTree
  import opened OctalValue

  // How a payload is handed to the radio.
  const TX_NORMAL := 0
  const TX_ROUTED := 1
  const USER_TX_TO_PHYSICAL_ADDRESS := 2
  const USER_TX_TO_LOGICAL_ADDRESS := 3
  const USER_TX_MULTICAST := 4

  // Where a payload physically goes: the receiving node, its pipe, and whether it is sent unacknowledged.
  datatype Conversion = Conversion(sendNode: uint16, sendPipe: nat, multicast: bool)

  // 0xFFFF shifted left by c octal digits, as a 16-bit word.
  ghost function CheckMask(c: nat): uint16
    requires c <= 6
  {
    Pow8Values();
    if c == 6 then 0 else Pow8Monotone(c, 5); WORD - Pow8(c)
  }

  lemma CheckMaskShift(c: nat)
    requires c < 6
    ensures Shl3(CheckMask(c)) == CheckMask(c + 1)
  {
    Pow8Values();
    if c < 5 {
      Pow8Monotone(c + 1, 5);
      ModUnique(CheckMask(c) * 8, WORD, 7, WORD - Pow8(c + 1));
    }
  }

  lemma AndOctal(n: nat, k: nat)
    ensures And(n, Pow8(k) - 1) == n % Pow8(k)
  {
    Pow8IsPow2(k);
    AndLow(n, 3 * k);
  }

  /** A check mask sees the address exactly when the address has more digits than it skips. */
  lemma CheckMaskTest(n: uint16, c: nat)
    requires c <= 6
    ensures And(n, CheckMask(c)) == 0 <==> |DigitsOf(n)| <= c
    ensures |DigitsOf(n)| <= 6
  {
    Pow8Values();
    LevelBounds(n, 6);
    LevelBounds(n, c);
    if c == 6 {
      AndZero(n);
    } else {
      Word16();
      Pow8IsPow2(c);
      AndHigh(n, 3 * c, 16, CheckMask(c));
      if n < Pow8(c) { ModSmall(n, Pow8(c)); }
    }
  }

  // The child masks of a node k digits deep, as (~mask << 3) and as (mask << 3) | 7.
  lemma ChildMasks(k: nat, mask: uint16)
    requires k <= 5 && mask == Pow8(k) - 1
    ensures Shl3(Not16(mask)) == CheckMask(k + 1)
    ensures Or(Shl3(mask), 7) == if k < 5 then Pow8(k + 1) - 1 else WORD - 1
  {
    Pow8Values();
    CheckMaskShift(k);
    var m := if k < 5 then mask else 8191;
    if k < 5 {
      Pow8Monotone(k, 4);
      ModSmall(mask * 8, WORD);
    } else {
      ModUnique(mask * 8, WORD, 3, m * 8);
    }
    assert Pow2(3) == 8;
    OrDisjoint(7, m, 3, m * 8);
    OrCommutes(7, m * 8);
  }

  lemma {:induction false} OrCommutes(x: nat, y: nat)
    ensures Or(x, y) == Or(y, x)
    decreases x + y
  {
    if x > 0 || y > 0 { OrCommutes(x / 2, y / 2); }
  }

  /** A name is a prefix of another exactly when the other leaves it as remainder. */
  lemma PrefixByRemainder(a: Digits, n: nat)
    requires Normal(a)
    ensures a <= DigitsOf(n) <==> n % Pow8(|a|) == Value(a)
  {
    if |a| <= |DigitsOf(n)| {
      CutByRemainder(n, |a|);
      SameCut(a, DigitsOf(n)[..|a|]);
    } else {
      LongerIsLarger(a, DigitsOf(n));
      ValueOfDigits(n);
      ModSmall(n, Pow8(|a|));
    }
  }

  lemma SameCut(a: Digits, low: Digits)
    requires Octal(a) && Octal(low) && |a| == |low|
    ensures Value(a) == Value(low) <==> a == low
  {
    if Value(a) == Value(low) { SameValue(a, low); }
  }

  lemma LongerIsLarger(a: Digits, b: Digits)
    requires Normal(a) && Octal(b) && |b| < |a|
    ensures Value(b) < Value(a) < Pow8(|a|)
  {
    ValueBounds(a);
    ValueBounds(b);
    Pow8Monotone(|b|, |a| - 1);
  }

  /** Cutting a number's name to k digits is taking its remainder by 8^k. */
  lemma CutByRemainder(n: nat, k: nat)
    requires k <= |DigitsOf(n)|
    ensures n % Pow8(k) == Value(DigitsOf(n)[..k])
  {
    ValueOfDigits(n);
    ValueSplit(DigitsOf(n), k);
  }

  /** What the address mask keeps: whether the name starts with ours. */
  lemma MaskedPrefix(n: uint16, address: uint16, mask: uint16)
    requires mask == Pow8(|DigitsOf(address)|) - 1
    ensures And(n, mask) == address <==> DigitsOf(address) <= DigitsOf(n)
  {
    ValueOfDigits(address);
    MaskedName(n, DigitsOf(address), |DigitsOf(address)|, mask);
  }

  lemma MaskedName(n: nat, name: Digits, k: nat, mask: nat)
    requires Normal(name) && k == |name| && mask == Pow8(k) - 1
    ensures And(n, mask) == Value(name) <==> name <= DigitsOf(n)
  {
    AndOctal(n, k);
    PrefixByRemainder(name, n);
  }

  /** What the inverted mask keeps: whether there are digits beyond the k + 1 lowest. */
  lemma MaskedDepth(n: uint16, k: nat, mask: uint16)
    requires k <= 5 && mask == Pow8(k) - 1
    ensures And(n, Shl3(Not16(mask))) == 0 <==> |DigitsOf(n)| <= k + 1
  {
    ChildMasks(k, mask);
    CheckMaskTest(n, k + 1);
  }

  /** A mask of k digits keeps the k lowest. */
  lemma AndCut(n: nat, m: nat, k: nat)
    requires m == Pow8(k) - 1 && k <= |DigitsOf(n)|
    ensures And(n, m) == Value(DigitsOf(n)[..k])
  {
    AndOctal(n, k);
    CutByRemainder(n, k);
  }

  /** What the child mask keeps: the k + 1 lowest digits. */
  lemma MaskedCut(n: uint16, k: nat, mask: uint16)
    requires k <= 5 && k < |DigitsOf(n)| && mask == Pow8(k) - 1
    ensures And(n, Or(Shl3(mask), 7)) == Value(DigitsOf(n)[..k + 1])
  {
    ChildMasks(k, mask);
    if k < 5 { AndCut(n, Or(Shl3(mask), 7), k + 1); } else { AllDigits(n, k + 1); }
  }

  lemma AllDigits(n: uint16, k: nat)
    requires k == 6 <= |DigitsOf(n)|
    ensures And(n, WORD - 1) == Value(DigitsOf(n)[..k])
  {
    CheckMaskTest(n, 6);
    AndAll(n);
    ValueOfDigits(n);
    assert DigitsOf(n)[..k] == DigitsOf(n);
  }

  lemma {:induction false} SameValue(a: Digits, b: Digits)
    requires Octal(a) && Octal(b) && |a| == |b| && Value(a) == Value(b)
    ensures a == b
    decreases |a|
  {
    if a != [] {
      assert a[0] == Value(a) % 8 && b[0] == Value(b) % 8;
      SameValue(a[1..], b[1..]);
      assert a == [a[0]] + a[1..] && b == [b[0]] + b[1..];
    }
  }

  /** On the 16-bit network a route has at most eight hops and no name along it is truncated. */
  lemma RouteFits(from: Digits, to: Digits, i: nat)
    requires NodeName(from) && NodeName(to) && i < |Route(from, to)|
    ensures Dist(from, to) <= 8 && |Route(from, to)| <= 9
    ensures NodeName(Route(from, to)[i])
    ensures Value(Route(from, to)[i]) < 4096 && DigitsOf(Value(Route(from, to)[i])) == Route(from, to)[i]
  {
    RouteStaysInTree(from, to, 4, i);
    RouteDelivers(from, to);
    NodeNameFits(Route(from, to)[i]);
  }

  /** The mask one digit shorter keeps the parent's name. */
  lemma ParentMasks(address: uint16, k: nat, mask: uint16, parentMask: uint16)
    requires k == |DigitsOf(address)| <= 5 && mask == Not16(CheckMask(k)) && parentMask == mask / 8
    ensures mask == Pow8(k) - 1
    ensures k == 0 ==> parentMask == 0 && And(address, parentMask) == 0
    ensures k > 0 ==> parentMask == Pow8(k - 1) - 1 && And(address, parentMask) == Value(Parent(DigitsOf(address)))
  {
    if k > 0 { AndCut(address, parentMask, k - 1); }
  }

  lemma DropDigit(name: Digits, j: nat)
    requires Octal(name) && j < |name|
    ensures Value(name[j..]) / 8 == Value(name[j + 1..])
  {
    assert name[j..][1..] == name[j + 1..];
  }

  lemma WholeName(d: Digits, k: nat)
    requires k == |d|
    ensures d[..k] == d
  {
  }

  class Node {
    var nodeAddress: uint16
    var nodeMask: uint16
    var parentNode: uint16
    var parentPipe: uint16
    var multicastLevel: nat

    ghost function Name(): Digits
      reads this
    {
      DigitsOf(nodeAddress)
    }

    // The cached fields say what the tree says about this address.
    ghost predicate Configured()
      reads this
    {
      var name := Name();
      && |name| <= 5
      && nodeMask == Pow8(|name|) - 1
      && multicastLevel == |name|
      && (name == [] ==> parentNode == 0 && parentPipe == 0)
      && (name != [] ==> parentNode == Value(Parent(name)) && parentPipe == name[|name| - 1])
    }

    constructor (address: uint16)
      ensures nodeAddress == address
      ensures |Name()| <= 5 ==> Configured()
    {
      nodeAddress := address;
      nodeMask, parentNode, parentPipe, multicastLevel := 0, 0, 0, 0;
      new;
      SetupAddress();
    }

    // Shifts the check mask left until it no longer sees the address.
    static method FindDepth(address: uint16) returns (check: uint16, count: nat)
      ensures count == |DigitsOf(address)| <= 6 && check == CheckMask(count)
    {
      check, count := WORD - 1, 0;
      CheckMaskTest(address, 0);
      while And(address, check) != 0
        invariant count <= |DigitsOf(address)| <= 6 && check == CheckMask(count)
        decreases |DigitsOf(address)| - count
      {
        CheckMaskTest(address, count);
        CheckMaskShift(count);
        check := Shl3(check);
        count := count + 1;
      }
      CheckMaskTest(address, count);
    }

    /** The masks find the depth, the parent is the name without its top digit, and its pipe is that digit. */
    method SetupAddress()
      modifies this
      ensures nodeAddress == old(nodeAddress)
      ensures multicastLevel == |Name()|
      ensures |Name()| <= 5 ==> Configured()
    {
      var check, count := FindDepth(nodeAddress);
      multicastLevel := count;
      nodeMask := Not16(check);
      var parentMask: uint16 := nodeMask / 8;
      parentNode := And(nodeAddress, parentMask);
      if count <= 5 { ParentMasks(nodeAddress, count, nodeMask, parentMask); }
      parentPipe := TopDigit(nodeAddress, parentMask);
    }

    static method TopDigit(address: uint16, mask: uint16) returns (i: uint16)
      ensures mask == 0 ==> i == address
      ensures var name := DigitsOf(address);
              name != [] && mask == Pow8(|name| - 1) - 1 ==> i == name[|name| - 1]
    {
      ghost var name := DigitsOf(address);
      ghost var top := |name| - 1;
      ghost var j := 0;
      ghost var known := name != [] && mask == Pow8(top) - 1;
      i := address;
      var m := mask;
      ValueOfDigits(address);
      while m != 0
        invariant 0 <= i < WORD && 0 <= m < WORD
        invariant mask == 0 ==> m == 0 && i == address
        invariant known ==> 0 <= j <= top && m == Pow8(top - j) - 1 && i == Value(name[j..])
        decreases m
      {
        if known { DropDigit(name, j); }
        i := i / 8;
        m := m / 8;
        j := j + 1;
      }
      if known {
        assert top - j == 0;
        assert name[j..] == [name[j]];
      }
    }

    predicate IsDescendant(node: uint16)
      reads this
    {
      And(node, nodeMask) == nodeAddress
    }

    predicate IsDirectChild(node: uint16)
      reads this
    {
      And(node, Shl3(Not16(nodeMask))) == 0
    }

    function DirectChildRouteTo(node: uint16): uint16
      reads this
    {
      And(node, Or(Shl3(nodeMask), 7))
    }

    /** A descendant is a node whose name extends ours (or is ours). */
    lemma DescendantIsPrefix(node: uint16)
      requires Configured()
      ensures IsDescendant(node) <==> Name() <= DigitsOf(node)
    {
      MaskedPrefix(node, nodeAddress, nodeMask);
    }

    /** A direct child has at most one digit more than we have. */
    lemma DirectChildIsOneDeeper(node: uint16)
      requires Configured()
      ensures IsDirectChild(node) <==> |DigitsOf(node)| <= |Name()| + 1
    {
      MaskedDepth(node, |Name()|, nodeMask);
    }

    /** The child to relay by is the destination's name cut one digit below ours. */
    lemma RouteChildIsPrefix(node: uint16)
      requires Configured() && |Name()| < |DigitsOf(node)|
      ensures DirectChildRouteTo(node) == Value(DigitsOf(node)[..|Name()| + 1])
    {
      MaskedCut(node, |Name()|, nodeMask);
    }

    // Where a payload for a descendant goes.
    lemma DescendantHop(node: uint16)
      requires Configured() && IsDescendant(node)
      ensures Name() <= DigitsOf(node) && (DigitsOf(node) == Name() ==> IsDirectChild(node))
      ensures DigitsOf(node) != Name() ==>
                var next := NextHop(Name(), DigitsOf(node));
                && Octal(next) && Value(next) == if IsDirectChild(node) then node else DirectChildRouteTo(node)
    {
      DescendantIsPrefix(node);
      DirectChildIsOneDeeper(node);
      ValueOfDigits(node);
      if DigitsOf(node) != Name() {
        if IsDirectChild(node) {
          WholeName(DigitsOf(node), |Name()| + 1);
        } else {
          RouteChildIsPrefix(node);
        }
      }
    }

    // And for any other node.
    lemma ParentHop(node: uint16)
      requires Configured() && !IsDescendant(node)
      ensures Name() != [] && DigitsOf(node) != Name() && !(Name() <= DigitsOf(node))
      ensures var next := NextHop(Name(), DigitsOf(node)); Octal(next) && Value(next) == parentNode
    {
      DescendantIsPrefix(node);
    }

    /**
     From logical destination to the neighbour and pipe the radio sends to:
     direct payloads go straight out on the shared pipe 0, everything else one
     hop along the tree, to a child's pipe 5 or to our own pipe at the parent.
     */
    method LogicalToPhysicalAddress(toNode: uint16, directTo: nat) returns (c: Conversion)
      requires Configured()
      ensures directTo > TX_ROUTED ==> c == Conversion(toNode, 0, true)
      ensures directTo <= TX_ROUTED && DigitsOf(toNode) == Name() ==> c == Conversion(toNode, 5, false)
      ensures directTo <= TX_ROUTED && DigitsOf(toNode) != Name() ==>
                var me, to := Name(), DigitsOf(toNode);
                && !c.multicast
                && Octal(NextHop(me, to)) && c.sendNode == Value(NextHop(me, to))
                && c.sendPipe == if me <= to then 5 else me[|me| - 1]
    {
      var sendNode: uint16 := parentNode;
      var sendPipe: nat := parentPipe;
      var multicast := false;
      if directTo > TX_ROUTED {
        sendNode := toNode;
        multicast := true;
        sendPipe := 0;
      } else if IsDescendant(toNode) {
        DescendantHop(toNode);
        sendPipe := 5;
        if IsDirectChild(toNode) {
          sendNode := toNode;
        } else {
          sendNode := DirectChildRouteTo(toNode);
        }
      } else {
        ParentHop(toNode);
      }
      return Conversion(sendNode, sendPipe, multicast);
    }
  }
}
