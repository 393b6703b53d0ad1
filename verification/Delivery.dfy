/** What the network layer does with a payload: where it is sent, who hears it, who answers and who waits. */
module Delivery {
  import opened Bits
  import opened Basics
  import opened OctalTree
  import opened OctalValue
  import opened NodeRouting
  import opened PhysicalPipes
  import opened Radio
  import opened Fragments
  import NetworkAck

  const NETWORK_ADDR_RESPONSE: byte := 128
  const NETWORK_PING: byte := 130
  const NETWORK_POLL: byte := 194
  const NETWORK_REQ_ADDRESS: byte := 195
  const AUTO_ROUTING: uint16 := 56 // octal 070

  ghost predicate ValidAddress(n: uint16) {
    n == MULTICAST_ADDRESS || n == SPECIAL_ADDRESS || NodeName(DigitsOf(n))
  }

  // Names whose pipes have addresses: all valid addresses, and what forwarding makes of them.
  ghost predicate Reachable(name: Digits) {
    Normal(name) && |name| <= 4 && forall i :: 0 <= i < |name| ==> name[i] <= 5
  }

  lemma ValidIsReachable(n: uint16)
    requires ValidAddress(n)
    ensures Reachable(DigitsOf(n)) && Spellable(DigitsOf(n))
  {
    DigitsOfValue([0, 1]);
    DigitsOfValue([0, 0, 1]);
    assert Value([0, 1]) == 8 && Value([0, 0, 1]) == 64;
  }

  /** Reading a number's digits back drops zeros at the top and changes nothing else. */
  lemma {:induction false} DigitsOfPrefix(d: Digits)
    requires Octal(d)
    ensures DigitsOf(Value(d)) <= d
    decreases |d|
  {
    if d != [] && Value(d) > 0 {
      DigitsOfPrefix(d[1..]);
      FirstDigit(d);
      DigitStep(Value(d));
      SamePrefix(DigitsOf(Value(d)), d);
    }
  }

  lemma FirstDigit(d: Digits)
    requires Octal(d) && d != []
    ensures Value(d) % 8 == d[0] && Value(d) / 8 == Value(d[1..])
  {
  }

  lemma SamePrefix(a: Digits, b: Digits)
    requires a != [] && b != [] && a[0] == b[0] && a[1..] <= b[1..]
    ensures a <= b
  {
    assert a == [a[0]] + a[1..] && b == [b[0]] + b[1..];
  }

  lemma HopReachable(me: Digits, to: Digits)
    requires Reachable(me) && Reachable(to) && me != to
    ensures Octal(NextHop(me, to))
    ensures Reachable(DigitsOf(Value(NextHop(me, to)))) && Spellable(DigitsOf(Value(NextHop(me, to))))
  {
    DigitsOfPrefix(NextHop(me, to));
  }

  // The node a payload goes to next.
  ghost function HopNode(me: Digits, toNode: uint16, sendType: nat): nat
    requires Reachable(me) && Reachable(DigitsOf(toNode))
  {
    var to := DigitsOf(toNode);
    if sendType > TX_ROUTED || me == to then toNode else
      HopReachable(me, to);
      Value(NextHop(me, to))
  }

  // Where a payload for a node is to be sent: to one neighbour along the tree, or directly and without acknowledgement.
  ghost function Intended(me: Digits, to: Digits, sendType: nat): Transmission
    requires Reachable(me) && Reachable(to)
  {
    if sendType > TX_ROUTED then Transmission(PhysicalAddress(to, 0), false)
    else if me == to then Transmission(PhysicalAddress(to, 5), true)
    else
      HopReachable(me, to);
      Transmission(PhysicalAddress(DigitsOf(Value(NextHop(me, to))), if me <= to then 5 else me[|me| - 1]), true)
  }

  /** What is sent along the tree is heard by the next hop alone, what is sent directly by its destination's level. */
  lemma IntendedHeard(me: Digits, to: Digits, sendType: nat, node: Digits, pipe: nat)
    requires NodeName(me) && NodeName(to) && me != to && NodeName(node) && pipe <= 5
    ensures PhysicalAddress(node, pipe) == Intended(me, to, sendType).address <==>
            if sendType <= TX_ROUTED then node == NextHop(me, to) && pipe == HopPipe(me, to)
            else pipe == 0 && (node == to || (node != [] && to != [] && |node| == |to|))
  {
    if sendType <= TX_ROUTED {
      OnlyNextHopHears(me, to, node, pipe);
      NodeNameFits(NextHop(me, to));
    } else {
      SharedAddress(node, pipe, to, 0);
    }
  }

  // The same by addresses.
  ghost function Target(me: uint16, toNode: uint16, sendType: nat): Transmission {
    if Reachable(DigitsOf(me)) && Reachable(DigitsOf(toNode)) then Intended(DigitsOf(me), DigitsOf(toNode), sendType)
    else Transmission([], false)
  }

  ghost function NextNode(me: uint16, toNode: uint16, sendType: nat): nat {
    if Reachable(DigitsOf(me)) && Reachable(DigitsOf(toNode)) then HopNode(DigitsOf(me), toNode, sendType) else toNode
  }

  // The conversion of an address leads there.
  lemma ConversionLeads(me: Digits, toNode: uint16, sendType: nat, c: Conversion)
    requires Reachable(me) && Reachable(DigitsOf(toNode))
    requires sendType > TX_ROUTED ==> c == Conversion(toNode, 0, true)
    requires sendType <= TX_ROUTED && DigitsOf(toNode) == me ==> c == Conversion(toNode, 5, false)
    requires sendType <= TX_ROUTED && DigitsOf(toNode) != me ==>
               var to := DigitsOf(toNode);
               && !c.multicast && Octal(NextHop(me, to)) && c.sendNode == Value(NextHop(me, to))
               && c.sendPipe == if me <= to then 5 else me[|me| - 1]
    ensures Spellable(DigitsOf(c.sendNode)) && c.sendPipe <= 6 && c.sendNode == HopNode(me, toNode, sendType)
    ensures Intended(me, DigitsOf(toNode), sendType) ==
            Transmission(PhysicalAddress(DigitsOf(c.sendNode), c.sendPipe), !c.multicast)
  {
    if me != DigitsOf(toNode) { HopReachable(me, DigitsOf(toNode)); }
  }

  // What the radio is given for one frame, unless its queue is stuck, and outside a burst what it reports.
  ghost function Launch(t: Transmission, frame: Frame, stuck: bool, burst: bool, ok: bool): seq<OnAir> {
    (if stuck then [] else [Sent(t, frame)]) + if burst then [] else [Reported(ok)]
  }

  ghost function Payload(me: uint16, toNode: uint16, sendType: nat, frame: Frame, stuck: bool, burst: bool, ok: bool)
    : seq<OnAir>
  {
    Launch(Target(me, toNode, sendType), frame, stuck, burst, ok)
  }

  // The acknowledgement of a frame: its header turned round, and nothing else.
  function AckFrame(frame: Frame): Frame {
    Frame(frame.header.(kind := NetworkAck.NETWORK_ACK, to := frame.header.from), [])
  }

  // The last relay of a frame that asks for it answers its source.
  ghost predicate Answers(me: uint16, toNode: uint16, sendType: nat, kind: byte, ok: bool) {
    ok && sendType == TX_ROUTED && NextNode(me, toNode, sendType) == toNode && NetworkAck.IsAckType(kind)
  }

  ghost function Answer(me: uint16, toNode: uint16, sendType: nat, frame: Frame, ok: bool, ackOk: bool): seq<OnAir> {
    if Answers(me, toNode, sendType, frame.header.kind, ok)
    then Launch(Target(me, frame.header.from, TX_ROUTED), AckFrame(frame), false, false, ackOk) else []
  }

  // Only a payload of an acknowledged type, sent by its source along the tree, makes its sender wait.
  predicate MayWait(sendType: nat, kind: byte) {
    (sendType == TX_NORMAL || sendType == USER_TX_TO_LOGICAL_ADDRESS) && NetworkAck.IsAckType(kind)
  }

  // And only if it has further to go than one hop.
  ghost predicate Waits(me: uint16, toNode: uint16, sendType: nat, kind: byte) {
    MayWait(sendType, kind) && NextNode(me, toNode, sendType) != toNode
  }

  lemma NextNodeIs(me: uint16, toNode: uint16, sendType: nat, next: Digits)
    requires NodeName(DigitsOf(me)) && NodeName(DigitsOf(toNode))
    requires next == if sendType > TX_ROUTED then DigitsOf(toNode) else NetworkAck.Hop(DigitsOf(me), DigitsOf(toNode))
    ensures NextNode(me, toNode, sendType) == toNode <==> next == DigitsOf(toNode)
  {
    if sendType <= TX_ROUTED && DigitsOf(me) != DigitsOf(toNode) {
      NextHopCloser(DigitsOf(me), DigitsOf(toNode));
      NodeNameFits(next);
      ValueOfDigits(toNode);
    }
  }

  // Who a public `write` is for, and how it is sent.
  function Receiver(to: uint16, writeDirect: uint16): uint16 {
    if writeDirect != AUTO_ROUTING then writeDirect else to
  }

  function SendType(to: uint16, writeDirect: uint16): nat {
    if writeDirect == AUTO_ROUTING then TX_NORMAL
    else if to == writeDirect then USER_TX_TO_PHYSICAL_ADDRESS
    else if to == MULTICAST_ADDRESS then USER_TX_MULTICAST
    else USER_TX_TO_LOGICAL_ADDRESS
  }

  // The addresses of the six pipes: one for each of the first two, and one byte more for each of the others.
  ghost function OwnAddresses(address: uint16): (own: Own)
    requires ValidAddress(address)
    ensures |own.p1| == 5 && |own.low| == 4
  {
    ValidIsReachable(address);
    var name := DigitsOf(address);
    Own(PhysicalAddress(name, 0), PhysicalAddress(name, 1),
        seq(4, i requires 0 <= i < 4 => AddressByte(name, i + 2, 0)))
  }

  lemma FirstByteAndRest(name: Digits, pipe: nat)
    requires Spellable(name) && 1 <= pipe <= 5
    ensures PhysicalAddress(name, pipe) == [AddressByte(name, pipe, 0)] + PhysicalAddress(name, 1)[1..]
  {
    UpperBytesShared(name, pipe);
    var a := PhysicalAddress(name, pipe);
    assert a == [a[0]] + a[1..];
  }

  /** They are the addresses of all six pipes. */
  lemma OwnPipes(address: uint16, pipe: nat)
    requires ValidAddress(address) && pipe <= 5
    ensures Spellable(DigitsOf(address)) && OwnAddresses(address).Pipe(pipe) == PhysicalAddress(DigitsOf(address), pipe)
  {
    ValidIsReachable(address);
    if pipe >= 2 { LowPipe(OwnAddresses(address), DigitsOf(address), pipe); }
  }

  lemma LowPipe(own: Own, name: Digits, pipe: nat)
    requires Spellable(name) && 2 <= pipe <= 5 && own.p1 == PhysicalAddress(name, 1) && |own.low| == 4
    requires own.low[pipe - 2] == AddressByte(name, pipe, 0)
    ensures own.Pipe(pipe) == PhysicalAddress(name, pipe)
  {
    FirstByteAndRest(name, pipe);
  }

  // ----- Whole levels

  lemma LevelValues(level: nat)
    requires level <= 4
    ensures LevelToAddress(level) == if level == 0 then 0 else if level == 1 then 1 else if level == 2 then 8
                                     else if level == 3 then 64 else 512
  {
    Pow8Values();
  }

  lemma ValidLevels()
    ensures ValidAddress(0) && ValidAddress(1) && ValidAddress(8) && ValidAddress(64)
  {
    DigitsOfValue([]);
    DigitsOfValue([1]);
  }

  lemma FourthLevel()
    ensures !ValidAddress(512)
  {
    OnlyOne(512, [0, 0, 0, 1]);
  }

  lemma FifthLevel()
    ensures !ValidAddress(4096)
  {
    OnlyOne(4096, [0, 0, 0, 0, 1]);
  }

  lemma ShiftedLevels()
    ensures Shl3(0) == 0 && Shl3(1) == 8 && Shl3(8) == 64 && Shl3(64) == 512 && Shl3(512) == 4096
  {
  }

  lemma OnlyOne(n: nat, d: Digits)
    requires (n == 512 && d == [0, 0, 0, 1]) || (n == 4096 && d == [0, 0, 0, 0, 1])
    ensures DigitsOf(n) == d && !NodeName(d)
  {
    PowerOfEight(d);
    Pow8Values();
    DigitsOfValue(d);
    assert d[0] == 0;
  }

  /** The address filter lets the addresses of the levels 0 to 3 pass, and stops that of the fourth. */
  lemma LevelSendable(level: nat)
    requires level <= 4
    ensures ValidAddress(LevelToAddress(level)) <==> level <= 3
  {
    LevelValues(level);
    ValidLevels();
    FourthLevel();
  }

  // A relay shifts its own level's address by one digit; the master's is 0 and stays so.
  lemma RelayAddress(level: nat)
    requires level <= 3
    ensures Shl3(LevelToAddress(level)) == if level == 0 then 0 else LevelToAddress(level + 1)
  {
    LevelValues(level);
    LevelValues(level + 1);
    ShiftedLevels();
  }

  /** A relay sends a multicast on at the levels 0 to 2 and at no other, and at 1 and 2 it goes to the next level. */
  lemma RelaySendable(level: nat)
    requires level <= 4
    ensures ValidAddress(Shl3(LevelToAddress(level))) <==> level <= 2
    ensures level <= 3 ==>
              (ValidAddress(Shl3(LevelToAddress(level))) && Shl3(LevelToAddress(level)) == LevelToAddress(level + 1)
               <==> 1 <= level <= 2)
  {
    if level <= 3 {
      RelayAddress(level);
      LevelValues(level + 1);
    }
    LevelValues(level);
    ShiftedLevels();
    ValidLevels();
    FourthLevel();
    FifthLevel();
  }

  lemma LevelNotAuto(level: nat)
    requires level <= 4
    ensures LevelToAddress(level) != AUTO_ROUTING
  {
    LevelValues(level);
  }

  // Directly means to pipe 0.
  lemma DirectAddress(me: uint16, toNode: uint16, sendType: nat)
    requires ValidAddress(me) && ValidAddress(toNode) && sendType > TX_ROUTED
    ensures Spellable(DigitsOf(toNode))
    ensures Target(me, toNode, sendType) == Transmission(PhysicalAddress(DigitsOf(toNode), 0), false)
  {
    ValidIsReachable(me);
    ValidIsReachable(toNode);
  }

  // All direct ways of sending aim alike.
  lemma DirectTarget(me: uint16, toNode: uint16, sendType: nat)
    requires ValidAddress(me) && ValidAddress(toNode) && sendType > TX_ROUTED
    ensures Target(me, toNode, sendType) == Target(me, toNode, USER_TX_MULTICAST)
  {
    DirectAddress(me, toNode, sendType);
    DirectAddress(me, toNode, USER_TX_MULTICAST);
  }

  /** What is sent to a level is heard on pipe 0 by exactly the nodes of that level. */
  lemma LevelHeard(me: uint16, level: nat, sendType: nat, node: Digits, pipe: nat)
    requires ValidAddress(me) && level <= 3 && sendType > TX_ROUTED && NodeName(node) && pipe <= 5
    ensures ValidAddress(LevelToAddress(level))
    ensures PhysicalAddress(node, pipe) == Target(me, LevelToAddress(level), sendType).address <==>
            pipe == 0 && |node| == level
  {
    LevelSendable(level);
    DirectAddress(me, LevelToAddress(level), sendType);
    LevelAddressHeard(level, node, pipe);
  }

  // ----- What `update` sends on its own account

  lemma SystemAddresses()
    ensures ValidAddress(0) && ValidAddress(DEFAULT_ADDRESS)
  {
    DigitsOfValue([]);
    DigitsOfValue([4, 4, 4, 4]);
  }

  // Address answers go to the node that has no address yet.
  ghost function AnswerPassedOn(me: uint16, frame: Frame, stuck: bool, ok: bool): seq<OnAir> {
    var passed := frame.(header := frame.header.(to := DEFAULT_ADDRESS));
    Payload(me, DEFAULT_ADDRESS, USER_TX_TO_PHYSICAL_ADDRESS, passed, stuck, false, ok)
  }

  // Requests for an address go up to the master, in the name of the node that passes them on.
  ghost function RequestPassedOn(me: uint16, frame: Frame, stuck: bool, ok: bool): seq<OnAir> {
    Payload(me, 0, TX_NORMAL, frame.(header := frame.header.(from := me, to := 0)), stuck, false, ok)
  }

  // A poll goes back to whoever sent it, in the name of the node that answers.
  ghost function PollAnswered(me: uint16, frame: Frame, stuck: bool, ok: bool): seq<OnAir> {
    var from := frame.header.from;
    var answer := frame.(header := frame.header.(to := from, from := me));
    Payload(me, from, USER_TX_TO_PHYSICAL_ADDRESS, answer, stuck, false, ok)
  }

  // A relayed multicast goes to the next level as it came.
  ghost function NextLevel(me: uint16, level: nat, frame: Frame, stuck: bool, ok: bool): seq<OnAir>
    requires level <= 4
  {
    Payload(me, Shl3(LevelToAddress(level)), USER_TX_MULTICAST, frame, stuck, false, ok)
  }
}
