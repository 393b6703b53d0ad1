/**
 The driver carries out the protocol: what it puts on the air are the packets
 of the acknowledgement protocol, what it returns after a wait goes by the
 acknowledgements that came in, and a long message goes out fragment by
 fragment.
 */
module DriverProtocol {
  import opened Bits
  import opened Basics
  import opened OctalTree
  import opened OctalValue
  import opened NodeRouting
  import opened PhysicalPipes
  import opened Delivery
  import opened Processing
  import opened Radio
  import opened Fates
  import opened Fragments
  import NetworkAck

  // ----- Packets

  // A radio header in the terms of the acknowledgement protocol.
  ghost function Meaning(h: Header, id: nat): NetworkAck.Header {
    NetworkAck.Header(DigitsOf(h.from), DigitsOf(h.to), h.kind, id)
  }

  // The payloads among what went on.
  function Transmitted(log: seq<OnAir>): seq<OnAir> {
    if log == [] then [] else (if log[0].Sent? then [log[0]] else []) + Transmitted(log[1..])
  }

  // One of the node's six pipes is at this address.
  ghost predicate Hears(node: Digits, address: seq<int>)
    requires NodeName(node)
  {
    exists pipe: nat :: pipe <= 5 && PhysicalAddress(node, pipe) == address
  }

  // A payload is a packet of the protocol: the header says so, and of all nodes the packet's alone hears it.
  ghost predicate Carries(put: OnAir, p: NetworkAck.Packet, id: nat) {
    && put.Sent? && Meaning(put.frame.header, id) == p.header
    && forall node: Digits :: NodeName(node) ==> (Hears(node, put.to.address) <==> node == p.at)
  }

  lemma HopHeard(me: Digits, to: Digits, sendType: nat, node: Digits)
    requires NodeName(me) && NodeName(to) && me != to && sendType <= TX_ROUTED && NodeName(node)
    ensures Hears(node, Intended(me, to, sendType).address) <==> node == NextHop(me, to)
  {
    var address := Intended(me, to, sendType).address;
    OnlyNextHopHears(me, to, NextHop(me, to), HopPipe(me, to));
    IntendedHeard(me, to, sendType, NextHop(me, to), HopPipe(me, to));
    if pipe: nat :| pipe <= 5 && PhysicalAddress(node, pipe) == address {
      IntendedHeard(me, to, sendType, node, pipe);
    }
  }

  lemma HopCarried(me: uint16, to: uint16, sendType: nat, frame: Frame, id: nat)
    requires NodeName(DigitsOf(me)) && NodeName(DigitsOf(to)) && DigitsOf(me) != DigitsOf(to) && sendType <= TX_ROUTED
    ensures Carries(Sent(Target(me, to, sendType), frame),
                    NetworkAck.Packet(NextHop(DigitsOf(me), DigitsOf(to)), Meaning(frame.header, id)), id)
  {
    forall node: Digits | NodeName(node)
      ensures Hears(node, Target(me, to, sendType).address) <==> node == NextHop(DigitsOf(me), DigitsOf(to))
    {
      HopHeard(DigitsOf(me), DigitsOf(to), sendType, node);
    }
  }

  // The protocol's account of a call of `write`; an answer that is sent is also received.
  ghost function Written(me: uint16, frame: Frame, sendType: nat, ok: bool, id: nat): NetworkAck.Written {
    NetworkAck.Write(DigitsOf(me), Meaning(frame.header, id), sendType, if ok then Confirmed else Unheard, Confirmed)
  }

  /** Whichever way a frame is sent, the driver answers and waits in the cases in which the protocol does. */
  lemma SameDecisions(me: uint16, toNode: uint16, frame: Frame, sendType: nat, ok: bool, id: nat)
    requires NodeName(DigitsOf(me)) && NodeName(DigitsOf(toNode))
    ensures var w := Written(me, frame.(header := frame.header.(to := toNode)), sendType, ok, id);
            && (w.acked <==> Answers(me, toNode, sendType, frame.header.kind, ok))
            && (w.waits <==> ok && Waits(me, toNode, sendType, frame.header.kind))
  {
    var me', to := DigitsOf(me), DigitsOf(toNode);
    NextNodeIs(me, toNode, sendType, if sendType > TX_ROUTED then to else NetworkAck.Hop(me', to));
  }

  // The frame as it is for the next hop, and the acknowledgement for the first hop back.
  ghost function PayloadPacket(me: uint16, frame: Frame, id: nat): NetworkAck.Packet {
    NetworkAck.Packet(NetworkAck.Hop(DigitsOf(me), DigitsOf(frame.header.to)), Meaning(frame.header, id))
  }

  ghost function AnswerPacket(me: uint16, frame: Frame, id: nat): NetworkAck.Packet {
    NetworkAck.Packet(NetworkAck.Hop(DigitsOf(me), DigitsOf(frame.header.from)),
                      NetworkAck.AckFor(Meaning(frame.header, id)))
  }

  lemma WrittenFrames(me: uint16, frame: Frame, sendType: nat, ok: bool, id: nat)
    requires sendType <= TX_ROUTED
    ensures var w := Written(me, frame, sendType, ok, id);
            w.frames == [PayloadPacket(me, frame, id)] + if w.acked then [AnswerPacket(me, frame, id)] else []
  {
  }

  lemma HopSends(me: uint16, sendType: nat, frame: Frame, ok: bool, ackOk: bool, s: Setup)
    requires s.me == me
    ensures Transmitted(HopLog(s, frame.header.to, sendType, frame, false, false, ok, ackOk)) ==
            [Sent(Target(me, frame.header.to, sendType), frame)] +
            if Answers(me, frame.header.to, sendType, frame.header.kind, ok)
            then [Sent(Target(me, frame.header.from, TX_ROUTED), AckFrame(frame))] else []
  {
    var log := HopLog(s, frame.header.to, sendType, frame, false, false, ok, ackOk);
    var payload := Sent(Target(me, frame.header.to, sendType), frame);
    var answer := Sent(Target(me, frame.header.from, TX_ROUTED), AckFrame(frame));
    if Answers(me, frame.header.to, sendType, frame.header.kind, ok) {
      assert log == [payload, Reported(ok), answer, Reported(ackOk)];
      TransmittedFour(payload, ok, answer, ackOk);
    } else {
      assert log == [payload, Reported(ok)];
      TransmittedTwo(payload, ok);
    }
  }

  /**
   What the driver puts on the air for a routed frame are exactly the packets
   the protocol sends: the frame as it is, for the next hop alone, and from the
   last relay the network's acknowledgement, for the first hop back to the
   frame's source.  Both wait in the same cases.
   */
  lemma ProtocolAgrees(s: Setup, sendType: nat, frame: Frame, ok: bool, ackOk: bool, id: nat)
    requires NodeName(DigitsOf(s.me)) && NodeName(DigitsOf(frame.header.to)) && NodeName(DigitsOf(frame.header.from))
    requires DigitsOf(s.me) != DigitsOf(frame.header.to) && sendType <= TX_ROUTED
    requires sendType == TX_ROUTED ==> DigitsOf(s.me) != DigitsOf(frame.header.from)
    ensures var w := Written(s.me, frame, sendType, ok, id);
            var sent := Transmitted(HopLog(s, frame.header.to, sendType, frame, false, false, ok, ackOk));
            && |sent| == |w.frames| && (forall i :: 0 <= i < |sent| ==> Carries(sent[i], w.frames[i], id))
            && |sent| >= 1 && sent[0].frame == frame && (|sent| == 2 <==> w.acked)
            && (w.waits <==> ok && Waits(s.me, frame.header.to, sendType, frame.header.kind))
  {
    SameDecisions(s.me, frame.header.to, frame, sendType, ok, id);
    WrittenFrames(s.me, frame, sendType, ok, id);
    HopSends(s.me, sendType, frame, ok, ackOk, s);
    HopCarried(s.me, frame.header.to, sendType, frame, id);
    if Written(s.me, frame, sendType, ok, id).acked {
      HopCarried(s.me, frame.header.from, TX_ROUTED, AckFrame(frame), id);
      assert Carries(Sent(Target(s.me, frame.header.from, TX_ROUTED), AckFrame(frame)),
                     AnswerPacket(s.me, frame, id), id);
    }
  }

  lemma TransmittedTwo(a: OnAir, ok: bool)
    requires a.Sent?
    ensures Transmitted([a, Reported(ok)]) == [a]
  {
    assert [a, Reported(ok)][1..] == [Reported(ok)];
    assert Transmitted([Reported(ok)]) == [];
  }

  lemma TransmittedFour(a: OnAir, ok: bool, b: OnAir, ackOk: bool)
    requires a.Sent? && b.Sent?
    ensures Transmitted([a, Reported(ok), b, Reported(ackOk)]) == [a] + [b]
  {
    var log := [a, Reported(ok), b, Reported(ackOk)];
    assert log[1..] == [Reported(ok), b, Reported(ackOk)] && log[1..][1..] == [b, Reported(ackOk)];
    TransmittedTwo(b, ackOk);
  }

  // ----- What comes of a frame that `update` takes

  // A frame from one other node to another, taken by a node on the way that has an address.
  ghost predicate Passing(s: Setup, t: Take) {
    && Faithful(s, t) && t.size >= 8 && NodeName(DigitsOf(s.me)) && s.me != DEFAULT_ADDRESS
    && NodeName(DigitsOf(t.frame.header.from)) && NodeName(DigitsOf(t.frame.header.to))
    && t.frame.header.to != s.me && t.frame.header.from != s.me
  }

  lemma NotALevel(n: uint16)
    requires NodeName(DigitsOf(n))
    ensures n != MULTICAST_ADDRESS
  {
    DigitsOfValue([0, 0, 1]);
    assert Value([0, 0, 1]) == 64 && [0, 0, 1][0] == 0;
  }

  lemma OtherNode(a: uint16, b: uint16)
    requires a != b
    ensures DigitsOf(a) != DigitsOf(b)
  {
    ValueOfDigits(a);
    ValueOfDigits(b);
  }

  /** It is forwarded as the protocol says, and neither queued nor reported. */
  lemma PassingForwarded(s: Setup, t: Take, id: nat)
    requires Passing(s, t) && !t.stuck
    ensures var w := Written(s.me, t.frame, TX_ROUTED, t.ok, id);
            var sent := Transmitted(t.effect.puts);
            && |sent| == |w.frames| && (forall i :: 0 <= i < |sent| ==> Carries(sent[i], w.frames[i], id))
            && |sent| >= 1 && sent[0].frame == t.frame && (|sent| == 2 <==> w.acked)
    ensures !t.effect.queued && !t.effect.stops && t.effect.value == Some(0)
  {
    NotALevel(t.frame.header.to);
    OtherNode(s.me, t.frame.header.to);
    OtherNode(s.me, t.frame.header.from);
    ProtocolAgrees(s, TX_ROUTED, t.frame, t.ok, t.ackOk, id);
  }

  // ----- Everything taken is accounted for

  function Inbox(takes: seq<Take>): seq<(nat, Frame)> {
    seq(|takes|, i requires 0 <= i < |takes| => (takes[i].size, takes[i].frame))
  }

  function Queued(takes: seq<Take>): seq<(Frame, int)> {
    if takes == [] then []
    else
      var last := takes[|takes| - 1];
      Queued(takes[..|takes| - 1]) + if last.effect.queued then [(last.frame, last.result)] else []
  }

  /** The frames of a session are those the radio handed out, in order; those queued were given to `enqueue`. */
  lemma {:induction false} TakesAreAll(h: Heard, takes: seq<Take>)
    ensures HeardThese(h, takes).inbox == h.inbox + Inbox(takes)
    ensures HeardThese(h, takes).queued == h.queued + Queued(takes)
    ensures |HeardThese(h, takes).polls| == |h.polls| + |takes| <= |HeardThese(h, takes).polls|
  {
    if takes != [] {
      var init := takes[..|takes| - 1];
      TakesAreAll(h, init);
      assert Inbox(takes) == Inbox(init) + [(takes[|takes| - 1].size, takes[|takes| - 1].frame)];
    }
  }

  /** What one of them puts on the air is a part of what the session does. */
  lemma {:induction false} PutsInOrder(takes: seq<Take>, i: nat)
    requires i < |takes|
    ensures AllPuts(takes[..i]) + takes[i].effect.puts <= AllPuts(takes)
  {
    var init := takes[..|takes| - 1];
    if i < |takes| - 1 {
      PutsInOrder(init, i);
      assert init[..i] == takes[..i];
    } else {
      assert takes[..i] == init;
    }
  }

  // ----- Waiting for an acknowledgement

  // A NETWORK_ACK for this node.
  ghost predicate OwnAck(s: Setup, t: Take) {
    WellAddressed(t) && t.frame.header.kind == NetworkAck.NETWORK_ACK && t.frame.header.to == s.me
  }

  // A NETWORK_ACK for this node or a level, or any that a node without an address overhears.
  ghost predicate AnyAck(s: Setup, t: Take) {
    && WellAddressed(t) && t.frame.header.kind == NetworkAck.NETWORK_ACK
    && (t.frame.header.to == s.me || t.frame.header.to == MULTICAST_ADDRESS || s.me == DEFAULT_ADDRESS)
  }

  /** An acknowledgement for this node ends `update`, which returns its type and sends nothing for it. */
  lemma OwnAckStops(s: Setup, t: Take)
    requires Faithful(s, t) && OwnAck(s, t)
    ensures t.effect == Effect([], false, Some(NetworkAck.NETWORK_ACK), true)
  {
  }

  /** Only an acknowledgement gives that type. */
  lemma OnlyAcksReturn(s: Setup, t: Take)
    requires Faithful(s, t) && t.effect.value == Some(NetworkAck.NETWORK_ACK)
    ensures AnyAck(s, t)
  {
  }

  lemma {:induction false} ReturnedIsTaken(s: Setup, takes: seq<Take>) returns (i: nat)
    requires AllFaithful(s, takes) && Returned(takes) == NetworkAck.NETWORK_ACK
    ensures i < |takes| && AnyAck(s, takes[i])
  {
    var init, last := takes[..|takes| - 1], takes[|takes| - 1];
    assert Nth(takes, |takes| - 1) == last && Faithful(s, last);
    if last.effect.value.Some? {
      OnlyAcksReturn(s, last);
      i := |takes| - 1;
    } else {
      AllFaithfulBefore(s, takes);
      i := ReturnedIsTaken(s, init);
    }
  }

  lemma AllFaithfulBefore(s: Setup, takes: seq<Take>)
    requires AllFaithful(s, takes) && takes != []
    ensures AllFaithful(s, takes[..|takes| - 1])
  {
    var init := takes[..|takes| - 1];
    forall i | 0 <= i < |init|
      ensures Faithful(s, Nth(init, i))
    {
      assert Nth(init, i) == Nth(takes, i);
    }
  }

  lemma OwnAckSeen(s: Setup, u: Session, i: nat)
    requires Proper(u) && AllFaithful(s, u.takes) && i < |u.takes| && OwnAck(s, u.takes[i])
    ensures SawAck(u)
  {
    assert Faithful(s, Nth(u.takes, i));
    OwnAckStops(s, u.takes[i]);
  }

  /** A wait that returns true has seen an acknowledgement, in its last update. */
  lemma AckSeen(s: Setup, waited: seq<Session>) returns (i: nat)
    requires Waiting(s, waited) && Acknowledged(waited)
    ensures i < |waited[|waited| - 1].takes| && AnyAck(s, waited[|waited| - 1].takes[i])
  {
    assert Proper(Nth(waited, |waited| - 1));
    i := ReturnedIsTaken(s, waited[|waited| - 1].takes);
  }

  /** A wait in which an acknowledgement for this node comes in returns true, and takes no further frame. */
  lemma OwnAckAnswers(s: Setup, waited: seq<Session>, j: nat, i: nat)
    requires Waiting(s, waited) && j < |waited| && i < |waited[j].takes| && OwnAck(s, waited[j].takes[i])
    ensures Acknowledged(waited) && j == |waited| - 1 && i == |waited[j].takes| - 1
  {
    assert Proper(Nth(waited, j)) && AllFaithful(s, Nth(waited, j).takes);
    OwnAckSeen(s, waited[j], i);
    assert SawAck(Nth(waited, j));
    assert Faithful(s, Nth(waited[j].takes, i));
    OwnAckStops(s, waited[j].takes[i]);
  }

  ghost predicate AckCame(s: Setup, waited: seq<Session>) {
    exists j: nat, i: nat :: j < |waited| && i < |waited[j].takes| && AnyAck(s, waited[j].takes[i])
  }

  ghost predicate OwnAckCame(s: Setup, waited: seq<Session>) {
    exists j: nat, i: nat :: j < |waited| && i < |waited[j].takes| && OwnAck(s, waited[j].takes[i])
  }

  /**
   What a call of `write` returns: whether its hop worked out, and where it
   waits, true when an acknowledgement for this node came in meanwhile, and
   only when some acknowledgement did.
   */
  lemma WaitingResult(s: Setup, toNode: uint16, sendType: nat, frame: Frame, c: Call, before: seq<OnAir>,
                      log: seq<OnAir>, h: Heard, heard: Heard, ok: bool, on: bool)
    requires CallDone(s, toNode, sendType, frame, c, before, log, h, heard, ok, on)
    ensures !c.hop ==> !ok && c.waited == []
    ensures !Waits(s.me, toNode, sendType, frame.header.kind) ==> ok == c.hop && c.waited == []
    ensures Waits(s.me, toNode, sendType, frame.header.kind) && c.hop ==>
              c.waited != [] && (OwnAckCame(s, c.waited) ==> ok) && (ok ==> AckCame(s, c.waited))
  {
    if c.waited != [] {
      if j: nat, i: nat :| j < |c.waited| && i < |c.waited[j].takes| && OwnAck(s, c.waited[j].takes[i]) {
        OwnAckAnswers(s, c.waited, j, i);
      }
      if ok {
        var i := AckSeen(s, c.waited);
      }
    }
  }

  // ----- System frames

  // Heard on pipe 0 by exactly the nodes of a level.
  ghost predicate ForLevel(address: seq<int>, level: nat) {
    forall node: Digits, pipe: nat :: NodeName(node) && pipe <= 5 ==>
      (PhysicalAddress(node, pipe) == address <==> pipe == 0 && |node| == level)
  }

  lemma DirectHeard(me: uint16, to: uint16, sendType: nat)
    requires ValidAddress(me) && NodeName(DigitsOf(to)) && sendType > TX_ROUTED
    ensures ForLevel(Target(me, to, sendType).address, |DigitsOf(to)|)
  {
    DirectAddress(me, to, sendType);
    forall node: Digits, pipe: nat | NodeName(node) && pipe <= 5
      ensures PhysicalAddress(node, pipe) == Target(me, to, sendType).address <==> pipe == 0 && |node| == |DigitsOf(to)|
    {
      SharedAddress(node, pipe, DigitsOf(to), 0);
    }
  }

  lemma LevelTarget(me: uint16, level: nat)
    requires ValidAddress(me) && level <= 3
    ensures ForLevel(Target(me, LevelToAddress(level), USER_TX_MULTICAST).address, level)
  {
    forall node: Digits, pipe: nat | NodeName(node) && pipe <= 5
      ensures PhysicalAddress(node, pipe) == Target(me, LevelToAddress(level), USER_TX_MULTICAST).address <==>
              pipe == 0 && |node| == level
    {
      LevelHeard(me, level, USER_TX_MULTICAST, node, pipe);
    }
  }

  lemma DefaultTarget(me: uint16)
    requires ValidAddress(me)
    ensures ForLevel(Target(me, DEFAULT_ADDRESS, USER_TX_TO_PHYSICAL_ADDRESS).address, 4)
  {
    DigitsOfValue([4, 4, 4, 4]);
    DirectHeard(me, DEFAULT_ADDRESS, USER_TX_TO_PHYSICAL_ADDRESS);
  }

  /** An address answer for this node goes on, with nothing but its destination changed, to the fourth level. */
  lemma AnswerGoesDown(s: Setup, t: Take)
    requires Faithful(s, t) && WellAddressed(t) && !t.stuck && t.frame.header.to == s.me != DEFAULT_ADDRESS
    requires t.frame.header.kind == NETWORK_ADDR_RESPONSE
    ensures var target := Target(s.me, DEFAULT_ADDRESS, USER_TX_TO_PHYSICAL_ADDRESS);
            && t.effect.puts == [Sent(target, Frame(t.frame.header.(to := 2340), t.frame.payload)), Reported(t.ok)]
            && ForLevel(target.address, 4)
    ensures !t.effect.queued && !t.effect.stops
  {
    DefaultTarget(s.me);
  }

  /** A request for an address goes up to the parent, in this node's name and for the master. */
  lemma RequestGoesUp(s: Setup, t: Take)
    requires Faithful(s, t) && WellAddressed(t) && !t.stuck && t.frame.header.to == s.me && NodeName(DigitsOf(s.me))
    requires t.frame.header.kind == NETWORK_REQ_ADDRESS && s.me != 0
    ensures var target := Target(s.me, 0, TX_NORMAL);
            && t.effect.puts ==
               [Sent(target, Frame(t.frame.header.(from := s.me, to := 0), t.frame.payload)), Reported(t.ok)]
            && forall node: Digits :: NodeName(node) ==>
                 (Hears(node, target.address) <==> node == Parent(DigitsOf(s.me)))
    ensures !t.effect.queued && !t.effect.stops
  {
    ParentTarget(s.me);
  }

  lemma ParentTarget(me: uint16)
    requires NodeName(DigitsOf(me)) && me != 0
    ensures forall node: Digits :: NodeName(node) ==>
              (Hears(node, Target(me, 0, TX_NORMAL).address) <==> node == Parent(DigitsOf(me)))
  {
    DigitsOfValue([]);
    OtherNode(me, 0);
    forall node: Digits | NodeName(node)
      ensures Hears(node, Target(me, 0, TX_NORMAL).address) <==> node == Parent(DigitsOf(me))
    {
      HopHeard(DigitsOf(me), [], TX_NORMAL, node);
    }
  }

  /** A poll is answered to the polling node's level, in this node's name, with the rest of the poll as it came. */
  lemma PollGoesBack(s: Setup, t: Take)
    requires Faithful(s, t) && t.size >= 8 && !t.stuck && ValidAddress(s.me) && NodeName(DigitsOf(t.frame.header.from))
    requires t.frame.header.to == MULTICAST_ADDRESS != s.me && t.frame.header.kind == NETWORK_POLL
    ensures var from := t.frame.header.from;
            var target := Target(s.me, from, USER_TX_TO_PHYSICAL_ADDRESS);
            && t.effect.puts ==
               (if s.noPoll || s.me == DEFAULT_ADDRESS then []
                else [Sent(target, Frame(t.frame.header.(from := s.me, to := from), t.frame.payload)), Reported(t.ok)])
            && ForLevel(target.address, |DigitsOf(from)|)
    ensures t.effect.value == Some(0) && !t.effect.queued && !t.effect.stops
  {
    DirectHeard(s.me, t.frame.header.from, USER_TX_TO_PHYSICAL_ADDRESS);
  }

  /** Any other multicast is kept, and may be passed down. */
  lemma MulticastKept(s: Setup, t: Take)
    requires Faithful(s, t) && t.size >= 8 && ValidAddress(t.frame.header.from)
    requires t.frame.header.to == MULTICAST_ADDRESS != s.me && t.frame.header.kind != NETWORK_POLL
    ensures t.effect.queued && (t.effect.stops <==> t.result == 2)
    ensures t.effect.value == Some(if t.result == 2 then 131 else t.frame.header.kind)
    ensures t.effect.puts == PassedDown(s, t.frame, t.stuck, t.ok)
  {
  }

  /** That is what a relay of the first two levels does: it sends the frame as it is to the next level. */
  lemma OneLevelDown(s: Setup, frame: Frame, ok: bool)
    requires ValidAddress(s.me)
    ensures !s.relay || s.level > 2 ==> PassedDown(s, frame, false, ok) == []
    ensures s.relay && 1 <= s.level <= 2 ==>
              var target := Target(s.me, LevelToAddress(s.level + 1), USER_TX_MULTICAST);
              && PassedDown(s, frame, false, ok) == [Sent(target, frame), Reported(ok)]
              && ForLevel(target.address, s.level + 1)
  {
    if s.relay && 1 <= s.level <= 2 {
      RelayAddress(s.level);
      LevelTarget(s.me, s.level + 1);
    }
  }

  /**
   Any other frame for this node sends nothing.  It is shown to the caller if it
   is an acknowledgement or, where that is asked for, another system message
   that is no fragment and no external data; otherwise it is queued.  Pings are dropped.
   */
  lemma OwnFrameKept(s: Setup, t: Take)
    requires Faithful(s, t) && WellAddressed(t) && t.frame.header.to == s.me
    requires t.frame.header.kind != 128 && t.frame.header.kind != 195
    ensures t.effect.puts == []
    ensures var kind := t.frame.header.kind;
            var shown := kind == 193 || (s.sysMsgs && kind > 127 && kind != 131 && !(148 <= kind <= 150));
            if kind == 130 then !t.effect.queued && !t.effect.stops && t.effect.value == Some(kind)
            else
              && (t.effect.queued <==> !shown) && (t.effect.stops <==> shown || t.result == 2)
              && t.effect.value == Some(if !shown && t.result == 2 then 131 else kind)
  {
  }

  // ----- Long messages

  lemma {:induction false} CopiesIrrelevant(air: nat -> Fate, s: nat, left: nat, c: nat, c': nat, count: nat)
    ensures Sending(air, s, left, c, count).sent == Sending(air, s, left, c', count).sent
    decreases left
  {
    if count > 0 && left > 0 && !air(s).ok {
      CopiesIrrelevant(air, s + 1, left - 1, if air(s).heard then c + 1 else c, if air(s).heard then c' + 1 else c',
                       count);
    }
  }

  // The turns are the calls of the sending loop.
  ghost predicate Reports(turns: seq<Turn>, air: nat -> Fate) {
    forall i :: 0 <= i < |turns| ==> air(i).ok == Succeeded(Nth(turns, i).call)
  }

  // The sending loop after one more call.
  lemma OneCall(air: nat -> Fate, s: nat, left: nat, count: nat)
    requires left > 0 && count > 0
    ensures Sending(air, s, left, 0, count).sent ==
            if air(s).ok then Sending(air, s + 1, MAX_TRIES, 0, count - 1).sent
            else Sending(air, s + 1, left - 1, 0, count).sent
  {
    if !air(s).ok {
      CopiesIrrelevant(air, s + 1, left - 1, if air(s).heard then 1 else 0, 0, count);
    }
  }

  // Whether all fragments get sent is up to the calls from here on.
  ghost predicate SendsOn(air: nat -> Fate, count: nat, calls: nat, at: Place) {
    && 0 <= at.k <= count && 0 <= at.left <= MAX_TRIES
    && Sending(air, 0, MAX_TRIES, 0, count).sent == Sending(air, calls, at.left, 0, count - at.k).sent
  }

  lemma SendsOnNext(air: nat -> Fate, count: nat, calls: nat, k: nat, left: nat, at: Place)
    requires SendsOn(air, count, calls, Place(k, left)) && left >= 1 && k < count
    requires at == Moved(k, left, air(calls).ok)
    ensures SendsOn(air, count, calls + 1, at)
  {
    OneCall(air, calls, left, count - k);
  }

  lemma {:induction false} TurnsSend(s: Setup, toNode: uint16, sendType: nat, m: Message, burst: bool, turns: seq<Turn>,
                                     air: nat -> Fate)
    requires Fragmented(m) && InTurn(s, toNode, sendType, m, burst, turns) && Reports(turns, air)
    ensures SendsOn(air, FragmentCount(|m.data|), |turns|, Reached(turns))
  {
    if turns != [] {
      var init, last := turns[..|turns| - 1], turns[|turns| - 1];
      ReportsBefore(turns, air);
      TurnsSend(s, toNode, sendType, m, burst, init, air);
      assert Nth(turns, |turns| - 1) == last;
      SendsOnNext(air, FragmentCount(|m.data|), |init|, last.k, last.left, Reached(turns));
    }
  }

  lemma ReportsBefore(turns: seq<Turn>, air: nat -> Fate)
    requires Reports(turns, air) && turns != []
    ensures Reports(turns[..|turns| - 1], air)
  {
    var init := turns[..|turns| - 1];
    forall i | 0 <= i < |init|
      ensures air(i).ok == Succeeded(Nth(init, i).call)
    {
      assert Nth(init, i) == Nth(turns, i);
    }
  }

  /** The driver reports success exactly when the sending loop does for the same calls, and a burst is drained. */
  lemma LoopAgrees(s: Setup, toNode: uint16, sendType: nat, m: Message, burst: bool, turns: seq<Turn>, drained: bool,
                   before: seq<OnAir>, log: seq<OnAir>, h: Heard, heard: Heard, ok: bool, air: nat -> Fate)
    requires Fragmented(m) && Reports(turns, air)
    requires LongDone(s, toNode, sendType, m, burst, turns, drained, before, log, h, heard, ok)
    ensures ok <==> Fragments.Transmission(m, air).sent && (BurstAfter(burst, turns) ==> drained)
  {
    TurnsSend(s, toNode, sendType, m, burst, turns, air);
  }

  /** Every fragment before the current one has had a call that succeeded. */
  lemma {:induction false} FragmentDone(s: Setup, toNode: uint16, sendType: nat, m: Message, burst: bool,
                                        turns: seq<Turn>, k: nat) returns (i: nat)
    requires Fragmented(m) && InTurn(s, toNode, sendType, m, burst, turns) && k < Reached(turns).k
    ensures i < |turns| && k < FragmentCount(|m.data|) && turns[i].frame == Fragment(m, k) && Succeeded(turns[i].call)
  {
    var last := turns[|turns| - 1];
    if last.k == k && Succeeded(last.call) {
      i := |turns| - 1;
    } else {
      i := FragmentDone(s, toNode, sendType, m, burst, turns[..|turns| - 1], k);
    }
  }

  // The first k fragments, each once and in order.
  ghost function InOrder(t: Transmission, m: Message, k: nat): seq<OnAir>
    requires Fragmented(m) && k <= FragmentCount(|m.data|)
  {
    if k == 0 then [] else InOrder(t, m, k - 1) + [Sent(t, Fragment(m, k - 1))]
  }

  lemma BurstTurn(s: Setup, toNode: uint16, sendType: nat, frame: Frame, c: Call)
    requires CallOk(s, toNode, sendType, frame, c) && c.burst && sendType != TX_ROUTED
    requires !Waits(s.me, toNode, sendType, frame.header.kind)
    ensures c.waited == []
    ensures CallLog(s, toNode, sendType, frame, c) ==
            if Succeeded(c) then [Sent(Target(s.me, toNode, sendType), frame)] else []
  {
  }

  // All fragments are of acknowledged types.
  lemma FragmentWaits(me: uint16, toNode: uint16, sendType: nat, m: Message, k: nat)
    requires Fragmented(m) && k < FragmentCount(|m.data|)
    ensures Waits(me, toNode, sendType, Fragment(m, k).header.kind) <==> Waits(me, toNode, sendType, FIRST_FRAGMENT)
  {
  }

  lemma InOrderNext(t: Transmission, m: Message, k: nat, ok: bool)
    requires Fragmented(m) && k < FragmentCount(|m.data|)
    ensures InOrder(t, m, if ok then k + 1 else k) == InOrder(t, m, k) + if ok then [Sent(t, Fragment(m, k))] else []
  {
    assert InOrder(t, m, k) + [] == InOrder(t, m, k);
  }

  ghost predicate SentSoFar(log: seq<OnAir>, t: Transmission, m: Message, k: int)
    requires Fragmented(m)
  {
    0 <= k <= FragmentCount(|m.data|) && log == InOrder(t, m, k)
  }

  lemma BurstNext(s: Setup, toNode: uint16, sendType: nat, m: Message, init: seq<Turn>, last: Turn)
    requires Fragmented(m) && sendType != TX_ROUTED && !Waits(s.me, toNode, sendType, FIRST_FRAGMENT)
    requires NextTurn(s, toNode, sendType, m, true, init, last) && BurstAfter(true, init)
    requires SentSoFar(TurnsLog(s, toNode, sendType, init), Target(s.me, toNode, sendType), m, Reached(init).k)
    ensures last.call.burst && last.call.waited == []
    ensures SentSoFar(TurnsLog(s, toNode, sendType, init) + CallLog(s, toNode, sendType, last.frame, last.call),
                      Target(s.me, toNode, sendType), m, if Succeeded(last.call) then last.k + 1 else last.k)
  {
    FragmentWaits(s.me, toNode, sendType, m, last.k);
    BurstTurn(s, toNode, sendType, last.frame, last.call);
    InOrderNext(Target(s.me, toNode, sendType), m, last.k, Succeeded(last.call));
  }

  lemma {:induction false} BurstTurns(s: Setup, toNode: uint16, sendType: nat, m: Message, turns: seq<Turn>)
    requires Fragmented(m) && InTurn(s, toNode, sendType, m, true, turns) && sendType != TX_ROUTED
    requires !Waits(s.me, toNode, sendType, FIRST_FRAGMENT)
    ensures BurstAfter(true, turns)
    ensures SentSoFar(TurnsLog(s, toNode, sendType, turns), Target(s.me, toNode, sendType), m, Reached(turns).k)
  {
    if turns != [] {
      BurstTurns(s, toNode, sendType, m, turns[..|turns| - 1]);
      BurstNext(s, toNode, sendType, m, turns[..|turns| - 1], turns[|turns| - 1]);
    }
  }

  /**
   To a neighbour, or directly, a long message is a burst: nothing is on the
   air but its first fragments, each once, in order and to one place, and then
   the radio's report; and all of them if the call returns true.
   */
  lemma NeighbourBurst(s: Setup, toNode: uint16, sendType: nat, m: Message, turns: seq<Turn>, drained: bool,
                       before: seq<OnAir>, log: seq<OnAir>, h: Heard, heard: Heard, ok: bool)
    requires Fragmented(m) && sendType != TX_ROUTED && !Waits(s.me, toNode, sendType, FIRST_FRAGMENT)
    requires LongDone(s, toNode, sendType, m, true, turns, drained, before, log, h, heard, ok)
    ensures var n, k := FragmentCount(|m.data|), Reached(turns).k;
            && 0 <= k <= n && (ok <==> k == n && drained)
            && log == before + (InOrder(Target(s.me, toNode, sendType), m, k) + [Reported(drained)])
  {
    BurstTurns(s, toNode, sendType, m, turns);
    Rebracket(before, TurnsLog(s, toNode, sendType, turns), [Reported(drained)]);
  }
}
