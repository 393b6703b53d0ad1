/**
 The network layer driving its radio: how a node starts up, sends, relays and
 waits.  What other nodes send, what becomes of transmissions, what the frame
 queue makes of a frame, and how fast the clock runs are left open.
 */
module NetworkDriver {
  import opened Bits
  import opened Basics
  import opened OctalTree
  import opened OctalValue
  import opened NodeRouting
  import opened PhysicalPipes
  import opened Delivery
  import opened Processing
  import opened Radio
  import opened Fragments
  import NetworkAck

  const ROUTE_TIMEOUT := 75
  const UPDATE_TIMEOUT := 1000

  // How far the clock can still run before a time limit is noticed.
  function TicksLeft(start: nat, limit: nat, ticksPerMilli: nat, ticks: nat): int {
    (start + limit + 1) * ticksPerMilli - ticks
  }

  lemma NothingMore<T>(a: seq<T>, b: seq<T>)
    ensures b == [] ==> a + b == a
  {
  }

  lemma WithinLimit(start: nat, limit: nat, ticksPerMilli: nat, ticks: nat)
    requires ticksPerMilli >= 1 && ticks / ticksPerMilli - start <= limit
    ensures TicksLeft(start, limit, ticksPerMilli, ticks) > 0
  {
    var t := ticks / ticksPerMilli;
    assert ticks < (t + 1) * ticksPerMilli;
    assert (t + 1) * ticksPerMilli <= (start + limit + 1) * ticksPerMilli;
  }

  lemma LaterDiv(a: nat, b: nat, d: nat)
    requires d >= 1 && a <= b
    ensures a / d <= b / d
  {
    if a / d > b / d { TimesMore(b / d + 1, a / d, d); }
  }

  lemma TimesMore(x: nat, y: nat, d: nat)
    requires x <= y
    ensures x * d <= y * d
  {
  }

  class ESBNetwork {
    const radio: RF24
    const node: Node
    var frameBuffer: Frame      // frame_buffer, as far as frame_size says
    var fastFrag: bool          // FLAG_FAST_FRAG of networkFlags
    var noPoll: bool            // FLAG_NO_POLL of networkFlags
    var returnSysMsgs: bool
    var multicastRelay: bool

    const ticksPerMilli: nat
    var ticks: nat

    ghost var own: Own          // the addresses of this node's pipes

    ghost var heard: Heard      // what the radio and the frame queue have told so far

    ghost var waits: nat        // calls of `Write` that are waiting for an acknowledgement right now

    // Has an address, and has cached what it means.
    ghost predicate Joined()
      reads node
    {
      node.Configured() && ValidAddress(node.nodeAddress) && ticksPerMilli >= 1
    }

    ghost function Mode(): Mode
      reads this`own, radio
    {
      radio.Mode(own)
    }

    ghost function Self(): Setup
      reads this`noPoll, this`returnSysMsgs, this`multicastRelay, node
    {
      Setup(node.nodeAddress, node.multicastLevel, noPoll, multicastRelay, returnSysMsgs)
    }

    // More than so many milliseconds have gone by since the clock stood at `before`.
    ghost predicate Elapsed(before: nat, limit: nat)
      reads this`ticks
      requires ticksPerMilli >= 1
    {
      ticks / ticksPerMilli - before / ticksPerMilli > limit
    }

    // Between calls the radio listens, unless a burst of fragments keeps it in transmit mode.
    ghost predicate Ready()
      reads this`own, this`fastFrag, radio
    {
      Mode() == if fastFrag then Transmitting else Listening
    }

    // May be made to send: in a burst the radio transmits already.
    ghost predicate CanSend()
      reads this`own, this`fastFrag, radio
    {
      if fastFrag then Mode() == Transmitting else Mode() != Untuned
    }

    // After a hop: in a burst the aim stays, and otherwise pipe 0 is silent again.
    ghost predicate Sending(t: Transmission)
      reads this`own, this`fastFrag, radio
    {
      Mode() == Transmitting && if fastFrag then radio.Aimed(t) else !radio.enAA.p0
    }

    // After a call of `write`.
    ghost predicate Back(t: Transmission)
      reads this`own, this`fastFrag, radio
    {
      Ready() && (fastFrag ==> radio.Aimed(t))
    }

    // What a call of `write` has done; an address that does not pass the filter does nothing.
    ghost predicate Called(s: Setup, toNode: uint16, sendType: nat, frame: Frame, call: Call, stuck: bool, burst: bool,
                           before: seq<OnAir>, h: Heard, ok: bool)
      reads this`fastFrag, this`heard, radio
    {
      if ValidAddress(toNode)
      then && call.stuck == stuck && call.burst == burst
           && CallDone(s, toNode, sendType, frame, call, before, radio.log, h, heard, ok, fastFrag)
           && (fastFrag ==> radio.Aimed(Target(s.me, toNode, sendType)))
      else !ok && radio.log == before && heard == h && fastFrag == burst
    }

    // In a burst only the first fragment aims; the others rely on it.
    ghost predicate InAim(t: Transmission)
      reads this, radio
    {
      fastFrag && frameBuffer.header.kind != FIRST_FRAGMENT ==> radio.Aimed(t)
    }

    constructor (radio: RF24, ticksPerMilli: nat)
      requires radio.Valid() && ticksPerMilli >= 1
      ensures this.radio == radio && this.ticksPerMilli == ticksPerMilli && !fastFrag && waits == 0 && fresh(node)
    {
      this.radio := radio;
      this.ticksPerMilli := ticksPerMilli;
      node := new Node(0);
      frameBuffer := Frame(Header(0, 0, 0, 0, 0), []);
      fastFrag, noPoll, returnSysMsgs, multicastRelay := false, false, false, false;
      ticks, waits := 0, 0;
      own := Own([], [], []);
      heard := Heard([], [], []);
    }

    /** Joins the network under an address: all pipes open, each at its own address, and the radio listening. */
    method Begin(address: uint16, radioIsValid: bool)
      requires radio.Valid() && ticksPerMilli >= 1 && !fastFrag
      modifies radio, node, this`own
      ensures radio.Valid() && radio.log == old(radio.log)
      ensures ValidAddress(address) && radioIsValid ==>
                Joined() && Ready() && node.nodeAddress == address && own == OwnAddresses(address)
    {
      var isValid := IsValidAddress(address);
      if !isValid {
        return;
      }
      node.nodeAddress := address;
      if !radioIsValid {
        return;
      }
      ValidIsReachable(address);
      node.SetupAddress();
      own := OwnAddresses(address);
      StartRadio();
    }

    // The registers a node needs; the address cache is independent of them.
    method StartRadio()
      requires radio.Valid() && ValidAddress(node.nodeAddress) && own == OwnAddresses(node.nodeAddress)
      modifies radio
      ensures Mode() == Listening && radio.log == old(radio.log)
    {
      radio.SetAutoAckAll(true);
      radio.SetAutoAck(0, false);
      OpenPipes();
      radio.StartListening();
    }

    // All six pipes, the highest first: pipes 2 to 5 rely on pipe 1, which comes after them.
    method OpenPipes()
      requires radio.Valid() && ValidAddress(node.nodeAddress) && own == OwnAddresses(node.nodeAddress)
      modifies radio`pipe0ReadingAddress, radio`isP0Rx, radio`rxAddrP0, radio`rxAddrP1, radio`rxAddrLow, radio`enRxAddr
      ensures radio.Valid() && radio.isP0Rx && radio.rxAddrP0 == radio.pipe0ReadingAddress == own.p0
      ensures radio.rxAddrP1 == own.p1 && radio.rxAddrLow == own.low
      ensures radio.enRxAddr == ALL_PIPES
    {
      ValidIsReachable(node.nodeAddress);
      ghost var name := node.Name();
      var i := 6;
      while i > 0
        invariant 0 <= i <= 6 && radio.Valid()
        invariant forall pipe :: i <= pipe <= 5 && pipe >= 2 ==> radio.rxAddrLow[pipe - 2] == AddressByte(name, pipe, 0)
        invariant i <= 1 ==> radio.rxAddrP1 == PhysicalAddress(name, 1)
        invariant i == 0 ==> radio.isP0Rx && radio.rxAddrP0 == radio.pipe0ReadingAddress == PhysicalAddress(name, 0)
        invariant forall pipe :: i <= pipe <= 5 ==> radio.enRxAddr.Has(pipe)
      {
        i := i - 1;
        var address := PipeAddress(node.nodeAddress, i);
        radio.OpenReadingPipe(i, address[..5]);
      }
      assert forall k :: 0 <= k < 4 ==> radio.rxAddrLow[k] == AddressByte(name, k + 2, 0);
      assert radio.enRxAddr.Has(0) && radio.enRxAddr.Has(1) && radio.enRxAddr.Has(2);
      assert radio.enRxAddr.Has(3) && radio.enRxAddr.Has(4) && radio.enRxAddr.Has(5);
    }

    lemma ClockRuns(a: nat, b: nat)
      requires ticksPerMilli >= 1 && a <= b
      ensures a / ticksPerMilli <= b / ticksPerMilli
    {
      LaterDiv(a, b, ticksPerMilli);
    }

    // A reading of the clock: it has moved on since the last one, though perhaps by less than a millisecond.
    method Millis() returns (t: nat)
      requires ticksPerMilli >= 1
      modifies this`ticks
      ensures ticks > old(ticks) && t == ticks / ticksPerMilli && old(ticks) / ticksPerMilli <= t
    {
      var passed :| passed >= 0;
      ClockRuns(ticks, ticks + 1 + passed);
      ticks := ticks + 1 + passed;
      t := ticks / ticksPerMilli;
    }

    // Whether more than so many milliseconds have gone by.
    method Late(start: nat, limit: nat) returns (late: bool)
      requires ticksPerMilli >= 1
      modifies this`ticks
      ensures ticks > old(ticks) && (late <==> ticks / ticksPerMilli - start > limit)
      ensures !late ==> TicksLeft(start, limit, ticksPerMilli, ticks) > 0
    {
      var now := Millis();
      late := now - start > limit;
      if !late { WithinLimit(start, limit, ticksPerMilli, ticks); }
    }

    // Aims the transmitter at one pipe; in a burst only its first fragment does.
    method AimAt(sendNode: uint16, pipe: nat, multicast: bool, ghost t: Transmission)
      requires CanSend() && Spellable(DigitsOf(sendNode)) && pipe <= 6
      requires t == Transmission(PhysicalAddress(DigitsOf(sendNode), pipe), !multicast) && InAim(t)
      modifies radio
      ensures Mode() == Transmitting && radio.Aimed(t) && radio.log == old(radio.log) && radio.stuck == old(radio.stuck)
    {
      if !fastFrag {
        radio.StopListening();
      }
      if !fastFrag || frameBuffer.header.kind == FIRST_FRAGMENT {
        radio.SetAutoAck(0, !multicast);
        var address := PipeAddress(sendNode, pipe);
        radio.OpenWritingPipe(address[..5]);
      }
    }

    /** Sends the frame buffer to one pipe, and outside a burst leaves pipe 0 silent again. */
    method WriteToPipe(sendNode: uint16, pipe: nat, multicast: bool, ghost t: Transmission) returns (ok: bool)
      requires CanSend() && Spellable(DigitsOf(sendNode)) && pipe <= 6
      requires t == Transmission(PhysicalAddress(DigitsOf(sendNode), pipe), !multicast) && InAim(t)
      modifies radio
      ensures Sending(t) && if fastFrag then ok == !old(radio.stuck) else ok ==> !radio.stuck
      ensures radio.log == old(radio.log) + Launch(t, frameBuffer, old(radio.stuck), fastFrag, ok)
    {
      AimAt(sendNode, pipe, multicast, t);
      ok := SendBuffer(t);
    }

    // To where the transmitter is aimed.
    method SendBuffer(ghost t: Transmission) returns (ok: bool)
      requires Mode() == Transmitting && radio.Aimed(t)
      modifies radio
      ensures Sending(t) && if fastFrag then ok == !old(radio.stuck) else ok ==> !radio.stuck
      ensures radio.log == old(radio.log) + Launch(t, frameBuffer, old(radio.stuck), fastFrag, ok)
    {
      ok := radio.WriteFast(frameBuffer);
      if !fastFrag {
        ok := radio.TxStandBy();
        radio.SetAutoAck(0, false);
      }
    }

    /** Converts, checks and sends: one hop of the frame buffer towards a node. */
    method SendTowards(toNode: uint16, sendType: nat, ghost s: Setup) returns (ok: bool, sendNode: uint16)
      requires Joined() && s == Self() && CanSend() && ValidAddress(toNode) && InAim(Target(s.me, toNode, sendType))
      modifies radio
      ensures Sending(Target(s.me, toNode, sendType))
      ensures if fastFrag then ok == !old(radio.stuck) else ok ==> !radio.stuck
      ensures radio.log == old(radio.log) +
                             Payload(s.me, toNode, sendType, frameBuffer, old(radio.stuck), fastFrag, ok)
      ensures sendNode == NextNode(s.me, toNode, sendType)
    {
      var conversion := Convert(toNode, sendType, s);
      sendNode := conversion.sendNode;
      ghost var target := Target(s.me, toNode, sendType);
      ok := WriteToPipe(sendNode, conversion.sendPipe, conversion.multicast, target);
    }

    // The conversion leads where the payload is to be sent.
    method Convert(toNode: uint16, sendType: nat, ghost s: Setup) returns (c: Conversion)
      requires Joined() && s == Self() && ValidAddress(toNode)
      ensures Spellable(DigitsOf(c.sendNode)) && c.sendPipe <= 6
      ensures c.sendNode == NextNode(s.me, toNode, sendType)
      ensures Target(s.me, toNode, sendType) ==
              Transmission(PhysicalAddress(DigitsOf(c.sendNode), c.sendPipe), !c.multicast)
    {
      c := node.LogicalToPhysicalAddress(toNode, sendType);
      ValidIsReachable(s.me);
      ValidIsReachable(toNode);
      ConversionLeads(DigitsOf(s.me), toNode, sendType, c);
    }

    /** One hop, the answer to the source where it was the last one of a relayed frame, and whether to wait for one. */
    method SendAndAnswer(toNode: uint16, sendType: nat, ghost s: Setup)
      returns (ok: bool, wait: bool, ghost ackOk: bool)
      requires Joined() && s == Self() && Ready() && ValidAddress(toNode) && ValidAddress(frameBuffer.header.from)
      requires InAim(Target(s.me, toNode, sendType)) && (fastFrag ==> sendType != TX_ROUTED)
      modifies this`frameBuffer, radio
      ensures Sending(Target(s.me, toNode, sendType))
      ensures HopDone(s, toNode, sendType, old(frameBuffer), old(radio.stuck), fastFrag, ok, ackOk, wait,
                      old(radio.log), radio.log)
    {
      ghost var before, frame, stuck := radio.log, frameBuffer, radio.stuck;
      var isAckType := NetworkAck.IsAckType(frameBuffer.header.kind);
      var sendNode;
      ok, sendNode := SendTowards(toNode, sendType, s);
      ghost var mid := radio.log;
      wait, ackOk := AnswerIfLast(toNode, sendType, ok, sendNode, isAckType, s);
      HopEnds(s, toNode, sendType, frame, stuck, fastFrag, ok, ackOk, wait, before, mid, radio.log);
    }

    // The last relay answers; whoever sent the frame itself, to a node further away, waits for an answer.
    method AnswerIfLast(toNode: uint16, sendType: nat, ok: bool, hopNode: uint16, isAckType: bool, ghost s: Setup)
      returns (wait: bool, ghost ackOk: bool)
      requires Joined() && s == Self() && Sending(Target(s.me, toNode, sendType))
      requires ValidAddress(frameBuffer.header.from)
      requires if fastFrag then sendType != TX_ROUTED else ok ==> !radio.stuck
      requires isAckType == NetworkAck.IsAckType(frameBuffer.header.kind)
      requires hopNode == NextNode(s.me, toNode, sendType)
      modifies this`frameBuffer, radio
      ensures Sending(Target(s.me, toNode, sendType))
      ensures wait <==> ok && Waits(s.me, toNode, sendType, old(frameBuffer).header.kind)
      ensures radio.log == old(radio.log) + Answer(s.me, toNode, sendType, old(frameBuffer), ok, ackOk)
    {
      ackOk := false;
      NothingMore(radio.log, []);
      var sendNode := hopNode;
      if sendType == TX_ROUTED && ok && sendNode == toNode && isAckType {
        sendNode, ackOk := AnswerSource(s);
      }
      var ownSend := sendType == TX_NORMAL || sendType == USER_TX_TO_LOGICAL_ADDRESS;
      wait := ok && sendNode != toNode && ownSend && isAckType;
    }

    // Turns the header round and sends it back as the network's acknowledgement.
    method AnswerSource(ghost s: Setup) returns (sendNode: uint16, ghost ok: bool)
      requires Joined() && s == Self() && Mode() != Untuned && !fastFrag && ValidAddress(frameBuffer.header.from)
      modifies this`frameBuffer, radio
      ensures Mode() == Transmitting && !radio.enAA.p0
      ensures var target := Target(s.me, old(frameBuffer).header.from, TX_ROUTED);
              radio.log == old(radio.log) + Launch(target, AckFrame(old(frameBuffer)), old(radio.stuck), false, ok)
    {
      var header := frameBuffer.header.(kind := NetworkAck.NETWORK_ACK, to := frameBuffer.header.from);
      frameBuffer := Frame(header, []);
      var sent;
      sent, sendNode := SendTowards(frameBuffer.header.from, TX_ROUTED, s);
      ok := sent;
    }

    /**
     Sends the frame buffer towards a node.  The last relay of an acknowledged
     frame answers its source; the source of one with more than one hop to go
     waits for that answer, and processes whatever else arrives meanwhile.  It
     returns whether the hop worked out and, where it waited, whether some
     update reported an acknowledgement before the time was up.
     */
    method Write(toNode: uint16, sendType: nat, ghost s: Setup) returns (ok: bool, ghost call: Call)
      requires Joined() && s == Self() && Ready() && ValidAddress(frameBuffer.header.from)
      requires ValidAddress(toNode) ==> InAim(Target(s.me, toNode, sendType))
      requires fastFrag ==> sendType != TX_ROUTED
      requires MayWait(sendType, frameBuffer.header.kind) ==> waits == 0
      modifies this`frameBuffer, this`fastFrag, this`ticks, this`waits, this`heard, radio
      ensures Ready() && waits == old(waits) && ticks >= old(ticks)
      ensures Called(s, toNode, sendType, old(frameBuffer), call, old(radio.stuck), old(fastFrag), old(radio.log),
                     old(heard), ok)
      decreases if MayWait(sendType, frameBuffer.header.kind) then 2 else 0, 2
    {
      var isValid := IsValidAddress(toNode);
      if !isValid {
        return false, Call(false, false, false, false, false, []);
      }
      ok, call := WriteValid(toNode, sendType, s);
    }

    // The rest of `write`, once the address has passed the filter.
    method WriteValid(toNode: uint16, sendType: nat, ghost s: Setup) returns (ok: bool, ghost call: Call)
      requires Joined() && s == Self() && Ready() && ValidAddress(frameBuffer.header.from) && ValidAddress(toNode)
      requires InAim(Target(s.me, toNode, sendType)) && (fastFrag ==> sendType != TX_ROUTED)
      requires MayWait(sendType, frameBuffer.header.kind) ==> waits == 0
      modifies this`frameBuffer, this`fastFrag, this`ticks, this`waits, this`heard, radio
      ensures Back(Target(s.me, toNode, sendType)) && waits == old(waits) && ticks >= old(ticks)
      ensures call.stuck == old(radio.stuck) && call.burst == old(fastFrag)
      ensures CallDone(s, toNode, sendType, old(frameBuffer), call, old(radio.log), radio.log, old(heard), heard,
                       ok, fastFrag)
      decreases if MayWait(sendType, frameBuffer.header.kind) then 2 else 0, 1
    {
      ghost var before, frame, h := radio.log, frameBuffer, heard;
      ghost var stuck, burst := radio.stuck, fastFrag;
      var hop, wait;
      ghost var ackOk, drained: bool, waited: seq<Session>;
      hop, wait, ackOk := SendAndAnswer(toNode, sendType, s);
      ghost var mid := radio.log;
      ok, drained, waited := Settle(hop, wait, Target(s.me, toNode, sendType), s);
      call := CallEnds(s, toNode, sendType, frame, stuck, burst, hop, ackOk, wait, drained, waited, before, mid,
                       radio.log, h, heard, ok, fastFrag);
    }

    // Waits if need be, and goes back to listening unless a burst goes on.
    method Settle(hop: bool, wait: bool, ghost t: Transmission, ghost s: Setup)
      returns (ok: bool, ghost drained: bool, ghost waited: seq<Session>)
      requires Joined() && s == Self() && Sending(t) && (wait ==> hop && waits == 0)
      modifies this`frameBuffer, this`fastFrag, this`ticks, this`waits, this`heard, radio
      ensures Back(t) && waits == old(waits) && ticks >= old(ticks)
      ensures SettleDone(s, old(fastFrag), drained, hop, wait, waited, old(radio.log), radio.log, old(heard), heard,
                         ok, fastFrag)
      decreases if wait then 1 else 0, if wait then 4 else 0
    {
      ok, waited, drained := hop, [], false;
      NothingSettled(s, fastFrag, hop, radio.log, heard);
      if wait {
        ok, drained, waited := AwaitReply(s);
      }
      if !fastFrag {
        Listen();
      }
    }

    // The source of a frame that has further to go listens for the answer.
    method AwaitReply(ghost s: Setup) returns (ok: bool, ghost drained: bool, ghost waited: seq<Session>)
      requires Joined() && s == Self() && Mode() == Transmitting && (!fastFrag ==> !radio.enAA.p0) && waits == 0
      modifies this`frameBuffer, this`fastFrag, this`ticks, this`waits, this`heard, radio
      ensures Ready() && !fastFrag && waits == 0 && ticks >= old(ticks)
      ensures SettleDone(s, old(fastFrag), drained, true, true, waited, old(radio.log), radio.log, old(heard), heard,
                         ok, false)
      decreases 1, 3
    {
      ghost var before, burst, h := radio.log, fastFrag, heard;
      drained := EndBurst();
      ghost var mid := radio.log;
      Listen();
      ok, waited := AwaitAck(s);
      WaitSettled(s, burst, drained, waited, before, mid, radio.log, h, heard);
    }

    // Ends a burst of fragments, if one is going on, so that the radio may listen again.
    method EndBurst() returns (ghost drained: bool)
      requires Mode() == Transmitting && (!fastFrag ==> !radio.enAA.p0)
      modifies this`fastFrag, radio
      ensures Mode() == Transmitting && !fastFrag && !radio.enAA.p0
      ensures radio.log == old(radio.log) + if old(fastFrag) then [Reported(drained)] else []
    {
      drained := false;
      if fastFrag {
        var ok := radio.TxStandBy();
        drained := ok;
        fastFrag := false;
        radio.SetAutoAck(0, false);
      }
    }

    // Back to receive mode.
    method Listen()
      requires Mode() != Untuned && !radio.enAA.p0
      modifies radio
      ensures Mode() == Listening && radio.log == old(radio.log)
    {
      radio.StartListening();
    }

    /**
     Processes incoming frames, one update after the other, until one reports an
     acknowledgement or the time is up, and tells which.
     */
    method AwaitAck(ghost s: Setup) returns (ok: bool, ghost waited: seq<Session>)
      requires Joined() && s == Self() && Ready() && !fastFrag && waits == 0
      modifies this`frameBuffer, this`fastFrag, this`ticks, this`waits, this`heard, radio
      ensures Ready() && !fastFrag && waits == 0 && ticks >= old(ticks)
      ensures waited != [] && WaitDone(s, waited, old(radio.log), radio.log, old(heard), heard)
      ensures ok == Acknowledged(waited)
      ensures !ok ==> Elapsed(old(ticks), ROUTE_TIMEOUT)
      decreases 1, 2
    {
      ghost var before, h := radio.log, heard;
      waits := 1;
      ok, waited := true, [];
      WaitStart(s, before, h);
      var replyTime := Millis();
      while true
        invariant Ready() && !fastFrag && waits == 1 && ticks >= old(ticks) && ok
        invariant WaitDone(s, waited, before, radio.log, h, heard) && !Acknowledged(waited)
        decreases TicksLeft(replyTime, ROUTE_TIMEOUT, ticksPerMilli, ticks)
      {
        var kind;
        kind, waited := UpdateOnce(waited, before, h, s);
        if kind == NetworkAck.NETWORK_ACK {
          break;
        }
        var late := Late(replyTime, ROUTE_TIMEOUT);
        if late {
          ok := false;
          break;
        }
      }
      waits := 0;
    }

    // One more update of a wait.
    method UpdateOnce(ghost waited: seq<Session>, ghost before: seq<OnAir>, ghost h: Heard, ghost s: Setup)
      returns (kind: byte, ghost more: seq<Session>)
      requires Joined() && s == Self() && Ready() && !fastFrag
      requires WaitDone(s, waited, before, radio.log, h, heard) && !Acknowledged(waited)
      modifies this`frameBuffer, this`fastFrag, this`ticks, this`waits, this`heard, radio
      ensures Ready() && !fastFrag && waits == old(waits) && ticks >= old(ticks)
      ensures more != [] && WaitDone(s, more, before, radio.log, h, heard)
      ensures Acknowledged(more) <==> kind == NetworkAck.NETWORK_ACK
      decreases 1, 1
    {
      ghost var mid, m := radio.log, heard;
      ghost var session;
      kind, session := Update(s);
      more := WaitNext(s, waited, session, before, mid, radio.log, h, m, heard, kind);
    }

    /**
     Processes the frames that have arrived: answers polls, relays what is for
     others, stops at what the caller must see.  Whatever it sends, it never
     waits for an acknowledgement.  It goes on until there is no more frame, one
     stops it, or it takes too long.
     */
    method Update(ghost s: Setup) returns (returnVal: byte, ghost session: Session)
      requires Joined() && s == Self() && Ready() && !fastFrag
      modifies this`frameBuffer, this`fastFrag, this`ticks, this`waits, this`heard, radio
      ensures Ready() && !fastFrag && waits == old(waits) && ticks >= old(ticks)
      ensures SessionDone(s, session, old(radio.log), radio.log, old(heard), heard, returnVal)
      ensures session.ending == TimedOut ==> Elapsed(old(ticks), UPDATE_TIMEOUT)
      decreases 1, 0
    {
      returnVal := 0;
      ghost var takes: seq<Take>, before, h := [], radio.log, heard;
      TakesStart(s, before, h);
      var timeout := Millis();
      while true
        invariant Ready() && !fastFrag && waits == old(waits) && ticks >= old(ticks)
        invariant TakesDone(s, takes, before, radio.log, h, heard, returnVal) && NoneStops(takes)
        decreases TicksLeft(timeout, UPDATE_TIMEOUT, ticksPerMilli, ticks)
      {
        ghost var m := heard;
        var more;
        ghost var late;
        more, late := More(timeout);
        if !more {
          session := SessionRunsOut(s, takes, late, before, radio.log, h, m, heard, returnVal);
          break;
        }
        var stop;
        returnVal, stop, takes := ProcessNext(returnVal, takes, before, h, m, s);
        if stop {
          session := SessionStops(s, takes, before, radio.log, h, heard, returnVal);
          break;
        }
      }
    }

    // Whether there is a frame, and time for it.
    method More(timeout: nat) returns (more: bool, ghost late: bool)
      requires ticksPerMilli >= 1
      modifies this`ticks, this`heard
      ensures ticks >= old(ticks) && heard == old(heard).(polls := old(heard).polls + [more || late])
      ensures more ==> ticks > old(ticks) && TicksLeft(timeout, UPDATE_TIMEOUT, ticksPerMilli, ticks) > 0
      ensures late ==> !more && ticks / ticksPerMilli - timeout > UPDATE_TIMEOUT
    {
      more := Available();
      late := false;
      if more {
        var tooLate := Late(timeout, UPDATE_TIMEOUT);
        late := tooLate;
        more := !tooLate;
      }
    }

    // One more frame of an update.
    method ProcessNext(v: byte, ghost takes: seq<Take>, ghost before: seq<OnAir>, ghost h: Heard, ghost m: Heard,
                       ghost s: Setup)
      returns (returnVal: byte, stop: bool, ghost more: seq<Take>)
      requires Joined() && s == Self() && Ready() && !fastFrag && heard == m.(polls := m.polls + [true])
      requires TakesDone(s, takes, before, radio.log, h, m, v) && NoneStops(takes)
      modifies this`frameBuffer, this`fastFrag, this`ticks, this`waits, this`heard, radio
      ensures Ready() && !fastFrag && waits == old(waits) && ticks >= old(ticks)
      ensures TakesDone(s, more, before, radio.log, h, heard, returnVal)
      ensures if stop then Proper(Session(more, Stopped)) else NoneStops(more)
      decreases 0, 10
    {
      ghost var take, mid;
      mid := radio.log;
      returnVal, stop, take := ProcessFrame(v, m, s);
      TakesNext(s, takes, take, before, mid, radio.log, h, m, heard, v, returnVal, stop);
      more := takes + [take];
    }

    // Whether the radio has a frame.
    method Available() returns (yes: bool)
      modifies this`heard
      ensures heard == old(heard).(polls := old(heard).polls + [yes])
    {
      yes := *;
      heard := heard.(polls := heard.polls + [yes]);
    }

    // The next frame out of the radio.
    method ReadFrame() returns (frameSize: nat)
      modifies this`frameBuffer, this`heard
      ensures heard == old(heard).(inbox := old(heard).inbox + [(frameSize, frameBuffer)])
    {
      frameSize :| frameSize >= 0;
      frameBuffer := *;
      heard := heard.(inbox := heard.inbox + [(frameSize, frameBuffer)]);
    }

    // What the frame queue makes of a frame is left open here; 2 means external data.
    method Enqueue() returns (result: int)
      modifies this`heard
      ensures heard == old(heard).(queued := old(heard).queued + [(frameBuffer, result)])
    {
      result := *;
      heard := heard.(queued := heard.queued + [(frameBuffer, result)]);
    }

    /** One frame out of the radio: nothing, or what is for this node, for a level, or to be relayed. */
    method ProcessFrame(before: byte, ghost h: Heard, ghost s: Setup)
      returns (returnVal: byte, stop: bool, ghost take: Take)
      requires Joined() && s == Self() && Ready() && !fastFrag && heard == h.(polls := h.polls + [true])
      modifies this`frameBuffer, this`fastFrag, this`ticks, this`waits, this`heard, radio
      ensures Ready() && !fastFrag && waits == old(waits) && ticks >= old(ticks) && take.stuck == old(radio.stuck)
      ensures TakeDone(s, take, old(radio.log), radio.log, h, heard, before, returnVal, stop)
      decreases 0, 9
    {
      var frameSize := ReadFrame();
      var toValid := IsValidAddress(frameBuffer.header.to);
      var fromValid := IsValidAddress(frameBuffer.header.from);
      if frameSize < 8 || !toValid || !fromValid {
        returnVal, stop, take := before, false, Take(frameSize, frameBuffer, radio.stuck, false, false, 0, NO_EFFECT);
        NothingMore(radio.log, []);
      } else {
        returnVal, stop, take := ProcessAddressed(before, frameSize, h, s);
      }
    }

    // A frame between valid addresses.
    method ProcessAddressed(before: byte, ghost size: nat, ghost h: Heard, ghost s: Setup)
      returns (returnVal: byte, stop: bool, ghost take: Take)
      requires Joined() && s == Self() && Ready() && !fastFrag && size >= 8
      requires ValidAddress(frameBuffer.header.to) && ValidAddress(frameBuffer.header.from)
      requires heard == Taking(h, size, frameBuffer)
      modifies this`frameBuffer, this`fastFrag, this`ticks, this`waits, this`heard, radio
      ensures Ready() && !fastFrag && waits == old(waits) && ticks >= old(ticks) && take.stuck == old(radio.stuck)
      ensures TakeDone(s, take, old(radio.log), radio.log, h, heard, before, returnVal, stop)
      decreases 0, 8
    {
      if frameBuffer.header.to == node.nodeAddress {
        returnVal, stop, take := ProcessOwn(before, size, h, s);
      } else if frameBuffer.header.to == MULTICAST_ADDRESS {
        returnVal, stop, take := ProcessMulticast(before, size, h, s);
      } else if node.nodeAddress != DEFAULT_ADDRESS {
        take := Relay(before, size, h, s);
        returnVal, stop := 0, false;
      } else {
        take := Take(size, frameBuffer, radio.stuck, false, false, 0, NO_EFFECT);
        take := take.(effect := RelayEffect(s, take));
        returnVal, stop := frameBuffer.header.kind, false;
        NothingMore(radio.log, []);
      }
    }

    // A frame for another node goes on towards it.
    method Relay(ghost before: byte, ghost size: nat, ghost h: Heard, ghost s: Setup) returns (ghost take: Take)
      requires Joined() && s == Self() && Ready() && !fastFrag && size >= 8
      requires ValidAddress(frameBuffer.header.to) && ValidAddress(frameBuffer.header.from)
      requires frameBuffer.header.to != s.me && frameBuffer.header.to != MULTICAST_ADDRESS && s.me != DEFAULT_ADDRESS
      requires heard == Taking(h, size, frameBuffer)
      modifies this`frameBuffer, this`fastFrag, this`ticks, this`waits, this`heard, radio
      ensures Ready() && !fastFrag && waits == old(waits) && ticks >= old(ticks) && take.stuck == old(radio.stuck)
      ensures TakeDone(s, take, old(radio.log), radio.log, h, heard, before, 0, false)
      decreases 0, 4
    {
      ghost var frame, stuck, log, told := frameBuffer, radio.stuck, radio.log, heard;
      var ok;
      ghost var call;
      ok, call := Write(frameBuffer.header.to, TX_ROUTED, s);
      take := Relayed(s, size, frame, stuck, before, h, call, log, radio.log, told, heard, ok, fastFrag);
    }

    // A payload of `update`'s own: sent without waiting, if its destination passes the filter.
    method PassOn(toNode: uint16, sendType: nat, ghost s: Setup) returns (ghost ok: bool)
      requires Joined() && s == Self() && Ready() && !fastFrag && ValidAddress(frameBuffer.header.from)
      requires !MayWait(sendType, frameBuffer.header.kind) && sendType != TX_ROUTED
      modifies this`frameBuffer, this`fastFrag, this`ticks, this`waits, this`heard, radio
      ensures Ready() && !fastFrag && waits == old(waits) && ticks >= old(ticks) && heard == old(heard)
      ensures if ValidAddress(toNode)
              then radio.log == old(radio.log) +
                                  Payload(s.me, toNode, sendType, old(frameBuffer), old(radio.stuck), false, ok)
              else radio.log == old(radio.log)
      decreases 0, 3
    {
      ghost var frame, before, h := frameBuffer, radio.log, heard;
      var result;
      ghost var call;
      result, call := Write(toNode, sendType, s);
      ok := call.hop;
      if ValidAddress(toNode) {
        CallAlone(s, toNode, sendType, frame, call, before, radio.log, h, heard, result, fastFrag);
      }
    }

    /** A frame addressed to this node: an address answer or a request may be passed on, nothing else is sent. */
    method ProcessOwn(before: byte, ghost size: nat, ghost h: Heard, ghost s: Setup)
      returns (returnVal: byte, stop: bool, ghost take: Take)
      requires Joined() && s == Self() && Ready() && !fastFrag && size >= 8 && frameBuffer.header.to == s.me
      requires ValidAddress(frameBuffer.header.to) && ValidAddress(frameBuffer.header.from)
      requires heard == Taking(h, size, frameBuffer)
      modifies this`frameBuffer, this`fastFrag, this`ticks, this`waits, this`heard, radio
      ensures Ready() && !fastFrag && waits == old(waits) && ticks >= old(ticks) && take.stuck == old(radio.stuck)
      ensures TakeDone(s, take, old(radio.log), radio.log, h, heard, before, returnVal, stop)
      decreases 0, 6
    {
      ghost var frame, stuck, log, told := frameBuffer, radio.stuck, radio.log, heard;
      returnVal, stop := frameBuffer.header.kind, false;
      ghost var ok, result := false, 0;
      NothingMore(log, []);
      if frameBuffer.header.kind != NETWORK_PING {
        var passed;
        passed, ok := PassSystemFrame(s);
        if !passed {
          returnVal, stop, result := KeepOwn(s);
        }
      }
      take := OwnTaken(s, size, frame, stuck, before, h, ok, result, log, radio.log, told, heard, returnVal, stop);
    }

    // A frame that stays here is shown to the caller of `update`, or goes to the queue.
    method KeepOwn(ghost s: Setup) returns (returnVal: byte, stop: bool, ghost result: int)
      requires s == Self()
      modifies this`heard
      ensures Came(KeptEffect(s, frameBuffer.header.kind, result), frameBuffer, result, radio.log, radio.log,
                   old(heard), heard, returnVal, stop)
    {
      var kind := frameBuffer.header.kind;
      result := 0;
      NothingMore(radio.log, []);
      if (returnSysMsgs && kind > 127) || kind == NetworkAck.NETWORK_ACK {
        if kind != FIRST_FRAGMENT && kind != MORE_FRAGMENTS && kind != EXTERNAL_DATA_TYPE && kind != LAST_FRAGMENT {
          return kind, true, result;
        }
      }
      var r := Enqueue();
      result := r;
      if r == 2 {
        return EXTERNAL_DATA_TYPE, true, result;
      }
      return kind, false, result;
    }

    // Address answers and address requests are passed on.
    method PassSystemFrame(ghost s: Setup) returns (passed: bool, ghost ok: bool)
      requires Joined() && s == Self() && Ready() && !fastFrag && ValidAddress(frameBuffer.header.from)
      modifies this`frameBuffer, this`fastFrag, this`ticks, this`waits, this`heard, radio
      ensures Ready() && !fastFrag && waits == old(waits) && ticks >= old(ticks)
      ensures passed == PassedOn(s, old(frameBuffer).header.kind)
      ensures !passed ==> radio.log == old(radio.log) && frameBuffer == old(frameBuffer) && heard == old(heard)
      ensures passed ==>
                Came(SystemEffect(s, old(frameBuffer), old(radio.stuck), ok), old(frameBuffer), 0, old(radio.log),
                     radio.log, old(heard), heard, old(frameBuffer).header.kind, false)
      decreases 0, 5
    {
      ok := false;
      if frameBuffer.header.kind == NETWORK_ADDR_RESPONSE && DEFAULT_ADDRESS != node.nodeAddress {
        ok := PassAnswer(s);
        return true, ok;
      }
      if frameBuffer.header.kind == NETWORK_REQ_ADDRESS && node.nodeAddress != 0 {
        ok := PassRequest(s);
        return true, ok;
      }
      passed := false;
    }

    // Down to the node that has no address yet.
    method PassAnswer(ghost s: Setup) returns (ghost ok: bool)
      requires Joined() && s == Self() && Ready() && !fastFrag && ValidAddress(frameBuffer.header.from)
      requires frameBuffer.header.kind == NETWORK_ADDR_RESPONSE
      modifies this`frameBuffer, this`fastFrag, this`ticks, this`waits, this`heard, radio
      ensures Ready() && !fastFrag && waits == old(waits) && ticks >= old(ticks) && heard == old(heard)
      ensures radio.log == old(radio.log) + AnswerPassedOn(s.me, old(frameBuffer), old(radio.stuck), ok)
      decreases 0, 4
    {
      SystemAddresses();
      frameBuffer := frameBuffer.(header := frameBuffer.header.(to := DEFAULT_ADDRESS));
      ok := PassOn(frameBuffer.header.to, USER_TX_TO_PHYSICAL_ADDRESS, s);
    }

    // Up to the master.
    method PassRequest(ghost s: Setup) returns (ghost ok: bool)
      requires Joined() && s == Self() && Ready() && !fastFrag && frameBuffer.header.kind == NETWORK_REQ_ADDRESS
      modifies this`frameBuffer, this`fastFrag, this`ticks, this`waits, this`heard, radio
      ensures Ready() && !fastFrag && waits == old(waits) && ticks >= old(ticks) && heard == old(heard)
      ensures radio.log == old(radio.log) + RequestPassedOn(s.me, old(frameBuffer), old(radio.stuck), ok)
      decreases 0, 4
    {
      SystemAddresses();
      frameBuffer := frameBuffer.(header := frameBuffer.header.(from := node.nodeAddress, to := 0));
      ok := PassOn(frameBuffer.header.to, TX_NORMAL, s);
    }

    /** A frame for a whole level: a poll may be answered, anything else relayed to the next level. */
    method ProcessMulticast(before: byte, ghost size: nat, ghost h: Heard, ghost s: Setup)
      returns (returnVal: byte, stop: bool, ghost take: Take)
      requires Joined() && s == Self() && Ready() && !fastFrag && size >= 8
      requires s.me != frameBuffer.header.to == MULTICAST_ADDRESS && ValidAddress(frameBuffer.header.from)
      requires heard == Taking(h, size, frameBuffer)
      modifies this`frameBuffer, this`fastFrag, this`ticks, this`waits, this`heard, radio
      ensures Ready() && !fastFrag && waits == old(waits) && ticks >= old(ticks) && take.stuck == old(radio.stuck)
      ensures TakeDone(s, take, old(radio.log), radio.log, h, heard, before, returnVal, stop)
      decreases 0, 7
    {
      ghost var frame, stuck, log, told := frameBuffer, radio.stuck, radio.log, heard;
      ghost var ok, result := false, 0;
      if frameBuffer.header.kind == NETWORK_POLL {
        ok := AnswerPoll(s);
        returnVal, stop := 0, false;
      } else {
        returnVal, stop, ok, result := KeepAndRelay(s);
      }
      take := LevelTaken(s, size, frame, stuck, before, h, ok, result, log, radio.log, told, heard, returnVal, stop);
    }

    method AnswerPoll(ghost s: Setup) returns (ghost ok: bool)
      requires Joined() && s == Self() && Ready() && !fastFrag && ValidAddress(frameBuffer.header.from)
      modifies this`frameBuffer, this`fastFrag, this`ticks, this`waits, this`heard, radio
      ensures Ready() && !fastFrag && waits == old(waits) && ticks >= old(ticks)
      ensures Came(PollEffect(s, old(frameBuffer), old(radio.stuck), ok), old(frameBuffer), 0, old(radio.log),
                   radio.log, old(heard), heard, 0, false)
      decreases 0, 4
    {
      ok := false;
      NothingMore(radio.log, []);
      if !noPoll && node.nodeAddress != DEFAULT_ADDRESS {
        var to := frameBuffer.header.from;
        frameBuffer := frameBuffer.(header := frameBuffer.header.(to := to, from := node.nodeAddress));
        ok := PassOn(to, USER_TX_TO_PHYSICAL_ADDRESS, s);
      }
    }

    // A copy for this node, one for the next level.
    method KeepAndRelay(ghost s: Setup) returns (returnVal: byte, stop: bool, ghost ok: bool, ghost result: int)
      requires Joined() && s == Self() && Ready() && !fastFrag && ValidAddress(frameBuffer.header.from)
      modifies this`frameBuffer, this`fastFrag, this`ticks, this`waits, this`heard, radio
      ensures Ready() && !fastFrag && waits == old(waits) && ticks >= old(ticks)
      ensures var frame := old(frameBuffer);
              Came(Enqueued(PassedDown(s, frame, old(radio.stuck), ok), frame.header.kind, result), frame, result,
                   old(radio.log), radio.log, old(heard), heard, returnVal, stop)
      decreases 0, 6
    {
      var kind := frameBuffer.header.kind;
      var r := Enqueue();
      result := r;
      ok := RelayMulticast(s);
      returnVal, stop := if r == 2 then EXTERNAL_DATA_TYPE else kind, r == 2;
    }

    method RelayMulticast(ghost s: Setup) returns (ghost ok: bool)
      requires Joined() && s == Self() && Ready() && !fastFrag && ValidAddress(frameBuffer.header.from)
      modifies this`frameBuffer, this`fastFrag, this`ticks, this`waits, this`heard, radio
      ensures Ready() && !fastFrag && waits == old(waits) && ticks >= old(ticks) && heard == old(heard)
      ensures radio.log == old(radio.log) + PassedDown(s, old(frameBuffer), old(radio.stuck), ok)
      decreases 0, 5
    {
      ok := false;
      NothingMore(radio.log, []);
      if multicastRelay {
        var next := NextAddress(s);
        ok := PassOn(next, USER_TX_MULTICAST, s);
      }
    }

    method NextAddress(ghost s: Setup) returns (next: uint16)
      requires Joined() && s == Self()
      ensures next == Shl3(LevelToAddress(s.level)) && (ValidAddress(next) <==> s.level <= 2)
    {
      next := Shl3(LevelToAddress(node.multicastLevel));
      RelaySendable(node.multicastLevel);
    }

    // Fills in the source and picks how to send: along the tree, or directly to a given node.
    method SendFrame(header: Header, payload: seq<byte>, writeDirect: uint16, ghost s: Setup)
      returns (ok: bool, ghost call: Call)
      requires Joined() && s == Self() && Ready() && waits == 0
      requires var receiver, sendType := Receiver(header.to, writeDirect), SendType(header.to, writeDirect);
               ValidAddress(receiver) && fastFrag && header.kind != FIRST_FRAGMENT ==>
                 radio.Aimed(Target(s.me, receiver, sendType))
      modifies this`frameBuffer, this`fastFrag, this`ticks, this`waits, this`heard, radio
      ensures Ready() && waits == 0
      ensures var receiver, sendType := Receiver(header.to, writeDirect), SendType(header.to, writeDirect);
              Called(s, receiver, sendType, Frame(header.(from := s.me), payload), call, old(radio.stuck),
                     old(fastFrag), old(radio.log), old(heard), ok)
    {
      frameBuffer := Frame(header.(from := node.nodeAddress), payload);
      if writeDirect != AUTO_ROUTING {
        var sendType := DirectType(header, writeDirect);
        ok, call := Write(writeDirect, sendType, s);
      } else {
        ok, call := Write(header.to, TX_NORMAL, s);
      }
    }

    method DirectType(header: Header, writeDirect: uint16) returns (sendType: nat)
      requires writeDirect != AUTO_ROUTING
      ensures sendType == SendType(header.to, writeDirect)
    {
      sendType := USER_TX_TO_LOGICAL_ADDRESS;
      if header.to == MULTICAST_ADDRESS {
        sendType := USER_TX_MULTICAST;
      }
      if header.to == writeDirect {
        sendType := USER_TX_TO_PHYSICAL_ADDRESS;
      }
    }

    /**
     The public `write`.  Whatever the length, the destination and the fate of
     every transmission, the radio is afterwards as it was before: listening on
     all six pipes at the node's own addresses, silent on the shared pipe 0.
     A short message is one call of `write` with one frame, a long one as many
     as its fragments take, and what it returns is what came of them.
     */
    method WriteMessage(header: Header, data: seq<byte>, writeDirect: uint16, ghost s: Setup)
      returns (ok: bool, ghost call: Call, ghost turns: seq<Turn>, ghost drained: bool)
      requires Joined() && s == Self() && Mode() == Listening && !fastFrag && waits == 0 && |data| < 0x1_0000
      modifies this`frameBuffer, this`fastFrag, this`ticks, this`waits, this`heard, radio
      ensures Mode() == Listening && !fastFrag && waits == 0
      ensures |data| > MAX_PAYLOAD_SIZE ==> !ok && radio.log == old(radio.log) && heard == old(heard)
      ensures var receiver, sendType := Receiver(header.to, writeDirect), SendType(header.to, writeDirect);
              |data| <= MAX_FRAGMENT ==>
                if ValidAddress(receiver)
                then && CallDone(s, receiver, sendType, Frame(header.(from := s.me), data), call, old(radio.log),
                                 radio.log, old(heard), heard, ok, false)
                     && call.stuck == old(radio.stuck) && !call.burst
                else !ok && radio.log == old(radio.log) && heard == old(heard)
      ensures var receiver, sendType := Receiver(header.to, writeDirect), SendType(header.to, writeDirect);
              var burst := header.to != MULTICAST_ADDRESS;
              MAX_FRAGMENT < |data| <= MAX_PAYLOAD_SIZE ==>
                if ValidAddress(receiver)
                then LongDone(s, receiver, sendType, Message(s.me, header.to, header.id, header.kind, data), burst,
                              turns, drained, old(radio.log), radio.log, old(heard), heard, ok)
                else && !ok && radio.log == old(radio.log) + (if burst then [Reported(drained)] else [])
                     && heard == old(heard)
    {
      call, turns, drained := Call(false, false, false, false, false, []), [], false;
      if |data| <= MAX_FRAGMENT {
        ok, call := SendFrame(header, data, writeDirect, s);
        return;
      }
      if |data| > MAX_PAYLOAD_SIZE {
        return false, call, turns, drained;
      }
      ok, turns, drained := SendLong(header, data, writeDirect, s);
    }

    // A burst, unless it is for a whole level.
    method SendLong(header: Header, data: seq<byte>, writeDirect: uint16, ghost s: Setup)
      returns (ok: bool, ghost turns: seq<Turn>, ghost drained: bool)
      requires Joined() && s == Self() && Mode() == Listening && !fastFrag && waits == 0
      requires MAX_FRAGMENT < |data| <= MAX_PAYLOAD_SIZE
      modifies this`frameBuffer, this`fastFrag, this`ticks, this`waits, this`heard, radio
      ensures Mode() == Listening && !fastFrag && waits == 0
      ensures var receiver, sendType := Receiver(header.to, writeDirect), SendType(header.to, writeDirect);
              var burst := header.to != MULTICAST_ADDRESS;
              if ValidAddress(receiver)
              then LongDone(s, receiver, sendType, Message(s.me, header.to, header.id, header.kind, data), burst,
                            turns, drained, old(radio.log), radio.log, old(heard), heard, ok)
              else && !ok && radio.log == old(radio.log) + (if burst then [Reported(drained)] else [])
                   && heard == old(heard)
    {
      if header.to != MULTICAST_ADDRESS {
        BeginBurst();
      }
      var m := Message(node.nodeAddress, header.to, header.id, header.kind, data);
      var fragment := header.(from := m.from); // as every call of `_write` leaves it
      var allSent;
      ghost var k, left;
      ok, allSent, turns, k, left := SendAll(m, fragment, writeDirect, s);
      drained := false;
      if fastFrag {
        ok := FinishBurst();
        drained := ok;
      }
      ok := ok && allSent;
    }

    method FinishBurst() returns (ok: bool)
      requires Mode() == Transmitting && fastFrag
      modifies this`fastFrag, radio
      ensures Mode() == Listening && !fastFrag && radio.log == old(radio.log) + [Reported(ok)]
    {
      ok := radio.TxStandBy();
      radio.StartListening();
      radio.SetAutoAck(0, false);
      fastFrag := false;
    }

    method BeginBurst()
      requires Mode() == Listening
      modifies this`fastFrag, radio
      ensures Mode() == Transmitting && fastFrag && radio.log == old(radio.log)
    {
      fastFrag := true;
      radio.StopListening();
    }

    // Where the sending loop is; to an address that does not pass the filter nothing is sent.
    ghost predicate SoFar(s: Setup, writeDirect: uint16, m: Message, burst: bool, turns: seq<Turn>, before: seq<OnAir>,
                          h: Heard, k: int, left: int)
      reads this`fastFrag, this`heard, radio
    {
      var receiver, sendType := Receiver(m.to, writeDirect), SendType(m.to, writeDirect);
      if ValidAddress(receiver)
      then && TurnsDone(s, receiver, sendType, m, burst, turns, before, radio.log, h, heard, fastFrag,
                        Place(k, left))
           && (turns != [] && fastFrag ==> radio.Aimed(Target(s.me, receiver, sendType)))
      else k == 0 && radio.log == before && heard == h && fastFrag == burst
    }

    // One turn of the loop below.
    method SendOne(m: Message, last: Header, fragmentId: nat, msgCount: nat, writeDirect: uint16, ghost left: nat,
                   ghost burst: bool, ghost turns: seq<Turn>, ghost before: seq<OnAir>, ghost h: Heard, ghost s: Setup)
      returns (header: Header, ok: bool, ghost more: seq<Turn>, ghost k: nat, ghost left': nat)
      requires Joined() && s == Self() && Ready() && waits == 0 && Fragmented(m) && m.from == s.me && left >= 1
      requires last.from == m.from && last.to == m.to && last.id == m.id
      requires 1 <= fragmentId <= 64 && fragmentId + msgCount == FragmentCount(|m.data|)
      requires SoFar(s, writeDirect, m, burst, turns, before, h, msgCount, left)
      modifies this`frameBuffer, this`fastFrag, this`ticks, this`waits, this`heard, radio
      ensures Ready() && waits == 0 && header.from == m.from && header.to == m.to && header.id == m.id
      ensures ok ==> ValidAddress(Receiver(m.to, writeDirect))
      ensures k == (if ok then msgCount + 1 else msgCount) && left' == if ok then MAX_TRIES else left - 1
      ensures SoFar(s, writeDirect, m, burst, more, before, h, k, left')
    {
      ghost var mid, told, on := radio.log, heard, fastFrag;
      more := turns;
      var frame;
      ghost var call;
      header, frame := NextFragment(m, last, fragmentId, msgCount);
      ok, call := SendFrame(frame.header, frame.payload, writeDirect, s);
      k, left' := if ok then msgCount + 1 else msgCount, if ok then MAX_TRIES else left - 1;
      if ValidAddress(Receiver(m.to, writeDirect)) {
        more := TurnsNext(s, Receiver(m.to, writeDirect), SendType(m.to, writeDirect), m, burst, turns, call, before,
                          mid, radio.log, h, told, heard, on, fastFrag, msgCount, left, ok);
      }
    }

    method CountFragments(m: Message) returns (n: nat)
      requires Fragmented(m)
      ensures n == FragmentCount(|m.data|) && 2 <= n <= 64
    {
      n := (if |m.data| % MAX_FRAGMENT != 0 then 1 else 0) + |m.data| / MAX_FRAGMENT;
    }

    // The fragments in turn, each tried up to three times.
    method SendAll(m: Message, header: Header, writeDirect: uint16, ghost s: Setup)
      returns (ok: bool, allSent: bool, ghost turns: seq<Turn>, ghost k: nat, ghost left: nat)
      requires Joined() && s == Self() && Ready() && waits == 0 && Fragmented(m) && m.from == s.me
      requires header.from == m.from && header.to == m.to && header.id == m.id
      modifies this`frameBuffer, this`fastFrag, this`ticks, this`waits, this`heard, radio
      ensures Ready() && waits == 0 && (allSent ==> ok && ValidAddress(Receiver(m.to, writeDirect)))
      ensures SoFar(s, writeDirect, m, old(fastFrag), turns, old(radio.log), old(heard), k, left)
      ensures (allSent <==> k == FragmentCount(|m.data|)) && (allSent || left == 0)
    {
      var fragmentId := CountFragments(m);
      var msgCount, retries, fragment := 0, 0, header;
      ghost var before, h, burst, n := radio.log, heard, fastFrag, fragmentId;
      ok, turns, k, left := false, [], 0, MAX_TRIES;
      TurnsStart(s, Receiver(m.to, writeDirect), SendType(m.to, writeDirect), m, burst, before, h);
      while fragmentId > 0
        invariant 0 <= fragmentId <= 64 && k == msgCount == n - fragmentId && left == MAX_TRIES - retries >= 1
        invariant Ready() && waits == 0 && fragment.from == m.from && fragment.to == m.to && fragment.id == m.id
        invariant SoFar(s, writeDirect, m, burst, turns, before, h, k, left)
        invariant fragmentId == 0 ==> ok && ValidAddress(Receiver(m.to, writeDirect))
        decreases fragmentId, MAX_TRIES - retries
      {
        fragment, ok, turns, k, left :=
          SendOne(m, fragment, fragmentId, msgCount, writeDirect, left, burst, turns, before, h, s);
        if ok {
          retries := 0;
          fragmentId := fragmentId - 1;
          msgCount := msgCount + 1;
        } else {
          retries := retries + 1;
          if retries >= MAX_TRIES {
            break;
          }
        }
      }
      allSent := fragmentId == 0;
    }

    /** A message for a level goes out, to that level, exactly for the levels 0 to 3; a level over 4 means our own. */
    method Multicast(header: Header, data: seq<byte>, level: byte, ghost s: Setup)
      returns (ok: bool, ghost call: Call, ghost turns: seq<Turn>, ghost drained: bool)
      requires Joined() && s == Self() && Mode() == Listening && !fastFrag && waits == 0 && |data| < 0x1_0000
      modifies this`frameBuffer, this`fastFrag, this`ticks, this`waits, this`heard, radio
      ensures Mode() == Listening && !fastFrag && waits == 0
      ensures var target := if level > 4 then s.level else level;
              && target <= 4
              && (target == 4 || |data| > MAX_PAYLOAD_SIZE ==>
                    !ok && radio.log == old(radio.log) && heard == old(heard))
              && (target <= 3 && |data| <= MAX_FRAGMENT ==>
                    radio.log == old(radio.log) +
                                   Payload(s.me, LevelToAddress(target), USER_TX_MULTICAST,
                                           Frame(header.(from := s.me, to := MULTICAST_ADDRESS), data),
                                           old(radio.stuck), false, ok))
              && (target <= 3 && MAX_FRAGMENT < |data| <= MAX_PAYLOAD_SIZE ==>
                    LongDone(s, LevelToAddress(target), SendType(MULTICAST_ADDRESS, LevelToAddress(target)),
                             Message(s.me, MULTICAST_ADDRESS, header.id, header.kind, data), false, turns, drained,
                             old(radio.log), radio.log, old(heard), heard, ok))
    {
      var target := if level > 4 then node.multicastLevel else level;
      ghost var before, h, stuck := radio.log, heard, radio.stuck;
      LevelSendable(target);
      LevelNotAuto(target);
      var full := header.(to := MULTICAST_ADDRESS, from := node.nodeAddress);
      ok, call, turns, drained := WriteMessage(full, data, LevelToAddress(target), s);
      if target <= 3 && |data| <= MAX_FRAGMENT {
        LevelCall(s, target, Frame(full, data), call, before, radio.log, h, heard, ok);
      }
    }
  }
}
