/**
 The network acknowledgement.  A frame travels hop by hop; the relay next to
 the destination, once the destination's radio has taken the frame, turns the
 header round and sends a NETWORK_ACK back to the source.  Radio transmissions
 may be lost, and may succeed without the sender learning it.
 */
module NetworkAck {
  import opened Basics
  import opened OctalTree
  import opened NodeRouting

  const NETWORK_ACK := 193

  predicate IsAckType(kind: nat) {
    64 < kind < 192
  }

  datatype Header = Header(from: Digits, to: Digits, kind: nat, id: nat)

  // A frame the radio of node `at` has accepted and `update` has not read yet.
  datatype Packet = Packet(at: Digits, header: Header)

  function Hop(me: Digits, to: Digits): Digits {
    if me == to then to else NextHop(me, to)
  }

  function Sent(t: Attempt, node: Digits, header: Header): seq<Packet> {
    if t == Lost then [] else [Packet(node, header)]
  }

  function AckFor(header: Header): Header {
    header.(kind := NETWORK_ACK, to := header.from)
  }

  // What one call of `write` puts on the air, whether it answered with an ACK, and whether it then waits for one.
  datatype Written = Written(ok: bool, frames: seq<Packet>, acked: bool, waits: bool)

  function Write(me: Digits, header: Header, sendType: nat, first: Attempt, second: Attempt): Written {
    var to := header.to;
    var next := if sendType > TX_ROUTED then to else Hop(me, to);
    var ok := first == Confirmed;
    var acked := sendType == TX_ROUTED && ok && next == to && IsAckType(header.kind);
    var back := if acked then Sent(second, Hop(me, header.from), AckFor(header)) else [];
    var waits :=
      ok && next != to && (sendType == TX_NORMAL || sendType == USER_TX_TO_LOGICAL_ADDRESS) && IsAckType(header.kind);
    Written(ok, Sent(first, next, header) + back, acked, waits)
  }

  // Everything there is to know about one message sent so far.
  datatype Message =
    Message(header: Header, waits: bool, accepted: nat, ackedBy: seq<Digits>, delivered: nat, acksReceived: nat)

  datatype State = State(inFlight: seq<Packet>, messages: seq<Message>)

  datatype Action =
    | Send(from: Digits, to: Digits, kind: nat, first: Attempt)
    | Receive(index: nat, first: Attempt, second: Attempt)

  ghost predicate Enabled(s: State, a: Action) {
    match a
    case Send(from, to, kind, _) => from != to && kind != NETWORK_ACK
    case Receive(i, _, _) => i < |s.inFlight| && s.inFlight[i].header.id < |s.messages|
  }

  function Without<T>(s: seq<T>, i: nat): seq<T>
    requires i < |s|
  {
    s[..i] + s[i + 1..]
  }

  function Count(b: bool): nat {
    if b then 1 else 0
  }

  ghost function Next(s: State, a: Action): State
    requires Enabled(s, a)
  {
    match a
    case Send(from, to, kind, first) =>
      var header := Header(from, to, kind, |s.messages|);
      var w := Write(from, header, TX_NORMAL, first, Lost);
      var m := Message(header, w.waits, Count(first != Lost && Hop(from, to) == to), [], 0, 0);
      State(s.inFlight + w.frames, s.messages + [m])
    case Receive(i, first, second) =>
      var p := s.inFlight[i];
      var m := s.messages[p.header.id];
      var rest := Without(s.inFlight, i);
      if p.header.to == p.at then
        var m' :=
          if p.header.kind == NETWORK_ACK then m.(acksReceived := m.acksReceived + 1)
          else m.(delivered := m.delivered + 1);
        State(rest, s.messages[p.header.id := m'])
      else
        var w := Write(p.at, p.header, TX_ROUTED, first, second);
        var arrives := p.header.kind != NETWORK_ACK && first != Lost && Hop(p.at, p.header.to) == p.header.to;
        var m' := m.(accepted := m.accepted + Count(arrives), ackedBy := m.ackedBy + if w.acked then [p.at] else []);
        State(rest + w.frames, s.messages[p.header.id := m'])
  }

  // A message has been acknowledged at most once, by the relay next to the destination, after the destination took it.
  ghost predicate MessageOk(m: Message, id: nat) {
    var from, to := m.header.from, m.header.to;
    && from != to && m.header.id == id && m.header.kind != NETWORK_ACK
    && (m.waits ==> IsAckType(m.header.kind) && Dist(from, to) > 1)
    && m.accepted <= 1 && m.delivered <= m.accepted
    && |m.ackedBy| <= m.accepted && m.acksReceived <= |m.ackedBy|
    && (m.ackedBy != [] ==> IsAckType(m.header.kind) && Dist(from, to) > 1 && m.ackedBy == [NextHop(to, from)])
  }

  // A packet carries its message's header, or the ACK for it, and is somewhere along the way it should go.
  ghost predicate Fits(p: Packet, m: Message) {
    && p.header == (if p.header.kind == NETWORK_ACK then AckFor(m.header) else m.header)
    && (p.header.kind == NETWORK_ACK ==> m.ackedBy != [] && m.acksReceived == 0)
    && (p.header.kind != NETWORK_ACK ==>
          && m.delivered == 0
          && (m.accepted == 1 <==> p.at == m.header.to)
          && p.at != m.header.from && Between(m.header.from, p.at, m.header.to))
  }

  ghost predicate PacketOk(p: Packet, messages: seq<Message>) {
    p.header.id < |messages| && Fits(p, messages[p.header.id])
  }

  ghost predicate SameFlow(p: Packet, q: Packet) {
    p.header.id == q.header.id && (p.header.kind == NETWORK_ACK <==> q.header.kind == NETWORK_ACK)
  }

  ghost predicate Inv(s: State) {
    && (forall id :: 0 <= id < |s.messages| ==> MessageOk(s.messages[id], id))
    && (forall i :: 0 <= i < |s.inFlight| ==> PacketOk(s.inFlight[i], s.messages))
    && (forall i, j :: 0 <= i < j < |s.inFlight| ==> !SameFlow(s.inFlight[i], s.inFlight[j]))
  }

  lemma WithoutAt<T>(s: seq<T>, i: nat)
    requires i < |s|
    ensures |Without(s, i)| == |s| - 1
    ensures forall j :: 0 <= j < |Without(s, i)| ==> Without(s, i)[j] == s[if j < i then j else j + 1]
  {
  }

  // Packets other than the one just taken from the air.
  lemma OthersStay(s: State, i: nat, messages: seq<Message>)
    requires Inv(s) && i < |s.inFlight|
    requires forall j :: 0 <= j < |s.inFlight| && j != i ==> PacketOk(s.inFlight[j], messages)
    ensures var rest := Without(s.inFlight, i);
            && (forall j :: 0 <= j < |rest| ==> PacketOk(rest[j], messages) && !SameFlow(rest[j], s.inFlight[i]))
            && (forall j, k :: 0 <= j < k < |rest| ==> !SameFlow(rest[j], rest[k]))
  {
    WithoutAt(s.inFlight, i);
  }

  lemma SendKeepsInv(s: State, a: Action)
    requires Inv(s) && Enabled(s, a) && a.Send?
    ensures Inv(Next(s, a))
  {
    FirstHop(a.from, a.to);
    var s' := Next(s, a);
    forall i | 0 <= i < |s'.inFlight|
      ensures PacketOk(s'.inFlight[i], s'.messages)
    {
      if i < |s.inFlight| { assert PacketOk(s.inFlight[i], s.messages); }
    }
  }

  lemma DeliverKeepsInv(s: State, a: Action)
    requires Inv(s) && Enabled(s, a) && a.Receive?
    requires s.inFlight[a.index].header.to == s.inFlight[a.index].at
    ensures Inv(Next(s, a))
  {
    var p := s.inFlight[a.index];
    var s' := Next(s, a);
    assert PacketOk(p, s.messages);
    forall j | 0 <= j < |s.inFlight| && j != a.index
      ensures PacketOk(s.inFlight[j], s'.messages)
    {
      assert PacketOk(s.inFlight[j], s.messages);
      assert !SameFlow(s.inFlight[j], p);
    }
    OthersStay(s, a.index, s'.messages);
  }

  lemma RelayAckKeepsInv(s: State, a: Action)
    requires Inv(s) && Enabled(s, a) && a.Receive?
    requires s.inFlight[a.index].header.to != s.inFlight[a.index].at
    requires s.inFlight[a.index].header.kind == NETWORK_ACK
    ensures Inv(Next(s, a))
  {
    var p := s.inFlight[a.index];
    var s' := Next(s, a);
    assert PacketOk(p, s.messages);
    assert s.messages[p.header.id].ackedBy + [] == s.messages[p.header.id].ackedBy;
    assert s'.messages == s.messages;
    OthersStay(s, a.index, s.messages);
  }

  // A message after one relay has forwarded it.
  ghost function Relayed(m: Message, p: Packet, first: Attempt, second: Attempt): Message {
    var w := Write(p.at, p.header, TX_ROUTED, first, second);
    m.(accepted := m.accepted + Count(first != Lost && Hop(p.at, p.header.to) == p.header.to),
       ackedBy := m.ackedBy + if w.acked then [p.at] else [])
  }

  lemma RelayOutcome(m: Message, p: Packet, first: Attempt, second: Attempt)
    requires Fits(p, m) && p.header.kind != NETWORK_ACK && p.at != p.header.to && MessageOk(m, p.header.id)
    ensures var m' := Relayed(m, p, first, second);
            var frames := Write(p.at, p.header, TX_ROUTED, first, second).frames;
            && MessageOk(m', p.header.id) && |frames| <= 2
            && (|frames| >= 1 ==> frames[0].header.id == p.header.id && Fits(frames[0], m'))
            && (|frames| == 2 ==>
                  frames[1].header.id == p.header.id && Fits(frames[1], m') && !SameFlow(frames[0], frames[1]))
  {
    RelayStep(p.header.from, p.at, p.header.to);
    assert m.accepted == 0 && m.ackedBy == [];
    assert [] + [p.at] == [p.at];
  }

  // Putting back the other packets together with the new frames.
  lemma InvOfParts(rest: seq<Packet>, frames: seq<Packet>, messages: seq<Message>, id: nat)
    requires forall i :: 0 <= i < |messages| ==> MessageOk(messages[i], i)
    requires forall j :: 0 <= j < |rest| ==> PacketOk(rest[j], messages) && rest[j].header.id != id
    requires forall j, k :: 0 <= j < k < |rest| ==> !SameFlow(rest[j], rest[k])
    requires |frames| <= 2 && id < |messages|
    requires |frames| >= 1 ==> frames[0].header.id == id && Fits(frames[0], messages[id])
    requires |frames| == 2 ==>
               frames[1].header.id == id && Fits(frames[1], messages[id]) && !SameFlow(frames[0], frames[1])
    ensures Inv(State(rest + frames, messages))
  {
    var all := rest + frames;
    forall i | 0 <= i < |all|
      ensures PacketOk(all[i], messages) && (i < |rest| <==> all[i].header.id != id)
    {
      assert all[i] == if i < |rest| then rest[i] else frames[i - |rest|];
    }
  }

  lemma RelayDataKeepsInv(s: State, a: Action)
    requires Inv(s) && Enabled(s, a) && a.Receive?
    requires s.inFlight[a.index].header.to != s.inFlight[a.index].at
    requires s.inFlight[a.index].header.kind != NETWORK_ACK
    ensures Inv(Next(s, a))
  {
    var p := s.inFlight[a.index];
    var id, m := p.header.id, s.messages[p.header.id];
    assert PacketOk(p, s.messages);
    RelayOutcome(m, p, a.first, a.second);
    var messages := s.messages[id := Relayed(m, p, a.first, a.second)];
    OthersElsewhere(s, a.index, messages);
    var rest := Without(s.inFlight, a.index);
    var frames := Write(p.at, p.header, TX_ROUTED, a.first, a.second).frames;
    InvOfParts(rest, frames, messages, id);
    RelayIs(s, a);
  }

  lemma RelayIs(s: State, a: Action)
    requires Enabled(s, a) && a.Receive?
    requires s.inFlight[a.index].header.to != s.inFlight[a.index].at
    requires s.inFlight[a.index].header.kind != NETWORK_ACK
    ensures var p := s.inFlight[a.index];
            Next(s, a) == State(Without(s.inFlight, a.index) +
                                  Write(p.at, p.header, TX_ROUTED, a.first, a.second).frames,
                                s.messages[p.header.id := Relayed(s.messages[p.header.id], p, a.first, a.second)])
  {
  }

  // While a frame is short of its destination nothing else of its message is in flight.
  lemma OthersElsewhere(s: State, i: nat, messages: seq<Message>)
    requires Inv(s) && i < |s.inFlight|
    requires var p := s.inFlight[i]; p.header.kind != NETWORK_ACK && p.at != p.header.to
    requires |messages| == |s.messages|
    requires forall id :: 0 <= id < |messages| && id != s.inFlight[i].header.id ==> messages[id] == s.messages[id]
    ensures var rest := Without(s.inFlight, i);
            && (forall j :: 0 <= j < |rest| ==>
                  PacketOk(rest[j], messages) && rest[j].header.id != s.inFlight[i].header.id)
            && (forall j, k :: 0 <= j < k < |rest| ==> !SameFlow(rest[j], rest[k]))
  {
    var p := s.inFlight[i];
    assert PacketOk(p, s.messages) && MessageOk(s.messages[p.header.id], p.header.id);
    forall j | 0 <= j < |s.inFlight| && j != i
      ensures PacketOk(s.inFlight[j], messages) && s.inFlight[j].header.id != p.header.id
    {
      assert PacketOk(s.inFlight[j], s.messages);
      assert !SameFlow(s.inFlight[if j < i then j else i], s.inFlight[if j < i then i else j]);
    }
    OthersStay(s, i, messages);
    WithoutAt(s.inFlight, i);
  }

  /** Every step of the protocol keeps the invariant. */
  lemma NextKeepsInv(s: State, a: Action)
    requires Inv(s) && Enabled(s, a)
    ensures Inv(Next(s, a))
  {
    match a
    case Send(_, _, _, _) => SendKeepsInv(s, a);
    case Receive(i, _, _) =>
      if s.inFlight[i].header.to == s.inFlight[i].at {
        DeliverKeepsInv(s, a);
      } else if s.inFlight[i].header.kind == NETWORK_ACK {
        RelayAckKeepsInv(s, a);
      } else {
        RelayDataKeepsInv(s, a);
      }
  }

  ghost predicate ValidRun(s: State, run: seq<Action>)
    decreases |run|
  {
    run == [] || (Enabled(s, run[0]) && ValidRun(Next(s, run[0]), run[1..]))
  }

  ghost function After(s: State, run: seq<Action>): State
    requires ValidRun(s, run)
    decreases |run|
  {
    if run == [] then s else After(Next(s, run[0]), run[1..])
  }

  lemma {:induction false} RunKeepsInv(s: State, run: seq<Action>)
    requires Inv(s) && ValidRun(s, run)
    ensures Inv(After(s, run))
    decreases |run|
  {
    if run != [] {
      NextKeepsInv(s, run[0]);
      RunKeepsInv(Next(s, run[0]), run[1..]);
    }
  }

  /**
   Whatever the radios lose, over every run of any number of messages: a
   message is acknowledged at most once, only by the relay next to its
   destination and only after the destination took it, only if its type asks
   for it and the path has more than one hop; the source hears at most that
   one acknowledgement; and no acknowledgement is itself acknowledged.
   */
  lemma AckSafety(run: seq<Action>, id: nat)
    requires ValidRun(State([], []), run)
    requires id < |After(State([], []), run).messages|
    ensures var m := After(State([], []), run).messages[id];
            var from, to := m.header.from, m.header.to;
            && from != to && m.delivered <= m.accepted <= 1
            && m.acksReceived <= |m.ackedBy| <= m.accepted
            && (m.ackedBy != [] ==> IsAckType(m.header.kind) && Dist(from, to) > 1)
            && (m.ackedBy != [] ==> m.ackedBy == [NextHop(to, from)])
            && NextHop(to, from) != to && NextHop(NextHop(to, from), to) == to
  {
    RunKeepsInv(State([], []), run);
    var m := After(State([], []), run).messages[id];
    assert MessageOk(m, id);
    NextHopCloser(m.header.to, m.header.from);
    RelayIsAdjacent(NextHop(m.header.to, m.header.from), m.header.to);
  }

  lemma RelayIsAdjacent(relay: Digits, to: Digits)
    requires Neighbours(relay, to)
    ensures relay != to && NextHop(relay, to) == to
  {
    if relay != [] && Parent(relay) == to {
      assert !(relay <= to);
    } else {
      assert to == to[..|to|];
    }
  }

  /** The source waits for an acknowledgement exactly when its first hop is confirmed and is not the last one. */
  lemma SourceWaits(from: Digits, header: Header, first: Attempt)
    requires header.from == from && from != header.to
    ensures Write(from, header, TX_NORMAL, first, Lost).waits <==>
            first == Confirmed && IsAckType(header.kind) && Dist(from, header.to) > 1
    ensures !Write(from, header, TX_NORMAL, first, Lost).acked
  {
    FirstHop(from, header.to);
  }

  /** Of all relays on the way only the neighbour of the destination answers; nobody answers an acknowledgement. */
  lemma OnlyLastRelayAcks(header: Header, relay: Digits, first: Attempt, second: Attempt)
    requires relay != header.from && relay != header.to && Between(header.from, relay, header.to)
    ensures header.from != header.to
    ensures Write(relay, header, TX_ROUTED, first, second).acked <==>
            relay == NextHop(header.to, header.from) && first == Confirmed && IsAckType(header.kind)
    ensures forall me: Digits, sendType: nat :: !Write(me, AckFor(header), sendType, first, second).acked
    ensures forall me: Digits, sendType: nat :: !Write(me, AckFor(header), sendType, first, second).waits
  {
    RelayStep(header.from, relay, header.to);
    DistZero(header.from, header.to);
  }

  // Processing the oldest frame in flight, n times over, on a channel that confirms every transmission.
  ghost function Drain(s: State, n: nat): State
    decreases n
  {
    if n == 0 || !Enabled(s, OLDEST) then s else Drain(Next(s, OLDEST), n - 1)
  }

  const OLDEST := Receive(0, Confirmed, Confirmed)

  lemma DrainVia(s: State, t: State, n: nat)
    requires n > 0 && Enabled(s, OLDEST) && Next(s, OLDEST) == t
    ensures Drain(s, n) == Drain(t, n - 1)
  {
  }

  // One message alone in the network: its frame at node v of the way.
  ghost function DataAt(h: Header, waits: bool, v: Digits): State {
    State([Packet(v, h)], [Message(h, waits, Count(v == h.to), [], 0, 0)])
  }

  // The message delivered, and its acknowledgement on the way back.
  ghost function AckAt(h: Header, waits: bool, v: Digits, relay: Digits): State {
    State([Packet(v, AckFor(h))], [Message(h, waits, 1, [relay], 1, 0)])
  }

  ghost function Done(h: Header, waits: bool, relays: seq<Digits>): State {
    State([], [Message(h, waits, 1, relays, 1, |relays|)])
  }

  lemma DataStep(h: Header, waits: bool, v: Digits, next: Digits)
    requires h.id == 0 && h.kind != NETWORK_ACK && v != h.to && next == NextHop(v, h.to)
    requires IsAckType(h.kind) ==> next != h.to
    ensures Enabled(DataAt(h, waits, v), OLDEST) && Next(DataAt(h, waits, v), OLDEST) == DataAt(h, waits, next)
  {
    var s, t := DataAt(h, waits, v), DataAt(h, waits, next);
    assert Next(s, OLDEST).inFlight == t.inFlight;
    assert Next(s, OLDEST).messages == t.messages;
  }

  lemma DataRead(h: Header, waits: bool)
    requires h.id == 0 && h.kind != NETWORK_ACK
    ensures Enabled(DataAt(h, waits, h.to), OLDEST) && Next(DataAt(h, waits, h.to), OLDEST) == Done(h, waits, [])
  {
    assert Next(DataAt(h, waits, h.to), OLDEST).inFlight == [];
  }

  lemma AckStep(h: Header, waits: bool, v: Digits, next: Digits, relay: Digits)
    requires h.id == 0 && IsAckType(h.kind) && v != h.from && next == NextHop(v, h.from)
    ensures Enabled(AckAt(h, waits, v, relay), OLDEST)
    ensures Next(AckAt(h, waits, v, relay), OLDEST) == AckAt(h, waits, next, relay)
  {
    var s, t := AckAt(h, waits, v, relay), AckAt(h, waits, next, relay);
    assert s.messages[0].ackedBy + [] == s.messages[0].ackedBy;
    assert Next(s, OLDEST).inFlight == t.inFlight;
    assert Next(s, OLDEST).messages == t.messages;
  }

  lemma AckRead(h: Header, waits: bool, relay: Digits)
    requires h.id == 0 && IsAckType(h.kind)
    ensures Enabled(AckAt(h, waits, h.from, relay), OLDEST)
    ensures Next(AckAt(h, waits, h.from, relay), OLDEST) == Done(h, waits, [relay])
  {
    assert Next(AckAt(h, waits, h.from, relay), OLDEST).inFlight == [];
  }

  lemma StepTowards(v: Digits, to: Digits) returns (next: Digits)
    requires Dist(v, to) > 0
    ensures v != to && next == NextHop(v, to)
    ensures Dist(next, to) == Dist(v, to) - 1
    ensures Dist(v, to) > 1 ==> next != to
  {
    DistZero(v, to);
    next := NextHop(v, to);
    NextHopCloser(v, to);
    DistZero(next, to);
  }

  /** The acknowledgement finds its way back to the source, and is read there once. */
  lemma {:induction false} AckLeg(h: Header, waits: bool, v: Digits, relay: Digits, n: nat)
    requires h.id == 0 && IsAckType(h.kind) && n == Dist(v, h.from)
    ensures Drain(AckAt(h, waits, v, relay), n + 1) == Done(h, waits, [relay])
    decreases n
  {
    if n == 0 {
      DistZero(v, h.from);
      AckRead(h, waits, relay);
      DrainVia(AckAt(h, waits, v, relay), Done(h, waits, [relay]), 1);
    } else {
      var next := StepTowards(v, h.from);
      AckStep(h, waits, v, next, relay);
      AckLeg(h, waits, next, relay, n - 1);
      DrainVia(AckAt(h, waits, v, relay), AckAt(h, waits, next, relay), n + 1);
    }
  }

  /** The way out: one hop per step, short of the destination for a frame that asks for an acknowledgement. */
  lemma {:induction false} DataLeg(h: Header, waits: bool, v: Digits, n: nat) returns (w: Digits)
    requires h.id == 0 && h.kind != NETWORK_ACK
    requires n <= Dist(v, h.to) && (IsAckType(h.kind) ==> n < Dist(v, h.to))
    ensures Dist(w, h.to) == Dist(v, h.to) - n
    ensures Drain(DataAt(h, waits, v), n) == DataAt(h, waits, w)
    ensures v != h.from && Between(h.from, v, h.to) ==> w != h.from && Between(h.from, w, h.to)
    decreases n
  {
    if n == 0 {
      w := v;
    } else {
      var next := StepTowards(v, h.to);
      DataStep(h, waits, v, next);
      if v != h.from && Between(h.from, v, h.to) { RelayStep(h.from, v, h.to); }
      w := DataLeg(h, waits, next, n - 1);
      DrainVia(DataAt(h, waits, v), DataAt(h, waits, next), n);
    }
  }

  /** Without loss, a frame that asks for no acknowledgement is read after one step per hop and one more. */
  lemma {:induction false} PlainDelivery(h: Header, v: Digits)
    requires h.id == 0 && h.kind != NETWORK_ACK && !IsAckType(h.kind)
    ensures Drain(DataAt(h, false, v), Dist(v, h.to) + 1) == Done(h, false, [])
    decreases Dist(v, h.to)
  {
    DistZero(v, h.to);
    if v == h.to {
      DataRead(h, false);
      DrainVia(DataAt(h, false, v), Done(h, false, []), 1);
    } else {
      var next := StepTowards(v, h.to);
      DataStep(h, false, v, next);
      PlainDelivery(h, next);
      DrainVia(DataAt(h, false, v), DataAt(h, false, next), Dist(v, h.to) + 1);
    }
  }
}
