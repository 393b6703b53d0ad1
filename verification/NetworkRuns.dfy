/** Whole runs of the network without loss: all traffic there is gets through, and everything comes to rest. */
module NetworkRuns {
  import opened Basics
  import opened OctalTree
  import opened NodeRouting
  import opened NetworkAck

  // ----- Nothing lost

  ghost predicate Lossless(a: Action) {
    match a
    case Send(_, _, _, first) => first == Confirmed
    case Receive(_, first, second) => first == Confirmed && second == Confirmed
  }

  // How many frames will still be processed because of a packet: one for every hop to go and one to read it, and,
  // where an acknowledgement will be sent, what that takes.
  ghost function Work(p: Packet): nat {
    if p.at == p.header.to then 1
    else if IsAckType(p.header.kind) then Dist(p.at, p.header.to) + Dist(p.header.from, p.header.to)
    else Dist(p.at, p.header.to) + 1
  }

  ghost function TotalWork(ps: seq<Packet>): nat {
    if ps == [] then 0 else TotalWork(ps[..|ps| - 1]) + Work(ps[|ps| - 1])
  }

  lemma {:induction false} TotalSplit(a: seq<Packet>, b: seq<Packet>)
    ensures TotalWork(a + b) == TotalWork(a) + TotalWork(b)
    decreases |b|
  {
    if b == [] {
      assert a + b == a;
    } else {
      var m := |b| - 1;
      TotalSplit(a, b[..m]);
      assert (a + b)[..|a + b| - 1] == a + b[..m];
    }
  }

  lemma TotalOne(p: Packet)
    ensures TotalWork([p]) == Work(p)
  {
    assert [p][..0] == [];
  }

  lemma TotalThree(a: seq<Packet>, p: Packet, b: seq<Packet>)
    ensures TotalWork(a + [p] + b) == TotalWork(a + b) + Work(p)
  {
    TotalSplit(a + [p], b);
    TotalSplit(a, [p]);
    TotalOne(p);
    TotalSplit(a, b);
  }

  lemma CutAt(ps: seq<Packet>, i: nat)
    requires i < |ps|
    ensures ps == ps[..i] + [ps[i]] + ps[i + 1..]
  {
  }

  lemma TotalWithout(ps: seq<Packet>, i: nat)
    requires i < |ps|
    ensures TotalWork(ps) == TotalWork(Without(ps, i)) + Work(ps[i])
  {
    CutAt(ps, i);
    TotalThree(ps[..i], ps[i], ps[i + 1..]);
  }

  lemma WorkPositive(p: Packet)
    ensures Work(p) >= 1
  {
    DistZero(p.at, p.header.to);
  }

  // What one message costs from the moment it is sent.
  ghost function Cost(from: Digits, to: Digits, kind: nat): nat {
    var d := Dist(from, to);
    if IsAckType(kind) && d > 1 then 2 * d - 1 else d
  }

  ghost predicate Eligible(h: Header) {
    IsAckType(h.kind) && Dist(h.from, h.to) > 1
  }

  // The frames that processing a packet puts on the air.
  ghost function Forwarded(p: Packet): seq<Packet> {
    if p.at == p.header.to then [] else Write(p.at, p.header, TX_ROUTED, Confirmed, Confirmed).frames
  }

  /** Processing one packet takes one unit of work out of the network. */
  lemma ForwardedWork(p: Packet)
    requires p.header.kind != NETWORK_ACK && p.at != p.header.to ==>
               p.at != p.header.from && Between(p.header.from, p.at, p.header.to)
    requires p.header.kind == NETWORK_ACK || p.header.from != p.header.to
    ensures TotalWork(Forwarded(p)) == Work(p) - 1
  {
    if p.at != p.header.to {
      var next := NextHop(p.at, p.header.to);
      HopOn(p, next);
      if IsAckType(p.header.kind) && next == p.header.to {
        AnswerWork(p);
      } else {
        assert Forwarded(p) == [Packet(next, p.header)];
        TotalOne(Packet(next, p.header));
      }
    }
  }

  lemma HopOn(p: Packet, next: Digits)
    requires p.at != p.header.to && next == NextHop(p.at, p.header.to)
    ensures Dist(next, p.header.to) == Dist(p.at, p.header.to) - 1
    ensures next == p.header.to <==> Dist(p.at, p.header.to) == 1
  {
    NextHopCloser(p.at, p.header.to);
    DistZero(next, p.header.to);
  }

  // The last relay answers.
  lemma AnswerWork(p: Packet)
    requires IsAckType(p.header.kind) && p.at != p.header.to && NextHop(p.at, p.header.to) == p.header.to
    requires p.at != p.header.from && Between(p.header.from, p.at, p.header.to)
    ensures TotalWork(Forwarded(p)) == Work(p) - 1
  {
    var h, back := p.header, NextHop(p.at, p.header.from);
    HopOn(p, h.to);
    DistZero(h.from, p.at);
    NextHopCloser(p.at, h.from);
    DistZero(back, h.from);
    var data, ack := Packet(h.to, h), Packet(back, AckFor(h));
    assert Forwarded(p) == [data] + [ack];
    TotalSplit([data], [ack]);
    TotalOne(data);
    TotalOne(ack);
  }

  lemma SendWork(s: State, a: Action)
    requires Inv(s) && Enabled(s, a) && Lossless(a) && a.Send?
    ensures TotalWork(Next(s, a).inFlight) == TotalWork(s.inFlight) + Cost(a.from, a.to, a.kind)
  {
    var first := Packet(NextHop(a.from, a.to), Header(a.from, a.to, a.kind, |s.messages|));
    FirstHop(a.from, a.to);
    NextHopCloser(a.from, a.to);
    DistZero(first.at, a.to);
    assert Next(s, a).inFlight == s.inFlight + [first];
    TotalSplit(s.inFlight, [first]);
    TotalOne(first);
  }

  lemma ReceiveFlight(s: State, a: Action)
    requires Enabled(s, a) && Lossless(a) && a.Receive?
    ensures Next(s, a).inFlight == Without(s.inFlight, a.index) + Forwarded(s.inFlight[a.index])
  {
    assert Without(s.inFlight, a.index) + [] == Without(s.inFlight, a.index);
  }

  lemma ReceiveWork(s: State, a: Action)
    requires Inv(s) && Enabled(s, a) && Lossless(a) && a.Receive?
    ensures TotalWork(Next(s, a).inFlight) == TotalWork(s.inFlight) - 1
  {
    var p := s.inFlight[a.index];
    assert PacketOk(p, s.messages) && MessageOk(s.messages[p.header.id], p.header.id);
    ReceiveFlight(s, a);
    ForwardedWork(p);
    TotalSplit(Without(s.inFlight, a.index), Forwarded(p));
    TotalWithout(s.inFlight, a.index);
  }

  // ----- Nothing is forgotten

  ghost predicate HasData(ps: seq<Packet>, id: nat) {
    exists p :: p in ps && p.header.id == id && p.header.kind != NETWORK_ACK
  }

  ghost predicate HasEarlyData(ps: seq<Packet>, id: nat) {
    exists p :: p in ps && p.header.id == id && p.header.kind != NETWORK_ACK && p.at != p.header.to
  }

  ghost predicate HasAck(ps: seq<Packet>, id: nat) {
    exists p :: p in ps && p.header.id == id && p.header.kind == NETWORK_ACK
  }

  // Read, or on its way; and so the acknowledgement, if there is to be one.
  ghost predicate Pursued(m: Message, ps: seq<Packet>) {
    && (m.delivered == 1 || HasData(ps, m.header.id))
    && (Eligible(m.header) ==>
          m.waits && (m.acksReceived == 1 || HasAck(ps, m.header.id) || HasEarlyData(ps, m.header.id)))
  }

  ghost predicate AllPursued(s: State) {
    forall id :: 0 <= id < |s.messages| ==> Pursued(s.messages[id], s.inFlight)
  }

  lemma PursuedWithMore(m: Message, ps: seq<Packet>, more: seq<Packet>)
    requires Pursued(m, ps)
    ensures Pursued(m, ps + more)
  {
    assert forall p :: p in ps ==> p in ps + more;
  }

  lemma SendPursues(s: State, a: Action)
    requires Inv(s) && AllPursued(s) && Enabled(s, a) && Lossless(a) && a.Send?
    ensures AllPursued(Next(s, a))
  {
    var s' := Next(s, a);
    var first := Packet(NextHop(a.from, a.to), Header(a.from, a.to, a.kind, |s.messages|));
    FirstHop(a.from, a.to);
    assert s'.inFlight == s.inFlight + [first] && first in s'.inFlight;
    forall id | 0 <= id < |s'.messages|
      ensures Pursued(s'.messages[id], s'.inFlight)
    {
      if id < |s.messages| {
        assert MessageOk(s.messages[id], id);
        PursuedWithMore(s.messages[id], s.inFlight, [first]);
      }
    }
  }

  // Taking one packet out leaves the others.
  lemma OthersKept(ps: seq<Packet>, i: nat, q: Packet, more: seq<Packet>)
    requires i < |ps| && q in ps && q != ps[i]
    ensures q in Without(ps, i) + more
  {
    var j :| 0 <= j < |ps| && ps[j] == q;
    assert (Without(ps, i) + more)[if j < i then j else j - 1] == q;
  }

  lemma OtherPursued(m: Message, ps: seq<Packet>, i: nat, more: seq<Packet>)
    requires i < |ps| && Pursued(m, ps) && ps[i].header.id != m.header.id
    ensures Pursued(m, Without(ps, i) + more)
  {
    var id, after := m.header.id, Without(ps, i) + more;
    forall q | q in ps && q.header.id == id
      ensures q in after
    {
      OthersKept(ps, i, q, more);
    }
  }

  // What a packet leaves behind when it is processed.
  lemma ReadPursued(s: State, a: Action)
    requires Inv(s) && Enabled(s, a) && Lossless(a) && a.Receive?
    requires var p := s.inFlight[a.index]; p.at == p.header.to && Pursued(s.messages[p.header.id], s.inFlight)
    ensures var s', id := Next(s, a), s.inFlight[a.index].header.id; Pursued(s'.messages[id], s'.inFlight)
  {
    var i, p := a.index, s.inFlight[a.index];
    var id, m, after := p.header.id, s.messages[p.header.id], Next(s, a).inFlight;
    assert PacketOk(p, s.messages) && MessageOk(m, id);
    assert after == Without(s.inFlight, i) + [];
    forall q | q in s.inFlight && q.header.id == id && q != p
      ensures q in after && !SameFlow(p, q)
    {
      OthersKept(s.inFlight, i, q, []);
      var j :| 0 <= j < |s.inFlight| && s.inFlight[j] == q;
      assert !SameFlow(s.inFlight[if j < i then j else i], s.inFlight[if j < i then i else j]);
    }
  }

  lemma RelayPursued(s: State, a: Action)
    requires Inv(s) && Enabled(s, a) && Lossless(a) && a.Receive?
    requires var p := s.inFlight[a.index]; p.at != p.header.to && Pursued(s.messages[p.header.id], s.inFlight)
    ensures var s', id := Next(s, a), s.inFlight[a.index].header.id; Pursued(s'.messages[id], s'.inFlight)
  {
    var i, p := a.index, s.inFlight[a.index];
    var id, m, after := p.header.id, s.messages[p.header.id], Next(s, a).inFlight;
    assert PacketOk(p, s.messages) && MessageOk(m, id);
    ReceiveFlight(s, a);
    var next := Packet(NextHop(p.at, p.header.to), p.header);
    assert Forwarded(p)[0] == next && next in after;
    if p.header.kind == NETWORK_ACK {
      forall q | q in s.inFlight && q.header.id == id && q != p
        ensures q in after
      {
        OthersKept(s.inFlight, i, q, Forwarded(p));
      }
    } else if IsAckType(p.header.kind) && next.at == p.header.to {
      var ack := Packet(Hop(p.at, p.header.from), AckFor(p.header));
      assert Forwarded(p)[1] == ack && ack in after;
    }
  }

  lemma ReceivePursues(s: State, a: Action)
    requires Inv(s) && AllPursued(s) && Enabled(s, a) && Lossless(a) && a.Receive?
    ensures AllPursued(Next(s, a))
  {
    var i, p, s' := a.index, s.inFlight[a.index], Next(s, a);
    ReceiveFlight(s, a);
    forall id | 0 <= id < |s'.messages|
      ensures Pursued(s'.messages[id], s'.inFlight)
    {
      assert MessageOk(s.messages[id], id) && Pursued(s.messages[id], s.inFlight);
      if id != p.header.id {
        OtherPursued(s.messages[id], s.inFlight, i, Forwarded(p));
      } else if p.at == p.header.to {
        ReadPursued(s, a);
      } else {
        RelayPursued(s, a);
      }
    }
  }

  // ----- Runs without loss

  ghost function Receives(run: seq<Action>): nat {
    if run == [] then 0 else (if run[0].Receive? then 1 else 0) + Receives(run[1..])
  }

  ghost function Costs(run: seq<Action>): nat {
    if run == [] then 0
    else (if run[0].Send? then Cost(run[0].from, run[0].to, run[0].kind) else 0) + Costs(run[1..])
  }

  lemma {:induction false} WorkIsConserved(s: State, run: seq<Action>)
    requires Inv(s) && AllPursued(s) && ValidRun(s, run) && forall a :: a in run ==> Lossless(a)
    ensures Inv(After(s, run)) && AllPursued(After(s, run))
    ensures TotalWork(After(s, run).inFlight) + Receives(run) == TotalWork(s.inFlight) + Costs(run)
    decreases |run|
  {
    if run != [] {
      var a := run[0];
      assert a in run && forall b :: b in run[1..] ==> b in run;
      NextKeepsInv(s, a);
      if a.Send? {
        SendWork(s, a);
        SendPursues(s, a);
      } else {
        ReceiveWork(s, a);
        ReceivePursues(s, a);
      }
      WorkIsConserved(Next(s, a), run[1..]);
    }
  }

  lemma AtRest(s: State)
    requires Inv(s) && AllPursued(s)
    ensures TotalWork(s.inFlight) == 0 <==> s.inFlight == []
    ensures s.inFlight == [] ==>
              forall id :: 0 <= id < |s.messages| ==> Settled(s.messages[id])
  {
    if s.inFlight != [] { WorkPositive(s.inFlight[|s.inFlight| - 1]); }
    forall id | 0 <= id < |s.messages| && s.inFlight == []
      ensures Settled(s.messages[id])
    {
      assert MessageOk(s.messages[id], id) && Pursued(s.messages[id], s.inFlight);
    }
  }

  // Read once by its destination, and acknowledged once if it asks for it and had further to go than one hop.
  ghost predicate Settled(m: Message) {
    && m.accepted == m.delivered == 1 && m.header.from != m.header.to
    && (if Eligible(m.header) then m.waits && m.acksReceived == 1 && m.ackedBy == [NextHop(m.header.to, m.header.from)]
        else m.ackedBy == [] && m.acksReceived == 0)
  }

  /**
   On a channel that loses nothing, any number of messages, sent and relayed in
   any order, between any nodes: every frame processed is progress, and when as
   many have been processed as the messages cost (2d - 1 for one that is
   acknowledged over d > 1 hops, d for any other), nothing is left in the air
   and every message is settled.  Until then there is always a frame to process.
   */
  lemma EverythingArrives(run: seq<Action>)
    requires ValidRun(State([], []), run) && forall a :: a in run ==> Lossless(a)
    ensures Receives(run) <= Costs(run)
    ensures var s := After(State([], []), run);
            && (Receives(run) < Costs(run) <==> s.inFlight != [])
            && (Receives(run) == Costs(run) ==> forall id :: 0 <= id < |s.messages| ==> Settled(s.messages[id]))
  {
    WorkIsConserved(State([], []), run);
    AtRest(After(State([], []), run));
  }

  // ----- One message, exactly

  // What the network does with messages does not change what they are.
  ghost predicate SameMessages(a: seq<Message>, b: seq<Message>) {
    |a| == |b| && forall id :: 0 <= id < |a| ==> a[id].header == b[id].header && a[id].waits == b[id].waits
  }

  lemma OneProcessed(s: State) returns (t: State)
    requires Inv(s) && AllPursued(s) && s.inFlight != []
    ensures Enabled(s, OLDEST) && Next(s, OLDEST) == t && Inv(t) && AllPursued(t)
    ensures TotalWork(t.inFlight) == TotalWork(s.inFlight) - 1 && SameMessages(s.messages, t.messages)
  {
    assert PacketOk(s.inFlight[0], s.messages);
    t := Next(s, OLDEST);
    StaysTheSame(s, OLDEST);
    NextKeepsInv(s, OLDEST);
    ReceiveWork(s, OLDEST);
    ReceivePursues(s, OLDEST);
  }

  lemma StaysTheSame(s: State, a: Action)
    requires Enabled(s, a) && a.Receive?
    ensures SameMessages(s.messages, Next(s, a).messages)
  {
  }

  lemma {:induction false} DrainWork(s: State, n: nat)
    requires Inv(s) && AllPursued(s) && n <= TotalWork(s.inFlight)
    ensures Inv(Drain(s, n)) && AllPursued(Drain(s, n))
    ensures TotalWork(Drain(s, n).inFlight) == TotalWork(s.inFlight) - n
    ensures SameMessages(s.messages, Drain(s, n).messages)
    decreases n
  {
    if n > 0 {
      AtRest(s);
      var t := OneProcessed(s);
      DrainWork(t, n - 1);
      DrainVia(s, t, n);
    }
  }

  /**
   Round trip: on a channel that loses nothing, a frame that asks for a network
   acknowledgement and has d > 1 hops to go makes its source wait, is delivered
   once, and its acknowledgement, sent by the neighbour of the destination, is
   read once at the source when 2d - 1 frames have been processed.  Then
   nothing is left in the air.
   */
  lemma AckRoundTrip(from: Digits, to: Digits, kind: nat, d: nat)
    requires IsAckType(kind) && d == Dist(from, to) > 1
    ensures from != to
    ensures Drain(Next(State([], []), Send(from, to, kind, Confirmed)), 2 * d - 1) ==
            Done(Header(from, to, kind, 0), true, [NextHop(to, from)])
  {
    DistZero(from, to);
    var s := FirstSent(from, to, kind, d);
    OneSettled(s, 2 * d - 1);
  }

  lemma FirstSent(from: Digits, to: Digits, kind: nat, d: nat) returns (s: State)
    requires IsAckType(kind) && d == Dist(from, to) > 1 && from != to
    ensures s == Next(State([], []), Send(from, to, kind, Confirmed))
    ensures Inv(s) && AllPursued(s) && TotalWork(s.inFlight) == 2 * d - 1
    ensures |s.messages| == 1 && s.messages[0].header == Header(from, to, kind, 0) && s.messages[0].waits
  {
    var none, a := State([], []), Send(from, to, kind, Confirmed);
    s := Next(none, a);
    NextKeepsInv(none, a);
    SendWork(none, a);
    SendPursues(none, a);
    assert Pursued(s.messages[0], s.inFlight);
  }

  lemma OneSettled(s: State, n: nat)
    requires Inv(s) && AllPursued(s) && n == TotalWork(s.inFlight) && |s.messages| == 1
    requires var h := s.messages[0].header; Eligible(h) && h.from != h.to && s.messages[0].waits
    ensures var h := s.messages[0].header; Drain(s, n) == Done(h, true, [NextHop(h.to, h.from)])
  {
    DrainWork(s, n);
    var t := Drain(s, n);
    AtRest(t);
    assert Settled(t.messages[0]);
  }
}
