/**
 What a source may conclude from a `write` that waited and returned true.  The
 waiting loop takes any acknowledgement that comes in, whatever frame it
 answers: one that comes late, or one for a frame whose sender did not wait,
 passes for that of the current frame.
 */
module WaitingSource {
  import opened Basics
  import opened OctalTree
  import opened NodeRouting
  import opened NetworkAck
  import opened NetworkRuns

  // Whether the call for a frame is still waiting, what it returned, or that the frame was sent directly to a relay.
  datatype Call = Waiting | Returned(ok: bool) | Direct

  // The frames sent along the tree, the calls, and the frames and acknowledgements of those sent directly.
  datatype Net = Net(air: State, calls: seq<Call>, side: seq<Packet>)

  datatype Event =
    | Step(action: Action)
    | Timeout(id: nat)
    | SendDirect(from: Digits, via: Digits, to: Digits, kind: nat, hearers: seq<Digits>)
    | Stray(index: nat, first: Attempt, second: Attempt)

  ghost predicate Possible(n: Net, e: Event) {
    && |n.calls| == |n.air.messages|
    && match e
       case Timeout(id) => id < |n.calls| && n.calls[id] == Waiting
       case Step(a) =>
         && Enabled(n.air, a)
         && (a.Send? && Eligible(Header(a.from, a.to, a.kind, 0)) ==> Idle(n, a.from))
       case SendDirect(from, via, to, kind, hearers) =>
         && from != to && via != to && kind != NETWORK_ACK && Idle(n, from)
         && forall i :: 0 <= i < |hearers| ==> |hearers[i]| == |via| && hearers[i] != from
       case Stray(i, _, _) => i < |n.side|
  }

  // No call of the node waits.  One that does has nothing else to send.
  ghost predicate Idle(n: Net, node: Digits)
    requires |n.calls| == |n.air.messages|
  {
    forall id :: 0 <= id < |n.calls| && n.calls[id] == Waiting ==> n.air.messages[id].header.from != node
  }

  // The acknowledgement is read at the source.
  ghost predicate EndsWait(s: State, a: Action)
    requires Enabled(s, a)
  {
    a.Receive? && IsReply(s.inFlight[a.index])
  }

  ghost predicate IsReply(p: Packet) {
    p.header.kind == NETWORK_ACK && p.at == p.header.to
  }

  ghost function Released(n: Net, node: Digits): (calls: seq<Call>)
    requires |n.calls| == |n.air.messages|
    ensures |calls| == |n.calls|
    ensures forall id :: 0 <= id < |calls| ==>
              calls[id] ==
              if n.calls[id] == Waiting && n.air.messages[id].header.from == node then Returned(true) else n.calls[id]
  {
    seq(|n.calls|, id requires 0 <= id < |n.calls| =>
      if n.calls[id] == Waiting && n.air.messages[id].header.from == node then Returned(true) else n.calls[id])
  }

  ghost function Happens(n: Net, e: Event): Net
    requires Possible(n, e)
  {
    match e
    case Timeout(id) => n.(calls := n.calls[id := Returned(false)])
    case Step(a) =>
      var air := Next(n.air, a);
      if a.Send? then
        var m := air.messages[|n.air.messages|];
        n.(air := air, calls := n.calls + [if m.waits then Waiting else Returned(a.first == Confirmed)])
      else if EndsWait(n.air, a) then n.(air := air, calls := Released(n, n.air.inFlight[a.index].at))
      else n.(air := air)
    case SendDirect(from, via, to, kind, hearers) =>
      // heard by nodes of the relay's level; along the tree it is as good as lost
      var header := Header(from, to, kind, |n.calls|);
      Net(Next(n.air, Send(from, to, kind, Lost)), n.calls + [Direct], n.side + Heard(hearers, header))
    case Stray(i, first, second) =>
      var p, rest := n.side[i], Without(n.side, i);
      if p.at != p.header.to then n.(side := rest + Write(p.at, p.header, TX_ROUTED, first, second).frames)
      else if IsReply(p) then n.(side := rest, calls := Released(n, p.at))
      else n.(side := rest)
  }

  ghost function Heard(hearers: seq<Digits>, header: Header): (ps: seq<Packet>)
    ensures |ps| == |hearers| && forall i :: 0 <= i < |ps| ==> ps[i] == Packet(hearers[i], header)
  {
    seq(|hearers|, i requires 0 <= i < |hearers| => Packet(hearers[i], header))
  }

  // A frame that may be acknowledged: over several hops, or sent directly to a relay.
  ghost predicate Answerable(n: Net, id: nat)
    requires id < |n.calls| == |n.air.messages|
  {
    var h := n.air.messages[id].header;
    Eligible(h) || (n.calls[id] == Direct && IsAckType(h.kind))
  }

  ghost predicate Own(n: Net, source: Digits, id: nat)
    requires id < |n.calls| == |n.air.messages|
  {
    n.air.messages[id].header.from == source && Answerable(n, id)
  }

  // For the frame and all earlier ones of its source that may be acknowledged the calls waited and returned true.
  ghost predicate Trusted(n: Net, id: nat) {
    && id < |n.calls| == |n.air.messages| && Eligible(n.air.messages[id].header)
    && forall j :: 0 <= j <= id && Own(n, n.air.messages[id].header.from, j) ==> n.calls[j] == Returned(true)
  }

  ghost predicate Latest(n: Net, id: nat)
    requires |n.calls| == |n.air.messages|
  {
    && id < |n.calls| && Eligible(n.air.messages[id].header)
    && forall j :: id < j < |n.calls| ==> !Own(n, n.air.messages[id].header.from, j)
  }

  // ----- What a source has been acknowledged, and what it has taken for an acknowledgement

  ghost function Share(n: Net, source: Digits, id: nat): int
    requires id < |n.calls| == |n.air.messages|
  {
    var m := n.air.messages[id];
    if m.header.from != source || !Eligible(m.header) then 0
    else m.acksReceived - Count(n.calls[id] == Returned(true))
  }

  ghost function Surplus(n: Net, source: Digits, k: nat): int
    requires k <= |n.calls| == |n.air.messages|
  {
    if k == 0 then 0 else Surplus(n, source, k - 1) + Share(n, source, k - 1)
  }

  // Nothing that may be acknowledged has been sent directly.
  ghost predicate Clean(n: Net, source: Digits, k: nat)
    requires k <= |n.calls| == |n.air.messages|
  {
    forall id :: 0 <= id < k && Own(n, source, id) ==> n.calls[id] != Direct
  }

  // Among the first k frames of a source no more calls returned true than acknowledgements were read.
  ghost predicate Solvent(n: Net)
    requires |n.calls| == |n.air.messages|
  {
    forall source: Digits, k: nat :: k <= |n.calls| && Clean(n, source, k) ==> Surplus(n, source, k) >= 0
  }

  // What is on its way aside of the tree belongs to frames sent directly.
  ghost predicate SideOk(n: Net, p: Packet)
    requires |n.calls| == |n.air.messages|
  {
    && p.header.id < |n.calls| && n.calls[p.header.id] == Direct
    && var h := n.air.messages[p.header.id].header;
       && p.header == (if p.header.kind == NETWORK_ACK then AckFor(h) else h)
       && (p.header.kind == NETWORK_ACK ==> IsAckType(h.kind))
  }

  ghost predicate NetInv(n: Net) {
    && Inv(n.air) && |n.calls| == |n.air.messages|
    && (forall id :: 0 <= id < |n.calls| && n.calls[id] == Waiting ==> Latest(n, id))
    && (forall i :: 0 <= i < |n.side| ==> SideOk(n, n.side[i]))
    && Solvent(n)
  }

  // Nothing changes about the first k frames but that one is acknowledged, or that one call returns true.
  lemma {:induction false} SurplusChanges(n: Net, n': Net, source: Digits, k: nat, j: nat, w: nat)
    requires |n.calls| == |n.air.messages| && |n'.calls| == |n'.air.messages| && k <= |n.calls| && k <= |n'.calls|
    requires forall id :: 0 <= id < k ==>
               Share(n', source, id) >= Share(n, source, id) + Count(id == j) - Count(id == w)
    ensures Surplus(n', source, k) >= Surplus(n, source, k) + Count(j < k) - Count(w < k)
    decreases k
  {
    if k > 0 { SurplusChanges(n, n', source, k - 1, j, w); }
  }

  // All frames there were are what they were.
  ghost predicate SameFrames(n: Net, n': Net)
    requires |n.calls| == |n.air.messages| && |n'.calls| == |n'.air.messages|
  {
    && |n.calls| <= |n'.calls|
    && forall id :: 0 <= id < |n.calls| ==>
         && n'.air.messages[id].header == n.air.messages[id].header
         && (n'.calls[id] == Direct <==> n.calls[id] == Direct)
         && (n'.calls[id] == Waiting ==> n.calls[id] == Waiting)
  }

  lemma CleanBefore(n: Net, n': Net, source: Digits, k: nat)
    requires |n.calls| == |n.air.messages| && |n'.calls| == |n'.air.messages| && SameFrames(n, n')
    requires k <= |n.calls| && Clean(n', source, k)
    ensures Clean(n, source, k)
  {
    forall id | 0 <= id < k && Own(n, source, id)
      ensures n.calls[id] != Direct
    {
      assert n.calls[id] == Direct ==> Own(n', source, id);
    }
  }

  lemma LatestKept(n: Net, n': Net, id: nat)
    requires |n.calls| == |n.air.messages| && |n'.calls| == |n'.air.messages| && SameFrames(n, n') && Latest(n, id)
    requires forall j :: |n.calls| <= j < |n'.calls| ==> !Own(n', n.air.messages[id].header.from, j)
    ensures Latest(n', id)
  {
    var source := n.air.messages[id].header.from;
    forall j | id < j < |n'.calls|
      ensures !Own(n', source, j)
    {
      if j < |n.calls| { assert !Own(n, source, j); }
    }
  }

  // A step that sends nothing new of its own and ends no call with true.
  lemma QuietStep(n: Net, n': Net)
    requires NetInv(n) && |n'.calls| == |n'.air.messages| == |n.calls| && SameFrames(n, n') && Inv(n'.air)
    requires forall i :: 0 <= i < |n'.side| ==> SideOk(n', n'.side[i])
    requires forall source, id :: 0 <= id < |n.calls| ==> Share(n', source, id) >= Share(n, source, id)
    ensures NetInv(n')
  {
    forall id | 0 <= id < |n'.calls| && n'.calls[id] == Waiting
      ensures Latest(n', id)
    {
      LatestKept(n, n', id);
    }
    forall source: Digits, k: nat | k <= |n'.calls| && Clean(n', source, k)
      ensures Surplus(n', source, k) >= 0
    {
      CleanBefore(n, n', source, k);
      SurplusChanges(n, n', source, k, k, k);
    }
  }

  // A new frame.
  lemma NewFrame(n: Net, n': Net)
    requires NetInv(n) && |n'.calls| == |n'.air.messages| == |n.calls| + 1 && SameFrames(n, n') && Inv(n'.air)
    requires forall i :: 0 <= i < |n'.side| ==> SideOk(n', n'.side[i])
    requires forall source, id :: 0 <= id < |n.calls| ==> Share(n', source, id) == Share(n, source, id)
    requires var k := |n.calls|;
             var h := n'.air.messages[k].header;
             && (forall source :: Share(n', source, k) == 0)
             && (n'.calls[k] == Waiting ==> Eligible(h))
             && (Own(n', h.from, k) ==> Idle(n, h.from))
    ensures NetInv(n')
  {
    var last := |n.calls|;
    forall id | 0 <= id < |n'.calls| && n'.calls[id] == Waiting
      ensures Latest(n', id)
    {
      if id < last { LatestKept(n, n', id); }
    }
    forall source: Digits, k: nat | k <= |n'.calls| && Clean(n', source, k)
      ensures Surplus(n', source, k) >= 0
    {
      var m := if k <= last then k else last;
      CleanBefore(n, n', source, m);
      SurplusChanges(n, n', source, m, m, m);
    }
  }

  // An acknowledgement read at a node: that of frame j along the tree, or of frame j sent directly.
  lemma ReplyTaken(n: Net, n': Net, node: Digits, j: nat)
    requires NetInv(n) && |n'.air.messages| == |n.calls| && n'.calls == Released(n, node) && Inv(n'.air)
    requires SameFrames(n, n') && forall i :: 0 <= i < |n'.side| ==> SideOk(n', n'.side[i])
    requires j < |n.calls| && Own(n, node, j)
    requires forall id :: 0 <= id < |n.calls| ==>
               n'.air.messages[id].acksReceived >=
               n.air.messages[id].acksReceived + Count(id == j && n.calls[j] != Direct)
    ensures NetInv(n')
  {
    forall id | 0 <= id < |n'.calls| && n'.calls[id] == Waiting
      ensures Latest(n', id)
    {
      LatestKept(n, n', id);
    }
    forall source: Digits, k: nat | k <= |n'.calls| && Clean(n', source, k)
      ensures Surplus(n', source, k) >= 0
    {
      CleanBefore(n, n', source, k);
      if source == node {
        OwnSurplus(n, n', node, j, k);
      } else {
        SurplusChanges(n, n', source, k, k, k);
      }
    }
  }

  lemma OwnSurplus(n: Net, n': Net, node: Digits, j: nat, k: nat)
    requires NetInv(n) && |n'.air.messages| == |n.calls| && n'.calls == Released(n, node)
    requires SameFrames(n, n') && j < |n.calls| && Own(n, node, j) && k <= |n.calls| && Clean(n, node, k)
    requires forall id :: 0 <= id < |n.calls| ==>
               n'.air.messages[id].acksReceived >=
               n.air.messages[id].acksReceived + Count(id == j && n.calls[j] != Direct)
    ensures Surplus(n', node, k) >= 0
  {
    var paid := if n.calls[j] == Direct then |n.calls| else j;
    if w :| 0 <= w < |n.calls| && n.calls[w] == Waiting && n.air.messages[w].header.from == node {
      LastOne(n, node, w, j);
      SurplusChanges(n, n', node, k, paid, w);
    } else {
      SurplusChanges(n, n', node, k, paid, |n.calls|);
    }
  }

  // While a call waits nothing that may be acknowledged has been sent after its frame, and no other call waits.
  lemma LastOne(n: Net, node: Digits, w: nat, j: nat)
    requires NetInv(n) && w < |n.calls| && n.calls[w] == Waiting && n.air.messages[w].header.from == node
    requires j < |n.calls| && Own(n, node, j)
    ensures j <= w
    ensures forall id :: 0 <= id < |n.calls| && n.calls[id] == Waiting && n.air.messages[id].header.from == node ==>
              id == w
  {
    assert Latest(n, w);
    assert !(w < j);
    forall id | 0 <= id < |n.calls| && n.calls[id] == Waiting && n.air.messages[id].header.from == node
      ensures id == w
    {
      assert Latest(n, id);
      assert Own(n, node, id) && Own(n, node, w);
    }
  }

  // ----- Every event

  lemma SendKeepsInv(n: Net, e: Event)
    requires NetInv(n) && Possible(n, e) && e.Step? && e.action.Send?
    ensures NetInv(Happens(n, e))
  {
    var a, n', k := e.action, Happens(n, e), |n.calls|;
    NextKeepsInv(n.air, a);
    SourceWaits(a.from, Header(a.from, a.to, a.kind, k), a.first);
    assert forall j :: 0 <= j < k ==> n'.air.messages[j] == n.air.messages[j] && n'.calls[j] == n.calls[j];
    assert n'.air.messages[k].header == Header(a.from, a.to, a.kind, k);
    assert forall i :: 0 <= i < |n.side| ==> SideOk(n, n.side[i]);
    NewFrame(n, n');
  }

  lemma DirectKeepsInv(n: Net, e: Event)
    requires NetInv(n) && Possible(n, e) && e.SendDirect?
    ensures NetInv(Happens(n, e))
  {
    var n', k := Happens(n, e), |n.calls|;
    NextKeepsInv(n.air, Send(e.from, e.to, e.kind, Lost));
    assert forall j :: 0 <= j < k ==> n'.air.messages[j] == n.air.messages[j] && n'.calls[j] == n.calls[j];
    assert n'.air.messages[k].header == Header(e.from, e.to, e.kind, k);
    forall i | 0 <= i < |n'.side|
      ensures SideOk(n', n'.side[i])
    {
      if i < |n.side| { assert SideOk(n, n.side[i]); }
    }
    NewFrame(n, n');
  }

  // All but the acknowledgements read at their source leave the headers and the counts as they are.
  lemma StepChanges(s: State, a: Action)
    requires Inv(s) && Enabled(s, a) && a.Receive?
    ensures |Next(s, a).messages| == |s.messages|
    ensures forall j :: 0 <= j < |s.messages| ==>
              && Next(s, a).messages[j].header == s.messages[j].header
              && Next(s, a).messages[j].acksReceived ==
                 s.messages[j].acksReceived + if EndsWait(s, a) && j == s.inFlight[a.index].header.id then 1 else 0
  {
  }

  lemma ReplyKeepsInv(n: Net, a: Action)
    requires NetInv(n) && Possible(n, Step(a)) && EndsWait(n.air, a)
    ensures NetInv(Happens(n, Step(a)))
  {
    var n', p := Happens(n, Step(a)), n.air.inFlight[a.index];
    NextKeepsInv(n.air, a);
    StepChanges(n.air, a);
    assert forall i :: 0 <= i < |n.side| ==> SideOk(n, n.side[i]);
    assert PacketOk(p, n.air.messages) && MessageOk(n.air.messages[p.header.id], p.header.id);
    ReplyTaken(n, n', p.at, p.header.id);
  }

  lemma RelayKeepsInv(n: Net, a: Action)
    requires NetInv(n) && Possible(n, Step(a)) && a.Receive? && !EndsWait(n.air, a)
    ensures NetInv(Happens(n, Step(a)))
  {
    NextKeepsInv(n.air, a);
    StepChanges(n.air, a);
    assert forall i :: 0 <= i < |n.side| ==> SideOk(n, n.side[i]);
    QuietStep(n, Happens(n, Step(a)));
  }

  // What a relay makes of a frame that was sent directly.
  lemma StrayRelayed(n: Net, p: Packet, first: Attempt, second: Attempt)
    requires |n.calls| == |n.air.messages| && SideOk(n, p) && n.air.messages[p.header.id].header.kind != NETWORK_ACK
    ensures var frames := Write(p.at, p.header, TX_ROUTED, first, second).frames;
            forall i :: 0 <= i < |frames| ==> SideOk(n, frames[i])
  {
  }

  lemma StrayLeaves(n: Net, e: Event)
    requires NetInv(n) && Possible(n, e) && e.Stray?
    ensures var n' := Happens(n, e); forall i :: 0 <= i < |n'.side| ==> SideOk(n', n'.side[i])
  {
    var n', p := Happens(n, e), n.side[e.index];
    assert SideOk(n, p) && MessageOk(n.air.messages[p.header.id], p.header.id);
    WithoutAt(n.side, e.index);
    StrayRelayed(n, p, e.first, e.second);
    forall i | 0 <= i < |n'.side|
      ensures SideOk(n', n'.side[i])
    {
      assert SideOk(n, n'.side[i]);
    }
  }

  lemma StrayKeepsInv(n: Net, e: Event)
    requires NetInv(n) && Possible(n, e) && e.Stray?
    ensures NetInv(Happens(n, e))
  {
    var n', p := Happens(n, e), n.side[e.index];
    assert SideOk(n, p) && MessageOk(n.air.messages[p.header.id], p.header.id);
    StrayLeaves(n, e);
    if IsReply(p) {
      ReplyTaken(n, n', p.at, p.header.id);
    } else {
      QuietStep(n, n');
    }
  }

  lemma HappensKeepsInv(n: Net, e: Event)
    requires NetInv(n) && Possible(n, e)
    ensures NetInv(Happens(n, e))
  {
    match e
    case Step(a) =>
      if a.Send? {
        SendKeepsInv(n, e);
      } else if EndsWait(n.air, a) {
        ReplyKeepsInv(n, a);
      } else {
        RelayKeepsInv(n, a);
      }
    case SendDirect(_, _, _, _, _) => DirectKeepsInv(n, e);
    case Stray(_, _, _) => StrayKeepsInv(n, e);
    case Timeout(id) =>
      assert forall i :: 0 <= i < |n.side| ==> SideOk(n, n.side[i]);
      QuietStep(n, Happens(n, e));
  }

  // ----- Whole histories

  const NOTHING := Net(State([], []), [], [])

  ghost predicate History(n: Net, events: seq<Event>)
    decreases |events|
  {
    events == [] || (Possible(n, events[0]) && History(Happens(n, events[0]), events[1..]))
  }

  ghost function Outcome(n: Net, events: seq<Event>): Net
    requires History(n, events)
    decreases |events|
  {
    if events == [] then n else Outcome(Happens(n, events[0]), events[1..])
  }

  lemma {:induction false} HistoryKeepsInv(n: Net, events: seq<Event>)
    requires NetInv(n) && History(n, events)
    ensures NetInv(Outcome(n, events))
    decreases |events|
  {
    if events != [] {
      HappensKeepsInv(n, events[0]);
      HistoryKeepsInv(Happens(n, events[0]), events[1..]);
    }
  }

  lemma {:induction false} NoSurplus(n: Net, source: Digits, k: nat)
    requires |n.calls| == |n.air.messages| && k <= |n.calls|
    requires forall id :: 0 <= id < k ==> Share(n, source, id) <= 0
    ensures Surplus(n, source, k) <= 0
    decreases k
  {
    if k > 0 { NoSurplus(n, source, k - 1); }
  }

  /**
   A waiting call that returned true tells that its frame reached the
   destination's radio, provided that all earlier frames of that node that may
   be acknowledged were sent along the tree, and their calls returned true.
   */
  lemma TrueMeansAccepted(events: seq<Event>, id: nat)
    requires History(NOTHING, events) && Trusted(Outcome(NOTHING, events), id)
    ensures Outcome(NOTHING, events).air.messages[id].accepted == 1
  {
    HistoryKeepsInv(NOTHING, events);
    var n := Outcome(NOTHING, events);
    var source := n.air.messages[id].header.from;
    forall j | 0 <= j <= id
      ensures Share(n, source, j) <= 0
    {
      assert MessageOk(n.air.messages[j], j);
      assert Eligible(n.air.messages[j].header) && n.air.messages[j].header.from == source ==> Own(n, source, j);
    }
    NoSurplus(n, source, id);
    assert Clean(n, source, id + 1);
    assert Own(n, source, id);
  }
}
