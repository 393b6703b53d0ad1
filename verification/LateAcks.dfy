/**
 How much a source learns: which results its calls may show while which of its
 frames arrive, and what the results of the public `write` say.
 */
module LateAcks {
  import opened Basics
  import opened Fates
  import opened OctalTree
  import opened NetworkAck
  import opened NetworkRuns
  import opened WaitingSource
  import Fragments

  // The network has carried just these calls, all of one source and over several hops, with these fates.
  ghost predicate Shows(n: Net, source: Digits, fates: seq<Fate>) {
    && |n.calls| == |n.air.messages| == |fates|
    && forall id :: 0 <= id < |fates| ==> HasFate(n, source, id, fates[id])
  }

  ghost predicate HasFate(n: Net, source: Digits, id: nat, f: Fate)
    requires id < |n.calls| == |n.air.messages|
  {
    var m := n.air.messages[id];
    && Eligible(m.header) && m.header.from == source && n.calls[id] == Returned(f.ok)
    && m.accepted == Count(f.heard)
  }

  // These events have led to them.
  ghost predicate Attained(events: seq<Event>, source: Digits, fates: seq<Fate>) {
    History(NOTHING, events) && Shows(Outcome(NOTHING, events), source, fates)
  }

  /**
   Which fates the calls of a source may have: those, and only those, in which
   no more calls have returned true at any point than frames have arrived.
   */
  lemma RunsExactly(fates: seq<Fate>)
    ensures (exists events, source :: Attained(events, source, fates)) <==> Credible(fates)
  {
    if events, source :| Attained(events, source, fates) {
      HistoryKeepsInv(NOTHING, events);
      ShownIsCredible(Outcome(NOTHING, events), source, fates);
    }
    if Credible(fates) {
      var events, n := RunWithFates(fates);
      assert Attained(events, MASTER, fates);
    }
  }

  lemma ShownIsCredible(n: Net, source: Digits, fates: seq<Fate>)
    requires NetInv(n) && Shows(n, source, fates)
    ensures Credible(fates)
  {
    forall k | 0 <= k <= |fates|
      ensures Balance(fates, k) >= 0
    {
      forall id | 0 <= id < k
        ensures n.calls[id] != Direct
      {
        assert HasFate(n, source, id, fates[id]);
      }
      assert Clean(n, source, k);
      SurplusWithin(n, source, fates, k);
    }
  }

  lemma {:induction false} SurplusWithin(n: Net, source: Digits, fates: seq<Fate>, k: nat)
    requires NetInv(n) && Shows(n, source, fates) && k <= |fates|
    ensures Surplus(n, source, k) <= Balance(fates, k)
    decreases k
  {
    if k > 0 {
      SurplusWithin(n, source, fates, k - 1);
      assert HasFate(n, source, k - 1, fates[k - 1]) && MessageOk(n.air.messages[k - 1], k - 1);
    }
  }

  // ----- A master, a relay and a node behind it

  const MASTER: Digits := []
  const RELAY: Digits := [1]
  const NODE: Digits := [1, 2]

  const SEND := Step(Send(MASTER, NODE, 65, Confirmed))

  function Head(id: nat): Header {
    Header(MASTER, NODE, 65, id)
  }

  function Reply(id: nat): Packet {
    Packet(MASTER, AckFor(Head(id)))
  }

  ghost predicate FromMaster(n: Net) {
    |n.calls| == |n.air.messages| && forall id :: 0 <= id < |n.calls| ==> n.air.messages[id].header == Head(id)
  }

  // No call is waiting.
  ghost predicate Quiet(n: Net) {
    FromMaster(n) && forall id :: 0 <= id < |n.calls| ==> n.calls[id] != Waiting
  }

  // Only the last call is waiting.
  ghost predicate Pending(n: Net, k: nat) {
    && FromMaster(n) && |n.calls| == k + 1 && n.calls[k] == Waiting
    && forall id :: 0 <= id < k ==> n.calls[id] != Waiting
  }

  // Acknowledgements of these frames are in the air.
  ghost predicate Outstanding(n: Net, owed: set<nat>) {
    forall m :: m in owed ==> m < |n.calls| && (Reply(m) in n.air.inFlight || Reply(m) in n.side)
  }

  // Frames have arrived as before.
  ghost predicate SameAccepted(n: Net, n': Net, k: nat) {
    k <= |n.air.messages| && k <= |n'.air.messages| &&
    forall id :: 0 <= id < k ==> n'.air.messages[id].accepted == n.air.messages[id].accepted
  }

  lemma Tiny()
    ensures NextHop(MASTER, NODE) == RELAY && NextHop(RELAY, NODE) == NODE && NextHop(RELAY, MASTER) == MASTER
    ensures Dist(MASTER, NODE) == 2
  {
    assert NODE[..1] == RELAY && NODE[..2] == NODE && RELAY[..0] == MASTER;
  }

  ghost predicate Leads(n: Net, events: seq<Event>, n': Net) {
    History(n, events) && Outcome(n, events) == n'
  }

  lemma {:induction false} LeadsOn(n: Net, a: seq<Event>, n1: Net, b: seq<Event>, n2: Net)
    requires Leads(n, a, n1) && Leads(n1, b, n2)
    ensures Leads(n, a + b, n2)
    decreases |a|
  {
    if a == [] {
      assert a + b == b;
    } else {
      AppendHead(a, b);
      LeadsOn(Happens(n, a[0]), a[1..], n1, b, n2);
    }
  }

  lemma LeadsOne(n: Net, e: Event)
    requires Possible(n, e)
    ensures Leads(n, [e], Happens(n, e))
  {
    assert [e][1..] == [];
  }

  lemma MasterSends(n: Net, k: nat) returns (n': Net)
    requires Quiet(n) && k == |n.calls|
    ensures Leads(n, [SEND], n') && Pending(n', k) && n'.calls == n.calls + [Waiting] && n'.side == n.side
    ensures n'.air.inFlight == n.air.inFlight + [Packet(RELAY, Head(k))]
    ensures n'.air.messages == n.air.messages + [Message(Head(k), true, 0, [], 0, 0)]
  {
    Tiny();
    LeadsOne(n, SEND);
    n' := Happens(n, SEND);
  }

  lemma MasterGivesUp(n: Net, k: nat) returns (n': Net)
    requires Pending(n, k)
    ensures Leads(n, [Timeout(k)], n') && Quiet(n') && n'.air == n.air && n'.side == n.side
    ensures n'.calls == n.calls[..k] + [Returned(false)]
  {
    LeadsOne(n, Timeout(k));
    n' := Happens(n, Timeout(k));
  }

  // The relay passes the last frame on and answers it.
  lemma RelayAnswers(n: Net, k: nat, i: nat) returns (n': Net)
    requires Pending(n, k) && |n.air.inFlight| == i + 1 && n.air.inFlight[i] == Packet(RELAY, Head(k))
    ensures Leads(n, [Step(Receive(i, Confirmed, Confirmed))], n') && Pending(n', k)
    ensures n'.calls == n.calls && n'.side == n.side
    ensures n'.air.inFlight == n.air.inFlight[..i] + [Packet(NODE, Head(k)), Reply(k)]
    ensures SameAccepted(n, n', k) && n'.air.messages[k].accepted == n.air.messages[k].accepted + 1
  {
    Tiny();
    var a := Receive(i, Confirmed, Confirmed);
    LeadsOne(n, Step(a));
    n' := Happens(n, Step(a));
    assert Without(n.air.inFlight, i) == n.air.inFlight[..i];
    assert Next(n.air, a).inFlight == Without(n.air.inFlight, i) + [Packet(NODE, Head(k)), Reply(k)];
  }

  // A reply to some frame ends the wait for the last one.
  lemma ReplyRead(n: Net, k: nat, i: nat, m: nat) returns (n': Net)
    requires Pending(n, k) && i < |n.air.inFlight| && n.air.inFlight[i] == Reply(m) && m <= k
    ensures Leads(n, [Step(Receive(i, Confirmed, Confirmed))], n') && Quiet(n')
    ensures n'.calls == n.calls[..k] + [Returned(true)]
    ensures n'.air.inFlight == Without(n.air.inFlight, i) && n'.side == n.side && SameAccepted(n, n', k + 1)
  {
    var a := Receive(i, Confirmed, Confirmed);
    assert EndsWait(n.air, a);
    LeadsOne(n, Step(a));
    n' := Happens(n, Step(a));
  }

  // The same with a reply to a frame that was sent directly.
  lemma StrayRead(n: Net, k: nat, i: nat, m: nat) returns (n': Net)
    requires Pending(n, k) && i < |n.side| && n.side[i] == Reply(m)
    ensures Leads(n, [Stray(i, Confirmed, Confirmed)], n') && Quiet(n')
    ensures n'.calls == n.calls[..k] + [Returned(true)]
    ensures n'.air == n.air && n'.side == Without(n.side, i)
  {
    LeadsOne(n, Stray(i, Confirmed, Confirmed));
    n' := Happens(n, Stray(i, Confirmed, Confirmed));
  }

  // ----- Putting runs together

  datatype Deed = Along(fate: Fate) | Aside(answered: bool)

  function CallOf(d: Deed): Call {
    if d.Along? then Returned(d.fate.ok) else Direct
  }

  // Nothing waits for the acknowledgement of a frame sent directly.
  function DeedGain(d: Deed): int {
    if d.Along? then Gain(d.fate) else Count(d.answered)
  }

  function Total(deeds: seq<Deed>, k: nat): int
    requires k <= |deeds|
  {
    if k == 0 then 0 else Total(deeds, k - 1) + DeedGain(deeds[k - 1])
  }

  ghost predicate Done(n: Net, n': Net, d: Deed) {
    && Quiet(n) && Quiet(n') && n'.calls == n.calls + [CallOf(d)] && SameAccepted(n, n', |n.calls|)
    && (d.Along? ==> n'.air.messages[|n.calls|].accepted == Count(d.fate.heard))
  }

  lemma StillOutstanding(n: Net, n': Net, owed: set<nat>)
    requires Outstanding(n, owed) && |n.calls| <= |n'.calls|
    requires n.air.inFlight <= n'.air.inFlight && n.side <= n'.side
    ensures Outstanding(n', owed)
  {
    assert forall p :: p in n.air.inFlight ==> p in n'.air.inFlight;
    assert forall p :: p in n.side ==> p in n'.side;
  }

  // Accepted and acknowledged, in time or not.
  lemma Heeded(n: Net, owed: set<nat>, ok: bool) returns (events: seq<Event>, n': Net, owed': set<nat>)
    requires Quiet(n) && Outstanding(n, owed)
    ensures Leads(n, events, n') && Done(n, n', Along(Fate(true, ok)))
    ensures Outstanding(n', owed') && |owed'| == |owed| + Gain(Fate(true, ok))
  {
    var k, i := |n.calls|, |n.air.inFlight|;
    var n1 := MasterSends(n, k);
    var n2 := RelayAnswers(n1, k, i);
    var relayed := Step(Receive(i, Confirmed, Confirmed));
    LeadsOn(n, [SEND], n1, [relayed], n2);
    if ok {
      var read := Step(Receive(i + 1, Confirmed, Confirmed));
      n' := ReplyRead(n2, k, i + 1, k);
      LeadsOn(n, [SEND] + [relayed], n2, [read], n');
      events, owed' := [SEND] + [relayed] + [read], owed;
      StillOutstanding(n, n', owed);
    } else {
      n' := MasterGivesUp(n2, k);
      LeadsOn(n, [SEND] + [relayed], n2, [Timeout(k)], n');
      events, owed' := [SEND] + [relayed] + [Timeout(k)], owed + {k};
      StillOutstanding(n, n', owed);
      assert n'.air.inFlight[i + 1] == Reply(k);
    }
  }

  // Not accepted, and given up.
  lemma Unheeded(n: Net, owed: set<nat>) returns (events: seq<Event>, n': Net)
    requires Quiet(n) && Outstanding(n, owed)
    ensures Leads(n, events, n') && Done(n, n', Along(Fate(false, false))) && Outstanding(n', owed)
  {
    var k := |n.calls|;
    var n1 := MasterSends(n, k);
    n' := MasterGivesUp(n1, k);
    LeadsOn(n, [SEND], n1, [Timeout(k)], n');
    events := [SEND] + [Timeout(k)];
    StillOutstanding(n, n', owed);
  }

  // Not accepted, but an acknowledgement that was outstanding ends the wait.
  lemma Mistaken(n: Net, owed: set<nat>) returns (events: seq<Event>, n': Net, owed': set<nat>)
    requires Quiet(n) && Outstanding(n, owed) && owed != {}
    ensures Leads(n, events, n') && Done(n, n', Along(Fate(false, true)))
    ensures Outstanding(n', owed') && |owed'| == |owed| - 1
  {
    var k := |n.calls|;
    var n1 := MasterSends(n, k);
    StillOutstanding(n, n1, owed);
    var m :| m in owed;
    owed' := owed - {m};
    if Reply(m) in n1.air.inFlight {
      var i :| 0 <= i < |n1.air.inFlight| && n1.air.inFlight[i] == Reply(m);
      n' := ReplyRead(n1, k, i, m);
      LeadsOn(n, [SEND], n1, [Step(Receive(i, Confirmed, Confirmed))], n');
      events := [SEND] + [Step(Receive(i, Confirmed, Confirmed))];
      OthersOutstanding(n1.air.inFlight, i, m);
    } else {
      var i :| 0 <= i < |n1.side| && n1.side[i] == Reply(m);
      n' := StrayRead(n1, k, i, m);
      LeadsOn(n, [SEND], n1, [Stray(i, Confirmed, Confirmed)], n');
      events := [SEND] + [Stray(i, Confirmed, Confirmed)];
      OthersOutstanding(n1.side, i, m);
    }
  }

  lemma OthersOutstanding(ps: seq<Packet>, i: nat, m: nat)
    requires i < |ps| && ps[i] == Reply(m)
    ensures forall x :: x != m && Reply(x) in ps ==> Reply(x) in Without(ps, i)
  {
    forall x | x != m && Reply(x) in ps
      ensures Reply(x) in Without(ps, i)
    {
      assert Reply(x).header.id == x && Reply(m).header.id == m;
      OthersKept(ps, i, Reply(x), []);
      assert Without(ps, i) + [] == Without(ps, i);
    }
  }

  // Sent directly to the relay, which passes it on and answers it if it hears it.
  lemma SentAside(n: Net, owed: set<nat>, answered: bool) returns (events: seq<Event>, n': Net, owed': set<nat>)
    requires Quiet(n) && Outstanding(n, owed)
    ensures Leads(n, events, n') && Done(n, n', Aside(answered))
    ensures Outstanding(n', owed') && |owed'| == |owed| + Count(answered)
  {
    var k := |n.calls|;
    var hearers := if answered then [RELAY] else [];
    var n1 := DirectSent(n, k, hearers);
    StillOutstanding(n, n1, owed);
    events, n', owed' := [SendDirect(MASTER, RELAY, NODE, 65, hearers)], n1, owed;
    if answered {
      n' := DirectAnswered(n1, k, |n.side|);
      StillOutstanding(n, n', owed);
      assert n'.side[|n.side| + 1] == Reply(k);
      LeadsOn(n, events, n1, [Stray(|n.side|, Confirmed, Confirmed)], n');
      events, owed' := events + [Stray(|n.side|, Confirmed, Confirmed)], owed + {k};
    }
  }

  lemma DirectSent(n: Net, k: nat, hearers: seq<Digits>) returns (n': Net)
    requires Quiet(n) && k == |n.calls| && (hearers == [] || hearers == [RELAY])
    ensures Leads(n, [SendDirect(MASTER, RELAY, NODE, 65, hearers)], n') && Done(n, n', Aside(false))
    ensures n'.air.inFlight == n.air.inFlight && |n'.side| == |n.side| + |hearers| && n.side <= n'.side
    ensures hearers == [RELAY] ==> n'.side[|n.side|] == Packet(RELAY, Head(k))
  {
    Tiny();
    LeadsOne(n, SendDirect(MASTER, RELAY, NODE, 65, hearers));
    n' := Happens(n, SendDirect(MASTER, RELAY, NODE, 65, hearers));
    assert n.air.inFlight + [] == n.air.inFlight;
  }

  lemma DirectAnswered(n: Net, k: nat, i: nat) returns (n': Net)
    requires |n.calls| == |n.air.messages| && |n.side| == i + 1 && n.side[i] == Packet(RELAY, Head(k))
    ensures Leads(n, [Stray(i, Confirmed, Confirmed)], n') && n'.air == n.air && n'.calls == n.calls
    ensures n'.side == n.side[..i] + [Packet(NODE, Head(k)), Reply(k)]
  {
    Tiny();
    LeadsOne(n, Stray(i, Confirmed, Confirmed));
    n' := Happens(n, Stray(i, Confirmed, Confirmed));
    assert Without(n.side, i) == n.side[..i];
    assert n'.side == Without(n.side, i) + [Packet(NODE, Head(k)), Reply(k)];
  }

  lemma Perform(n: Net, owed: set<nat>, d: Deed) returns (events: seq<Event>, n': Net, owed': set<nat>)
    requires Quiet(n) && Outstanding(n, owed) && |owed| + DeedGain(d) >= 0
    ensures Leads(n, events, n') && Done(n, n', d)
    ensures Outstanding(n', owed') && |owed'| == |owed| + DeedGain(d)
  {
    match d
    case Aside(answered) => events, n', owed' := SentAside(n, owed, answered);
    case Along(f) =>
      if f.heard {
        events, n', owed' := Heeded(n, owed, f.ok);
      } else if f.ok {
        events, n', owed' := Mistaken(n, owed);
      } else {
        events, n' := Unheeded(n, owed);
        owed' := owed;
      }
  }

  // What the first k deeds have come to.
  ghost predicate AllDone(n: Net, deeds: seq<Deed>, k: nat) {
    && k <= |deeds| && Quiet(n) && |n.calls| == k && (forall i :: 0 <= i < k ==> n.calls[i] == CallOf(deeds[i]))
    && forall i :: 0 <= i < k && deeds[i].Along? ==> n.air.messages[i].accepted == Count(deeds[i].fate.heard)
  }

  lemma OneMoreDone(n: Net, n': Net, deeds: seq<Deed>, k: nat)
    requires k < |deeds| && AllDone(n, deeds, k) && Done(n, n', deeds[k])
    ensures AllDone(n', deeds, k + 1)
  {
  }

  lemma {:induction false} PerformAll(deeds: seq<Deed>, k: nat)
    returns (events: seq<Event>, n: Net, owed: set<nat>)
    requires k <= |deeds| && forall i :: 0 <= i <= |deeds| ==> Total(deeds, i) >= 0
    ensures Leads(NOTHING, events, n) && AllDone(n, deeds, k)
    ensures Outstanding(n, owed) && |owed| == Total(deeds, k)
    decreases k
  {
    if k == 0 {
      events, n, owed := [], NOTHING, {};
    } else {
      var before, n0, owed0 := PerformAll(deeds, k - 1);
      var more;
      assert Total(deeds, k) >= 0;
      more, n, owed := Perform(n0, owed0, deeds[k - 1]);
      OneMoreDone(n0, n, deeds, k - 1);
      LeadsOn(NOTHING, before, n0, more, n);
      events := before + more;
    }
  }

  function AllAlong(fates: seq<Fate>): (deeds: seq<Deed>)
    ensures |deeds| == |fates| && forall i :: 0 <= i < |fates| ==> deeds[i] == Along(fates[i])
  {
    seq(|fates|, i requires 0 <= i < |fates| => Along(fates[i]))
  }

  lemma {:induction false} TotalAlong(fates: seq<Fate>, k: nat)
    requires k <= |fates|
    ensures Total(AllAlong(fates), k) == Balance(fates, k)
    decreases k
  {
    if k > 0 { TotalAlong(fates, k - 1); }
  }

  /** For all credible fates there is a run in which they come about. */
  lemma RunWithFates(fates: seq<Fate>) returns (events: seq<Event>, n: Net)
    requires Credible(fates)
    ensures Leads(NOTHING, events, n) && Shows(n, MASTER, fates)
  {
    var deeds := AllAlong(fates);
    forall i | 0 <= i <= |fates|
      ensures Total(deeds, i) >= 0
    {
      TotalAlong(fates, i);
    }
    var owed;
    events, n, owed := PerformAll(deeds, |fates|);
    Tiny();
  }

  // ----- What the public `write` tells

  // One public `write`, as its caller sees it: a message of one frame or of several fragments, acknowledged over
  // several hops, or one that is sent directly to a relay.
  datatype Told = Single(ok: bool) | Long(count: nat, ok: bool) | Sideways

  // The calls of the loop over the fragments, with fragments and tries left.
  ghost predicate Loop(calls: seq<Call>, count: nat, left: nat, ok: bool)
    decreases |calls|
  {
    if count == 0 || left == 0 then calls == [] && (ok <==> count == 0)
    else
      && calls != [] && calls[0].Returned?
      && if calls[0].ok then Loop(calls[1..], count - 1, Fragments.MAX_TRIES, ok)
         else Loop(calls[1..], count, left - 1, ok)
  }

  ghost predicate Block(calls: seq<Call>, t: Told) {
    match t
    case Single(ok) => calls == [Returned(ok)]
    case Sideways => calls == [Direct]
    case Long(count, ok) => Loop(calls, count, Fragments.MAX_TRIES, ok)
  }

  // These calls are those of these writes.
  ghost predicate Tells(calls: seq<Call>, told: seq<Told>)
    decreases |told|
  {
    if told == [] then calls == []
    else exists len :: 0 <= len <= |calls| && Block(calls[..len], told[0]) && Tells(calls[len..], told[1..])
  }

  // The calls for the first k frames that are of one source and may be acknowledged.
  ghost function OwnCalls(n: Net, source: Digits, k: nat): seq<Call>
    requires k <= |n.calls| == |n.air.messages|
  {
    if k == 0 then []
    else OwnCalls(n, source, k - 1) + if Own(n, source, k - 1) then [n.calls[k - 1]] else []
  }

  // After these writes of the source its call for the frame of a message of one frame returned true.
  ghost predicate TrueAfter(n: Net, source: Digits, id: nat, told: seq<Told>) {
    && id < |n.calls| == |n.air.messages| && Eligible(n.air.messages[id].header)
    && n.air.messages[id].header.from == source && n.calls[id] == Returned(true)
    && Tells(OwnCalls(n, source, id), told)
  }

  // Whatever has happened in the network, a true result after these writes means that the message was accepted.
  ghost predicate Conclusive(told: seq<Told>) {
    forall events, source, id: nat ::
      History(NOTHING, events) && TrueAfter(Outcome(NOTHING, events), source, id, told) ==>
        Outcome(NOTHING, events).air.messages[id].accepted == 1
  }

  /**
   From the true result of a message of one frame its source may conclude that
   it was accepted if and only if it has so far only sent messages of one frame
   along the tree, and was told true for each.
   */
  lemma ResultsDecide(told: seq<Told>)
    requires forall j :: 0 <= j < |told| && told[j].Long? ==> told[j].count >= 2
    ensures Conclusive(told) <==> forall j :: 0 <= j < |told| ==> told[j] == Single(true)
  {
    if j :| 0 <= j < |told| && told[j] != Single(true) {
      var events, n, id := LateAcknowledgement(told, j);
      assert History(NOTHING, events) && TrueAfter(Outcome(NOTHING, events), MASTER, id, told);
    } else {
      forall events, source, id: nat |
          History(NOTHING, events) && TrueAfter(Outcome(NOTHING, events), source, id, told)
        ensures Outcome(NOTHING, events).air.messages[id].accepted == 1
      {
        AllTrue(Outcome(NOTHING, events), source, id, told);
        TrueMeansAccepted(events, id);
      }
    }
  }

  lemma AllTrue(n: Net, source: Digits, id: nat, told: seq<Told>)
    requires TrueAfter(n, source, id, told) && forall j :: 0 <= j < |told| ==> told[j] == Single(true)
    ensures Trusted(n, id)
  {
    OnlyTrue(OwnCalls(n, source, id), told);
    forall j | 0 <= j < id && Own(n, source, j)
      ensures n.calls[j] == Returned(true)
    {
      OwnCallIn(n, source, id, j);
    }
  }

  lemma {:induction false} OnlyTrue(calls: seq<Call>, told: seq<Told>)
    requires Tells(calls, told) && forall j :: 0 <= j < |told| ==> told[j] == Single(true)
    ensures forall c :: c in calls ==> c == Returned(true)
    decreases |told|
  {
    if told != [] {
      var len :| 0 <= len <= |calls| && Block(calls[..len], told[0]) && Tells(calls[len..], told[1..]);
      OnlyTrue(calls[len..], told[1..]);
      assert calls == calls[..len] + calls[len..];
    }
  }

  lemma {:induction false} OwnCallIn(n: Net, source: Digits, k: nat, j: nat)
    requires j < k <= |n.calls| == |n.air.messages| && Own(n, source, j)
    ensures n.calls[j] in OwnCalls(n, source, k)
    decreases k
  {
    if j < k - 1 { OwnCallIn(n, source, k - 1, j); }
  }

  lemma {:induction false} AllOwn(n: Net, k: nat)
    requires FromMaster(n) && k <= |n.calls|
    ensures OwnCalls(n, MASTER, k) == n.calls[..k]
    decreases k
  {
    Tiny();
    if k > 0 {
      AllOwn(n, k - 1);
      assert Own(n, MASTER, k - 1);
      assert n.calls[..k] == n.calls[..k - 1] + [n.calls[k - 1]];
    }
  }

  // ----- The runs in which it does not

  const GOOD := Along(Fate(true, true))
  const LATE := Along(Fate(true, false))
  const LOST := Along(Fate(false, false))

  function Goods(count: nat): seq<Deed> {
    if count == 0 then [] else [GOOD] + Goods(count - 1)
  }

  // What may be behind one write: all as it seems, or with an acknowledgement left over.
  function Deeds(t: Told, over: bool): seq<Deed> {
    match t
    case Single(ok) => [if ok then GOOD else if over then LATE else LOST]
    case Sideways => [Aside(over)]
    case Long(count, ok) =>
      if ok then (if over then [LATE] else []) + Goods(count)
      else [if over then LATE else LOST, LOST, LOST]
  }

  // All writes, the j-th with an acknowledgement left over.
  function AllDeeds(told: seq<Told>, j: int): seq<Deed> {
    if told == [] then [] else Deeds(told[0], j == 0) + AllDeeds(told[1..], j - 1)
  }

  function Calls(deeds: seq<Deed>): (calls: seq<Call>)
    ensures |calls| == |deeds| && forall i :: 0 <= i < |deeds| ==> calls[i] == CallOf(deeds[i])
  {
    seq(|deeds|, i requires 0 <= i < |deeds| => CallOf(deeds[i]))
  }

  lemma {:induction false} LoopOfGoods(count: nat)
    ensures Loop(Calls(Goods(count)), count, Fragments.MAX_TRIES, true)
  {
    if count > 0 {
      LoopOfGoods(count - 1);
      assert Calls(Goods(count))[1..] == Calls(Goods(count - 1));
    }
  }

  lemma DeedsBlock(t: Told, over: bool)
    requires t.Long? ==> t.count >= 2
    ensures Block(Calls(Deeds(t, over)), t)
  {
    if t.Long? && t.ok {
      LoopOfGoods(t.count);
      assert over ==> Calls(Deeds(t, true))[1..] == Calls(Goods(t.count));
      assert !over ==> Calls(Deeds(t, false)) == Calls(Goods(t.count));
    } else if t.Long? {
      var calls := Calls(Deeds(t, over));
      assert Loop(calls[1..][1..][1..], t.count, 0, false);
      assert Loop(calls[1..][1..], t.count, 1, false);
      assert Loop(calls[1..], t.count, 2, false);
    }
  }

  lemma {:induction false} DeedsTell(told: seq<Told>, j: int)
    requires forall i :: 0 <= i < |told| && told[i].Long? ==> told[i].count >= 2
    ensures Tells(Calls(AllDeeds(told, j)), told)
    decreases |told|
  {
    if told != [] {
      var first, rest := Deeds(told[0], j == 0), AllDeeds(told[1..], j - 1);
      DeedsBlock(told[0], j == 0);
      DeedsTell(told[1..], j - 1);
      TellsMore(first, rest, told);
    }
  }

  lemma TellsMore(first: seq<Deed>, rest: seq<Deed>, told: seq<Told>)
    requires told != [] && Block(Calls(first), told[0]) && Tells(Calls(rest), told[1..])
    ensures Tells(Calls(first + rest), told)
  {
    var calls, len := Calls(first + rest), |first|;
    assert calls[..len] == Calls(first) && calls[len..] == Calls(rest);
  }

  lemma {:induction false} GoodsGain(count: nat)
    ensures forall d :: d in Goods(count) ==> d == GOOD
  {
    if count > 0 { GoodsGain(count - 1); }
  }

  // No deed takes more than it brings, and the j-th write brings one acknowledgement too many.
  lemma {:induction false} LeftOver(told: seq<Told>, j: int)
    ensures forall d :: d in AllDeeds(told, j) ==> DeedGain(d) >= 0
    ensures 0 <= j < |told| && told[j] != Single(true) ==> exists d :: d in AllDeeds(told, j) && DeedGain(d) >= 1
    decreases |told|
  {
    if told != [] {
      var first, rest := Deeds(told[0], j == 0), AllDeeds(told[1..], j - 1);
      LeftOver(told[1..], j - 1);
      if told[0].Long? { GoodsGain(told[0].count); }
      assert forall d :: d in first ==> DeedGain(d) >= 0;
      if j == 0 && told[0] != Single(true) {
        assert first[0] in first + rest && DeedGain(first[0]) == 1;
      } else if 0 <= j < |told| && told[j] != Single(true) {
        var d :| d in rest && DeedGain(d) >= 1;
        assert d in first + rest;
      }
    }
  }

  lemma {:induction false} TotalGrows(deeds: seq<Deed>, front: seq<Deed>, k: nat)
    requires k <= |front| <= |deeds| && front <= deeds && forall d :: d in front ==> DeedGain(d) >= 0
    ensures Total(deeds, k) >= 0
    ensures (exists i :: 0 <= i < k && DeedGain(front[i]) >= 1) ==> Total(deeds, k) >= 1
    decreases k
  {
    if k > 0 {
      TotalGrows(deeds, front, k - 1);
      assert deeds[k - 1] == front[k - 1] && front[k - 1] in front;
    }
  }

  /**
   After any other history of writes there is a run that looks just like it, in
   which a true result is for a message that nobody received: after a false
   result, after a fragmented message whatever its result, and after a frame
   sent directly to a relay.
   */
  lemma LateAcknowledgement(told: seq<Told>, j: nat) returns (events: seq<Event>, n: Net, id: nat)
    requires j < |told| && told[j] != Single(true)
    requires forall i :: 0 <= i < |told| && told[i].Long? ==> told[i].count >= 2
    ensures Leads(NOTHING, events, n) && TrueAfter(n, MASTER, id, told) && n.air.messages[id].accepted == 0
  {
    var front := AllDeeds(told, j);
    id := |front|;
    LeftOver(told, j);
    var deeds := OneMistaken(front);
    var owed;
    events, n, owed := PerformAll(deeds, id + 1);
    DeedsTell(told, j);
    LooksLike(n, front, deeds, told);
  }

  // With an acknowledgement left over one more frame may be taken for acknowledged.
  lemma OneMistaken(front: seq<Deed>) returns (deeds: seq<Deed>)
    requires (forall d :: d in front ==> DeedGain(d) >= 0) && exists d :: d in front && DeedGain(d) >= 1
    ensures deeds == front + [Along(Fate(false, true))]
    ensures forall i :: 0 <= i <= |deeds| ==> Total(deeds, i) >= 0
  {
    deeds := front + [Along(Fate(false, true))];
    var d :| d in front && DeedGain(d) >= 1;
    var at :| 0 <= at < |front| && front[at] == d;
    forall i | 0 <= i <= |deeds|
      ensures Total(deeds, i) >= 0
    {
      TotalGrows(deeds, front, if i <= |front| then i else |front|);
    }
  }

  lemma LooksLike(n: Net, front: seq<Deed>, deeds: seq<Deed>, told: seq<Told>)
    requires deeds == front + [Along(Fate(false, true))] && AllDone(n, deeds, |front| + 1)
    requires Tells(Calls(front), told)
    ensures TrueAfter(n, MASTER, |front|, told) && n.air.messages[|front|].accepted == 0
  {
    Tiny();
    AllOwn(n, |front|);
    assert n.calls[..|front|] == Calls(front);
    assert deeds[|front|] == Along(Fate(false, true));
  }
}
