/**
 Long messages from end to end: which fragments may be missing when the sender
 reports success, and what the two receivers make of it.
 */
module LongMessages {
  import opened Bits
  import opened Basics
  import opened Fates
  import opened Fragments
  import S = Stm32Assembly
  import L = LinuxAssembly
  import Acks = LateAcks
  import Source = WaitingSource

  // Of any number of first fragments as many copies were received, counting the acknowledgements left over.
  ghost predicate Affordable(owed: nat, reps: seq<nat>) {
    forall k :: 0 <= k <= |reps| ==> owed + HeardUpTo(reps, k) >= k
  }

  ghost predicate ThreeAtMost(reps: seq<nat>) {
    forall k :: 0 <= k < |reps| ==> reps[k] <= MAX_TRIES
  }

  // ----- The calls that lead to given receptions

  // A fragment that was not heard takes an acknowledgement left over; a repeated one leaves some.
  function Pattern(r: nat): (p: seq<Fate>)
    ensures p != []
  {
    if r <= 1 then [Fate(r == 1, true)] else [Fate(true, false)] + Pattern(r - 1)
  }

  function Script(reps: seq<nat>): seq<Fate> {
    if reps == [] then [] else Pattern(reps[0]) + Script(reps[1..])
  }

  // The calls from the s-th on have these fates.
  ghost predicate Follows(air: nat -> Fate, s: nat, script: seq<Fate>) {
    forall i :: 0 <= i < |script| ==> air(s + i) == script[i]
  }

  lemma FollowsSplit(air: nat -> Fate, s: nat, a: seq<Fate>, b: seq<Fate>)
    requires Follows(air, s, a + b)
    ensures Follows(air, s, a) && Follows(air, s + |a|, b)
  {
    assert forall i :: 0 <= i < |a| ==> (a + b)[i] == a[i];
    forall i | 0 <= i < |b|
      ensures air(s + |a| + i) == b[i]
    {
      assert (a + b)[|a| + i] == b[i];
    }
  }

  lemma {:induction false} PatternSends(air: nat -> Fate, s: nat, left: nat, copies: nat, count: nat, r: nat)
    requires Follows(air, s, Pattern(r)) && count > 0 && left >= 1 && left >= r
    ensures var rest := Sending(air, s + |Pattern(r)|, MAX_TRIES, 0, count - 1);
            Sending(air, s, left, copies, count) == Outcome([copies + r] + rest.reps, rest.sent)
    decreases r
  {
    OneAttempt(air, s, left, copies, count);
    assert air(s + 0) == Pattern(r)[0];
    if r > 1 {
      FollowsSplit(air, s, [Fate(true, false)], Pattern(r - 1));
      PatternSends(air, s + 1, left - 1, copies + 1, count, r - 1);
    }
  }

  lemma AtMostTail(reps: seq<nat>, rest: seq<nat>)
    requires reps != [] && rest == reps[1..] && ThreeAtMost(reps)
    ensures reps[0] <= MAX_TRIES && ThreeAtMost(rest)
  {
  }

  lemma {:induction false} ScriptSends(air: nat -> Fate, s: nat, reps: seq<nat>)
    requires Follows(air, s, Script(reps)) && ThreeAtMost(reps)
    ensures Sending(air, s, MAX_TRIES, 0, |reps|) == Outcome(reps, true)
    decreases |reps|
  {
    if reps != [] {
      FollowsSplit(air, s, Pattern(reps[0]), Script(reps[1..]));
      PatternSends(air, s, MAX_TRIES, 0, |reps|, reps[0]);
      AtMostTail(reps, reps[1..]);
      ScriptSends(air, s + |Pattern(reps[0])|, reps[1..]);
      HeadTail(reps);
    }
  }

  lemma {:induction false} PatternCredit(air: nat -> Fate, owed: nat, s: nat, r: nat, t: nat)
    requires Follows(air, s, Pattern(r)) && t <= |Pattern(r)|
    ensures t < |Pattern(r)| ==> Credit(air, owed, s + t) >= Credit(air, owed, s)
    ensures Credit(air, owed, s + |Pattern(r)|) == Credit(air, owed, s) + r - 1
    decreases r
  {
    assert air(s + 0) == Pattern(r)[0];
    assert Credit(air, owed, s + 1) == Credit(air, owed, s) + Gain(air(s));
    if r > 1 {
      FollowsSplit(air, s, [Fate(true, false)], Pattern(r - 1));
      assert |Pattern(r)| == 1 + |Pattern(r - 1)|;
      PatternCredit(air, owed, s + 1, r - 1, if t == 0 then 0 else t - 1);
    }
  }

  lemma {:induction false} ScriptCredit(air: nat -> Fate, owed: nat, s: nat, reps: seq<nat>, t: nat)
    requires Follows(air, s, Script(reps)) && Credit(air, owed, s) >= 0
    requires Affordable(Credit(air, owed, s), reps) && t <= |Script(reps)|
    ensures Credit(air, owed, s + t) >= 0
    decreases |reps|
  {
    if reps != [] {
      var p, rest := Pattern(reps[0]), reps[1..];
      FollowsSplit(air, s, p, Script(rest));
      PatternCredit(air, owed, s, reps[0], if t <= |p| then t else 0);
      AffordableTail(Credit(air, owed, s), reps, rest);
      if t >= |p| { ScriptCredit(air, owed, s + |p|, rest, t - |p|); }
    }
  }

  lemma AffordableTail(owed: nat, reps: seq<nat>, rest: seq<nat>)
    requires reps != [] && rest == reps[1..] && Affordable(owed, reps)
    ensures owed + reps[0] - 1 >= 0 && Affordable(owed + reps[0] - 1, rest)
  {
    HeadTail(reps);
    assert owed + HeardUpTo(reps, 1) >= 1;
    forall k | 0 <= k <= |rest|
      ensures owed + reps[0] - 1 + HeardUpTo(rest, k) >= k
    {
      HeardCons(reps[0], rest, k);
      assert owed + HeardUpTo(reps, k + 1) >= k + 1;
    }
  }

  lemma ScriptIsBacked(owed: nat, reps: seq<nat>)
    requires Affordable(owed, reps)
    ensures Backed(Played(Script(reps)), owed)
  {
    var script := Script(reps);
    var air := Played(script);
    forall k: nat
      ensures Credit(air, owed, k) >= 0
    {
      ScriptCredit(air, owed, 0, reps, if k <= |script| then k else |script|);
      if k > |script| { CreditAfter(script, owed, k - |script|); }
    }
  }

  // ----- What success tells

  // The sender reports success, and its fragments have been received so often.
  ghost predicate Succeeds(m: Message, owed: nat, air: nat -> Fate, reps: seq<nat>) {
    Backed(air, owed) && Transmission(m, air) == Outcome(reps, true)
  }

  /**
   The sender may report success with these receptions of its fragments: if and
   only if none was received more than three times, and of any number of first
   fragments at least as many copies were, counting what was left over.
   */
  lemma SuccessExactly(m: Message, owed: nat, reps: seq<nat>)
    requires Fragmented(m)
    ensures (exists air :: Succeeds(m, owed, air, reps)) <==>
            |reps| == FragmentCount(|m.data|) && ThreeAtMost(reps) && Affordable(owed, reps)
  {
    var n := FragmentCount(|m.data|);
    if air :| Succeeds(m, owed, air, reps) {
      SendingShape(air, 0, MAX_TRIES, 0, n);
      forall k | 0 <= k <= |reps|
        ensures owed + HeardUpTo(reps, k) >= k
      {
        SendingPaid(air, owed, 0, MAX_TRIES, 0, n, k);
      }
    }
    if |reps| == n && ThreeAtMost(reps) && Affordable(owed, reps) {
      ScriptIsBacked(owed, reps);
      ScriptSends(Played(Script(reps)), 0, reps);
      assert Succeeds(m, owed, Played(Script(reps)), reps);
    }
  }

  // The first fragment twice, one of the others not at all and the rest once.
  function Skewed(n: nat, late: nat): (reps: seq<nat>)
    requires late < n
    ensures |reps| == n && forall k :: 0 <= k < n ==> reps[k] == if k == 0 then 2 else if k == late then 0 else 1
  {
    seq(n, k requires 0 <= k < n => if k == 0 then 2 else if k == late then 0 else 1)
  }

  lemma {:induction false} SkewedHeard(n: nat, late: nat, k: nat)
    requires 1 <= late < n && k <= n
    ensures HeardUpTo(Skewed(n, late), k) == if k == 0 then 0 else if k <= late then k + 1 else k
    decreases k
  {
    if k > 0 { SkewedHeard(n, late, k - 1); }
  }

  lemma SkewedIsSent(m: Message, late: nat) returns (air: nat -> Fate)
    requires Fragmented(m) && 1 <= late < FragmentCount(|m.data|)
    ensures Backed(air, 0) && Transmission(m, air) == Outcome(Skewed(FragmentCount(|m.data|), late), true)
  {
    var n := FragmentCount(|m.data|);
    var reps := Skewed(n, late);
    forall k | 0 <= k <= n
      ensures 0 + HeardUpTo(reps, k) >= k
    {
      SkewedHeard(n, late, k);
    }
    ScriptIsBacked(0, reps);
    air := Played(Script(reps));
    ScriptSends(air, 0, reps);
  }

  // With nothing left over the sender reports success, and the single-slot receiver completes something else.
  ghost predicate Corrupts(m: Message, air: nat -> Fate)
    requires Fragmented(m)
  {
    var o := Transmission(m, air);
    && Backed(air, 0) && o.sent && |o.reps| <= FragmentCount(|m.data|)
    && S.Completed(m, o.reps) !in {[], [S.Received(m)]}
  }

  /**
   With no acknowledgement left over from before, a message with a hole can be
   completed while its sender reports success if and only if it has more than
   two fragments.
   */
  lemma HolePossible(m: Message)
    requires Fragmented(m)
    ensures (exists air :: Corrupts(m, air)) <==> |m.data| > 48
  {
    CountBounds(m);
    var n := FragmentCount(|m.data|);
    if air :| Corrupts(m, air) {
      S.HoleExactly(m, Transmission(m, air).reps);
    }
    if |m.data| > 48 {
      var air := SkewedIsSent(m, 1);
      var reps := Skewed(n, 1);
      assert reps[1] == 0;
      S.HoleExactly(m, reps);
      assert Corrupts(m, air);
    }
  }

  /** For every long message there is a way to report success although nothing is completed. */
  lemma SuccessWithNothing(m: Message) returns (air: nat -> Fate)
    requires Fragmented(m)
    ensures Backed(air, 0) && Transmission(m, air).sent
    ensures |Transmission(m, air).reps| == FragmentCount(|m.data|) && S.Completed(m, Transmission(m, air).reps) == []
  {
    CountBounds(m);
    var n := FragmentCount(|m.data|);
    air := SkewedIsSent(m, n - 1);
    assert Skewed(n, n - 1)[1..][n - 2] == 0;
  }

  // ----- Fragments that are not acknowledged

  function Once(air: nat -> Fate, s: nat, count: nat): (reps: seq<nat>)
    ensures |reps| == count && forall k :: 0 <= k < count ==> reps[k] == if air(s + k).heard then 1 else 0
  {
    seq(count, k requires 0 <= k < count => if air(s + k).heard then 1 else 0)
  }

  /** Sent directly or to a whole level every fragment goes out once, and success says nothing about who heard it. */
  lemma {:induction false} Unacknowledged(air: nat -> Fate, s: nat, count: nat)
    requires forall i :: air(i).ok
    ensures Sending(air, s, MAX_TRIES, 0, count) == Outcome(Once(air, s, count), true)
    decreases count
  {
    if count > 0 {
      Unacknowledged(air, s + 1, count - 1);
      var first := if air(s).heard then 1 else 0;
      assert Once(air, s, count) == [first] + Once(air, s + 1, count - 1);
    } else {
      assert Once(air, s, 0) == [];
    }
  }

  /** So a receiver that hears the first and the last fragment but not all of the others completes something else. */
  lemma UnacknowledgedHole(m: Message, slot: S.Slot, air: nat -> Fate)
    requires Fragmented(m) && (forall i :: air(i).ok) && (air(0).heard || S.Closed(slot, m))
    ensures var n, o := FragmentCount(|m.data|), Transmission(m, air);
            && o.sent && |o.reps| == n
            && (S.Feed(slot, Stuttered(m, 0, o.reps)).completed !in {[], [S.Received(m)]} <==>
                air(0).heard && air(n - 1).heard && exists k :: 1 <= k < n - 1 && !air(k).heard)
  {
    CountBounds(m);
    var n := FragmentCount(|m.data|);
    Unacknowledged(air, 0, n);
    var reps := Once(air, 0, n);
    assert reps[0] == if air(0 + 0).heard then 1 else 0;
    HoleWhen(m, slot, reps);
    HoleOfOnce(air, n);
  }

  lemma HoleWhen(m: Message, slot: S.Slot, reps: seq<nat>)
    requires Fragmented(m) && |reps| == FragmentCount(|m.data|) && (reps == [] || reps[0] >= 1 || S.Closed(slot, m))
    ensures S.Feed(slot, Stuttered(m, 0, reps)).completed !in {[], [S.Received(m)]} <==> S.HasHole(|reps|, reps)
  {
    S.ReassembledWithGaps(slot, m, reps);
    S.HoleExactly(m, reps);
  }

  lemma HoleOfOnce(air: nat -> Fate, n: nat)
    requires n >= 2
    ensures S.HasHole(n, Once(air, 0, n)) <==>
            air(0).heard && air(n - 1).heard && exists k :: 1 <= k < n - 1 && !air(k).heard
  {
    var reps := Once(air, 0, n);
    assert forall k :: 0 <= k < n ==> reps[k] == if air(0 + k).heard then 1 else 0;
    if k :| 1 <= k < n - 1 && !air(k).heard { assert reps[k] == 0; }
    if k :| 1 <= k < n - 1 && reps[k] == 0 { assert !air(k).heard; }
  }

  // ----- The same on both receivers, and in the network

  /**
   The failure at work, for every message of more than two fragments.  The
   first fragment's acknowledgement comes too late; it passes for that of the
   second one, which is lost.  There is a run of the network in which the calls
   of the sender have these fates, as many as one likes.  The sender reports
   success; the single-slot receiver completes the first fragment followed by
   the last, and the other receiver hands out nothing.
   */
  lemma HoleAfterLateAck(m: Message, slot: S.Slot, self: uint16, s: L.State, calls: nat)
    returns (air: nat -> Fate, events: seq<Source.Event>, net: Source.Net)
    requires Fragmented(m) && |m.data| > 48
    requires m.from != self && m.id > 0 && m.from !in s.cache
    ensures Transmission(m, air) == Outcome(Skewed(FragmentCount(|m.data|), 1), true)
    ensures Acks.Leads(Source.NOTHING, events, net) && Acks.Shows(net, Acks.MASTER, Taken(air, calls))
    ensures var frames := Stuttered(m, 0, Skewed(FragmentCount(|m.data|), 1));
            && S.Feed(slot, frames).completed == [S.Holed(m, 1)] && S.Holed(m, 1) != S.Received(m)
            && L.Feed(self, s, frames).frameQueue == s.frameQueue
            && L.Feed(self, s, frames).externalQueue == s.externalQueue
  {
    CountBounds(m);
    var n := FragmentCount(|m.data|);
    var reps := Skewed(n, 1);
    air := SkewedIsSent(m, 1);
    TakenIsCredible(air, calls);
    events, net := Acks.RunWithFates(Taken(air, calls));
    S.SentAndReassembled(slot, m, air, 0);
    HoleIs(m, reps);
    S.HoledShorter(m, 1);
    L.StutteredHandedOut(self, s, m, reps);
  }

  lemma HoleIs(m: Message, reps: seq<nat>)
    requires Fragmented(m) && |m.data| > 48 && reps == Skewed(FragmentCount(|m.data|), 1)
    ensures S.Completed(m, reps) == [S.Holed(m, 1)]
  {
    CountBounds(m);
    var rest, n := reps[1..], |reps|;
    assert rest[0] == reps[1] && rest[n - 2] == reps[n - 1];
  }
}
