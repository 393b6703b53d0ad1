/** What becomes of a source's calls, and the acknowledgements it is still owed. */
module Fates {
  // One call that waits for an acknowledgement: whether the destination's radio took its frame, and what it returned.
  datatype Fate = Fate(heard: bool, ok: bool)

  // A frame that is taken brings one acknowledgement, a call that returns true uses one up.
  function Gain(f: Fate): int {
    (if f.heard then 1 else 0) - (if f.ok then 1 else 0)
  }

  // The acknowledgements outstanding after the first k calls.
  function Credit(air: nat -> Fate, owed: nat, k: nat): int {
    if k == 0 then owed else Credit(air, owed, k - 1) + Gain(air(k - 1))
  }

  // No call returned true without an acknowledgement of its own frame or an earlier one.
  ghost predicate Backed(air: nat -> Fate, owed: nat) {
    forall k: nat :: Credit(air, owed, k) >= 0
  }

  // The same for calls in a sequence, with nothing outstanding at first.
  function Balance(fates: seq<Fate>, k: nat): int
    requires k <= |fates|
  {
    if k == 0 then 0 else Balance(fates, k - 1) + Gain(fates[k - 1])
  }

  ghost predicate Credible(fates: seq<Fate>) {
    forall k :: 0 <= k <= |fates| ==> Balance(fates, k) >= 0
  }

  function Taken(air: nat -> Fate, n: nat): (fates: seq<Fate>)
    ensures |fates| == n && forall i :: 0 <= i < n ==> fates[i] == air(i)
  {
    seq(n, i requires 0 <= i < n => air(i))
  }

  lemma {:induction false} BalanceOfTaken(air: nat -> Fate, n: nat, k: nat)
    requires k <= n
    ensures Balance(Taken(air, n), k) == Credit(air, 0, k)
    decreases k
  {
    if k > 0 { BalanceOfTaken(air, n, k - 1); }
  }

  /** The calls of a backed sender are credible as far as they go. */
  lemma TakenIsCredible(air: nat -> Fate, n: nat)
    requires Backed(air, 0)
    ensures Credible(Taken(air, n))
  {
    forall k | 0 <= k <= n
      ensures Balance(Taken(air, n), k) >= 0
    {
      BalanceOfTaken(air, n, k);
    }
  }

  // These calls, and after them only such as come to nothing.
  function Played(script: seq<Fate>): nat -> Fate {
    (i: nat) => if i < |script| then script[i] else Fate(false, false)
  }

  lemma {:induction false} CreditAfter(script: seq<Fate>, owed: nat, t: nat)
    requires Credit(Played(script), owed, |script|) >= 0
    ensures Credit(Played(script), owed, |script| + t) >= 0
    decreases t
  {
    if t > 0 { CreditAfter(script, owed, t - 1); }
  }

  /** And every credible sequence of calls is that of a backed sender. */
  lemma CredibleIsBacked(fates: seq<Fate>)
    requires Credible(fates)
    ensures Backed(Played(fates), 0) && Taken(Played(fates), |fates|) == fates
  {
    var air := Played(fates);
    assert Taken(air, |fates|) == fates;
    forall k: nat
      ensures Credit(air, 0, k) >= 0
    {
      var m := if k <= |fates| then k else |fates|;
      BalanceOfTaken(air, |fates|, m);
      if k > |fates| { CreditAfter(fates, 0, k - |fates|); }
    }
  }
}
