/** Frames, and how a message too long for one of them is cut up and sent. */
module Fragments {
  import opened Bits
  import opened Basics
  import opened Fates

  const MAX_FRAGMENT := 24
  const MAX_PAYLOAD_SIZE := 1514
  const MAX_TRIES := 3

  const EXTERNAL_DATA_TYPE: byte := 131
  const FIRST_FRAGMENT: byte := 148
  const MORE_FRAGMENTS: byte := 149
  const LAST_FRAGMENT: byte := 150

  datatype Header = Header(from: uint16, to: uint16, id: uint16, kind: byte, reserved: byte)

  datatype Frame = Frame(header: Header, payload: seq<byte>)

  predicate IsFragment(f: Frame) {
    f.header.kind == FIRST_FRAGMENT || f.header.kind == MORE_FRAGMENTS || f.header.kind == LAST_FRAGMENT
  }

  datatype Message = Message(from: uint16, to: uint16, id: uint16, kind: byte, data: seq<byte>)

  // Too long for one frame, short enough for the reassembly buffers.
  predicate Fragmented(m: Message) {
    MAX_FRAGMENT < |m.data| <= MAX_PAYLOAD_SIZE
  }

  function FragmentCount(len: nat): nat {
    (len + MAX_FRAGMENT - 1) / MAX_FRAGMENT
  }

  function Chunk(data: seq<byte>, k: nat): seq<byte>
    requires k < FragmentCount(|data|)
  {
    data[k * MAX_FRAGMENT..if |data| <= (k + 1) * MAX_FRAGMENT then |data| else (k + 1) * MAX_FRAGMENT]
  }

  // The k-th frame of a fragmented message: fragments count down, and the last one carries the message's own type.
  function Fragment(m: Message, k: nat): Frame
    requires Fragmented(m) && k < FragmentCount(|m.data|)
  {
    var n := FragmentCount(|m.data|);
    var kind := if k == n - 1 then LAST_FRAGMENT else if k == 0 then FIRST_FRAGMENT else MORE_FRAGMENTS;
    var reserved: byte := if k == n - 1 then m.kind else n - k;
    Frame(Header(m.from, m.to, m.id, kind, reserved), Chunk(m.data, k))
  }

  // A message that fits one frame.
  function Whole(m: Message, reserved: byte): Frame {
    Frame(Header(m.from, m.to, m.id, m.kind, reserved), m.data)
  }

  lemma CountBounds(m: Message)
    requires Fragmented(m)
    ensures 2 <= FragmentCount(|m.data|) <= 64
    ensures (FragmentCount(|m.data|) - 1) * MAX_FRAGMENT < |m.data| <= FragmentCount(|m.data|) * MAX_FRAGMENT
  {
  }

  /** The chunks are the message: k of them make up its first 24k bytes, all of them the whole. */
  lemma ChunkExtends(data: seq<byte>, k: nat)
    requires k < FragmentCount(|data|)
    ensures k * MAX_FRAGMENT <= |data|
    ensures k < FragmentCount(|data|) - 1 ==> |Chunk(data, k)| == MAX_FRAGMENT && (k + 1) * MAX_FRAGMENT <= |data|
    ensures data[..k * MAX_FRAGMENT] + Chunk(data, k) ==
            if k == FragmentCount(|data|) - 1 then data else data[..(k + 1) * MAX_FRAGMENT]
  {
  }

  function Copies(f: Frame, n: nat): (c: seq<Frame>)
    ensures |c| == n && forall i :: 0 <= i < n ==> c[i] == f
  {
    if n == 0 then [] else [f] + Copies(f, n - 1)
  }

  // Fragments first .. first + |reps| - 1, each received the given number of times in a row.
  function Stuttered(m: Message, first: nat, reps: seq<nat>): seq<Frame>
    requires Fragmented(m) && first + |reps| <= FragmentCount(|m.data|)
    decreases |reps|
  {
    if reps == [] then [] else Copies(Fragment(m, first), reps[0]) + Stuttered(m, first + 1, reps[1..])
  }

  lemma {:induction false} StutteredSnoc(m: Message, first: nat, reps: seq<nat>, c: nat)
    requires Fragmented(m) && first + |reps| < FragmentCount(|m.data|)
    ensures Stuttered(m, first, reps + [c]) == Stuttered(m, first, reps) + Copies(Fragment(m, first + |reps|), c)
    decreases |reps|
  {
    if reps != [] {
      assert (reps + [c])[1..] == reps[1..] + [c];
      StutteredSnoc(m, first + 1, reps[1..], c);
    }
  }

  // What has been heard after the fragments counted in `reps` and some copies of the next one.
  ghost function Heard(m: Message, reps: seq<nat>, copies: nat): seq<Frame>
    requires Fragmented(m) && |reps| <= FragmentCount(|m.data|)
  {
    Stuttered(m, 0, reps) + if |reps| < FragmentCount(|m.data|) then Copies(Fragment(m, |reps|), copies) else []
  }

  lemma HeardAgain(m: Message, reps: seq<nat>, copies: nat)
    requires Fragmented(m) && |reps| < FragmentCount(|m.data|)
    ensures Heard(m, reps, copies) + [Fragment(m, |reps|)] == Heard(m, reps, copies + 1)
  {
    var f := Fragment(m, |reps|);
    assert Copies(f, copies) + [f] == Copies(f, copies + 1);
  }

  lemma HeardNext(m: Message, reps: seq<nat>, copies: nat)
    requires Fragmented(m) && |reps| < FragmentCount(|m.data|)
    ensures Heard(m, reps, copies) == Heard(m, reps + [copies], 0) == Stuttered(m, 0, reps + [copies])
  {
    StutteredSnoc(m, 0, reps, copies);
  }

  // How the sender fills in the header of the next fragment.
  function FragmentHeader(header: Header, kind: byte, fragmentId: nat, msgCount: nat): Header
    requires 1 <= fragmentId <= 64
  {
    if fragmentId == 1 then header.(kind := LAST_FRAGMENT, reserved := kind)
    else header.(kind := if msgCount == 0 then FIRST_FRAGMENT else MORE_FRAGMENTS, reserved := fragmentId)
  }

  lemma BuiltFragment(m: Message, header: Header, fragmentId: nat, k: nat)
    requires Fragmented(m) && 1 <= fragmentId <= 64 && fragmentId + k == FragmentCount(|m.data|)
    requires header.from == m.from && header.to == m.to && header.id == m.id
    requires header == FragmentHeader(header, m.kind, fragmentId, k)
    ensures k * MAX_FRAGMENT <= |m.data|
    ensures var rest := |m.data| - k * MAX_FRAGMENT;
            var end := k * MAX_FRAGMENT + if rest < MAX_FRAGMENT then rest else MAX_FRAGMENT;
            Frame(header, m.data[k * MAX_FRAGMENT..end]) == Fragment(m, k)
  {
    CountBounds(m);
  }

  // Fills in the header and cuts out the chunk of the next fragment.
  method NextFragment(m: Message, header: Header, fragmentId: nat, msgCount: nat)
    returns (header': Header, frame: Frame)
    requires Fragmented(m) && 1 <= fragmentId <= 64 && fragmentId + msgCount == FragmentCount(|m.data|)
    requires header.from == m.from && header.to == m.to && header.id == m.id
    ensures header'.from == m.from && header'.to == m.to && header'.id == m.id
    ensures frame == Fragment(m, msgCount)
  {
    header' := FragmentHeader(header, m.kind, fragmentId, msgCount);
    BuiltFragment(m, header', fragmentId, msgCount);
    var offset := msgCount * MAX_FRAGMENT;
    var fragmentLen := if |m.data| - offset < MAX_FRAGMENT then |m.data| - offset else MAX_FRAGMENT;
    frame := Frame(header', m.data[offset..offset + fragmentLen]);
  }

  // How often each fragment was received, as far as sending got, and whether it was reported for every one.
  datatype Outcome = Outcome(reps: seq<nat>, sent: bool)

  // What comes of `count` more fragments from the s-th call on, the first with tries left and copies received already.
  function Sending(air: nat -> Fate, s: nat, left: nat, copies: nat, count: nat): Outcome
    decreases count, left
  {
    if count == 0 then Outcome([], true)
    else if left == 0 then Outcome([copies], false)
    else
      var c := if air(s).heard then copies + 1 else copies;
      if !air(s).ok then Sending(air, s + 1, left - 1, c, count)
      else
        var rest := Sending(air, s + 1, MAX_TRIES, 0, count - 1);
        Outcome([c] + rest.reps, rest.sent)
  }

  function Transmission(m: Message, air: nat -> Fate): Outcome {
    Sending(air, 0, MAX_TRIES, 0, FragmentCount(|m.data|))
  }

  /** No fragment is received more than three times, and all are tried if sending goes through. */
  lemma {:induction false} SendingShape(air: nat -> Fate, s: nat, left: nat, copies: nat, count: nat)
    requires left + copies <= MAX_TRIES
    ensures var o := Sending(air, s, left, copies, count);
            && |o.reps| <= count && (count > 0 ==> o.reps != []) && (o.sent ==> |o.reps| == count)
            && (forall k :: 0 <= k < |o.reps| ==> o.reps[k] <= MAX_TRIES)
    decreases count, left
  {
    if count > 0 && left > 0 {
      var c := if air(s).heard then copies + 1 else copies;
      if !air(s).ok {
        SendingShape(air, s + 1, left - 1, c, count);
      } else {
        SendingShape(air, s + 1, MAX_TRIES, 0, count - 1);
      }
    }
  }

  // No call returned true for a frame that was not received.
  ghost predicate Sincere(air: nat -> Fate) {
    forall s :: air(s).ok ==> air(s).heard
  }

  /** Then every fragment is received but possibly the last one tried, and all when sending goes through. */
  lemma {:induction false} SincereShape(air: nat -> Fate, s: nat, left: nat, copies: nat, count: nat)
    requires Sincere(air)
    ensures var o := Sending(air, s, left, copies, count);
            && (forall k :: 0 <= k < |o.reps| - 1 ==> o.reps[k] >= 1)
            && (o.sent ==> forall k :: 0 <= k < |o.reps| ==> o.reps[k] >= 1)
    decreases count, left
  {
    if count > 0 && left > 0 {
      var c := if air(s).heard then copies + 1 else copies;
      if !air(s).ok {
        SincereShape(air, s + 1, left - 1, c, count);
      } else {
        SincereShape(air, s + 1, MAX_TRIES, 0, count - 1);
      }
    }
  }

  // How often the first k fragments were received.
  function HeardUpTo(reps: seq<nat>, k: nat): nat
    requires k <= |reps|
  {
    if k == 0 then 0 else HeardUpTo(reps, k - 1) + reps[k - 1]
  }

  lemma {:induction false} HeardCons(c: nat, rest: seq<nat>, k: nat)
    requires k <= |rest|
    ensures HeardUpTo([c] + rest, k + 1) == c + HeardUpTo(rest, k)
    decreases k
  {
    if k > 0 {
      HeardCons(c, rest, k - 1);
      assert ([c] + rest)[k] == rest[k - 1];
    }
  }

  // How many fragments were reported as sent.
  function Reported(o: Outcome): nat {
    if o.sent || o.reps == [] then |o.reps| else |o.reps| - 1
  }

  /**
   When the sender is backed, of the fragments reported at any time at least
   as many copies were received: one that is missing has been paid for by a
   repetition of an earlier one, or by an acknowledgement left over.
   */
  lemma {:induction false} SendingPaid(air: nat -> Fate, owed: nat, s: nat, left: nat, copies: nat, count: nat, k: nat)
    requires Backed(air, owed) && Credit(air, owed, s) >= copies && k <= Reported(Sending(air, s, left, copies, count))
    ensures Credit(air, owed, s) - copies + HeardUpTo(Sending(air, s, left, copies, count).reps, k) >= k
    decreases count, left
  {
    if k > 0 {
      var c := if air(s).heard then copies + 1 else copies;
      assert Credit(air, owed, s + 1) == Credit(air, owed, s) + Gain(air(s)) >= 0;
      if !air(s).ok {
        SendingPaid(air, owed, s + 1, left - 1, c, count, k);
      } else {
        SendingPaid(air, owed, s + 1, MAX_TRIES, 0, count - 1, k - 1);
        HeardCons(c, Sending(air, s + 1, MAX_TRIES, 0, count - 1).reps, k - 1);
      }
    }
  }

  // One turn of the loop below: the frame is built and transmitted.
  method SendOnce(m: Message, header: Header, fragmentId: nat, msgCount: nat, fate: Fate, heard: seq<Frame>,
                  ghost reps: seq<nat>, ghost copies: nat)
    returns (header': Header, heard': seq<Frame>, ghost copies': nat)
    requires Fragmented(m) && 1 <= fragmentId <= 64 && fragmentId + msgCount == FragmentCount(|m.data|)
    requires header.from == m.from && header.to == m.to && header.id == m.id
    requires |reps| == msgCount && heard == Heard(m, reps, copies)
    ensures header'.from == m.from && header'.to == m.to && header'.id == m.id
    ensures copies' == (if fate.heard then copies + 1 else copies) && heard' == Heard(m, reps, copies')
  {
    var frame;
    header', frame := NextFragment(m, header, fragmentId, msgCount);
    heard', copies' := heard, copies;
    if fate.heard {
      HeardAgain(m, reps, copies);
      heard' := heard + [frame];
      copies' := copies + 1;
    }
  }

  ghost predicate Continues(all: Outcome, reps: seq<nat>, rest: Outcome) {
    all == Outcome(reps + rest.reps, rest.sent)
  }

  lemma OneAttempt(air: nat -> Fate, s: nat, left: nat, copies: nat, count: nat)
    requires left > 0 && count > 0
    ensures var c := if air(s).heard then copies + 1 else copies;
            var rest := Sending(air, s + 1, MAX_TRIES, 0, count - 1);
            Sending(air, s, left, copies, count) ==
            if air(s).ok then Outcome([c] + rest.reps, rest.sent)
            else if left == 1 then Outcome([c], false)
            else Sending(air, s + 1, left - 1, c, count)
  {
  }

  lemma AttemptMade(air: nat -> Fate, s: nat, left: nat, c: nat, c': nat, count: nat, all: Outcome, reps: seq<nat>)
    requires left > 0 && count > 0 && Continues(all, reps, Sending(air, s, left, c, count))
    requires c' == if air(s).heard then c + 1 else c
    ensures if air(s).ok then Continues(all, reps + [c'], Sending(air, s + 1, MAX_TRIES, 0, count - 1))
            else if left == 1 then Continues(all, reps, Outcome([c'], false))
            else Continues(all, reps, Sending(air, s + 1, left - 1, c', count))
  {
    OneAttempt(air, s, left, c, count);
    Rebracket(reps, [c'], Sending(air, s + 1, MAX_TRIES, 0, count - 1).reps);
  }

  /**
   The sending loop: fragments counted down from the total, each tried up to
   three times in a row.  The loop goes by what its calls return.  Over several
   hops such a call returns true with any acknowledgement that comes in, sent
   directly or to a whole level it always does.  In a burst the loop only fills
   the radio's queue: there a fragment is heard, and its call returns true,
   when the queue takes it.
   */
  method SendFragments(m: Message, air: nat -> Fate) returns (ok: bool, fragmentId: nat, heard: seq<Frame>)
    requires Fragmented(m)
    ensures var o := Transmission(m, air);
            && |o.reps| <= FragmentCount(|m.data|) && heard == Stuttered(m, 0, o.reps)
            && (ok <==> o.sent) && (fragmentId == 0 <==> o.sent)
  {
    CountBounds(m);
    ghost var n := FragmentCount(|m.data|);
    ghost var all := Transmission(m, air);
    SendingShape(air, 0, MAX_TRIES, 0, n);
    fragmentId := (if |m.data| % MAX_FRAGMENT != 0 then 1 else 0) + |m.data| / MAX_FRAGMENT;
    assert fragmentId == n;
    var header := Header(m.from, m.to, m.id, m.kind, 0);
    var msgCount, retries, sends := 0, 0, 0;
    ghost var reps: seq<nat>, copies: nat := [], 0; // of the fragments sent, and of the current one
    ok, heard := false, [];
    while fragmentId > 0
      invariant msgCount == |reps| && fragmentId + msgCount == n <= 64
      invariant header.from == m.from && header.to == m.to && header.id == m.id
      invariant heard == Heard(m, reps, copies)
      invariant 0 <= retries < MAX_TRIES && sends >= 0
      invariant Continues(all, reps, Sending(air, sends, MAX_TRIES - retries, copies, fragmentId))
      invariant fragmentId == 0 ==> ok && copies == 0
      decreases fragmentId, MAX_TRIES - retries
    {
      var fate := air(sends);
      ghost var before := copies;
      header, heard, copies := SendOnce(m, header, fragmentId, msgCount, fate, heard, reps, copies);
      AttemptMade(air, sends, MAX_TRIES - retries, before, copies, fragmentId, all, reps);
      sends := sends + 1;
      ok := fate.ok;
      if !ok {
        retries := retries + 1;
        if retries < MAX_TRIES {
          continue;
        }
      }
      HeardNext(m, reps, copies);
      if !ok {
        return;
      }
      reps, copies := reps + [copies], 0;
      retries := 0;
      fragmentId := fragmentId - 1;
      msgCount := msgCount + 1;
    }
    AllSent(m, all, reps);
  }

  lemma AllSent(m: Message, all: Outcome, reps: seq<nat>)
    requires Fragmented(m) && |reps| == FragmentCount(|m.data|) && Continues(all, reps, Outcome([], true))
    ensures all == Outcome(reps, true) && Heard(m, reps, 0) == Stuttered(m, 0, all.reps)
  {
    assert reps + [] == reps;
    assert Stuttered(m, 0, reps) + [] == Stuttered(m, 0, reps);
  }

  // What becomes of a queued burst: how often each payload was received, up to where the radio stopped, and
  // whether it emptied its queue.
  datatype Drained = Drained(reps: seq<nat>, ok: bool)

  // The radio sends its queue in order and goes on to the next payload when one is acknowledged.
  ghost predicate Drains(o: Outcome, d: Drained) {
    var queued := if o.sent then |o.reps| else |o.reps| - 1;
    && |d.reps| <= queued && (forall k :: 0 <= k < |d.reps| - 1 ==> d.reps[k] >= 1)
    && (d.ok ==> |d.reps| == queued && forall k :: 0 <= k < |d.reps| ==> d.reps[k] >= 1)
  }

  // In a burst a fragment is queued or refused.
  ghost predicate IsBurst(air: nat -> Fate) {
    forall s :: air(s).ok <==> air(s).heard
  }

  /**
   The public `write` of a message longer than one frame, sent one by one or,
   to a neighbour, as a burst.  Whatever happens on the air, the receiver's
   radio has heard fragments in order, each some number of times in a row,
   which may be none.  The call reports success exactly when the call for
   every fragment did, and a burst was drained.
   */
  method WriteLong(m: Message, air: nat -> Fate, burst: Option<Drained>) returns (ok: bool, heard: seq<Frame>)
    requires |m.data| > MAX_FRAGMENT
    requires burst.Some? ==> IsBurst(air) && Drains(Transmission(m, air), burst.value)
    ensures |m.data| > MAX_PAYLOAD_SIZE ==> !ok && heard == []
    ensures Fragmented(m) ==>
              var o := Transmission(m, air);
              var reps := if burst.Some? then burst.value.reps else o.reps;
              && |reps| <= FragmentCount(|m.data|) && heard == Stuttered(m, 0, reps)
              && (ok <==> o.sent && (burst.Some? ==> burst.value.ok))
  {
    if |m.data| > MAX_PAYLOAD_SIZE {
      return false, [];
    }
    var fragmentId;
    ok, fragmentId, heard := SendFragments(m, air);
    if burst.Some? {
      heard := Stuttered(m, 0, burst.value.reps);
      ok := burst.value.ok;
    }
    ok := ok && fragmentId == 0;
  }

  /** A burst that reports success has been received in full. */
  lemma BurstReceived(m: Message, air: nat -> Fate, d: Drained)
    requires Fragmented(m) && IsBurst(air) && Drains(Transmission(m, air), d)
    ensures |d.reps| <= FragmentCount(|m.data|)
    ensures Transmission(m, air).sent && d.ok ==>
              |d.reps| == FragmentCount(|m.data|) && forall k :: 0 <= k < |d.reps| ==> d.reps[k] >= 1
  {
    SendingShape(air, 0, MAX_TRIES, 0, FragmentCount(|m.data|));
  }

  function Ones(k: nat): (s: seq<nat>)
    ensures |s| == k
  {
    if k == 0 then [] else [1] + Ones(k - 1)
  }

  lemma {:induction false} OnesAre(k: nat)
    ensures forall i :: 0 <= i < k ==> Ones(k)[i] == 1
  {
    if k > 0 { OnesAre(k - 1); }
  }

  // Fragments confirmed at the first attempt.
  lemma {:induction false} ConfirmedRun(air: nat -> Fate, s: nat, k: nat, count: nat)
    requires k <= count && forall i :: s <= i < s + k ==> air(i) == Fate(true, true)
    ensures var rest := Sending(air, s + k, MAX_TRIES, 0, count - k);
            Sending(air, s, MAX_TRIES, 0, count) == Outcome(Ones(k) + rest.reps, rest.sent)
    decreases k
  {
    var rest := Sending(air, s + k, MAX_TRIES, 0, count - k);
    if k > 0 {
      OneAttempt(air, s, MAX_TRIES, 0, count);
      ConfirmedRun(air, s + 1, k - 1, count - 1);
      Rebracket([1], Ones(k - 1), rest.reps);
    } else {
      assert Ones(0) + rest.reps == rest.reps;
    }
  }
}
