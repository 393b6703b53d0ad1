/** Reassembly on the microcontroller: one slot, whoever the sender. */
module Stm32Assembly {
  import opened Bits
  import opened Basics
  import opened Fates
  import opened Fragments
  import opened FrameQueue

  // The message being put together: the header of its first fragment, counting down, and the bytes so far.
  datatype Slot = Slot(header: Header, bytes: seq<byte>)

  datatype Outcome = Dropped | Stored | Assembled(message: Frame)

  datatype Step = Step(slot: Slot, outcome: Outcome)

  // A frame that is no fragment leaves the slot alone.
  function Append(slot: Slot, f: Frame): Step {
    var h := slot.header;
    if !IsFragment(f) then Step(slot, Dropped)
    else if f.header.kind == FIRST_FRAGMENT then
      var left: byte := if f.header.reserved == 0 then 255 else f.header.reserved - 1;
      Step(Slot(f.header.(reserved := left), f.payload), Stored)
    else if |slot.bytes| + |f.payload| > MAX_PAYLOAD_SIZE then
      Step(slot.(header := h.(reserved := 0)), Dropped)
    else if
      h.reserved == 0 || (f.header.kind != LAST_FRAGMENT && f.header.reserved != h.reserved) || h.id != f.header.id
    then
      Step(slot, Dropped)
    else if f.header.kind != LAST_FRAGMENT then
      Step(Slot(h.(reserved := h.reserved - 1), slot.bytes + f.payload), Stored)
    else
      var done := Slot(h.(reserved := 0, kind := f.header.reserved), slot.bytes + f.payload);
      Step(done, Assembled(Frame(done.header, done.bytes)))
  }

  class Receiver {
    var header: Header
    const messageBuffer: array<byte>
    var messageSize: nat
    const queue: Queue

    ghost predicate Valid()
      reads this, messageBuffer, queue, queue.buffer
    {
      && messageBuffer.Length == MAX_PAYLOAD_SIZE && messageSize <= MAX_PAYLOAD_SIZE
      && messageBuffer != queue.buffer && queue.Valid()
    }

    ghost function Contents(): Slot
      reads this, messageBuffer
      requires messageSize <= messageBuffer.Length
    {
      Slot(header, messageBuffer[..messageSize])
    }

    constructor ()
      ensures Valid() && queue.frames == [] && fresh(queue) && fresh(queue.buffer) && fresh(messageBuffer)
    {
      header := Header(0, 0, 0, 0, 0);
      messageBuffer := new byte[MAX_PAYLOAD_SIZE](i => 0);
      messageSize := 0;
      queue := new Queue();
    }

    /** One fragment into the slot, inside the buffer whatever has been received before. */
    method AppendFragment(f: Frame) returns (outcome: Outcome)
      requires Valid() && IsFragment(f) && |f.payload| <= MAX_FRAGMENT
      modifies this, messageBuffer
      ensures Valid() && Step(Contents(), outcome) == Append(old(Contents()), f)
    {
      var isLast := f.header.kind == LAST_FRAGMENT;
      if f.header.kind == FIRST_FRAGMENT {
        header := f.header;
        CopyIn(messageBuffer, 0, f.payload);
        messageSize := |f.payload|;
        header := header.(reserved := if header.reserved == 0 then 255 else header.reserved - 1);
        return Stored;
      }
      if messageSize + |f.payload| > MAX_PAYLOAD_SIZE {
        header := header.(reserved := 0);
        return Dropped;
      }
      if header.reserved == 0 || (!isLast && f.header.reserved != header.reserved) || header.id != f.header.id {
        return Dropped;
      }
      ghost var before := messageBuffer[..messageSize];
      CopyIn(messageBuffer, messageSize, f.payload);
      messageSize := messageSize + |f.payload|;
      assert messageBuffer[..messageSize] == before + f.payload;
      if !isLast {
        header := header.(reserved := header.reserved - 1);
        return Stored;
      }
      header := header.(reserved := 0, kind := f.header.reserved);
      return Assembled(Frame(header, messageBuffer[..messageSize]));
    }

    /**
     `enqueue` for fragments: 1 when the fragment was used, 2 when it completed
     an external message, which stays in the slot for the caller; a completed
     user message goes to the queue if there is room.
     */
    method EnqueueFragment(f: Frame) returns (result: int)
      requires Valid() && IsFragment(f) && |f.payload| <= MAX_FRAGMENT
      modifies this, messageBuffer, queue, queue.buffer
      ensures Valid()
      ensures var step := Append(old(Contents()), f);
              && Contents() == step.slot
              && (!step.outcome.Assembled? ==>
                    queue.frames == old(queue.frames) && result == (if step.outcome == Stored then 1 else 0))
              && (step.outcome.Assembled? && step.outcome.message.header.kind == EXTERNAL_DATA_TYPE ==>
                    queue.frames == old(queue.frames) && result == 2)
              && (step.outcome.Assembled? && step.outcome.message.header.kind != EXTERNAL_DATA_TYPE ==>
                    var room := old(queue.used) + |step.outcome.message.payload| <= MAX_PAYLOAD_SIZE;
                    && result == (if room then 1 else 0)
                    && queue.frames == if room then old(queue.frames) + [step.outcome.message] else old(queue.frames))
    {
      var outcome := AppendFragment(f);
      match outcome
      case Dropped => return 0;
      case Stored => return 1;
      case Assembled(message) =>
        if header.kind == EXTERNAL_DATA_TYPE {
          return 2;
        }
        var ok := queue.EnqueueAssembled(message);
        return if ok then 1 else 0;
    }
  }

  // The slot after a sequence of fragments, and the messages completed on the way.
  datatype History = History(slot: Slot, completed: seq<Frame>)

  function Feed(slot: Slot, frames: seq<Frame>): History
    decreases |frames|
  {
    if frames == [] then History(slot, [])
    else
      var step := Append(slot, frames[0]);
      var rest := Feed(step.slot, frames[1..]);
      History(rest.slot, (if step.outcome.Assembled? then [step.outcome.message] else []) + rest.completed)
  }

  lemma {:induction false} FeedAppend(slot: Slot, a: seq<Frame>, b: seq<Frame>)
    ensures Feed(slot, a + b).slot == Feed(Feed(slot, a).slot, b).slot
    ensures Feed(slot, a + b).completed == Feed(slot, a).completed + Feed(Feed(slot, a).slot, b).completed
    decreases |a|
  {
    if a == [] {
      assert a + b == b;
    } else {
      var step := Append(slot, a[0]);
      AppendHead(a, b);
      FeedAppend(step.slot, a[1..], b);
      var first := Feed(step.slot, a[1..]);
      var now := if step.outcome.Assembled? then [step.outcome.message] else [];
      Rebracket(now, first.completed, Feed(first.slot, b).completed);
    }
  }

  // A fragment that changes nothing, however often it comes.
  lemma {:induction false} Ignored(slot: Slot, f: Frame, n: nat)
    requires Append(slot, f).slot == slot && !Append(slot, f).outcome.Assembled?
    ensures Feed(slot, Copies(f, n)) == History(slot, [])
  {
    if n > 0 { Ignored(slot, f, n - 1); }
  }

  // The slot when fragments 0 .. k have been used.
  ghost function Progress(m: Message, k: nat): Slot
    requires Fragmented(m) && k < FragmentCount(|m.data|) - 1
  {
    CountBounds(m);
    ChunkExtends(m.data, k);
    Slot(Header(m.from, m.to, m.id, FIRST_FRAGMENT, FragmentCount(|m.data|) - 1 - k), m.data[..(k + 1) * MAX_FRAGMENT])
  }

  // The slot given up: nothing will be accepted until the next first fragment.
  ghost function GivenUp(m: Message, k: nat): Slot
    requires Fragmented(m) && k < FragmentCount(|m.data|) - 1
  {
    Progress(m, k).(header := Progress(m, k).header.(reserved := 0))
  }

  lemma FirstCopies(slot: Slot, m: Message, n: nat)
    requires Fragmented(m) && n >= 1
    ensures 1 < FragmentCount(|m.data|)
    ensures Feed(slot, Copies(Fragment(m, 0), n)) == History(Progress(m, 0), [])
    decreases n
  {
    CountBounds(m);
    ChunkExtends(m.data, 0);
    assert m.data[..0] + Chunk(m.data, 0) == Chunk(m.data, 0);
    assert Append(slot, Fragment(m, 0)).slot == Progress(m, 0);
    if n > 1 { FirstCopies(Progress(m, 0), m, n - 1); }
  }

  // A repeated middle fragment is dropped; but when it no longer fits the slot is given up.
  lemma MiddleCopies(m: Message, k: nat, n: nat)
    requires Fragmented(m) && 1 <= k < FragmentCount(|m.data|) - 1 && n >= 1
    ensures Feed(Progress(m, k - 1), Copies(Fragment(m, k), n)) ==
            History(if n >= 2 && k == 62 then GivenUp(m, k) else Progress(m, k), [])
  {
    CountBounds(m);
    ChunkExtends(m.data, k);
    var f := Fragment(m, k);
    assert Append(Progress(m, k - 1), f) == Step(Progress(m, k), Stored);
    if k == 62 {
      if n >= 2 {
        assert Append(Progress(m, k), f) == Step(GivenUp(m, k), Dropped);
        Ignored(GivenUp(m, k), f, n - 2);
      }
    } else {
      Ignored(Progress(m, k), f, n - 1);
    }
  }

  // The message as the application gets it.
  ghost function Received(m: Message): Frame {
    Frame(Header(m.from, m.to, m.id, m.kind, 0), m.data)
  }

  // What the last fragment makes of the first g fragments: the message, if there are no others.
  ghost function Holed(m: Message, g: nat): Frame
    requires Fragmented(m) && 1 <= g < FragmentCount(|m.data|)
  {
    CountBounds(m);
    ChunkExtends(m.data, g);
    Frame(Received(m).header, m.data[..g * MAX_FRAGMENT] + Chunk(m.data, FragmentCount(|m.data|) - 1))
  }

  lemma HoledShorter(m: Message, g: nat)
    requires Fragmented(m) && 1 <= g < FragmentCount(|m.data|)
    ensures Holed(m, g) == Received(m) <==> g == FragmentCount(|m.data|) - 1
  {
    CountBounds(m);
    var last := FragmentCount(|m.data|) - 1;
    ChunkExtends(m.data, g);
    ChunkExtends(m.data, last);
    assert g < last ==> |Holed(m, g).payload| < |m.data|;
  }

  // The last fragment completes what there is, once.
  lemma LastCopies(m: Message, g: nat, n: nat)
    requires Fragmented(m) && 1 <= g < FragmentCount(|m.data|) && n >= 1
    ensures var last := FragmentCount(|m.data|) - 1;
            && Feed(Progress(m, g - 1), Copies(Fragment(m, last), n)).completed == [Holed(m, g)]
            && Feed(GivenUp(m, g - 1), Copies(Fragment(m, last), n)).completed == []
  {
    CountBounds(m);
    var last := FragmentCount(|m.data|) - 1;
    ChunkExtends(m.data, last);
    var f := Fragment(m, last);
    var done := Slot(Received(m).header, Holed(m, g).payload);
    assert Append(Progress(m, g - 1), f) == Step(done, Assembled(Holed(m, g)));
    Ignored(done, f, n - 1);
    Ignored(GivenUp(m, g - 1), f, n);
  }

  // ----- Fragments in order, each any number of times

  // All fragments from k on have been tried, and the last one was heard.
  ghost predicate Ended(n: nat, k: nat, reps: seq<nat>) {
    k + |reps| == n && reps != [] && reps[|reps| - 1] >= 1
  }

  // The first of the fragments from k on that has not been heard, or else the last one.
  function Gap(k: nat, reps: seq<nat>): (g: nat)
    requires reps != []
    ensures k <= g < k + |reps|
    decreases |reps|
  {
    if |reps| == 1 || reps[0] == 0 then k else Gap(k + 1, reps[1..])
  }

  // Fragment 62 is among these, not the last one, and repeated.
  ghost predicate Repeated(k: nat, reps: seq<nat>) {
    k <= 62 < k + |reps| - 1 && reps[62 - k] > 1
  }

  // What the fragments from k on complete when those before have been used.
  ghost function Rest(m: Message, k: nat, reps: seq<nat>): seq<Frame>
    requires Fragmented(m) && 1 <= k && k + |reps| <= FragmentCount(|m.data|)
  {
    if !Ended(FragmentCount(|m.data|), k, reps) || (Gap(k, reps) == 63 && Repeated(k, reps)) then []
    else [Holed(m, Gap(k, reps))]
  }

  lemma RestTail(m: Message, k: nat, reps: seq<nat>, rest: seq<nat>)
    requires Fragmented(m) && 1 <= k < FragmentCount(|m.data|) - 1 && k + |reps| <= FragmentCount(|m.data|)
    requires reps != [] && rest == reps[1..]
    ensures Ended(FragmentCount(|m.data|), k, reps) <==> Ended(FragmentCount(|m.data|), k + 1, rest)
    ensures reps[0] == 0 ==>
              Rest(m, k, reps) == if Ended(FragmentCount(|m.data|), k + 1, rest) then [Holed(m, k)] else []
    ensures reps[0] >= 1 ==> Rest(m, k, reps) == if k == 62 && reps[0] > 1 then [] else Rest(m, k + 1, rest)
  {
    CountBounds(m);
    EndedTail(FragmentCount(|m.data|), k, reps, rest);
    assert k + 1 <= 62 < k + |reps| - 1 ==> rest[62 - (k + 1)] == reps[62 - k];
  }

  lemma EndedTail(n: nat, k: nat, reps: seq<nat>, rest: seq<nat>)
    requires reps != [] && rest == reps[1..] && k + 1 < n
    ensures Ended(n, k, reps) <==> Ended(n, k + 1, rest)
  {
    assert |reps| > 1 ==> rest[|rest| - 1] == reps[|reps| - 1];
  }

  // Later fragments change nothing once one is missing.
  lemma {:induction false} Skipped(m: Message, g: nat, k: nat, reps: seq<nat>)
    requires Fragmented(m) && 1 <= g < k && k + |reps| < FragmentCount(|m.data|)
    ensures Feed(Progress(m, g - 1), Stuttered(m, k, reps)) == History(Progress(m, g - 1), [])
    decreases |reps|
  {
    if reps != [] {
      SkippedCopies(m, g, k, reps[0]);
      Skipped(m, g, k + 1, reps[1..]);
      FeedAppend(Progress(m, g - 1), Copies(Fragment(m, k), reps[0]), Stuttered(m, k + 1, reps[1..]));
    }
  }

  lemma SkippedCopies(m: Message, g: nat, k: nat, n: nat)
    requires Fragmented(m) && 1 <= g < k < FragmentCount(|m.data|) - 1
    ensures Feed(Progress(m, g - 1), Copies(Fragment(m, k), n)) == History(Progress(m, g - 1), [])
  {
    CountBounds(m);
    Ignored(Progress(m, g - 1), Fragment(m, k), n);
  }

  // Only the last fragment counts then.
  lemma AfterGap(m: Message, g: nat, k: nat, reps: seq<nat>)
    requires Fragmented(m) && 1 <= g < k && k + |reps| <= FragmentCount(|m.data|)
    ensures Feed(Progress(m, g - 1), Stuttered(m, k, reps)).completed ==
            if Ended(FragmentCount(|m.data|), k, reps) then [Holed(m, g)] else []
  {
    if k + |reps| < FragmentCount(|m.data|) {
      Skipped(m, g, k, reps);
    } else if reps == [] {
      NothingHeard(Progress(m, g - 1), m, k, reps);
    } else {
      LastAfterGap(m, g, k, reps[..|reps| - 1], reps[|reps| - 1], reps);
    }
  }

  lemma LastAfterGap(m: Message, g: nat, k: nat, front: seq<nat>, c: nat, reps: seq<nat>)
    requires Fragmented(m) && 1 <= g < k && k + |front| + 1 == FragmentCount(|m.data|) && reps == front + [c]
    ensures Feed(Progress(m, g - 1), Stuttered(m, k, reps)).completed == if c >= 1 then [Holed(m, g)] else []
  {
    var last := Copies(Fragment(m, k + |front|), c);
    Skipped(m, g, k, front);
    StutteredSnoc(m, k, front, c);
    FeedAppend(Progress(m, g - 1), Stuttered(m, k, front), last);
    if c >= 1 { LastCopies(m, g, c); }
  }

  lemma NothingHeard(slot: Slot, m: Message, k: nat, reps: seq<nat>)
    requires Fragmented(m) && k + |reps| <= FragmentCount(|m.data|) && (reps == [] || reps == [0])
    ensures Feed(slot, Stuttered(m, k, reps)).completed == []
  {
    assert Stuttered(m, k, reps) == [];
  }

  // The end of it: only the last fragment is still to come.
  lemma LastStuttered(m: Message, g: nat, reps: seq<nat>)
    requires Fragmented(m) && |reps| == 1 && 1 <= g < FragmentCount(|m.data|)
    ensures var last := FragmentCount(|m.data|) - 1;
            && Feed(Progress(m, g - 1), Stuttered(m, last, reps)).completed ==
               (if reps[0] >= 1 then [Holed(m, g)] else [])
            && Feed(GivenUp(m, g - 1), Stuttered(m, last, reps)).completed == []
  {
    var last := FragmentCount(|m.data|) - 1;
    if reps[0] >= 1 {
      OnlyCopies(m, last, reps);
      LastCopies(m, g, reps[0]);
    } else {
      NothingHeard(Progress(m, g - 1), m, last, reps);
      NothingHeard(GivenUp(m, g - 1), m, last, reps);
    }
  }

  lemma OnlyCopies(m: Message, k: nat, reps: seq<nat>)
    requires Fragmented(m) && |reps| == 1 && k < FragmentCount(|m.data|)
    ensures Stuttered(m, k, reps) == Copies(Fragment(m, k), reps[0])
  {
    assert Stuttered(m, k + 1, reps[1..]) == [];
  }

  // Fragment 62 was repeated, and only the last one is left.
  lemma GivenUpStuttered(m: Message, reps: seq<nat>)
    requires Fragmented(m) && FragmentCount(|m.data|) == 64 && |reps| <= 1
    ensures Feed(GivenUp(m, 62), Stuttered(m, 63, reps)).completed == []
  {
    if reps == [] {
      NothingHeard(GivenUp(m, 62), m, 63, reps);
    } else {
      LastStuttered(m, 63, reps);
    }
  }

  // The step from fragment k to the ones after it.
  lemma FeedStep(m: Message, k: nat, reps: seq<nat>, rest: seq<nat>, result: seq<Frame>)
    requires Fragmented(m) && 1 <= k < FragmentCount(|m.data|) - 1 && k + |reps| <= FragmentCount(|m.data|)
    requires reps != [] && reps[0] >= 1 && rest == reps[1..]
    requires var next := if reps[0] >= 2 && k == 62 then GivenUp(m, k) else Progress(m, k);
             Feed(next, Stuttered(m, k + 1, rest)).completed == result
    ensures Feed(Progress(m, k - 1), Stuttered(m, k, reps)).completed == result
  {
    MiddleCopies(m, k, reps[0]);
    FeedAppend(Progress(m, k - 1), Copies(Fragment(m, k), reps[0]), Stuttered(m, k + 1, rest));
  }

  // The step over fragment k, which was not heard.
  lemma MissedStep(m: Message, k: nat, reps: seq<nat>, rest: seq<nat>)
    requires Fragmented(m) && 1 <= k && k + |reps| <= FragmentCount(|m.data|)
    requires reps != [] && reps[0] == 0 && rest == reps[1..]
    ensures Stuttered(m, k, reps) == Stuttered(m, k + 1, rest)
  {
    assert [] + Stuttered(m, k + 1, rest) == Stuttered(m, k + 1, rest);
  }

  lemma FeedMissed(m: Message, k: nat, reps: seq<nat>, rest: seq<nat>)
    requires Fragmented(m) && 1 <= k < FragmentCount(|m.data|) - 1 && k + |reps| <= FragmentCount(|m.data|)
    requires reps != [] && reps[0] == 0 && rest == reps[1..]
    ensures Feed(Progress(m, k - 1), Stuttered(m, k, reps)).completed == Rest(m, k, reps)
  {
    MissedStep(m, k, reps, rest);
    AfterGap(m, k, k + 1, rest);
    RestTail(m, k, reps, rest);
  }

  lemma FeedHeard(m: Message, k: nat, reps: seq<nat>, rest: seq<nat>)
    requires Fragmented(m) && 1 <= k < FragmentCount(|m.data|) - 1 && k + |reps| <= FragmentCount(|m.data|)
    requires reps != [] && reps[0] >= 1 && rest == reps[1..]
    requires Feed(Progress(m, k), Stuttered(m, k + 1, rest)).completed == Rest(m, k + 1, rest)
    ensures Feed(Progress(m, k - 1), Stuttered(m, k, reps)).completed == Rest(m, k, reps)
  {
    CountBounds(m);
    RestTail(m, k, reps, rest);
    if k == 62 && reps[0] > 1 { GivenUpStuttered(m, rest); }
    FeedStep(m, k, reps, rest, Rest(m, k, reps));
  }

  lemma FeedLast(m: Message, k: nat, reps: seq<nat>)
    requires Fragmented(m) && 1 <= k == FragmentCount(|m.data|) - 1 && |reps| == 1
    ensures Feed(Progress(m, k - 1), Stuttered(m, k, reps)).completed == Rest(m, k, reps)
  {
    LastStuttered(m, k, reps);
  }

  lemma {:induction false} FeedFrom(m: Message, k: nat, reps: seq<nat>)
    requires Fragmented(m) && 1 <= k < FragmentCount(|m.data|) && k + |reps| <= FragmentCount(|m.data|)
    ensures Feed(Progress(m, k - 1), Stuttered(m, k, reps)).completed == Rest(m, k, reps)
    decreases |reps|
  {
    if reps == [] {
      NothingHeard(Progress(m, k - 1), m, k, reps);
    } else if k == FragmentCount(|m.data|) - 1 {
      FeedLast(m, k, reps);
    } else if reps[0] == 0 {
      FeedMissed(m, k, reps, reps[1..]);
    } else {
      FeedFrom(m, k + 1, reps[1..]);
      FeedHeard(m, k, reps, reps[1..]);
    }
  }

  // No message with this id is being put together.
  ghost predicate Closed(slot: Slot, m: Message) {
    slot.header.reserved == 0 || slot.header.id != m.id
  }

  lemma {:induction false} StaysClosed(slot: Slot, m: Message, frames: seq<Frame>)
    requires Closed(slot, m)
    requires forall f :: f in frames ==> IsFragment(f) && f.header.kind != FIRST_FRAGMENT && f.header.id == m.id
    ensures Feed(slot, frames).completed == []
    decreases |frames|
  {
    if frames != [] {
      assert frames[0] in frames && forall f :: f in frames[1..] ==> f in frames;
      StaysClosed(Append(slot, frames[0]).slot, m, frames[1..]);
    }
  }

  lemma {:induction false} NotFirst(m: Message, k: nat, reps: seq<nat>)
    requires Fragmented(m) && 1 <= k && k + |reps| <= FragmentCount(|m.data|)
    ensures forall f :: f in Stuttered(m, k, reps) ==>
              IsFragment(f) && f.header.kind != FIRST_FRAGMENT && f.header.id == m.id
    decreases |reps|
  {
    if reps != [] {
      NotFirst(m, k + 1, reps[1..]);
      assert forall f :: f in Copies(Fragment(m, k), reps[0]) ==> f == Fragment(m, k);
    }
  }

  // What a beginning of the fragments completes, each heard so many times.
  ghost function Completed(m: Message, reps: seq<nat>): seq<Frame>
    requires Fragmented(m) && |reps| <= FragmentCount(|m.data|)
  {
    if reps == [] || reps[0] == 0 then [] else Rest(m, 1, reps[1..])
  }

  /**
   Whatever part of the fragments is heard, in order and each any number of
   times: when the first and the last one are, what there is before the first
   gap is completed together with the last one, and otherwise nothing; except
   that a message of more than 1512 bytes without a gap is lost when its last
   but one fragment comes twice.
   */
  lemma ReassembledWithGaps(slot: Slot, m: Message, reps: seq<nat>)
    requires Fragmented(m) && |reps| <= FragmentCount(|m.data|)
    requires reps == [] || reps[0] >= 1 || Closed(slot, m)
    ensures Feed(slot, Stuttered(m, 0, reps)).completed == Completed(m, reps)
  {
    CountBounds(m);
    if reps == [] {
      NothingHeard(slot, m, 0, reps);
    } else if reps[0] == 0 {
      NotFirst(m, 1, reps[1..]);
      assert [] + Stuttered(m, 1, reps[1..]) == Stuttered(m, 1, reps[1..]);
      StaysClosed(slot, m, Stuttered(m, 1, reps[1..]));
    } else {
      FirstCopies(slot, m, reps[0]);
      FeedAppend(slot, Copies(Fragment(m, 0), reps[0]), Stuttered(m, 1, reps[1..]));
      FeedFrom(m, 1, reps[1..]);
    }
  }

  // Which gap it is.
  lemma {:induction false} GapIs(k: nat, reps: seq<nat>)
    requires reps != []
    ensures forall i :: 0 <= i < Gap(k, reps) - k ==> reps[i] >= 1
    ensures Gap(k, reps) < k + |reps| - 1 ==> reps[Gap(k, reps) - k] == 0
    decreases |reps|
  {
    if |reps| > 1 && reps[0] > 0 {
      var rest := reps[1..];
      GapIs(k + 1, rest);
      assert forall i :: 1 <= i < |reps| ==> reps[i] == rest[i - 1];
    }
  }

  lemma {:induction false} NoGap(k: nat, reps: seq<nat>)
    requires reps != [] && forall i :: 0 <= i < |reps| ==> reps[i] >= 1
    ensures Gap(k, reps) == k + |reps| - 1
    decreases |reps|
  {
    if |reps| > 1 { NoGap(k + 1, reps[1..]); }
  }

  // The first and the last fragment were heard, and one between them was not.
  ghost predicate HasHole(n: nat, reps: seq<nat>) {
    |reps| == n >= 2 && reps[0] >= 1 && reps[n - 1] >= 1 && exists k :: 1 <= k < n - 1 && reps[k] == 0
  }

  /** Something that is not the message is completed exactly if its first and last fragment were heard but not all. */
  lemma HoleExactly(m: Message, reps: seq<nat>)
    requires Fragmented(m) && |reps| <= FragmentCount(|m.data|)
    ensures Completed(m, reps) !in {[], [Received(m)]} <==> HasHole(FragmentCount(|m.data|), reps)
  {
    CountBounds(m);
    var n := FragmentCount(|m.data|);
    if |reps| == n && reps[0] >= 1 && reps[n - 1] >= 1 {
      var rest := reps[1..];
      assert forall i :: 0 <= i < |rest| ==> rest[i] == reps[i + 1];
      GapIs(1, rest);
      HoledShorter(m, Gap(1, rest));
      if k :| 1 <= k < n - 1 && reps[k] == 0 { assert rest[k - 1] == 0; }
    }
  }

  // What makes the receiver lose a message none of whose fragments is lost.
  ghost predicate Survives(m: Message, reps: seq<nat>)
    requires Fragmented(m) && |reps| == FragmentCount(|m.data|)
  {
    CountBounds(m);
    |m.data| <= 1512 || reps[62] == 1
  }

  lemma CompletedWithoutGap(m: Message, reps: seq<nat>)
    requires Fragmented(m) && |reps| == FragmentCount(|m.data|) && forall k :: 0 <= k < |reps| ==> reps[k] >= 1
    ensures Completed(m, reps) == if Survives(m, reps) then [Received(m)] else []
  {
    CountBounds(m);
    var n, rest := |reps|, reps[1..];
    NoGap(1, rest);
    assert rest[n - 2] == reps[n - 1] && (n == 64 ==> rest[61] == reps[62]);
    HoledShorter(m, n - 1);
  }

  /**
   Round trip: when every fragment arrives in order, one or more times in a row,
   the receiver, whatever was in its slot, completes the message exactly once
   with the sender's bytes, length and type; except that a message of more than
   1512 bytes is lost when its last but one fragment comes twice.
   */
  lemma FragmentRoundTrip(slot: Slot, m: Message, reps: seq<nat>)
    requires Fragmented(m) && |reps| == FragmentCount(|m.data|)
    requires forall k :: 0 <= k < |reps| ==> reps[k] >= 1
    ensures Feed(slot, Stuttered(m, 0, reps)).completed == if Survives(m, reps) then [Received(m)] else []
  {
    CountBounds(m);
    ReassembledWithGaps(slot, m, reps);
    CompletedWithoutGap(m, reps);
  }

  /** From a beginning of the fragments without a gap the message is completed once or nothing is; this says when. */
  lemma Reassembled(slot: Slot, m: Message, reps: seq<nat>)
    requires Fragmented(m) && |reps| <= FragmentCount(|m.data|)
    requires forall k :: 0 <= k < |reps| - 1 ==> reps[k] >= 1
    ensures Feed(slot, Stuttered(m, 0, reps)).completed ==
            if |reps| == FragmentCount(|m.data|) && reps[|reps| - 1] >= 1 && Survives(m, reps) then [Received(m)]
            else []
  {
    CountBounds(m);
    if reps == [] || reps == [0] {
      NothingHeard(slot, m, 0, reps);
    } else if |reps| == FragmentCount(|m.data|) && reps[|reps| - 1] >= 1 {
      FragmentRoundTrip(slot, m, reps);
    } else {
      ReassembledWithGaps(slot, m, reps);
      assert |reps| > 1 ==> reps[1..][|reps| - 2] == reps[|reps| - 1];
    }
  }

  /**
   Sender, channel and receiver together, whatever becomes of the single calls,
   as long as each that returned true has an acknowledgement to show for it,
   its own or an earlier one: what is completed is what `Completed` says, and
   with no acknowledgement outstanding at first the slot does not matter.
   */
  lemma SentAndReassembled(slot: Slot, m: Message, air: nat -> Fate, owed: nat)
    requires Fragmented(m) && Backed(air, owed) && (owed == 0 || Closed(slot, m))
    ensures var o := Transmission(m, air);
            && |o.reps| <= FragmentCount(|m.data|) && (o.sent ==> |o.reps| == FragmentCount(|m.data|))
            && Feed(slot, Stuttered(m, 0, o.reps)).completed == Completed(m, o.reps)
  {
    CountBounds(m);
    var o := Transmission(m, air);
    SendingShape(air, 0, MAX_TRIES, 0, FragmentCount(|m.data|));
    if o.reps == [0] {
      NothingHeard(slot, m, 0, o.reps);
    } else {
      if |o.reps| > 1 { SendingPaid(air, owed, 0, MAX_TRIES, 0, FragmentCount(|m.data|), 1); }
      ReassembledWithGaps(slot, m, o.reps);
    }
  }

  /** The same for a burst; one that reports success is completed unless the 63rd fragment is repeated. */
  lemma BurstReassembled(slot: Slot, m: Message, air: nat -> Fate, d: Drained)
    requires Fragmented(m) && IsBurst(air) && Drains(Transmission(m, air), d)
    ensures |d.reps| <= FragmentCount(|m.data|)
    ensures Feed(slot, Stuttered(m, 0, d.reps)).completed in {[], [Received(m)]}
    ensures Transmission(m, air).sent && d.ok ==>
              && |d.reps| == FragmentCount(|m.data|)
              && (Feed(slot, Stuttered(m, 0, d.reps)).completed == [Received(m)] <==> Survives(m, d.reps))
  {
    BurstReceived(m, air, d);
    Reassembled(slot, m, d.reps);
  }

  /** One acknowledgement is lost and nothing else: the sender reports success, and nothing is completed. */
  lemma ReportedButLost(slot: Slot, m: Message, air: nat -> Fate)
    requires Fragmented(m) && |m.data| > 1512
    requires forall s :: air(s) == Fate(true, s != 62)
    ensures var o := Transmission(m, air);
            && o.sent && |o.reps| == FragmentCount(|m.data|)
            && Feed(slot, Stuttered(m, 0, o.reps)).completed == []
  {
    CountBounds(m);
    ConfirmedRun(air, 0, 62, 64);
    LastTwo(air);
    assert Transmission(m, air) == Fragments.Outcome(Ones(62) + [2, 1], true);
    NotSurviving(m, Ones(62) + [2, 1]);
    FragmentRoundTrip(slot, m, Ones(62) + [2, 1]);
  }

  lemma NotSurviving(m: Message, reps: seq<nat>)
    requires Fragmented(m) && |m.data| > 1512 && reps == Ones(62) + [2, 1]
    ensures |reps| == FragmentCount(|m.data|) && !Survives(m, reps) && forall k :: 0 <= k < |reps| ==> reps[k] >= 1
  {
    OnesAre(62);
  }

  lemma LastTwo(air: nat -> Fate)
    requires air(62) == Fate(true, false) && air(63) == air(64) == Fate(true, true)
    ensures Sending(air, 62, MAX_TRIES, 0, 2) == Fragments.Outcome([2, 1], true)
  {
    OneAttempt(air, 62, MAX_TRIES, 0, 2);
    OneAttempt(air, 63, 2, 1, 2);
    OneAttempt(air, 64, MAX_TRIES, 0, 1);
    assert Sending(air, 65, MAX_TRIES, 0, 0) == Fragments.Outcome([], true);
  }

  /** The last fragment is taken at any point; what it completes is the message exactly when nothing is missing. */
  lemma LastTakenAnytime(m: Message, k: nat)
    requires Fragmented(m) && k < FragmentCount(|m.data|) - 1
    ensures var outcome := Append(Progress(m, k), Fragment(m, FragmentCount(|m.data|) - 1)).outcome;
            outcome.Assembled? && (outcome.message == Received(m) <==> k == FragmentCount(|m.data|) - 2)
  {
    CountBounds(m);
    var last := FragmentCount(|m.data|) - 1;
    ChunkExtends(m.data, k);
    ChunkExtends(m.data, last);
  }
}
