/** Reassembly on Linux: one partial message per sender. */
module LinuxAssembly {
  import opened Bits
  import opened Basics
  import opened Fragments

  // A partial message: the header of the last fragment used, and the bytes so far.
  type Cache = map<uint16, Frame>

  datatype State = State(cache: Cache, frameQueue: seq<Frame>, externalQueue: seq<Frame>)

  datatype Appended = Appended(cache: Cache, used: bool)

  function AppendFragment(cache: Cache, f: Frame): (a: Appended)
    requires IsFragment(f)
    ensures a.used && f.header.kind == LAST_FRAGMENT ==> f.header.from in a.cache
  {
    var from := f.header.from;
    if f.header.kind == FIRST_FRAGMENT then
      if from in cache && cache[from].header.id == f.header.id then Appended(cache, false)
      else Appended(cache[from := f], true)
    else if from !in cache then Appended(cache, false)
    else
      var p := cache[from];
      if |p.payload| + |f.payload| > MAX_PAYLOAD_SIZE then Appended(cache, false)
      else if f.header.kind == MORE_FRAGMENTS then
        if p.header.reserved - 1 == f.header.reserved && p.header.id == f.header.id then
          Appended(cache[from := Frame(f.header, p.payload + f.payload)], true)
        else Appended(cache, false)
      else if p.header.reserved - 1 != 1 || p.header.id != f.header.id then Appended(cache, false)
      else
        var header := f.header.(kind := f.header.reserved, reserved := 1);
        Appended(cache[from := Frame(header, p.payload + f.payload)], true)
  }

  function Push(s: State, f: Frame): State {
    if f.header.kind == EXTERNAL_DATA_TYPE then s.(externalQueue := s.externalQueue + [f])
    else s.(frameQueue := s.frameQueue + [f])
  }

  function Enqueue(self: uint16, s: State, f: Frame): State {
    if f.header.from == self then
      if !IsFragment(f) && f.header.id > 0 then s.(frameQueue := s.frameQueue + [f]) else s
    else if IsFragment(f) then
      var a := AppendFragment(s.cache, f);
      if a.used && f.header.kind == LAST_FRAGMENT then
        var done := a.cache[f.header.from];
        var s' := if done.header.id > 0 && |done.payload| > 0 then Push(s, done) else s;
        s'.(cache := a.cache - {f.header.from})
      else s.(cache := a.cache)
    else Push(s, f)
  }

  class Receiver {
    const nodeAddress: uint16
    var frameFragmentsCache: Cache
    var frameQueue: seq<Frame>
    var externalQueue: seq<Frame>

    constructor (address: uint16)
      ensures nodeAddress == address && Contents() == State(map[], [], [])
    {
      nodeAddress := address;
      frameFragmentsCache := map[];
      frameQueue, externalQueue := [], [];
    }

    ghost function Contents(): State
      reads this
    {
      State(frameFragmentsCache, frameQueue, externalQueue)
    }

    /** Uses a fragment if it is the next one its sender owes us. */
    method Append(f: Frame) returns (used: bool)
      requires IsFragment(f)
      modifies this`frameFragmentsCache
      ensures Appended(frameFragmentsCache, used) == AppendFragment(old(frameFragmentsCache), f)
    {
      var from := f.header.from;
      if f.header.kind == FIRST_FRAGMENT {
        if from in frameFragmentsCache {
          if frameFragmentsCache[from].header.id == f.header.id {
            return false;
          }
        }
        frameFragmentsCache := frameFragmentsCache[from := f];
        return true;
      }
      if from !in frameFragmentsCache {
        return false;
      }
      var p := frameFragmentsCache[from];
      if |p.payload| + |f.payload| > MAX_PAYLOAD_SIZE {
        return false;
      }
      if f.header.kind == MORE_FRAGMENTS {
        if p.header.reserved - 1 == f.header.reserved && p.header.id == f.header.id {
          frameFragmentsCache := frameFragmentsCache[from := Frame(f.header, p.payload + f.payload)];
          return true;
        }
        return false;
      }
      if p.header.reserved - 1 != 1 || p.header.id != f.header.id {
        return false;
      }
      var header := f.header.(kind := f.header.reserved, reserved := 1);
      frameFragmentsCache := frameFragmentsCache[from := Frame(header, p.payload + f.payload)];
      return true;
    }

    method PushFrame(f: Frame)
      modifies this`frameQueue, this`externalQueue
      ensures Contents() == Push(old(Contents()), f)
    {
      if f.header.kind == EXTERNAL_DATA_TYPE {
        externalQueue := externalQueue + [f];
      } else {
        frameQueue := frameQueue + [f];
      }
    }

    /** 0 for a frame that was not used, 2 for external data, else 1. */
    method EnqueueFrame(f: Frame) returns (result: int)
      modifies this
      ensures Contents() == Enqueue(nodeAddress, old(Contents()), f)
      ensures f.header.from != nodeAddress && !IsFragment(f) ==>
                result == if f.header.kind == EXTERNAL_DATA_TYPE then 2 else 1
      ensures f.header.from != nodeAddress && IsFragment(f) ==>
                (result != 0 <==> AppendFragment(old(frameFragmentsCache), f).used)
    {
      var isFragment := IsFragment(f);
      result := 0;
      if f.header.from == nodeAddress {
        if !isFragment && f.header.id > 0 {
          frameQueue := frameQueue + [f];
          result := 1;
        }
      } else if isFragment {
        var used := Append(f);
        result := if used then 1 else 0;
        if used && f.header.kind == LAST_FRAGMENT {
          var done := frameFragmentsCache[f.header.from];
          result := if done.header.kind == EXTERNAL_DATA_TYPE then 2 else 1;
          if done.header.id > 0 && |done.payload| > 0 {
            PushFrame(done);
          }
          frameFragmentsCache := frameFragmentsCache - {f.header.from};
        }
      } else {
        result := if f.header.kind == EXTERNAL_DATA_TYPE then 2 else 1;
        PushFrame(f);
      }
    }
  }

  function Feed(self: uint16, s: State, frames: seq<Frame>): State
    decreases |frames|
  {
    if frames == [] then s else Feed(self, Enqueue(self, s, frames[0]), frames[1..])
  }

  // ----- Whole frames

  /** A frame that is no fragment goes to the queue of its type, and changes nothing else. */
  lemma WholeFrameQueued(self: uint16, s: State, f: Frame)
    requires !IsFragment(f)
    ensures Enqueue(self, s, f).cache == s.cache
    ensures f.header.from != self && f.header.kind != 131 ==>
              && Enqueue(self, s, f).frameQueue == s.frameQueue + [f]
              && Enqueue(self, s, f).externalQueue == s.externalQueue
    ensures f.header.from != self && f.header.kind == 131 ==>
              && Enqueue(self, s, f).externalQueue == s.externalQueue + [f]
              && Enqueue(self, s, f).frameQueue == s.frameQueue
    ensures f.header.from == self && f.header.id > 0 ==>
              && Enqueue(self, s, f).frameQueue == s.frameQueue + [f]
              && Enqueue(self, s, f).externalQueue == s.externalQueue
    ensures f.header.from == self && f.header.id == 0 ==> Enqueue(self, s, f) == s
  {
  }

  function Queue(s: State, external: bool): seq<Frame> {
    if external then s.externalQueue else s.frameQueue
  }

  // The frames that are no fragments and belong in a queue: the node's own if they have an id, all others by type.
  predicate Belongs(self: uint16, f: Frame, external: bool) {
    !IsFragment(f) && if f.header.from == self then f.header.id > 0 && !external else (f.header.kind == 131) == external
  }

  function Wholes(self: uint16, frames: seq<Frame>, external: bool): seq<Frame> {
    if frames == [] then []
    else (if Belongs(self, frames[0], external) then [frames[0]] else []) + Wholes(self, frames[1..], external)
  }

  // Those of a sequence that are marked, in order.
  function Marked(added: seq<Frame>, marks: seq<bool>): seq<Frame>
    requires |added| == |marks|
  {
    if added == [] then [] else (if marks[0] then [added[0]] else []) + Marked(added[1..], marks[1..])
  }

  function LastFragments(frames: seq<Frame>): nat {
    if frames == [] then 0 else (if frames[0].header.kind == LAST_FRAGMENT then 1 else 0) + LastFragments(frames[1..])
  }

  lemma OneAdded(self: uint16, s: State, f: Frame, external: bool) returns (added: seq<Frame>)
    ensures Queue(Enqueue(self, s, f), external) == Queue(s, external) + added && |added| <= 1
    ensures Belongs(self, f, external) ==> added == [f]
    ensures added != [] && !Belongs(self, f, external) ==> f.header.kind == LAST_FRAGMENT
  {
    var before, after := Queue(s, external), Queue(Enqueue(self, s, f), external);
    added := if after == before then [] else [after[|after| - 1]];
  }

  /**
   Whatever arrives in between, the whole frames appear in their queue as often
   as they came, and in order; all else is added by last fragments, one by each.
   */
  lemma {:induction false} WholeFramesKept(self: uint16, s: State, frames: seq<Frame>, external: bool)
    returns (added: seq<Frame>, marks: seq<bool>)
    ensures Queue(Feed(self, s, frames), external) == Queue(s, external) + added && |added| == |marks|
    ensures Marked(added, marks) == Wholes(self, frames, external)
    ensures |added| <= |Wholes(self, frames, external)| + LastFragments(frames)
    ensures LastFragments(frames) == 0 ==> added == Wholes(self, frames, external)
    decreases |frames|
  {
    added, marks := [], [];
    if frames != [] {
      var one := OneAdded(self, s, frames[0], external);
      var rest, more := WholeFramesKept(self, Enqueue(self, s, frames[0]), frames[1..], external);
      added, marks := one + rest, more;
      Rebracket(Queue(s, external), one, rest);
      if one != [] {
        marks := [Belongs(self, frames[0], external)] + more;
        assert added[1..] == rest && marks[1..] == more;
      } else {
        assert added == rest;
      }
    }
  }

  // At most one message for each sender and id.
  type Sent = map<(uint16, uint16), Message>

  ghost predicate Consistent(sent: Sent) {
    forall k :: k in sent ==> sent[k].from == k.0 && sent[k].id == k.1
  }

  // A frame that some node has put on the air: a fragment of a sent message, or a sent message that needed no cutting.
  ghost predicate OnAir(sent: Sent, f: Frame) {
    var key := (f.header.from, f.header.id);
    && key in sent
    && var m := sent[key];
       if IsFragment(f) then Fragmented(m) && exists k :: 0 <= k < FragmentCount(|m.data|) && f == Fragment(m, k)
       else f == Whole(m, f.header.reserved)
  }

  // A frame handed to the application says what its sender said.
  ghost predicate Genuine(sent: Sent, f: Frame) {
    var key := (f.header.from, f.header.id);
    key in sent && f == Whole(sent[key], f.header.reserved)
  }

  // Fragments 0 .. j - 1 of a message, put together.
  ghost function Partial(m: Message, j: nat): Frame
    requires Fragmented(m) && 1 <= j < FragmentCount(|m.data|)
  {
    ChunkExtends(m.data, j - 1);
    Frame(Fragment(m, j - 1).header, m.data[..j * MAX_FRAGMENT])
  }

  ghost predicate CacheOk(sent: Sent, from: uint16, p: Frame) {
    var key := (from, p.header.id);
    && key in sent && Fragmented(sent[key])
    && exists j :: 1 <= j < FragmentCount(|sent[key].data|) && p == Partial(sent[key], j)
  }

  ghost predicate Inv(sent: Sent, s: State) {
    && (forall a :: a in s.cache ==> CacheOk(sent, a, s.cache[a]))
    && (forall f :: f in s.frameQueue + s.externalQueue ==> Genuine(sent, f))
  }

  /** A fragment is used exactly when it is the next one of the partial message of its sender and id. */
  lemma Meets(cache: Cache, m: Message, j: nat, k: nat)
    requires Fragmented(m) && 1 <= j < FragmentCount(|m.data|) && k < FragmentCount(|m.data|)
    requires m.from in cache && cache[m.from] == Partial(m, j)
    ensures AppendFragment(cache, Fragment(m, k)) ==
            if k != j then Appended(cache, false)
            else if j < FragmentCount(|m.data|) - 1 then Appended(cache[m.from := Partial(m, j + 1)], true)
            else Appended(cache[m.from := Whole(m, 1)], true)
  {
    CountBounds(m);
    ChunkExtends(m.data, j);
    ChunkExtends(m.data, k);
  }

  /** Without one, only a first fragment is. */
  lemma Starts(cache: Cache, m: Message, k: nat)
    requires Fragmented(m) && k < FragmentCount(|m.data|)
    requires m.from in cache ==> cache[m.from].header.id != m.id
    ensures 1 < FragmentCount(|m.data|)
    ensures AppendFragment(cache, Fragment(m, k)) ==
            if k == 0 then Appended(cache[m.from := Partial(m, 1)], true) else Appended(cache, false)
  {
    CountBounds(m);
    ChunkExtends(m.data, 0);
    assert m.data[..0] + Chunk(m.data, 0) == Chunk(m.data, 0);
  }

  lemma CacheKeepsInv(sent: Sent, s: State, cache: Cache)
    requires Inv(sent, s)
    requires forall a :: a in cache ==> (a in s.cache && cache[a] == s.cache[a]) || CacheOk(sent, a, cache[a])
    ensures Inv(sent, s.(cache := cache))
  {
  }

  // The fragment belongs to the partial message.
  lemma ContinuedKeepsInv(self: uint16, sent: Sent, s: State, m: Message, j: nat, k: nat)
    requires Consistent(sent) && Inv(sent, s) && m.from != self && Fragmented(m) && k < FragmentCount(|m.data|)
    requires (m.from, m.id) in sent && sent[(m.from, m.id)] == m
    requires 1 <= j < FragmentCount(|m.data|) && m.from in s.cache && s.cache[m.from] == Partial(m, j)
    ensures Inv(sent, Enqueue(self, s, Fragment(m, k)))
  {
    Meets(s.cache, m, j, k);
    if k == j == FragmentCount(|m.data|) - 1 {
      CompletedKeepsInv(self, sent, s, m, j);
    } else if k == j {
      assert CacheOk(sent, m.from, Partial(m, j + 1));
      CacheKeepsInv(sent, s, s.cache[m.from := Partial(m, j + 1)]);
    }
  }

  lemma CompletedKeepsInv(self: uint16, sent: Sent, s: State, m: Message, last: nat)
    requires Inv(sent, s) && m.from != self && Fragmented(m) && last == FragmentCount(|m.data|) - 1 >= 1
    requires (m.from, m.id) in sent && sent[(m.from, m.id)] == m
    requires AppendFragment(s.cache, Fragment(m, last)) == Appended(s.cache[m.from := Whole(m, 1)], true)
    ensures Inv(sent, Enqueue(self, s, Fragment(m, last)))
  {
    var s' := if m.id > 0 then Push(s, Whole(m, 1)) else s;
    if m.id > 0 { PushGenuine(sent, s, Whole(m, 1)); }
    CacheKeepsInv(sent, s', s.cache - {m.from});
    EnqueueCompletes(self, s, m, last, s');
  }

  lemma EnqueueCompletes(self: uint16, s: State, m: Message, last: nat, s': State)
    requires m.from != self && Fragmented(m) && last == FragmentCount(|m.data|) - 1
    requires AppendFragment(s.cache, Fragment(m, last)) == Appended(s.cache[m.from := Whole(m, 1)], true)
    requires s' == if m.id > 0 then Push(s, Whole(m, 1)) else s
    ensures Enqueue(self, s, Fragment(m, last)) == s'.(cache := s.cache - {m.from})
  {
    assert s.cache[m.from := Whole(m, 1)] - {m.from} == s.cache - {m.from};
  }

  lemma FragmentKeepsInv(self: uint16, sent: Sent, s: State, f: Frame)
    requires Consistent(sent) && Inv(sent, s) && OnAir(sent, f) && IsFragment(f) && f.header.from != self
    ensures Inv(sent, Enqueue(self, s, f))
  {
    var m := sent[(f.header.from, f.header.id)];
    var n := FragmentCount(|m.data|);
    var k :| 0 <= k < n && f == Fragment(m, k);
    CountBounds(m);
    if m.from in s.cache && s.cache[m.from].header.id == m.id {
      assert CacheOk(sent, m.from, s.cache[m.from]);
      var j :| 1 <= j < n && s.cache[m.from] == Partial(m, j);
      ContinuedKeepsInv(self, sent, s, m, j, k);
    } else {
      Starts(s.cache, m, k);
      assert CacheOk(sent, m.from, Partial(m, 1));
      CacheKeepsInv(sent, s, s.cache[m.from := Partial(m, 1)]);
    }
  }

  lemma PushGenuine(sent: Sent, s: State, f: Frame)
    requires Inv(sent, s) && Genuine(sent, f)
    ensures Inv(sent, Push(s, f))
  {
    forall g | g in Push(s, f).frameQueue + Push(s, f).externalQueue
      ensures Genuine(sent, g)
    {
      if g != f { assert g in s.frameQueue + s.externalQueue; }
    }
  }

  /** Every frame from the air, in whatever order, keeps the cache a set of true beginnings and the queues truthful. */
  lemma EnqueueKeepsInv(self: uint16, sent: Sent, s: State, f: Frame)
    requires Consistent(sent) && Inv(sent, s) && OnAir(sent, f)
    ensures Inv(sent, Enqueue(self, s, f))
  {
    if f.header.from == self {
      if !IsFragment(f) && f.header.id > 0 {
        var s' := Enqueue(self, s, f);
        forall g | g in s'.frameQueue + s'.externalQueue
          ensures Genuine(sent, g)
        {
          if g != f { assert g in s.frameQueue + s.externalQueue; }
        }
      }
    } else if IsFragment(f) {
      FragmentKeepsInv(self, sent, s, f);
    } else {
      PushGenuine(sent, s, f);
    }
  }

  lemma {:induction false} FeedKeepsInv(self: uint16, sent: Sent, s: State, frames: seq<Frame>)
    requires Consistent(sent) && Inv(sent, s) && forall f :: f in frames ==> OnAir(sent, f)
    ensures Inv(sent, Feed(self, s, frames))
    decreases |frames|
  {
    if frames != [] {
      EnqueueKeepsInv(self, sent, s, frames[0]);
      FeedKeepsInv(self, sent, Enqueue(self, s, frames[0]), frames[1..]);
    }
  }

  /**
   Safety on any channel: whatever frames of whatever senders arrive, lost,
   repeated, reordered and interleaved as they may be, every message the
   application finds in a queue has the sender, destination, id, type and bytes
   of a message that sender sent.
   */
  lemma ReassemblySafe(self: uint16, sent: Sent, frames: seq<Frame>, f: Frame)
    requires Consistent(sent) && forall g :: g in frames ==> OnAir(sent, g)
    requires var s := Feed(self, State(map[], [], []), frames); f in s.frameQueue || f in s.externalQueue
    ensures Genuine(sent, f)
  {
    FeedKeepsInv(self, sent, State(map[], [], []), frames);
    var s := Feed(self, State(map[], [], []), frames);
    assert f in s.frameQueue + s.externalQueue;
  }

  // ----- When exactly is a message delivered?

  // A frame arriving while m is on its way: one of its fragments, or any frame of any other node.
  datatype Arrival = Mine(k: nat) | Other(f: Frame)

  ghost predicate ArrivalOk(m: Message, a: Arrival)
    requires Fragmented(m)
  {
    if a.Mine? then a.k < FragmentCount(|m.data|) else a.f.header.from != m.from
  }

  ghost function FrameOf(m: Message, a: Arrival): Frame
    requires Fragmented(m) && ArrivalOk(m, a)
  {
    if a.Mine? then Fragment(m, a.k) else a.f
  }

  ghost function Frames(m: Message, arrivals: seq<Arrival>): seq<Frame>
    requires Fragmented(m) && forall a :: a in arrivals ==> ArrivalOk(m, a)
  {
    if arrivals == [] then [] else [FrameOf(m, arrivals[0])] + Frames(m, arrivals[1..])
  }

  // How often fragments j, j + 1, ... , n - 1 and then 0, 1, ... , n - 1 over and over can be picked up in passing.
  ghost function Completions(n: nat, j: nat, arrivals: seq<Arrival>): nat
    decreases |arrivals|
  {
    if arrivals == [] then 0
    else if arrivals[0] != Mine(j) then Completions(n, j, arrivals[1..])
    else if j + 1 < n then Completions(n, j + 1, arrivals[1..])
    else 1 + Completions(n, 0, arrivals[1..])
  }

  // The receiver holds fragments 0 .. j - 1 of m.
  ghost predicate Holds(s: State, m: Message, j: nat)
    requires Fragmented(m)
  {
    if j == 0 then m.from !in s.cache
    else j < FragmentCount(|m.data|) && m.from in s.cache && s.cache[m.from] == Partial(m, j)
  }

  ghost function Delivered(s: State, m: Message): nat {
    multiset(if m.kind == EXTERNAL_DATA_TYPE then s.externalQueue else s.frameQueue)[Whole(m, 1)]
  }

  lemma PushCounts(s: State, m: Message, f: Frame)
    ensures Delivered(Push(s, f), m) == Delivered(s, m) + if f == Whole(m, 1) then 1 else 0
  {
  }

  // A fragment touches its sender's entry only.
  lemma AppendElsewhere(cache: Cache, f: Frame, from: uint16)
    requires IsFragment(f) && f.header.from != from
    ensures var a := AppendFragment(cache, f);
            && (from in a.cache <==> from in cache) && (from in cache ==> a.cache[from] == cache[from])
            && (a.used && f.header.kind == LAST_FRAGMENT ==> a.cache[f.header.from].header.from == f.header.from)
  {
  }

  lemma OtherFragmentArrives(self: uint16, s: State, m: Message, f: Frame)
    requires IsFragment(f) && f.header.from != m.from
    ensures var s' := Enqueue(self, s, f);
            && (m.from in s'.cache <==> m.from in s.cache)
            && (m.from in s.cache ==> s'.cache[m.from] == s.cache[m.from])
            && Delivered(s', m) == Delivered(s, m)
  {
    var a := AppendFragment(s.cache, f);
    AppendElsewhere(s.cache, f, m.from);
    if a.used && f.header.kind == LAST_FRAGMENT { PushCounts(s, m, a.cache[f.header.from]); }
  }

  lemma OtherArrives(self: uint16, s: State, m: Message, j: nat, f: Frame)
    requires Fragmented(m) && Holds(s, m, j) && f.header.from != m.from
    ensures Holds(Enqueue(self, s, f), m, j) && Delivered(Enqueue(self, s, f), m) == Delivered(s, m)
  {
    if IsFragment(f) {
      OtherFragmentArrives(self, s, m, f);
    } else {
      PushCounts(s, m, f);
    }
  }

  lemma MineArrives(self: uint16, s: State, m: Message, j: nat, k: nat)
    requires Fragmented(m) && Holds(s, m, j) && k < FragmentCount(|m.data|) && m.from != self && m.id > 0
    ensures var s', last := Enqueue(self, s, Fragment(m, k)), FragmentCount(|m.data|) - 1;
            if k != j then Holds(s', m, j) && Delivered(s', m) == Delivered(s, m)
            else if j < last then Holds(s', m, j + 1) && Delivered(s', m) == Delivered(s, m)
            else Holds(s', m, 0) && Delivered(s', m) == Delivered(s, m) + 1
  {
    CountBounds(m);
    if j == 0 {
      Starts(s.cache, m, k);
    } else {
      Meets(s.cache, m, j, k);
      PushCounts(s, m, Whole(m, 1));
    }
  }

  lemma {:induction false} FeedDelivers(self: uint16, s: State, m: Message, j: nat, arrivals: seq<Arrival>)
    requires Fragmented(m) && Holds(s, m, j) && m.from != self && m.id > 0
    requires forall a :: a in arrivals ==> ArrivalOk(m, a)
    ensures Delivered(Feed(self, s, Frames(m, arrivals)), m) ==
            Delivered(s, m) + Completions(FragmentCount(|m.data|), j, arrivals)
    decreases |arrivals|
  {
    if arrivals != [] {
      CountBounds(m);
      var n := FragmentCount(|m.data|);
      var a := arrivals[0];
      assert a in arrivals;
      var s' := Enqueue(self, s, FrameOf(m, a));
      assert Frames(m, arrivals)[1..] == Frames(m, arrivals[1..]);
      if a.Other? {
        OtherArrives(self, s, m, j, a.f);
        FeedDelivers(self, s', m, j, arrivals[1..]);
      } else {
        MineArrives(self, s, m, j, a.k);
        FeedDelivers(self, s', m, if a.k != j then j else if j + 1 < n then j + 1 else 0, arrivals[1..]);
      }
    }
  }

  // ----- The fragments in order, each any number of times

  ghost predicate AllHeard(reps: seq<nat>) {
    forall k :: 0 <= k < |reps| ==> reps[k] >= 1
  }

  lemma {:induction false} FeedAppend(self: uint16, s: State, a: seq<Frame>, b: seq<Frame>)
    ensures Feed(self, s, a + b) == Feed(self, Feed(self, s, a), b)
    decreases |a|
  {
    if a == [] {
      assert a + b == b;
    } else {
      AppendHead(a, b);
      FeedAppend(self, Enqueue(self, s, a[0]), a[1..], b);
    }
  }

  // A fragment that is not the next one changes nothing, however often it comes.
  lemma {:induction false} NotNext(self: uint16, s: State, m: Message, j: nat, k: nat, n: nat)
    requires Fragmented(m) && Holds(s, m, j) && j != k < FragmentCount(|m.data|) && m.from != self
    ensures Feed(self, s, Copies(Fragment(m, k), n)) == s
    decreases n
  {
    if j == 0 {
      Starts(s.cache, m, k);
    } else {
      Meets(s.cache, m, j, k);
    }
    assert Enqueue(self, s, Fragment(m, k)) == s;
    if n > 0 { NotNext(self, s, m, j, k, n - 1); }
  }

  // The next one is used, and its repetitions are not.
  lemma NextUsed(self: uint16, s: State, m: Message, k: nat, n: nat) returns (t: State)
    requires Fragmented(m) && Holds(s, m, k) && k < FragmentCount(|m.data|) - 1 && m.from != self && n >= 1
    ensures t == Feed(self, s, Copies(Fragment(m, k), n)) && Holds(t, m, k + 1)
    ensures t.frameQueue == s.frameQueue && t.externalQueue == s.externalQueue
  {
    CountBounds(m);
    if k == 0 {
      Starts(s.cache, m, k);
    } else {
      Meets(s.cache, m, k, k);
    }
    t := Enqueue(self, s, Fragment(m, k));
    NotNext(self, t, m, k + 1, k, n - 1);
  }

  lemma LastUsed(self: uint16, s: State, m: Message, last: nat, n: nat) returns (t: State)
    requires Fragmented(m) && last == FragmentCount(|m.data|) - 1 && Holds(s, m, last) && m.from != self && m.id > 0
    requires n >= 1
    ensures t == Feed(self, s, Copies(Fragment(m, last), n))
    ensures t.frameQueue == Push(s, Whole(m, 1)).frameQueue && t.externalQueue == Push(s, Whole(m, 1)).externalQueue
  {
    CountBounds(m);
    Meets(s.cache, m, last, last);
    EnqueueCompletes(self, s, m, last, Push(s, Whole(m, 1)));
    t := Enqueue(self, s, Fragment(m, last));
    NotNext(self, t, m, 0, last, n - 1);
  }

  // Once one is missing nothing more is used.
  lemma {:induction false} NothingUsed(self: uint16, s: State, m: Message, j: nat, k: nat, reps: seq<nat>)
    requires Fragmented(m) && Holds(s, m, j) && j < k && k + |reps| <= FragmentCount(|m.data|) && m.from != self
    ensures Feed(self, s, Stuttered(m, k, reps)) == s
    decreases |reps|
  {
    if reps != [] {
      NotNext(self, s, m, j, k, reps[0]);
      NothingUsed(self, s, m, j, k + 1, reps[1..]);
      FeedAppend(self, s, Copies(Fragment(m, k), reps[0]), Stuttered(m, k + 1, reps[1..]));
    }
  }

  // All fragments from k on are heard, up to the last one.
  ghost predicate Complete(n: nat, k: nat, reps: seq<nat>) {
    k + |reps| == n && AllHeard(reps)
  }

  // The queues have taken in the message, or nothing.
  ghost predicate HandsOut(s: State, t: State, m: Message, all: bool) {
    var u := if all then Push(s, Whole(m, 1)) else s;
    t.frameQueue == u.frameQueue && t.externalQueue == u.externalQueue
  }

  lemma CompleteTail(n: nat, k: nat, reps: seq<nat>, rest: seq<nat>)
    requires reps != [] && rest == reps[1..]
    ensures Complete(n, k, reps) <==> reps[0] >= 1 && Complete(n, k + 1, rest)
  {
    assert forall i :: 1 <= i < |reps| ==> reps[i] == rest[i - 1];
  }

  // The first of the remaining fragments.
  lemma FirstHanded(self: uint16, s: State, m: Message, k: nat, reps: seq<nat>, rest: seq<nat>) returns (t: State)
    requires Fragmented(m) && Holds(s, m, k) && k + |reps| <= FragmentCount(|m.data|) && m.from != self && m.id > 0
    requires k < FragmentCount(|m.data|) && reps != [] && rest == reps[1..]
    ensures Feed(self, s, Stuttered(m, k, reps)) == Feed(self, t, Stuttered(m, k + 1, rest))
    ensures reps[0] == 0 ==> t == s
    ensures reps[0] >= 1 && k < FragmentCount(|m.data|) - 1 ==> Holds(t, m, k + 1) && HandsOut(s, t, m, false)
    ensures reps[0] >= 1 && k == FragmentCount(|m.data|) - 1 ==> HandsOut(s, t, m, true)
  {
    FeedAppend(self, s, Copies(Fragment(m, k), reps[0]), Stuttered(m, k + 1, rest));
    if reps[0] == 0 {
      t := s;
    } else if k < FragmentCount(|m.data|) - 1 {
      t := NextUsed(self, s, m, k, reps[0]);
    } else {
      t := LastUsed(self, s, m, k, reps[0]);
    }
  }

  // The queues after the fragments from k on, when those before have been used.
  lemma {:induction false} HandedOutFrom(self: uint16, s: State, m: Message, k: nat, reps: seq<nat>)
    requires Fragmented(m) && Holds(s, m, k) && k + |reps| <= FragmentCount(|m.data|) && m.from != self && m.id > 0
    requires k < FragmentCount(|m.data|)
    ensures HandsOut(s, Feed(self, s, Stuttered(m, k, reps)), m, Complete(FragmentCount(|m.data|), k, reps))
    decreases |reps|
  {
    if reps != [] {
      var n, rest, u := FragmentCount(|m.data|), reps[1..], Feed(self, s, Stuttered(m, k, reps));
      var t := FirstHanded(self, s, m, k, reps, rest);
      if reps[0] == 0 {
        NothingUsed(self, s, m, k, k + 1, rest);
      } else if k < n - 1 {
        HandedOutFrom(self, t, m, k + 1, rest);
      } else {
        NoneLeft(self, t, m, k + 1, rest);
      }
      HandedNext(s, t, u, m, n, k, reps, rest);
    }
  }

  lemma NoneLeft(self: uint16, s: State, m: Message, k: nat, reps: seq<nat>)
    requires Fragmented(m) && k + |reps| <= FragmentCount(|m.data|) == k
    ensures reps == [] && Feed(self, s, Stuttered(m, k, reps)) == s
  {
  }

  lemma HandedNext(s: State, t: State, u: State, m: Message, n: nat, k: nat, reps: seq<nat>, rest: seq<nat>)
    requires reps != [] && rest == reps[1..] && k + |reps| <= n
    requires reps[0] == 0 ==> u == s
    requires reps[0] >= 1 && k < n - 1 ==> HandsOut(s, t, m, false) && HandsOut(t, u, m, Complete(n, k + 1, rest))
    requires reps[0] >= 1 && k == n - 1 ==> HandsOut(s, t, m, true) && u == t
    ensures HandsOut(s, u, m, Complete(n, k, reps))
  {
    CompleteTail(n, k, reps, rest);
  }

  /** Fragments in order, each any number of times: the message is handed out, once, if and only if all are heard. */
  lemma StutteredHandedOut(self: uint16, s: State, m: Message, reps: seq<nat>)
    requires Fragmented(m) && |reps| <= FragmentCount(|m.data|) && m.from != self && m.id > 0 && m.from !in s.cache
    ensures var t := Feed(self, s, Stuttered(m, 0, reps));
            var u := if |reps| == FragmentCount(|m.data|) && AllHeard(reps) then Push(s, Whole(m, 1)) else s;
            t.frameQueue == u.frameQueue && t.externalQueue == u.externalQueue
  {
    CountBounds(m);
    assert Complete(FragmentCount(|m.data|), 0, reps) <==> |reps| == FragmentCount(|m.data|) && AllHeard(reps);
    HandedOutFrom(self, s, m, 0, reps);
  }

  // ----- In terms of the arrivals alone

  // Fragments j .. n - 1 arrive in this order at the given places, with anything in between.
  ghost predicate InOrder(n: nat, j: nat, arrivals: seq<Arrival>, places: seq<nat>) {
    && j + |places| == n
    && (forall i :: 0 <= i < |places| ==> places[i] < |arrivals| && arrivals[places[i]] == Mine(j + i))
    && (forall i, k :: 0 <= i < k < |places| ==> places[i] < places[k])
  }

  ghost function Later(places: seq<nat>): seq<nat> {
    seq(|places|, i requires 0 <= i < |places| => places[i] + 1)
  }

  ghost function Sooner(places: seq<nat>): seq<nat>
    requires forall i :: 0 <= i < |places| ==> places[i] >= 1
  {
    seq(|places|, i requires 0 <= i < |places| => places[i] - 1)
  }

  lemma {:induction false} CompletedInOrder(n: nat, j: nat, arrivals: seq<Arrival>) returns (places: seq<nat>)
    requires j < n && Completions(n, j, arrivals) >= 1
    ensures InOrder(n, j, arrivals, places)
    decreases |arrivals|
  {
    if arrivals[0] != Mine(j) {
      var rest := CompletedInOrder(n, j, arrivals[1..]);
      places := Later(rest);
    } else if j + 1 < n {
      var rest := CompletedInOrder(n, j + 1, arrivals[1..]);
      places := [0] + Later(rest);
    } else {
      places := [0];
    }
  }

  lemma {:induction false} InOrderCompleted(n: nat, j: nat, arrivals: seq<Arrival>, places: seq<nat>)
    requires j < n && InOrder(n, j, arrivals, places)
    ensures Completions(n, j, arrivals) >= 1
    decreases |arrivals|
  {
    assert arrivals[places[0]] == Mine(j + 0);
    if arrivals[0] != Mine(j) {
      assert forall i :: 0 < i < |places| ==> places[0] < places[i];
      OneSooner(n, j, arrivals, places);
      InOrderCompleted(n, j, arrivals[1..], Sooner(places));
    } else if j + 1 < n {
      OneFewer(n, j, arrivals, places, places[1..]);
      OneSooner(n, j + 1, arrivals, places[1..]);
      InOrderCompleted(n, j + 1, arrivals[1..], Sooner(places[1..]));
    }
  }

  lemma OneSooner(n: nat, j: nat, arrivals: seq<Arrival>, places: seq<nat>)
    requires arrivals != [] && InOrder(n, j, arrivals, places) && forall i :: 0 <= i < |places| ==> places[i] >= 1
    ensures InOrder(n, j, arrivals[1..], Sooner(places))
  {
  }

  lemma OneFewer(n: nat, j: nat, arrivals: seq<Arrival>, places: seq<nat>, rest: seq<nat>)
    requires InOrder(n, j, arrivals, places) && places != [] && rest == places[1..]
    ensures InOrder(n, j + 1, arrivals, rest) && forall i :: 0 <= i < |rest| ==> rest[i] >= 1
  {
    assert forall i :: 0 <= i < |rest| ==> rest[i] == places[i + 1] && places[0] < places[i + 1];
    assert forall i :: 0 <= i < |rest| ==> arrivals[rest[i]] == Mine(j + 1 + i);
  }

  /**
   Exactly when: a message whose sender sends nothing else is delivered if and
   only if all its fragments arrive in order, whatever repetitions, stragglers
   and frames of other nodes come in between.
   */
  lemma DeliveredExactly(self: uint16, m: Message, arrivals: seq<Arrival>)
    requires Fragmented(m) && m.from != self && m.id > 0
    requires forall a :: a in arrivals ==> ArrivalOk(m, a)
    ensures Delivered(Feed(self, State(map[], [], []), Frames(m, arrivals)), m) >= 1 <==>
            exists places :: InOrder(FragmentCount(|m.data|), 0, arrivals, places)
  {
    CountBounds(m);
    var n := FragmentCount(|m.data|);
    FeedDelivers(self, State(map[], [], []), m, 0, arrivals);
    if Completions(n, 0, arrivals) >= 1 {
      var places := CompletedInOrder(n, 0, arrivals);
    }
    forall places | InOrder(n, 0, arrivals, places)
      ensures Completions(n, 0, arrivals) >= 1
    {
      InOrderCompleted(n, 0, arrivals, places);
    }
  }
}
