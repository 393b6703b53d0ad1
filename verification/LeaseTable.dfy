/** The mesh master's table of address leases, and how it hands out addresses. */
module LeaseTable {
  import opened Bits
  import opened Basics
  import opened OctalTree
  import opened OctalValue
  import opened NodeRouting

  const MAX_CHILDREN := 4
  const ALLOC_SIZE := 10
  const REQ_ADDRESS := 195
  const BLANK_ID: uint16 := 65535

  datatype Entry = Entry(nodeId: byte, address: uint16)

  // Each node once, never the master itself; no address held twice, and nobody holds the default one.
  ghost predicate LeasesOk(t: seq<Entry>) {
    && (forall i :: 0 <= i < |t| ==> t[i].nodeId != 0 && t[i].address != DEFAULT_ADDRESS)
    && (forall i, j :: 0 <= i < j < |t| ==> t[i].nodeId != t[j].nodeId)
    && (forall i, j :: 0 <= i < j < |t| ==> t[i].address != t[j].address || t[i].address == 0)
  }

  // Where a node's entry is, or the length of the table.
  ghost function IndexOf(t: seq<Entry>, id: byte): (i: nat)
    ensures i <= |t| && (i < |t| ==> t[i].nodeId == id) && forall j :: 0 <= j < i ==> t[j].nodeId != id
  {
    if t == [] || t[0].nodeId == id then 0 else
      var i := IndexOf(t[1..], id);
      assert forall j :: 0 <= j < i ==> t[j + 1] == t[1..][j];
      1 + i
  }

  ghost function Set(t: seq<Entry>, id: byte, address: uint16): seq<Entry> {
    var i := IndexOf(t, id);
    if i < |t| then t[i := Entry(id, address)] else t + [Entry(id, address)]
  }

  // The table as its 8-bit counter has it: a 256th entry turns the counter back to zero.
  ghost function Stored(t: seq<Entry>, id: byte, address: uint16): seq<Entry> {
    if |t| == 255 && IndexOf(t, id) == 255 then [] else Set(t, id, address)
  }

  ghost function Release(t: seq<Entry>, from: uint16): (r: seq<Entry>)
    ensures |r| == |t|
    ensures forall i :: 0 <= i < |t| ==> r[i] == if t[i].address == from then t[i].(address := 0) else t[i]
  {
    seq(|t|, i requires 0 <= i < |t| => if t[i].address == from then t[i].(address := 0) else t[i])
  }

  // No other node holds the address.
  ghost predicate Free(t: seq<Entry>, id: byte, address: uint16) {
    forall i :: 0 <= i < |t| && t[i].address == address ==> t[i].nodeId == id
  }

  // ----- Slots

  // A request that comes straight from a joining node carries the default address; the master is then the forwarder.
  function Forwarder(from: uint16): uint16 {
    if from == DEFAULT_ADDRESS then 0 else from
  }

  function SlotCount(from: uint16): nat {
    if from == DEFAULT_ADDRESS then MAX_CHILDREN + 1 else MAX_CHILDREN
  }

  ghost function SlotAddress(from: uint16, slot: nat): nat {
    Forwarder(from) + slot * Pow8(|DigitsOf(Forwarder(from))|)
  }

  // The highest permitted slot, no higher than `slot`, that nobody else holds.
  ghost function Grant(t: seq<Entry>, id: byte, from: uint16, slot: nat): Option<nat> {
    if slot == 0 then None
    else
      var a := SlotAddress(from, slot);
      if a < WORD && a != DEFAULT_ADDRESS && Free(t, id, a) then Some(slot) else Grant(t, id, from, slot - 1)
  }

  /** An address is granted exactly when some permitted slot is not held by another node; it is the highest of those. */
  lemma {:induction false} GrantExact(t: seq<Entry>, id: byte, from: uint16, slot: nat)
    ensures Grant(t, id, from, slot).Some? <==>
            exists k :: 1 <= k <= slot && SlotAddress(from, k) < WORD
                        && SlotAddress(from, k) != DEFAULT_ADDRESS && Free(t, id, SlotAddress(from, k))
    ensures Grant(t, id, from, slot).Some? ==>
              var g := Grant(t, id, from, slot).value;
              && 1 <= g <= slot && SlotAddress(from, g) < WORD
              && SlotAddress(from, g) != DEFAULT_ADDRESS && Free(t, id, SlotAddress(from, g))
              && forall k :: g < k <= slot ==>
                   || SlotAddress(from, k) >= WORD || SlotAddress(from, k) == DEFAULT_ADDRESS
                   || !Free(t, id, SlotAddress(from, k))
  {
    if slot > 0 { GrantExact(t, id, from, slot - 1); }
  }

  lemma ChildValue(n: nat, slot: nat, v: nat)
    requires 1 <= slot <= 7 && v == n + slot * Pow8(|DigitsOf(n)|)
    ensures DigitsOf(v) == DigitsOf(n) + [slot]
  {
    var name := DigitsOf(n);
    var child := name + [slot];
    ValueOfDigits(n);
    ValueOfChild(name, slot, child);
    DigitsOfValue(child);
  }

  lemma ValueOfChild(name: Digits, slot: nat, child: Digits)
    requires Normal(name) && 1 <= slot <= 7 && child == name + [slot]
    ensures Normal(child) && Value(child) == Value(name) + slot * Pow8(|name|)
  {
    ValueCut(child, |name|);
    assert child[..|name|] == name && child[|name|..] == [slot];
    assert Value([slot]) == slot;
  }

  /** A slot's address is the forwarder's name with the slot as one more digit. */
  lemma SlotName(from: uint16, slot: nat)
    requires |DigitsOf(Forwarder(from))| <= 4 && 1 <= slot <= 5
    ensures SlotAddress(from, slot) < WORD
    ensures DigitsOf(SlotAddress(from, slot)) == DigitsOf(Forwarder(from)) + [slot]
  {
    ChildValue(Forwarder(from), slot, SlotAddress(from, slot));
    Pow8Values();
    LevelBounds(SlotAddress(from, slot), 5);
  }

  /** The bit operations of the allocator compute it: no bit of the slot falls on the forwarder's. */
  lemma SlotBits(from: uint16, slot: nat, shifted: nat)
    requires shifted == slot * Pow8(|DigitsOf(Forwarder(from))|)
    ensures Or(Forwarder(from), shifted) == SlotAddress(from, slot)
  {
    var k := |DigitsOf(Forwarder(from))|;
    LevelBounds(Forwarder(from), k);
    Pow8IsPow2(k);
    OrDisjoint(Forwarder(from), slot, 3 * k, shifted);
  }

  // ----- What one request or release keeps

  /** An assignment keeps the leases in order exactly when it names a node, and no default or taken address but 0. */
  lemma SetKeepsLeases(t: seq<Entry>, id: byte, address: uint16)
    requires LeasesOk(t)
    ensures LeasesOk(Set(t, id, address)) <==>
            id != 0 && address != DEFAULT_ADDRESS && (address == 0 || Free(t, id, address))
    ensures var r := Set(t, id, address); IndexOf(r, id) < |r| && r[IndexOf(r, id)] == Entry(id, address)
  {
    var r, i := Set(t, id, address), IndexOf(t, id);
    assert r[i] == Entry(id, address);
    assert forall j :: 0 <= j < |t| && j != i ==> r[j] == t[j];
    assert IndexOf(r, id) == i;
    if !Free(t, id, address) {
      var j :| 0 <= j < |t| && t[j].address == address && t[j].nodeId != id;
      assert r[j] == t[j] && j != i;
    }
  }

  lemma ReleaseKeepsLeases(t: seq<Entry>, from: uint16)
    requires LeasesOk(t)
    ensures LeasesOk(Release(t, from))
  {
  }

  // ----- Lookups

  // Addresses are handed out as signed 16-bit numbers, and taken as unsigned ones.
  function AsInt16(x: uint16): int {
    if x < 0x8000 then x else x - WORD
  }

  function AsUint16(x: int): uint16 {
    x % WORD
  }

  ghost function AddressOf(t: seq<Entry>, id: byte): int {
    if id == 0 then 0
    else if IndexOf(t, id) < |t| then AsInt16(t[IndexOf(t, id)].address) else -2
  }

  ghost function NodeOf(t: seq<Entry>, address: uint16): int {
    if address == BLANK_ID || address == 0 then 0
    else if t == [] then -2
    else if t[0].address == address then t[0].nodeId
    else NodeOf(t[1..], address)
  }

  lemma {:induction false} NodeOfHolder(t: seq<Entry>, i: nat)
    requires LeasesOk(t) && i < |t| && t[i].address != 0 && t[i].address != BLANK_ID
    ensures NodeOf(t, t[i].address) == t[i].nodeId
    decreases |t|
  {
    if i > 0 {
      assert t[1..][i - 1] == t[i];
      NodeOfHolder(t[1..], i - 1);
    }
  }

  /** Looking up the address of a node that holds one and then the node of that address leads back to the node. */
  lemma LookupRoundTrip(t: seq<Entry>, id: byte)
    requires LeasesOk(t) && AddressOf(t, id) !in {0, -1, -2}
    ensures NodeOf(t, AsUint16(AddressOf(t, id))) == id
  {
    NodeOfHolder(t, IndexOf(t, id));
  }

  // ----- Size

  ghost function Ids(t: seq<Entry>): set<int> {
    set i | 0 <= i < |t| :: t[i].nodeId as int
  }

  lemma {:induction false} IdsCount(t: seq<Entry>)
    requires forall i, j :: 0 <= i < j < |t| ==> t[i].nodeId != t[j].nodeId
    ensures |Ids(t)| == |t|
    decreases |t|
  {
    if t != [] {
      var last := |t| - 1;
      IdsCount(t[..last]);
      assert Ids(t) == Ids(t[..last]) + {t[last].nodeId as int};
    }
  }

  lemma {:induction false} RangeCount(s: set<int>, n: nat)
    requires forall x :: x in s ==> 1 <= x <= n
    ensures |s| <= n
    decreases n
  {
    if n == 0 {
      assert forall x :: x in s ==> x in {};
      assert s == {};
    } else {
      RangeCount(s - {n}, n - 1);
    }
  }

  /** There are only 255 node ids: the table never outgrows its 8-bit counter, and has room for every new node. */
  lemma TableFits(t: seq<Entry>, id: byte)
    requires LeasesOk(t) && id != 0
    ensures |t| <= 255
    ensures IndexOf(t, id) == |t| ==> |t| < 255
  {
    IdsCount(t);
    RangeCount(Ids(t), 255);
    if IndexOf(t, id) == |t| {
      var r := t + [Entry(id, 0)];
      IdsCount(r);
      RangeCount(Ids(r), 255);
    }
  }

  ghost function Granted(t: seq<Entry>, from: uint16, id: byte): (g: Option<uint16>)
    ensures g.Some? ==> g.value != DEFAULT_ADDRESS && Free(t, id, g.value)
  {
    GrantExact(t, id, from, SlotCount(from));
    match Grant(t, id, from, SlotCount(from))
    case None => None
    case Some(slot) => Some(SlotAddress(from, slot))
  }

  // The table after an address request.
  ghost function Answered(t: seq<Entry>, from: uint16, id: byte): seq<Entry> {
    var g := Granted(t, from, id);
    if g.Some? then Stored(t, id, g.value) else t
  }

  /** Answering keeps the leases in order; whoever is answered holds the address named in the answer. */
  lemma AnswerKeepsLeases(t: seq<Entry>, from: uint16, id: byte)
    requires LeasesOk(t) && id != 0
    ensures LeasesOk(Answered(t, from, id))
    ensures Granted(t, from, id).Some? ==> AddressOf(Answered(t, from, id), id) == AsInt16(Granted(t, from, id).value)
  {
    var g := Granted(t, from, id);
    if g.Some? {
      SetKeepsLeases(t, id, g.value);
      TableFits(t, id);
    }
  }

  // ----- Whole runs of the master

  datatype Event = Asked(from: uint16, id: byte) | Released(from: uint16)

  ghost function Run(t: seq<Entry>, events: seq<Event>): seq<Entry>
    decreases |events|
  {
    if events == [] then t
    else match events[0]
      case Asked(from, id) => Run(if id != 0 then Answered(t, from, id) else t, events[1..])
      case Released(from) => Run(Release(t, from), events[1..])
  }

  lemma {:induction false} RunKeepsLeases(t: seq<Entry>, events: seq<Event>)
    requires LeasesOk(t)
    ensures LeasesOk(Run(t, events))
    decreases |events|
  {
    if events != [] {
      match events[0]
      case Asked(from, id) =>
        if id != 0 { AnswerKeepsLeases(t, from, id); }
        RunKeepsLeases(if id != 0 then Answered(t, from, id) else t, events[1..]);
      case Released(from) =>
        ReleaseKeepsLeases(t, from);
        RunKeepsLeases(Release(t, from), events[1..]);
    }
  }

  /**
   Over every run of address requests and releases: no node is in the table
   twice, no address is held twice, nobody holds the default address, the 8-bit
   counter does not overflow, and every holder is found under its address.
   */
  lemma LeasesSafe(events: seq<Event>)
    ensures var t := Run([], events);
            && LeasesOk(t) && |t| <= 255
            && forall i :: 0 <= i < |t| && t[i].address != 0 && t[i].address != BLANK_ID ==>
                 AddressOf(t, t[i].nodeId) == AsInt16(t[i].address) && NodeOf(t, t[i].address) == t[i].nodeId
  {
    var t := Run([], events);
    RunKeepsLeases([], events);
    TableFits(t, 1);
    forall i | 0 <= i < |t| && t[i].address != 0 && t[i].address != BLANK_ID
      ensures AddressOf(t, t[i].nodeId) == AsInt16(t[i].address) && NodeOf(t, t[i].address) == t[i].nodeId
    {
      assert IndexOf(t, t[i].nodeId) == i;
      NodeOfHolder(t, i);
    }
  }

  // ----- Leases last

  lemma IndexIs(t: seq<Entry>, id: byte, i: nat)
    requires i <= |t| && (i < |t| ==> t[i].nodeId == id) && forall j :: 0 <= j < i ==> t[j].nodeId != id
    ensures IndexOf(t, id) == i
  {
  }

  ghost predicate Holds(t: seq<Entry>, id: byte, address: uint16) {
    IndexOf(t, id) < |t| && t[IndexOf(t, id)].address == address
  }

  lemma SetKeepsOthers(t: seq<Entry>, id: byte, address: uint16, other: byte)
    requires other != id
    ensures AddressOf(Set(t, id, address), other) == AddressOf(t, other)
    ensures forall a :: Holds(Set(t, id, address), other, a) <==> Holds(t, other, a)
  {
    var r, i := Set(t, id, address), IndexOf(t, other);
    assert forall j :: 0 <= j < |t| && t[j].nodeId != id ==> r[j] == t[j];
    assert forall j :: 0 <= j < |t| ==> r[j].nodeId == t[j].nodeId;
    IndexIs(r, other, if i < |t| then i else |r|);
  }

  /** An answer changes the entry of the node that asked and no other, and without a grant none. */
  lemma AnswerKeepsOthers(t: seq<Entry>, from: uint16, id: byte, other: byte)
    requires LeasesOk(t) && id != 0 && other != id
    ensures AddressOf(Answered(t, from, id), other) == AddressOf(t, other)
    ensures forall a :: Holds(Answered(t, from, id), other, a) <==> Holds(t, other, a)
    ensures Granted(t, from, id).None? ==> Answered(t, from, id) == t
  {
    TableFits(t, id);
    if Granted(t, from, id).Some? { SetKeepsOthers(t, id, Granted(t, from, id).value, other); }
  }

  /** A release takes exactly the released address back. */
  lemma ReleaseTakesBack(t: seq<Entry>, from: uint16, id: byte)
    requires id != 0
    ensures AddressOf(Release(t, from), id) == if Holds(t, id, from) then 0 else AddressOf(t, id)
    ensures forall a :: Holds(t, id, a) && a != from ==> Holds(Release(t, from), id, a)
  {
    var r := Release(t, from);
    assert forall j :: 0 <= j < |t| ==> r[j].nodeId == t[j].nodeId;
    IndexIs(r, id, IndexOf(t, id));
  }

  // The node does not ask, and the address is not released.
  predicate Undisturbed(e: Event, id: byte, address: uint16) {
    match e
    case Asked(_, asker) => asker != id
    case Released(from) => from != address
  }

  lemma {:induction false} LeaseStays(t: seq<Entry>, events: seq<Event>, id: byte, address: uint16)
    requires LeasesOk(t) && id != 0 && Holds(t, id, address)
    requires forall e :: e in events ==> Undisturbed(e, id, address)
    ensures Holds(Run(t, events), id, address)
    decreases |events|
  {
    if events != [] {
      assert Undisturbed(events[0], id, address);
      match events[0]
      case Asked(from, asker) =>
        if asker != 0 {
          AnswerKeepsLeases(t, from, asker);
          AnswerKeepsOthers(t, from, asker, id);
        }
        LeaseStays(if asker != 0 then Answered(t, from, asker) else t, events[1..], id, address);
      case Released(from) =>
        ReleaseKeepsLeases(t, from);
        ReleaseTakesBack(t, from, id);
        LeaseStays(Release(t, from), events[1..], id, address);
    }
  }

  lemma {:induction false} RunOn(t: seq<Entry>, a: seq<Event>, b: seq<Event>)
    ensures Run(t, a + b) == Run(Run(t, a), b)
    decreases |a|
  {
    if a == [] {
      assert a + b == b;
    } else {
      AppendHead(a, b);
      match a[0]
      case Asked(from, id) => RunOn(if id != 0 then Answered(t, from, id) else t, a[1..], b);
      case Released(from) => RunOn(Release(t, from), a[1..], b);
    }
  }

  // The node's last request, the n-th event, was answered with this address, which has not been released since.
  ghost predicate Leased(events: seq<Event>, n: nat, id: byte, address: uint16) {
    && n < |events| && id != 0 && events[n].Asked? && events[n].id == id
    && Granted(Run([], events[..n]), events[n].from, id) == Some(address)
    && forall e :: e in events[n + 1..] ==> Undisturbed(e, id, address)
  }

  /** A node's entry says what its last answer said until it asks again or its address is released. */
  lemma LeaseLasts(events: seq<Event>, n: nat, id: byte, address: uint16)
    requires Leased(events, n, id, address)
    ensures Holds(Run([], events), id, address) && AddressOf(Run([], events), id) == AsInt16(address)
  {
    var t, e, after := Run([], events[..n]), events[n], events[n + 1..];
    RunKeepsLeases([], events[..n]);
    AnswerKeepsLeases(t, e.from, id);
    AnswerHolds(t, e.from, id);
    assert events == events[..n] + ([e] + after);
    RunOn([], events[..n], [e] + after);
    assert ([e] + after)[1..] == after;
    LeaseStays(Answered(t, e.from, id), after, id, address);
  }

  lemma AnswerHolds(t: seq<Entry>, from: uint16, id: byte)
    requires LeasesOk(t) && id != 0 && Granted(t, from, id).Some?
    ensures Holds(Answered(t, from, id), id, Granted(t, from, id).value) && Granted(t, from, id).value != 0
  {
    SetKeepsLeases(t, id, Granted(t, from, id).value);
    TableFits(t, id);
    GrantNotZero(t, from, id);
  }

  lemma GrantNotZero(t: seq<Entry>, from: uint16, id: byte)
    requires Granted(t, from, id).Some?
    ensures Granted(t, from, id).value != 0
  {
    GrantExact(t, id, from, SlotCount(from));
    SlotNotZero(from, Grant(t, id, from, SlotCount(from)).value);
  }

  lemma SlotNotZero(from: uint16, slot: nat)
    requires slot >= 1
    ensures SlotAddress(from, slot) != 0
  {
    assert slot * Pow8(|DigitsOf(Forwarder(from))|) >= 1;
  }

  /** So any two nodes that were answered, have not asked again and were not released, hold different addresses. */
  lemma LeasesDiffer(events: seq<Event>, n: nat, id: byte, address: uint16, n': nat, id': byte, address': uint16)
    requires Leased(events, n, id, address) && Leased(events, n', id', address') && id != id'
    ensures address != address'
  {
    LeaseLasts(events, n, id, address);
    LeaseLasts(events, n', id', address');
    RunKeepsLeases([], events);
    GrantNotZero(Run([], events[..n]), events[n].from, id);
    HoldersDiffer(Run([], events), id, address, id', address');
  }

  lemma HoldersDiffer(t: seq<Entry>, id: byte, address: uint16, id': byte, address': uint16)
    requires LeasesOk(t) && Holds(t, id, address) && Holds(t, id', address') && id != id' && address != 0
    ensures address != address'
  {
    var i, j := IndexOf(t, id), IndexOf(t, id');
    assert t[i].nodeId == id && t[j].nodeId == id';
  }

  // ----- Agreement with the other layers

  /**
   A granted address is the forwarder's name and one more digit, so it is a node
   name of the network exactly when the forwarder has at most three digits; the
   forwarder is then its parent and the slot the parent's pipe.
   */
  lemma GrantNamesChild(t: seq<Entry>, id: byte, from: uint16)
    requires NodeName(DigitsOf(Forwarder(from))) && Grant(t, id, from, SlotCount(from)).Some?
    ensures var slot := Grant(t, id, from, SlotCount(from)).value;
            var forwarder, child := DigitsOf(Forwarder(from)), DigitsOf(SlotAddress(from, slot));
            && child != [] && Parent(child) == forwarder && child[|child| - 1] == slot
            && (NodeName(child) <==> |forwarder| <= 3)
  {
    GrantExact(t, id, from, SlotCount(from));
    SlotName(from, Grant(t, id, from, SlotCount(from)).value);
  }

  /** So it happens at every forwarder of four digits: from an empty table it is granted an address no node may have. */
  lemma FourthLevelGrant(id: byte, from: uint16)
    requires NodeName(DigitsOf(from)) && |DigitsOf(from)| == 4 && from != DEFAULT_ADDRESS
    ensures Granted([], from, id).Some? && !NodeName(DigitsOf(Granted([], from, id).value))
  {
    SlotName(from, 4);
    DigitsOfDefault();
    GrantNamesChild([], id, from);
  }

  lemma DigitsOfDefault()
    ensures DigitsOf(DEFAULT_ADDRESS) == [4, 4, 4, 4]
  {
    DigitsOfValue([4, 4, 4, 4]);
  }

  /** One of them is node 01111. */
  lemma FourthLevelNode()
    ensures NodeName(DigitsOf(585)) && |DigitsOf(585)| == 4
  {
    DigitsOfValue([1, 1, 1, 1]);
  }

  /** Number of octal digits, as the joining node counts them. */
  method GetLevel(address: uint16) returns (count: nat)
    ensures count == |DigitsOf(address)|
  {
    var rest := address;
    count := 0;
    while rest != 0
      invariant 0 <= rest < WORD && count + |DigitsOf(rest)| == |DigitsOf(address)|
      decreases rest
    {
      DigitStep(rest);
      rest := rest / 8;
      count := count + 1;
    }
  }

  /** The joining node's own test of an address it is offered: it must lie below the node it asked through. */
  method Accepts(offered: uint16, contact: uint16) returns (ok: bool)
    ensures ok <==> DigitsOf(contact) <= DigitsOf(offered)
  {
    var level := GetLevel(contact);
    CheckMaskTest(contact, 6);
    var mask := WORD - 1; // shifted left by `level` digits below
    for k := 0 to level
      invariant mask == CheckMask(k)
    {
      CheckMaskShift(k);
      mask := Shl3(mask);
    }
    ok := And(offered, Not16(mask)) == contact;
    if level <= 5 {
      MaskedPrefix(offered, contact, Not16(mask));
    } else {
      AndAll(offered);
      SameName(offered, contact);
    }
  }

  lemma SameName(offered: uint16, contact: uint16)
    requires |DigitsOf(contact)| == 6
    ensures offered == contact <==> DigitsOf(contact) <= DigitsOf(offered)
  {
    CheckMaskTest(offered, 6);
    ValueOfDigits(offered);
    ValueOfDigits(contact);
    if DigitsOf(contact) <= DigitsOf(offered) {
      assert DigitsOf(contact) == DigitsOf(offered)[..6] == DigitsOf(offered);
    }
  }

  /** So the joining node accepts every address the master grants through its contact. */
  lemma GrantAccepted(t: seq<Entry>, id: byte, from: uint16)
    requires NodeName(DigitsOf(Forwarder(from))) && Grant(t, id, from, SlotCount(from)).Some?
    ensures DigitsOf(Forwarder(from)) <= DigitsOf(SlotAddress(from, Grant(t, id, from, SlotCount(from)).value))
  {
    GrantNamesChild(t, id, from);
  }

  // The address request as `update` has left it in the frame buffer.
  datatype Request = Request(from: uint16, kind: byte, id: byte)

  // What has been allocated for a table of n entries: multiples of ten, at least one.
  function Allocated(n: nat): nat {
    (if n == 0 then 1 else (n + ALLOC_SIZE - 1) / ALLOC_SIZE) * ALLOC_SIZE
  }

  class Master {
    var addrList: array<Entry>
    var addrListTop: nat
    var doDHCP: bool

    ghost function Table(): seq<Entry>
      reads this, addrList
      requires addrListTop <= addrList.Length
    {
      addrList[..addrListTop]
    }

    // The allocation grows by ten entries whenever the table has filled it.
    ghost predicate Valid()
      reads this, addrList
    {
      addrListTop <= 255 && addrList.Length >= Allocated(addrListTop)
    }

    constructor ()
      ensures Valid() && Table() == [] && !doDHCP && fresh(addrList)
    {
      addrList := new Entry[ALLOC_SIZE](i => Entry(0, 0));
      addrListTop := 0;
      doDHCP := false;
    }

    // The master's own lookup of a node's address.
    method GetAddress(id: byte) returns (address: int)
      requires Valid()
      ensures address == AddressOf(Table(), id)
    {
      if id == 0 {
        return 0;
      }
      for i := 0 to addrListTop
        invariant forall j :: 0 <= j < i ==> addrList[j].nodeId != id
      {
        if addrList[i].nodeId == id {
          assert Table()[i].nodeId == id && IndexOf(Table(), id) == i;
          return AsInt16(addrList[i].address);
        }
      }
      assert forall j :: 0 <= j < |Table()| ==> Table()[j].nodeId != id;
      return -2;
    }

    // The master's own lookup of who holds an address.
    method GetNodeID(address: uint16) returns (id: int)
      requires Valid()
      ensures id == NodeOf(Table(), address)
    {
      if address == BLANK_ID {
        return 0;
      }
      if address == 0 {
        return 0;
      }
      for i := 0 to addrListTop
        invariant NodeOf(Table(), address) == NodeOf(Table()[i..], address)
      {
        assert Table()[i..][0] == addrList[i] && Table()[i..][1..] == Table()[i + 1..];
        if addrList[i].address == address {
          return addrList[i].nodeId;
        }
      }
      assert Table()[addrListTop..] == [];
      return -2;
    }

    // The position of a node's entry, or the end of the table.
    method Find(id: byte) returns (i: nat)
      requires Valid()
      ensures i == IndexOf(Table(), id)
    {
      i := 0;
      while i < addrListTop && addrList[i].nodeId != id
        invariant i <= addrListTop
        invariant forall j :: 0 <= j < i ==> addrList[j].nodeId != id
      {
        i := i + 1;
      }
      assert i < |Table()| ==> Table()[i].nodeId == id;
    }

    // Room for one more entry.
    method Grow()
      requires Valid()
      modifies this`addrList
      ensures addrList.Length >= Allocated(addrListTop + 1) && Allocated(addrListTop + 1) > addrListTop
      ensures Table() == old(Table()) && (fresh(addrList) || addrList == old(addrList))
    {
      if addrListTop > 0 && addrListTop % ALLOC_SIZE == 0 {
        var grown := new Entry[addrListTop + ALLOC_SIZE](i => Entry(0, 0));
        forall i | 0 <= i < addrListTop {
          grown[i] := addrList[i];
        }
        addrList := grown;
      }
    }

    /** Records an assignment: the node's entry if it has one, else a new one, in memory that grows in time. */
    method SetAddress(id: byte, address: uint16)
      requires Valid()
      modifies this, addrList
      ensures Valid() && Table() == Stored(old(Table()), id, address)
      ensures fresh(addrList) || addrList == old(addrList)
      ensures doDHCP == old(doDHCP)
    {
      var i := Find(id);
      if i < addrListTop {
        Overwrite(i, Entry(id, address));
      } else {
        Grow();
        AddLast(Entry(id, address));
      }
    }

    method Overwrite(i: nat, e: Entry)
      requires Valid() && i < addrListTop
      modifies addrList
      ensures Valid() && Table() == old(Table())[i := e]
    {
      ghost var t := Table();
      addrList[i] := e;
      assert Table() == t[i := e];
    }

    // The counter is a byte.
    method AddLast(e: Entry)
      requires addrListTop <= 255 && addrList.Length >= Allocated(addrListTop + 1) > addrListTop
      modifies this`addrListTop, addrList
      ensures Valid() && Table() == if old(addrListTop) == 255 then [] else old(Table()) + [e]
    {
      ghost var t := Table();
      addrList[addrListTop] := e;
      addrListTop := (addrListTop + 1) % 0x100;
      assert addrListTop != 0 ==> Table() == t + [e];
    }

    /** A node gives its address back. */
    method ReleaseAddress(from: uint16)
      requires Valid()
      modifies addrList
      ensures Valid() && Table() == Release(old(Table()), from)
    {
      ghost var t := Table();
      for i := 0 to addrListTop
        invariant forall j :: 0 <= j < i ==> addrList[j] == Release(t, from)[j]
        invariant forall j :: i <= j < addrListTop ==> addrList[j] == t[j]
      {
        if addrList[i].address == from {
          addrList[i] := addrList[i].(address := 0);
        }
      }
      assert Table() == Release(t, from);
    }

    // Does another node hold this address?
    method HeldByOther(id: byte, address: uint16) returns (found: bool)
      requires Valid()
      ensures found <==> !Free(Table(), id, address)
    {
      for i := 0 to addrListTop
        invariant forall j :: 0 <= j < i && addrList[j].address == address ==> addrList[j].nodeId == id
      {
        if addrList[i].address == address && addrList[i].nodeId != id {
          assert Table()[i].address == address;
          return true;
        }
      }
      return false;
    }

    static method NewAddress(ghost from: uint16, slot: nat, fwdBy: uint16, shift: nat) returns (address: uint16)
      requires |DigitsOf(Forwarder(from))| <= 4 && 1 <= slot <= 5
      requires fwdBy == Forwarder(from) && shift == Pow8(|DigitsOf(Forwarder(from))|)
      ensures address == SlotAddress(from, slot)
    {
      SlotBits(from, slot, slot * shift);
      SlotName(from, slot);
      address := Or(fwdBy, slot * shift);
    }

    // Tries the slots under the forwarder, the highest first.
    method FindSlot(from: uint16, id: byte, fwdBy: uint16, shift: nat, children: nat) returns (granted: Option<uint16>)
      requires Valid() && |DigitsOf(Forwarder(from))| <= 4 && children == SlotCount(from)
      requires fwdBy == Forwarder(from) && shift == Pow8(|DigitsOf(Forwarder(from))|)
      ensures granted == Granted(Table(), from, id)
    {
      var i := children;
      while i > 0
        invariant 0 <= i <= children
        invariant Grant(Table(), id, from, children) == Grant(Table(), id, from, i)
      {
        var newAddress := NewAddress(from, i, fwdBy, shift);
        if newAddress != DEFAULT_ADDRESS {
          var found := HeldByOther(id, newAddress);
          if !found {
            return Some(newAddress);
          }
        }
        i := i - 1;
      }
      return None;
    }

    // Finds an address below the forwarder and records it.
    method AnswerRequest(from: uint16, id: byte) returns (granted: Option<uint16>)
      requires Valid() && |DigitsOf(from)| <= 4
      modifies this, addrList
      ensures Valid() && doDHCP == old(doDHCP)
      ensures granted == Granted(old(Table()), from, id) && Table() == Answered(old(Table()), from, id)
    {
      var fwdBy, shift, extraChild := 0, 1, 1;
      if from != DEFAULT_ADDRESS {
        fwdBy := from;
        shift := ShiftFor(fwdBy);
        extraChild := 0;
      }
      granted := FindSlot(from, id, fwdBy, shift, MAX_CHILDREN + extraChild);
      if granted.Some? {
        SetAddress(id, granted.value);
      }
    }

    /**
     Answers the pending address request: the highest slot under the forwarder
     that no other node holds goes to the requester and into the table.
     */
    method DHCP(header: Request) returns (granted: Option<uint16>)
      requires Valid() && |DigitsOf(header.from)| <= 4
      modifies this, addrList
      ensures Valid() && !doDHCP
      ensures if old(doDHCP) && header.id != 0 && header.kind == REQ_ADDRESS
              then granted == Granted(old(Table()), header.from, header.id)
                   && Table() == Answered(old(Table()), header.from, header.id)
              else granted == None && Table() == old(Table())
    {
      if !doDHCP {
        return None;
      }
      doDHCP := false;
      if header.id == 0 || header.kind != REQ_ADDRESS {
        return None;
      }
      granted := AnswerRequest(header.from, header.id);
    }

    // One octal digit's shift for every digit of the forwarder.
    static method ShiftFor(address: uint16) returns (shift: nat)
      ensures shift == Pow8(|DigitsOf(address)|)
    {
      var m := address;
      ghost var k: nat := 0;
      shift := 1;
      while m != 0
        invariant 0 <= m < WORD && shift == Pow8(k) && k + |DigitsOf(m)| == |DigitsOf(address)|
        decreases m
      {
        DigitStep(m);
        m := m / 8;
        shift := shift * 8;
        k := k + 1;
      }
    }
  }
}
