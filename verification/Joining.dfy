/** A node that joins by polling: whom it asks through, and what addresses that leads to. */
module Joining {
  import opened Bits
  import opened Basics
  import opened OctalTree
  import opened OctalValue
  import opened NodeRouting
  import opened PhysicalPipes
  import opened Delivery
  import opened Processing
  import opened Radio
  import opened Fragments
  import opened DriverProtocol
  import opened LeaseTable

  // The joining node polls the levels in turn.
  function PolledLevel(attempt: nat): nat {
    attempt % 4
  }

  // A node that hears the poll of an attempt, and answers it.
  ghost predicate Contact(me: uint16, attempt: nat, contact: uint16, pipe: nat)
    requires ValidAddress(me) && pipe <= 5
  {
    LevelSendable(PolledLevel(attempt));
    && NodeName(DigitsOf(contact))
    && PhysicalAddress(DigitsOf(contact), pipe) ==
       Target(me, LevelToAddress(PolledLevel(attempt)), USER_TX_MULTICAST).address
  }

  // What the master finds as the sender of a request: the contact, unless that is the master itself.
  function RequestFrom(contact: uint16): uint16 {
    if contact == 0 then DEFAULT_ADDRESS else contact
  }

  /** A contact other than the master passes a request on to it in its own name, and as it came otherwise. */
  lemma RequestInName(s: Setup, t: Take)
    requires Faithful(s, t) && WellAddressed(t) && !t.stuck && t.frame.header.to == s.me && NodeName(DigitsOf(s.me))
    requires t.frame.header.kind == NETWORK_REQ_ADDRESS && s.me != 0
    ensures |t.effect.puts| == 2 && t.effect.puts[0].Sent?
    ensures t.effect.puts[0].frame.header == t.frame.header.(from := RequestFrom(s.me), to := 0)
  {
    RequestGoesUp(s, t);
  }

  /** A contact is a node of the polled level, so of no more than three digits. */
  lemma ContactLevel(me: uint16, attempt: nat, contact: uint16, pipe: nat)
    requires ValidAddress(me) && pipe <= 5 && Contact(me, attempt, contact, pipe)
    ensures pipe == 0 && |DigitsOf(contact)| == PolledLevel(attempt) <= 3
    ensures Forwarder(RequestFrom(contact)) == contact
  {
    LevelHeard(me, PolledLevel(attempt), USER_TX_MULTICAST, DigitsOf(contact), pipe);
    DigitsOfDefault();
  }

  /** What is granted through a contact is the address of a node. */
  lemma PolledGrant(t: seq<Entry>, id: byte, me: uint16, attempt: nat, contact: uint16, pipe: nat)
    requires ValidAddress(me) && pipe <= 5 && Contact(me, attempt, contact, pipe)
    requires Granted(t, RequestFrom(contact), id).Some?
    ensures NodeName(DigitsOf(Granted(t, RequestFrom(contact), id).value))
  {
    ContactLevel(me, attempt, contact, pipe);
    GrantNamesChild(t, id, RequestFrom(contact));
  }

  // A request that was made through a contact, or a release.
  ghost predicate Polled(e: Event) {
    e.Asked? ==>
      exists me: uint16, attempt: nat, contact: uint16, pipe: nat ::
        ValidAddress(me) && pipe <= 5 && Contact(me, attempt, contact, pipe) && e.from == RequestFrom(contact)
  }

  ghost predicate AllNames(t: seq<Entry>) {
    forall i :: 0 <= i < |t| ==> NodeName(DigitsOf(t[i].address))
  }

  lemma PolledName(t: seq<Entry>, from: uint16, id: byte)
    requires Polled(Asked(from, id)) && Granted(t, from, id).Some?
    ensures NodeName(DigitsOf(Granted(t, from, id).value))
  {
    var e := Asked(from, id);
    var me: uint16, attempt: nat, contact: uint16, pipe: nat :|
      ValidAddress(me) && pipe <= 5 && Contact(me, attempt, contact, pipe) && e.from == RequestFrom(contact);
    PolledGrant(t, id, me, attempt, contact, pipe);
  }

  lemma StoredName(t: seq<Entry>, id: byte, address: uint16)
    requires AllNames(t) && NodeName(DigitsOf(address))
    ensures AllNames(Stored(t, id, address))
  {
  }

  lemma AnswerKeepsNames(t: seq<Entry>, from: uint16, id: byte)
    requires AllNames(t) && Polled(Asked(from, id))
    ensures AllNames(Answered(t, from, id))
  {
    var g := Granted(t, from, id);
    if g.Some? {
      PolledName(t, from, id);
      StoredName(t, id, g.value);
    }
  }

  lemma ReleasedNames(t: seq<Entry>, from: uint16)
    requires AllNames(t)
    ensures AllNames(Release(t, from))
  {
    assert DigitsOf(0) == [];
  }

  lemma {:induction false} NamesKept(t: seq<Entry>, events: seq<Event>)
    requires AllNames(t) && forall i :: 0 <= i < |events| ==> Polled(events[i])
    ensures AllNames(Run(t, events))
    decreases |events|
  {
    if events != [] {
      assert Polled(events[0]);
      match events[0]
      case Asked(from, id) =>
        AnswerKeepsNames(t, from, id);
        NamesKept(if id != 0 then Answered(t, from, id) else t, events[1..]);
      case Released(from) =>
        ReleasedNames(t, from);
        NamesKept(Release(t, from), events[1..]);
    }
  }

  /**
   Over every run in which all nodes join by polling, every address in the
   master's table is that of a node of the network.  The addresses no node may
   have take a request that comes to the fourth level by another way.
   */
  lemma PolledRunsSafe(events: seq<Event>)
    requires forall i :: 0 <= i < |events| ==> Polled(events[i])
    ensures AllNames(Run([], events))
  {
    NamesKept([], events);
  }
}
