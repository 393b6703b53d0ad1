/**
 The address tree of the network.  A node is named by its digits, nearest the
 master first, so a node's parent is its own name without the last digit and
 the master is the empty name.  Nothing here bounds the depth of the tree.
 */
module OctalTree {

  type Digits = seq<int>

  ghost predicate TreeAddress(d: Digits) {
    forall i :: 0 <= i < |d| ==> 1 <= d[i] <= 5
  }

  function Parent(a: Digits): Digits
    requires a != []
  {
    a[..|a| - 1]
  }

  ghost predicate Neighbours(a: Digits, b: Digits) {
    (a != [] && Parent(a) == b) || (b != [] && Parent(b) == a)
  }

  // Length of the longest common prefix.
  function Common(a: Digits, b: Digits): (c: nat)
    ensures c <= |a| && c <= |b|
    decreases |a|
  {
    if a == [] || b == [] || a[0] != b[0] then 0 else 1 + Common(a[1..], b[1..])
  }

  // The first c digits agree, and the next ones do not.
  ghost predicate AgreeFor(a: Digits, b: Digits, c: nat) {
    && c <= |a| && c <= |b| && (forall i :: 0 <= i < c ==> a[i] == b[i])
    && (c < |a| && c < |b| ==> a[c] != b[c])
  }

  lemma {:induction false} CommonAgrees(a: Digits, b: Digits)
    ensures AgreeFor(a, b, Common(a, b))
    decreases |a|
  {
    if a != [] && b != [] && a[0] == b[0] {
      CommonAgrees(a[1..], b[1..]);
      var c := Common(a[1..], b[1..]);
      forall i | 0 <= i <= c
        ensures a[i] == b[i]
      {
        if i > 0 { assert a[1..][i - 1] == b[1..][i - 1]; }
      }
    }
  }

  lemma CommonUnique(a: Digits, b: Digits, c: nat)
    requires AgreeFor(a, b, c)
    ensures Common(a, b) == c
  {
    CommonAgrees(a, b);
  }

  lemma PrefixAgrees(a: Digits, b: Digits)
    ensures a <= b <==> |a| <= |b| && forall i :: 0 <= i < |a| ==> a[i] == b[i]
  {
  }

  // Hops between two nodes: up to the last common ancestor, then down.
  function Dist(a: Digits, b: Digits): nat {
    |a| + |b| - 2 * Common(a, b)
  }

  lemma DistZero(a: Digits, b: Digits)
    ensures Dist(a, b) == 0 <==> a == b
    ensures Dist(a, b) == Dist(b, a)
  {
    CommonAgrees(a, b);
    CommonUnique(b, a, Common(a, b));
    if a == b { CommonUnique(a, b, |a|); }
  }

  /** The forwarding rule: down towards a descendant, otherwise up. */
  function NextHop(me: Digits, to: Digits): Digits
    requires me != to
  {
    if me <= to then to[..|me| + 1] else Parent(me)
  }

  lemma ParentCommon(a: Digits, c: Digits)
    requires a != []
    ensures Common(Parent(a), c) == if a <= c then |a| - 1 else Common(a, c)
    ensures a <= c <==> Common(a, c) == |a|
    ensures Dist(Parent(a), c) == if a <= c then Dist(a, c) + 1 else Dist(a, c) - 1
  {
    CommonAgrees(a, c);
    PrefixAgrees(a, c);
    if a <= c {
      CommonUnique(a, c, |a|);
      CommonUnique(Parent(a), c, |a| - 1);
    } else {
      CommonUnique(Parent(a), c, Common(a, c));
    }
  }

  /** One edge of the tree changes the distance to any node by exactly one. */
  lemma NeighbourDist(a: Digits, b: Digits, c: Digits)
    requires Neighbours(a, b)
    ensures Dist(b, c) == Dist(a, c) + 1 || Dist(b, c) == Dist(a, c) - 1
  {
    if a != [] && Parent(a) == b { ParentCommon(a, c); } else { ParentCommon(b, c); }
  }

  /** Forwarding always follows an edge of the tree and gets exactly one hop closer. */
  lemma NextHopCloser(me: Digits, to: Digits)
    requires me != to
    ensures Neighbours(me, NextHop(me, to))
    ensures Dist(NextHop(me, to), to) == Dist(me, to) - 1
    ensures TreeAddress(me) && TreeAddress(to) ==> TreeAddress(NextHop(me, to))
    ensures |NextHop(me, to)| <= |me| || |NextHop(me, to)| <= |to|
  {
    var next := NextHop(me, to);
    if me <= to {
      assert Parent(next) == me;
      CommonUnique(next, to, |next|);
      CommonUnique(me, to, |me|);
    } else {
      ParentCommon(me, to);
    }
  }

  /** It is also the only edge that does: the route is forced. */
  lemma NextHopOnly(me: Digits, to: Digits, next: Digits)
    requires me != to && Neighbours(me, next)
    requires Dist(next, to) < Dist(me, to)
    ensures next == NextHop(me, to)
  {
    if me != [] && Parent(me) == next {
      ParentCommon(me, to);
    } else {
      ParentCommon(next, to);
      assert me <= next <= to;
    }
  }

  // Every node a frame visits on its way, both ends included.
  function Route(from: Digits, to: Digits): (r: seq<Digits>)
    decreases Dist(from, to)
  {
    if from == to then [from]
    else
      NextHopCloser(from, to);
      [from] + Route(NextHop(from, to), to)
  }

  /** Routing delivers, in exactly Dist hops, with one hop less to go after every step. */
  lemma {:induction false} RouteDelivers(from: Digits, to: Digits)
    ensures |Route(from, to)| == Dist(from, to) + 1
    ensures Route(from, to)[0] == from && Route(from, to)[Dist(from, to)] == to
    ensures forall i :: 0 <= i <= Dist(from, to) ==> Dist(Route(from, to)[i], to) == Dist(from, to) - i
    ensures forall i :: 0 <= i < Dist(from, to) ==>
              Route(from, to)[i] != to && Route(from, to)[i + 1] == NextHop(Route(from, to)[i], to)
    decreases Dist(from, to)
  {
    DistZero(from, to);
    if from != to {
      NextHopCloser(from, to);
      var next := NextHop(from, to);
      RouteDelivers(next, to);
      var r, s := Route(from, to), Route(next, to);
      forall i | 0 <= i <= Dist(from, to)
        ensures Dist(r[i], to) == Dist(from, to) - i
      {
        if i > 0 { assert r[i] == s[i - 1]; }
      }
      forall i | 0 <= i < Dist(from, to)
        ensures r[i] != to && r[i + 1] == NextHop(r[i], to)
      {
        if i > 0 { assert r[i] == s[i - 1] && r[i + 1] == s[i]; } else { assert r[1] == s[0]; }
      }
    }
  }

  /** No node is visited twice. */
  lemma RouteNeverRevisits(from: Digits, to: Digits, i: nat, j: nat)
    requires i < j < |Route(from, to)|
    ensures Route(from, to)[i] != Route(from, to)[j]
  {
    RouteDelivers(from, to);
  }

  ghost predicate Walk(p: seq<Digits>) {
    p != [] && forall i :: 0 <= i < |p| - 1 ==> Neighbours(p[i], p[i + 1])
  }

  /** Dist really is the distance in the tree: no walk along its edges is shorter than the route. */
  lemma {:induction false} NoShorterWalk(p: seq<Digits>)
    requires Walk(p)
    ensures |p| - 1 >= Dist(p[0], p[|p| - 1])
    decreases |p|
  {
    var last := p[|p| - 1];
    if |p| == 1 {
      DistZero(last, last);
    } else {
      var rest := p[1..];
      forall i | 0 <= i < |rest| - 1
        ensures Neighbours(rest[i], rest[i + 1])
      {
        assert Neighbours(p[i + 1], p[i + 1 + 1]);
      }
      NoShorterWalk(rest);
      assert Neighbours(p[0], p[1]);
      NeighbourDist(p[0], p[1], last);
    }
  }

  /** A route stays among tree addresses no deeper than its two ends. */
  lemma {:induction false} RouteStaysInTree(from: Digits, to: Digits, depth: nat, i: nat)
    requires TreeAddress(from) && TreeAddress(to) && |from| <= depth && |to| <= depth
    requires i < |Route(from, to)|
    ensures TreeAddress(Route(from, to)[i]) && |Route(from, to)[i]| <= depth
    ensures Dist(from, to) <= 2 * depth
    decreases Dist(from, to)
  {
    if from != to {
      NextHopCloser(from, to);
      if i > 0 { RouteStaysInTree(NextHop(from, to), to, depth, i - 1); }
    }
  }

  lemma {:induction false} DistTriangle(a: Digits, v: Digits, b: Digits)
    ensures Dist(a, b) <= Dist(a, v) + Dist(v, b)
    decreases Dist(v, b)
  {
    DistZero(v, b);
    if v != b {
      NextHopCloser(v, b);
      var next := NextHop(v, b);
      NeighbourDist(v, next, a);
      DistZero(a, v);
      DistZero(a, next);
      DistTriangle(a, next, b);
    }
  }

  /** Along a route the distance from the start grows by one with every hop. */
  lemma {:induction false} OnRoute(from: Digits, to: Digits, i: nat)
    requires i < |Route(from, to)|
    ensures |Route(from, to)| == Dist(from, to) + 1
    ensures Dist(from, Route(from, to)[i]) == i
    decreases i
  {
    RouteDelivers(from, to);
    DistZero(from, from);
    if i > 0 {
      var before, v := Route(from, to)[i - 1], Route(from, to)[i];
      OnRoute(from, to, i - 1);
      NextHopCloser(before, to);
      DistZero(from, before);
      DistZero(from, v);
      NeighbourDist(before, v, from);
      DistTriangle(from, v, to);
    }
  }

  // v lies on the route between two nodes.
  ghost predicate Between(from: Digits, v: Digits, to: Digits) {
    Dist(from, v) + Dist(v, to) == Dist(from, to)
  }

  /** Forwarding from a node on the route leads to the next one; the last relay is the first hop of the way back. */
  lemma RelayStep(from: Digits, v: Digits, to: Digits)
    requires v != to && v != from && Between(from, v, to)
    ensures Between(from, NextHop(v, to), to) && NextHop(v, to) != from
    ensures NextHop(v, to) == to <==> from != to && v == NextHop(to, from)
    ensures Dist(from, to) > 1
  {
    var next := NextHop(v, to);
    NextHopCloser(v, to);
    NeighbourDist(v, next, from);
    DistTriangle(from, next, to);
    DistZero(from, v);
    DistZero(from, next);
    DistZero(v, to);
    DistZero(next, to);
    DistZero(from, to);
    if next == to {
      NextHopOnly(to, from, v);
    }
    if v == NextHop(to, from) {
      NextHopCloser(to, from);
    }
  }

  lemma FirstHop(from: Digits, to: Digits)
    requires from != to
    ensures Between(from, NextHop(from, to), to) && NextHop(from, to) != from
    ensures NextHop(from, to) == to <==> Dist(from, to) == 1
  {
    var next := NextHop(from, to);
    NextHopCloser(from, to);
    DistZero(from, from);
    DistZero(next, to);
    DistZero(from, next);
    NeighbourDist(from, next, from);
  }
}
