/** Searching a byte stream for several target strings at once, never reading a byte twice. */
module StreamSearch {
  import opened Bits
  import opened Basics

  // The last k bytes seen are the first k of the target.
  ghost predicate Border(str: seq<byte>, seen: seq<byte>, k: nat) {
    k <= |str| && k <= |seen| && seen[|seen| - k..] == str[..k]
  }

  ghost predicate EndsWith(seen: seq<byte>, str: seq<byte>) {
    |str| <= |seen| && seen[|seen| - |str|..] == str
  }

  // k is the longest beginning of the target that the bytes seen end with.
  ghost predicate Longest(str: seq<byte>, seen: seq<byte>, k: nat) {
    k < |str| && Border(str, seen, k) && forall l :: k < l <= |str| ==> !Border(str, seen, l)
  }

  lemma EndsWithBorder(str: seq<byte>, seen: seq<byte>)
    ensures EndsWith(seen, str) <==> Border(str, seen, |str|)
  {
    assert str[..|str|] == str;
  }

  lemma BorderStep(str: seq<byte>, seen: seq<byte>, c: byte, l: nat)
    requires l < |str|
    ensures Border(str, seen + [c], l + 1) <==> Border(str, seen, l) && str[l] == c
  {
    if l <= |seen| {
      var tail := (seen + [c])[|seen| - l..];
      assert tail == seen[|seen| - l..] + [c];
      assert str[..l + 1] == str[..l] + [str[l]];
      assert tail[..l] == seen[|seen| - l..] && tail[l] == c;
      assert str[..l + 1][..l] == str[..l];
    }
  }

  /** Shorter matches can be found in the target itself, without the bytes already read. */
  lemma BorderOfBorder(str: seq<byte>, seen: seq<byte>, k: nat, l: nat)
    requires Border(str, seen, k) && l <= k
    ensures Border(str, seen, l) <==> forall i :: 0 <= i < l ==> str[i] == str[i + (k - l)]
  {
    var tail := seen[|seen| - l..];
    forall i | 0 <= i < l
      ensures tail[i] == str[i + (k - l)]
    {
      assert tail[i] == seen[|seen| - k..][i + (k - l)];
    }
    if Border(str, seen, l) {
      assert forall i :: 0 <= i < l ==> str[i] == str[..l][i] == tail[i];
    }
  }

  class MultiTarget {
    const str: seq<byte>
    var index: nat

    constructor (target: seq<byte>)
      ensures str == target && index == 0
    {
      str := target;
      index := 0;
    }

    // Do the bytes compared by the walk-back agree?
    method Matches(orig: nat) returns (same: bool)
      requires index <= orig <= |str|
      ensures same <==> forall i :: 0 <= i < index ==> str[i] == str[i + (orig - index)]
    {
      var diff := orig - index;
      var i := 0;
      while i < index
        invariant 0 <= i <= index
        invariant forall j :: 0 <= j < i ==> str[j] == str[j + diff]
      {
        if str[i] != str[i + diff] {
          break;
        }
        i := i + 1;
      }
      return i == index;
    }

    /** One byte more: either the whole target has been seen, or `index` is again the longest beginning of it. */
    method Advance(c: byte, ghost seen: seq<byte>) returns (found: bool)
      requires Longest(str, seen, index)
      modifies this
      ensures found <==> EndsWith(seen + [c], str)
      ensures !found ==> Longest(str, seen + [c], index)
    {
      ghost var now := seen + [c];
      EndsWithBorder(str, now);
      forall l | 0 < l <= |str|
        ensures Border(str, now, l) <==> Border(str, seen, l - 1) && str[l - 1] == c
      {
        BorderStep(str, seen, c, l - 1);
      }
      if c == str[index] {
        index := index + 1;
        return index == |str|;
      }
      if index == 0 {
        return false;
      }
      var orig := index;
      while index != 0
        invariant index <= orig
        invariant forall l :: index < l <= |str| ==> !Border(str, now, l)
      {
        index := index - 1;
        BorderOfBorder(str, seen, orig, index);
        if c != str[index] {
          continue;
        }
        if index == 0 {
          index := index + 1;
          break;
        }
        var same := Matches(orig);
        if same {
          index := index + 1;
          break;
        }
      }
      return false;
    }
  }

  // The first target seen whole, if any: the lowest one at the earliest place.
  ghost predicate EarliestMatch(targets: seq<seq<byte>>, seen: seq<byte>, r: int) {
    && 0 <= r < |targets| && EndsWith(seen, targets[r])
    && (forall i :: 0 <= i < r ==> !EndsWith(seen, targets[i]))
    && (forall q :: 0 <= q < |seen| ==> NoMatch(targets, seen[..q]))
  }

  ghost predicate NoMatch(targets: seq<seq<byte>>, seen: seq<byte>) {
    forall i :: 0 <= i < |targets| ==> !EndsWith(seen, targets[i])
  }

  ghost predicate NeverMatch(targets: seq<seq<byte>>, seen: seq<byte>) {
    forall q :: 0 <= q <= |seen| ==> NoMatch(targets, seen[..q])
  }

  lemma NoMatchYet(targets: seq<seq<byte>>, seen: seq<byte>, c: byte)
    requires NeverMatch(targets, seen) && NoMatch(targets, seen + [c])
    ensures NeverMatch(targets, seen + [c])
  {
    forall q | 0 <= q <= |seen| + 1
      ensures NoMatch(targets, (seen + [c])[..q])
    {
      assert (seen + [c])[..q] == if q <= |seen| then seen[..q] else seen + [c];
    }
  }

  lemma MatchNow(targets: seq<seq<byte>>, seen: seq<byte>, c: byte, r: nat)
    requires NeverMatch(targets, seen) && r < |targets| && EndsWith(seen + [c], targets[r])
    requires forall i :: 0 <= i < r ==> !EndsWith(seen + [c], targets[i])
    ensures EarliestMatch(targets, seen + [c], r)
  {
    forall q | 0 <= q < |seen| + 1
      ensures NoMatch(targets, (seen + [c])[..q])
    {
      assert (seen + [c])[..q] == seen[..q];
    }
  }

  /** The two outcomes of a search exclude each other, and each fixes where it stopped and what it found. */
  lemma OutcomeUnique(targets: seq<seq<byte>>, input: seq<byte>, p: nat, r: int, q: nat, t: int)
    requires p <= |input| && q <= |input|
    requires EarliestMatch(targets, input[..p], r)
    requires if t == -1 then q == |input| && NeverMatch(targets, input) else EarliestMatch(targets, input[..q], t)
    ensures p == q && r == t
  {
    if p <= q { SliceOfSlice(input, p, q); } else { SliceOfSlice(input, q, p); }
  }

  lemma SliceOfSlice(input: seq<byte>, p: nat, q: nat)
    requires p <= q <= |input|
    ensures input[..q][..p] == input[..p]
  {
  }

  ghost function Strings(targets: seq<MultiTarget>): (s: seq<seq<byte>>)
    ensures |s| == |targets| && forall i :: 0 <= i < |s| ==> s[i] == targets[i].str
  {
    seq(|targets|, i requires 0 <= i < |targets| => targets[i].str)
  }

  class Stream {
    const input: seq<byte> // everything that will arrive before the stream times out
    var pos: nat

    ghost predicate Valid()
      reads this
    {
      pos <= |input|
    }

    constructor (bytes: seq<byte>)
      ensures Valid() && input == bytes && pos == 0
    {
      input := bytes;
      pos := 0;
    }

    // The next byte, or -1 when the wait for it times out.
    method TimedRead() returns (c: int)
      requires Valid()
      modifies this
      ensures Valid()
      ensures old(pos) < |input| ==> c == input[old(pos)] && pos == old(pos) + 1
      ensures old(pos) == |input| ==> c == -1 && pos == old(pos)
    {
      if pos < |input| {
        c := input[pos];
        pos := pos + 1;
      } else {
        c := -1;
      }
    }

    // The byte `TimedRead` would return, left where it is.
    method TimedPeek() returns (c: int)
      requires Valid()
      ensures c == if pos < |input| then input[pos] as int else -1
    {
      c := if pos < |input| then input[pos] as int else -1;
    }

    // `read()` with the byte thrown away.
    method Discard()
      requires Valid()
      modifies this
      ensures Valid() && pos == if old(pos) < |input| then old(pos) + 1 else old(pos)
    {
      if pos < |input| {
        pos := pos + 1;
      }
    }

    /**
     Reads up to the end of the first target to appear, and says which: the
     lowest of those that end there.  -1 says that none of them appears in all
     the stream has to offer.  An empty target counts as found at once.
     */
    method FindMulti(targets: seq<MultiTarget>) returns (r: int)
      requires Valid() && forall t :: t in targets ==> t.index == 0
      requires forall i, j :: 0 <= i < j < |targets| ==> targets[i] != targets[j]
      modifies this, targets
      ensures Valid() && old(pos) <= pos
      ensures var strings, seen := Strings(targets), input[old(pos)..pos];
              if r == -1 then pos == |input| && NeverMatch(strings, seen) else EarliestMatch(strings, seen, r)
    {
      for k := 0 to |targets|
        invariant forall i :: 0 <= i < k ==> targets[i].str != []
      {
        if |targets[k].str| <= 0 {
          assert input[old(pos)..pos] == [];
          return k;
        }
      }
      ghost var start, strings := pos, Strings(targets);
      while true
        invariant Valid() && start <= pos && strings == Strings(targets)
        invariant forall i :: 0 <= i < |targets| ==> Longest(targets[i].str, input[start..pos], targets[i].index)
        invariant NeverMatch(strings, input[start..pos])
        decreases |input| - pos
      {
        ghost var seen := input[start..pos];
        var c := TimedRead();
        if c < 0 {
          return -1;
        }
        assert input[start..pos] == seen + [c];
        r := AdvanceAll(targets, c, seen);
        if r >= 0 {
          MatchNow(strings, seen, c, r);
          return r;
        }
        NoMatchYet(strings, seen, c);
      }
    }

    // One byte for every target in turn, stopping at the first one it completes.
    static method AdvanceAll(targets: seq<MultiTarget>, c: byte, ghost seen: seq<byte>) returns (r: int)
      requires forall i, j :: 0 <= i < j < |targets| ==> targets[i] != targets[j]
      requires forall i :: 0 <= i < |targets| ==> Longest(targets[i].str, seen, targets[i].index)
      modifies targets
      ensures -1 <= r < |targets|
      ensures forall i :: 0 <= i < (if r < 0 then |targets| else r) ==> !EndsWith(seen + [c], targets[i].str)
      ensures r < 0 ==> forall i :: 0 <= i < |targets| ==> Longest(targets[i].str, seen + [c], targets[i].index)
      ensures r >= 0 ==> EndsWith(seen + [c], targets[r].str)
    {
      for k := 0 to |targets|
        invariant forall i :: 0 <= i < k ==> Longest(targets[i].str, seen + [c], targets[i].index)
        invariant forall i :: 0 <= i < k ==> !EndsWith(seen + [c], targets[i].str)
        invariant forall i :: k <= i < |targets| ==> Longest(targets[i].str, seen, targets[i].index)
      {
        var found := targets[k].Advance(c, seen);
        if found {
          return k;
        }
      }
      return -1;
    }

    /** Whether the target appears before the terminator does, or at all if there is no terminator. */
    method FindUntil(target: seq<byte>, terminator: Option<seq<byte>>) returns (found: bool)
      requires Valid()
      modifies this
      ensures Valid() && old(pos) <= pos
      ensures var strings := [target] + (if terminator.Some? then [terminator.value] else []);
              var seen := input[old(pos)..pos];
              if found then EarliestMatch(strings, seen, 0)
              else (pos == |input| && NeverMatch(strings, seen)) || EarliestMatch(strings, seen, 1)
    {
      var t := new MultiTarget(target);
      var targets := [t];
      if terminator.Some? {
        var u := new MultiTarget(terminator.value);
        targets := [t, u];
      }
      ghost var strings := [target] + if terminator.Some? then [terminator.value] else [];
      assert Strings(targets) == strings;
      var r := FindMulti(targets);
      return r == 0;
    }
  }
}
