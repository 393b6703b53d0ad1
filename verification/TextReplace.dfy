/** Replacing text inside a NUL-terminated buffer, in place, by text that is not longer. */
module TextReplace {
  import opened Bits

  ghost predicate OccursAt(s: seq<byte>, find: seq<byte>, i: nat) {
    i + |find| <= |s| && forall j :: 0 <= j < |find| ==> find[j] == s[i + j]
  }

  // The first occurrence at or after a place, or -1.
  ghost function FirstFrom(s: seq<byte>, find: seq<byte>, i: nat): (r: int)
    requires i <= |s|
    ensures r == -1 || i <= r <= |s| - |find|
    decreases |s| - i
  {
    if OccursAt(s, find, i) then i else if i == |s| then -1 else FirstFrom(s, find, i + 1)
  }

  /** The text from a place on with all occurrences replaced, from the left, without looking at replaced text again. */
  ghost function Replaced(s: seq<byte>, find: seq<byte>, repl: seq<byte>, from: nat): seq<byte>
    requires find != [] && from <= |s|
    decreases |s| - from
  {
    if OccursAt(s, find, from) then repl + Replaced(s, find, repl, from + |find|)
    else if from == |s| then [] else [s[from]] + Replaced(s, find, repl, from + 1)
  }

  // How many occurrences are replaced.
  ghost function Count(s: seq<byte>, find: seq<byte>, from: nat): nat
    requires find != [] && from <= |s|
    decreases |s| - from
  {
    if OccursAt(s, find, from) then 1 + Count(s, find, from + |find|)
    else if from == |s| then 0 else Count(s, find, from + 1)
  }

  // c replacements that each change the length by d.
  ghost function Grown(c: nat, d: int): int {
    c * d
  }

  lemma OneMore(c: nat, d: int)
    ensures Grown(1 + c, d) == d + Grown(c, d)
  {
  }

  // ----- Cutting at the occurrences

  // Pieces put together with a separator between each two.
  ghost function Joined(pieces: seq<seq<byte>>, separator: seq<byte>): seq<byte>
    requires pieces != []
  {
    if |pieces| == 1 then pieces[0] else pieces[0] + (separator + Joined(pieces[1..], separator))
  }

  ghost predicate Absent(find: seq<byte>, s: seq<byte>, before: nat) {
    forall i :: 0 <= i < before ==> !OccursAt(s, find, i)
  }

  // Before each separator, and in the last piece, there is no occurrence that begins earlier.
  ghost predicate CutAt(pieces: seq<seq<byte>>, find: seq<byte>)
    requires pieces != []
  {
    if |pieces| == 1 then Absent(find, pieces[0], |pieces[0]|)
    else Absent(find, pieces[0] + find, |pieces[0]|) && CutAt(pieces[1..], find)
  }

  lemma OccursShift(s: seq<byte>, t: seq<byte>, find: seq<byte>, from: nat, k: nat)
    requires from + k <= |s| && t == s[from..]
    ensures OccursAt(s, find, from + k) <==> OccursAt(t, find, k)
  {
    assert forall j :: 0 <= j < |t| ==> t[j] == s[from + j];
    if OccursAt(t, find, k) {
      assert forall j :: 0 <= j < |find| ==> find[j] == t[k + j] == s[from + k + j];
    }
  }

  lemma {:induction false} ReplacedShift(s: seq<byte>, t: seq<byte>, find: seq<byte>, repl: seq<byte>, from: nat,
                                         k: nat)
    requires find != [] && from + k <= |s| && t == s[from..]
    ensures Replaced(s, find, repl, from + k) == Replaced(t, find, repl, k)
    decreases |t| - k
  {
    OccursShift(s, t, find, from, k);
    if OccursAt(t, find, k) {
      ReplacedShift(s, t, find, repl, from, k + |find|);
      assert from + (k + |find|) == from + k + |find|;
    } else if k < |t| {
      ReplacedShift(s, t, find, repl, from, k + 1);
      assert from + (k + 1) == from + k + 1 && s[from + k] == t[k];
    }
  }

  lemma {:induction false} CopiedWhile(s: seq<byte>, find: seq<byte>, repl: seq<byte>, from: nat, end: nat)
    requires find != [] && from <= end <= |s| && Absent(find, s, end)
    ensures Replaced(s, find, repl, from) == s[from..end] + Replaced(s, find, repl, end)
    decreases end - from
  {
    if from < end {
      CopiedWhile(s, find, repl, from + 1, end);
      HeadOfSlice(s, from, end, Replaced(s, find, repl, end));
    } else {
      assert s[from..end] == [];
    }
  }

  lemma SameOccurrence(a: seq<byte>, b: seq<byte>, find: seq<byte>, i: nat)
    requires a <= b && i + |find| <= |a|
    ensures OccursAt(a, find, i) <==> OccursAt(b, find, i)
  {
    assert forall j :: 0 <= j < |a| ==> a[j] == b[j];
  }

  lemma AbsentInWhole(piece: seq<byte>, find: seq<byte>, s: seq<byte>)
    requires piece + find <= s && Absent(find, piece + find, |piece|)
    ensures Absent(find, s, |piece|)
  {
    forall i | 0 <= i < |piece|
      ensures !OccursAt(s, find, i)
    {
      SameOccurrence(piece + find, s, find, i);
    }
  }

  /** Replacing is joining the same pieces by the replacement. */
  lemma {:induction false} ReplacedIsJoined(pieces: seq<seq<byte>>, find: seq<byte>, repl: seq<byte>)
    requires pieces != [] && find != [] && CutAt(pieces, find)
    ensures Replaced(Joined(pieces, find), find, repl, 0) == Joined(pieces, repl)
    decreases |pieces|
  {
    var s, p := Joined(pieces, find), pieces[0];
    if |pieces| == 1 {
      CopiedWhile(s, find, repl, 0, |s|);
    } else {
      var rest := Joined(pieces[1..], find);
      FirstPiece(p, find, rest, s);
      ReplacedIsJoined(pieces[1..], find, repl);
      PieceReplaced(s, p, find, repl, rest);
    }
  }

  lemma {:induction false} PieceReplaced(s: seq<byte>, p: seq<byte>, find: seq<byte>, repl: seq<byte>, rest: seq<byte>)
    requires find != [] && |p| + |find| <= |s| && s[0..|p|] == p && s[|p| + |find|..] == rest
    requires OccursAt(s, find, |p|) && Absent(find, s, |p|)
    ensures Replaced(s, find, repl, 0) == p + (repl + Replaced(rest, find, repl, 0))
  {
    var end := |p| + |find|;
    CopiedWhile(s, find, repl, 0, |p|);
    assert Replaced(s, find, repl, |p|) == repl + Replaced(s, find, repl, end);
    ReplacedShift(s, rest, find, repl, end, 0);
  }

  lemma FirstPiece(p: seq<byte>, find: seq<byte>, rest: seq<byte>, s: seq<byte>)
    requires s == p + (find + rest) && Absent(find, p + find, |p|)
    ensures |p| + |find| <= |s| && s[..|p|] == p && s[0..|p|] == p && s[|p| + |find|..] == rest
    ensures OccursAt(s, find, |p|) && Absent(find, s, |p|)
  {
    assert s == (p + find) + rest;
    assert s[..|p + find|] == p + find;
    AbsentInWhole(p, find, s);
  }

  /** Every text can be cut so. */
  lemma {:induction false} CutExists(s: seq<byte>, find: seq<byte>) returns (pieces: seq<seq<byte>>)
    requires find != []
    ensures pieces != [] && CutAt(pieces, find) && Joined(pieces, find) == s
    decreases |s|
  {
    var i := FirstFrom(s, find, 0);
    FirstIsFirst(s, find, 0);
    if i < 0 {
      pieces := [s];
    } else {
      var rest := s[i + |find|..];
      var more := CutExists(rest, find);
      pieces := [s[..i]] + more;
      assert pieces[1..] == more;
      OccursSlice(s, find, i, i + |find|);
      assert s == s[..i] + (find + rest);
      CutHere(s, find, i);
    }
  }

  lemma {:induction false} FirstIsFirst(s: seq<byte>, find: seq<byte>, from: nat)
    requires find != [] && from <= |s|
    ensures var r := FirstFrom(s, find, from);
            && (r >= 0 ==> OccursAt(s, find, r))
            && forall i :: from <= i < (if r >= 0 then r else |s|) ==> !OccursAt(s, find, i)
    decreases |s| - from
  {
    if !OccursAt(s, find, from) && from < |s| { FirstIsFirst(s, find, from + 1); }
  }

  lemma CutHere(s: seq<byte>, find: seq<byte>, i: nat)
    requires OccursAt(s, find, i) && forall k :: 0 <= k < i ==> !OccursAt(s, find, k)
    ensures Absent(find, s[..i] + find, i)
  {
    assert s[..i] + find == s[..i + |find|];
    forall k | 0 <= k < i
      ensures !OccursAt(s[..i] + find, find, k)
    {
      SameOccurrence(s[..i] + find, s, find, k);
    }
  }

  /** The length changes by the difference for every occurrence, and by nothing else. */
  lemma {:induction false} ReplacedLength(s: seq<byte>, find: seq<byte>, repl: seq<byte>, from: nat)
    requires find != [] && from <= |s|
    ensures |Replaced(s, find, repl, from)| == |s| - from + Grown(Count(s, find, from), |repl| - |find|)
    decreases |s| - from
  {
    if OccursAt(s, find, from) {
      ReplacedLength(s, find, repl, from + |find|);
      OneMore(Count(s, find, from + |find|), |repl| - |find|);
    } else if from < |s| {
      ReplacedLength(s, find, repl, from + 1);
    }
  }

  /** Replacing text by itself changes nothing. */
  lemma {:induction false} ReplacedBySame(s: seq<byte>, find: seq<byte>, from: nat)
    requires find != [] && from <= |s|
    ensures Replaced(s, find, find, from) == s[from..]
    decreases |s| - from
  {
    if OccursAt(s, find, from) {
      var end := from + |find|;
      ReplacedBySame(s, find, end);
      OccursSlice(s, find, from, end);
    } else if from < |s| {
      ReplacedBySame(s, find, from + 1);
    }
  }

  lemma OccursSlice(s: seq<byte>, find: seq<byte>, i: nat, end: nat)
    requires OccursAt(s, find, i) && end == i + |find|
    ensures s[i..] == find + s[end..]
  {
    assert s[i..end] == find;
  }

  /** What the search found ends a stretch that is copied. */
  lemma {:induction false} CopiedUpTo(s: seq<byte>, find: seq<byte>, repl: seq<byte>, from: nat, i: nat)
    requires find != [] && from <= i <= |s| && FirstFrom(s, find, from) == i
    ensures OccursAt(s, find, i) && Replaced(s, find, repl, from) == s[from..i] + Replaced(s, find, repl, i)
    decreases |s| - from
  {
    if from < i {
      CopiedUpTo(s, find, repl, from + 1, i);
      HeadOfSlice(s, from, i, Replaced(s, find, repl, i));
    } else {
      assert s[from..i] == [];
    }
  }

  lemma HeadOfSlice(s: seq<byte>, a: nat, b: nat, rest: seq<byte>)
    requires a < b <= |s|
    ensures [s[a]] + (s[a + 1..b] + rest) == s[a..b] + rest
  {
    assert s[a..b] == [s[a]] + s[a + 1..b];
  }

  lemma {:induction false} NothingFound(s: seq<byte>, find: seq<byte>, repl: seq<byte>, from: nat)
    requires find != [] && from <= |s| && FirstFrom(s, find, from) < 0
    ensures Replaced(s, find, repl, from) == s[from..]
    decreases |s| - from
  {
    if from < |s| {
      NothingFound(s, find, repl, from + 1);
      assert s[from..] == [s[from]] + s[from + 1..];
    }
  }

  ghost predicate NoNul(s: seq<byte>) {
    forall i :: 0 <= i < |s| ==> s[i] != 0
  }

  lemma JoinNoNul(a: seq<byte>, b: seq<byte>)
    requires NoNul(a) && NoNul(b)
    ensures NoNul(a + b)
  {
  }

  // With `done` written for the text before a place, replacing goes on there.
  ghost predicate Leads(s: seq<byte>, find: seq<byte>, repl: seq<byte>, goal: seq<byte>, done: seq<byte>, from: nat)
    requires find != [] && from <= |s|
  {
    done + Replaced(s, find, repl, from) == goal
  }

  lemma OneReplaced(s: seq<byte>, find: seq<byte>, repl: seq<byte>, goal: seq<byte>, done: seq<byte>, from: nat, i: nat,
                    next: nat)
    requires find != [] && from <= |s| && i == FirstFrom(s, find, from) && Leads(s, find, repl, goal, done, from)
    requires next == i + |find|
    ensures Leads(s, find, repl, goal, done + s[from..i] + repl, next)
  {
    CopiedUpTo(s, find, repl, from, i);
    assert Replaced(s, find, repl, i) == repl + Replaced(s, find, repl, next);
    Rebracket(done, s[from..i], repl, Replaced(s, find, repl, next));
  }

  lemma AllDone(s: seq<byte>, find: seq<byte>, repl: seq<byte>, goal: seq<byte>, done: seq<byte>, from: nat)
    requires find != [] && from <= |s| && FirstFrom(s, find, from) < 0 && Leads(s, find, repl, goal, done, from)
    requires NoNul(s) && NoNul(done)
    ensures done + s[from..] == goal && NoNul(goal)
  {
    NothingFound(s, find, repl, from);
    JoinNoNul(done, s[from..]);
  }

  lemma Rebracket(a: seq<byte>, b: seq<byte>, c: seq<byte>, d: seq<byte>)
    ensures a + (b + (c + d)) == (a + b + c) + d
  {
  }

  class String {
    const buffer: array<byte>
    var len: nat

    ghost predicate Valid()
      reads this, buffer
    {
      len < buffer.Length && buffer[len] == 0 && NoNul(buffer[..len])
    }

    ghost function Text(): seq<byte>
      reads this, buffer
      requires len <= buffer.Length
    {
      buffer[..len]
    }

    constructor (text: seq<byte>)
      requires NoNul(text)
      ensures Valid() && Text() == text
    {
      buffer := new byte[|text| + 1](i requires 0 <= i <= |text| => if i < |text| then text[i] else 0);
      len := |text|;
    }

    // From a place on the buffer still holds the text s, and its terminator.
    ghost predicate Holds(s: seq<byte>, from: nat)
      reads this, buffer
    {
      from <= |s| < buffer.Length && buffer[|s|] == 0 && NoNul(s) && forall i :: from <= i < |s| ==> buffer[i] == s[i]
    }

    // Does the pattern stand at p?
    method MatchesAt(p: nat, find: seq<byte>, ghost s: seq<byte>) returns (found: bool)
      requires Holds(s, p) && NoNul(find)
      ensures found <==> OccursAt(s, find, p)
    {
      var k := 0;
      while k < |find| && buffer[p + k] == find[k]
        invariant 0 <= k <= |find| && p + k <= |s|
        invariant forall j :: 0 <= j < k ==> s[p + j] == find[j]
      {
        assert p + k < |s|;
        k := k + 1;
      }
      return k == |find|;
    }

    // The first occurrence at or after a place, as `strstr` finds it, reading no further than the terminator.
    method StrStr(from: nat, find: seq<byte>, ghost s: seq<byte>) returns (foundAt: int)
      requires Holds(s, from) && find != [] && NoNul(find)
      ensures foundAt == FirstFrom(s, find, from)
    {
      var p := from;
      while buffer[p] != 0
        invariant from <= p <= |s| && FirstFrom(s, find, p) == FirstFrom(s, find, from)
        decreases |s| - p
      {
        var found := MatchesAt(p, find, s);
        if found {
          return p;
        }
        p := p + 1;
      }
      return -1;
    }

    // `memcpy` from a text.
    method CopyText(at: nat, src: seq<byte>)
      requires at + |src| <= buffer.Length
      modifies buffer
      ensures buffer[..at] == old(buffer[..at]) && buffer[at..at + |src|] == src
      ensures forall i :: at + |src| <= i < buffer.Length ==> buffer[i] == old(buffer[i])
    {
      forall i | 0 <= i < |src| {
        buffer[at + i] := src[i];
      }
    }

    // `memcpy` of n bytes towards the front of the buffer.
    method MoveDown(to: nat, from: nat, n: nat)
      requires to <= from && from + n <= buffer.Length
      modifies buffer
      ensures buffer[..to] == old(buffer[..to]) && buffer[to..to + n] == old(buffer[from..from + n])
      ensures forall i :: to + n <= i < buffer.Length ==> buffer[i] == old(buffer[i])
    {
      forall i | 0 <= i < n {
        buffer[to + i] := buffer[from + i];
      }
    }

    // `strcpy` of the rest of the text, terminator included, towards the front.
    method StrCpy(to: nat, from: nat, ghost s: seq<byte>)
      requires Holds(s, from) && to <= from
      modifies buffer
      ensures buffer[..to] == old(buffer[..to])
      ensures to + |s| - from < buffer.Length
      ensures buffer[to..to + |s| - from] == s[from..] && buffer[to + |s| - from] == 0
    {
      var i := 0;
      while buffer[from + i] != 0
        invariant 0 <= i <= |s| - from && Holds(s, from + i)
        invariant buffer[..to] == old(buffer[..to])
        invariant buffer[to..to + i] == s[from..from + i]
        decreases |s| - from - i
      {
        ghost var copied := buffer[to..to + i];
        ghost var kept := buffer[..to];
        buffer[to + i] := buffer[from + i];
        assert buffer[..to] == kept;
        assert buffer[to..to + i + 1] == copied + [s[from + i]];
        i := i + 1;
      }
      ghost var copied := buffer[to..to + i];
      ghost var kept := buffer[..to];
      buffer[to + i] := 0;
      assert buffer[..to] == kept && buffer[to..to + i] == copied;
    }

    // Puts a text behind what has been written; from `to` on everything stays.
    method Put(at: nat, src: seq<byte>, ghost s: seq<byte>, ghost from: nat, ghost to: nat)
      requires Holds(s, from) && from <= to <= |s| && at + |src| <= to
      modifies buffer
      ensures Holds(s, to) && buffer[..at + |src|] == old(buffer[..at]) + src
    {
      CopyText(at, src);
      assert buffer[..at + |src|] == buffer[..at] + buffer[at..at + |src|];
    }

    // Moves n bytes of the text behind what has been written.
    method Shift(to: nat, from: nat, n: nat, ghost s: seq<byte>)
      requires Holds(s, from) && to <= from && from + n <= |s|
      modifies buffer
      ensures Holds(s, from + n) && buffer[..to + n] == old(buffer[..to]) + s[from..from + n]
    {
      assert buffer[from..from + n] == s[from..from + n];
      MoveDown(to, from, n);
      assert buffer[..to + n] == buffer[..to] + buffer[to..to + n];
    }

    // One replacement of the same length, in its place; what follows it stays.
    method Overwrite(foundAt: nat, repl: seq<byte>, ghost s: seq<byte>, ghost readFrom: nat)
      returns (ghost done: seq<byte>)
      requires Holds(s, readFrom) && readFrom <= foundAt && foundAt + |repl| <= |s|
      requires NoNul(buffer[..readFrom]) && NoNul(repl)
      modifies buffer
      ensures Holds(s, foundAt + |repl|)
      ensures done == old(buffer[..readFrom]) + s[readFrom..foundAt] + repl && NoNul(done)
      ensures buffer[..foundAt + |repl|] == done
    {
      ghost var before := buffer[..readFrom];
      assert buffer[..foundAt] == before + s[readFrom..foundAt];
      JoinNoNul(before, s[readFrom..foundAt]);
      JoinNoNul(before + s[readFrom..foundAt], repl);
      Put(foundAt, repl, s, foundAt, foundAt + |repl|);
      done := before + s[readFrom..foundAt] + repl;
    }

    lemma RestStays(s: seq<byte>, done: seq<byte>, readFrom: nat)
      requires Holds(s, readFrom) && done == buffer[..readFrom]
      ensures buffer[..|s|] == done + s[readFrom..]
    {
    }

    // One round of the loop below: what is written still leads to the goal.
    method OverwriteNext(find: seq<byte>, repl: seq<byte>, foundAt: nat, ghost s: seq<byte>, ghost goal: seq<byte>,
                         ghost readFrom: nat, ghost done: seq<byte>)
      returns (ghost more: seq<byte>)
      requires Holds(s, readFrom) && done == buffer[..readFrom] && NoNul(done) && NoNul(repl) && |repl| == |find|
      requires find != [] && foundAt == FirstFrom(s, find, readFrom) && Leads(s, find, repl, goal, done, readFrom)
      modifies buffer
      ensures Holds(s, foundAt + |find|) && more == buffer[..foundAt + |find|] && NoNul(more)
      ensures Leads(s, find, repl, goal, more, foundAt + |find|)
    {
      OneReplaced(s, find, repl, goal, done, readFrom, foundAt, foundAt + |find|);
      more := Overwrite(foundAt, repl, s, readFrom);
    }

    // Replacements of the same length overwrite what they replace.
    method ReplaceSameLength(find: seq<byte>, repl: seq<byte>)
      requires Valid() && find != [] && NoNul(find) && NoNul(repl) && |repl| == |find|
      modifies buffer
      ensures Valid() && Text() == Replaced(old(Text()), find, repl, 0)
    {
      ghost var s, done: seq<byte> := Text(), [];
      ghost var goal := Replaced(s, find, repl, 0);
      var readFrom := 0;
      var foundAt := StrStr(readFrom, find, s);
      while foundAt >= 0
        invariant 0 <= readFrom <= |s| == len && Holds(s, readFrom)
        invariant done == buffer[..readFrom] && NoNul(done)
        invariant foundAt == FirstFrom(s, find, readFrom)
        invariant Leads(s, find, repl, goal, done, readFrom)
        decreases |s| - readFrom
      {
        done := OverwriteNext(find, repl, foundAt, s, goal, readFrom, done);
        readFrom := foundAt + |repl|;
        foundAt := StrStr(readFrom, find, s);
      }
      AllDone(s, find, repl, goal, done, readFrom);
      RestStays(s, done, readFrom);
    }

    // One shorter replacement: the text before it moves down, and it follows there.
    method MoveAndPut(writeTo: nat, readFrom: nat, foundAt: nat, repl: seq<byte>, ghost s: seq<byte>)
      returns (ghost done: seq<byte>)
      requires Holds(s, readFrom) && writeTo <= readFrom <= foundAt && foundAt + |repl| <= |s|
      requires NoNul(buffer[..writeTo]) && NoNul(repl)
      modifies buffer
      ensures Holds(s, foundAt + |repl|)
      ensures done == old(buffer[..writeTo]) + s[readFrom..foundAt] + repl && NoNul(done)
      ensures buffer[..writeTo + (foundAt - readFrom) + |repl|] == done
    {
      ghost var before := buffer[..writeTo];
      var n := foundAt - readFrom;
      JoinNoNul(before, s[readFrom..foundAt]);
      JoinNoNul(before + s[readFrom..foundAt], repl);
      Shift(writeTo, readFrom, n, s);
      Put(writeTo + n, repl, s, foundAt, foundAt + |repl|);
      done := before + s[readFrom..foundAt] + repl;
    }

    // One round of the loop below.
    method MoveAndPutNext(writeTo: nat, readFrom: nat, foundAt: nat, find: seq<byte>, repl: seq<byte>,
                          ghost s: seq<byte>, ghost goal: seq<byte>, ghost done: seq<byte>,
                          ghost writeNext: nat, ghost readNext: nat)
      returns (ghost more: seq<byte>)
      requires Holds(s, readFrom) && writeTo <= readFrom && done == buffer[..writeTo] && NoNul(done) && NoNul(repl)
      requires |repl| < |find| && foundAt == FirstFrom(s, find, readFrom) && Leads(s, find, repl, goal, done, readFrom)
      requires writeNext == writeTo + (foundAt - readFrom) + |repl| && readNext == foundAt + |find|
      modifies buffer
      ensures Holds(s, readNext) && more == buffer[..writeNext] && NoNul(more)
      ensures Leads(s, find, repl, goal, more, readNext)
    {
      OneReplaced(s, find, repl, goal, done, readFrom, foundAt, readNext);
      more := MoveAndPut(writeTo, readFrom, foundAt, repl, s);
    }

    // After the last replacement the rest of the text moves down.
    method MoveRest(ghost find: seq<byte>, ghost repl: seq<byte>, writeTo: nat, readFrom: nat, ghost s: seq<byte>,
                    ghost goal: seq<byte>, ghost done: seq<byte>, ghost end: nat)
      requires Holds(s, readFrom) && writeTo <= readFrom && done == buffer[..writeTo] && NoNul(done)
      requires find != [] && FirstFrom(s, find, readFrom) < 0 && Leads(s, find, repl, goal, done, readFrom)
      requires end == writeTo + |s| - readFrom
      modifies buffer
      ensures end < buffer.Length && buffer[end] == 0 && buffer[..end] == goal && NoNul(goal)
    {
      AllDone(s, find, repl, goal, done, readFrom);
      StrCpy(writeTo, readFrom, s);
      assert buffer[..end] == buffer[..writeTo] + buffer[writeTo..end];
    }

    // Shorter ones close ranks: what is written never reaches what has not been read.
    method ReplaceShorter(find: seq<byte>, repl: seq<byte>)
      requires Valid() && NoNul(find) && NoNul(repl) && |repl| < |find|
      modifies this, buffer
      ensures Valid() && Text() == Replaced(old(Text()), find, repl, 0)
    {
      ghost var s := Text();
      ghost var goal := Replaced(s, find, repl, 0);
      var readFrom, writeTo;
      ghost var done;
      readFrom, writeTo, done := ReplaceAll(find, repl, s, goal);
      MoveRest(find, repl, writeTo, readFrom, s, goal, done, len);
    }

    // The loop over the occurrences.
    method ReplaceAll(find: seq<byte>, repl: seq<byte>, ghost s: seq<byte>, ghost goal: seq<byte>)
      returns (readFrom: nat, writeTo: nat, ghost done: seq<byte>)
      requires NoNul(find) && NoNul(repl) && |repl| < |find|
      requires Holds(s, 0) && len == |s| && goal == Replaced(s, find, repl, 0)
      modifies this, buffer
      ensures Holds(s, readFrom) && writeTo <= readFrom && done == buffer[..writeTo] && NoNul(done)
      ensures FirstFrom(s, find, readFrom) < 0 && Leads(s, find, repl, goal, done, readFrom)
      ensures len == |s| - readFrom + writeTo
    {
      readFrom, writeTo, done := 0, 0, [];
      var foundAt := StrStr(readFrom, find, s);
      while foundAt >= 0
        invariant 0 <= writeTo <= readFrom <= |s| && Holds(s, readFrom)
        invariant done == buffer[..writeTo] && NoNul(done)
        invariant foundAt == FirstFrom(s, find, readFrom) && len == |s| - readFrom + writeTo
        invariant Leads(s, find, repl, goal, done, readFrom)
        decreases |s| - readFrom
      {
        ghost var writeNext, readNext := writeTo + (foundAt - readFrom) + |repl|, foundAt + |find|;
        done := MoveAndPutNext(writeTo, readFrom, foundAt, find, repl, s, goal, done, writeNext, readNext);
        writeTo := writeTo + (foundAt - readFrom) + |repl|;
        readFrom := foundAt + |find|;
        len := len + |repl| - |find|;
        foundAt := StrStr(readFrom, find, s);
      }
    }

    /** Every occurrence, from the left and without overlaps, is replaced; length and terminator follow. */
    method Replace(find: seq<byte>, repl: seq<byte>)
      requires Valid() && NoNul(find) && NoNul(repl) && |repl| <= |find|
      modifies this, buffer
      ensures Valid()
      ensures Text() == if find == [] then old(Text()) else Replaced(old(Text()), find, repl, 0)
    {
      if len == 0 || |find| == 0 {
        return;
      }
      if |repl| == |find| {
        ReplaceSameLength(find, repl);
      } else {
        ReplaceShorter(find, repl);
      }
    }
  }
}
