/** Signed integers as text: printing them, and reading them back from a stream. */
module IntegerText {
  import opened Bits
  import opened Numerals
  import opened StreamSearch
  import opened Basics

  type int32 = x: int | -0x8000_0000 <= x < 0x8000_0000

  const MINUS: byte := 45

  // A result that does not fit a 32-bit long wraps around.
  function Wrap32(x: int): int32 {
    (x + 0x8000_0000) % 0x1_0000_0000 - 0x8000_0000
  }

  function SignedNumeral(n: int): seq<byte> {
    if n < 0 then [MINUS] + Numeral(10, -n) else Numeral(10, n)
  }

  /**
   `print(long, base)`: signed in base 10, the unsigned bit pattern in any other
   base, of which only the low byte counts, and one raw byte in base 0.
   */
  method PrintLong(n: int32, base: int32) returns (text: seq<byte>)
    ensures base == 10 ==> text == SignedNumeral(n)
    ensures base == 0 ==> text == [n % 0x100]
    ensures base != 10 && base != 0 ==> text == Numeral(Base(base % 0x100), n % 0x1_0000_0000)
  {
    Pow2Of64();
    if base == 0 {
      return [n % 0x100];
    } else if base == 10 {
      if n < 0 {
        var digits := PrintPlain(-(n as int), 10, 32);
        return [MINUS] + digits;
      }
      text := PrintPlain(n, 10, 32);
    } else {
      text := PrintPlain(n % 0x1_0000_0000, base % 0x100, 32);
    }
  }

  datatype Lookahead = SkipAll | SkipNone | SkipWhitespace

  predicate IsDigit(c: int) {
    48 <= c <= 57
  }

  predicate IsNumeric(c: int) {
    c == MINUS || IsDigit(c)
  }

  predicate IsSkipped(mode: Lookahead, c: int) {
    mode == SkipAll || (mode == SkipWhitespace && (c == 32 || c == 9 || c == 13 || c == 10))
  }

  // Where the look ahead ends, and what it reports there.
  function Ahead(input: seq<byte>, pos: nat, mode: Lookahead): (nat, int)
    requires pos <= |input|
    decreases |input| - pos
  {
    if pos == |input| then (pos, -1)
    else if IsNumeric(input[pos]) then (pos, input[pos])
    else if IsSkipped(mode, input[pos]) then Ahead(input, pos + 1, mode)
    else (pos, -1)
  }

  datatype Parsed = Parsed(value: int32, negative: bool)

  function Take(p: Parsed, c: byte, ignore: byte): Parsed {
    if c == ignore then p
    else if c == MINUS then p.(negative := true)
    else if IsDigit(c) then p.(value := Wrap32(p.value * 10 + c - 48))
    else p
  }

  // Consuming the byte at pos and all digits and ignored bytes after it.
  function Consume(p: Parsed, input: seq<byte>, pos: nat, ignore: byte): (Parsed, nat)
    requires pos < |input|
    decreases |input| - pos
  {
    var q := Take(p, input[pos], ignore);
    if pos + 1 < |input| && (IsDigit(input[pos + 1]) || input[pos + 1] == ignore)
    then Consume(q, input, pos + 1, ignore)
    else (q, pos + 1)
  }

  function Signed(p: Parsed): int32 {
    if p.negative then Wrap32(-(p.value as int)) else p.value
  }

  // What `parseInt` returns, and where it leaves the stream.
  function ParseAt(input: seq<byte>, pos: nat, mode: Lookahead, ignore: byte): (int32, nat)
    requires pos <= |input|
  {
    var (start, c) := Ahead(input, pos, mode);
    if c < 0 then (0, start)
    else
      AheadStays(input, pos, mode);
      var (p, end) := Consume(Parsed(0, false), input, start, ignore);
      (Signed(p), end)
  }

  lemma {:induction false} AheadStays(input: seq<byte>, pos: nat, mode: Lookahead)
    requires pos <= |input|
    ensures pos <= Ahead(input, pos, mode).0 <= |input|
    ensures Ahead(input, pos, mode).1 >= 0 ==>
              Ahead(input, pos, mode).0 < |input| && Ahead(input, pos, mode).1 == input[Ahead(input, pos, mode).0]
    decreases |input| - pos
  {
    if pos < |input| && !IsNumeric(input[pos]) && IsSkipped(mode, input[pos]) { AheadStays(input, pos + 1, mode); }
  }

  method PeekNextDigit(s: Stream, mode: Lookahead) returns (c: int)
    requires s.Valid()
    modifies s
    ensures s.Valid() && (s.pos, c) == Ahead(s.input, old(s.pos), mode)
  {
    while true
      invariant s.Valid() && Ahead(s.input, s.pos, mode) == Ahead(s.input, old(s.pos), mode)
      decreases |s.input| - s.pos
    {
      c := s.TimedPeek();
      if c < 0 || IsNumeric(c) {
        return;
      }
      if !IsSkipped(mode, c) {
        return -1;
      }
      s.Discard();
    }
  }

  /** Reads one integer: what may be skipped before it, its sign, its digits and the ignored bytes among them. */
  method ParseInt(s: Stream, mode: Lookahead, ignore: byte) returns (value: int32)
    requires s.Valid()
    modifies s
    ensures s.Valid() && (value, s.pos) == ParseAt(s.input, old(s.pos), mode, ignore)
  {
    AheadStays(s.input, s.pos, mode);
    value := 0;
    var isNegative := false;
    var c := PeekNextDigit(s, mode);
    if c < 0 {
      return 0;
    }
    var more := true;
    ghost var result := Consume(Parsed(0, false), s.input, s.pos, ignore);
    while more
      invariant s.Valid() && (more ==> s.pos < |s.input| && c == s.input[s.pos])
      invariant if more then Consume(Parsed(value, isNegative), s.input, s.pos, ignore) == result
                else (Parsed(value, isNegative), s.pos) == result
      decreases more, |s.input| - s.pos
    {
      if c == ignore {
      } else if c == MINUS {
        isNegative := true;
      } else if IsDigit(c) {
        value := Wrap32(value * 10 + c - 48);
      }
      s.Discard();
      c := s.TimedPeek();
      more := IsDigit(c) || c == ignore;
    }
    if isNegative {
      value := Wrap32(-(value as int));
    }
  }

  // ----- Printing and reading back

  function Fold(v: int32, text: seq<byte>): int32
    decreases |text|
  {
    if text == [] then v else Fold(Wrap32(v * 10 + text[0] - 48), text[1..])
  }

  lemma {:induction false} FoldSnoc(v: int32, text: seq<byte>, c: byte)
    ensures Fold(v, text + [c]) == Wrap32(Fold(v, text) * 10 + c - 48)
    decreases |text|
  {
    if text == [] {
      assert ([] + [c])[1..] == [];
    } else {
      SnocTail(text, c);
      FoldSnoc(Wrap32(v * 10 + text[0] - 48), text[1..], c);
    }
  }

  lemma WrapSmall(x: int)
    requires -0x8000_0000 <= x < 0x8000_0000
    ensures Wrap32(x) == x
  {
  }

  lemma LastDigit(m: nat, high: nat, low: nat)
    requires high == m / 10 && low == m % 10
    ensures SomeDigits(10, m) == [low] + if m >= 10 then SomeDigits(10, high) else []
  {
    assert DigitsIn(10, 0) == [];
  }

  lemma NumeralSnoc(m: nat)
    ensures Numeral(10, m) == (if m >= 10 then Numeral(10, m / 10) else []) + [Letter(m % 10)]
    ensures Letter(m % 10) == m % 10 + 48
  {
    LastDigit(m, m / 10, m % 10);
    TextCons(m % 10, if m >= 10 then SomeDigits(10, m / 10) else []);
  }

  /** The text of a number up to 2^31 folds back to it. */
  lemma {:induction false} FoldNumeral(m: nat)
    requires m <= 0x8000_0000
    ensures Numeral(10, m) != []
    ensures Fold(0, Numeral(10, m)) == Wrap32(m)
    ensures forall c :: c in Numeral(10, m) ==> IsDigit(c)
    decreases m
  {
    NumeralSnoc(m);
    if m >= 10 { FoldNumeral(m / 10); }
    WrapSmall(m / 10);
    FoldOn(if m >= 10 then Numeral(10, m / 10) else [], Letter(m % 10), m / 10, m % 10);
  }

  lemma FoldOn(front: seq<byte>, c: byte, high: int32, low: nat)
    requires low < 10 && c == low + 48 && Fold(0, front) == high && forall x :: x in front ==> IsDigit(x)
    ensures Fold(0, front + [c]) == Wrap32(high * 10 + low)
    ensures forall x :: x in front + [c] ==> IsDigit(x)
  {
    FoldSnoc(0, front, c);
  }

  // What is left of a text without the ignored bytes.
  function Without(text: seq<byte>, ignore: byte): seq<byte> {
    if text == [] then [] else (if text[0] == ignore then [] else [text[0]]) + Without(text[1..], ignore)
  }

  lemma {:induction false} WithoutHas(text: seq<byte>, ignore: byte)
    ensures forall c :: c in text && c != ignore ==> c in Without(text, ignore)
    decreases |text|
  {
    if text != [] {
      WithoutHas(text[1..], ignore);
      assert forall c :: c in text ==> c == text[0] || c in text[1..];
    }
  }

  lemma {:induction false} WithoutNone(text: seq<byte>, ignore: byte)
    requires ignore !in text
    ensures Without(text, ignore) == text
    decreases |text|
  {
    if text != [] { WithoutNone(text[1..], ignore); }
  }

  /** A run of digits and ignored bytes is consumed to its end, and to no more; only the digits count. */
  lemma {:induction false} ConsumeDigits(p: Parsed, input: seq<byte>, pos: nat, text: seq<byte>, end: nat, ignore: byte)
    requires text != [] && pos + |text| == end <= |input| && input[pos..end] == text
    requires !IsNumeric(ignore) && forall i :: 0 <= i < |text| ==> IsDigit(text[i]) || text[i] == ignore
    requires end < |input| ==> !IsDigit(input[end]) && input[end] != ignore
    ensures Consume(p, input, pos, ignore) == (p.(value := Fold(p.value, Without(text, ignore))), end)
    decreases |text|
  {
    assert input[pos] == text[0];
    FoldFirst(p.value, text, ignore);
    if |text| > 1 {
      assert input[pos + 1] == text[1] && input[pos + 1..end] == text[1..];
      ConsumeDigits(Take(p, input[pos], ignore), input, pos + 1, text[1..], end, ignore);
    } else {
      assert text[1..] == [];
    }
  }

  lemma FoldFirst(v: int32, text: seq<byte>, ignore: byte)
    requires text != []
    ensures Fold(v, Without(text, ignore)) ==
            Fold(if text[0] == ignore then v else Wrap32(v * 10 + text[0] - 48), Without(text[1..], ignore))
  {
    if text[0] == ignore {
      assert Without(text, ignore) == Without(text[1..], ignore);
    } else {
      assert Without(text, ignore) == [text[0]] + Without(text[1..], ignore);
      assert Without(text, ignore)[1..] == Without(text[1..], ignore);
    }
  }

  // What may come before a number.
  predicate MayPrecede(mode: Lookahead, c: byte) {
    match mode
    case SkipAll => c != 45 && !(48 <= c <= 57)
    case SkipWhitespace => c == 9 || c == 10 || c == 13 || c == 32
    case SkipNone => false
  }

  lemma {:induction false} SkipPrefix(prefix: seq<byte>, rest: seq<byte>, pos: nat, mode: Lookahead)
    requires pos <= |prefix| && forall c :: c in prefix ==> MayPrecede(mode, c)
    ensures Ahead(prefix + rest, pos, mode) == Ahead(prefix + rest, |prefix|, mode)
    decreases |prefix| - pos
  {
    if pos < |prefix| {
      assert (prefix + rest)[pos] == prefix[pos] && MayPrecede(mode, prefix[pos]);
      SkipPrefix(prefix, rest, pos + 1, mode);
    }
  }

  /** Where no number follows what may be skipped, the result is 0, and nothing more is consumed. */
  lemma NothingToParse(prefix: seq<byte>, rest: seq<byte>, mode: Lookahead, ignore: byte)
    requires forall c :: c in prefix ==> MayPrecede(mode, c)
    requires rest != [] ==> !MayPrecede(mode, rest[0]) && rest[0] != 45 && !(48 <= rest[0] <= 57)
    ensures ParseAt(prefix + rest, 0, mode, ignore) == (0, |prefix|)
  {
    SkipPrefix(prefix, rest, 0, mode);
    if rest != [] { assert (prefix + rest)[|prefix|] == rest[0]; }
  }

  /**
   Round trip: the text of a printed long, with ignored bytes strewn in among
   its digits, after anything the mode skips and before anything that cannot be
   taken for more of it, is read back as the same number, and exactly its text
   is consumed.
   */
  lemma ParseScattered(prefix: seq<byte>, n: int32, body: seq<byte>, rest: seq<byte>, mode: Lookahead, ignore: byte)
    requires !IsNumeric(ignore) && forall c :: c in prefix ==> MayPrecede(mode, c)
    requires Without(body, ignore) == Numeral(10, if n < 0 then -(n as int) else n)
    requires n >= 0 ==> body != [] && body[0] != ignore
    requires rest != [] ==> !IsDigit(rest[0]) && rest[0] != ignore
    ensures var text := (if n < 0 then [MINUS] else []) + body;
            ParseAt(prefix + text + rest, 0, mode, ignore) == (n, |prefix + text|)
  {
    var sign := if n < 0 then [MINUS] else [];
    var digits := NumeralText(Magnitude(n));
    BodyIs(body, digits, ignore);
    SignedParts(n, sign, digits);
    var input := prefix + (sign + body) + rest;
    ParseSigned(input, prefix, sign, body, rest, |prefix + (sign + body)|, mode, ignore);
  }

  /** In particular the text as it was printed. */
  lemma PrintParseRoundTrip(prefix: seq<byte>, n: int32, rest: seq<byte>, mode: Lookahead, ignore: byte)
    requires !IsNumeric(ignore) && forall c :: c in prefix ==> MayPrecede(mode, c)
    requires rest != [] ==> !IsDigit(rest[0]) && rest[0] != ignore
    ensures ParseAt(prefix + SignedNumeral(n) + rest, 0, mode, ignore) == (n, |prefix + SignedNumeral(n)|)
  {
    var digits := NumeralText(Magnitude(n));
    WithoutNone(digits, ignore);
    ParseScattered(prefix, n, digits, rest, mode, ignore);
    assert (if n < 0 then [MINUS] else []) + digits == SignedNumeral(n);
  }

  /** A printed long is a minus sign, if need be, and the numeral of its magnitude. */
  lemma SignedReads(n: int32)
    ensures n < 0 ==> SignedNumeral(n) != [] && SignedNumeral(n)[0] == 45
    ensures ReadIn(10, if n < 0 then SignedNumeral(n)[1..] else SignedNumeral(n)) == Some(Magnitude(n))
  {
    NumeralReads(10, Magnitude(n));
    if n < 0 { assert SignedNumeral(n)[1..] == Numeral(10, Magnitude(n)); }
  }

  lemma NumeralText(m: nat) returns (digits: seq<byte>)
    requires m <= 0x8000_0000
    ensures digits == Numeral(10, m) && digits != [] && Fold(0, digits) == Wrap32(m)
    ensures forall c :: c in digits ==> IsDigit(c)
  {
    FoldNumeral(m);
    digits := Numeral(10, m);
  }

  lemma BodyIs(body: seq<byte>, digits: seq<byte>, ignore: byte)
    requires Without(body, ignore) == digits != [] && forall c :: c in digits ==> IsDigit(c)
    ensures body != [] && forall i :: 0 <= i < |body| ==> IsDigit(body[i]) || body[i] == ignore
  {
    WithoutHas(body, ignore);
    assert forall i :: 0 <= i < |body| ==> body[i] in body;
  }

  function Magnitude(n: int): nat {
    if n < 0 then -n else n
  }

  lemma SignedParts(n: int32, sign: seq<byte>, digits: seq<byte>)
    requires digits == Numeral(10, Magnitude(n)) && sign == if n < 0 then [MINUS] else []
    ensures SignedNumeral(n) == sign + digits
    ensures Signed(Parsed(Wrap32(Magnitude(n)), sign != [])) == n
  {
    if n == -0x8000_0000 {
      assert Wrap32(0x8000_0000) == -0x8000_0000;
    } else {
      WrapSmall(Magnitude(n));
      WrapSmall(n);
    }
    assert n >= 0 ==> [] + digits == digits;
  }

  lemma ParseSigned(input: seq<byte>, prefix: seq<byte>, sign: seq<byte>, body: seq<byte>, rest: seq<byte>, end: nat,
                    mode: Lookahead, ignore: byte)
    requires input == prefix + (sign + body) + rest && end == |prefix + (sign + body)|
    requires sign == [] || sign == [MINUS]
    requires forall c :: c in prefix ==> MayPrecede(mode, c)
    requires !IsNumeric(ignore) && body != []
    requires forall i :: 0 <= i < |body| ==> IsDigit(body[i]) || body[i] == ignore
    requires sign == [] ==> body[0] != ignore
    requires rest != [] ==> !IsDigit(rest[0]) && rest[0] != ignore
    ensures ParseAt(input, 0, mode, ignore) == (Signed(Parsed(Fold(0, Without(body, ignore)), sign != [])), end)
  {
    var tail := Placed(input, prefix, sign, body, rest, end);
    SkipPrefix(prefix, tail, 0, mode);
    ParseLaidOut(input, |prefix|, sign != [], body, end, mode, ignore);
  }

  // Where the pieces of a text end up when they are put together.
  lemma Placed(input: seq<byte>, prefix: seq<byte>, sign: seq<byte>, body: seq<byte>, rest: seq<byte>, end: nat)
    returns (tail: seq<byte>)
    requires input == prefix + (sign + body) + rest && end == |prefix + (sign + body)|
    requires |sign| <= 1 && body != []
    ensures input == prefix + tail && tail != []
    ensures tail[0] == input[|prefix|] == if sign != [] then sign[0] else body[0]
    ensures end <= |input| && input[|prefix| + |sign|..end] == body
    ensures (end < |input| <==> rest != []) && (rest != [] ==> input[end] == rest[0])
  {
    tail := sign + body + rest;
  }

  // The same with every piece in its place.
  lemma ParseLaidOut(input: seq<byte>, p: nat, negative: bool, body: seq<byte>, end: nat, mode: Lookahead, ignore: byte)
    requires p < |input| && Ahead(input, 0, mode) == (p, input[p] as int)
    requires var start := if negative then p + 1 else p;
             start + |body| == end <= |input| && input[start..end] == body
    requires negative ==> input[p] == MINUS
    requires !IsNumeric(ignore) && body != []
    requires forall i :: 0 <= i < |body| ==> IsDigit(body[i]) || body[i] == ignore
    requires end < |input| ==> !IsDigit(input[end]) && input[end] != ignore
    ensures ParseAt(input, 0, mode, ignore) == (Signed(Parsed(Fold(0, Without(body, ignore)), negative)), end)
  {
    var start := if negative then p + 1 else p;
    assert input[start] == body[0];
    ConsumeDigits(Parsed(0, negative), input, start, body, end, ignore);
  }
}
