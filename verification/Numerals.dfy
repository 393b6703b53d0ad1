/** Printing integers: a fast algorithm in 16-bit chunks, and the plain one it replaces. */
module Numerals {
  import opened Bits
  import opened Basics

  // Digits of n, lowest first; none for zero.
  function DigitsIn(base: nat, n: nat): seq<int>
    requires base >= 2
    decreases n
  {
    if n == 0 then [] else [n % base] + DigitsIn(base, n / base)
  }

  /** Every digit is one of the base, and the highest is not zero. */
  lemma {:induction false} DigitsShape(base: nat, n: nat)
    requires base >= 2
    ensures forall i :: 0 <= i < |DigitsIn(base, n)| ==> 0 <= DigitsIn(base, n)[i] < base
    ensures n > 0 ==> var d := DigitsIn(base, n); d != [] && d[|d| - 1] != 0
    decreases n
  {
    if n > 0 {
      var q, rest := n / base, DigitsIn(base, n / base);
      HalfIsMore(base, n);
      DigitsShape(base, q);
      assert q > 0 ==> ([n % base] + rest)[|rest|] == rest[|rest| - 1];
      assert q == 0 ==> rest == [] && n % base == n;
    }
  }

  // Exactly k digits of r, zeros included.
  function Padded(base: nat, r: nat, k: nat): (d: seq<int>)
    requires base >= 2
    ensures |d| == k
  {
    if k == 0 then [] else [r % base] + Padded(base, r / base, k - 1)
  }

  function Letter(d: int): byte {
    (if d < 10 then d + 48 else d + 55) % 0x100
  }

  // Digits as text, highest first.
  function Text(d: seq<int>): (t: seq<byte>)
    ensures |t| == |d| && forall i :: 0 <= i < |d| ==> t[i] == Letter(d[|d| - 1 - i])
  {
    seq(|d|, i requires 0 <= i < |d| => Letter(d[|d| - 1 - i]))
  }

  function Base(base: byte): byte {
    if base < 2 then 10 else base
  }

  // What a loop that tests after the first digit produces: a digit even for zero.
  function SomeDigits(base: nat, n: nat): (d: seq<int>)
    requires base >= 2
    ensures d != []
  {
    if n == 0 then [0] else DigitsIn(base, n)
  }

  // What the plain printers write.
  function Numeral(base: nat, n: nat): seq<byte>
    requires base >= 2
  {
    Text(SomeDigits(base, n))
  }

  function Pow(b: nat, k: nat): nat {
    if k == 0 then 1 else b * Pow(b, k - 1)
  }

  // Reading digits back.
  function ValueIn(base: nat, d: seq<int>): int {
    if d == [] then 0 else d[0] + base * ValueIn(base, d[1..])
  }

  /** The digits determine the number: none is lost and none invented. */
  lemma {:induction false} DigitsRoundTrip(base: nat, n: nat)
    requires base >= 2
    ensures ValueIn(base, DigitsIn(base, n)) == n
    decreases n
  {
    if n > 0 {
      var q := n / base;
      HalfIsMore(base, n);
      DigitsRoundTrip(base, q);
      ValueStep(base, n % base, DigitsIn(base, q));
    }
  }

  lemma ValueStep(base: nat, d: int, rest: seq<int>)
    ensures ValueIn(base, [d] + rest) == d + ValueIn(base, rest) * base
  {
    assert ([d] + rest)[1..] == rest;
  }

  lemma MulMonotone(x: nat, y: nat, b: nat)
    requires x <= y
    ensures x * b <= y * b
  {
  }

  lemma DivMul(n: nat, b: nat, p: nat)
    requires b >= 1 && p >= 1
    ensures b * p >= 1
    ensures n / (b * p) == n / b / p
    ensures n % (b * p) / b == n / b % p && n % (b * p) % b == n % b
  {
    var m := n / b;
    DivParts(n, b);
    DivParts(m, p);
    MulRearrange(m / p, p, m % p, b);
    MulBelow(m % p, p, b);
    MulBelow(0, p, b);
    var low := m % p * b + n % b;
    ModUnique(n, b * p, m / p, low);
    ModUnique(low, b, m % p, n % b);
  }

  lemma DivParts(n: nat, b: nat)
    requires b >= 1
    ensures n == n / b * b + n % b && 0 <= n % b < b && n / b >= 0
  {
  }

  lemma MulRearrange(q: nat, p: nat, r: nat, b: nat)
    ensures (q * p + r) * b == q * (b * p) + r * b
  {
  }

  lemma MulBelow(r: nat, p: nat, b: nat)
    requires r < p
    ensures r * b + b <= b * p
  {
    MulMonotone(r + 1, p, b);
    assert (r + 1) * b == r * b + b;
  }

  lemma {:induction false} PowPositive(b: nat, k: nat)
    requires b >= 1
    ensures Pow(b, k) >= 1
  {
    if k > 0 {
      PowPositive(b, k - 1);
      MulBelow(0, Pow(b, k - 1), b);
    }
  }

  /** Splitting off k digits by one division: the remainder padded to k digits, then the digits of the quotient. */
  lemma {:induction false} ChunkDigits(base: nat, n: nat, k: nat)
    requires base >= 2 && Pow(base, k) >= 1 && n / Pow(base, k) >= 1
    ensures DigitsIn(base, n) == Padded(base, n % Pow(base, k), k) + DigitsIn(base, n / Pow(base, k))
    decreases k
  {
    if k == 0 {
      assert n / 1 == n;
    } else {
      var p := Pow(base, k - 1);
      PowPositive(base, k - 1);
      DivMul(n, base, p);
      ChunkDigits(base, n / base, k - 1);
      assert n > 0;
    }
  }

  lemma {:induction false} DigitCount(base: nat, n: nat, bits: nat)
    requires base >= 2 && n < Pow2(bits)
    ensures |DigitsIn(base, n)| <= bits
    decreases bits
  {
    if n > 0 {
      HalfIsMore(base, n);
      DigitCount(base, n / base, bits - 1);
    }
  }

  lemma HalfIsMore(base: nat, n: nat)
    requires base >= 2
    ensures n / base <= n / 2 && n / base * base + n % base == n
    ensures n >= 1 ==> n / base < n
  {
    var q := n / base;
    assert n == q * base + n % base;
    assert q * base >= q * 2;
  }

  lemma Pow2Of64()
    ensures Pow2(64) == 0x1_0000_0000_0000_0000
    ensures Pow2(32) == 0x1_0000_0000
  {
    Word16();
    Pow2Add(16, 16);
    Pow2Add(32, 32);
  }

  // The largest power of the base that 16-bit arithmetic can divide by without ever overflowing.
  method ChunkPower(base: byte) returns (th16: uint16, innerLoops: nat)
    requires base >= 2
    ensures th16 == Pow(base, innerLoops) && innerLoops >= 1 && th16 >= 2
  {
    var top: uint16 := 0xFFFF / base;
    th16, innerLoops := 1, 0;
    assert top >= 257 by { ModUnique(0xFFFF, base, top, 0xFFFF % base); TopBound(top, base); }
    while th16 < top
      invariant 1 <= th16 && th16 == Pow(base, innerLoops)
      invariant innerLoops == 0 ==> th16 == 1
      invariant innerLoops > 0 ==> th16 >= 2
      decreases top - th16
    {
      NoOverflow(th16, base, top);
      th16 := th16 * base;
      innerLoops := innerLoops + 1;
    }
  }

  lemma TopBound(top: nat, base: nat)
    requires 2 <= base < 256 && top * base + base > 0xFFFF
    ensures top >= 256
  {
  }

  lemma NoOverflow(th: nat, base: nat, top: nat)
    requires 1 <= th < top && base >= 2 && top == 0xFFFF / base
    ensures th < th * base <= 0xFFFF
  {
    HalfIsMore(base, 0xFFFF);
    MulMonotone(th, top, base);
    MulMonotone(2, base, th);
  }

  // Writes the digits of a 16-bit number into the buffer, `limit` of them or until none is left.
  method EmitChunk(buf: array<int>, i0: nat, base: byte, r0: uint16, k: nat) returns (i: nat)
    requires base >= 2 && i0 + k <= buf.Length
    modifies buf
    ensures i == i0 + k
    ensures buf[..i] == old(buf[..i0]) + Padded(base, r0, k)
  {
    var r := r0;
    i := i0;
    for j := 0 to k
      invariant 0 <= r < WORD && i == i0 + j
      invariant buf[..i] + Padded(base, r, k - j) == old(buf[..i0]) + Padded(base, r0, k)
    {
      ghost var before := buf[..i];
      var c;
      r, c := SplitPadded(r, base, k - j);
      Rebracket(before, [c], Padded(base, r, k - j - 1));
      buf[i] := c;
      assert buf[..i + 1] == before + [c];
      i := i + 1;
    }
  }

  method SplitPadded(r: uint16, base: byte, ghost k: nat) returns (qq: uint16, c: int)
    requires base >= 2 && k > 0
    ensures Padded(base, r, k) == [c] + Padded(base, qq, k - 1)
  {
    DivBack(base, r, r / base);
    qq := r / base;
    c := r - qq * base;
  }

  // The digits of what is left when it fits in 16 bits.
  method EmitRest(buf: array<int>, i0: nat, base: byte, n: uint16) returns (i: nat)
    requires base >= 2 && i0 + |DigitsIn(base, n)| <= buf.Length
    modifies buf
    ensures i == i0 + |DigitsIn(base, n)|
    ensures buf[..i] == old(buf[..i0]) + DigitsIn(base, n)
  {
    var n16 := n;
    i := i0;
    while n16 > 0
      invariant 0 <= n16 < WORD && i0 <= i && i + |DigitsIn(base, n16)| == i0 + |DigitsIn(base, n)|
      invariant buf[..i] + DigitsIn(base, n16) == old(buf[..i0]) + DigitsIn(base, n)
      decreases n16
    {
      ghost var before := buf[..i];
      var c: byte;
      n16, c := SplitDigit(base, n16);
      Rebracket(before, [c as int], DigitsIn(base, n16));
      buf[i] := c;
      assert buf[..i + 1] == before + [c as int];
      i := i + 1;
    }
  }

  // The 64-bit part: one division splits off k digits, and its remainder fits in 16 bits.
  method SplitChunk(base: byte, n: uint64, k: nat, th: uint16) returns (q: uint64, r: uint16)
    requires base >= 2 && 2 <= th < n && th == Pow(base, k)
    ensures 1 <= q < n
    ensures DigitsIn(base, n) == Padded(base, r, k) + DigitsIn(base, q)
  {
    ChunkSplit(base, n, k, th, n / th);
    q := n / th;
    r := n - q * th;
  }

  /**
   The fast printer of 64-bit numbers: it splits off as many digits as 16-bit
   arithmetic can handle at a time.  All arithmetic stays in its width and the
   64 places of the buffer always suffice.  Zero prints as nothing at all.
   */
  method PrintULLNumber(n: uint64, base: byte) returns (text: seq<byte>, bytes: nat)
    ensures text == Text(DigitsIn(Base(base), n)) && bytes == |text| <= 64
  {
    var b := Base(base);
    var buf := new int[64];
    var th16, innerLoops := ChunkPower(b);
    Pow2Of64();
    DigitCount(b, n, 64);
    var n64, i := EmitChunks(buf, n, b, innerLoops, th16);
    i := EmitRest(buf, i, b, n64);
    bytes := i;
    text := WriteBackwards(buf, i);
  }

  // The loop over the chunks.
  method EmitChunks(buf: array<int>, n: uint64, b: byte, innerLoops: nat, th16: uint16) returns (n64: uint64, i: nat)
    requires b >= 2 && th16 >= 2 && th16 == Pow(b, innerLoops) && |DigitsIn(b, n)| <= buf.Length
    modifies buf
    ensures n64 <= th16 && i + |DigitsIn(b, n64)| == |DigitsIn(b, n)|
    ensures DigitsIn(b, n) == buf[..i] + DigitsIn(b, n64)
  {
    n64, i := n, 0;
    ghost var total, out := DigitsIn(b, n), []; // all digits, and those in the buffer
    while n64 > th16
      invariant i == |out| && |out| + |DigitsIn(b, n64)| == |total| <= buf.Length && buf[..i] == out
      invariant total == out + DigitsIn(b, n64)
      decreases n64
    {
      var r;
      n64, r := SplitChunk(b, n64, innerLoops, th16);
      MoveOver(total, out, Padded(b, r, innerLoops), DigitsIn(b, n64));
      i := EmitChunk(buf, i, b, r, innerLoops);
      out := out + Padded(b, r, innerLoops);
    }
  }

  lemma MoveOver(total: seq<int>, out: seq<int>, chunk: seq<int>, rest: seq<int>)
    requires total == out + (chunk + rest)
    ensures total == (out + chunk) + rest && |out| + |chunk| + |rest| == |total|
  {
  }

  // Hands the digits to `write`, the last one first.
  method WriteBackwards(buf: array<int>, bytes: nat) returns (text: seq<byte>)
    requires bytes <= buf.Length
    ensures text == Text(buf[..bytes])
  {
    text := [];
    var i := bytes;
    while i > 0
      invariant 0 <= i <= bytes
      invariant |text| == bytes - i && forall j :: 0 <= j < |text| ==> text[j] == Letter(buf[bytes - 1 - j])
    {
      text := text + [Letter(buf[i - 1])];
      i := i - 1;
    }
  }

  /** One 64-bit division splits off k digits, and its remainder fits in 16 bits. */
  lemma ChunkSplit(base: nat, n: nat, k: nat, th: nat, q: nat)
    requires base >= 2 && th == Pow(base, k) && 2 <= th < n && q == n / th
    ensures 1 <= q < n && 0 <= n - q * th < th
    ensures DigitsIn(base, n) == Padded(base, n - q * th, k) + DigitsIn(base, q)
  {
    HalfIsMore(th, n);
    QuotientPositive(q, n % th, th, n);
    ChunkDigits(base, n, k);
  }

  lemma QuotientPositive(q: nat, r: int, th: int, n: int)
    requires n == q * th + r && r < th <= n
    ensures q >= 1
  {
  }

  lemma StepDigits(base: nat, n: nat, q: nat)
    requires base >= 2 && q == n / base
    ensures 0 <= n - base * q < base && q <= n && (n > 0 ==> q < n)
    ensures SomeDigits(base, n) == [n - base * q] + DigitsIn(base, q)
  {
    DivBack(base, n, q);
  }

  lemma DivBack(base: nat, n: nat, q: nat)
    requires base >= 2 && q == n / base
    ensures n - base * q == n - q * base == n % base < base && 0 <= q <= n && (n > 0 ==> q < n)
  {
    HalfIsMore(base, n);
  }

  // One digit by a division.
  method SplitDigit(base: byte, n: uint64) returns (q: uint64, c: byte)
    requires base >= 2
    ensures q <= n && (n > 0 ==> q < n)
    ensures SomeDigits(base, n) == [c] + DigitsIn(base, q)
  {
    StepDigits(base, n, n / base);
    q := n / base;
    c := n - base * q;
  }

  /** The plain printer: digits written from the end of the buffer to the front, at least one. */
  method PrintPlain(n: uint64, base: byte, bits: nat) returns (text: seq<byte>)
    requires 1 <= bits <= 64 && n < Pow2(bits)
    ensures text == Numeral(Base(base), n) && |text| <= bits
  {
    var b := Base(base);
    DigitCount(b, n, bits);
    var buf := new byte[bits + 1](i => 0);
    var str: nat, rest: uint64 := bits, n;
    ghost var total, done: seq<int> := SomeDigits(b, n), [];
    var more := true;
    while more
      invariant str == bits - |done| && |done| <= |total| <= bits
      invariant if more then done + SomeDigits(b, rest) == total else done == total
      invariant buf[str..bits] == Text(done)
      decreases more, rest
    {
      var c;
      rest, c := SplitDigit(b, rest);
      MoveOver(total, done, [c as int], DigitsIn(b, rest));
      TextSnoc(done, c);
      ghost var before := buf[str..bits];
      str := str - 1;
      buf[str] := Letter(c);
      assert buf[str..bits] == [Letter(c)] + before;
      done := done + [c as int];
      more := rest != 0;
    }
    text := buf[str..bits];
  }

  lemma TextSnoc(d: seq<int>, high: int)
    ensures Text(d + [high]) == [Letter(high)] + Text(d)
  {
  }

  lemma TextCons(low: int, d: seq<int>)
    ensures Text([low] + d) == Text(d) + [Letter(low)]
  {
  }

  // ----- Reading numerals

  // The usual value of 0 to 9 and A to Z.
  function DigitValue(c: byte): Option<nat> {
    if 48 <= c <= 57 then Some(c - 48) else if 65 <= c <= 90 then Some(c - 65 + 10) else None
  }

  // A numeral read from left to right; none if some character is no digit of the base.
  function ReadIn(base: nat, text: seq<byte>): Option<nat> {
    if text == [] then Some(0)
    else
      var front, last := ReadIn(base, text[..|text| - 1]), DigitValue(text[|text| - 1]);
      if front.Some? && last.Some? && last.value < base then Some(front.value * base + last.value) else None
  }

  lemma LetterValue(d: int)
    requires 0 <= d < 36
    ensures DigitValue(Letter(d)) == Some(d)
  {
  }

  lemma {:induction false} ReadText(base: nat, d: seq<int>)
    requires base <= 36 && forall i :: 0 <= i < |d| ==> 0 <= d[i] < base
    ensures ValueIn(base, d) >= 0 && ReadIn(base, Text(d)) == Some(ValueIn(base, d))
    decreases |d|
  {
    if d != [] {
      var rest := d[1..];
      ReadText(base, rest);
      LetterValue(d[0]);
      TextCons(d[0], rest);
      HeadTail(d);
      ValueStep(base, d[0], rest);
      ReadSnoc(base, Text(rest), Letter(d[0]), ValueIn(base, rest), d[0]);
    }
  }

  lemma ReadSnoc(base: nat, text: seq<byte>, c: byte, high: nat, low: nat)
    requires ReadIn(base, text) == Some(high) && DigitValue(c) == Some(low) && low < base
    ensures ReadIn(base, text + [c]) == Some(low + high * base) && low + high * base >= 0
  {
    assert (text + [c])[..|text|] == text;
  }

  /** In every base from 2 to 36 the printed text is a numeral of the number printed, by the usual values of digits. */
  lemma NumeralReads(base: byte, n: nat)
    requires 2 <= base <= 36
    ensures Base(base) == base
    ensures ReadIn(base, Numeral(base, n)) == Some(n) && ReadIn(base, Text(DigitsIn(base, n))) == Some(n)
  {
    DigitsShape(base, n);
    DigitsRoundTrip(base, n);
    ReadText(base, DigitsIn(base, n));
    if n == 0 {
      ReadText(base, [0]);
      assert ValueIn(base, [0]) == 0;
    }
  }

  /** Bases 0 and 1 mean ten. */
  lemma NoBase(base: byte, n: nat)
    requires base < 2
    ensures ReadIn(10, Numeral(Base(base), n)) == Some(n)
  {
    NumeralReads(10, n);
  }

  /** The fast printer prints what the plain one prints, except that it prints nothing for zero. */
  lemma FastAgreesWithPlain(base: nat, n: nat)
    requires base >= 2
    ensures Text(DigitsIn(base, n)) == Numeral(base, n) <==> n >= 1
  {
    assert |Numeral(base, n)| >= 1;
  }
}
