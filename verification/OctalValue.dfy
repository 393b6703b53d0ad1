/** Addresses as 16-bit numbers: one octal digit of a node's name per three bits, the master's side lowest. */
module OctalValue {
  import opened Bits
  import opened OctalTree

  const MULTICAST_ADDRESS: uint16 := 64  // octal 0100
  const SPECIAL_ADDRESS: uint16 := 8     // octal 010
  const DEFAULT_ADDRESS: uint16 := 2340  // octal 04444

  ghost predicate Octal(d: Digits) {
    forall i :: 0 <= i < |d| ==> 0 <= d[i] < 8
  }

  ghost predicate Normal(d: Digits) {
    Octal(d) && (d != [] ==> d[|d| - 1] != 0)
  }

  ghost function Value(d: Digits): nat
    requires Octal(d)
  {
    if d == [] then 0 else d[0] + 8 * Value(d[1..])
  }

  // The digits of a number, lowest first and without a zero at the top.
  ghost function DigitsOf(n: nat): (d: Digits)
    ensures Normal(d)
  {
    if n == 0 then [] else
      var rest := DigitsOf(n / 8);
      assert rest == [] ==> n / 8 == 0;
      [n % 8] + rest
  }

  lemma {:induction false} ValueOfDigits(n: nat)
    ensures Value(DigitsOf(n)) == n
  {
    if n > 0 {
      ValueOfDigits(n / 8);
      assert DigitsOf(n)[1..] == DigitsOf(n / 8);
    }
  }

  lemma {:induction false} DigitsOfValue(d: Digits)
    requires Normal(d)
    ensures DigitsOf(Value(d)) == d
    ensures d != [] ==> Value(d) > 0
  {
    if d != [] {
      var rest := d[1..];
      if rest != [] { assert rest[|rest| - 1] == d[|d| - 1]; }
      DigitsOfValue(rest);
      assert Value(d) % 8 == d[0] && Value(d) / 8 == Value(rest);
      assert d == [d[0]] + rest;
    }
  }

  /** Cutting a number at digit k: the low digits are the remainder by 8^k, the high ones the quotient. */
  lemma ValueSplit(d: Digits, k: nat)
    requires Octal(d) && k <= |d|
    ensures Value(d) == Value(d[..k]) + Value(d[k..]) * Pow8(k)
    ensures Value(d[..k]) < Pow8(k)
    ensures Value(d) % Pow8(k) == Value(d[..k]) && Value(d) / Pow8(k) == Value(d[k..])
  {
    ValueCut(d, k);
    ModUnique(Value(d), Pow8(k), Value(d[k..]), Value(d[..k]));
  }

  lemma {:induction false} ValueCut(d: Digits, k: nat)
    requires Octal(d) && k <= |d|
    ensures Value(d) == Value(d[..k]) + Value(d[k..]) * Pow8(k)
    ensures Value(d[..k]) < Pow8(k)
    decreases k
  {
    if k == 0 {
      assert d[..k] == [] && d[k..] == d;
    } else {
      var rest := d[1..];
      ValueCut(rest, k - 1);
      assert d[..k][1..] == rest[..k - 1];
      assert d[k..] == rest[k - 1..];
      MulEight(Value(d[k..]), Pow8(k - 1));
    }
  }

  lemma MulEight(v: nat, p: nat)
    ensures v * (8 * p) == 8 * (v * p)
    ensures v >= 1 ==> v * p >= p
  {
  }

  lemma ValueBounds(d: Digits)
    requires Octal(d)
    ensures Value(d) < Pow8(|d|)
    ensures Normal(d) && d != [] ==> Value(d) >= Pow8(|d| - 1)
  {
    ValueCut(d, |d|);
    assert d[..|d|] == d && d[|d|..] == [];
    if Normal(d) && d != [] {
      var k := |d| - 1;
      ValueCut(d, k);
      assert d[k..] == [d[k]];
      MulEight(Value(d[k..]), Pow8(k));
    }
  }

  /** Magnitude and number of digits agree. */
  lemma LevelBounds(n: nat, k: nat)
    ensures n < Pow8(k) <==> |DigitsOf(n)| <= k
  {
    ValueOfDigits(n);
    ValueBounds(DigitsOf(n));
    var l := |DigitsOf(n)|;
    if l <= k { Pow8Monotone(l, k); } else { Pow8Monotone(k, l - 1); }
  }

  lemma Pow8Values()
    ensures Pow8(0) == 1 && Pow8(1) == 8 && Pow8(2) == 64 && Pow8(3) == 512
    ensures Pow8(4) == 4096 && Pow8(5) == 32768 && Pow8(6) == 262144
  {
    assert Pow8(3) == 512;
    assert Pow8(6) == 512 * Pow8(3);
  }

  lemma TreeIsNormal(d: Digits)
    requires TreeAddress(d)
    ensures Normal(d)
  {
  }

  // A valid node address of the 16-bit network: at most four digits, each 1 to 5.
  ghost predicate NodeName(d: Digits) {
    TreeAddress(d) && |d| <= 4
  }

  lemma NodeNameFits(d: Digits)
    requires NodeName(d)
    ensures Value(d) < 4096 && DigitsOf(Value(d)) == d
  {
    TreeIsNormal(d);
    ValueBounds(d);
    DigitsOfValue(d);
    Pow8Values();
    Pow8Monotone(|d|, 4);
  }

  /** The network's address filter: besides node names it lets the two multicast spellings 0100 and 010 pass. */
  method IsValidAddress(node: uint16) returns (result: bool)
    ensures result <==> node == MULTICAST_ADDRESS || node == SPECIAL_ADDRESS || NodeName(DigitsOf(node))
  {
    result := true;
    if node == MULTICAST_ADDRESS || node == SPECIAL_ADDRESS {
      return result;
    }
    ghost var name := DigitsOf(node);
    var count, rest := 0, node;
    while rest != 0
      invariant 0 <= rest < WORD && 0 <= count <= |name|
      invariant name[count..] == DigitsOf(rest)
      invariant forall i :: 0 <= i < count ==> 1 <= name[i] <= 5
      invariant result
      decreases rest
    {
      var digit := rest % 8;
      DigitStep(rest);
      assert name[count] == name[count..][0] == digit;
      if digit < 1 || digit > 5 {
        result := false;
        break;
      }
      assert name[count + 1..] == name[count..][1..];
      rest := rest / 8;
      count := count + 1;
    }
    if count > 4 {
      return false;
    }
  }

  lemma DigitStep(n: nat)
    requires n > 0
    ensures |DigitsOf(n)| > 0 && DigitsOf(n)[0] == n % 8 && DigitsOf(n)[1..] == DigitsOf(n / 8)
  {
  }
}
