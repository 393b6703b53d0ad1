/** Machine integers, and bitwise operations on natural numbers and on the 16-bit words that hold network addresses. */
module Bits {

  const WORD := 0x1_0000 // one more than the largest uint16_t

  type byte = x: int | 0 <= x < 0x100
  type uint16 = x: int | 0 <= x < WORD
  type uint64 = x: int | 0 <= x < 0x1_0000_0000_0000_0000

  function Pow2(k: nat): (p: nat)
    ensures p >= 1
  {
    if k == 0 then 1 else 2 * Pow2(k - 1)
  }

  function Pow8(k: nat): (p: nat)
    ensures p >= 1
  {
    if k == 0 then 1 else 8 * Pow8(k - 1)
  }

  function And(x: nat, y: nat): (r: nat)
    ensures r <= x
    decreases x
  {
    if x == 0 then 0 else (if x % 2 == 1 && y % 2 == 1 then 1 else 0) + 2 * And(x / 2, y / 2)
  }

  function Or(x: nat, y: nat): (r: nat)
    decreases x + y
  {
    if x == 0 && y == 0 then 0 else (if x % 2 == 1 || y % 2 == 1 then 1 else 0) + 2 * Or(x / 2, y / 2)
  }

  // ~x on a uint16_t
  function Not16(x: uint16): uint16 {
    WORD - 1 - x
  }

  // x << 3 truncated to a uint16_t
  function Shl3(x: uint16): uint16 {
    x * 8 % WORD
  }

  lemma {:induction false} Pow2Add(j: nat, k: nat)
    ensures Pow2(j + k) == Pow2(j) * Pow2(k)
  {
    if j > 0 { Pow2Add(j - 1, k); }
  }

  lemma {:induction false} Pow8IsPow2(k: nat)
    ensures Pow8(k) == Pow2(3 * k)
  {
    if k > 0 {
      Pow8IsPow2(k - 1);
      Pow2Add(3, 3 * (k - 1));
      assert Pow2(3) == 8;
    }
  }

  lemma {:induction false} Pow8Monotone(j: nat, k: nat)
    requires j <= k
    ensures Pow8(j) <= Pow8(k)
  {
    if j < k { Pow8Monotone(j, k - 1); }
  }

  // Halving commutes with taking the remainder by an even number.
  lemma ModDouble(x: nat, m: nat)
    requires m >= 1
    ensures x % (2 * m) == 2 * (x / 2 % m) + x % 2
  {
    var q, r := x / 2 / m, x / 2 % m;
    assert x / 2 == q * m + r;
    assert x == q * (2 * m) + (2 * r + x % 2);
    ModUnique(x, 2 * m, q, 2 * r + x % 2);
  }

  lemma ModUnique(x: int, m: int, q: int, r: int)
    requires m > 0 && x == q * m + r && 0 <= r < m
    ensures x % m == r && x / m == q
  {
    var q', r' := x / m, x % m;
    assert x == q' * m + r';
    assert (q - q') * m == r' - r;
    MulBounds(q - q', m);
  }

  lemma MulBounds(d: int, m: int)
    requires m > 0
    ensures d >= 1 ==> d * m >= m
    ensures d <= -1 ==> d * m <= -m
  {
  }

  /** Masking with k one-bits is taking the remainder by 2^k. */
  lemma {:induction false} AndLow(x: nat, k: nat)
    ensures And(x, Pow2(k) - 1) == x % Pow2(k)
    decreases k
  {
    if k == 0 {
      AndZero(x);
    } else {
      AndLow(x / 2, k - 1);
      ModDouble(x, Pow2(k - 1));
      assert (Pow2(k) - 1) / 2 == Pow2(k - 1) - 1;
    }
  }

  lemma {:induction false} AndZero(x: nat)
    ensures And(x, 0) == 0
  {
    if x > 0 { AndZero(x / 2); }
  }

  /** Masking with a block of ones above bit k drops the k low bits. */
  lemma {:induction false} AndHigh(x: nat, k: nat, w: nat, mask: nat)
    requires k <= w && x < Pow2(w) && mask == Pow2(w) - Pow2(k)
    ensures And(x, mask) == x - x % Pow2(k)
    decreases w
  {
    if k == 0 {
      AndLow(x, w);
      ModSmall(x, Pow2(w));
    } else {
      AndHigh(x / 2, k - 1, w - 1, mask / 2);
      ModDouble(x, Pow2(k - 1));
    }
  }

  lemma ModSmall(x: nat, m: nat)
    requires x < m
    ensures x % m == x && x / m == 0
  {
    ModUnique(x, m, 0, x);
  }

  /** Masking with a single one-bit tests it. */
  lemma {:induction false} AndBit(x: nat, k: nat)
    ensures And(x, Pow2(k)) == if x / Pow2(k) % 2 == 1 then Pow2(k) else 0
    decreases k
  {
    if k == 0 {
      AndLow(x, 1);
      assert Pow2(1) == 2 && x / 1 == x;
    } else {
      AndBit(x / 2, k - 1);
      DivDouble(x, Pow2(k - 1));
    }
  }

  lemma DivDouble(x: nat, m: nat)
    requires m >= 1
    ensures x / (2 * m) == x / 2 / m
  {
    var q, r := x / 2 / m, x / 2 % m;
    assert x / 2 == q * m + r;
    assert x == q * (2 * m) + (2 * r + x % 2);
    ModUnique(x, 2 * m, q, 2 * r + x % 2);
  }

  lemma {:induction false} Pow2Monotone(j: nat, k: nat)
    requires j <= k
    ensures Pow2(j) <= Pow2(k)
  {
    if j < k { Pow2Monotone(j, k - 1); }
  }

  /** Or of two numbers without a common bit is their sum. */
  lemma {:induction false} OrDisjoint(x: nat, y: nat, k: nat, z: nat)
    requires x < Pow2(k) && z == y * Pow2(k)
    ensures Or(x, z) == x + z
    decreases k
  {
    if k == 0 {
      OrZero(z);
    } else {
      var half := y * Pow2(k - 1);
      Doubled(y, Pow2(k - 1));
      OrDisjoint(x / 2, y, k - 1, half);
      assert z / 2 == half && z % 2 == 0;
    }
  }

  lemma Doubled(y: nat, p: nat)
    ensures y * (2 * p) == 2 * (y * p)
  {
  }

  lemma {:induction false} OrZero(y: nat)
    ensures Or(0, y) == y
  {
    if y > 0 { OrZero(y / 2); }
  }

  lemma Word16()
    ensures Pow2(16) == WORD
  {
    Pow2Add(8, 8);
    assert Pow2(8) == 256;
  }

  lemma AndAll(n: uint16)
    ensures And(n, WORD - 1) == n
  {
    Word16();
    AndLow(n, 16);
    ModSmall(n, WORD);
  }
}
