/** 32-bit words as numbers below 2^32: shifts, bitwise or, and rounding up to a power of two. */
module Uint32 {

  const WORD := 0x1_0000_0000
  const HALF := 0x8000_0000

  function Pow2(k: nat): (p: nat)
    ensures p > 0
  {
    if k == 0 then 1 else 2 * Pow2(k - 1)
  }

  /** The word whose lowest `k` bits are set. */
  function Ones(k: nat): nat {
    if k == 0 then 0 else 2 * Ones(k - 1) + 1
  }

  function ShiftRight(x: nat, k: nat): nat {
    if k == 0 then x else ShiftRight(x / 2, k - 1)
  }

  function Or(x: nat, y: nat): nat {
    if x == 0 then y else if y == 0 then x
    else 2 * Or(x / 2, y / 2) + (if x % 2 == 1 || y % 2 == 1 then 1 else 0)
  }

  lemma {:induction false} OnesPow2(k: nat)
    ensures Ones(k) + 1 == Pow2(k)
  {
    if k > 0 {
      OnesPow2(k - 1);
    }
  }

  lemma {:induction false} ShiftTwice(x: nat, j: nat, k: nat)
    ensures ShiftRight(ShiftRight(x, j), k) == ShiftRight(x, j + k)
  {
    if j > 0 {
      ShiftTwice(x / 2, j - 1, k);
    }
  }

  lemma {:induction false} ShiftOnes(p: nat, k: nat)
    requires k <= p
    ensures ShiftRight(Ones(p), k) == Ones(p - k)
  {
    if k > 0 {
      assert Ones(p) / 2 == Ones(p - 1);
      ShiftOnes(p - 1, k - 1);
    }
  }

  lemma {:induction false} ShiftOr(x: nat, y: nat, k: nat)
    ensures ShiftRight(Or(x, y), k) == Or(ShiftRight(x, k), ShiftRight(y, k))
  {
    if k > 0 {
      assert Or(x, y) / 2 == Or(x / 2, y / 2);
      ShiftOr(x / 2, y / 2, k - 1);
    }
  }

  /** Setting the lowest `j` bits of a word whose other bits are the lowest `p` bits set. */
  lemma {:induction false} Fill(m: nat, p: nat, j: nat)
    requires ShiftRight(m, j) == Ones(p)
    ensures Or(m, Ones(j)) == Ones(p + j)
  {
    if j > 0 {
      Fill(m / 2, p, j - 1);
      assert Ones(j) / 2 == Ones(j - 1) && Ones(j) % 2 == 1;
      if m == 0 {
        assert Or(0, Ones(j - 1)) == Ones(j - 1);
      }
    }
  }

  /** `n` has `k` significant bits and the highest `j` of them are set. */
  ghost predicate HighOnes(n: nat, j: nat, k: nat) {
    j <= k && ShiftRight(n, k - j) == Ones(j)
  }

  function Min(a: nat, b: nat): nat { if a <= b then a else b }

  lemma {:induction false} ShiftZero(c: nat)
    ensures ShiftRight(0, c) == 0
  {
    if c > 0 {
      ShiftZero(c - 1);
    }
  }

  lemma OnesZero()
    ensures Ones(0) == 0
  {
  }

  lemma OrZero(n: nat)
    ensures Or(n, 0) == n
  {
  }

  /** x |= x >> c doubles a run of `c` ones at the top, until it fills all `k` bits. */
  lemma Smear(n: nat, c: nat, k: nat)
    requires HighOnes(n, Min(c, k), k)
    ensures HighOnes(Or(n, ShiftRight(n, c)), Min(2 * c, k), k)
  {
    hide ShiftRight, Or, Ones;
    if c > k {
      NoShift(n);
      OrZero(n);
      ShiftTwice(n, k, c - k);
      ShiftOnes(k, k);
      OnesZero();
      ShiftZero(c - k);
    } else {
      var wide := Min(2 * c, k);
      Widen(n, c, k - wide, wide - c);
      assert (k - wide) + (wide - c) == k - c && c + (wide - c) == wide;
    }
  }

  /** With `c` ones above the `cut + grow` lowest bits, or-ing in the word shifted by `c` sets the
      `grow` bits below them, too. */
  lemma Widen(n: nat, c: nat, cut: nat, grow: nat)
    requires grow <= c && ShiftRight(n, cut + grow) == Ones(c)
    ensures ShiftRight(Or(n, ShiftRight(n, c)), cut) == Ones(c + grow)
  {
    hide ShiftRight, Or, Ones;
    ShiftTwice(n, cut, grow);
    Fill(ShiftRight(n, cut), c, grow);
    ShiftTwice(n, c, cut);
    ShiftTwice(n, cut + grow, c - grow);
    assert cut + grow + (c - grow) == c + cut && c - (c - grow) == grow;
    ShiftOnes(c, c - grow);
    ShiftOr(n, ShiftRight(n, c), cut);
  }

  /** How many bits `n` needs. */
  function Bits(n: nat): nat {
    if n == 0 then 0 else Bits(n / 2) + 1
  }

  lemma {:induction false} BitsBounds(n: nat)
    ensures n < Pow2(Bits(n))
    ensures n > 0 ==> Bits(n) > 0 && Pow2(Bits(n) - 1) <= n
    ensures HighOnes(n, Min(1, Bits(n)), Bits(n))
  {
    if n > 0 {
      BitsBounds(n / 2);
    }
  }

  lemma {:induction false} BitsMonotone(n: nat, k: nat)
    requires n < Pow2(k)
    ensures Bits(n) <= k
  {
    if n > 0 {
      BitsMonotone(n / 2, k - 1);
    }
  }

  lemma {:induction false} Pow2Monotone(j: nat, k: nat)
    requires j <= k
    ensures Pow2(j) <= Pow2(k)
  {
    if j < k {
      Pow2Monotone(j, k - 1);
    }
  }

  lemma WordIsPow2()
    ensures Pow2(32) == WORD && Pow2(31) == HALF
  {
    assert Pow2(2) == 0x4;
    assert Pow2(4) == 0x10;
    assert Pow2(6) == 0x40;
    assert Pow2(8) == 0x100;
    assert Pow2(10) == 0x400;
    assert Pow2(12) == 0x1000;
    assert Pow2(14) == 0x4000;
    assert Pow2(16) == 0x10000;
    assert Pow2(18) == 0x40000;
    assert Pow2(20) == 0x100000;
    assert Pow2(22) == 0x400000;
    assert Pow2(24) == 0x1000000;
    assert Pow2(26) == 0x4000000;
    assert Pow2(28) == 0x10000000;
    assert Pow2(30) == 0x40000000;
  }

  /** `x` is the least power of two that is not below `x0`, or 0 when `x0` is 0 or when that power does
      not fit in 32 bits. */
  ghost predicate RoundsUp(x0: nat, x: nat) {
    if 1 <= x0 <= HALF then x0 <= x && (exists k :: x == Pow2(k)) && forall j :: x0 <= Pow2(j) ==> x <= Pow2(j)
    else x == 0
  }

  lemma RoundsUpToOne(x0: nat, x: nat, y: nat)
    requires RoundsUp(x0, x) && RoundsUp(x0, y)
    ensures x == y
  {
    hide Pow2;
  }

  /** veles/detect.go nextPowerOf2. */
  method NextPowerOf2(x0: nat) returns (x: nat)
    requires x0 < WORD
    ensures RoundsUp(x0, x)
  {
    hide ShiftRight, Or, Pow2, Bits, Ones;
    x := (x0 + WORD - 1) % WORD;
    ghost var n := x;
    ghost var k := Bits(n);
    WordIsPow2();
    BitsBounds(n);
    BitsMonotone(n, 32);
    Smear(x, 1, k);
    x := Or(x, ShiftRight(x, 1));
    Smear(x, 2, k);
    x := Or(x, ShiftRight(x, 2));
    Smear(x, 4, k);
    x := Or(x, ShiftRight(x, 4));
    Smear(x, 8, k);
    x := Or(x, ShiftRight(x, 8));
    Smear(x, 16, k);
    x := Or(x, ShiftRight(x, 16));
    NoShift(x);
    OnesPow2(k);
    RoundedUp(x0, n, k);
    x := (x + 1) % WORD;
  }

  lemma NoShift(x: nat)
    ensures ShiftRight(x, 0) == x
  {
  }

  lemma RoundedUp(x0: nat, n: nat, k: nat)
    requires x0 < WORD && n == (if x0 == 0 then WORD - 1 else x0 - 1) && k == Bits(n)
    ensures 1 <= x0 <= HALF ==>
              k <= 31 && x0 <= Pow2(k) <= HALF && forall j :: x0 <= Pow2(j) ==> Pow2(k) <= Pow2(j)
    ensures x0 == 0 || x0 > HALF ==> Pow2(k) == WORD
  {
    hide Pow2, Bits;
    WordIsPow2();
    BitsBounds(n);
    BitsMonotone(n, 32);
    if 1 <= x0 <= HALF {
      BitsMonotone(n, 31);
      Pow2Monotone(k, 31);
      forall j | x0 <= Pow2(j) ensures Pow2(k) <= Pow2(j) {
        Smallest(x0, n, k, j);
      }
    } else if k < 32 {
      Pow2Monotone(k, 31);
      assert false;
    }
  }

  lemma Smallest(x0: nat, n: nat, k: nat, j: nat)
    requires x0 == n + 1 && k == Bits(n) && x0 <= Pow2(j)
    ensures Pow2(k) <= Pow2(j)
  {
    BitsBounds(n);
    if j >= k {
      Pow2Monotone(k, j);
    } else if n > 0 {
      Pow2Monotone(j, k - 1);
    }
  }
}
