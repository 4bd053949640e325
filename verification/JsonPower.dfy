/** `pow2gt`: the size of a block that is to hold a given number of characters. */
module JsonPower {

  predicate IsPower2(r: nat) { r == 1 || (r > 0 && r % 2 == 0 && IsPower2(r / 2)) }

  /** The least power of two not below `x`. */
  function Pow2Gt(x: nat): (r: nat)
    requires x > 0
    ensures x <= r < 2 * x && IsPower2(r)
  {
    if x == 1 then 1
    else
      var half := Pow2Gt((x + 1) / 2);
      assert 2 * half / 2 == half;
      2 * half
  }

  /** The bitwise `|` of C on non-negative numbers. */
  function Or(a: nat, b: nat): nat
    decreases a + b
  {
    if a == 0 then b
    else if b == 0 then a
    else 2 * Or(a / 2, b / 2) + (if a % 2 == 1 || b % 2 == 1 then 1 else 0)
  }

  /** `n >> k`. */
  function Shr(n: nat, k: nat): nat {
    if k == 0 then n else Shr(n / 2, k - 1)
  }

  function Exp2(k: nat): (r: nat)
    ensures r > 0
  {
    if k == 0 then 1 else 2 * Exp2(k - 1)
  }

  /** The first `i` of the steps `x |= x >> 1`, `x |= x >> 2`, `x |= x >> 4`, ... */
  function Smear(n: nat, i: nat): nat {
    if i == 0 then n else var m := Smear(n, i - 1); Or(m, Shr(m, Exp2(i - 1)))
  }

  /** How `pow2gt` computes it: the bits of `x - 1` are smeared to the right in five steps. */
  function Smeared(x: nat): nat
    requires x > 0
  {
    Smear(x - 1, 5) + 1
  }

  lemma OrHalves(a: nat, b: nat)
    ensures Or(a, b) / 2 == Or(a / 2, b / 2)
    ensures Or(a, b) % 2 == 1 <==> a % 2 == 1 || b % 2 == 1
  {}

  lemma {:induction false} ShrHalves(n: nat, k: nat)
    ensures Shr(n, k) / 2 == Shr(n / 2, k)
  {
    if k > 0 {
      ShrHalves(n / 2, k - 1);
    }
  }

  /** Smearing commutes with shifting. */
  lemma {:induction false} SmearHalves(n: nat, i: nat)
    ensures Smear(n, i) / 2 == Smear(n / 2, i)
  {
    if i > 0 {
      var m, k := Smear(n, i - 1), Exp2(i - 1);
      SmearHalves(n, i - 1);
      OrHalves(m, Shr(m, k));
      ShrHalves(m, k);
    }
  }

  lemma {:induction false} SmearShifts(n: nat, i: nat, k: nat)
    ensures Shr(Smear(n, i), k) == Smear(Shr(n, k), i)
    decreases k
  {
    if k > 0 {
      SmearHalves(n, i);
      SmearShifts(n / 2, i, k - 1);
    }
  }

  /** Some of the lowest `w` bits is set. */
  predicate AnyBit(n: nat, w: nat) {
    w > 0 && (n % 2 == 1 || AnyBit(n / 2, w - 1))
  }

  lemma {:induction false} AnyBitSplit(n: nat, v: nat, w: nat)
    ensures AnyBit(n, v + w) <==> AnyBit(n, v) || AnyBit(Shr(n, v), w)
    decreases v
  {
    if v > 0 {
      AnyBitSplit(n / 2, v - 1, w);
    }
  }

  lemma {:induction false} AnyBitOfSmall(n: nat, w: nat)
    requires n < Exp2(w)
    ensures AnyBit(n, w) <==> n != 0
  {
    if w > 0 {
      AnyBitOfSmall(n / 2, w - 1);
    }
  }

  /** After `i` steps the lowest bit tells whether any of the lowest `2^i` was set. */
  lemma {:induction false} SmearLowBit(n: nat, i: nat)
    ensures Smear(n, i) % 2 == 1 <==> AnyBit(n, Exp2(i))
    decreases i
  {
    if i == 0 {
      assert AnyBit(n, 1) <==> n % 2 == 1 || AnyBit(n / 2, 0);
    } else {
      var m, k := Smear(n, i - 1), Exp2(i - 1);
      OrHalves(m, Shr(m, k));
      SmearShifts(n, i - 1, k);
      SmearLowBit(n, i - 1);
      SmearLowBit(Shr(n, k), i - 1);
      AnyBitSplit(n, k, k);
    }
  }

  lemma ExpFive()
    ensures Exp2(5) == 32 && Exp2(32) >= 0x1_0000_0000
  {
    assert Exp2(2) == 4 && Exp2(4) == 16 && Exp2(5) == 32;
    assert Exp2(8) == 16 * Exp2(4) && Exp2(12) == 16 * Exp2(8) && Exp2(16) == 16 * Exp2(12);
    assert Exp2(20) == 16 * Exp2(16) && Exp2(24) == 16 * Exp2(20) && Exp2(28) == 16 * Exp2(24);
    assert Exp2(32) == 16 * Exp2(28);
  }

  /** All bits below the highest one are set. */
  lemma SmearFills(n: nat)
    requires 0 < n < 0x8000_0000
    ensures Smear(n, 5) == 2 * Smear(n / 2, 5) + 1
  {
    ExpFive();
    SmearLowBit(n, 5);
    AnyBitOfSmall(n, 32);
    SmearHalves(n, 5);
  }

  lemma SmearedDoubles(x: nat)
    requires 1 < x < 0x8000_0000
    ensures Smeared(x) == 2 * Smeared((x + 1) / 2)
  {
    SmearFills(x - 1);
    assert (x + 1) / 2 - 1 == (x - 1) / 2;
  }

  /** The smeared number is the least power of two not below `x`, for every `x` of an `int`. */
  lemma {:induction false} SmearedIsPow2Gt(x: nat)
    requires 0 < x < 0x8000_0000
    ensures Smeared(x) == Pow2Gt(x)
  {
    if x == 1 {
      SmearOfZero(5);
    } else {
      SmearedDoubles(x);
      SmearedIsPow2Gt((x + 1) / 2);
    }
  }

  lemma {:induction false} SmearOfZero(i: nat)
    ensures Smear(0, i) == 0
  {
    if i > 0 {
      SmearOfZero(i - 1);
      ShrOfZero(Exp2(i - 1));
    }
  }

  lemma {:induction false} ShrOfZero(k: nat)
    ensures Shr(0, k) == 0
  {
    if k > 0 {
      ShrOfZero(k - 1);
    }
  }
}
