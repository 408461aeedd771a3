/**
 The mask arithmetic of the C sources on non-negative numbers: bit by bit, and what it
 comes to when the mask is one less than a power of two.
*/
module Bits {
  function Pow2(k: nat): (p: nat)
    ensures p > 0
  {
    if k == 0 then 1 else 2 * Pow2(k - 1)
  }

  ghost predicate IsPowerOfTwo(n: nat) {
    exists k: nat :: n == Pow2(k)
  }

  /** `a & b`. */
  function And(a: nat, b: nat): nat {
    if a == 0 || b == 0 then 0
    else (if a % 2 == 1 && b % 2 == 1 then 1 else 0) + 2 * And(a / 2, b / 2)
  }

  /** `a & ~b`. */
  function AndNot(a: nat, b: nat): nat {
    if a == 0 then 0
    else (if a % 2 == 1 && b % 2 == 0 then 1 else 0) + 2 * AndNot(a / 2, b / 2)
  }

  lemma {:induction false} SplitMod(x: nat, p: nat)
    requires p > 0
    ensures x % (2 * p) == x % 2 + 2 * (x / 2 % p)
  {
    var q, r := x / 2 / p, x / 2 % p;
    assert x == 2 * p * q + (x % 2 + 2 * r) by { assert x / 2 == p * q + r; }
    DivMod(x, 2 * p, q, x % 2 + 2 * r);
  }

  lemma DivMod(x: int, d: int, q: int, r: int)
    requires d > 0 && x == d * q + r && 0 <= r < d
    ensures x % d == r && x / d == q
  {
    var p, t := x / d, x % d;
    assert x == d * p + t;
    if p > q { Apart(d, q, p); } else if p < q { Apart(d, p, q); }
  }

  lemma {:induction false} Apart(d: int, q: int, p: int)
    requires d > 0 && p > q
    ensures d * p >= d * q + d
    decreases p - q
  {
    if p > q + 1 { Apart(d, q, p - 1); }
  }

  /** Masking with `p - 1` is taking the remainder. */
  lemma {:induction false} MaskIsRemainder(x: nat, k: nat)
    ensures And(x, Pow2(k) - 1) == x % Pow2(k)
  {
    if x != 0 && k != 0 {
      var p := Pow2(k - 1);
      MaskIsRemainder(x / 2, k - 1);
      SplitMod(x, p);
      HalfOfMask(p);
    } else if k == 0 {
      assert x % 1 == 0;
    }
  }

  lemma HalfOfMask(p: nat)
    requires p > 0
    ensures (2 * p - 1) / 2 == p - 1 && (2 * p - 1) % 2 == 1
  {
  }

  /** Clearing the bits of `p - 1` rounds down. */
  lemma {:induction false} ClearIsRoundDown(x: nat, k: nat)
    ensures AndNot(x, Pow2(k) - 1) == x - x % Pow2(k)
    decreases x
  {
    if x != 0 && k != 0 {
      ClearIsRoundDown(x / 2, k - 1);
      ClearStep(x, Pow2(k - 1));
    } else if x != 0 {
      ClearNothing(x);
    }
  }

  lemma ClearStep(x: nat, p: nat)
    requires x != 0 && p > 0 && AndNot(x / 2, p - 1) == x / 2 - x / 2 % p
    ensures AndNot(x, 2 * p - 1) == x - x % (2 * p)
  {
    SplitMod(x, p);
    HalfOfMask(p);
  }

  lemma {:induction false} ClearNothing(x: nat)
    ensures AndNot(x, 0) == x
  {
    if x != 0 { ClearNothing(x / 2); }
  }

  /** `a & (a - 1)` is zero just for the powers of two. */
  lemma {:induction false} PowerOfTwoTest(a: nat)
    requires a > 0
    ensures And(a, a - 1) == 0 <==> IsPowerOfTwo(a)
  {
    if a == 1 {
      assert a == Pow2(0);
    } else if a % 2 == 0 {
      PowerOfTwoTest(a / 2);
      HalfOfMask(a / 2);
      if IsPowerOfTwo(a / 2) {
        var k: nat :| a / 2 == Pow2(k);
        assert a == Pow2(k + 1);
      }
      if IsPowerOfTwo(a) {
        var k: nat :| a == Pow2(k);
        assert a / 2 == Pow2(k - 1);
      }
    } else {
      assert (a - 1) / 2 == a / 2;
      AndSelf(a / 2);
    }
  }

  lemma {:induction false} AndSelf(a: nat)
    ensures And(a, a) == a
  {
    if a != 0 { AndSelf(a / 2); }
  }

  lemma {:induction false} Pow2Grows(j: nat, k: nat)
    requires j <= k
    ensures Pow2(j) <= Pow2(k)
  {
    if j < k { Pow2Grows(j, k - 1); }
  }

  /** Between two successive powers of two there is none. */
  lemma PowerBelow(n: nat, k: nat)
    requires IsPowerOfTwo(n) && n < Pow2(k + 1)
    ensures n <= Pow2(k)
  {
    var j: nat :| n == Pow2(j);
    if j > k { Pow2Grows(k + 1, j); } else { Pow2Grows(j, k); }
  }

  lemma FourMore(k: nat)
    ensures Pow2(k + 4) == 16 * Pow2(k)
  {
    assert Pow2(k + 2) == 4 * Pow2(k);
    assert Pow2(k + 4) == 4 * Pow2(k + 2);
  }

  lemma TopOfWord()
    ensures Pow2(30) == 0x4000_0000 && Pow2(31) == 0x8000_0000
  {
    assert Pow2(2) == 4;
    FourMore(2);
    FourMore(6);
    FourMore(10);
    FourMore(14);
    FourMore(18);
    FourMore(22);
    FourMore(26);
  }
}
