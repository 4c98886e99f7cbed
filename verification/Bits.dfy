/** Powers of two, alignment and bitwise operators on natural numbers.

    Everything here is defined by halving, so that proofs are inductions over
    linear arithmetic; the lemmas at the end of each section connect the
    definitions to the usual division-and-remainder reading. */
module Bits {

  function Pow2(n: nat): (r: nat)
    ensures r >= 1
  {
    if n == 0 then 1 else 2 * Pow2(n - 1)
  }

  lemma {:induction false} Pow2Mono(a: nat, b: nat)
    requires a <= b
    ensures Pow2(a) <= Pow2(b)
    ensures a < b ==> 2 * Pow2(a) <= Pow2(b)
    decreases b
  {
    if a < b {
      Pow2Mono(a, b - 1);
    }
  }

  lemma {:induction false} Pow2Sum(a: nat, b: nat)
    ensures Pow2(a + b) == Pow2(a) * Pow2(b)
  {
    if a > 0 {
      Pow2Sum(a - 1, b);
    }
  }

  lemma Pow2Small()
    ensures Pow2(1) == 2 && Pow2(3) == 8 && Pow2(8) == 256 && Pow2(9) == 512 && Pow2(12) == 4096 && Pow2(13) == 8192
  {
  }

  lemma Pow2Values()
    ensures Pow2(9) == 512 && Pow2(12) == 0x1000
    ensures Pow2(18) == 0x4_0000 && Pow2(19) == 0x8_0000
    ensures Pow2(32) == 0x1_0000_0000 && Pow2(40) == 0x100_0000_0000
    ensures Pow2(52) == 0x10_0000_0000_0000 && Pow2(64) == 0x1_0000_0000_0000_0000
  {
    Pow2Small();
    Pow2Sum(3, 9);
    Pow2Sum(9, 9);
    Pow2Sum(1, 18);
    Pow2Sum(13, 19);
    Pow2Sum(8, 32);
    Pow2Sum(12, 40);
    Pow2Sum(12, 52);
  }

  /* ---- Alignment ---- */

  /** f is a multiple of 2^o. */
  predicate Aligned(f: nat, o: nat)
    decreases o
  {
    o == 0 || (f % 2 == 0 && Aligned(f / 2, o - 1))
  }

  lemma {:induction false} AlignedIsMultiple(f: nat, o: nat)
    ensures Aligned(f, o) <==> f % Pow2(o) == 0
    decreases o
  {
    LowIsRemainder(f, o);
    if o > 0 {
      AlignedIsMultiple(f / 2, o - 1);
      LowIsRemainder(f / 2, o - 1);
    }
  }

  lemma {:induction false} AlignedZero(o: nat)
    ensures Aligned(0, o)
  {
    if o > 0 {
      AlignedZero(o - 1);
    }
  }

  lemma {:induction false} AlignedWeaken(f: nat, o: nat, q: nat)
    requires q <= o && Aligned(f, o)
    ensures Aligned(f, q)
    decreases q
  {
    if q > 0 {
      AlignedWeaken(f / 2, o - 1, q - 1);
    }
  }

  /** Stepping by 2^o from a multiple of 2^o lands on a multiple of 2^o, and
      exactly one of two neighbours is a multiple of 2^(o+1). */
  lemma {:induction false} AlignedStep(f: nat, o: nat)
    requires Aligned(f, o)
    ensures Aligned(f + Pow2(o), o)
    ensures Aligned(f, o + 1) <==> !Aligned(f + Pow2(o), o + 1)
    decreases o
  {
    if o > 0 {
      AlignedStep(f / 2, o - 1);
      assert (f + Pow2(o)) / 2 == f / 2 + Pow2(o - 1);
    }
  }

  lemma {:induction false} AlignedStepBack(f: nat, o: nat)
    requires Aligned(f, o) && 0 < f
    ensures Pow2(o) <= f
    ensures Aligned(f - Pow2(o), o)
    ensures Aligned(f, o + 1) <==> !Aligned(f - Pow2(o), o + 1)
    decreases o
  {
    if o > 0 {
      AlignedStepBack(f / 2, o - 1);
      assert (f - Pow2(o)) / 2 == f / 2 - Pow2(o - 1);
    }
  }

  /** Aligned power-of-two blocks either nest or are disjoint. */
  lemma {:induction false} Nest(f: nat, o: nat, g: nat, q: nat)
    requires o <= q && Aligned(f, o) && Aligned(g, q)
    requires f < g + Pow2(q) && g < f + Pow2(o)
    ensures g <= f && f + Pow2(o) <= g + Pow2(q)
    decreases o
  {
    if o > 0 {
      Nest(f / 2, o - 1, g / 2, q - 1);
    }
  }

  /** An aligned block that starts below 2^n ends at or below 2^n. */
  lemma BlockFits(f: nat, o: nat, n: nat)
    requires o <= n && Aligned(f, o) && f < Pow2(n)
    ensures f + Pow2(o) <= Pow2(n)
  {
    AlignedZero(n);
    Nest(f, o, 0, n);
  }

  /* ---- Bitwise operators ---- */

  function Xor(a: nat, b: nat): nat
  {
    if a == 0 && b == 0 then 0
    else (if a % 2 == b % 2 then 0 else 1) + 2 * Xor(a / 2, b / 2)
  }

  function And(a: nat, b: nat): nat
  {
    if a == 0 || b == 0 then 0
    else (if a % 2 == 1 && b % 2 == 1 then 1 else 0) + 2 * And(a / 2, b / 2)
  }

  function Or(a: nat, b: nat): nat
  {
    if a == 0 && b == 0 then 0
    else (if a % 2 == 1 || b % 2 == 1 then 1 else 0) + 2 * Or(a / 2, b / 2)
  }

  /** The low n bits of x. */
  function Low(x: nat, n: nat): nat
    decreases n
  {
    if n == 0 then 0 else x % 2 + 2 * Low(x / 2, n - 1)
  }

  lemma {:induction false} LowIsRemainder(x: nat, n: nat)
    ensures Low(x, n) == x % Pow2(n)
    decreases n
  {
    if n > 0 {
      LowIsRemainder(x / 2, n - 1);
      RemainderByHalves(x, Pow2(n - 1));
    }
  }

  lemma RemainderByHalves(x: nat, m: nat)
    requires m > 0
    ensures x % (2 * m) == x % 2 + 2 * (x / 2 % m)
  {
    var k, r := x / 2 / m, x / 2 % m;
    MulAssociates(2, m, k);
    RemainderUnique(x, 2 * m, k, x % 2 + 2 * r);
  }

  lemma MulAssociates(a: nat, b: nat, c: nat)
    ensures a * b * c == a * (b * c)
  {
  }

  lemma RemainderUnique(x: nat, d: nat, k: nat, r: nat)
    requires d > 0 && r < d && x == d * k + r
    ensures x % d == r && x / d == k
  {
    var k', r' := x / d, x % d;
    assert x == d * k' + r';
    if k' < k {
      MulMono(d, k' + 1, k);
    } else if k < k' {
      MulMono(d, k + 1, k');
    }
  }

  lemma MulMono(d: nat, a: nat, b: nat)
    requires a <= b
    ensures d * a <= d * b
  {
  }

  /** Masking with 2^m - 2^k keeps bits k up to m-1. */
  lemma {:induction false} AndMask(x: nat, k: nat, m: nat)
    requires k <= m
    ensures Pow2(k) <= Pow2(m)
    ensures And(x, Pow2(m) - Pow2(k)) == Low(x, m) - Low(x, k)
    decreases m
  {
    Pow2Mono(k, m);
    if x == 0 {
      LowZero(m);
      LowZero(k);
    } else if k > 0 {
      AndMask(x / 2, k - 1, m - 1);
      assert (Pow2(m) - Pow2(k)) / 2 == Pow2(m - 1) - Pow2(k - 1);
    } else if m > 0 {
      AndMask(x / 2, 0, m - 1);
      assert (Pow2(m) - 1) / 2 == Pow2(m - 1) - 1 && (Pow2(m) - 1) % 2 == 1;
    }
  }

  lemma AndMaskIsDifference(x: nat, k: nat, m: nat, lo: nat, hi: nat, mask: nat)
    requires k <= m && lo == Pow2(k) && hi == Pow2(m) && mask == hi - lo
    ensures And(x, mask) == x % hi - x % lo
  {
    AndMask(x, k, m);
    LowIsRemainder(x, k);
    LowIsRemainder(x, m);
  }

  lemma {:induction false} LowZero(n: nat)
    ensures Low(0, n) == 0
  {
    if n > 0 {
      LowZero(n - 1);
    }
  }

  lemma {:induction false} AndDistributes(a: nat, b: nat, m: nat)
    ensures And(Or(a, b), m) == Or(And(a, m), And(b, m))
    decreases m
  {
    if m > 0 && (a > 0 || b > 0) {
      AndDistributes(a / 2, b / 2, m / 2);
      assert And(a, m) / 2 == And(a / 2, m / 2);
      assert And(b, m) / 2 == And(b / 2, m / 2);
      assert Or(a, b) / 2 == Or(a / 2, b / 2);
    }
  }

  /** Numbers without a common one-bit: or is addition. */
  lemma {:induction false} OrDisjoint(a: nat, b: nat)
    requires And(a, b) == 0
    ensures Or(a, b) == a + b
    decreases a + b
  {
    if a > 0 || b > 0 {
      OrDisjoint(a / 2, b / 2);
    }
  }

  /** A multiple of 2^n and a number below 2^n have no one-bit in common. */
  lemma {:induction false} LowDisjoint(a: nat, b: nat, n: nat)
    requires Aligned(a, n) && b < Pow2(n)
    ensures And(a, b) == 0
    decreases n
  {
    if n > 0 && a > 0 && b > 0 {
      LowDisjoint(a / 2, b / 2, n - 1);
    }
  }

  lemma {:induction false} OrZero(a: nat)
    ensures Or(a, 0) == a && Or(0, a) == a
  {
    if a > 0 {
      OrZero(a / 2);
    }
  }

  lemma {:induction false} AndIdempotent(a: nat, m: nat)
    ensures And(And(a, m), m) == And(a, m)
    decreases m
  {
    if m > 0 && a > 0 {
      AndIdempotent(a / 2, m / 2);
      assert And(a, m) / 2 == And(a / 2, m / 2);
    }
  }

  lemma {:induction false} AndAssociates(a: nat, b: nat, m: nat)
    ensures And(And(a, b), m) == And(a, And(b, m))
    decreases m
  {
    if m > 0 && a > 0 && b > 0 {
      AndAssociates(a / 2, b / 2, m / 2);
      assert And(a, b) / 2 == And(a / 2, b / 2) && And(b, m) / 2 == And(b / 2, m / 2);
    }
  }

  lemma {:induction false} AndCommutes(a: nat, b: nat)
    ensures And(a, b) == And(b, a)
    decreases a
  {
    if a > 0 && b > 0 {
      AndCommutes(a / 2, b / 2);
    }
  }

  /* ---- Buddies ---- */

  /** The other half of the block of order o+1 that holds the block (f, o). */
  function BuddyOf(f: nat, o: nat): (b: nat)
    requires Aligned(f, o)
    ensures Aligned(b, o) && b != f
  {
    AlignedStep(f, o);
    AlignedZero(o + 1);
    if Aligned(f, o + 1) then f + Pow2(o)
    else AlignedStepBack(f, o); f - Pow2(o)
  }

  /** Start of the block of order o+1 that holds the block (f, o). */
  function ParentOf(f: nat, o: nat): (b: nat)
    requires Aligned(f, o)
  {
    if f < BuddyOf(f, o) then f else BuddyOf(f, o)
  }

  lemma BuddyFacts(f: nat, o: nat)
    requires Aligned(f, o)
    ensures BuddyOf(BuddyOf(f, o), o) == f
    ensures Aligned(ParentOf(f, o), o + 1)
    ensures ParentOf(f, o) <= f && f + Pow2(o) <= ParentOf(f, o) + Pow2(o + 1)
    ensures BuddyOf(f, o) == f + Pow2(o) || f == BuddyOf(f, o) + Pow2(o)
    ensures forall n: nat :: o < n && f < Pow2(n) ==> ParentOf(f, o) + Pow2(o + 1) <= Pow2(n)
  {
    AlignedStep(f, o);
    if f == 0 {
      AlignedZero(o + 1);
    } else {
      AlignedStepBack(f, o);
    }
    forall n: nat | o < n && f < Pow2(n)
      ensures ParentOf(f, o) + Pow2(o + 1) <= Pow2(n)
    {
      BlockFits(ParentOf(f, o), o + 1, n);
    }
  }

  /** The exclusive-or by which the allocator finds a buddy. */
  lemma {:induction false} XorFindsBuddy(f: nat, o: nat)
    requires Aligned(f, o)
    ensures Xor(f, Pow2(o)) == BuddyOf(f, o)
    decreases o
  {
    if o == 0 {
      XorZero(f / 2);
      assert Xor(f, 1) == (if f % 2 == 1 then 0 else 1) + 2 * Xor(f / 2, 0);
    } else {
      XorFindsBuddy(f / 2, o - 1);
      assert Pow2(o) / 2 == Pow2(o - 1);
    }
  }

  lemma {:induction false} XorZero(a: nat)
    ensures Xor(a, 0) == a
  {
    if a > 0 {
      XorZero(a / 2);
    }
  }

  /* ---- Trailing zeros ---- */

  /** The largest k such that 2^k divides e. */
  function TrailingZeros(e: nat): (k: nat)
    requires e > 0
    ensures Aligned(e, k) && !Aligned(e, k + 1)
  {
    if e % 2 == 1 then 0 else 1 + TrailingZeros(e / 2)
  }

  lemma {:induction false} TrailingZerosUnique(e: nat, k: nat)
    requires e > 0 && Aligned(e, k) && !Aligned(e, k + 1)
    ensures k == TrailingZeros(e)
  {
    var z := TrailingZeros(e);
    if k < z {
      AlignedWeaken(e, z, k + 1);
    } else if z < k {
      AlignedWeaken(e, k, z + 1);
    }
  }
}
