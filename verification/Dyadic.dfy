/** Powers of two, size alignment and the exclusive-or that finds a buddy.
    Everything is proved by halving, so no non-linear arithmetic is left to the solver. */
module Dyadic {

  function Pow2(k: nat): (p: nat)
    ensures p >= 1
  {
    if k == 0 then 1 else 2 * Pow2(k - 1)
  }

  /** The low `k` bits of `s` are zero: `(s & (2^k - 1)) == 0`. */
  predicate Aligned(s: nat, k: nat) {
    k == 0 || (s % 2 == 0 && Aligned(s / 2, k - 1))
  }

  /** The first frame past a block. */
  function Past(s: nat, k: nat): nat {
    s + Pow2(k)
  }

  /** Bitwise exclusive or of two unbounded naturals. */
  function Xor(a: nat, b: nat): nat
    decreases a + b
  {
    if a == 0 && b == 0 then 0
    else 2 * Xor(a / 2, b / 2) + (if a % 2 == b % 2 then 0 else 1)
  }

  /** The buddy of the block of order `k` that starts at `s`. */
  function BuddyOf(s: nat, k: nat): nat {
    Xor(s, Pow2(k))
  }

  lemma AtLeastOnce(d: int, a: nat)
    ensures d >= 1 ==> d * a >= a
  {
    if d >= 1 { assert d * a == a + (d - 1) * a; }
  }

  lemma SameRemainder(q: nat, r: nat, k: nat, s: nat, a: nat)
    requires q * a + r == k * a + s && r < a && s < a
    ensures r == s
  {
    var d := q - k;
    assert d * a == s - r;
    AtLeastOnce(d, a);
    AtLeastOnce(-d, a);
  }

  lemma Remainder(x: nat, k: nat, a: nat, r: nat)
    requires x == k * a + r && r < a
    ensures x % a == r
  {
    SameRemainder(x / a, x % a, k, r, a);
  }

  lemma Quotient(x: nat, k: nat, a: nat, r: nat)
    requires x == k * a + r && r < a
    ensures x / a == k && x % a == r
  {
    Remainder(x, k, a, r);
    var q := x / a;
    var d := q - k;
    assert d * a == 0;
    AtLeastOnce(d, a);
    AtLeastOnce(-d, a);
  }

  lemma MultipleMod(q: nat, a: nat)
    requires a > 0
    ensures q * a % a == 0
  {
    Remainder(q * a, q, a, 0);
  }

  lemma EvenMultiple(s: nat, p: nat)
    requires p > 0
    ensures s % (2 * p) == 0 <==> s % 2 == 0 && (s / 2) % p == 0
  {
    var h := s / 2;
    if s % (2 * p) == 0 {
      var q := s / (2 * p);
      assert s == q * (2 * p) == 2 * (q * p);
      MultipleMod(q, p);
    }
    if s % 2 == 0 && h % p == 0 {
      var q := h / p;
      assert h == q * p && s == q * (2 * p);
      MultipleMod(q, 2 * p);
    }
  }

  /** The bit test decides divisibility by the size. */
  lemma {:induction false} AlignedExact(s: nat, k: nat)
    ensures Aligned(s, k) <==> s % Pow2(k) == 0
  {
    if k > 0 {
      var p := Pow2(k - 1);
      AlignedExact(s / 2, k - 1);
      EvenMultiple(s, p);
    }
  }

  /** Alignment is inherited by smaller orders. */
  lemma {:induction false} AlignedDown(s: nat, k: nat, j: nat)
    requires j <= k && Aligned(s, k)
    ensures Aligned(s, j)
  {
    if j > 0 { AlignedDown(s / 2, k - 1, j - 1); }
  }

  /** Two aligned blocks that share a frame are nested: the smaller one lies inside the larger. */
  lemma {:induction false} Nested(s: nat, j: nat, t: nat, k: nat, f: nat)
    requires j <= k && Aligned(s, j) && Aligned(t, k)
    requires s <= f < s + Pow2(j) && t <= f < t + Pow2(k)
    ensures t <= s && s + Pow2(j) <= t + Pow2(k)
  {
    if j > 0 { Nested(s / 2, j - 1, t / 2, k - 1, f / 2); }
  }

  lemma {:induction false} XorZero(a: nat)
    ensures Xor(a, 0) == a
  {
    if a > 0 { XorZero(a / 2); }
  }

  /** The two halves of an aligned block are aligned, the upper one to nothing larger, and they
      are each other's buddy. */
  lemma {:induction false} HalvesAligned(s: nat, k: nat)
    requires Aligned(s, k + 1)
    ensures Aligned(s, k) && Aligned(Past(s, k), k) && !Aligned(Past(s, k), k + 1)
    ensures BuddyOf(s, k) == Past(s, k) && BuddyOf(Past(s, k), k) == s
  {
    if k == 0 {
      XorZero(s / 2);
      assert (s + 1) / 2 == s / 2;
    } else {
      assert (s + Pow2(k)) / 2 == s / 2 + Pow2(k - 1);
      HalvesAligned(s / 2, k - 1);
      assert Pow2(k) / 2 == Pow2(k - 1) && Pow2(k) % 2 == 0;
    }
  }

  /** An aligned start that is not aligned to the doubled size is an upper half. */
  lemma {:induction false} UpperHalf(s: nat, k: nat)
    requires Aligned(s, k) && !Aligned(s, k + 1)
    ensures s >= Pow2(k) && Aligned(s - Pow2(k), k + 1)
  {
    if k > 0 {
      UpperHalf(s / 2, k - 1);
      assert (s - Pow2(k)) / 2 == s / 2 - Pow2(k - 1);
    }
  }

  /** Everything merging needs: a buddy is aligned, is not the block itself, finds its way back,
      and together they are one aligned block of the next order that starts at the lower one. */
  lemma BuddyPair(s: nat, k: nat)
    requires Aligned(s, k)
    ensures var b := BuddyOf(s, k);
      && b != s && Aligned(b, k) && BuddyOf(b, k) == s
      && var lo := if b < s then b else s;
         Aligned(lo, k + 1) && (b == Past(lo, k) || s == Past(lo, k))
  {
    if Aligned(s, k + 1) {
      HalvesAligned(s, k);
    } else {
      UpperHalf(s, k);
      HalvesAligned(s - Pow2(k), k);
    }
  }
}
