/** Powers of two, alignment and bit length: the arithmetic behind the buddy system. */
module PowersOfTwo {
  const WORD: nat := 0x1_0000_0000  // 2^32, where machine words wrap


  function Pow2(k: nat): (p: nat)
    ensures p > 0
  {
    if k == 0 then 1 else 2 * Pow2(k - 1)
  }

  /** The number of significant bits of `x`; a 32-bit `clz(x)` is `32 - BitLength(x)`. */
  function BitLength(x: nat): nat {
    if x == 0 then 0 else 1 + BitLength(x / 2)
  }

  /** `x` is a multiple of `2^k` (see AlignedIsMod); this form keeps every proof linear. */
  predicate Aligned(x: nat, k: nat) {
    k == 0 || (x % 2 == 0 && Aligned(x / 2, k - 1))
  }

  lemma {:induction false} AlignedIsMod(x: nat, k: nat)
    ensures Aligned(x, k) <==> x % Pow2(k) == 0
  {
    if k > 0 {
      AlignedIsMod(x / 2, k - 1);
      HalvingMod(x, Pow2(k - 1));
    }
  }

  lemma HalvingMod(x: nat, p: nat)
    requires p > 0
    ensures x % (2 * p) == 0 <==> x % 2 == 0 && (x / 2) % p == 0
  {
    if x % (2 * p) == 0 {
      var q := x / (2 * p);
      assert x == 2 * (p * q);
      assert x / 2 == p * q;
      MultipleMod(p, q);
    }
    if x % 2 == 0 && (x / 2) % p == 0 {
      var q := (x / 2) / p;
      assert x / 2 == p * q;
      assert x == (2 * p) * q;
      MultipleMod(2 * p, q);
    }
  }

  lemma MultipleMod(p: nat, q: nat)
    requires p > 0
    ensures (p * q) % p == 0
  {
    var d := (p * q) / p;
    assert p * (q - d) == (p * q) % p;
    NoSmallMultiple(p, q - d);
  }

  lemma NoSmallMultiple(p: nat, e: int)
    requires 0 <= p * e < p
    ensures p * e == 0
  {
  }

  lemma Pow2Facts(k: nat)
    ensures Pow2(k + 1) == 2 * Pow2(k)
    ensures Pow2(4) == 16 && Pow2(15) == 32768
  {
  }

  lemma {:induction false} Pow2Monotone(j: nat, k: nat)
    requires j <= k
    ensures Pow2(j) <= Pow2(k)
  {
    if j < k {
      Pow2Monotone(j, k - 1);
    }
  }

  /** `BitLength(x)` is the least `k` with `x < 2^k`. */
  lemma {:induction false} BitLengthIsLeast(x: nat, k: nat)
    ensures x < Pow2(k) <==> BitLength(x) <= k
  {
    if x > 0 && k > 0 {
      BitLengthIsLeast(x / 2, k - 1);
    }
  }

  lemma {:induction false} AlignedZero(k: nat)
    ensures Aligned(0, k)
  {
    if k > 0 {
      AlignedZero(k - 1);
    }
  }

  lemma {:induction false} AlignedWeaken(x: nat, j: nat, k: nat)
    requires j <= k && Aligned(x, k)
    ensures Aligned(x, j)
  {
    if j > 0 {
      AlignedWeaken(x / 2, j - 1, k - 1);
    }
  }

  /** Moving by one cell of size `2^k` keeps `2^k`-alignment and flips `2^(k+1)`-alignment. */
  lemma {:induction false} AlignedStep(x: nat, k: nat)
    requires Aligned(x, k)
    ensures Aligned(x + Pow2(k), k)
    ensures Aligned(x, k + 1) <==> !Aligned(x + Pow2(k), k + 1)
    ensures !Aligned(x, k + 1) ==> x >= Pow2(k) && Aligned(x - Pow2(k), k + 1)
  {
    if k > 0 {
      AlignedStep(x / 2, k - 1);
      assert (x + Pow2(k)) / 2 == x / 2 + Pow2(k - 1);
      if !Aligned(x, k + 1) {
        assert (x - Pow2(k)) / 2 == x / 2 - Pow2(k - 1);
      }
    } else {
      assert Aligned(x, 1) <==> x % 2 == 0;
    }
  }

  lemma {:induction false} AlignedBack(x: nat, k: nat)
    requires Aligned(x, k) && x >= Pow2(k)
    ensures Aligned(x - Pow2(k), k)
  {
    if k > 0 {
      AlignedBack(x / 2, k - 1);
      assert (x - Pow2(k)) / 2 == x / 2 - Pow2(k - 1);
    }
  }

  /** Two aligned power-of-two intervals are nested or disjoint. */
  lemma {:induction false} Dyadic(a: nat, j: nat, b: nat, k: nat)
    requires j <= k && Aligned(a, j) && Aligned(b, k)
    ensures a + Pow2(j) <= b || b + Pow2(k) <= a || (b <= a && a + Pow2(j) <= b + Pow2(k))
  {
    if j > 0 {
      Dyadic(a / 2, j - 1, b / 2, k - 1);
    }
  }
}
