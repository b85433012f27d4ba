/** Powers of two and the optional value shared by the models. */
module Arith {

  datatype Option<+T> = None | Some(value: T)

  function Pow2(k: nat): (p: nat)
    ensures p > 0
  {
    if k == 0 then 1 else 2 * Pow2(k - 1)
  }

  lemma {:induction false} Pow2Monotone(a: nat, b: nat)
    requires a <= b
    ensures Pow2(a) <= Pow2(b)
    ensures a < b ==> Pow2(a) < Pow2(b)
    decreases b
  {
    if a < b {
      Pow2Monotone(a, b - 1);
    }
  }

  lemma {:induction false} Pow2Add(a: nat, b: nat)
    ensures Pow2(a + b) == Pow2(a) * Pow2(b)
  {
    if b == 0 {
      assert Pow2(a) * 1 == Pow2(a);
    } else {
      Pow2Add(a, b - 1);
      assert Pow2(a) * (2 * Pow2(b - 1)) == 2 * (Pow2(a) * Pow2(b - 1));
    }
  }

  lemma MulAtLeast(a: int, d: int)
    requires a >= 1 && d > 0
    ensures a * d >= d
  {
    assert a * d == (a - 1) * d + d;
  }

  lemma Distribute(a: int, b: int, d: int)
    ensures (a - b) * d == a * d - b * d
  {
  }

  /** Division by d is determined by its quotient and remainder. */
  lemma DivModUnique(x: int, d: int, q: int, r: int)
    requires 0 <= r < d && x == q * d + r
    ensures x / d == q && x % d == r
  {
    var q', r' := x / d, x % d;
    assert x == q' * d + r';
    if q' > q {
      Distribute(q', q, d);
      MulAtLeast(q' - q, d);
    } else if q' < q {
      Distribute(q, q', d);
      MulAtLeast(q - q', d);
    }
  }

  /** `x >> k` */
  function Shr(x: nat, k: nat): nat
    decreases k
  {
    if k == 0 then x else Shr(x / 2, k - 1)
  }

  /** The k low bits of x are zero: x is a multiple of 2^k. */
  predicate Aligned(x: nat, k: nat)
    decreases k
  {
    k == 0 || (x % 2 == 0 && Aligned(x / 2, k - 1))
  }

  /** Dividing by two first. */
  lemma DivideTwice(x: nat, c: nat)
    requires c > 0
    ensures x / (2 * c) == x / 2 / c && x % (2 * c) == 2 * (x / 2 % c) + x % 2
  {
    var q, r, b := x / 2 / c, x / 2 % c, x % 2;
    assert x == 2 * (q * c + r) + b;
    Doubled(q, c);
    DivModUnique(x, 2 * c, q, 2 * r + b);
  }

  lemma Doubled(q: int, c: int)
    ensures q * (2 * c) == 2 * (q * c)
  {
  }

  lemma {:induction false} ShrIsDivision(x: nat, k: nat)
    ensures Shr(x, k) == x / Pow2(k)
    ensures Aligned(x, k) <==> x % Pow2(k) == 0
    decreases k
  {
    if k > 0 {
      ShrIsDivision(x / 2, k - 1);
      DivideTwice(x, Pow2(k - 1));
    }
  }

  lemma {:induction false} AlignedScale(q: nat, k: nat)
    ensures Aligned(q * Pow2(k), k) && Shr(q * Pow2(k), k) == q
    decreases k
  {
    if k > 0 {
      AlignedScale(q, k - 1);
      assert q * Pow2(k) == 2 * (q * Pow2(k - 1));
    }
  }

  lemma {:induction false} AlignedSum(x: nat, h: nat, k: nat)
    requires k <= h
    ensures Aligned(Pow2(h) + x, k) <==> Aligned(x, k)
    ensures Shr(Pow2(h) + x, k) == Pow2(h - k) + Shr(x, k)
    decreases k
  {
    if k > 0 {
      AlignedSum(x / 2, h - 1, k - 1);
      assert (Pow2(h) + x) / 2 == Pow2(h - 1) + x / 2;
    }
  }
}
