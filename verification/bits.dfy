// Unsigned shifts and masks, on numbers of any size.
module Bits {
  function Pow2(k: nat): (p: nat)
    ensures p > 0
  {
    if k == 0 then 1 else 2 * Pow2(k - 1)
  }

  function And(a: nat, b: nat): nat {
    if a == 0 || b == 0 then 0 else 2 * And(a / 2, b / 2) + (a % 2) * (b % 2)
  }

  function ShiftRight(n: nat, k: nat): nat {
    if k == 0 then n else ShiftRight(n / 2, k - 1)
  }

  // a mask with one bit more takes in one bit more
  lemma MaskStep(n: nat, k: nat)
    requires k > 0
    ensures And(n, Pow2(k) - 1) == 2 * And(n / 2, Pow2(k - 1) - 1) + n % 2
  {
    var m := Pow2(k) - 1;
    assert m == 2 * (Pow2(k - 1) - 1) + 1;
    assert m / 2 == Pow2(k - 1) - 1 && m % 2 == 1;
  }

  lemma Doubled(n: nat, s: nat, p: nat, a: nat)
    requires n / 2 == s * p + a
    ensures n == s * (2 * p) + (2 * a + n % 2)
  {
    assert s * (2 * p) == 2 * (s * p);
  }

  // Shifting by k and masking with 2^k - 1 are division by 2^k with its remainder.
  lemma {:induction false} ShiftAndMask(n: nat, k: nat)
    ensures n == ShiftRight(n, k) * Pow2(k) + And(n, Pow2(k) - 1)
    ensures And(n, Pow2(k) - 1) < Pow2(k)
  {
    if k == 0 {
      assert n == ShiftRight(n, k) * 1;
    } else {
      ShiftAndMask(n / 2, k - 1);
      MaskStep(n, k);
      Doubled(n, ShiftRight(n / 2, k - 1), Pow2(k - 1), And(n / 2, Pow2(k - 1) - 1));
    }
  }

  // In a table twice the size an item goes to the bucket it was in or to that one's twin.
  lemma {:induction false} MaskTwice(h: nat, k: nat)
    ensures var n, b, b2 := Pow2(k), And(h, Pow2(k) - 1), And(h, Pow2(k + 1) - 1);
      b < n && (b2 == b || b2 == b + n)
  {
    MaskStep(h, k + 1);
    if k > 0 {
      MaskStep(h, k);
      MaskTwice(h / 2, k - 1);
    }
  }

  lemma Ceil(n: nat, s: nat, p: nat, r: nat)
    requires n == s * p + r && r < p
    ensures var c := s + if r != 0 then 1 else 0; n <= c * p && (n > 0 ==> c > 0 && (c - 1) * p < n)
  {
    assert (s + 1) * p == s * p + p;
    assert s > 0 ==> (s - 1) * p == s * p - p;
  }

  // the least number of which 2^k times are no fewer than n
  lemma CeilByShift(n: nat, k: nat)
    ensures var c := ShiftRight(n, k) + if And(n, Pow2(k) - 1) != 0 then 1 else 0;
      n <= c * Pow2(k) && (n > 0 ==> c > 0 && (c - 1) * Pow2(k) < n)
  {
    ShiftAndMask(n, k);
    Ceil(n, ShiftRight(n, k), Pow2(k), And(n, Pow2(k) - 1));
  }

  lemma DivBound(n: nat, d: nat)
    requires d > 0
    ensures n <= (n / d + 1) * d
  {
    assert n == (n / d) * d + n % d;
    assert (n / d + 1) * d == (n / d) * d + d;
  }
}
