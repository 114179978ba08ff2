/** Numbers written in a base: how many digits they take and what each digit is. */
module Numerals {
  import opened Powers

  /** The number of base-b digits of v, none for zero. */
  function Len(b: nat, v: nat): nat
    requires b > 1
  {
    if v == 0 then 0 else Shrinks(b, v); 1 + Len(b, v / b)
  }

  lemma Shrinks(b: nat, v: nat)
    requires b > 1 && v > 0
    ensures v / b < v
  {
    var q := v / b;
    assert v == q * b + v % b;
    MulMonotone(2, b, q);
  }

  /** Len is the least exponent whose power exceeds v. */
  lemma {:induction false} LenBounds(b: nat, v: nat)
    requires b > 1
    ensures v < Pow(b, Len(b, v))
    ensures v > 0 ==> Len(b, v) > 0 && Pow(b, Len(b, v) - 1) <= v
  {
    if v > 0 {
      Shrinks(b, v);
      var q, n := v / b, Len(b, v) - 1;
      LenBounds(b, q);
      OneDigitUp(b, v, q, Pow(b, n));
      if q > 0 {
        OneDigitUp(b, v, q, Pow(b, n - 1));
      }
    }
  }

  lemma OneDigitUp(b: nat, v: nat, q: nat, P: nat)
    requires b > 0 && q == v / b
    ensures q < P ==> v < b * P
    ensures P <= q ==> b * P <= v
  {
    assert v == q * b + v % b;
    if q < P {
      MulStrict(q, P, b);
    } else {
      MulMonotone(P, q, b);
    }
  }

  /** Anything below b^n has at most n digits, and nothing else has. */
  lemma LenAtMost(b: nat, v: nat, n: nat)
    requires b > 1
    ensures v < Pow(b, n) <==> Len(b, v) <= n
  {
    LenBounds(b, v);
    if Len(b, v) <= n {
      PowMonotone(b, Len(b, v), n);
    } else {
      PowMonotone(b, n, Len(b, v) - 1);
    }
  }

  lemma LenMonotone(b: nat, u: nat, v: nat)
    requires b > 1 && u <= v
    ensures Len(b, u) <= Len(b, v)
  {
    LenBounds(b, v);
    LenAtMost(b, u, Len(b, v));
  }

  lemma LenNext(b: nat, v: nat, q: nat, r: nat)
    requires b > 1 && r < b && v == q * b + r
    ensures Len(b, v) == if v == 0 then 0 else 1 + Len(b, q)
  {
    DivModUnique(v, b, q, r);
  }

  /** Digits in base 2^k are the bits in groups of k. */
  lemma LenOfPower(P: nat, k: nat, v: nat)
    requires k > 0 && P == Pow(2, k) && P > 1
    ensures var L := Len(P, v);
            Len(2, v) <= k * L && (L > 0 ==> k * (L - 1) < Len(2, v))
  {
    hide Len, Pow;
    var L := Len(P, v);
    GroupsOfBits(P, k, v, L);
    if L > 0 {
      GroupsOfBits(P, k, v, L - 1);
    }
  }

  lemma GroupsOfBits(P: nat, k: nat, v: nat, n: nat)
    requires P == Pow(2, k) && P > 1
    ensures Len(P, v) <= n <==> Len(2, v) <= k * n
  {
    LenAtMost(P, v, n);
    PowMul(2, k, n);
    LenAtMost(2, v, k * n);
  }

  /** A larger radix never takes more digits. */
  lemma LenOfRadix(a: nat, b: nat, v: nat)
    requires 1 < a <= b
    ensures Len(b, v) <= Len(a, v)
  {
    LenBounds(a, v);
    PowBaseMonotone(a, b, Len(a, v));
    LenAtMost(b, v, Len(a, v));
  }

  /** What is left of a number above its low i digits. */
  function Upper(b: nat, v: nat, i: nat): nat
    requires b > 0
  {
    v / Pow(b, i)
  }

  /** Limb i of a number, X->p[i]. */
  function Limb(b: nat, v: nat, i: nat): nat
    requires b > 0
  {
    Upper(b, v, i) % b
  }

  lemma UpperLow(b: nat, v: nat, i: nat) returns (low: nat)
    requires b > 0
    ensures low < Pow(b, i) && v == Upper(b, v, i) * Pow(b, i) + low
  {
    low := v % Pow(b, i);
  }

  lemma UpperUnique(b: nat, v: nat, i: nat, q: nat, low: nat)
    requires b > 0 && low < Pow(b, i) && v == q * Pow(b, i) + low
    ensures Upper(b, v, i) == q
  {
    DivModUnique(v, Pow(b, i), q, low);
  }

  lemma UpperZero(b: nat, v: nat)
    requires b > 0
    ensures Upper(b, v, 0) == v && Pow(b, 0) == 1
  {
    UpperUnique(b, v, 0, v, 0);
  }

  /** One digit further down. */
  lemma UpperNext(b: nat, v: nat, i: nat)
    requires b > 0
    ensures Upper(b, v, i) == Upper(b, v, i + 1) * b + Limb(b, v, i) && Limb(b, v, i) < b
  {
    hide Upper;
    var y, p := Upper(b, v, i), Pow(b, i);
    var low := UpperLow(b, v, i);
    assert y == (y / b) * b + y % b;
    Merge(b, p, y, y / b, y % b);
    MulStrict(y % b, b, p);
    UpperUnique(b, v, i + 1, y / b, (y % b) * p + low);
  }

  lemma Merge(b: nat, p: nat, y: nat, q: nat, r: nat)
    requires y == q * b + r
    ensures y * p == q * (b * p) + r * p
  {
    assert (q * b + r) * p == (q * b) * p + r * p;
    Assoc(q, b, p);
  }

  /** A number below b^(i + 1) has only its top digit at weight b^i. */
  lemma TopLimbIs(b: nat, v: nat, i: nat)
    requires b > 0 && v < Pow(b, i + 1)
    ensures Limb(b, v, i) == Upper(b, v, i)
  {
    UpperNext(b, v, i);
    UpperUnique(b, v, i + 1, 0, v);
  }
}
