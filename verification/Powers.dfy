/** Integer powers and the few nonlinear facts that every other module uses by name. */
module Powers {

  function Pow(b: nat, e: nat): (p: nat)
    ensures b > 0 ==> p > 0
  {
    if e == 0 then 1 else b * Pow(b, e - 1)
  }

  /** x >> k. */
  function Shr(x: nat, k: nat): nat {
    x / Pow(2, k)
  }

  lemma PowZero(b: nat)
    ensures Pow(b, 0) == 1
  {
  }

  lemma PowNext(b: nat, n: nat)
    ensures Pow(b, n + 1) == b * Pow(b, n)
  {
  }

  lemma PowersOfTwo()
    ensures Pow(2, 2) == 4 && Pow(2, 7) == 128 && Pow(2, 8) == 256
  {
  }

  /** A minus sign goes through a product. */
  lemma Negate(x: int, y: int)
    ensures (-x) * y == -(x * y) && x * (-y) == -(x * y) && (-x) * (-y) == x * y
  {
  }

  lemma {:induction false} PowAdd(b: nat, m: nat, n: nat)
    ensures Pow(b, m + n) == Pow(b, m) * Pow(b, n)
  {
    if m > 0 {
      PowAdd(b, m - 1, n);
      Assoc(b, Pow(b, m - 1), Pow(b, n));
    }
  }

  lemma {:induction false} PowMul(b: nat, m: nat, n: nat)
    ensures Pow(Pow(b, m), n) == Pow(b, m * n)
    decreases n
  {
    if n == 0 {
      assert m * n == 0;
    } else {
      PowMul(b, m, n - 1);
      assert m * n == m + m * (n - 1);
      PowAdd(b, m, m * (n - 1));
    }
  }

  lemma {:induction false} PowMonotone(b: nat, m: nat, n: nat)
    requires b > 0 && m <= n
    ensures Pow(b, m) <= Pow(b, n)
  {
    if m < n {
      PowMonotone(b, m, n - 1);
      MulMonotone(1, b, Pow(b, n - 1));
    }
  }

  lemma {:induction false} PowBaseMonotone(a: nat, b: nat, n: nat)
    requires a <= b
    ensures Pow(a, n) <= Pow(b, n)
  {
    if n > 0 {
      PowBaseMonotone(a, b, n - 1);
      MulMonotone(a, b, Pow(a, n - 1));
      MulMonotone(Pow(a, n - 1), Pow(b, n - 1), b);
    }
  }

  lemma Assoc(x: int, y: int, z: int)
    ensures x * (y * z) == (x * y) * z
  {
  }

  lemma MulMonotone(x: int, y: int, k: nat)
    requires x <= y
    ensures x * k <= y * k && k * x <= k * y
  {
  }

  lemma MulStrict(x: int, y: int, k: nat)
    requires x < y && k > 0
    ensures x * k + k <= y * k
  {
    MulMonotone(x + 1, y, k);
  }

  /** A product of two residues leaves room for two more: (B-1)^2 + 2(B-1) = B^2 - 1. */
  lemma ProductRoom(B: nat, x: nat, y: nat)
    requires x < B && y < B
    ensures x * y + 2 * B <= B * B + 1
  {
    MulMonotone(x, B - 1, y);
    MulMonotone(y, B - 1, B - 1);
    assert (B - 1) * (B - 1) == B * B - 2 * B + 1;
  }

  /** Quotient and remainder are unique. */
  lemma DivModUnique(x: int, m: nat, q: int, r: int)
    requires m > 0 && 0 <= r < m && x == q * m + r
    ensures x / m == q && x % m == r
  {
    var q', r' := x / m, x % m;
    assert x == q' * m + r';
    if q' < q {
      MulStrict(q', q, m);
    } else if q < q' {
      MulStrict(q, q', m);
    }
  }
}
