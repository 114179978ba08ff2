/**
 * mbedtls_mpi_inv_mod: the binary extended algorithm. Two numbers are driven down together with
 * the coefficients that express each of them by A and N.
 */
module InvMod {
  import opened Errors
  import opened Powers
  import opened Residues
  import opened Gcd
  import Division

  /** Some integer combination of the two is one. */
  ghost predicate Coprime(x: nat, y: nat) {
    exists u: int, v: int :: Comb(u, x, v, y) == 1
  }

  lemma CoprimeIntro(x: nat, y: nat, u: int, v: int)
    requires u * x + v * y == 1
    ensures Coprime(x, y) && Coprime(y, x)
  {
    assert Comb(u, x, v, y) == 1 && Comb(v, y, u, x) == 1;
  }

  lemma CoprimeHalf(x: nat, y: nat)
    requires Coprime(x, y) && x % 2 == 0
    ensures Coprime(x / 2, y)
  {
    var u, v :| Comb(u, x, v, y) == 1;
    assert (2 * u) * (x / 2) == u * x by {
      assert x == 2 * (x / 2);
    }
    CoprimeIntro(x / 2, y, 2 * u, v);
  }

  lemma CoprimeSubtract(x: nat, y: nat)
    requires Coprime(x, y) && x >= y
    ensures Coprime(x - y, y)
  {
    var u, v :| Comb(u, x, v, y) == 1;
    assert u * (x - y) + (v + u) * y == u * x + v * y;
    CoprimeIntro(x - y, y, u, v + u);
  }

  lemma CoprimeSwap(x: nat, y: nat)
    requires Coprime(x, y)
    ensures Coprime(y, x)
  {
    var u, v :| Comb(u, x, v, y) == 1;
    CoprimeIntro(x, y, u, v);
  }

  lemma CoprimeWithZero(y: nat)
    requires Coprime(0, y)
    ensures y == 1
  {
    var u, v :| Comb(u, 0, v, y) == 1;
    assert v * y == 1;
    if y >= 2 {
      if v >= 1 { MulMonotone(1, v, y); } else { MulMonotone(v, 0, y); }
    }
  }

  lemma EvenCombination(x: nat, y: nat, u: int, v: int)
    requires x % 2 == 0 && y % 2 == 0
    ensures (u * x + v * y) % 2 == 0
  {
    ParityOfProduct(u, x);
    ParityOfProduct(v, y);
  }

  /** Not both are even. */
  lemma CoprimeOdd(x: nat, y: nat)
    requires Coprime(x, y)
    ensures x % 2 == 1 || y % 2 == 1
  {
    var u, v :| Comb(u, x, v, y) == 1;
    if x % 2 == 0 && y % 2 == 0 {
      EvenCombination(x, y, u, v);
    }
  }

  /**
   * Halving a number that is u1 * a + u2 * b: when a coefficient is odd, b is added to one and a
   * taken from the other first, and then both are even.
   */
  lemma HalfCoefficients(a: nat, b: nat, u1: int, u2: int, t: nat)
    requires a % 2 == 1 || b % 2 == 1
    requires u1 * a + u2 * b == 2 * t
    ensures var odd := u1 % 2 != 0 || u2 % 2 != 0;
            var w1, w2 := if odd then u1 + b else u1, if odd then u2 - a else u2;
            w1 % 2 == 0 && w2 % 2 == 0 && (w1 / 2) * a + (w2 / 2) * b == t
  {
    ParityOfSum(a, b, u1, u2, t);
    if u1 % 2 != 0 || u2 % 2 != 0 {
      Distribute(u1, u2, a, b);
      HalveSum(a, b, u1 + b, u2 - a, t);
    } else {
      HalveSum(a, b, u1, u2, t);
    }
  }

  lemma Distribute(u1: int, u2: int, a: int, b: int)
    ensures (u1 + b) * a + (u2 - a) * b == u1 * a + u2 * b
  {
  }

  lemma HalveSum(a: nat, b: nat, w1: int, w2: int, t: nat)
    requires w1 % 2 == 0 && w2 % 2 == 0 && w1 * a + w2 * b == 2 * t
    ensures (w1 / 2) * a + (w2 / 2) * b == t
  {
    var h1, h2 := w1 / 2, w2 / 2;
    Assoc(2, h1, a);
    Assoc(2, h2, b);
    assert w1 == 2 * h1 && w2 == 2 * h2;
  }

  lemma ParityOfProduct(u: int, a: int)
    ensures (u * a) % 2 == if u % 2 == 1 && a % 2 == 1 then 1 else 0
  {
    var p, q, r, s := u / 2, u % 2, a / 2, a % 2;
    Expand(p, q, r, s);
    var k := (2 * p + q) * r + p * s;
    assert u * a == 2 * k + q * s;
    assert q * s == if q == 1 && s == 1 then 1 else 0;
    DivModUnique(u * a, 2, k, q * s);
  }

  lemma Expand(p: int, q: int, r: int, s: int)
    ensures (2 * p + q) * (2 * r + s) == 2 * ((2 * p + q) * r + p * s) + q * s
  {
    var w := 2 * p + q;
    assert w * (2 * r + s) == 2 * (w * r) + w * s;
    assert w * s == 2 * (p * s) + q * s;
  }

  lemma ParityOfSum(a: nat, b: nat, u1: int, u2: int, t: nat)
    requires (a % 2 == 1 || b % 2 == 1) && u1 * a + u2 * b == 2 * t
    ensures u1 % 2 != 0 || u2 % 2 != 0 ==> (u1 + b) % 2 == 0 && (u2 - a) % 2 == 0
  {
    ParityOfProduct(u1, a);
    ParityOfProduct(u2, b);
    Parities(a, b, u1, u2, u1 * a, u2 * b, t);
  }

  lemma Parities(a: nat, b: nat, u1: int, u2: int, x: int, y: int, t: int)
    requires (a % 2 == 1 || b % 2 == 1) && x + y == 2 * t
    requires x % 2 == if u1 % 2 == 1 && a % 2 == 1 then 1 else 0
    requires y % 2 == if u2 % 2 == 1 && b % 2 == 1 then 1 else 0
    ensures u1 % 2 != 0 || u2 % 2 != 0 ==> (u1 + b) % 2 == 0 && (u2 - a) % 2 == 0
  {
  }

  /** The inner loops: a number and its coefficients halved until the number is odd. */
  method HalveToOdd(t0: nat, u10: int, u20: int, a: nat, b: nat, ghost other: nat)
    returns (t: nat, u1: int, u2: int)
    requires t0 > 0 && u10 * a + u20 * b == t0 && (a % 2 == 1 || b % 2 == 1) && Coprime(t0, other)
    ensures 0 < t <= t0 && t % 2 == 1 && u1 * a + u2 * b == t && Coprime(t, other)
  {
    hide Coprime;
    t, u1, u2 := t0, u10, u20;
    while t % 2 == 0
      invariant 0 < t <= t0 && u1 * a + u2 * b == t && Coprime(t, other)
      decreases t
    {
      CoprimeHalf(t, other);
      t := t / 2;
      HalfCoefficients(a, b, u1, u2, t);
      if u1 % 2 != 0 || u2 % 2 != 0 {
        u1, u2 := u1 + b, u2 - a;
      }
      u1, u2 := u1 / 2, u2 / 2;
    }
  }

  lemma DifferenceCoefficients(a: nat, b: nat, u1: int, u2: int, v1: int, v2: int, x: int, y: int)
    requires u1 * a + u2 * b == x && v1 * a + v2 * b == y
    ensures (u1 - v1) * a + (u2 - v2) * b == x - y
  {
  }

  /** The main loop: one is left of the second number, and its first coefficient inverts ta. */
  method Coefficients(ta: nat, tb: nat) returns (v1: int)
    requires ta > 0 && tb > 0 && Coprime(ta, tb)
    ensures Cong(v1 * ta, 1, tb)
  {
    hide Coprime, Cong;
    CoprimeOdd(ta, tb);
    var tu: nat, tv: nat, u1, u2, w1, w2 := ta, tb, 1, 0, 0, 1;
    while true
      invariant tu > 0 && tv > 0 && Coprime(tu, tv)
      invariant u1 * ta + u2 * tb == tu && w1 * ta + w2 * tb == tv
      decreases tu + tv
    {
      ghost var total := tu + tv;
      tu, u1, u2 := HalveToOdd(tu, u1, u2, ta, tb, tv);
      CoprimeSwap(tu, tv);
      tv, w1, w2 := HalveToOdd(tv, w1, w2, ta, tb, tu);
      CoprimeSwap(tv, tu);
      if tu >= tv {
        CoprimeSubtract(tu, tv);
        DifferenceCoefficients(ta, tb, u1, u2, w1, w2, tu, tv);
        tu, u1, u2 := tu - tv, u1 - w1, u2 - w2;
      } else {
        CoprimeSwap(tu, tv);
        CoprimeSubtract(tv, tu);
        CoprimeSwap(tv - tu, tu);
        DifferenceCoefficients(ta, tb, w1, w2, u1, u2, tv, tu);
        tv, w1, w2 := tv - tu, w1 - u1, w2 - u2;
      }
      if tu == 0 {
        break;
      }
    }
    CoprimeWithZero(tv);
    Negate(w2, tb);
    CongIntro(w1 * ta, 1, tb, -w2);
    v1 := w1;
  }

  /** Bringing a coefficient into 0 .. n - 1. */
  method Reduce(v: int, n: nat) returns (x: nat)
    requires n > 0
    ensures x < n && Cong(x, v, n)
  {
    var y := v;
    ghost var k := 0;
    while y < 0
      invariant y == v + k * n
      decreases -y
    {
      y := y + n;
      k := k + 1;
    }
    while y >= n
      invariant 0 <= y && y == v + k * n
    {
      y := y - n;
      k := k - 1;
    }
    CongIntro(y, v, n, k);
    x := y;
  }

  /** gcd 1 in one form and the other, for A reduced modulo N. */
  lemma ReducedCoprime(sA: int, a: nat, n: nat, ta: nat, q: int)
    requires (sA == 1 || sA == -1) && n > 1 && Bezout(1, a, n) && sA * a == q * n + ta
    ensures Coprime(ta, n) && ta > 0
  {
    hide Bezout, Coprime;
    var k, m, u, v := BezoutElim(1, a, n);
    Regroup(sA, a, n, ta, q, u, v);
    CoprimeIntro(ta, n, sA * u, v + (sA * u) * q);
    if ta == 0 {
      CoprimeWithZero(n);
    }
  }

  lemma Regroup(sA: int, a: nat, n: nat, ta: nat, q: int, u: int, v: int)
    requires (sA == 1 || sA == -1) && sA * a == q * n + ta && u * a + v * n == 1
    ensures (sA * u) * ta + (v + (sA * u) * q) * n == 1
  {
    assert (sA * u) * (q * n + ta) == (sA * u) * (q * n) + (sA * u) * ta;
    assert (sA * u) * (q * n) == ((sA * u) * q) * n;
    assert (sA * u) * (sA * a) == u * a;
    assert (v + (sA * u) * q) * n == v * n + ((sA * u) * q) * n;
  }

  /** An inverse would make the gcd one. */
  lemma InverseMeansCoprime(sA: int, a: nat, n: nat, y: int)
    requires (sA == 1 || sA == -1) && n > 1 && Cong(y * (sA * a), 1, n)
    ensures Bezout(1, a, n)
  {
    var k := CongElim(y * (sA * a), 1, n);
    assert y * (sA * a) == (y * sA) * a;
    Negate(k, n);
    BezoutIntro(1, a, n, a, n, y * sA, -k);
  }

  lemma InverseOfReduced(A: int, n: nat, ta: nat, v1: int, x: nat)
    requires n > 1 && ta == A % n && Cong(v1 * ta, 1, n) && Cong(x, v1, n)
    ensures Cong(x * A, 1, n)
  {
    hide Cong;
    CongMod(A, n);
    CongSym(ta, A, n);
    CongMul(x, v1, A, ta, n);
    CongTrans(x * A, v1 * ta, 1, n);
  }

  /**
   * The inverse of A = sA * a modulo N = sN * n: reduced, and refused exactly when there is none.
   * A modulus of one or less is refused before that.
   */
  method InvMod(udbl: bool, H: nat, bl: nat, B: nat, sA: int, a: nat, sN: int, n: nat) returns (ret: int, x: nat)
    requires H > 1 && bl > 0 && B == H * H == Pow(2, bl)
    requires (sA == 1 || sA == -1) && (sN == 1 || sN == -1)
    ensures sN * n <= 1 <==> ret == ERR_BAD_INPUT_DATA
    ensures ret == ERR_NOT_ACCEPTABLE ==> n > 1 && forall y: int :: !Cong(y * (sA * a), 1, n)
    ensures ret == 0 ==> n > 1 && x < n && Cong(x * (sA * a), 1, n)
    ensures ret == 0 || ret == ERR_NOT_ACCEPTABLE || ret == ERR_BAD_INPUT_DATA
  {
    hide Bezout, Coprime, Cong, Pow;
    x := 0;
    if sN * n <= 1 {
      return ERR_BAD_INPUT_DATA, 0;
    }
    var g := BinaryGcd(a, n);
    if g != 1 {
      forall y: int
        ensures !Cong(y * (sA * a), 1, n)
      {
        if Cong(y * (sA * a), 1, n) {
          InverseMeansCoprime(sA, a, n, y);
          BezoutUnique(g, 1, a, n);
        }
      }
      return ERR_NOT_ACCEPTABLE, 0;
    }
    var ta := Division.Modulo(udbl, H, bl, B, sA, a, n);
    ReducedCoprime(sA, a, n, ta, (sA * a) / n);
    var v1 := Coefficients(ta, n);
    x := Reduce(v1, n);
    InverseOfReduced(sA * a, n, ta, v1, x);
    ret := 0;
  }
}
