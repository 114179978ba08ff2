/**
 * mbedtls_mpi_gcd, the binary algorithm on magnitudes. Numbers are mathematical here; shifts are
 * divisions by powers of two.
 */
module Gcd {
  import opened Powers

  ghost function Comb(u: int, a: int, v: int, b: int): int {
    u * a + v * b
  }

  /** g divides both a and b and is an integer combination of them. */
  ghost predicate Bezout(g: nat, a: nat, b: nat) {
    (exists k: nat :: Comb(k, g, 0, 0) == a) && (exists k: nat :: Comb(k, g, 0, 0) == b)
    && exists u: int, v: int :: Comb(u, a, v, b) == g
  }

  ghost predicate Divides(d: nat, a: nat) {
    exists k: nat :: Comb(k, d, 0, 0) == a
  }

  /** Such a g is the greatest common divisor: every common divisor divides it. */
  lemma BezoutIsGreatest(g: nat, a: nat, b: nat, d: nat)
    requires Bezout(g, a, b) && Divides(d, a) && Divides(d, b)
    ensures Divides(g, a) && Divides(g, b) && Divides(d, g)
  {
    var u, v :| Comb(u, a, v, b) == g;
    var k: nat :| Comb(k, d, 0, 0) == a;
    var m: nat :| Comb(m, d, 0, 0) == b;
    MultipleOf(d, u, k, v, m, g);
    if u * k + v * m < 0 {
      assert Comb(0, d, 0, 0) == g;
    } else {
      assert Comb(u * k + v * m, d, 0, 0) == g;
    }
  }

  lemma MultipleOf(d: nat, u: int, k: nat, v: int, m: nat, g: nat)
    requires u * (k * d) + v * (m * d) == g
    ensures (u * k + v * m) * d == g
    ensures u * k + v * m < 0 ==> g == 0
  {
    var n := u * k + v * m;
    assert u * (k * d) == (u * k) * d && v * (m * d) == (v * m) * d;
    assert n * d == (u * k) * d + (v * m) * d;
    if n < 0 {
      MulMonotone(n, -1, d);
    }
  }

  /** It is the only one. */
  lemma BezoutUnique(g: nat, h: nat, a: nat, b: nat)
    requires Bezout(g, a, b) && Bezout(h, a, b)
    ensures g == h
  {
    BezoutIsGreatest(g, a, b, h);
    BezoutIsGreatest(h, a, b, g);
    hide Bezout;
    var k: nat :| Comb(k, g, 0, 0) == h;
    var m: nat :| Comb(m, h, 0, 0) == g;
    MutualDivisors(g, h, k, m);
  }

  lemma MutualDivisors(g: nat, h: nat, k: nat, m: nat)
    requires k * g == h && m * h == g
    ensures g == h
  {
    if k >= 2 {
      MulMonotone(2, k, g);
      if m >= 1 { MulMonotone(1, m, h); }
    }
  }

  /** Whatever is the gcd of (x, y) is, scaled by s, the gcd of (a, b). */
  ghost predicate Leads(x: nat, y: nat, a: nat, b: nat, s: nat) {
    forall g: nat :: Bezout(g, x, y) ==> Bezout(g * s, a, b)
  }

  lemma LeadsTrans(x: nat, y: nat, x1: nat, y1: nat, a: nat, b: nat, s: nat)
    requires Leads(x, y, x1, y1, 1) && Leads(x1, y1, a, b, s)
    ensures Leads(x, y, a, b, s)
  {
    forall g: nat | Bezout(g, x, y)
      ensures Bezout(g * s, a, b)
    {
      assert Bezout(g * 1, x1, y1);
    }
  }

  lemma BezoutSwap(g: nat, a: nat, b: nat)
    requires Bezout(g, a, b)
    ensures Bezout(g, b, a)
  {
    var u, v :| Comb(u, a, v, b) == g;
    assert Comb(v, b, u, a) == g;
  }

  lemma BezoutIntro(g: nat, a: nat, b: nat, k: nat, m: nat, u: int, v: int)
    requires k * g == a && m * g == b && u * a + v * b == g
    ensures Bezout(g, a, b)
  {
    assert Comb(k, g, 0, 0) == a && Comb(m, g, 0, 0) == b && Comb(u, a, v, b) == g;
  }

  lemma BezoutElim(g: nat, a: nat, b: nat) returns (k: nat, m: nat, u: int, v: int)
    requires Bezout(g, a, b)
    ensures k * g == a && m * g == b && u * a + v * b == g
  {
    k :| Comb(k, g, 0, 0) == a;
    m :| Comb(m, g, 0, 0) == b;
    u, v :| Comb(u, a, v, b) == g;
  }

  /** Subtracting one from the other keeps the gcd. */
  lemma SubtractLeads(x: nat, y: nat)
    requires x >= y
    ensures Leads(x - y, y, x, y, 1) && Leads(y, x - y, y, x, 1)
  {
    forall g: nat | Bezout(g, x - y, y)
      ensures Bezout(g * 1, x, y)
    {
      var k, m, u, v := BezoutElim(g, x - y, y);
      assert (k + m) * g == k * g + m * g;
      assert u * x + (v - u) * y == u * (x - y) + v * y;
      BezoutIntro(g, x, y, k + m, m, u, v - u);
    }
    forall g: nat | Bezout(g, y, x - y)
      ensures Bezout(g * 1, y, x)
    {
      BezoutSwap(g, y, x - y);
      assert Bezout(g * 1, x, y);
      BezoutSwap(g, x, y);
    }
  }

  /** Halving one of them keeps the gcd when the other is odd. */
  lemma HalveLeads(x: nat, y: nat)
    requires y % 2 == 1
    ensures Leads(x, y, 2 * x, y, 1) && Leads(y, x, y, 2 * x, 1)
  {
    forall g: nat | Bezout(g, x, y)
      ensures Bezout(g * 1, 2 * x, y)
    {
      DoubleBezout(g, x, y);
    }
    forall g: nat | Bezout(g, y, x)
      ensures Bezout(g * 1, y, 2 * x)
    {
      BezoutSwap(g, y, x);
      DoubleBezout(g, x, y);
      BezoutSwap(g, 2 * x, y);
    }
  }

  lemma DoubleBezout(g: nat, x: nat, y: nat)
    requires Bezout(g, x, y) && y % 2 == 1
    ensures Bezout(g, 2 * x, y)
  {
    hide Bezout;
    var k, m, u, v := BezoutElim(g, x, y);
    EvenCoefficient(x, y, u, v);
    if u % 2 == 0 {
      BezoutIntro(g, 2 * x, y, 2 * k, m, u / 2, v);
    } else {
      BezoutIntro(g, 2 * x, y, 2 * k, m, (u + y) / 2, v - x);
    }
  }

  lemma EvenCoefficient(x: nat, y: nat, u: int, v: int)
    requires y % 2 == 1
    ensures u % 2 == 0 ==> (u / 2) * (2 * x) + v * y == u * x + v * y
    ensures u % 2 != 0 ==> ((u + y) / 2) * (2 * x) + (v - x) * y == u * x + v * y
  {
    var h := if u % 2 == 0 then u / 2 else (u + y) / 2;
    assert h * (2 * x) == (2 * h) * x;
    if u % 2 != 0 {
      assert 2 * h == u + y;
      assert (u + y) * x == u * x + y * x && (v - x) * y == v * y - x * y;
    }
  }

  /** mbedtls_mpi_lsb: the number of low zero bits, by convention none for zero. */
  function Lsb(v: nat): nat {
    if v == 0 || v % 2 == 1 then 0 else 1 + Lsb(v / 2)
  }

  /** Shifting the low zero bits out leaves an odd number and, next to an odd one, the gcd. */
  lemma {:induction false} StripLeads(x: nat, y: nat)
    requires x > 0 && (x % 2 == 1 || y % 2 == 1)
    ensures Leads(Shr(x, Lsb(x)), y, x, y, 1) && Leads(y, Shr(x, Lsb(x)), y, x, 1)
  {
    hide Bezout;
    if x % 2 == 1 {
      assert x / Pow(2, 0) == x;
    } else {
      var w := x / 2;
      StripLeads(w, y);
      ShiftAgain(w, Pow(2, Lsb(w)));
      assert x == 2 * w;
      HalveLeads(w, y);
      LeadsTrans(Shr(w, Lsb(w)), y, w, y, x, y, 1);
      LeadsTrans(y, Shr(w, Lsb(w)), y, w, y, x, 1);
    }
  }

  lemma ShiftAgain(w: nat, p: nat)
    requires p > 0
    ensures (2 * w) / (2 * p) == w / p
  {
    var q, r := w / p, w % p;
    assert w == q * p + r;
    assert q * (2 * p) == 2 * (q * p);
    DivModUnique(2 * w, 2 * p, q, 2 * r);
  }

  /** A common shift comes back as a factor. */
  lemma ScaleLeads(x: nat, y: nat, s: nat)
    ensures Leads(x, y, x * s, y * s, s)
  {
    forall g: nat | Bezout(g, x, y)
      ensures Bezout(g * s, x * s, y * s)
    {
      var k, m, u, v := BezoutElim(g, x, y);
      Assoc(k, g, s);
      Assoc(m, g, s);
      Assoc(u, x, s);
      Assoc(v, y, s);
      assert (u * x + v * y) * s == (u * x) * s + (v * y) * s;
      BezoutIntro(g * s, x * s, y * s, k, m, u, v);
    }
  }

  /** Shifting by no more than Lsb drops nothing, and by Lsb leaves an odd number. */
  lemma {:induction false} LsbExact(x: nat, k: nat)
    requires k <= Lsb(x)
    ensures x == Shr(x, k) * Pow(2, k)
    ensures x > 0 && k == Lsb(x) ==> Shr(x, k) % 2 == 1
  {
    if k == 0 {
      assert Pow(2, 0) == 1 && x / 1 == x;
    } else {
      var w := x / 2;
      assert x == 2 * w;
      LsbExact(w, k - 1);
      ShiftAgain(w, Pow(2, k - 1));
      Twice(Shr(w, k - 1), Pow(2, k - 1));
    }
  }

  lemma Twice(z: nat, p: nat)
    ensures z * (2 * p) == 2 * (z * p)
  {
  }

  lemma OddPart(x: nat)
    ensures Shr(x, Lsb(x)) <= x && (x == 0 ==> Shr(x, Lsb(x)) == 0)
    ensures x > 0 ==> Shr(x, Lsb(x)) % 2 == 1
  {
    LsbExact(x, Lsb(x));
    MulMonotone(1, Pow(2, Lsb(x)), Shr(x, Lsb(x)));
  }

  /** One turn of the loop: low zero bits out of both, then half the difference into the larger. */
  method Turn(ta: nat, tb: nat) returns (ta': nat, tb': nat)
    requires ta > 0
    ensures ta' + tb' < ta + tb
    ensures tb == 0 ==> tb' == 0
    ensures tb > 0 && (ta % 2 == 1 || tb % 2 == 1) ==>
      tb' > 0 && (ta' % 2 == 1 || tb' % 2 == 1) && Leads(ta', tb', ta, tb, 1)
  {
    hide Leads, Shr;
    ta', tb' := Shr(ta, Lsb(ta)), Shr(tb, Lsb(tb));
    OddPart(ta);
    OddPart(tb);
    ghost var x, y := ta', tb';
    ghost var useful := tb > 0 && (ta % 2 == 1 || tb % 2 == 1);
    if useful {
      StripLeads(ta, tb);
      StripLeads(tb, x);
      LeadsTrans(x, y, x, tb, ta, tb, 1);
    }
    if ta' >= tb' {
      ta' := (ta' - tb') / 2;
      if useful {
        DifferenceLeads(x, y, ta, tb);
      }
    } else {
      tb' := (tb' - ta') / 2;
      if useful {
        DifferenceLeads(x, y, ta, tb);
      }
    }
  }

  /** Half the difference of two odd numbers may stand for the larger. */
  lemma DifferenceLeads(x: nat, y: nat, a: nat, b: nat)
    requires x % 2 == 1 && y % 2 == 1 && Leads(x, y, a, b, 1)
    ensures x >= y ==> Leads((x - y) / 2, y, a, b, 1)
    ensures x < y ==> Leads(x, (y - x) / 2, a, b, 1)
  {
    hide Leads;
    if x >= y {
      var h := (x - y) / 2;
      assert x - y == 2 * h;
      SubtractLeads(x, y);
      HalveLeads(h, y);
      LeadsTrans(h, y, x - y, y, x, y, 1);
      LeadsTrans(h, y, x, y, a, b, 1);
    } else {
      var h := (y - x) / 2;
      assert y - x == 2 * h;
      SubtractLeads(y, x);
      HalveLeads(h, x);
      LeadsTrans(x, h, x, y - x, x, y, 1);
      LeadsTrans(x, h, x, y, a, b, 1);
    }
  }

  /**
   * The binary algorithm. The result is the greatest common divisor whenever B is not zero or A is
   * zero too; for A not zero and B zero it is zero, which is not.
   */
  method BinaryGcd(a: nat, b: nat) returns (g: nat)
    ensures Bezout(g, a, b) <==> b != 0 || a == 0
    ensures b == 0 ==> g == 0
  {
    hide Bezout, Leads, Shr, Pow;
    var lz, lzt := Lsb(a), Lsb(b);
    if lzt < lz {
      lz := lzt;
    }
    var ta: nat, tb: nat := Shr(a, lz), Shr(b, lz);
    ghost var s := Pow(2, lz);
    CommonShift(a, b, lz);
    while ta != 0
      invariant b > 0 ==> tb > 0 && (ta % 2 == 1 || tb % 2 == 1 || ta == 0) && Leads(ta, tb, a, b, s)
      invariant b == 0 ==> tb == 0
      decreases ta + tb
    {
      var ta1, tb1 := Turn(ta, tb);
      if b > 0 {
        LeadsTrans(ta1, tb1, ta, tb, a, b, s);
      }
      ta, tb := ta1, tb1;
    }
    g := tb * Pow(2, lz);
    Result(a, b, tb, s);
  }

  lemma CommonShift(a: nat, b: nat, lz: nat)
    requires lz == if Lsb(b) < Lsb(a) then Lsb(b) else Lsb(a)
    ensures b > 0 ==> Shr(b, lz) > 0 && (a > 0 ==> Shr(a, lz) % 2 == 1 || Shr(b, lz) % 2 == 1)
    ensures a == 0 ==> Shr(a, lz) == 0
    ensures b == 0 ==> Shr(b, lz) == 0
    ensures Leads(Shr(a, lz), Shr(b, lz), a, b, Pow(2, lz))
  {
    hide Leads, Shr, Pow;
    LsbExact(a, lz);
    LsbExact(b, lz);
    ScaleLeads(Shr(a, lz), Shr(b, lz), Pow(2, lz));
    ZeroFactor(Shr(a, lz), Pow(2, lz));
    ZeroFactor(Shr(b, lz), Pow(2, lz));
  }

  lemma ZeroFactor(x: nat, s: nat)
    requires s > 0
    ensures x == 0 <==> x * s == 0
  {
  }

  /** When the first number reaches zero the second is the gcd of what is left. */
  lemma Result(a: nat, b: nat, tb: nat, s: nat)
    requires b > 0 ==> Leads(0, tb, a, b, s)
    requires b == 0 ==> tb == 0
    ensures Bezout(tb * s, a, b) <==> b != 0 || a == 0
    ensures b == 0 ==> tb * s == 0
  {
    hide Bezout;
    BezoutIntro(tb, 0, tb, 0, 1, 0, 1);
    BezoutIntro(0, 0, 0, 0, 0, 0, 0);
    if b == 0 && a != 0 {
      NoDivisorOfNonZero(a, b);
    }
  }

  /** Zero divides nothing but zero. */
  lemma NoDivisorOfNonZero(a: nat, b: nat)
    requires a != 0
    ensures !Bezout(0, a, b)
  {
    if Bezout(0, a, b) {
      var k, m, u, v := BezoutElim(0, a, b);
    }
  }
}
