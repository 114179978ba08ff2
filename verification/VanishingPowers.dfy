/**
 * When a power is a multiple of the modulus, decided from the base, the modulus and at most as many
 * factors as the modulus has bits.
 */
module VanishingPowers {
  import opened Powers
  import opened Numerals
  import opened Residues
  import opened Gcd

  lemma DividesIntro(d: nat, k: nat, a: nat)
    requires k * d == a
    ensures Divides(d, a)
  {
    assert Comb(k, d, 0, 0) == a;
  }

  lemma DividesElim(d: nat, a: nat) returns (k: nat)
    requires Divides(d, a)
    ensures k * d == a
  {
    k :| Comb(k, d, 0, 0) == a;
  }

  lemma DividesIsCong(w: nat, p: nat)
    requires w > 0
    ensures Divides(w, p) <==> Cong(p, 0, w)
  {
    hide Divides, Cong;
    if Divides(w, p) {
      var k := DividesElim(w, p);
      CongIntro(p, 0, w, k);
    }
    if Cong(p, 0, w) {
      var k := CongElim(p, 0, w);
      if k < 0 {
        MulMonotone(k, -1, w);
      }
      DividesIntro(w, k, p);
    }
  }

  /** Two numbers have a greatest common divisor. */
  lemma {:induction false} GcdExists(a: nat, b: nat) returns (g: nat)
    ensures Bezout(g, a, b)
    decreases a + b
  {
    hide Bezout;
    if a == 0 {
      BezoutIntro(b, a, b, 0, 1, 0, 1);
      g := b;
    } else if b == 0 {
      BezoutIntro(a, a, b, 1, 0, 1, 0);
      g := a;
    } else if a >= b {
      g := GcdExists(a - b, b);
      SubtractLeads(a, b);
      assert Bezout(g * 1, a, b);
    } else {
      g := GcdExists(a, b - a);
      SubtractLeads(b, a);
      assert Bezout(g * 1, a, b);
    }
  }

  /** What is common to w and a drops out of w dividing a multiple of a. */
  lemma DropCommon(w: nat, v: nat, g: nat, a: nat, m: nat)
    requires g > 0 && Bezout(g, a, w) && w == v * g && Divides(w, a * m)
    ensures Divides(v, m)
  {
    hide Bezout, Divides;
    var _, _, s, t := BezoutElim(g, a, w);
    var k := DividesElim(w, a * m);
    DropValues(w, v, g, a, m, s, t, k);
    var q := s * k + t * m;
    if q < 0 {
      MulMonotone(q, -1, v);
      DividesIntro(v, 0, m);
    } else {
      DividesIntro(v, q, m);
    }
  }

  lemma DropValues(w: nat, v: nat, g: nat, a: nat, m: nat, s: int, t: int, k: nat)
    requires g > 0 && w == v * g && s * a + t * w == g && k * w == a * m
    ensures (s * k + t * m) * v == m
  {
    var q := s * k + t * m;
    assert m * (s * a + t * w) == s * (a * m) + (t * m) * w;
    assert s * (k * w) == (s * k) * w;
    assert q * w == (s * k) * w + (t * m) * w;
    Assoc(q, v, g);
    assert m * g == (q * v) * g;
    if q * v < m {
      MulStrict(q * v, m, g);
    } else if q * v > m {
      MulStrict(m, q * v, g);
    }
  }

  /** A factor of w that divides a, put back. */
  lemma PutBack(v: nat, g: nat, a: nat, m: nat)
    requires Divides(v, m) && Divides(g, a)
    ensures Divides(v * g, a * m)
  {
    hide Divides;
    var k := DividesElim(v, m);
    var j := DividesElim(g, a);
    assert (j * k) * (v * g) == (j * g) * (k * v);
    DividesIntro(v * g, j * k, a * m);
  }

  /** No power of a number that is prime to the modulus is a multiple of it. */
  lemma {:induction false} CoprimePower(w: nat, a: nat, e: nat)
    requires w > 1 && Bezout(1, a, w)
    ensures !Divides(w, Pow(a, e))
    decreases e
  {
    hide Bezout, Divides, Pow;
    PowZero(a);
    if Divides(w, Pow(a, e)) {
      if e > 0 {
        PowNext(a, e - 1);
        DropCommon(w, w, 1, a, Pow(a, e - 1));
        CoprimePower(w, a, e - 1);
      } else {
        var k := DividesElim(w, 1);
        NoFactor(k, w);
      }
    }
  }

  lemma NoFactor(k: nat, w: nat)
    requires w > 1
    ensures k * w != 1
  {
    if k > 0 {
      MulMonotone(1, k, w);
    }
  }

  lemma DividesFurther(w: nat, a: nat, m: nat)
    requires Divides(w, m)
    ensures Divides(w, a * m)
  {
    hide Divides;
    var k := DividesElim(w, m);
    assert (a * k) * w == a * (k * w);
    DividesIntro(w, a * k, a * m);
  }

  lemma {:induction false} LargerPower(w: nat, a: nat, m: nat, n: nat)
    requires m <= n && Divides(w, Pow(a, m))
    ensures Divides(w, Pow(a, n))
    decreases n
  {
    hide Divides, Pow;
    if m < n {
      LargerPower(w, a, m, n - 1);
      DividesFurther(w, a, Pow(a, n - 1));
      PowNext(a, n - 1);
    }
  }

  /** A proper quotient has fewer bits. */
  lemma FewerBits(w: nat, v: nat, g: nat)
    requires w > 0 && g > 1 && w == v * g
    ensures 0 < v < w && Len(2, v) < Len(2, w)
  {
    hide Len;
    assert v > 0;
    MulMonotone(2, g, v);
    LenMonotone(2, v, w / 2);
    LenNext(2, w, w / 2, w % 2);
  }

  /**
   * Every common factor with the base costs the modulus at least a bit, so as many factors as it
   * has bits show whether any power is a multiple of it.
   */
  lemma {:induction false} EnoughFactors(w: nat, a: nat, e: nat)
    requires w > 0 && Divides(w, Pow(a, e))
    ensures Divides(w, Pow(a, Len(2, w)))
    decreases w
  {
    hide Bezout, Divides, Pow, Len;
    var n := Len(2, w);
    if e <= n {
      LargerPower(w, a, e, n);
    } else if w == 1 {
      DividesIntro(w, Pow(a, n), Pow(a, n));
    } else {
      var g := GcdExists(a, w);
      var j, v, _, _ := BezoutElim(g, a, w);
      assert g > 0;
      if g == 1 {
        CoprimePower(w, a, e);
      } else {
        PowNext(a, e - 1);
        DropCommon(w, v, g, a, Pow(a, e - 1));
        FewerBits(w, v, g);
        EnoughFactors(v, a, e - 1);
        LargerPower(v, a, Len(2, v), n - 1);
        DividesIntro(g, j, a);
        PutBack(v, g, a, Pow(a, n - 1));
        PowNext(a, n - 1);
      }
    }
  }

  function Min(x: nat, y: nat): nat {
    if x < y then x else y
  }

  /** A power vanishes modulo w exactly when the one with a capped exponent does. */
  lemma CappedPower(w: nat, a: nat, e: nat)
    requires w > 0
    ensures Cong(Pow(a, e), 0, w) <==> Cong(Pow(a, Min(e, Len(2, w))), 0, w)
  {
    hide Cong, Divides, Pow, Len;
    var n := Min(e, Len(2, w));
    DividesIsCong(w, Pow(a, e));
    DividesIsCong(w, Pow(a, n));
    if Divides(w, Pow(a, e)) {
      EnoughFactors(w, a, e);
    }
    if Divides(w, Pow(a, n)) {
      LargerPower(w, a, n, e);
    }
  }

  /** The two ends: a base prime to the modulus, and a base that is a multiple of it. */
  lemma PlainCases(w: nat, a: nat, e: nat)
    requires w > 1 && e > 0
    ensures Bezout(1, a, w) ==> !Cong(Pow(a, e), 0, w)
    ensures a % w == 0 ==> Cong(Pow(a, e), 0, w)
  {
    hide Cong, Divides, Bezout, Pow;
    DividesIsCong(w, Pow(a, e));
    if Bezout(1, a, w) {
      CoprimePower(w, a, e);
    }
    if a % w == 0 {
      PowNext(a, e - 1);
      assert a == (a / w) * w;
      Reorder(a / w, w, Pow(a, e - 1));
      DividesIntro(w, (a / w) * Pow(a, e - 1), Pow(a, e));
    }
  }

  lemma Reorder(q: nat, w: nat, p: nat)
    ensures (q * p) * w == (q * w) * p
  {
  }
}
