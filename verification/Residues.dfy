/** Congruence modulo n, with its closure properties as named lemmas. */
module Residues {
  import opened Powers

  ghost predicate Cong(a: int, b: int, n: nat)
    requires n > 0
  {
    a % n == b % n
  }

  /** A known multiple of the modulus between two numbers makes them congruent. */
  lemma CongIntro(a: int, b: int, n: nat, k: int)
    requires n > 0 && a == b + k * n
    ensures Cong(a, b, n)
  {
    var q, r := b / n, b % n;
    assert a == (q + k) * n + r;
    DivModUnique(a, n, q + k, r);
  }

  lemma CongElim(a: int, b: int, n: nat) returns (k: int)
    requires n > 0 && Cong(a, b, n)
    ensures a == b + k * n
  {
    k := a / n - b / n;
    assert a == (a / n) * n + a % n && b == (b / n) * n + b % n;
  }

  lemma CongTrans(a: int, b: int, c: int, n: nat)
    requires n > 0 && Cong(a, b, n) && Cong(b, c, n)
    ensures Cong(a, c, n)
  {
  }

  lemma CongSym(a: int, b: int, n: nat)
    requires n > 0 && Cong(a, b, n)
    ensures Cong(b, a, n)
  {
  }

  lemma CongAdd(a: int, b: int, c: int, d: int, n: nat)
    requires n > 0 && Cong(a, b, n) && Cong(c, d, n)
    ensures Cong(a + c, b + d, n) && Cong(a - c, b - d, n)
  {
    var k := CongElim(a, b, n);
    var m := CongElim(c, d, n);
    assert k * n + m * n == (k + m) * n && k * n - m * n == (k - m) * n;
    CongIntro(a + c, b + d, n, k + m);
    CongIntro(a - c, b - d, n, k - m);
  }

  lemma CongScale(a: int, b: int, c: int, n: nat)
    requires n > 0 && Cong(a, b, n)
    ensures Cong(a * c, b * c, n) && Cong(c * a, c * b, n)
  {
    var k := CongElim(a, b, n);
    assert (b + k * n) * c == b * c + (k * n) * c;
    assert (k * n) * c == (k * c) * n;
    CongIntro(a * c, b * c, n, k * c);
  }

  lemma CongMul(a: int, b: int, c: int, d: int, n: nat)
    requires n > 0 && Cong(a, b, n) && Cong(c, d, n)
    ensures Cong(a * c, b * d, n)
  {
    CongScale(a, b, c, n);
    CongScale(c, d, b, n);
  }

  /** A number is congruent to its remainder. */
  lemma CongMod(a: int, n: nat)
    requires n > 0
    ensures Cong(a % n, a, n)
  {
    DivModUnique(a % n, n, 0, a % n);
  }

  /** Congruence survives passing to a divisor of the modulus. */
  lemma CongDivisor(a: int, b: int, n: nat, m: nat)
    requires n > 0 && m > 0 && Cong(a, b, n * m)
    ensures Cong(a, b, n)
  {
    var k := CongElim(a, b, n * m);
    assert k * (n * m) == (k * m) * n;
    CongIntro(a, b, n, k * m);
  }

  /** Two congruent residues are equal. */
  lemma CongSmall(a: int, b: int, n: nat)
    requires n > 0 && Cong(a, b, n) && 0 <= a < n && 0 <= b < n
    ensures a == b
  {
    DivModUnique(a, n, 0, a);
    DivModUnique(b, n, 0, b);
  }
}
