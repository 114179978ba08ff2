/**
 * mbedtls_mpi_div_mpi and mbedtls_mpi_mod_mpi on objects, where the results may be written into
 * the operands: what is then left in quotient and remainder, and when that is still a division.
 */
module DivisionObjects {
  import opened Errors
  import opened Powers
  import opened Limbs
  import opened Mpi
  import opened Numerals
  import Division

  /** The values left for quotient and remainder. */
  datatype Left = Left(q: int, r: int)

  /**
   * Dividing sA * a by sF * b when the quotient object is the dividend (QA) or the divisor (QF).
   * The quotient is written first, so afterwards a dividend that was overwritten has lost its
   * number or its sign.
   */
  function LeftIn(sA: int, a: nat, sF: int, b: nat, QA: bool, QF: bool): Left
    requires b > 0
  {
    if a < b then Left(0, if QA then 0 else sA * a)
    else
      var sQ := (if QA then 1 else sA) * (if QF then 1 else sF);
      Left(sQ * (a / b), (if QA then sQ else sA) * (a % b))
  }

  /** The calls after which dividend = quotient * divisor + remainder, for the numbers passed in. */
  predicate Kept(sA: int, a: nat, sF: int, b: nat, QA: bool, QF: bool)
    requires b > 0
  {
    if QA && QF then true
    else if QA then (if a < b then a == 0 else sA == 1 && (sF == 1 || a % b == 0))
    else if QF then a < b || sF == 1
    else true
  }

  /**
   * Exactly those. A remainder written into an operand is never a danger. The steps are spelled out
   * for the sake of a stable proof.
   */
  lemma DivisionKept(sA: int, a: nat, sF: int, b: nat, QA: bool, QF: bool)
    requires (sA == 1 || sA == -1) && (sF == 1 || sF == -1) && b > 0 && (QA && QF ==> a == b && sA == sF)
    ensures var l := LeftIn(sA, a, sF, b, QA, QF);
            sA * a == l.q * (sF * b) + l.r <==> Kept(sA, a, sF, b, QA, QF)
  {
    var q: nat, r: nat := a / b, a % b;
    if a < b {
      assert 0 * (sF * b) == 0;
    } else {
      if QA && QF {
        DivModUnique(a, b, 1, 0);
      }
      var sQ := (if QA then 1 else sA) * (if QF then 1 else sF);
      Euclid(a, b);
      LargeKept(sA, sF, sQ, if QA then sQ else sA, a, q, b, r);
    }
  }

  lemma Euclid(a: nat, b: nat)
    requires b > 0
    ensures a == (a / b) * b + a % b && a % b < b
  {
  }

  lemma LargeKept(sA: int, sF: int, sQ: int, sX: int, a: nat, q: nat, b: nat, r: nat)
    requires (sA == 1 || sA == -1) && (sF == 1 || sF == -1) && (sQ == 1 || sQ == -1) && (sX == 1 || sX == -1)
    requires r < b <= a && a == q * b + r
    ensures sA * a == (sQ * q) * (sF * b) + sX * r <==> sA == sQ * sF && (r == 0 || sX == sA)
  {
    DivPositive(a, q, b, r);
    Signs(sF, sQ, q, b);
    Balance(sA, sF, sQ, sX, q * b, r);
  }

  lemma DivPositive(a: nat, q: nat, b: nat, r: nat)
    requires r < b <= a && a == q * b + r
    ensures r < q * b
  {
    assert q > 0;
    MulMonotone(1, q, b);
  }

  lemma Signs(sF: int, sQ: int, q: nat, b: nat)
    requires (sF == 1 || sF == -1) && (sQ == 1 || sQ == -1)
    ensures (sQ * q) * (sF * b) == (sQ * sF) * (q * b)
  {
  }

  /** The larger part decides the sign of a sum. */
  lemma Balance(s: int, f: int, t: int, u: int, p: nat, r: nat)
    requires (s == 1 || s == -1) && (f == 1 || f == -1) && (t == 1 || t == -1) && (u == 1 || u == -1) && r < p
    ensures s * (p + r) == (t * f) * p + u * r <==> s == t * f && (r == 0 || u == s)
  {
    if t == f {
      assert t * f == 1;
    } else {
      assert t * f == -1;
    }
  }

  /** Two of the objects are one, or have limbs of their own. */
  ghost predicate Apart(x: Mpi?, y: Mpi?)
    reads x, y
  {
    x != null && y != null && x != y ==> x.p != y.p
  }

  /** A number of its own, in n limbs. */
  method Temporary(B: nat, s: int, v: nat, n: nat) returns (t: Mpi)
    requires B > 1 && v < Pow(B, n) && (s == 1 || s == -1)
    ensures fresh(t) && fresh(t.p) && t.Valid(B) && t.s == s && t.Abs(B) == v && t.p.Length == n
  {
    hide Val, Pow;
    t := new Mpi();
    t.p := Store(B, v, n);
    t.s := s;
  }

  ghost function Writes(Q: Mpi?, R: Mpi?): set<object?>
    reads Q, R
  {
    (if Q != null then {Q, Q.p} else {}) + (if R != null then {R, R.p} else {})
  }

  /** A dividend smaller than the divisor: the quotient becomes zero, then the remainder is copied. */
  method Small(B: nat, Q: Mpi?, R: Mpi?, A: Mpi) returns (ret: int)
    requires A.Valid(B) && (Q != null ==> Q.Valid(B)) && (R != null ==> R.Valid(B))
    requires Apart(Q, A) && Apart(R, A) && Apart(Q, R)
    modifies Writes(Q, R)
    ensures var n := old(Used(A.p[..]));
            ret == if R != null && Q != A && n > MAX_LIMBS && n > old(R.p.Length) then ERR_ALLOC_FAILED else 0
    ensures ret == 0 && R != null ==> R.Valid(B) && R.Value(B) == if Q == A then 0 else old(A.Value(B))
    ensures ret == 0 && Q != null && Q != R ==> Q.Valid(B) && Q.Value(B) == 0
    ensures Q != null ==> Q.p == old(Q.p) || fresh(Q.p)
    ensures R != null ==> R.p == old(R.p) || fresh(R.p)
  {
    hide Val, Pow, Used, Digits;
    ret := 0;
    if Q != null {
      ret := Q.Set(B, 0);
      assert Q == A ==> Used(A.p[..]) == 0;
    }
    if R != null {
      ret := R.Copy(B, A);
    }
  }

  /** The divisions that do not find the limbs they need. */
  ghost predicate NoRoom(B: nat, Q: Mpi?, R: Mpi?, A: Mpi, F: Mpi)
    reads A, A.p, F, F.p, R
  {
    if A.Abs(B) < F.Abs(B)
    then R != null && Q != A && Used(A.p[..]) > MAX_LIMBS && Used(A.p[..]) > R.p.Length
    else A.p.Length + 2 > MAX_LIMBS
  }

  /** The quotient is copied and takes its sign from the operands as they are then. */
  method PutQuotient(B: nat, Q: Mpi, A: Mpi, F: Mpi, Z: Mpi) returns (ret: int)
    requires Q.Valid(B) && Z.Valid(B) && Z != Q && Z != A && Z != F && Z.p != Q.p && Z.s == 1
    requires (A.s == 1 || A.s == -1) && (F.s == 1 || F.s == -1) && 0 < Z.p.Length <= MAX_LIMBS
    modifies Q, Q.p
    ensures ret == 0 && Q.Valid(B) && (Q.p == old(Q.p) || fresh(Q.p))
    ensures Q.s == (if Q == A then 1 else old(A.s)) * (if Q == F then 1 else old(F.s))
    ensures Q.Abs(B) == old(Z.Abs(B))
  {
    hide Val, Pow, Used, Digits;
    ret := Q.Copy(B, Z);
    Q.s := A.s * F.s;
  }

  /** A dividend that is not smaller: both results by long division. */
  method Large(udbl: bool, H: nat, bl: nat, B: nat, Q: Mpi?, R: Mpi?, A: Mpi, F: Mpi) returns (ret: int)
    requires H > 1 && bl > 0 && B == H * H == Pow(2, bl)
    requires A.Valid(B) && F.Valid(B) && (Q != null ==> Q.Valid(B)) && (R != null ==> R.Valid(B))
    requires Apart(Q, A) && Apart(Q, F) && Apart(R, A) && Apart(R, F) && Apart(Q, R)
    requires 0 < F.Abs(B) <= A.Abs(B)
    modifies Writes(Q, R)
    ensures ret == if old(A.p.Length) + 2 > MAX_LIMBS then ERR_ALLOC_FAILED else 0
    ensures ret == 0 ==>
              var l := LeftIn(old(A.s), old(A.Abs(B)), old(F.s), old(F.Abs(B)), Q == A, Q == F);
              && (R != null ==> R.Valid(B) && R.Value(B) == l.r)
              && (Q != null && Q != R ==> Q.Valid(B) && Q.Value(B) == l.q)
    ensures Q != null ==> Q.p == old(Q.p) || fresh(Q.p)
    ensures R != null ==> R.p == old(R.p) || fresh(R.p)
  {
    hide Val, Pow, Used, Digits;
    var a, b, n := Val(B, A.p[..]), Val(B, F.p[..]), A.p.Length;
    if n + 2 > MAX_LIMBS {
      return ERR_ALLOC_FAILED;
    }
    ValBound(B, A.p[..]);
    var Z, X := Divided(udbl, H, bl, B, a, n, b);
    ret := 0;
    if Q != null {
      ret := PutQuotient(B, Q, A, F, Z);
    }
    if R != null {
      ret := PutRest(B, R, A, X);
    }
  }

  /** Quotient and remainder of the magnitudes, as numbers of their own. */
  method Divided(udbl: bool, H: nat, bl: nat, B: nat, a: nat, n: nat, b: nat) returns (Z: Mpi, X: Mpi)
    requires H > 1 && bl > 0 && B == H * H == Pow(2, bl) && 0 < b <= a < Pow(B, n)
    ensures fresh(Z) && fresh(Z.p) && Z.Valid(B) && Z.s == 1 && Z.Abs(B) == a / b && Z.p.Length == n + 2
    ensures fresh(X) && fresh(X.p) && X.Valid(B) && X.s == 1 && X.Abs(B) == a % b && X.p.Length == n + 2
    ensures X != Z && X.p != Z.p
  {
    hide Val, Pow, Digits;
    var q, r := Division.DivAbs(udbl, H, bl, B, a, n, b);
    QuotientAndRest(a, b, q, r);
    PowMonotone(B, n, n + 2);
    Z := Temporary(B, 1, q, n + 2);
    X := Temporary(B, 1, r, n + 2);
  }

  /** The remainder takes its sign from the dividend as it is then, and zero has none. */
  method PutRest(B: nat, R: Mpi, A: Mpi, X: Mpi) returns (ret: int)
    requires R.Valid(B) && X.Valid(B) && X != R && X != A && X.p != R.p && (A.s == 1 || A.s == -1)
    requires 0 < X.p.Length <= MAX_LIMBS
    modifies R, R.p, X
    ensures ret == 0 && R.Valid(B) && (R.p == old(R.p) || fresh(R.p))
    ensures R.Value(B) == old(A.s) * old(X.Abs(B))
  {
    hide Val, Pow, Used, Digits;
    X.s := A.s;
    ret := R.Copy(B, X);
    if Val(B, X.p[..]) == 0 {
      R.s := 1;
    }
  }

  lemma QuotientAndRest(a: nat, b: nat, q: nat, r: nat)
    requires a == b * q + r && r < b
    ensures q == a / b && r == a % b && q <= a && r <= a
  {
    DivModUnique(a, b, q, r);
    MulMonotone(1, b, q);
  }

  /** mbedtls_mpi_div_mpi. Either result may be left out, and either may be an operand. */
  method DivMpi(udbl: bool, H: nat, bl: nat, B: nat, Q: Mpi?, R: Mpi?, A: Mpi, F: Mpi) returns (ret: int)
    requires H > 1 && bl > 0 && B == H * H == Pow(2, bl)
    requires A.Valid(B) && F.Valid(B) && (Q != null ==> Q.Valid(B)) && (R != null ==> R.Valid(B))
    requires Apart(Q, A) && Apart(Q, F) && Apart(R, A) && Apart(R, F) && Apart(Q, R)
    modifies Writes(Q, R)
    ensures ret == if old(F.Abs(B)) == 0 then ERR_DIVISION_BY_ZERO
                   else if old(NoRoom(B, Q, R, A, F)) then ERR_ALLOC_FAILED else 0
    ensures ret == 0 ==>
              var l := LeftIn(old(A.s), old(A.Abs(B)), old(F.s), old(F.Abs(B)), Q == A, Q == F);
              && (R != null ==> R.Valid(B) && R.Value(B) == l.r)
              && (Q != null && Q != R ==> Q.Valid(B) && Q.Value(B) == l.q)
    ensures Q != null ==> Q.p == old(Q.p) || fresh(Q.p)
    ensures R != null ==> R.p == old(R.p) || fresh(R.p)
  {
    hide Val, Pow, Used, Digits;
    var b := Val(B, F.p[..]);
    if b == 0 {
      return ERR_DIVISION_BY_ZERO;
    }
    var c := CmpAbs(B, A.p, F.p);
    if c < 0 {
      ret := Small(B, Q, R, A);
    } else {
      ret := Large(udbl, H, bl, B, Q, R, A, F);
    }
  }

  function Magnitude(v: int): nat {
    if v < 0 then -v else v
  }

  /** mbedtls_mpi_add_mpi and mbedtls_mpi_sub_mpi into R, which may be F itself: R = R + k * F. */
  method AddTo(B: nat, R: Mpi, F: Mpi, k: int) returns (ret: int)
    requires R.Valid(B) && F.Valid(B) && Apart(R, F) && (k == 1 || k == -1)
    modifies R, R.p
    ensures R.Valid(B) && (R.p == old(R.p) || fresh(R.p))
    ensures ret == 0 ==> R.Value(B) == old(R.Value(B)) + k * old(F.Value(B))
    ensures ret == 0 || ret == ERR_ALLOC_FAILED
    ensures Len(B, Magnitude(old(R.Value(B)) + k * old(F.Value(B)))) <= MAX_LIMBS ==> ret == 0
  {
    hide Val, Pow, Used, Digits;
    var f := F.s * Val(B, F.p[..]);
    var v := R.s * Val(B, R.p[..]) + k * f;
    var s, a := if v < 0 then -1 else 1, Magnitude(v);
    var n := Len(B, a);
    LenAtMost(B, a, n);
    var X := Temporary(B, s, a, n);
    ret := R.Copy(B, X);
  }

  /** The one value the loops of mbedtls_mpi_mod_mpi may stop at. */
  lemma RestOrNext(s: int, a: nat, b: nat)
    requires (s == 1 || s == -1) && b > 0
    ensures var r := s * (a % b);
            0 - b < r < b && (s * a) % b == if r < 0 then r + b else r
  {
    var q, y := a / b, a % b;
    assert a == q * b + y;
    if s == -1 {
      assert s * a == (-q) * b - y;
      if y == 0 {
        DivModUnique(s * a, b, -q, 0);
      } else {
        assert (-q - 1) * b == (-q) * b - b;
        DivModUnique(s * a, b, -q - 1, b - y);
      }
    } else {
      DivModUnique(s * a, b, q, y);
    }
  }

  /** The first loop: the divisor is added until the remainder is not negative. */
  method Raise(B: nat, R: Mpi, F: Mpi, turns: nat) returns (ret: int, left: nat)
    requires R.Valid(B) && F.Valid(B) && Apart(R, F) && (R != F ==> 0 - F.Value(B) < R.Value(B) < F.Value(B))
    modifies R, R.p
    ensures R.Valid(B) && (R.p == old(R.p) || fresh(R.p)) && left <= turns
    ensures ret == 0 || ret == ERR_ALLOC_FAILED
    ensures old(R.Value(B)) >= 0 ==> ret == 0 && left == turns && R.Value(B) == old(R.Value(B))
    ensures R == F && old(R.Value(B)) < 0 && ret == 0 ==> left == 0 && R.Value(B) < 0
    ensures R != F && ret == 0 && turns > 0 ==>
              R.Value(B) == if old(R.Value(B)) < 0 then old(R.Value(B)) + F.Value(B) else old(R.Value(B))
    ensures R != F && turns == 0 ==> R.Value(B) == old(R.Value(B))
    ensures R != F && F.p.Length <= MAX_LIMBS ==> ret == 0
  {
    hide Val, Pow, Used, Digits, Len;
    ret, left := 0, turns;
    ghost var r, f := R.Value(B), F.Value(B);
    while R.s * Val(B, R.p[..]) < 0 && left > 0
      invariant R.Valid(B) && (R.p == old(R.p) || fresh(R.p)) && left <= turns
      invariant R == F && r < 0 ==> R.Value(B) < 0
      invariant R != F || r >= 0 ==> R.Value(B) == if left == turns then r else r + f
      invariant R != F ==> F.Valid(B) && F.Value(B) == f && Apart(R, F) && F.p.Length == old(F.p.Length)
      invariant ret == 0 && (left == turns || (r < 0 && (left == turns - 1 || R == F)))
      decreases left
    {
      if R != F {
        InDivisor(B, F, R.Value(B) + F.Value(B));
      }
      ret := AddTo(B, R, F, 1);
      if ret != 0 {
        return;
      }
      left := left - 1;
    }
  }

  /** A number below the divisor takes no more limbs than it has. */
  lemma InDivisor(B: nat, F: Mpi, v: int)
    requires F.Valid(B) && 0 <= v < F.Value(B)
    ensures Len(B, v) <= F.p.Length
  {
    hide Len, Pow, Val;
    ValBound(B, F.p[..]);
    LenAtMost(B, v, F.p.Length);
  }

  /** The second: the divisor is subtracted until the remainder is smaller. */
  method Lower(B: nat, R: Mpi, F: Mpi, turns: nat) returns (ret: int, done: bool)
    requires R.Valid(B) && F.Valid(B) && Apart(R, F) && R.Value(B) >= 0
    modifies R, R.p
    ensures R != F && old(R.Value(B)) < old(F.Value(B)) ==>
              ret == 0 && done && R.Valid(B) && R.Value(B) == old(R.Value(B))
    ensures R == F ==> ret == 0 && !done
  {
    hide Val, Pow, Used, Digits, Len;
    ret, done := 0, false;
    ghost var r := R.Value(B);
    var left := turns;
    while R.s * Val(B, R.p[..]) >= F.s * Val(B, F.p[..]) && left > 0
      invariant R.Valid(B) && F.Valid(B) && Apart(R, F) && (R == F ==> R.Value(B) >= 0)
      invariant R.p == old(R.p) || fresh(R.p)
      invariant R != F && r < old(F.Value(B)) ==> left == turns && R.Value(B) == r && F.Value(B) == old(F.Value(B))
      decreases left
    {
      ZeroLen(B);
      ret := AddTo(B, R, F, -1);
      if ret != 0 {
        return;
      }
      left := left - 1;
    }
    done := R.s * Val(B, R.p[..]) < F.s * Val(B, F.p[..]);
  }

  lemma ZeroLen(B: nat)
    requires B > 1
    ensures Len(B, 0) == 0
  {
  }

  /** The division with no quotient asked for. */
  method Rest(udbl: bool, H: nat, bl: nat, B: nat, R: Mpi, A: Mpi, F: Mpi) returns (ret: int)
    requires H > 1 && bl > 0 && B == H * H == Pow(2, bl) && F.Value(B) >= 0
    requires A.Valid(B) && F.Valid(B) && R.Valid(B) && Apart(A, F) && Apart(R, A) && Apart(R, F)
    modifies R, R.p
    ensures ret == if old(F.Value(B)) == 0 then ERR_DIVISION_BY_ZERO
                   else if old(NoRoom(B, null, R, A, F)) then ERR_ALLOC_FAILED else 0
    ensures (R.p == old(R.p) || fresh(R.p))
    ensures ret == 0 ==> R.Valid(B) && IsRest(R.Value(B), old(A.Value(B)), old(F.Value(B)))
    ensures ret == 0 && old(A.Value(B)) >= 0 ==> R.Value(B) >= 0
  {
    hide Val, Pow, Used, Digits;
    ghost var sA, a, b := A.s, A.Abs(B), F.Abs(B);
    ZeroTimes(F.s, b);
    ret := DivMpi(udbl, H, bl, B, null, R, A, F);
    if ret == 0 {
      RestOrNext(sA, a, b);
      SmallRest(a, b);
    }
  }

  /** Below the divisor on either side, and at most one divisor short of the residue. */
  ghost predicate IsRest(r: int, a: int, b: int) {
    b > 0 && 0 - b < r < b && a % b == if r < 0 then r + b else r
  }

  lemma ZeroTimes(s: int, b: nat)
    requires s == 1 || s == -1
    ensures s * b == 0 <==> b == 0
    ensures s * b > 0 ==> s == 1
  {
  }

  lemma SmallRest(a: nat, b: nat)
    requires b > 0
    ensures a < b ==> a % b == a
  {
  }

  /**
   * mbedtls_mpi_mod_mpi, stopped after so many turns of its two loops. With a remainder object
   * that is not the divisor one turn is enough. Written into the divisor, the remainder is compared
   * with itself: no number of turns ends the loops.
   */
  method ModMpi(udbl: bool, H: nat, bl: nat, B: nat, R: Mpi, A: Mpi, F: Mpi, turns: nat) returns (ret: int, done: bool)
    requires H > 1 && bl > 0 && B == H * H == Pow(2, bl)
    requires A.Valid(B) && F.Valid(B) && R.Valid(B) && Apart(A, F) && Apart(R, A) && Apart(R, F)
    modifies R, R.p
    ensures ret == ERR_NEGATIVE_VALUE <==> old(F.Value(B)) < 0
    ensures ret == ERR_DIVISION_BY_ZERO <==> old(F.Value(B)) == 0
    ensures R != F && ret == 0 && turns > 0 ==> done && R.Valid(B) && R.Value(B) == old(A.Value(B)) % old(F.Abs(B))
    ensures R != F && old(F.Value(B)) > 0 && old(A.p.Length) + 2 <= MAX_LIMBS && old(F.p.Length) <= MAX_LIMBS ==>
              ret == 0
    ensures R == F ==> ret != 0 || !done
    ensures R == F && old(F.Value(B)) > 0 && old(A.Value(B)) >= 0 && old(A.p.Length) + 2 <= MAX_LIMBS ==>
              ret == 0 && !done
  {
    hide Val, Pow, Used, Digits, Len;
    var f := F.s * Val(B, F.p[..]);
    if f < 0 {
      return ERR_NEGATIVE_VALUE, false;
    }
    ghost var b := F.Abs(B);
    ZeroTimes(F.s, b);
    ret := Rest(udbl, H, bl, B, R, A, F);
    if ret != 0 {
      return ret, false;
    }
    var left;
    ret, left := Raise(B, R, F, turns);
    if ret != 0 || R.s * Val(B, R.p[..]) < 0 {
      return ret, false;
    }
    ret, done := Lower(B, R, F, left);
  }
}
