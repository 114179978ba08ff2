/**
 * mbedtls_mpi_div_mpi and what is built on it. Numbers are mathematical; the code's accesses to
 * single limbs are digit extractions.
 */
module Division {
  import opened Errors
  import opened Powers
  import opened Limbs
  import opened Machine
  import opened Numerals
  import WordDivision

  /**
   * The heart of long division. With Y2 the top two limbs of the divisor and X3 the top three of
   * the dividend, any estimate that is at least the true digit and was lowered only while it was
   * visibly too large is the true digit or one more: D is the divisor in place, c a scaling that
   * makes room for missing low limbs, and xl, yl what the top limbs do not show.
   */
  lemma Estimate(B: nat, c: nat, X: nat, D: nat, X3: nat, Y2: nat, M: nat, xl: nat, yl: nat, q0: nat, q: nat)
    requires c > 0 && D > 0 && c * X == X3 * M + xl && c * D == Y2 * M + yl && xl < M && yl < M
    requires Y2 >= B && q <= q0 < B && X / D <= q0
    requires q * Y2 <= X3 && (q < q0 ==> X3 < (q + 1) * Y2)
    ensures X / D <= q <= X / D + 1
  {
    var Q := X / D;
    FloorTimes(X, D, c);
    NotTooSmall(c, D, X3, Y2, M, xl, yl, Q, c * X);
    StopsAbove(Q, q, q0, Y2, X3);
    NotTooLarge(B, c, X, D, X3, Y2, M, xl, yl, q);
    AtMostOneMore(X, D, q);
  }

  lemma FloorTimes(X: nat, D: nat, c: nat)
    requires D > 0
    ensures c * ((X / D) * D) <= c * X
  {
    assert X == (X / D) * D + X % D;
    MulMonotone((X / D) * D, X, c);
  }

  lemma StopsAbove(Q: nat, q: nat, q0: nat, Y2: nat, X3: nat)
    requires Q * Y2 <= X3 && Q <= q0 && q <= q0 && (q < q0 ==> X3 < (q + 1) * Y2)
    ensures Q <= q
  {
    if q < Q {
      MulMonotone(q + 1, Q, Y2);
    }
  }

  lemma AtMostOneMore(X: nat, D: nat, q: nat)
    requires D > 0 && q * D < X + D
    ensures q <= X / D + 1
  {
    var Q := X / D;
    assert X == Q * D + X % D;
    if q >= Q + 2 {
      MulMonotone(Q + 2, q, D);
    }
  }

  lemma NotTooSmall(c: nat, D: nat, X3: nat, Y2: nat, M: nat, xl: nat, yl: nat, Q: nat, cX: nat)
    requires cX == X3 * M + xl && c * D == Y2 * M + yl && xl < M && c * (Q * D) <= cX
    ensures Q * Y2 <= X3
  {
    assert c * (Q * D) == Q * (c * D);
    assert Q * (Y2 * M + yl) == (Q * Y2) * M + Q * yl;
    MulMonotone(0, Q, yl);
    assert (X3 + 1) * M == X3 * M + M;
    if Q * Y2 > X3 {
      MulMonotone(X3 + 1, Q * Y2, M);
    }
  }

  lemma NotTooLarge(B: nat, c: nat, X: nat, D: nat, X3: nat, Y2: nat, M: nat, xl: nat, yl: nat, q: nat)
    requires c > 0 && c * X == X3 * M + xl && c * D == Y2 * M + yl && yl < M
    requires Y2 >= B && q < B && q * Y2 <= X3
    ensures q * D < X + D
  {
    EstimateWeight(X3, Y2, M, yl, q);
    Assoc(q, c, D);
    Assoc(c, q, D);
    assert c * q == q * c;
    assert c * (X + D) == c * X + c * D;
    Cancel(c, q * D, X + D);
  }

  lemma EstimateWeight(X3: nat, Y2: nat, M: nat, yl: nat, q: nat)
    requires yl < M && q < Y2 && q * Y2 <= X3
    ensures q * (Y2 * M + yl) < X3 * M + Y2 * M
  {
    assert q * (Y2 * M + yl) == q * (Y2 * M) + q * yl;
    Assoc(q, Y2, M);
    MulMonotone(q * Y2, X3, M);
    MulMonotone(yl, M, q);
    MulStrict(q, Y2, M);
  }

  lemma Cancel(c: nat, x: int, y: int)
    requires c * x < c * y
    ensures x < y
  {
    if y <= x {
      MulMonotone(y, x, c);
    }
  }

  /** Limbs that are not there count as zero; a dividend of two limbs is compared one limb up. */
  function LowerLimb(B: nat, v: nat, i: int): nat
    requires B > 0
  {
    if i < 0 then 0 else Limb(B, v, i)
  }

  ghost function Scale(B: nat, i: nat): nat {
    if i >= 2 then 1 else B
  }

  ghost function Weight(B: nat, i: nat): nat {
    if i >= 2 then Pow(B, i - 2) else 1
  }

  /** T2: the top three limbs of the dividend, and what they leave out. */
  lemma TopThree(B: nat, X: nat, i: nat) returns (xl: nat)
    requires B > 1 && i >= 1 && X < Pow(B, i + 1)
    ensures var X2 := Pair(B, Limb(B, X, i), Limb(B, X, i - 1));
            && X2 == Upper(B, X, i - 1)
            && xl < Weight(B, i)
            && Scale(B, i) * X == Pair(B, X2, LowerLimb(B, X, i - 2)) * Weight(B, i) + xl
  {
    hide Limb, Upper, Pow;
    TopLimbIs(B, X, i);
    UpperNext(B, X, i - 1);
    if i >= 2 {
      UpperNext(B, X, i - 2);
      xl := UpperLow(B, X, i - 2);
    } else {
      xl := 0;
      UpperZero(B, X);
    }
  }

  /** T1 before its multiplication: the top two limbs of the divisor, in place under the dividend. */
  lemma TopTwo(B: nat, Y: nat, t: nat, i: nat) returns (yl: nat)
    requires B > 1 && t < i && Pow(B, t) <= Y < Pow(B, t + 1)
    ensures var D, Y2 := Y * Pow(B, i - t - 1), Pair(B, Limb(B, Y, t), LowerLimb(B, Y, t - 1));
            && yl < Weight(B, i) && Scale(B, i) * D == Y2 * Weight(B, i) + yl && Y2 >= B
            && Limb(B, Y, t) >= 1 && Limb(B, Y, t) * Pow(B, i - 1) <= D
  {
    hide Limb, Upper, Pow;
    var r := Pow(B, i - t - 1);
    TopLimbIs(B, Y, t);
    var low := UpperLow(B, Y, t);
    PowAdd(B, t, i - t - 1);
    assert t + (i - t - 1) == i - 1;
    TopInPlace(B, Y, Limb(B, Y, t), Pow(B, t), low, r, LowerLimb(B, Y, t - 1));
    if t >= 1 {
      UpperNext(B, Y, t - 1);
      var yr := UpperLow(B, Y, t - 1);
      PowAdd(B, t - 1, i - t - 1);
      assert t - 1 + (i - t - 1) == i - 2;
      LowPart(Y, Upper(B, Y, t - 1), Pow(B, t - 1), yr, r, Pow(B, i - 2));
      yl := yr * r;
    } else {
      yl := 0;
      UpperZero(B, Y);
      OneLimbDivisor(B, Y, i);
    }
  }

  lemma TopInPlace(B: nat, Y: nat, yt: nat, p: nat, low: nat, r: nat, next: nat)
    requires Y == yt * p + low && low < p <= Y
    ensures yt >= 1 && yt * (p * r) <= Y * r && Pair(B, yt, next) >= B
  {
    MulMonotone(1, yt, B);
    Assoc(yt, p, r);
    MulMonotone(yt * p, Y, r);
  }

  lemma LowPart(Y: nat, Y2: nat, p: nat, yr: nat, r: nat, M: nat)
    requires Y == Y2 * p + yr && yr < p && M == p * r && r > 0
    ensures Y * r == Y2 * M + yr * r && yr * r < M
  {
    assert (Y2 * p + yr) * r == Y2 * (p * r) + yr * r;
    MulStrict(yr, p, r);
  }

  lemma OneLimbDivisor(B: nat, Y: nat, i: nat)
    requires i >= 1
    ensures Scale(B, i) * (Y * Pow(B, i - 1)) == (Y * B) * Weight(B, i)
  {
    if i >= 2 {
      assert Y * (B * Pow(B, i - 2)) == (Y * B) * Pow(B, i - 2);
    } else {
      assert Pow(B, 0) == 1;
    }
  }

  /** The first estimate of a quotient limb, from one limb of the divisor. */
  method FirstEstimate(udbl: bool, H: nat, bl: nat, B: nat, X: nat, Y: nat, t: nat, i: nat) returns (q: nat)
    requires H > 1 && bl > 0 && B == H * H == Pow(2, bl)
    requires t < i && Pow(B, t) <= Y < Pow(B, t + 1) && X < B * (Y * Pow(B, i - t - 1)) && X < Pow(B, i + 1)
    ensures Y * Pow(B, i - t - 1) > 0 && X / (Y * Pow(B, i - t - 1)) <= q < B
  {
    hide Limb, Upper, Pow, LowerLimb;
    ghost var D := Y * Pow(B, i - t - 1);
    ghost var xl := TopThree(B, X, i);
    ghost var yl := TopTwo(B, Y, t, i);
    ghost var low := UpperLow(B, X, i - 1);
    MulMonotone(1, Limb(B, Y, t), Pow(B, i - 1));
    BelowRadix(X, D, B);
    UpperNext(B, X, i);
    UpperNext(B, X, i - 1);
    UpperNext(B, Y, t);
    if Limb(B, X, i) >= Limb(B, Y, t) {
      q := B - 1;
    } else {
      var r;
      if udbl {
        q, r := WordDivision.Wide(B, Limb(B, X, i), Limb(B, X, i - 1), Limb(B, Y, t));
      } else {
        q, r := WordDivision.Generic(H, bl, B, Limb(B, X, i), Limb(B, X, i - 1), Limb(B, Y, t));
      }
      EstimateAbove(X, D, Upper(B, X, i - 1), Limb(B, Y, t), Pow(B, i - 1), low, q, r);
    }
  }

  lemma BelowRadix(X: nat, D: nat, B: nat)
    requires D > 0 && X < B * D
    ensures X / D <= B - 1
  {
    assert X == (X / D) * D + X % D;
    if X / D >= B {
      MulMonotone(B, X / D, D);
    }
  }

  lemma EstimateAbove(X: nat, D: nat, X2: nat, y: nat, w: nat, low: nat, q: nat, r: nat)
    requires D > 0 && X == X2 * w + low && low < w && y * w <= D && X2 == q * y + r && r < y
    ensures X / D <= q
  {
    var Q := X / D;
    assert X == Q * D + X % D;
    MulMonotone(X2 + 1, (q + 1) * y, w);
    assert (X2 + 1) * w == X2 * w + w;
    Assoc(q + 1, y, w);
    MulMonotone(y * w, D, q + 1);
    if Q >= q + 1 {
      MulMonotone(q + 1, Q, D);
    }
  }

  /**
   * One limb of the quotient: estimated, lowered while two limbs of the divisor show it to be too
   * large, subtracted, and lowered once more, with the divisor added back, if that went negative.
   */
  method QuotientLimb(udbl: bool, H: nat, bl: nat, B: nat, X: nat, Y: nat, t: nat, i: nat) returns (q: nat, X': nat)
    requires H > 1 && bl > 0 && B == H * H == Pow(2, bl)
    requires t < i && Pow(B, t) <= Y < Pow(B, t + 1) && X < B * (Y * Pow(B, i - t - 1)) && X < Pow(B, i + 1)
    ensures q < B && X == q * (Y * Pow(B, i - t - 1)) + X' && X' < Y * Pow(B, i - t - 1)
  {
    hide Limb, Upper, Pow, LowerLimb, Scale, Weight;
    var D := Y * Pow(B, i - t - 1);
    var q0 := FirstEstimate(udbl, H, bl, B, X, Y, t, i);
    ghost var xl := TopThree(B, X, i);
    ghost var yl := TopTwo(B, Y, t, i);
    var T1 := Pair(B, Limb(B, Y, t), LowerLimb(B, Y, t - 1));
    var T2 := Pair(B, Pair(B, Limb(B, X, i), Limb(B, X, i - 1)), LowerLimb(B, X, i - 2));
    ScalePositive(B, i);
    q := Lower(B, q0, T1, T2);
    Estimate(B, Scale(B, i), X, D, T2, T1, Weight(B, i), xl, yl, q0, q);
    FloorOrOneMore(X, D, q);
    var Xs := X - q * D;
    if Xs < 0 {
      Xs := Xs + D;
      q := q - 1;
    }
    X' := Xs;
  }

  lemma ScalePositive(B: nat, i: nat)
    requires B > 0
    ensures Scale(B, i) > 0
  {
  }

  /** The do-while loop, entered through an increment that may wrap and a decrement that undoes it. */
  method Lower(B: nat, q0: nat, T1: nat, T2: nat) returns (q: nat)
    requires q0 < B
    ensures q <= q0 && q * T1 <= T2 && (q < q0 ==> T2 < (q + 1) * T1)
  {
    q := if q0 + 1 == B then 0 else q0 + 1;
    q := if q == 0 then B - 1 else q - 1;
    while q * T1 > T2
      invariant q <= q0 && (q < q0 ==> T2 < (q + 1) * T1)
      decreases q
    {
      ZeroTimes(q, T1);
      q := q - 1;
    }
  }

  lemma ZeroTimes(q: nat, x: nat)
    ensures q == 0 ==> q * x == 0
  {
  }

  lemma FloorOrOneMore(X: nat, D: nat, q: nat)
    requires D > 0 && X / D <= q <= X / D + 1
    ensures X - q * D >= 0 ==> X - q * D < D
    ensures X - q * D < 0 ==> q > 0 && 0 <= X - q * D + D < D && X == (q - 1) * D + (X - q * D + D)
  {
    var Q := X / D;
    assert X == Q * D + X % D;
    assert (Q + 1) * D == Q * D + D;
    assert (q - 1) * D == q * D - D;
  }

  /** How far both operands are shifted: until the divisor's top limb has all its bits but one. */
  function Shift(bl: nat, b: nat): nat
    requires bl > 0
  {
    var k := Len(2, b) % bl;
    if k < bl - 1 then bl - 1 - k else 0
  }

  /** The top limb's index, X.n - 1. */
  lemma TopIndex(B: nat, v: nat) returns (n: nat)
    requires B > 1 && v > 0
    ensures n == Len(B, v) - 1 && Pow(B, n) <= v < Pow(B, n + 1)
  {
    LenBounds(B, v);
    n := Len(B, v) - 1;
  }

  /** Shifting by less than a limb adds at most one limb. */
  lemma OneMoreLimb(B: nat, bl: nat, v: nat, k: nat)
    requires B == Pow(2, bl) && bl > 0 && k < bl && B > 1
    ensures Len(B, v * Pow(2, k)) <= Len(B, v) + 1
  {
    hide Pow, Len;
    LenBounds(B, v);
    PowMonotone(2, k, bl);
    OneMoreRadix(B, Pow(2, k), v, Pow(B, Len(B, v)));
    PowNext(B, Len(B, v));
    LenAtMost(B, v * Pow(2, k), Len(B, v) + 1);
  }

  lemma OneMoreRadix(B: nat, S: nat, v: nat, P: nat)
    requires S <= B && v < P && B > 0
    ensures v * S < B * P
  {
    MulMonotone(S, B, v);
    MulStrict(v, P, B);
  }

  /** The divisor moved up under the dividend's top limb is more than a B-th of it. */
  lemma InPlace(B: nat, X: nat, Y: nat, n: nat, t: nat)
    requires B > 1 && t <= n && Pow(B, t) <= Y && X < Pow(B, n + 1)
    ensures X < B * (Y * Pow(B, n - t)) && Y * Pow(B, n - t) > 0
  {
    PowAdd(B, t, n - t);
    MulMonotone(Pow(B, t), Y, Pow(B, n - t));
    MulMonotone(Pow(B, n), Y * Pow(B, n - t), B);
  }

  /** The loop before the first limb: the divisor in place is subtracted while it fits. */
  method Leading(B: nat, X: nat, Ys: nat) returns (z: nat, X': nat)
    requires B > 0 && Ys > 0 && X < B * Ys
    ensures z < B && X == z * Ys + X' && X' < Ys
  {
    z, X' := 0, X;
    while X' >= Ys
      invariant X == z * Ys + X' && z < B
    {
      RoomForOneMore(B, X, Ys, z, X');
      z := z + 1;
      X' := X' - Ys;
    }
  }

  lemma RoomForOneMore(B: nat, X: nat, Ys: nat, z: nat, X': nat)
    requires X < B * Ys && X == z * Ys + X' && X' >= Ys
    ensures z + 1 < B && X == (z + 1) * Ys + (X' - Ys)
  {
    assert (z + 1) * Ys == z * Ys + Ys;
    if z + 1 >= B {
      MulMonotone(B, z + 1, Ys);
    }
  }

  /** One more limb below those already found. */
  lemma NextQuotientLimb(B: nat, Y: nat, p: nat, v: nat, q: nat, X: nat, X': nat)
    requires X == q * (Y * p) + X'
    ensures X + (Y * (B * p)) * v == X' + (Y * p) * (q + B * v)
  {
    assert (Y * (B * p)) * v == (Y * p) * (B * v);
    assert (Y * p) * (q + B * v) == (Y * p) * q + (Y * p) * (B * v);
  }

  /**
   * The division proper, of shifted numbers X >= Y: the limbs of the quotient are written into Z,
   * which has two limbs more than the unshifted dividend, and the remainder is left.
   */
  method LongDivision(udbl: bool, H: nat, bl: nat, B: nat, X0: nat, Y: nat, zn: nat)
    returns (Z: array<nat>, X: nat)
    requires H > 1 && bl > 0 && B == H * H == Pow(2, bl) && 0 < Y <= X0 && Len(B, X0) <= zn
    ensures fresh(Z) && Z.Length == zn && Digits(B, Z[..])
    ensures X0 == Y * Val(B, Z[..]) + X && X < Y
  {
    hide Pow, Val, Len;
    Z := new nat[zn](_ => 0);
    ghost var n0 := TopIndex(B, X0);
    ghost var t0 := TopIndex(B, Y);
    LenMonotone(B, Y, X0);
    var n, t := Len(B, X0) - 1, Len(B, Y) - 1;
    InPlace(B, X0, Y, n, t);
    var z;
    z, X := Leading(B, X0, Y * Pow(B, n - t));
    Z[n - t] := z;
    OneLimbValue(B, Z[n - t..], z);
    var i := n;
    while i > t
      invariant t <= i <= n && Digits(B, Z[..])
      invariant forall k | 0 <= k < i - t :: Z[k] == 0
      invariant X < Y * Pow(B, i - t) && X0 == X + (Y * Pow(B, i - t)) * Val(B, Z[i - t..])
    {
      Below(B, X, Y, t, i);
      ghost var v, zs := Val(B, Z[i - t..]), Z[i - t..];
      var q, X' := QuotientLimb(udbl, H, bl, B, X, Y, t, i);
      NextQuotientLimb(B, Y, Pow(B, i - t - 1), v, q, X, X');
      Z[i - t - 1] := q;
      assert Z[i - t - 1..] == [q] + zs;
      ConsVal(B, q, zs);
      X := X';
      i := i - 1;
    }
    assert Z[0..] == Z[..];
    UnitWeight(B, Y);
  }

  lemma ConsVal(B: nat, q: nat, zs: seq<nat>)
    ensures Val(B, [q] + zs) == q + B * Val(B, zs)
  {
    assert ([q] + zs)[1..] == zs;
  }

  lemma UnitWeight(B: nat, Y: nat)
    ensures Y * Pow(B, 0) == Y
  {
  }

  lemma OneLimbValue(B: nat, zs: seq<nat>, z: nat)
    requires |zs| > 0 && zs[0] == z && forall k | 1 <= k < |zs| :: zs[k] == 0
    ensures Val(B, zs) == z
  {
    ValZeros(B, zs[1..]);
  }

  lemma Below(B: nat, X: nat, Y: nat, t: nat, i: nat)
    requires B > 1 && t < i && Y < Pow(B, t + 1) && X < Y * Pow(B, i - t)
    ensures Pow(B, i - t) == B * Pow(B, i - t - 1)
    ensures X < B * (Y * Pow(B, i - t - 1)) && X < Pow(B, i + 1)
  {
    var p := Pow(B, i - t - 1);
    assert Y * (B * p) == B * (Y * p);
    MulMonotone(Y, Pow(B, t + 1), Pow(B, i - t));
    PowAdd(B, t + 1, i - t);
  }

  /** The shift divides out: quotient as it is, remainder shifted back. */
  lemma Unshifted(a: nat, b: nat, S: nat, q: nat, r: nat)
    requires S > 0 && a * S == (b * S) * q + r && r < b * S
    ensures a == b * q + r / S && r / S < b
  {
    assert (b * S) * q == (b * q) * S;
    assert r == (a - b * q) * S;
    if a < b * q {
      MulMonotone(a - b * q, -1, S);
    }
    DivModUnique(r, S, a - b * q, 0);
    if r / S >= b {
      MulMonotone(b, r / S, S);
    }
  }

  /** On magnitudes: quotient and remainder of a by b, a having an limbs. */
  method DivAbs(udbl: bool, H: nat, bl: nat, B: nat, a: nat, an: nat, b: nat) returns (q: nat, r: nat)
    requires H > 1 && bl > 0 && B == H * H == Pow(2, bl) && 0 < b <= a < Pow(B, an)
    ensures a == b * q + r && r < b
  {
    hide Pow, Val, Len;
    var k := Shift(bl, b);
    var S := Pow(2, k);
    LenAtMost(B, a, an);
    OneMoreLimb(B, bl, a, k);
    MulMonotone(b, a, S);
    MulMonotone(1, b, S);
    var Z, X := LongDivision(udbl, H, bl, B, a * S, b * S, an + 2);
    q := Val(B, Z[..]);
    Unshifted(a, b, S, q, X);
    r := X / S;
  }

  /**
   * mbedtls_mpi_div_mpi on A = sA * a and F = sF * b: A = Q * F + R with |R| < |F|, the remainder
   * taking the sign of A. A zero divisor is refused.
   */
  method DivMpi(udbl: bool, H: nat, bl: nat, B: nat, sA: int, a: nat, an: nat, sF: int, b: nat)
    returns (ret: int, Q: int, R: int)
    requires H > 1 && bl > 0 && B == H * H == Pow(2, bl) && a < Pow(B, an)
    requires (sA == 1 || sA == -1) && (sF == 1 || sF == -1)
    ensures ret == if b == 0 then ERR_DIVISION_BY_ZERO else 0
    ensures ret == 0 ==> sA * a == Q * (sF * b) + R && 0 - b < R < b && sA * R >= 0
  {
    if b == 0 {
      return ERR_DIVISION_BY_ZERO, 0, 0;
    }
    if a < b {
      return 0, 0, sA * a;
    }
    var q, r := DivAbs(udbl, H, bl, B, a, an, b);
    ret, Q, R := 0, (sA * sF) * q, sA * r;
    SignedDivision(sA, sF, a, b, q, r);
  }

  lemma SignedDivision(s: int, t: int, a: nat, b: nat, q: nat, r: nat)
    requires (s == 1 || s == -1) && (t == 1 || t == -1) && a == b * q + r
    ensures s * a == ((s * t) * q) * (t * b) + s * r
  {
    Negate(q, b);
    Negate(b, q);
  }

  /**
   * mbedtls_mpi_mod_mpi: the remainder brought into 0 .. B - 1, where the code's loops each run at
   * most once. A negative divisor is refused, and so is zero.
   */
  method ModMpi(udbl: bool, H: nat, bl: nat, B: nat, sA: int, a: nat, an: nat, sF: int, b: nat)
    returns (ret: int, R: int)
    requires H > 1 && bl > 0 && B == H * H == Pow(2, bl) && a < Pow(B, an)
    requires (sA == 1 || sA == -1) && (sF == 1 || sF == -1)
    ensures ret == if sF * b < 0 then ERR_NEGATIVE_VALUE else if b == 0 then ERR_DIVISION_BY_ZERO else 0
    ensures ret == 0 ==> R == (sA * a) % b
  {
    R := 0;
    if sF * b < 0 {
      return ERR_NEGATIVE_VALUE, 0;
    }
    var Q;
    ret, Q, R := DivMpi(udbl, H, bl, B, sA, a, an, sF, b);
    if ret != 0 {
      return;
    }
    ghost var k;
    R, k := IntoRange(R, b);
    Moved(sA * a, Q, k, b, R);
  }

  /** A call with a positive modulus, the dividend held in the limbs it needs. */
  method Modulo(udbl: bool, H: nat, bl: nat, B: nat, sA: int, a: nat, b: nat) returns (r: nat)
    requires H > 1 && bl > 0 && B == H * H == Pow(2, bl) && (sA == 1 || sA == -1) && b > 0
    ensures r == (sA * a) % b
  {
    hide Pow, Len;
    MulMonotone(2, H, H);
    LenAtMost(B, a, Len(B, a));
    var ret, R := ModMpi(udbl, H, bl, B, sA, a, Len(B, a), 1, b);
    r := R;
  }

  /** The two loops at the end of mbedtls_mpi_mod_mpi. */
  method IntoRange(R0: int, b: nat) returns (R: int, ghost k: int)
    requires b > 0
    ensures 0 <= R < b && R0 == k * b + R
  {
    R, k := R0, 0;
    while R < 0
      invariant R0 == k * b + R
      decreases -R
    {
      R := R + b;
      k := k - 1;
    }
    while R >= b
      invariant 0 <= R && R0 == k * b + R
    {
      R := R - b;
      k := k + 1;
    }
  }

  lemma Moved(A: int, Q: int, k: int, b: nat, R: int)
    requires b > 0 && 0 <= R < b && A == Q * b + (k * b + R)
    ensures R == A % b
  {
    assert (Q + k) * b == Q * b + k * b;
    DivModUnique(A, b, Q + k, R);
  }
}
