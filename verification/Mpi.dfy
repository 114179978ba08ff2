/** Multi-precision integers as objects: a sign and an array of limbs, multiplied in place. */
module Mpi {
  import opened Errors
  import opened Powers
  import opened Limbs
  import opened Kernels
  import MulHelper

  const MAX_LIMBS: nat := 10000

  /** The number of limbs up to the topmost one that is not zero. */
  function Used(xs: seq<nat>): (n: nat)
    ensures n <= |xs| && (n > 0 ==> xs[n - 1] != 0)
    ensures forall i | n <= i < |xs| :: xs[i] == 0
  {
    if xs == [] || xs[|xs| - 1] != 0 then |xs| else Used(xs[..|xs| - 1])
  }

  /** The search loop every operation starts with. */
  method Trim(p: array<nat>) returns (n: nat)
    ensures n == Used(p[..])
  {
    n := p.Length;
    assert p[..n] == p[..];
    while n > 0
      invariant n <= p.Length && Used(p[..n]) == Used(p[..])
    {
      if p[n - 1] != 0 {
        break;
      }
      assert p[..n][..n - 1] == p[..n - 1];
      n := n - 1;
    }
  }

  lemma UsedValue(B: nat, xs: seq<nat>)
    ensures Used(xs) <= |xs| && Val(B, xs[..Used(xs)]) == Val(B, xs)
  {
    var n := Used(xs);
    ValSplit(B, xs, n);
    ValZeros(B, xs[n..]);
  }

  /** A vector whose top limb is not zero is worth at least that limb's weight. */
  lemma TopLimb(B: nat, xs: seq<nat>)
    requires |xs| > 0 && xs[|xs| - 1] > 0
    ensures Val(B, xs) >= Pow(B, |xs| - 1)
  {
    var n := |xs| - 1;
    ValSplit(B, xs, n);
    assert xs[n..] == [xs[n]];
    ValSingle(B, xs[n]);
    MulMonotone(1, xs[n], Pow(B, n));
  }

  /** The one with more used limbs is larger. */
  lemma LongerIsLarger(B: nat, xs: seq<nat>, ys: seq<nat>)
    requires B > 0 && Digits(B, xs) && Digits(B, ys) && Used(xs) > Used(ys)
    ensures Val(B, xs) > Val(B, ys)
  {
    UsedValue(B, xs);
    UsedValue(B, ys);
    TopLimb(B, xs[..Used(xs)]);
    ValBound(B, ys[..Used(ys)]);
    PowMonotone(B, Used(ys), Used(xs) - 1);
  }

  /** The highest limb that differs decides. */
  lemma HighestDecides(B: nat, xs: seq<nat>, ys: seq<nat>, k: nat)
    requires |xs| == |ys| && k < |xs| && Digits(B, xs) && Digits(B, ys)
    requires xs[k] < ys[k] && xs[k + 1..] == ys[k + 1..]
    ensures Val(B, xs) < Val(B, ys)
  {
    hide Val, Pow;
    SplitAround(B, xs, k);
    SplitAround(B, ys, k);
    ValBound(B, xs[..k]);
    MulStrict(xs[k], ys[k], Pow(B, k));
  }

  lemma SplitAround(B: nat, xs: seq<nat>, k: nat)
    requires k < |xs|
    ensures Val(B, xs) == Val(B, xs[..k]) + xs[k] * Pow(B, k) + Pow(B, k + 1) * Val(B, xs[k + 1..])
  {
    hide Val, Pow;
    ValSplit(B, xs, k + 1);
    ValSplit(B, xs[..k + 1], k);
    assert xs[..k + 1][k..] == [xs[k]] && xs[..k + 1][..k] == xs[..k];
    ValSingle(B, xs[k]);
  }

  /** mbedtls_mpi_cmp_abs: the sign of the difference of the magnitudes. */
  method CmpAbs(B: nat, x: array<nat>, y: array<nat>) returns (r: int)
    requires B > 0 && Digits(B, x[..]) && Digits(B, y[..])
    ensures r == if Val(B, x[..]) < Val(B, y[..]) then -1 else if Val(B, x[..]) > Val(B, y[..]) then 1 else 0
  {
    hide Val;
    var i := Trim(x);
    var j := Trim(y);
    UsedValue(B, x[..]);
    UsedValue(B, y[..]);
    if i == 0 && j == 0 {
      assert x[..][..0] == y[..][..0];
      return 0;
    }
    if i > j {
      LongerIsLarger(B, x[..], y[..]);
      return 1;
    }
    if j > i {
      LongerIsLarger(B, y[..], x[..]);
      return -1;
    }
    r := CompareDown(B, x, y, i);
    assert x[..i] == x[..][..i] && y[..i] == y[..][..i];
  }

  /** The search from the top for a limb that differs. */
  method CompareDown(B: nat, x: array<nat>, y: array<nat>, n: nat) returns (r: int)
    requires B > 0 && n <= x.Length && n <= y.Length && Digits(B, x[..]) && Digits(B, y[..])
    ensures r == if Val(B, x[..n]) < Val(B, y[..n]) then -1 else if Val(B, x[..n]) > Val(B, y[..n]) then 1 else 0
  {
    hide Val;
    ghost var xs, ys := x[..n], y[..n];
    var i: nat := n;
    while i > 0
      invariant i <= n && xs[i..] == ys[i..]
    {
      if x[i - 1] > y[i - 1] {
        HighestDecides(B, ys, xs, i - 1);
        return 1;
      }
      if x[i - 1] < y[i - 1] {
        HighestDecides(B, xs, ys, i - 1);
        return -1;
      }
      assert xs[i - 1..] == [xs[i - 1]] + xs[i..] && ys[i - 1..] == [ys[i - 1]] + ys[i..];
      i := i - 1;
    }
    assert xs == xs[0..] && ys == ys[0..];
    return 0;
  }

  /** calloc and memcpy: n limbs, of which the first k come from p and the rest are zero. */
  method Resized(p: array<nat>, k: nat, n: nat) returns (q: array<nat>)
    requires k <= p.Length && k <= n
    ensures fresh(q) && q.Length == n && q[..k] == p[..k]
    ensures forall i | k <= i < n :: q[i] == 0
  {
    q := new nat[n](_ => 0);
    for i := 0 to k
      invariant forall j | 0 <= j < i :: q[j] == p[j]
      invariant forall j | i <= j < n :: q[j] == 0
    {
      q[i] := p[i];
    }
  }

  /** Zero limbs on top change neither the number nor the range of the limbs. */
  lemma Padded(B: nat, xs: seq<nat>, ys: seq<nat>)
    requires B > 0 && Digits(B, xs) && |xs| <= |ys| && ys[..|xs|] == xs
    requires forall i | |xs| <= i < |ys| :: ys[i] == 0
    ensures Digits(B, ys) && Val(B, ys) == Val(B, xs)
  {
    assert forall i | 0 <= i < |xs| :: ys[i] == ys[..|xs|][i];
    SameNumber(B, xs, ys, |xs|);
  }

  class Mpi {
    var s: int
    var p: array<nat>

    /** A fresh number as mbedtls_mpi_init leaves it: zero, with no limbs. */
    constructor ()
      ensures s == 1 && p.Length == 0 && fresh(p)
    {
      s, p := 1, new nat[0];
    }

    /** Limbs in range and a proper sign. */
    ghost predicate Valid(B: nat)
      reads this, p
    {
      B > 1 && Digits(B, p[..]) && (s == 1 || s == -1)
    }

    /** The magnitude and the signed number. */
    ghost function Abs(B: nat): nat
      reads this, p
    {
      Val(B, p[..])
    }

    ghost function Value(B: nat): int
      reads this, p
    {
      s * Abs(B)
    }

    /** Enlarge to at least nblimbs limbs; the number does not change. */
    method Grow(B: nat, nblimbs: nat) returns (ret: int)
      requires Valid(B)
      modifies this
      ensures Valid(B) && s == old(s) && (p == old(p) || fresh(p))
      ensures ret == if nblimbs > MAX_LIMBS then ERR_ALLOC_FAILED else 0
      ensures ret != 0 ==> p == old(p)
      ensures ret == 0 ==> p.Length == if nblimbs > old(p.Length) then nblimbs else old(p.Length)
      ensures ret == 0 ==> Abs(B) == old(Abs(B))
      ensures ret == 0 && nblimbs <= old(p.Length) ==> p == old(p)
    {
      if nblimbs > MAX_LIMBS {
        return ERR_ALLOC_FAILED;
      }
      if p.Length < nblimbs {
        var q := Resized(p, p.Length, nblimbs);
        assert p[..p.Length] == p[..];
        Padded(B, p[..], q[..]);
        p := q;
      }
      return 0;
    }

    /** Set to a number of one limb, keeping whatever limbs there are but at least one. */
    method Set(B: nat, z: int) returns (ret: int)
      requires Valid(B) && 0 - B < z < B
      modifies this, p
      ensures ret == 0 && Valid(B) && s == (if z < 0 then -1 else 1) && (p == old(p) || fresh(p))
      ensures p.Length == if old(p.Length) == 0 then 1 else old(p.Length)
      ensures p[0] == (if z < 0 then -z else z) && forall k | 1 <= k < p.Length :: p[k] == 0
      ensures Value(B) == z
    {
      ret := Grow(B, 1);
      forall k | 0 <= k < p.Length {
        p[k] := 0;
      }
      p[0] := if z < 0 then -z else z;
      s := if z < 0 then -1 else 1;
      OneLimb(B, p[..]);
    }

    /** Take the number of Y, which may be the object itself. */
    method Copy(B: nat, Y: Mpi) returns (ret: int)
      requires Valid(B) && Y.Valid(B) && (Y != this ==> Y.p != p)
      modifies this, p
      ensures Valid(B) && (p == old(p) || fresh(p))
      ensures var n := old(Used(Y.p[..]));
              ret == if n > MAX_LIMBS && n > old(p.Length) then ERR_ALLOC_FAILED else 0
      ensures ret == 0 ==> Abs(B) == old(Y.Abs(B)) && Value(B) == old(Y.Value(B)) && Used(p[..]) == old(Used(Y.p[..]))
      ensures ret == 0 && old(Y.p.Length) > 0 ==> s == old(Y.s)
      ensures Y == this ==> s == old(s) && p == old(p) && p[..] == old(p[..])
    {
      hide Val, Used;
      if this == Y {
        return 0;
      }
      if Y.p.Length == 0 {
        assert Y.p[..] == [];
        CopyOfNothing(B);
        s, p := 1, new nat[0];
        assert p[..] == [];
        assert Abs(B) == 0 && Y.Abs(B) == 0;
        return 0;
      }
      var i := Trim(Y.p);
      i := if i == 0 then 1 else i;
      s := Y.s;
      if p.Length < i {
        ret := Grow(B, i);
        if ret != 0 {
          return;
        }
      }
      Overwrite(p, Y.p, i);
      ret := 0;
      SameNumber(B, p[..], Y.p[..], i);
      assert Digits(B, p[..]) by {
        assert forall k | 0 <= k < i :: p[k] == p[..][..i][k] == Y.p[..][..i][k];
      }
    }
  }

  lemma OneLimb(B: nat, xs: seq<nat>)
    requires |xs| > 0 && forall k | 1 <= k < |xs| :: xs[k] == 0
    ensures Val(B, xs) == xs[0]
  {
    ValZeros(B, xs[1..]);
  }

  lemma CopyOfNothing(B: nat)
    ensures Val(B, []) == 0 && Used([]) == 0
  {
  }

  /** memset and memcpy: the first i limbs of q, then zeros. */
  method Overwrite(p: array<nat>, q: array<nat>, i: nat)
    requires p != q && i <= p.Length && i <= q.Length
    modifies p
    ensures p[..][..i] == q[..][..i]
    ensures forall k | i <= k < p.Length :: p[k] == 0
  {
    forall k | i <= k < p.Length {
      p[k] := 0;
    }
    forall k | 0 <= k < i {
      p[k] := q[k];
    }
  }

  /** Vectors that agree on their low limbs and are zero above hold the same number. */
  lemma SameNumber(B: nat, xs: seq<nat>, ys: seq<nat>, i: nat)
    requires i <= |xs| && i <= |ys| && xs[..i] == ys[..i]
    requires forall k | i <= k < |xs| :: xs[k] == 0
    requires forall k | i <= k < |ys| :: ys[k] == 0
    ensures Val(B, xs) == Val(B, ys) && Used(xs) == Used(ys)
  {
    ValSplit(B, xs, i);
    ValSplit(B, ys, i);
    ValZeros(B, xs[i..]);
    ValZeros(B, ys[i..]);
    var m, n := Used(xs), Used(ys);
    assert m <= i && n <= i;
    assert m > 0 ==> xs[m - 1] == ys[m - 1] by {
      if m > 0 { assert xs[m - 1] == xs[..i][m - 1]; }
    }
    assert n > 0 ==> xs[n - 1] == ys[n - 1] by {
      if n > 0 { assert ys[n - 1] == ys[..i][n - 1]; }
    }
  }

  /** Every partial product fits: (B^i - 1) (B^k - 1) < B^L when i + k <= L. */
  lemma ProductFits(B: nat, a: nat, i: nat, b: nat, k: nat, L: nat)
    requires B > 0 && a < Pow(B, i) && b < Pow(B, k) && i + k <= L
    ensures a * b < Pow(B, L)
  {
    MulMonotone(a, Pow(B, i), b);
    MulStrict(b, Pow(B, k), Pow(B, i));
    PowAdd(B, i, k);
    PowMonotone(B, i + k, L);
  }

  /**
   * X = A * B with the limbs of |B| taken from the top down, each product added at its own offset;
   * X.p has room for both operands and starts at zero.
   */
  method Accumulate(t: Target, H: nat, B: nat, x: array<nat>, a: array<nat>, i: nat, b: array<nat>, j0: nat)
    requires H > 1 && B == H * H && x != a && x != b
    requires i <= a.Length && j0 <= b.Length && i + j0 <= x.Length && x.Length > 0
    requires Digits(B, a[..]) && Digits(B, b[..]) && forall k | 0 <= k < x.Length :: x[k] == 0
    modifies x
    ensures Digits(B, x[..]) && Val(B, x[..]) == Val(B, a[..i]) * Val(B, b[..j0])
  {
    hide Val, Pow;
    ghost var u := Val(B, a[..i]);
    var j: nat := j0;
    NoLimbs(B, u, x[j0..], b[j0..j0]);
    while j > 0
      invariant j <= j0 && Digits(B, x[..])
      invariant forall k | 0 <= k < j :: x[k] == 0
      invariant Val(B, x[j..]) == u * Val(B, b[j..j0])
    {
      ghost var xs := x[j - 1..];
      NextLimb(B, u, a[..i], xs, x[j..], b[j - 1..j0], b[j..j0]);
      MulHelper.MulHlp(t, H, B, i, a, 0, x, j - 1, b[j - 1]);
      assert forall k | 0 <= k < j - 1 :: x[k] == x[..j - 1][k];
      j := j - 1;
    }
    assert x[0..] == x[..] && b[0..j0] == b[..j0];
  }

  lemma NoLimbs(B: nat, u: nat, xs: seq<nat>, bs: seq<nat>)
    requires bs == [] && forall k | 0 <= k < |xs| :: xs[k] == 0
    ensures Val(B, xs) == u * Val(B, bs)
  {
    ValZeros(B, xs);
  }

  lemma NextLimb(B: nat, u: nat, us: seq<nat>, xs: seq<nat>, xt: seq<nat>, bs: seq<nat>, bt: seq<nat>)
    requires B > 1 && |xs| > 0 && |bs| > 0 && xt == xs[1..] && bt == bs[1..] && xs[0] == 0
    requires Digits(B, us) && Digits(B, bs) && u == Val(B, us) && |us| + |bs| <= |xs|
    requires Val(B, xt) == u * Val(B, bt)
    ensures Val(B, xs) + bs[0] * u == u * Val(B, bs)
    ensures Val(B, xs) + bs[0] * u < Pow(B, |xs|)
  {
    hide Val, Pow;
    ValBound(B, us);
    ValBound(B, bs);
    ValCons(B, xs);
    ValCons(B, bs);
    NextLimbValues(B, u, bs[0], Val(B, bt), Val(B, xt), Val(B, xs), Val(B, bs));
    ProductFits(B, u, |us|, Val(B, bs), |bs|, |xs|);
  }

  lemma ValCons(B: nat, xs: seq<nat>)
    requires |xs| > 0
    ensures Val(B, xs) == xs[0] + B * Val(B, xs[1..])
  {
  }

  lemma NextLimbValues(B: nat, u: nat, b: nat, v: nat, w: nat, x: nat, y: nat)
    requires w == u * v && x == B * w && y == b + B * v
    ensures x + b * u == u * y
  {
    assert B * (u * v) == u * (B * v);
  }

  /** An operand that is the destination itself is copied; any other is used as it is. */
  method Detach(B: nat, X: Mpi, A: Mpi) returns (ret: int, A': Mpi)
    requires A.Valid(B)
    ensures ret == 0 || (ret == ERR_ALLOC_FAILED && X == A && Used(A.p[..]) > MAX_LIMBS)
    ensures if X == A then fresh(A') && fresh(A'.p) else A' == A
    ensures ret == 0 ==> A'.Valid(B) && A'.Value(B) == A.Value(B) && Used(A'.p[..]) == Used(A.p[..])
  {
    ret, A' := 0, A;
    if X == A {
      A' := new Mpi();
      ret := A'.Copy(B, A);
    }
  }

  /**
   * X = A * B, where X may be A, B or both: then the operand is copied first. It fails only when
   * the limbs of the two operands together exceed what any number may have.
   */
  method MulMpi(t: Target, H: nat, B: nat, X: Mpi, A0: Mpi, B0: Mpi) returns (ret: int)
    requires H > 1 && B == H * H && X.Valid(B) && A0.Valid(B) && B0.Valid(B)
    requires (X != A0 ==> X.p != A0.p) && (X != B0 ==> X.p != B0.p)
    modifies X, X.p
    ensures ret == if old(Used(A0.p[..]) + Used(B0.p[..])) > MAX_LIMBS then ERR_ALLOC_FAILED else 0
    ensures ret == 0 ==> X.Valid(B) && X.Value(B) == old(A0.Value(B)) * old(B0.Value(B))
  {
    hide Val, Digits, Used;
    var A, F;
    ret, A := Detach(B, X, A0);
    if ret != 0 { return; }
    ret, F := Detach(B, X, B0);
    if ret != 0 { return; }
    ret := MulDetached(t, H, B, X, A, F);
  }

  method MulDetached(t: Target, H: nat, B: nat, X: Mpi, A: Mpi, F: Mpi) returns (ret: int)
    requires H > 1 && B == H * H && X.Valid(B) && A.Valid(B) && F.Valid(B)
    requires X != A && X != F && X.p != A.p && X.p != F.p
    modifies X, X.p
    ensures ret == if Used(A.p[..]) + Used(F.p[..]) > MAX_LIMBS then ERR_ALLOC_FAILED else 0
    ensures ret == 0 ==> X.Valid(B) && X.Value(B) == A.Value(B) * F.Value(B)
  {
    hide Val, Digits, Used;
    var i := Trim(A.p);
    var j := Trim(F.p);
    UsedValue(B, A.p[..]);
    UsedValue(B, F.p[..]);
    ret := X.Grow(B, i + j);
    if ret != 0 { return; }
    ret := X.Set(B, 0);
    Accumulate(t, H, B, X.p, A.p, i, F.p, j);
    X.s := A.s * F.s;
    SignedProduct(A.s, Val(B, A.p[..]), F.s, Val(B, F.p[..]));
  }

  lemma SignedProduct(s: int, a: nat, t: int, b: nat)
    requires (s == 1 || s == -1) && (t == 1 || t == -1)
    ensures s * t == 1 || s * t == -1
    ensures (s * t) * (a * b) == (s * a) * (t * b)
  {
  }
}
