/** Vectors of limbs: little-endian digits in radix B, with no bound on their length. */
module Limbs {
  import opened Powers

  /** Every element fits in one limb. */
  ghost predicate Digits(B: nat, xs: seq<nat>) {
    forall i | 0 <= i < |xs| :: xs[i] < B
  }

  /** The number a vector stands for; xs[0] is least significant. */
  function Val(B: nat, xs: seq<nat>): nat {
    if xs == [] then 0 else xs[0] + B * Val(B, xs[1..])
  }

  lemma ValSingle(B: nat, x: nat)
    ensures Val(B, [x]) == x && Pow(B, 1) == B
  {
    assert [x][1..] == [];
    assert Pow(B, 1) == B * Pow(B, 0);
  }

  lemma {:induction false} ValConcat(B: nat, xs: seq<nat>, ys: seq<nat>)
    ensures Val(B, xs + ys) == Val(B, xs) + Pow(B, |xs|) * Val(B, ys)
  {
    if xs == [] {
      assert xs + ys == ys;
    } else {
      var zs := xs + ys;
      assert zs[1..] == xs[1..] + ys;
      ValConcat(B, xs[1..], ys);
      ConsValue(B, Val(B, xs[1..]), Pow(B, |xs| - 1), Val(B, ys));
    }
  }

  lemma ConsValue(B: nat, u: nat, p: nat, v: nat)
    ensures B * (u + p * v) == B * u + (B * p) * v
  {
    Assoc(B, p, v);
  }

  lemma ValSplit(B: nat, xs: seq<nat>, k: nat)
    requires k <= |xs|
    ensures Val(B, xs) == Val(B, xs[..k]) + Pow(B, k) * Val(B, xs[k..])
  {
    assert xs == xs[..k] + xs[k..];
    ValConcat(B, xs[..k], xs[k..]);
  }

  lemma {:induction false} ValBound(B: nat, xs: seq<nat>)
    requires Digits(B, xs)
    ensures Val(B, xs) < Pow(B, |xs|)
  {
    if xs != [] {
      assert xs[0] < B;
      ValBound(B, xs[1..]);
      MulStrict(Val(B, xs[1..]), Pow(B, |xs| - 1), B);
    }
  }

  /** Vectors of one length are equal exactly when their values are. */
  lemma {:induction false} ValInjective(B: nat, xs: seq<nat>, ys: seq<nat>)
    requires |xs| == |ys| && Digits(B, xs) && Digits(B, ys)
    requires Val(B, xs) == Val(B, ys)
    ensures xs == ys
  {
    if xs != [] {
      var u, v := Val(B, xs[1..]), Val(B, ys[1..]);
      DivModUnique(Val(B, xs), B, u, xs[0]);
      DivModUnique(Val(B, xs), B, v, ys[0]);
      ValInjective(B, xs[1..], ys[1..]);
      assert xs == [xs[0]] + xs[1..] && ys == [ys[0]] + ys[1..];
    }
  }

  lemma {:induction false} ValZeros(B: nat, xs: seq<nat>)
    requires forall i | 0 <= i < |xs| :: xs[i] == 0
    ensures Val(B, xs) == 0
  {
    if xs != [] {
      ValZeros(B, xs[1..]);
    }
  }

  lemma {:induction false} ZeroVal(B: nat, xs: seq<nat>)
    requires B > 0 && Val(B, xs) == 0
    ensures forall i | 0 <= i < |xs| :: xs[i] == 0
  {
    if xs != [] {
      assert Val(B, xs[1..]) == 0 by {
        if Val(B, xs[1..]) > 0 {
          MulMonotone(1, Val(B, xs[1..]), B);
        }
      }
      ZeroVal(B, xs[1..]);
      assert forall i | 1 <= i < |xs| :: xs[i] == xs[1..][i - 1];
    }
  }

  lemma TimesZero(p: nat)
    ensures p * 0 == 0
  {
  }

  lemma SmallTop(p: nat, lo: nat, hi: nat)
    requires lo + p * hi < p
    ensures hi == 0
  {
    if hi > 0 {
      MulMonotone(1, hi, p);
    }
  }

  /** A value below B^k lives entirely in the low k limbs. */
  lemma SmallValue(B: nat, xs: seq<nat>, k: nat)
    requires B > 0 && k <= |xs| && Val(B, xs) < Pow(B, k)
    ensures Val(B, xs[..k]) == Val(B, xs)
    ensures forall i | k <= i < |xs| :: xs[i] == 0
  {
    hide Val, Pow;
    ValSplit(B, xs, k);
    SmallTop(Pow(B, k), Val(B, xs[..k]), Val(B, xs[k..]));
    ZeroVal(B, xs[k..]);
    TimesZero(Pow(B, k));
    forall i | k <= i < |xs|
      ensures xs[i] == 0
    {
      assert xs[i] == xs[k..][i - k];
    }
  }

  /** Changing one limb moves the value by the change times the limb's weight. */
  lemma ValUpdate(B: nat, xs: seq<nat>, i: nat, x: nat)
    requires i < |xs|
    ensures Val(B, xs[i := x]) == Val(B, xs) + Pow(B, i) * x - Pow(B, i) * xs[i]
  {
    var ys := xs[i := x];
    ValSplit(B, xs, i);
    ValSplit(B, ys, i);
    assert ys[..i] == xs[..i];
    assert ys[i..] == [x] + xs[i + 1..] && xs[i..] == [xs[i]] + xs[i + 1..];
    ValTail(B, xs[i], xs[i + 1..], Pow(B, i));
    ValTail(B, x, xs[i + 1..], Pow(B, i));
  }

  lemma ValTail(B: nat, x: nat, xs: seq<nat>, p: nat)
    ensures p * Val(B, [x] + xs) == p * x + p * (B * Val(B, xs))
  {
    assert ([x] + xs)[1..] == xs;
  }

  /** The value of a prefix grows by the next limb at its weight. */
  lemma NextPrefix(B: nat, xs: seq<nat>, i: nat)
    requires i < |xs|
    ensures Val(B, xs[..i + 1]) == Val(B, xs[..i]) + Pow(B, i) * xs[i]
  {
    assert xs[..i + 1] == xs[..i] + [xs[i]];
    ValConcat(B, xs[..i], [xs[i]]);
    ValSingle(B, xs[i]);
  }

  /** A number laid out in n limbs. */
  method Store(B: nat, v: nat, n: nat) returns (x: array<nat>)
    requires B > 1 && v < Pow(B, n)
    ensures fresh(x) && x.Length == n && Digits(B, x[..]) && Val(B, x[..]) == v
  {
    hide Val, Pow;
    x := new nat[n](_ => 0);
    var rest: nat := v;
    StoreStart(B, x[..0], v);
    for i := 0 to n
      invariant forall k | 0 <= k < i :: x[k] < B
      invariant forall k | i <= k < n :: x[k] == 0
      invariant Val(B, x[..i]) + Pow(B, i) * rest == v && rest < Pow(B, n - i)
    {
      ghost var xs := x[..i];
      var limb: nat, up: nat := rest % B, rest / B;
      StoreLimb(B, i, rest, n - i, limb, up);
      x[i] := limb;
      assert x[..][..i] == xs && x[..][..i + 1] == x[..i + 1];
      NextPrefix(B, x[..], i);
      rest := up;
    }
    StoreEnd(B, n, rest);
    assert x[..n] == x[..];
  }

  lemma StoreStart(B: nat, xs: seq<nat>, v: nat)
    requires xs == []
    ensures Val(B, xs) + Pow(B, 0) * v == v
  {
  }

  lemma StoreEnd(B: nat, n: nat, rest: nat)
    requires rest < Pow(B, n - n)
    ensures Pow(B, n) * rest == 0
  {
    assert Pow(B, n - n) == 1;
  }

  lemma StoreLimb(B: nat, i: nat, v: nat, m: nat, limb: nat, up: nat)
    requires B > 1 && m > 0 && v < Pow(B, m) && limb == v % B && up == v / B
    ensures Pow(B, i) * v == Pow(B, i) * limb + Pow(B, i + 1) * up && up < Pow(B, m - 1) && limb < B
  {
    assert v == up * B + limb;
    Weights(B, Pow(B, i), v, limb, up);
    if up >= Pow(B, m - 1) {
      MulMonotone(Pow(B, m - 1), up, B);
    }
  }

  lemma Weights(B: nat, p: nat, v: nat, limb: nat, up: nat)
    requires v == up * B + limb
    ensures p * v == p * limb + (B * p) * up
  {
    assert p * (up * B + limb) == p * (up * B) + p * limb;
    assert p * (up * B) == (B * p) * up;
  }
}
