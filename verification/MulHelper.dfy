/**
 * mpi_mul_hlp: the kernels repeated over a whole vector in blocks of sixteen, eight and one, or of
 * eight and one where the target has an eight-limb block, followed by the carry's ripple upwards.
 */
module MulHelper {
  import opened Powers
  import opened Limbs
  import opened MulAdd
  import opened Machine
  import opened Kernels

  /**
   * One block after k limbs already done: n cores, or one eight-limb block. The 68020 block needs
   * the extend flag clear, and then leaves it clear.
   */
  method Block(t: Target, huit: bool, H: nat, B: nat, src: array<nat>, s: nat, dst: array<nat>, d: nat,
               k: nat, n: nat, b: nat, c: nat, xf: nat, ghost D: seq<nat>)
    returns (c': nat, xf': nat)
    requires H > 1 && B == H * H && (huit ==> t.HasHuit() && n == 8) && xf == 0
    requires src != dst && Ready(B, src, s, dst, d, k + n, b, c)
    requires k + n <= |D| && MulAdded(B, src[s..s + k], D[..k], b, 0, dst[d..d + k], c)
    requires forall j | k <= j < k + n :: dst[d + j] == D[j]
    modifies dst
    ensures Digits(B, dst[..]) && c' < B && xf' == 0
    ensures MulAdded(B, src[s..s + (k + n)], D[..k + n], b, 0, dst[d..d + (k + n)], c')
    ensures forall j | 0 <= j < dst.Length && !(d <= j < d + (k + n)) :: dst[j] == old(dst[j])
  {
    hide Accumulates;
    ghost var E, F := dst[d..d + k], [];
    SameSlice(dst[..], d, D, k, n);
    assert dst[d + k..d + k + n] == dst[..][d + k..d + k + n];
    var s', d';
    if huit {
      s', d', c', xf' := Huit(t, B, src, s + k, dst, d + k, b, c, xf);
    } else {
      xf' := xf;
      s', d', c' := Burst(t, H, B, src, s + k, dst, d + k, n, b, c);
    }
    F := dst[d + k..d + k + n];
    assert dst[d..d + k] == E;
    MulAddedConcat(B, src[s..s + k], D[..k], E, c, src[s + k..s + k + n], D[k..k + n], F, c', b, 0);
    Joined(src[..], s, k, n);
    Joined(dst[..], d, k, n);
    Joined(D, 0, k, n);
  }

  lemma Joined(xs: seq<nat>, i: nat, k: nat, n: nat)
    requires i + k + n <= |xs|
    ensures xs[i..i + (k + n)] == xs[i..i + k] + xs[i + k..i + k + n]
  {
  }

  lemma SameSlice(xs: seq<nat>, d: nat, ys: seq<nat>, k: nat, n: nat)
    requires d + k + n <= |xs| && k + n <= |ys|
    requires forall j | k <= j < k + n :: xs[d + j] == ys[j]
    ensures xs[d + k..d + k + n] == ys[k..k + n]
  {
    var u, v := xs[d + k..d + k + n], ys[k..k + n];
    forall j | 0 <= j < n
      ensures u[j] == v[j]
    {
      assert u[j] == xs[d + (k + j)] && v[j] == ys[k + j];
    }
  }

  /** One of the block loops: for( ; i >= n; i -= n ), entered with left limbs still to do. */
  method Loop(t: Target, huit: bool, n: nat, H: nat, B: nat, i: nat, left: nat,
              src: array<nat>, s: nat, dst: array<nat>, d: nat, b: nat, c: nat, xf: nat, ghost D: seq<nat>)
    returns (left': nat, c': nat)
    requires H > 1 && B == H * H && n > 0 && (huit ==> t.HasHuit() && n == 8) && xf == 0
    requires src != dst && Ready(B, src, s, dst, d, i, b, c) && left <= i == |D|
    requires MulAdded(B, src[s..s + (i - left)], D[..i - left], b, 0, dst[d..d + (i - left)], c)
    requires forall j | i - left <= j < i :: dst[d + j] == D[j]
    modifies dst
    ensures Digits(B, dst[..]) && c' < B && left' < n && left' <= i
    ensures MulAdded(B, src[s..s + (i - left')], D[..i - left'], b, 0, dst[d..d + (i - left')], c')
    ensures forall j | 0 <= j < dst.Length && !(d <= j < d + (i - left')) :: dst[j] == old(dst[j])
    ensures forall j | i - left' <= j < i :: dst[d + j] == D[j]
  {
    hide MulAdded;
    left', c' := left, c;
    var flag := xf;
    while left' >= n
      invariant flag == 0 && left' <= left && Digits(B, dst[..]) && c' < B
      invariant MulAdded(B, src[s..s + (i - left')], D[..i - left'], b, 0, dst[d..d + (i - left')], c')
      invariant forall j | 0 <= j < dst.Length && !(d <= j < d + (i - left')) :: dst[j] == old(dst[j])
    {
      c', flag := Block(t, huit, H, B, src, s, dst, d, i - left', n, b, c', flag, D);
      left' := left' - n;
    }
  }

  /** The three block loops: all i limbs, whatever the target and however they divide into blocks. */
  method Blocks(t: Target, H: nat, B: nat, i: nat, src: array<nat>, s: nat, dst: array<nat>, d: nat, b: nat, xf: nat)
    returns (c: nat)
    requires xf == 0 && H > 1 && B == H * H && src != dst && Ready(B, src, s, dst, d, i, b, 0)
    modifies dst
    ensures Digits(B, dst[..]) && c < B
    ensures MulAdded(B, src[s..s + i], old(dst[d..d + i]), b, 0, dst[d..d + i], c)
    ensures forall j | 0 <= j < dst.Length && !(d <= j < d + i) :: dst[j] == old(dst[j])
  {
    hide MulAdded;
    ghost var D := dst[d..d + i];
    MulAddedEmpty(B, b, 0);
    assert src[s..s + 0] == D[..0] == dst[d..d + 0] == [];
    c := 0;
    var left: nat := i;
    if !t.HasHuit() {
      left, c := Loop(t, false, 16, H, B, i, left, src, s, dst, d, b, c, xf, D);
    }
    left, c := Loop(t, t.HasHuit(), 8, H, B, i, left, src, s, dst, d, b, c, xf, D);
    left, c := Loop(t, false, 1, H, B, i, left, src, s, dst, d, b, c, xf, D);
    assert D[..i] == D;
  }

  /**
   * Adding a carry into the limbs from d on, as far up as it travels. It touches at least one limb,
   * and it stops inside the vector whenever the sum fits there.
   */
  method Ripple(B: nat, dst: array<nat>, d: nat, carry: nat)
    requires B > 1 && d < dst.Length && Digits(B, dst[..]) && carry < B
    requires Val(B, dst[d..]) + carry < Pow(B, dst.Length - d)
    modifies dst
    ensures Digits(B, dst[..]) && dst[..d] == old(dst[..d])
    ensures Val(B, dst[d..]) == old(Val(B, dst[d..])) + carry
  {
    hide Val, Pow;
    var c: nat, p: nat := carry, d;
    ghost var total := Val(B, dst[d..]) + carry;
    RippleStart(B, carry);
    while true
      invariant d <= p < dst.Length && c < B && Digits(B, dst[..])
      invariant Val(B, dst[d..]) + c * Pow(B, p - d) == total
      invariant dst[..d] == old(dst[..d])
      decreases dst.Length - p
    {
      ghost var xs, cf := dst[d..], if dst[p] + c < B then 0 else 1;
      var sum := AddWrap(B, dst[p], c);
      RippleStep(B, xs, p - d, c, sum, cf);
      assert dst[..d] == old(dst[..d]);
      dst[p] := sum;
      assert dst[d..] == xs[p - d := sum];
      c := Less(sum, c);
      p := p + 1;
      RippleEnds(B, dst[d..], p - d, c);
      if c == 0 {
        break;
      }
    }
  }

  lemma RippleStart(B: nat, c: nat)
    ensures c * Pow(B, 0) == c
  {
  }

  /** One limb of the ripple moves the carry's weight up by one. */
  lemma RippleStep(B: nat, xs: seq<nat>, i: nat, c: nat, sum: nat, cf: nat)
    requires i < |xs| && sum + Worth(B, cf) == xs[i] + c && cf <= 1
    ensures Val(B, xs[i := sum]) + cf * Pow(B, i + 1) == Val(B, xs) + c * Pow(B, i)
  {
    ValUpdate(B, xs, i, sum);
    StepWeights(B, Pow(B, i), xs[i], c, sum, cf);
  }

  lemma StepWeights(B: nat, p: nat, x: nat, c: nat, sum: nat, cf: nat)
    requires sum + Worth(B, cf) == x + c && cf <= 1
    ensures p * sum - p * x + cf * (B * p) == c * p
  {
    assert cf * (B * p) == p * Worth(B, cf);
    assert p * (sum + Worth(B, cf)) == p * (x + c);
  }

  /** A carry still alive at the end would mean the sum did not fit. */
  lemma RippleEnds(B: nat, xs: seq<nat>, k: nat, c: nat)
    requires B > 0 && k <= |xs| && Val(B, xs) + c * Pow(B, k) < Pow(B, |xs|)
    ensures c > 0 ==> k < |xs|
  {
    if c > 0 {
      MulMonotone(1, c, Pow(B, k));
    }
  }

  /**
   * The vector step of multiplication: b times the i source limbs is added to the destination from
   * d upwards. The caller provides room: a limb above those i, and a vector that holds the sum. On
   * the 68020 the extend flag is taken to be clear on entry.
   */
  method MulHlp(t: Target, H: nat, B: nat, i: nat, src: array<nat>, s: nat, dst: array<nat>, d: nat, b: nat)
    requires H > 1 && B == H * H && src != dst && Ready(B, src, s, dst, d, i, b, 0) && d + i < dst.Length
    requires Val(B, dst[d..]) + b * Val(B, src[s..s + i]) < Pow(B, dst.Length - d)
    modifies dst
    ensures Digits(B, dst[..]) && dst[..d] == old(dst[..d])
    ensures Val(B, dst[d..]) == old(Val(B, dst[d..])) + b * Val(B, src[s..s + i])
  {
    hide MulAdded, Accumulates, Val, Pow;
    ghost var S, D, rest := src[s..s + i], dst[d..d + i], dst[d + i..];
    var c := Blocks(t, H, B, i, src, s, dst, d, b, 0);
    ghost var E := dst[d..d + i];
    assert dst[d + i..] == rest && dst[..d] == old(dst[..d]);
    assert old(dst[d..]) == D + rest;
    assert |S| + |rest| == dst.Length - d;
    RunAbove(B, S, D, b, E, c, rest);
    Ripple(B, dst, d + i, c);
    assert dst[..d] == dst[..d + i][..d];
    assert dst[d..] == E + dst[d + i..] by {
      assert dst[d..d + i] == dst[..d + i][d..] == E;
    }
    ValConcat(B, E, dst[d + i..]);
    Lift(Pow(B, i), Val(B, rest), c);
  }

  lemma Lift(p: nat, v: nat, c: nat)
    ensures p * (v + c) == p * v + c * p
  {
  }

  /** Where the run's carry goes, and why the limbs above have room for it. */
  lemma RunAbove(B: nat, S: seq<nat>, D: seq<nat>, b: nat, E: seq<nat>, c: nat, rest: seq<nat>)
    requires MulAdded(B, S, D, b, 0, E, c)
    requires Val(B, D + rest) + b * Val(B, S) < Pow(B, |S| + |rest|)
    ensures Val(B, D + rest) == Val(B, D) + Pow(B, |S|) * Val(B, rest)
    ensures Val(B, rest) + c < Pow(B, |rest|)
    ensures Val(B, E) + c * Pow(B, |S|) == Val(B, D) + b * Val(B, S)
  {
    hide Val, Pow, Digits;
    ValConcat(B, D, rest);
    PowAdd(B, |S|, |rest|);
    var p, q, u, v := Pow(B, |S|), Pow(B, |rest|), b * Val(B, S), Val(B, D);
    assert Val(B, E) + c * p == v + u;
    assert Val(B, D + rest) == v + p * Val(B, rest);
    RoomAbove(p, q, u, v, Val(B, E), c, Val(B, rest), Val(B, D + rest), Pow(B, |S| + |rest|));
  }

  lemma RoomAbove(p: nat, q: nat, u: nat, v: nat, w: nat, c: nat, r: nat, t: nat, m: nat)
    requires w + c * p == v + u && t == v + p * r && m == p * q && t + u < m
    ensures r + c < q
  {
    Lift(p, r, c);
    if r + c >= q {
      MulMonotone(q, r + c, p);
    }
  }
}
