/**
 * The eight-limb 68020 block. The carry of each add to memory stays in the extend flag and enters
 * the next limb's first addx, and the carry register alternates between d4 and d3.
 */
module M68kHuit {
  import opened Powers
  import opened Limbs
  import opened MulAdd
  import opened Machine

  /**
   * One limb of the block. What is pending, register plus extend flag, may reach B itself, and
   * even then nothing is lost inside the limb.
   */
  method Beat(B: nat, s: nat, x: nat, d2: nat, d3: nat, xf: nat) returns (e: nat, d4: nat, xf': nat)
    requires B > 1 && s < B && x < B && d2 < B && d3 < B && xf <= 1
    ensures e < B && d4 < B && xf' <= 1
    ensures Pair(B, d4 + xf', e) == s * d2 + x + (d3 + xf)
    ensures d3 + xf < B ==> d4 + xf' < B
  {
    hide Pair;
    var d0, d1, flag := 0, 0, 0;
    d4, d1 := MulWide(B, s, d2);
    ghost var hi, lo := d4, d1;
    d1, flag := Adc(B, d1, d3, xf);
    SpillIntoHigh(B, hi, lo, d3 + xf, d1, flag);
    d4, flag := Adc(B, d4, d0, flag);
    assert flag == 0;
    e, xf' := Adc(B, x, d1, 0);
    SpillIntoHigh(B, d4, d1, x, e, xf');
    PendingFits(B, s, d2, x, d3 + xf, d4 + xf', e);
  }

  lemma SpillIntoHigh(B: nat, hi: nat, lo: nat, x: nat, lo': nat, cf: nat)
    requires cf <= 1 && lo' + Worth(B, cf) == lo + x
    ensures Pair(B, hi + cf, lo') == Pair(B, hi, lo) + x
  {
    assert (hi + cf) * B == hi * B + Worth(B, cf);
  }

  lemma PendingFits(B: nat, s: nat, b: nat, x: nat, p: nat, p': nat, e: nat)
    requires s < B && b < B && x < B && e < B && Pair(B, p', e) == s * b + x + p
    ensures p < B ==> p' < B
  {
    ProductRoom(B, s, b);
    if p' >= B {
      MulMonotone(B, p', B);
    }
  }

  /** Limb i of the block in memory; S and D are the vectors as the block found them. */
  method BeatAt(B: nat, src: array<nat>, s: nat, dst: array<nat>, d: nat, i: nat, b: nat, d3: nat, xf: nat,
                ghost c: nat, ghost S: seq<nat>, ghost D: seq<nat>)
    returns (d4: nat, xf': nat)
    requires i < 8 == |S| == |D| && B > 1 && b < B && d3 < B && xf <= 1
    requires s + 8 <= src.Length && d + 8 <= dst.Length && src[s + i] == S[i] < B && dst[d + i] == D[i] < B
    requires Accumulates(B, S[..i], D[..i], b, c, dst[d..d + i], d3 + xf)
    modifies dst
    ensures d4 < B && xf' <= 1 && (d3 + xf < B ==> d4 + xf' < B) && dst[d + i] < B
    ensures dst[..] == old(dst[..])[d + i := dst[d + i]]
    ensures Accumulates(B, S[..i + 1], D[..i + 1], b, c, dst[d..d + i + 1], d4 + xf')
  {
    hide Accumulates, Pair;
    ghost var E := dst[d..d + i];
    var e;
    e, d4, xf' := Beat(B, src[s + i], dst[d + i], b, d3, xf);
    AccumulatesNext(B, S, D, i, b, c, E, d3 + xf, e, d4 + xf');
    dst[d + i] := e;
    assert dst[d..d + i + 1] == E + [e];
  }

  /** Two limbs: the carry goes from d3 to d4 and back. */
  method TwoBeats(B: nat, src: array<nat>, s: nat, dst: array<nat>, d: nat, i: nat, b: nat, r: nat, xf: nat,
                  ghost c: nat, ghost S: seq<nat>, ghost D: seq<nat>)
    returns (d3: nat, flag: nat)
    requires i < 7 && 8 == |S| == |D| && B > 1 && b < B && r < B && xf <= 1
    requires s + 8 <= src.Length && d + 8 <= dst.Length && NoClobber(src, s, dst, d, 8)
    requires forall k | i <= k < 8 :: src[s + k] == S[k] < B && dst[d + k] == D[k] < B
    requires Accumulates(B, S[..i], D[..i], b, c, dst[d..d + i], r + xf)
    modifies dst
    ensures d3 < B && flag <= 1 && (r + xf < B ==> d3 + flag < B) && dst[d + i] < B && dst[d + i + 1] < B
    ensures dst[..] == old(dst[..])[d + i := dst[d + i]][d + i + 1 := dst[d + i + 1]]
    ensures Accumulates(B, S[..i + 2], D[..i + 2], b, c, dst[d..d + i + 2], d3 + flag)
  {
    hide Accumulates;
    var d4;
    d4, flag := BeatAt(B, src, s, dst, d, i, b, r, xf, c, S, D);
    d3, flag := BeatAt(B, src, s, dst, d, i + 1, b, d4, flag, c, S, D);
  }

  /** The eight limbs, up to but not including the last addx: d4 and d3 take turns. */
  method Beats(B: nat, src: array<nat>, s: nat, dst: array<nat>, d: nat, b: nat, c: nat, xf: nat)
    returns (d3: nat, flag: nat)
    requires Ready(B, src, s, dst, d, 8, b, c) && NoClobber(src, s, dst, d, 8) && xf <= 1
    modifies dst
    ensures Digits(B, dst[..]) && d3 < B && flag <= 1 && (xf == 0 ==> d3 + flag < B)
    ensures Accumulates(B, old(src[s..s + 8]), old(dst[d..d + 8]), b, c + xf, dst[d..d + 8], d3 + flag)
    ensures forall k | 0 <= k < dst.Length && !(d <= k < d + 8) :: dst[k] == old(dst[k])
  {
    hide Accumulates;
    ghost var S, D := src[s..s + 8], dst[d..d + 8];
    d3, flag := c, xf;
    MulAddedEmpty(B, b, c + xf);
    assert S[..0] == D[..0] == dst[d..d + 0] == [];
    var i: nat := 0;
    while i < 8
      invariant i <= 8 && i % 2 == 0 && d3 < B && flag <= 1 && (xf == 0 ==> d3 + flag < B)
      invariant Accumulates(B, S[..i], D[..i], b, c + xf, dst[d..d + i], d3 + flag)
      invariant forall k | i <= k < 8 :: src[s + k] == S[k] < B && dst[d + k] == D[k] < B
      invariant forall k | 0 <= k < dst.Length && !(d <= k < d + i) :: dst[k] == old(dst[k])
      invariant Digits(B, dst[..])
    {
      d3, flag := TwoBeats(B, src, s, dst, d, i, b, d3, flag, c + xf, S, D);
      i := i + 2;
    }
    assert S[..8] == S && D[..8] == D;
  }

  /**
   * MULADDC_HUIT after MULADDC_INIT, entered with extend flag xf: the flag is accumulated as one
   * extra unit, so the block is eight single-limb steps exactly when it is entered with it clear.
   * Then it leaves the flag clear as well.
   */
  method Huit(B: nat, src: array<nat>, s: nat, dst: array<nat>, d: nat, b: nat, c: nat, xf: nat)
    returns (s': nat, d': nat, c': nat, xf': nat)
    requires Ready(B, src, s, dst, d, 8, b, c) && NoClobber(src, s, dst, d, 8) && xf <= 1
    modifies dst
    ensures Digits(B, dst[..]) && c' < B && xf' <= 1
    ensures Accumulates(B, old(src[s..s + 8]), old(dst[d..d + 8]), b, c + xf, dst[d..d + 8], c' + Worth(B, xf'))
    ensures Ran(B, src, s, dst, d, 8, b, c, s', d', c') <==> xf == 0
    ensures xf == 0 ==> xf' == 0
    ensures forall k | 0 <= k < dst.Length && !(d <= k < d + 8) :: dst[k] == old(dst[k])
  {
    hide Accumulates;
    var d3, flag := Beats(B, src, s, dst, d, b, c, xf);
    s', d' := s + 8, d + 8;
    c', xf' := Adc(B, d3, 0, flag);
    FlagShows(B, old(src[s..s + 8]), old(dst[d..d + 8]), b, c, xf, dst[d..d + 8], c', xf');
  }

  /** With the flag set the value is off by one, which no final carry can repair. */
  lemma FlagShows(B: nat, S: seq<nat>, D: seq<nat>, b: nat, c: nat, xf: nat, E: seq<nat>, c': nat, xf': nat)
    requires B > 1 && xf <= 1 && xf' <= 1 && c' < B && |S| == 8
    requires Accumulates(B, S, D, b, c + xf, E, c' + Worth(B, xf')) && (xf == 0 ==> c' + Worth(B, xf') < B)
    ensures MulAdded(B, S, D, b, c, E, c') <==> xf == 0
  {
    if xf == 1 {
      OffByOne(B, Pow(B, 8), Val(B, E), Val(B, D) + b * Val(B, S) + c, c', xf');
    }
  }

  lemma OffByOne(B: nat, P: nat, w: nat, v: nat, c': nat, xf': nat)
    requires B > 1 && P > 0 && xf' <= 1 && w + (c' + Worth(B, xf')) * P == v + 1
    ensures w + c' * P != v
  {
    assert (c' + Worth(B, xf')) * P == c' * P + Worth(B, xf') * P;
    MulMonotone(1, P, B);
  }
}
