/**
 * The eight-limb SSE2 block. Loads, products and stores are interleaved and registers are reused;
 * a 64-bit register holds a number below B * B, and only its low half is stored.
 */
module Sse2 {
  import opened Powers
  import opened Limbs
  import opened MulAdd
  import opened Machine

  /** movd to memory: the low half. */
  function Low(B: nat, mm: nat): nat
    requires B > 0
  {
    mm % B
  }

  /** psrlq by the limb width. */
  function Psrlq(B: nat, mm: nat): nat
    requires B > 0
  {
    mm / B
  }

  /** W is the radix of a 64-bit register. */
  ghost predicate Wide(B: nat, W: nat) {
    W == B * B
  }

  /** pmuludq on two low halves. */
  function Product(x: nat, y: nat): nat {
    x * y
  }

  /** movd from memory followed by pmuludq: the product of the low halves, always exact. */
  method LoadMul(B: nat, W: nat, x: nat, mm0: nat) returns (mm: nat)
    requires B > 1 && Wide(B, W) && x < B && mm0 < B
    ensures mm == Product(x, mm0) && mm + 2 * B <= W + 1
  {
    ProductRoom(B, x, mm0);
    DivModUnique(x, B, 0, x);
    DivModUnique(mm0, B, 0, mm0);
    mm := Product(Low(B, x), Low(B, mm0));
  }

  /** paddq: 64-bit addition, which never wraps on the values the block adds. */
  method Paddq(W: nat, x: nat, y: nat) returns (mm: nat)
    requires x + y < W
    ensures mm == x + y
  {
    DivModUnique(x + y, W, 0, x + y);
    mm := (x + y) % W;
  }

  /** Storing the low half and shifting it out settles one limb. */
  lemma Settle(B: nat, W: nat, s: nat, x: nat, b: nat, c: nat, mm1: nat)
    requires B > 1 && Wide(B, W) && mm1 == Product(s, b) + x + c && mm1 < W
    ensures Low(B, mm1) < B && Psrlq(B, mm1) < B
    ensures LimbStep(B, s, x, b, c, Low(B, mm1), Psrlq(B, mm1))
  {
    PairOfTotal(B, mm1);
  }

  /** The block up to its first store: the sums of limbs zero to three, the carry in the first. */
  method Load(B: nat, W: nat, src: array<nat>, s: nat, dst: array<nat>, d: nat, b: nat, c: nat)
    returns (mm1: nat, mm3: nat, mm5: nat, mm7: nat)
    requires Ready(B, src, s, dst, d, 8, b, c) && Wide(B, W)
    ensures mm1 == Product(src[s], b) + dst[d] + c && mm1 < W
    ensures mm3 == Product(src[s + 1], b) + dst[d + 1] && mm3 + B <= W
    ensures mm5 == Product(src[s + 2], b) + dst[d + 2] && mm5 + B <= W
    ensures mm7 == Product(src[s + 3], b) + dst[d + 3] && mm7 + B <= W
  {
    hide Product, Wide;
    var mm0, mm2, mm4, mm6;
    mm1 := c;
    mm0 := b;
    mm3 := dst[d];
    mm2 := LoadMul(B, W, src[s], mm0);
    mm1 := Paddq(W, mm1, mm3);
    mm4 := LoadMul(B, W, src[s + 1], mm0);
    mm6 := LoadMul(B, W, src[s + 2], mm0);
    mm7 := LoadMul(B, W, src[s + 3], mm0);
    mm1 := Paddq(W, mm1, mm2);
    mm3 := dst[d + 1];
    mm3 := Paddq(W, mm3, mm4);
    mm5 := dst[d + 2];
    mm5 := Paddq(W, mm5, mm6);
    mm4 := dst[d + 3];
    mm7 := Paddq(W, mm7, mm4);
  }

  /**
   * The source limbs as the block loads them: the first four before any store, the next three after
   * the store of limb zero and the last after that of limb one too. xs is the source as the block
   * found it, e0 and e1 are the limbs stored, and same says that source and destination are one.
   */
  ghost predicate Loaded(same: bool, s: nat, d: nat, xs: seq<nat>, e0: nat, e1: nat, S: seq<nat>) {
    && |S| == 8 && s + 8 <= |xs|
    && forall k | 0 <= k < 8 ::
      S[k] == if same && k >= 4 && s + k == d then e0 else if same && k == 7 && s + k == d + 1 then e1 else xs[s + k]
  }

  /**
   * The block from its first store up to the next one: seven source limbs have been read and
   * multiplied; the sums of limbs one, two and three are in mm1, mm5 and mm7.
   */
  method OneStored(B: nat, W: nat, src: array<nat>, s: nat, dst: array<nat>, d: nat, b: nat, c: nat)
    returns (mm1: nat, mm2: nat, mm4: nat, mm6: nat, mm5: nat, mm7: nat, ghost c1: nat, ghost S: seq<nat>)
    requires Ready(B, src, s, dst, d, 8, b, c) && Wide(B, W)
    modifies dst
    ensures dst[d] < B && c1 < B && dst[..] == old(dst[..])[d := dst[d]]
    ensures S == old(src[s..s + 4]) + src[s + 4..s + 7]
    ensures LimbStep(B, S[0], old(dst[d]), b, c, dst[d], c1)
    ensures mm1 == Product(S[1], b) + old(dst[d + 1]) + c1 && mm1 < W
    ensures mm5 == Product(S[2], b) + old(dst[d + 2]) && mm7 == Product(S[3], b) + old(dst[d + 3])
    ensures mm2 == Product(S[4], b) && mm4 == Product(S[5], b) && mm6 == Product(S[6], b)
    ensures mm5 + B <= W && mm7 + B <= W
    ensures mm2 + 2 * B <= W + 1 && mm4 + 2 * B <= W + 1 && mm6 + 2 * B <= W + 1
  {
    hide LimbStep, Low, Psrlq, Wide, Product;
    ghost var T, x0 := src[s..s + 4], dst[d];
    var mm0, mm3 := b, 0;
    mm1, mm3, mm5, mm7 := Load(B, W, src, s, dst, d, b, c);
    Settle(B, W, T[0], x0, b, c, mm1);
    dst[d] := Low(B, mm1);
    S := T + src[s + 4..s + 7];
    mm2 := LoadMul(B, W, src[s + 4], mm0);
    mm1 := Psrlq(B, mm1);
    c1 := mm1;
    mm4 := LoadMul(B, W, src[s + 5], mm0);
    mm1 := Paddq(W, mm1, mm3);
    mm6 := LoadMul(B, W, src[s + 6], mm0);
  }

  /** Up to the store of limb one, after which the last source limb is read and multiplied. */
  method TwoStored(B: nat, W: nat, src: array<nat>, s: nat, dst: array<nat>, d: nat, b: nat, c: nat)
    returns (mm1: nat, mm2: nat, mm4: nat, mm6: nat, mm3: nat, mm5: nat, mm7: nat, ghost c1: nat, ghost S: seq<nat>)
    requires Ready(B, src, s, dst, d, 8, b, c) && Wide(B, W)
    modifies dst
    ensures |S| == 8 && Loaded(src == dst, s, d, old(src[..]), dst[d], dst[d + 1], S)
    ensures dst[d] < B && dst[d + 1] < B && mm1 < B
    ensures dst[..] == old(dst[..])[d := dst[d]][d + 1 := dst[d + 1]]
    ensures LimbStep(B, S[0], old(dst[d]), b, c, dst[d], c1)
    ensures LimbStep(B, S[1], old(dst[d + 1]), b, c1, dst[d + 1], mm1)
    ensures mm5 == Product(S[2], b) + old(dst[d + 2]) && mm7 == Product(S[3], b) + old(dst[d + 3])
    ensures mm2 == Product(S[4], b) && mm4 == Product(S[5], b) && mm6 == Product(S[6], b) && mm3 == Product(S[7], b)
    ensures mm5 + B <= W && mm7 + B <= W
    ensures mm2 + 2 * B <= W + 1 && mm4 + 2 * B <= W + 1 && mm6 + 2 * B <= W + 1 && mm3 + 2 * B <= W + 1
  {
    hide LimbStep, Low, Psrlq, Wide, Product, Loaded;
    ghost var xs, x1, T := src[..], dst[d + 1], [];
    mm1, mm2, mm4, mm6, mm5, mm7, c1, T := OneStored(B, W, src, s, dst, d, b, c);
    ghost var e0 := dst[d];
    ghost var ys := src[..];
    Settle(B, W, T[1], x1, b, c1, mm1);
    dst[d + 1] := Low(B, mm1);
    mm1 := Psrlq(B, mm1);
    S := T + [src[s + 7]];
    mm3 := LoadMul(B, W, src[s + 7], b);
    assert T == xs[s..s + 4] + ys[s + 4..s + 7];
    LoadedBy(src == dst, s, d, xs, ys, src[..], e0, dst[d + 1], S);
  }

  lemma LoadedBy(same: bool, s: nat, d: nat, xs: seq<nat>, ys: seq<nat>, zs: seq<nat>, e0: nat, e1: nat, S: seq<nat>)
    requires s + 8 <= |xs| && (same ==> d + 8 <= |xs|)
    requires ys == if same then xs[d := e0] else xs
    requires zs == if same then ys[d + 1 := e1] else ys
    requires S == xs[s..s + 4] + ys[s + 4..s + 7] + [zs[s + 7]]
    ensures Loaded(same, s, d, xs, e0, e1, S)
  {
  }

  /** Up to the store of limb three; limbs four and five have taken in their destination limbs. */
  method Front(B: nat, W: nat, src: array<nat>, s: nat, dst: array<nat>, d: nat, b: nat, c: nat)
    returns (mm1: nat, mm2: nat, mm4: nat, mm6: nat, mm3: nat, ghost S: seq<nat>)
    requires Ready(B, src, s, dst, d, 8, b, c) && Wide(B, W)
    modifies dst
    ensures Digits(B, dst[..]) && mm1 < B
    ensures |S| == 8 && Loaded(src == dst, s, d, old(src[..]), dst[d], dst[d + 1], S)
    ensures MulAdded(B, S[..4], old(dst[d..d + 4]), b, c, dst[d..d + 4], mm1)
    ensures mm2 == Product(S[4], b) + old(dst[d + 4]) && mm4 == Product(S[5], b) + old(dst[d + 5])
    ensures mm6 == Product(S[6], b) && mm3 == Product(S[7], b)
    ensures mm2 + B <= W && mm4 + B <= W && mm6 + 2 * B <= W + 1 && mm3 + 2 * B <= W + 1
    ensures forall k | 0 <= k < dst.Length && !(d <= k < d + 4) :: dst[k] == old(dst[k])
  {
    hide MulAdded, LimbStep, Low, Psrlq, Wide, Product, Loaded;
    ghost var D, c1, x2, x3 := dst[d..d + 4], 0, dst[d + 2], dst[d + 3];
    assert D == [dst[d], dst[d + 1], x2, x3];
    var mm5, mm7;
    mm1, mm2, mm4, mm6, mm3, mm5, mm7, c1, S := TwoStored(B, W, src, s, dst, d, b, c);
    ghost var e0, e1, c2 := dst[d], dst[d + 1], mm1;
    mm1 := Paddq(W, mm1, mm5);
    mm5 := dst[d + 4];
    mm2 := Paddq(W, mm2, mm5);
    Settle(B, W, S[2], x2, b, c2, mm1);
    ghost var e2, c3 := Low(B, mm1), Psrlq(B, mm1);
    dst[d + 2] := Low(B, mm1);
    mm1 := Psrlq(B, mm1);
    mm1 := Paddq(W, mm1, mm7);
    mm5 := dst[d + 5];
    mm4 := Paddq(W, mm4, mm5);
    Settle(B, W, S[3], x3, b, c3, mm1);
    ghost var e3 := Low(B, mm1);
    dst[d + 3] := Low(B, mm1);
    mm1 := Psrlq(B, mm1);
    FourSteps(B, S[..4], D, b, c, [e0, e1, e2, e3], [c, c1, c2, c3, mm1]);
    assert dst[d..d + 4] == [e0, e1, e2, e3];
  }

  /** The rest of the block: limbs four to seven, from the registers the front left. */
  method Back(B: nat, W: nat, dst: array<nat>, d: nat, ghost S: seq<nat>, ghost b: nat,
              carry: nat, m2: nat, m4: nat, m6: nat, m3: nat)
    returns (ecx: nat)
    requires B > 1 && Wide(B, W) && d + 8 <= dst.Length && Digits(B, dst[..]) && |S| == 4 && carry < B
    requires m2 == Product(S[0], b) + dst[d + 4] && m4 == Product(S[1], b) + dst[d + 5]
    requires m6 == Product(S[2], b) && m3 == Product(S[3], b)
    requires m2 + B <= W && m4 + B <= W && m6 + 2 * B <= W + 1 && m3 + 2 * B <= W + 1
    modifies dst
    ensures Digits(B, dst[..])
    ensures MulAdded(B, S, old(dst[d + 4..d + 8]), b, carry, dst[d + 4..d + 8], ecx)
    ensures forall k | 0 <= k < dst.Length && !(d + 4 <= k < d + 8) :: dst[k] == old(dst[k])
  {
    hide MulAdded, LimbStep, Low, Psrlq, Wide, Product;
    ghost var x4, x5, x6, x7 := dst[d + 4], dst[d + 5], dst[d + 6], dst[d + 7];
    ghost var D := dst[d + 4..d + 8];
    assert D == [x4, x5, x6, x7];
    var mm1, mm2, mm3, mm4, mm5, mm6 := carry, m2, m3, m4, 0, m6;
    mm1 := Paddq(W, mm1, mm2);
    mm5 := dst[d + 6];
    mm6 := Paddq(W, mm6, mm5);
    Settle(B, W, S[0], x4, b, carry, mm1);
    ghost var e4, c5 := Low(B, mm1), Psrlq(B, mm1);
    dst[d + 4] := Low(B, mm1);
    mm1 := Psrlq(B, mm1);
    mm1 := Paddq(W, mm1, mm4);
    mm5 := dst[d + 7];
    mm3 := Paddq(W, mm3, mm5);
    Settle(B, W, S[1], x5, b, c5, mm1);
    ghost var e5, c6 := Low(B, mm1), Psrlq(B, mm1);
    dst[d + 5] := Low(B, mm1);
    mm1 := Psrlq(B, mm1);
    mm1 := Paddq(W, mm1, mm6);
    Settle(B, W, S[2], x6, b, c6, mm1);
    ghost var e6, c7 := Low(B, mm1), Psrlq(B, mm1);
    dst[d + 6] := Low(B, mm1);
    mm1 := Psrlq(B, mm1);
    mm1 := Paddq(W, mm1, mm3);
    Settle(B, W, S[3], x7, b, c7, mm1);
    ghost var e7 := Low(B, mm1);
    dst[d + 7] := Low(B, mm1);
    mm1 := Psrlq(B, mm1);
    ecx := mm1;
    FourSteps(B, S, D, b, carry, [e4, e5, e6, e7], [carry, c5, c6, c7, ecx]);
    assert dst[d + 4..d + 8] == [e4, e5, e6, e7];
  }

  /**
   * MULADDC_HUIT between MULADDC_INIT and MULADDC_STOP, wherever source and destination lie: a run
   * over the source limbs as they were loaded.
   */
  method Block(B: nat, src: array<nat>, s: nat, dst: array<nat>, d: nat, b: nat, c: nat)
    returns (s': nat, d': nat, c': nat, ghost S: seq<nat>)
    requires Ready(B, src, s, dst, d, 8, b, c)
    modifies dst
    ensures s' == s + 8 && d' == d + 8 && Digits(B, dst[..])
    ensures |S| == 8 && Loaded(src == dst, s, d, old(src[..]), dst[d], dst[d + 1], S)
    ensures MulAdded(B, S, old(dst[d..d + 8]), b, c, dst[d..d + 8], c')
    ensures forall k | 0 <= k < dst.Length && !(d <= k < d + 8) :: dst[k] == old(dst[k])
  {
    var W := B * B;
    assert Wide(B, W);
    hide MulAdded, Wide, Product, Loaded;
    ghost var D := dst[d..d + 8];
    var mm1, mm2, mm4, mm6, mm3;
    mm1, mm2, mm4, mm6, mm3, S := Front(B, W, src, s, dst, d, b, c);
    ghost var E := dst[d..d + 4];
    assert S[4..] == [S[4], S[5], S[6], S[7]];
    assert D[..4] == old(dst[d..d + 4]) && D[4..] == dst[d + 4..d + 8];
    c' := Back(B, W, dst, d, S[4..], b, mm1, mm2, mm4, mm6, mm3);
    assert dst[d..d + 4] == E;
    assert dst[d..d + 8] == E + dst[d + 4..d + 8] && S == S[..4] + S[4..] && D == D[..4] + D[4..];
    MulAddedConcat(B, S[..4], D[..4], E, mm1, S[4..], D[4..], dst[d + 4..d + 8], c', b, c);
    s', d' := s + 8, d + 8;
  }

  /** With writes that trail the reads, that is exactly eight single-limb steps. */
  method Huit(B: nat, src: array<nat>, s: nat, dst: array<nat>, d: nat, b: nat, c: nat)
    returns (s': nat, d': nat, c': nat)
    requires Ready(B, src, s, dst, d, 8, b, c) && NoClobber(src, s, dst, d, 8)
    modifies dst
    ensures Digits(B, dst[..]) && Ran(B, src, s, dst, d, 8, b, c, s', d', c')
  {
    hide MulAdded;
    ghost var T, S := src[s..s + 8], [];
    s', d', c', S := Block(B, src, s, dst, d, b, c);
    assert S == T;
  }

  /** Four settled limbs, each taking the carry of the one before, are one run. */
  lemma FourSteps(B: nat, S: seq<nat>, D: seq<nat>, b: nat, c: nat, E: seq<nat>, C: seq<nat>)
    requires |S| == |D| == |E| == 4 && |C| == 5 && C[0] == c && c < B
    requires forall k | 0 <= k < 4 :: LimbStep(B, S[k], D[k], b, C[k], E[k], C[k + 1])
    ensures MulAdded(B, S, D, b, c, E, C[4])
  {
    hide MulAdded, LimbStep;
    MulAddedEmpty(B, b, c);
    for i := 0 to 4
      invariant MulAdded(B, S[..i], D[..i], b, c, E[..i], C[i])
    {
      MulAddedNext(B, S, D, i, b, c, E[..i], C[i], E[i], C[i + 1]);
      assert E[..i + 1] == E[..i] + [E[i]];
    }
    assert S[..4] == S && D[..4] == D && E[..4] == E;
  }
}
