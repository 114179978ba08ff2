/**
 * What every multiply-accumulate kernel computes: the source vector S times b, added to the
 * destination vector D, with a carry limb c going in and coming out.
 */
module MulAdd {
  import opened Powers
  import opened Limbs
  import opened Machine

  /** One limb: E and c' are the two halves of s * b + x + c. */
  ghost predicate LimbStep(B: nat, s: nat, x: nat, b: nat, c: nat, e: nat, c': nat) {
    e < B && c' < B && Pair(B, c', e) == s * b + x + c
  }

  /** The exact value equation of a run over whole vectors, p being what is carried out of it. */
  ghost predicate Accumulates(B: nat, S: seq<nat>, D: seq<nat>, b: nat, c: nat, E: seq<nat>, p: nat) {
    && |S| == |D| == |E| && Digits(B, E)
    && Val(B, E) + p * Pow(B, |S|) == Val(B, D) + b * Val(B, S) + c
  }

  /** A run: E is the new destination and the final carry c' is one limb. */
  ghost predicate MulAdded(B: nat, S: seq<nat>, D: seq<nat>, b: nat, c: nat, E: seq<nat>, c': nat) {
    c' < B && Accumulates(B, S, D, b, c, E, c')
  }

  /** Reads at s..s+n may overlap writes at d..d+n only when the writes trail the reads. */
  predicate NoClobber(src: array<nat>, s: nat, dst: array<nat>, d: nat, n: nat) {
    src != dst || d <= s || s + n <= d
  }

  /** What a kernel may be entered with: n limbs left in both vectors, all words in range. */
  ghost predicate Ready(B: nat, src: array<nat>, s: nat, dst: array<nat>, d: nat, n: nat, b: nat, c: nat)
    reads src, dst
  {
    && B > 1 && b < B && c < B
    && s + n <= src.Length && d + n <= dst.Length
    && Digits(B, src[..]) && Digits(B, dst[..])
  }

  /** One limb was accumulated in place: only dst[d] changed and both cursors moved on by one. */
  twostate predicate Stepped(B: nat, src: array<nat>, s: nat, dst: array<nat>, d: nat, b: nat, c: nat,
                             s': nat, d': nat, c': nat)
    requires s < src.Length && d < dst.Length
    reads dst
  {
    && s' == s + 1 && d' == d + 1
    && LimbStep(B, old(src[s]), old(dst[d]), b, c, dst[d], c')
    && dst[..] == old(dst[..])[d := dst[d]]
  }

  /** n limbs were accumulated in place and nothing outside dst[d..d+n] changed. */
  twostate predicate Ran(B: nat, src: array<nat>, s: nat, dst: array<nat>, d: nat, n: nat, b: nat, c: nat,
                         s': nat, d': nat, c': nat)
    requires s + n <= src.Length && d + n <= dst.Length
    reads dst
  {
    && s' == s + n && d' == d + n
    && MulAdded(B, old(src[s..s + n]), old(dst[d..d + n]), b, c, dst[d..d + n], c')
    && forall k | 0 <= k < dst.Length && !(d <= k < d + n) :: dst[k] == old(dst[k])
  }

  /** The specification pins the result: two runs that meet it agree on every limb and the carry. */
  lemma MulAddedUnique(B: nat, S: seq<nat>, D: seq<nat>, b: nat, c: nat,
                       E1: seq<nat>, c1: nat, E2: seq<nat>, c2: nat)
    requires MulAdded(B, S, D, b, c, E1, c1)
    requires MulAdded(B, S, D, b, c, E2, c2)
    ensures E1 == E2 && c1 == c2
  {
    ValBound(B, E1);
    ValBound(B, E2);
    var p, t := Pow(B, |S|), Val(B, D) + b * Val(B, S) + c;
    DivModUnique(t, p, c1, Val(B, E1));
    DivModUnique(t, p, c2, Val(B, E2));
    ValInjective(B, E1, E2);
  }

  lemma MulAddedEmpty(B: nat, b: nat, c: nat)
    ensures Accumulates(B, [], [], b, c, [], c)
    ensures c < B ==> MulAdded(B, [], [], b, c, [], c)
  {
  }

  lemma AccumulatesSingle(B: nat, s: nat, x: nat, b: nat, c: nat, e: nat, p: nat)
    requires e < B && Pair(B, p, e) == s * b + x + c
    ensures Accumulates(B, [s], [x], b, c, [e], p)
  {
    ValSingle(B, s);
    ValSingle(B, x);
    ValSingle(B, e);
  }

  lemma AccumulatesConcat(B: nat, S1: seq<nat>, D1: seq<nat>, E1: seq<nat>, p1: nat,
                          S2: seq<nat>, D2: seq<nat>, E2: seq<nat>, p2: nat, b: nat, c: nat)
    requires Accumulates(B, S1, D1, b, c, E1, p1)
    requires Accumulates(B, S2, D2, b, p1, E2, p2)
    ensures Accumulates(B, S1 + S2, D1 + D2, b, c, E1 + E2, p2)
  {
    hide Val, Pow;
    ValConcat(B, S1, S2);
    ValConcat(B, D1, D2);
    ValConcat(B, E1, E2);
    PowAdd(B, |S1|, |S2|);
    ConcatValues(Pow(B, |S1|), Pow(B, |S2|), b, c, Val(B, S1), Val(B, D1), Val(B, E1), p1,
                 Val(B, S2), Val(B, D2), Val(B, E2), p2);
  }

  /** Stopping and resuming: a run over a prefix followed by a run over the rest is one run. */
  lemma MulAddedConcat(B: nat, S1: seq<nat>, D1: seq<nat>, E1: seq<nat>, c1: nat,
                       S2: seq<nat>, D2: seq<nat>, E2: seq<nat>, c2: nat, b: nat, c: nat)
    requires MulAdded(B, S1, D1, b, c, E1, c1)
    requires MulAdded(B, S2, D2, b, c1, E2, c2)
    ensures MulAdded(B, S1 + S2, D1 + D2, b, c, E1 + E2, c2)
  {
    AccumulatesConcat(B, S1, D1, E1, c1, S2, D2, E2, c2, b, c);
  }

  lemma ConcatValues(p: nat, q: nat, b: nat, c: nat, u1: nat, v1: nat, w1: nat, c1: nat,
                     u2: nat, v2: nat, w2: nat, c2: nat)
    requires w1 + c1 * p == v1 + b * u1 + c
    requires w2 + c2 * q == v2 + b * u2 + c1
    ensures (w1 + p * w2) + c2 * (p * q) == (v1 + p * v2) + b * (u1 + p * u2) + c
  {
    assert c2 * (p * q) == p * (c2 * q);
    assert p * w2 + p * (c2 * q) == p * (w2 + c2 * q);
    assert p * (v2 + b * u2 + c1) == p * v2 + p * (b * u2) + p * c1;
    assert b * (u1 + p * u2) == b * u1 + b * (p * u2);
    assert b * (p * u2) == p * (b * u2);
  }

  /** One more limb on a run over the first i. */
  lemma AccumulatesNext(B: nat, S: seq<nat>, D: seq<nat>, i: nat, b: nat, c: nat,
                        E: seq<nat>, p1: nat, e: nat, p2: nat)
    requires i < |S| == |D|
    requires Accumulates(B, S[..i], D[..i], b, c, E, p1)
    requires e < B && Pair(B, p2, e) == S[i] * b + D[i] + p1
    ensures Accumulates(B, S[..i + 1], D[..i + 1], b, c, E + [e], p2)
  {
    AccumulatesSingle(B, S[i], D[i], b, p1, e, p2);
    AccumulatesConcat(B, S[..i], D[..i], E, p1, [S[i]], [D[i]], [e], p2, b, c);
    assert S[..i + 1] == S[..i] + [S[i]] && D[..i + 1] == D[..i] + [D[i]];
  }

  lemma MulAddedNext(B: nat, S: seq<nat>, D: seq<nat>, i: nat, b: nat, c: nat,
                     E: seq<nat>, c1: nat, e: nat, c2: nat)
    requires i < |S| == |D|
    requires MulAdded(B, S[..i], D[..i], b, c, E, c1)
    requires LimbStep(B, S[i], D[i], b, c1, e, c2)
    ensures MulAdded(B, S[..i + 1], D[..i + 1], b, c, E + [e], c2)
  {
    AccumulatesNext(B, S, D, i, b, c, E, c1, e, c2);
  }

  /** The value a run starts from never overflows n + 1 limbs. */
  lemma RunFits(B: nat, S: seq<nat>, D: seq<nat>, b: nat, c: nat)
    requires |S| == |D| && Digits(B, S) && Digits(B, D) && b < B && c < B
    ensures Val(B, D) + b * Val(B, S) + c < Pow(B, |S| + 1)
  {
    ValBound(B, S);
    ValBound(B, D);
    RunFitsValues(B, Pow(B, |S|), Val(B, S), Val(B, D), b, c);
  }

  lemma RunFitsValues(B: nat, p: nat, u: nat, v: nat, b: nat, c: nat)
    requires u < p && v < p && b < B && c < B
    ensures v + b * u + c < B * p
  {
    MulMonotone(u, p - 1, b);
    MulMonotone(b, B - 1, p - 1);
    assert (B - 1) * (p - 1) == B * p - B - p + 1;
  }
}
