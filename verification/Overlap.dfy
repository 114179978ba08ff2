/**
 * Source and destination in one array: what a run then computes limb by limb, and exactly when
 * that is what it would compute on a copy of the source.
 */
module Overlap {
  import opened Powers
  import opened Limbs
  import opened Machine
  import opened MulAdd
  import Kernels
  import PowerPc
  import M68kHuit
  import Sse2

  /** n steps over one array: later steps read what earlier ones stored. */
  function InPlace(B: nat, a: seq<nat>, s: nat, d: nat, n: nat, b: nat, c: nat): (r: (seq<nat>, nat))
    requires B > 0 && s + n <= |a| && d + n <= |a|
    ensures |r.0| == |a|
    decreases n
  {
    if n == 0 then (a, c)
    else
      var t := a[s] * b + a[d] + c;
      InPlace(B, a[d := t % B], s + 1, d + 1, n - 1, b, t / B)
  }

  /** One limb's step has only one result, so any kernel's step is the first of these. */
  lemma StepIs(B: nat, a: seq<nat>, s: nat, d: nat, n: nat, b: nat, c: nat, e: nat, c': nat)
    requires B > 0 && 0 < n && s + n <= |a| && d + n <= |a| && LimbStep(B, a[s], a[d], b, c, e, c')
    ensures InPlace(B, a, s, d, n, b, c) == InPlace(B, a[d := e], s + 1, d + 1, n - 1, b, c')
    ensures e < B && c' < B
  {
    DivModUnique(a[s] * b + a[d] + c, B, c', e);
  }

  lemma StepOf(B: nat, s: nat, x: nat, b: nat, c: nat) returns (e: nat, c': nat)
    requires B > 1 && s < B && x < B && b < B && c < B
    ensures e < B && c' < B && LimbStep(B, s, x, b, c, e, c')
  {
    hide Pair;
    var t := s * b + x + c;
    ProductRoom(B, s, b);
    e, c' := Halves(B, t);
  }

  lemma Halves(B: nat, t: nat) returns (e: nat, c': nat)
    requires B > 0 && t < B * B
    ensures e < B && c' < B && Pair(B, c', e) == t
  {
    PairOfTotal(B, t);
    e, c' := t % B, t / B;
  }

  /** Every kernel that settles its carry within the limb computes that, overlap or not. */
  method Run(t: Kernels.Target, H: nat, B: nat, a: array<nat>, s: nat, d: nat, n: nat, b: nat, c: nat)
    returns (s': nat, d': nat, c': nat)
    requires H > 1 && B == H * H && !t.PowerPc? && Ready(B, a, s, a, d, n, b, c)
    modifies a
    ensures s' == s + n && d' == d + n && (a[..], c') == InPlace(B, old(a[..]), s, d, n, b, c)
  {
    hide LimbStep, InPlace;
    s', d', c' := s, d, c;
    ghost var whole := InPlace(B, a[..], s, d, n, b, c);
    for i := 0 to n
      invariant s' == s + i && d' == d + i && c' < B && Digits(B, a[..])
      invariant InPlace(B, a[..], s', d', n - i, b, c') == whole
    {
      ghost var xs, c0 := a[..], c';
      s', d', c' := Kernels.Core(t, H, B, a, s', a, d', b, c');
      StepIs(B, xs, s + i, d + i, n - i, b, c0, a[d + i], c');
      assert a[..] == xs[d + i := a[d + i]];
    }
    RunDone(B, a[..], s', d', b, c');
  }

  /** The lazy kernel too: register and pending bit together are the carry of the recurrence. */
  method RunLazy(B: nat, a: array<nat>, s: nat, d: nat, n: nat, b: nat, c: nat)
    returns (s': nat, d': nat, c': nat)
    requires Ready(B, a, s, a, d, n, b, c)
    modifies a
    ensures s' == s + n && d' == d + n && (a[..], c') == InPlace(B, old(a[..]), s, d, n, b, c)
  {
    hide LimbStep, InPlace;
    ghost var whole := InPlace(B, a[..], s, d, n, b, c);
    var r5: nat, ca: nat := Adc(B, c, 0, 0);
    for i := 0 to n
      invariant ca <= 1 && r5 + ca < B && Digits(B, a[..])
      invariant InPlace(B, a[..], s + i, d + i, n - i, b, r5 + ca) == whole
    {
      ghost var xs, c0 := a[..], r5 + ca;
      var e;
      e, r5, ca := PowerPc.Core(B, a[s + i], a[d + i], b, r5, ca);
      StepIs(B, xs, s + i, d + i, n - i, b, c0, e, r5 + ca);
      a[d + i] := e;
      assert a[..] == xs[d + i := e];
    }
    var out;
    c', out := Adc(B, r5, 0, ca);
    s', d' := s + n, d + n;
    RunDone(B, a[..], s', d', b, c');
  }

  /** One limb of the 68020 block. */
  method Beat(B: nat, a: array<nat>, s: nat, d: nat, n: nat, b: nat, d3: nat, xf: nat) returns (d4: nat, xf': nat)
    requires 0 < n && Ready(B, a, s, a, d, n, b, 0) && xf <= 1 && d3 + xf < B
    modifies a
    ensures Digits(B, a[..]) && xf' <= 1 && d4 + xf' < B
    ensures InPlace(B, a[..], s + 1, d + 1, n - 1, b, d4 + xf') == InPlace(B, old(a[..]), s, d, n, b, d3 + xf)
  {
    hide InPlace;
    ghost var xs := a[..];
    var e;
    e, d4, xf' := M68kHuit.Beat(B, a[s], a[d], b, d3, xf);
    StepIs(B, xs, s, d, n, b, d3 + xf, e, d4 + xf');
    a[d] := e;
    assert a[..] == xs[d := e];
  }

  /** The 68020 block, entered with the extend flag clear: each limb is loaded after the last store. */
  method RunBeats(B: nat, a: array<nat>, s: nat, d: nat, b: nat, c: nat, xf: nat)
    returns (s': nat, d': nat, c': nat, xf': nat)
    requires Ready(B, a, s, a, d, 8, b, c) && xf == 0
    modifies a
    ensures s' == s + 8 && d' == d + 8 && (a[..], c') == InPlace(B, old(a[..]), s, d, 8, b, c) && xf' == 0
  {
    hide InPlace;
    ghost var whole := InPlace(B, a[..], s, d, 8, b, c);
    var d3: nat, d4: nat, flag: nat, i: nat := c, 0, xf, 0;
    while i < 8
      invariant i <= 8 && i % 2 == 0 && flag <= 1 && d3 + flag < B && Digits(B, a[..])
      invariant InPlace(B, a[..], s + i, d + i, 8 - i, b, d3 + flag) == whole
    {
      d4, flag := Beat(B, a, s + i, d + i, 8 - i, b, d3, flag);
      d3, flag := Beat(B, a, s + i + 1, d + i + 1, 7 - i, b, d4, flag);
      i := i + 2;
    }
    c', xf' := Adc(B, d3, 0, flag);
    s', d' := s + 8, d + 8;
    RunDone(B, a[..], s', d', b, c');
  }

  lemma RunDone(B: nat, a: seq<nat>, s: nat, d: nat, b: nat, c: nat)
    requires B > 0 && s <= |a| && d <= |a|
    ensures InPlace(B, a, s, d, 0, b, c) == (a, c)
  {
  }

  /** Limbs outside the destination are left alone. */
  lemma {:induction false} OnlyDestination(B: nat, a: seq<nat>, s: nat, d: nat, n: nat, b: nat, c: nat, k: nat)
    requires B > 0 && s + n <= |a| && d + n <= |a| && k < |a| && (k < d || d + n <= k)
    ensures InPlace(B, a, s, d, n, b, c).0[k] == a[k]
    decreases n
  {
    if n > 0 {
      var t := a[s] * b + a[d] + c;
      OnlyDestination(B, a[d := t % B], s + 1, d + 1, n - 1, b, t / B, k);
    }
  }

  ghost predicate OnCopy(B: nat, a: seq<nat>, s: nat, d: nat, n: nat, b: nat, c: nat)
    requires B > 0 && s + n <= |a| && d + n <= |a|
  {
    var (r, c') := InPlace(B, a, s, d, n, b, c);
    MulAdded(B, a[s..s + n], a[d..d + n], b, c, r[d..d + n], c')
  }

  lemma {:induction false} TrailingWrites(B: nat, a: seq<nat>, s: nat, d: nat, n: nat, b: nat, c: nat)
    requires B > 1 && s + n <= |a| && d + n <= |a| && Digits(B, a) && b < B && c < B
    requires d <= s || s + n <= d
    ensures OnCopy(B, a, s, d, n, b, c)
    decreases n
  {
    hide MulAdded, LimbStep, InPlace;
    if n == 0 {
      RunDone(B, a, s, d, b, c);
      MulAddedEmpty(B, b, c);
      assert a[s..s] == [] && a[d..d] == [];
    } else {
      var e, c1 := StepOf(B, a[s], a[d], b, c);
      var a1 := a[d := e];
      StepIs(B, a, s, d, n, b, c, e, c1);
      TrailingWrites(B, a1, s + 1, d + 1, n - 1, b, c1);
      OnlyDestination(B, a1, s + 1, d + 1, n - 1, b, c1, d);
      FirstStep(B, a, s, d, n, b, c, e, c1);
    }
  }

  lemma FirstStep(B: nat, a: seq<nat>, s: nat, d: nat, n: nat, b: nat, c: nat, e: nat, c1: nat)
    requires B > 1 && 0 < n && s + n <= |a| && d + n <= |a| && (d <= s || s + n <= d)
    requires LimbStep(B, a[s], a[d], b, c, e, c1)
    requires var (r, c') := InPlace(B, a[d := e], s + 1, d + 1, n - 1, b, c1);
             (r, c') == InPlace(B, a, s, d, n, b, c) && r[d] == e
    requires OnCopy(B, a[d := e], s + 1, d + 1, n - 1, b, c1)
    ensures OnCopy(B, a, s, d, n, b, c)
  {
    hide MulAdded, InPlace, LimbStep;
    var a1 := a[d := e];
    var (r, c') := InPlace(B, a1, s + 1, d + 1, n - 1, b, c1);
    Single(B, a[s], a[d], b, c, e, c1);
    var S, D, E := a[s + 1..s + n], a[d + 1..d + n], r[d + 1..d + n];
    assert a1[s + 1..s + n] == S && a1[d + 1..d + n] == D;
    MulAddedConcat(B, [a[s]], [a[d]], [e], c1, S, D, E, c', b, c);
    assert a[s..s + n] == [a[s]] + S && a[d..d + n] == [a[d]] + D && r[d..d + n] == [e] + E;
  }

  lemma Single(B: nat, s: nat, x: nat, b: nat, c: nat, e: nat, c': nat)
    requires LimbStep(B, s, x, b, c, e, c')
    ensures c' < B && MulAdded(B, [s], [x], b, c, [e], c')
  {
    AccumulatesSingle(B, s, x, b, c, e, c');
  }

  /** An array of zeros with a one under the source cursor. */
  function Marked(s: nat, len: nat): (a: seq<nat>)
    ensures |a| == len && forall k | 0 <= k < len :: a[k] == if k == s then 1 else 0
  {
    seq(len, k => if k == s then 1 else 0)
  }

  /** Reading zeros with no carry changes nothing. */
  lemma {:induction false} OverZeros(B: nat, a: seq<nat>, s: nat, d: nat, m: nat, n: nat)
    requires B > 1 && m <= n && s + n <= |a| && d + n <= |a| && Digits(B, a)
    requires forall k | s <= k < s + m :: a[k] == 0
    ensures InPlace(B, a, s, d, n, 1, 0) == InPlace(B, a, s + m, d + m, n - m, 1, 0)
    decreases m
  {
    if m > 0 {
      DivModUnique(a[d], B, 0, a[d]);
      assert a[d := a[d]] == a;
      OverZeros(B, a, s + 1, d + 1, m - 1, n - 1);
    }
  }

  lemma StepOverOne(B: nat, a: seq<nat>, s: nat, d: nat, n: nat)
    requires B > 1 && 0 < n && s + n <= |a| && d + n <= |a| && a[s] == 1 && a[d] == 0
    ensures InPlace(B, a, s, d, n, 1, 0) == InPlace(B, a[d := 1], s + 1, d + 1, n - 1, 1, 0)
  {
    DivModUnique(1, B, 0, 1);
  }

  /**
   * With the destination inside the source the one is copied forward and then read again: limb
   * d - s of the destination gets a one that the copy would not have given it.
   */
  lemma OverlapShows(B: nat, s: nat, d: nat, n: nat)
    requires B > 1 && s < d < s + n
    ensures !OnCopy(B, Marked(s, d + n), s, d, n, 1, 0)
  {
    hide MulAdded, InPlace;
    var a, g := Marked(s, d + n), d - s;
    StepOverOne(B, a, s, d, n);
    var a1 := a[d := 1];
    OverZeros(B, a1, s + 1, d + 1, g - 1, n - 1);
    StepOverOne(B, a1, d, d + g, n - g);
    var a2 := a1[d + g := 1];
    OnlyDestination(B, a2, d + 1, d + g + 1, n - g - 1, 1, 0, d + g);
    var (r, c') := InPlace(B, a, s, d, n, 1, 0);
    assert r[d + g] == 1;
    var E := r[d..d + n];
    assert E[g] == 1;
    if MulAdded(B, a[s..s + n], a[d..d + n], 1, 0, E, c') {
      CopyGivesOne(B, a[s..s + n], a[d..d + n], E, c', g);
    }
  }

  /** On a copy the result would be the source: a one and zeros. */
  lemma CopyGivesOne(B: nat, S: seq<nat>, D: seq<nat>, E: seq<nat>, c': nat, g: nat)
    requires B > 1 && |S| > 0 && |S| == |D| && 0 < g < |S| && S[0] == 1
    requires forall k | 0 < k < |S| :: S[k] == 0
    requires forall k | 0 <= k < |D| :: D[k] == 0
    requires MulAdded(B, S, D, 1, 0, E, c')
    ensures E[g] == 0
  {
    ValZeros(B, D);
    assert Digits(B, S);
    assert MulAdded(B, S, D, 1, 0, S, 0);
    MulAddedUnique(B, S, D, 1, 0, E, c', S, 0);
  }

  /**
   * Reads may overlap writes in one array exactly when the writes trail the reads or never reach
   * them: then every run is the run on a copy of the source, and otherwise some run is not.
   */
  lemma SafeOverlap(B: nat, s: nat, d: nat, n: nat)
    requires B > 1
    ensures (forall a: seq<nat>, b: nat, c: nat | s + n <= |a| && d + n <= |a| && Digits(B, a) && b < B && c < B ::
               OnCopy(B, a, s, d, n, b, c))
            <==> d <= s || s + n <= d
  {
    if d <= s || s + n <= d {
      forall a: seq<nat>, b: nat, c: nat | s + n <= |a| && d + n <= |a| && Digits(B, a) && b < B && c < B
        ensures OnCopy(B, a, s, d, n, b, c)
      {
        TrailingWrites(B, a, s, d, n, b, c);
      }
    } else {
      OverlapShows(B, s, d, n);
      var a := Marked(s, d + n);
      assert Digits(B, a) && !OnCopy(B, a, s, d, n, 1, 0);
    }
  }

  // ----- the SSE2 block -----

  /** The source limbs as the recurrence reads them. */
  ghost function Reads(B: nat, a: seq<nat>, s: nat, d: nat, n: nat, b: nat, c: nat): (S: seq<nat>)
    requires B > 0 && s + n <= |a| && d + n <= |a|
    ensures |S| == n
    decreases n
  {
    if n == 0 then []
    else
      var t := a[s] * b + a[d] + c;
      [a[s]] + Reads(B, a[d := t % B], s + 1, d + 1, n - 1, b, t / B)
  }

  /** On them it is a run, wherever source and destination lie. */
  lemma {:induction false} RunOnReads(B: nat, a: seq<nat>, s: nat, d: nat, n: nat, b: nat, c: nat)
    requires B > 1 && s + n <= |a| && d + n <= |a| && Digits(B, a) && b < B && c < B
    ensures var (r, c') := InPlace(B, a, s, d, n, b, c);
            MulAdded(B, Reads(B, a, s, d, n, b, c), a[d..d + n], b, c, r[d..d + n], c')
    decreases n
  {
    hide MulAdded, LimbStep;
    if n == 0 {
      MulAddedEmpty(B, b, c);
      assert a[d..d] == [];
    } else {
      var e, c1 := StepOf(B, a[s], a[d], b, c);
      StepValues(B, a[s], a[d], b, c, e, c1);
      var a1 := a[d := e];
      var (r, c') := InPlace(B, a1, s + 1, d + 1, n - 1, b, c1);
      RunOnReads(B, a1, s + 1, d + 1, n - 1, b, c1);
      OnlyDestination(B, a1, s + 1, d + 1, n - 1, b, c1, d);
      Single(B, a[s], a[d], b, c, e, c1);
      var S, D, E := Reads(B, a1, s + 1, d + 1, n - 1, b, c1), a[d + 1..d + n], r[d + 1..d + n];
      assert a1[d + 1..d + n] == D;
      MulAddedConcat(B, [a[s]], [a[d]], [e], c1, S, D, E, c', b, c);
      assert a[d..d + n] == [a[d]] + D && r[d..d + n] == [e] + E;
    }
  }

  lemma StepValues(B: nat, s: nat, x: nat, b: nat, c: nat, e: nat, c': nat)
    requires B > 0 && LimbStep(B, s, x, b, c, e, c')
    ensures e == (s * b + x + c) % B && c' == (s * b + x + c) / B
  {
    DivModUnique(s * b + x + c, B, c', e);
  }

  /** A limb that was stored before it is read is read as it was stored, and any other as it was. */
  lemma {:induction false} ReadsAre(B: nat, a: seq<nat>, s: nat, d: nat, n: nat, b: nat, c: nat, k: nat)
    requires B > 0 && s + n <= |a| && d + n <= |a| && k < n
    ensures Reads(B, a, s, d, n, b, c)[k] ==
              if s < d <= s + k then InPlace(B, a, s, d, n, b, c).0[s + k] else a[s + k]
    decreases n
  {
    var t := a[s] * b + a[d] + c;
    var a1 := a[d := t % B];
    if k > 0 {
      ReadsAre(B, a1, s + 1, d + 1, n - 1, b, t / B, k - 1);
      OnlyDestination(B, a1, s + 1, d + 1, n - 1, b, t / B, d);
    }
  }

  /** What the SSE2 block leaves in one array, S being the source limbs as they were loaded. */
  ghost predicate BlockRan(B: nat, a: seq<nat>, s: nat, d: nat, b: nat, c: nat, r: seq<nat>, c': nat, S: seq<nat>)
    requires s + 8 <= |a| && d + 8 <= |a|
  {
    && |r| == |a| && (forall k | 0 <= k < |a| && !(d <= k < d + 8) :: r[k] == a[k])
    && Sse2.Loaded(true, s, d, a, r[d], r[d + 1], S)
    && MulAdded(B, S, a[d..d + 8], b, c, r[d..d + 8], c')
  }

  ghost predicate BlockLeaves(B: nat, a: seq<nat>, s: nat, d: nat, b: nat, c: nat, r: seq<nat>, c': nat)
    requires s + 8 <= |a| && d + 8 <= |a|
  {
    exists S: seq<nat> :: BlockRan(B, a, s, d, b, c, r, c', S)
  }

  method RunBlock(B: nat, a: array<nat>, s: nat, d: nat, b: nat, c: nat) returns (s': nat, d': nat, c': nat)
    requires Ready(B, a, s, a, d, 8, b, c)
    modifies a
    ensures s' == s + 8 && d' == d + 8 && BlockLeaves(B, old(a[..]), s, d, b, c, a[..], c')
    ensures d <= s || s + 6 <= d ==> (a[..], c') == InPlace(B, old(a[..]), s, d, 8, b, c)
  {
    hide MulAdded;
    ghost var S;
    ghost var xs := a[..];
    s', d', c', S := Sse2.Block(B, a, s, a, d, b, c);
    assert BlockRan(B, xs, s, d, b, c, a[..], c', S);
    if d <= s || s + 6 <= d {
      LateEnough(B, xs, s, d, b, c);
      var (r, c1) := InPlace(B, xs, s, d, 8, b, c);
      BlockOnce(B, xs, s, d, b, c, a[..], c', r, c1);
    }
  }

  /** The first limbs of a result depend on the first limbs of the source alone. */
  lemma PrefixValue(B: nat, S: seq<nat>, D: seq<nat>, b: nat, c: nat, E: seq<nat>, c': nat, k: nat)
    requires B > 0 && k <= |S| && MulAdded(B, S, D, b, c, E, c')
    ensures Val(B, E[..k]) == (Val(B, D[..k]) + b * Val(B, S[..k]) + c) % Pow(B, k)
  {
    hide Val, Pow;
    var P, Q := Pow(B, k), Pow(B, |S| - k);
    ValSplit(B, S, k);
    ValSplit(B, D, k);
    ValSplit(B, E, k);
    PowAdd(B, k, |S| - k);
    ValBound(B, E[..k]);
    var x, y := Val(B, S[k..]), Val(B, D[k..]);
    LowPart(P, Q, b, c, Val(B, S[..k]), x, Val(B, D[..k]), y, Val(B, E[..k]), Val(B, E[k..]), c');
  }

  lemma LowPart(P: nat, Q: nat, b: nat, c: nat, s: nat, x: nat, d: nat, y: nat, e: nat, z: nat, c': nat)
    requires e < P && (e + P * z) + c' * (P * Q) == (d + P * y) + b * (s + P * x) + c
    ensures e == (d + b * s + c) % P
  {
    var t := d + b * s + c;
    assert b * (s + P * x) == b * s + (b * x) * P;
    assert c' * (P * Q) == (c' * Q) * P;
    assert t == (z + c' * Q - y - b * x) * P + e;
    DivModUnique(t, P, z + c' * Q - y - b * x, e);
  }

  /** So the block leaves one result: what it loads late comes from limbs it stored early. */
  lemma BlockOnce(B: nat, a: seq<nat>, s: nat, d: nat, b: nat, c: nat, r: seq<nat>, c1: nat, q: seq<nat>, c2: nat)
    requires B > 1 && s + 8 <= |a| && d + 8 <= |a|
    requires BlockLeaves(B, a, s, d, b, c, r, c1) && BlockLeaves(B, a, s, d, b, c, q, c2)
    ensures r == q && c1 == c2
  {
    hide MulAdded, Pow, Val;
    var S: seq<nat> :| BlockRan(B, a, s, d, b, c, r, c1, S);
    var T: seq<nat> :| BlockRan(B, a, s, d, b, c, q, c2, T);
    var D, E, F := a[d..d + 8], r[d..d + 8], q[d..d + 8];
    assert S[..2] == T[..2];
    PrefixValue(B, S, D, b, c, E, c1, 2);
    PrefixValue(B, T, D, b, c, F, c2, 2);
    TwoDigits(B, S, T, D, b, c, E, c1, F, c2);
    assert r[d] == E[..2][0] == q[d] && r[d + 1] == E[..2][1] == q[d + 1];
    assert S == T;
    MulAddedUnique(B, S, D, b, c, E, c1, F, c2);
    forall k | 0 <= k < |a|
      ensures r[k] == q[k]
    {
      if d <= k < d + 8 {
        assert r[k] == E[k - d] && q[k] == F[k - d];
      }
    }
  }

  lemma TwoDigits(B: nat, S: seq<nat>, T: seq<nat>, D: seq<nat>, b: nat, c: nat,
                  E: seq<nat>, c1: nat, F: seq<nat>, c2: nat)
    requires |S| == 8 && MulAdded(B, S, D, b, c, E, c1) && MulAdded(B, T, D, b, c, F, c2)
    requires Val(B, E[..2]) == Val(B, F[..2])
    ensures E[..2] == F[..2]
  {
    hide Val;
    assert Digits(B, E[..2]) && Digits(B, F[..2]);
    ValInjective(B, E[..2], F[..2]);
  }

  /** From six limbs apart the late loads are late enough. */
  lemma LateEnough(B: nat, a: seq<nat>, s: nat, d: nat, b: nat, c: nat)
    requires B > 1 && s + 8 <= |a| && d + 8 <= |a| && Digits(B, a) && b < B && c < B && (d <= s || s + 6 <= d)
    ensures var (r, c') := InPlace(B, a, s, d, 8, b, c); BlockLeaves(B, a, s, d, b, c, r, c')
  {
    hide MulAdded, InPlace, Reads;
    var (r, c') := InPlace(B, a, s, d, 8, b, c);
    var S := Reads(B, a, s, d, 8, b, c);
    RunOnReads(B, a, s, d, 8, b, c);
    forall k | 0 <= k < |a| && !(d <= k < d + 8)
      ensures r[k] == a[k]
    {
      OnlyDestination(B, a, s, d, 8, b, c, k);
    }
    forall k | 0 <= k < 8
      ensures S[k] == if s < d <= s + k then r[s + k] else a[s + k]
    {
      ReadsAre(B, a, s, d, 8, b, c, k);
    }
    assert BlockRan(B, a, s, d, b, c, r, c', S);
  }

  /** Closer than that, a limb is loaded before the store it should have waited for. */
  lemma TooEarly(B: nat, s: nat, d: nat) returns (a: seq<nat>)
    requires B > 1 && s < d < s + 6
    ensures |a| == d + 8 && Digits(B, a)
    ensures var (r, c') := InPlace(B, a, s, d, 8, 1, 0); !BlockLeaves(B, a, s, d, 1, 0, r, c')
  {
    hide InPlace, BlockLeaves;
    var g := d - s;
    var j := if g < 4 then 0 else 1;
    a := Marked(s + j, d + 8);
    var (r, c') := InPlace(B, a, s, d, 8, 1, 0);
    if j == 1 {
      OverZeros(B, a, s, d, 1, 8);
    }
    StepOverOne(B, a, s + j, d + j, 8 - j);
    OnlyDestination(B, a[d + j := 1], s + j + 1, d + j + 1, 7 - j, 1, 0, d + j);
    assert r[d + j] == 1 && a[d + j] == 0;
    assert Digits(B, a);
    if BlockLeaves(B, a, s, d, 1, 0, r, c') {
      SameReads(B, a, s, d, r, c', g + j);
    }
  }

  /** With a multiplier of one the result shows every limb that was read. */
  lemma SameReads(B: nat, a: seq<nat>, s: nat, d: nat, r: seq<nat>, c': nat, k: nat)
    requires B > 1 && s < d && s + 8 <= |a| && d + 8 <= |a| && Digits(B, a)
    requires (r, c') == InPlace(B, a, s, d, 8, 1, 0) && BlockLeaves(B, a, s, d, 1, 0, r, c')
    requires k < 8 && d <= s + k && !(k >= 4 && s + k == d) && !(k == 7 && s + k == d + 1)
    ensures r[s + k] == a[s + k]
  {
    hide InPlace, Reads, Val;
    var S: seq<nat> :| BlockRan(B, a, s, d, 1, 0, r, c', S);
    var T := Reads(B, a, s, d, 8, 1, 0);
    RunOnReads(B, a, s, d, 8, 1, 0);
    ReadsAre(B, a, s, d, 8, 1, 0, k);
    LoadedDigits(B, a, s, d, r, S);
    ReadsDigits(B, a, s, d, 8, 1, 0);
    ValInjective(B, S, T);
  }

  lemma LoadedDigits(B: nat, a: seq<nat>, s: nat, d: nat, r: seq<nat>, S: seq<nat>)
    requires Digits(B, a) && |r| == |a| && d + 8 <= |a| && Digits(B, r[d..d + 8])
    requires Sse2.Loaded(true, s, d, a, r[d], r[d + 1], S)
    ensures Digits(B, S)
  {
    assert r[d] == r[d..d + 8][0] && r[d + 1] == r[d..d + 8][1];
  }

  lemma {:induction false} ReadsDigits(B: nat, a: seq<nat>, s: nat, d: nat, n: nat, b: nat, c: nat)
    requires B > 0 && s + n <= |a| && d + n <= |a| && Digits(B, a)
    ensures Digits(B, Reads(B, a, s, d, n, b, c))
    decreases n
  {
    if n > 0 {
      var t := a[s] * b + a[d] + c;
      ReadsDigits(B, a[d := t % B], s + 1, d + 1, n - 1, b, t / B);
    }
  }

  /**
   * In one array the SSE2 block is eight single steps exactly when the destination is not one to
   * five limbs above the source.
   */
  lemma BlockInPlace(B: nat, s: nat, d: nat)
    requires B > 1
    ensures (forall a: seq<nat>, b: nat, c: nat |
               s + 8 <= |a| && d + 8 <= |a| && Digits(B, a) && b < B && c < B ::
               var (r, c') := InPlace(B, a, s, d, 8, b, c); BlockLeaves(B, a, s, d, b, c, r, c'))
            <==> d <= s || s + 6 <= d
  {
    hide BlockLeaves, InPlace;
    if d <= s || s + 6 <= d {
      forall a: seq<nat>, b: nat, c: nat | s + 8 <= |a| && d + 8 <= |a| && Digits(B, a) && b < B && c < B
        ensures var (r, c') := InPlace(B, a, s, d, 8, b, c); BlockLeaves(B, a, s, d, b, c, r, c')
      {
        LateEnough(B, a, s, d, b, c);
      }
    } else {
      var a := TooEarly(B, s, d);
      var (r, c') := InPlace(B, a, s, d, 8, 1, 0);
      assert !BlockLeaves(B, a, s, d, 1, 0, r, c');
    }
  }
}
