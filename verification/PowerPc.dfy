/**
 * The PowerPC kernel. It never settles the last carry of a limb: the CA bit stays pending and is
 * folded into the next limb's first addition, or into the carry register when the run stops.
 */
module PowerPc {
  import opened Limbs
  import opened MulAdd
  import opened Machine
  import opened CKernels

  /**
   * One MULADDC_CORE. Register carry plus pending bit is what an eager kernel would hold as its
   * carry limb, both coming in and going out, and addze never overflows r5.
   */
  method Core(B: nat, s: nat, x: nat, r6: nat, r5: nat, ca: nat) returns (e: nat, r5': nat, ca': nat)
    requires B > 1 && s < B && x < B && r6 < B && ca <= 1 && r5 + ca < B
    ensures e < B && ca' <= 1 && r5' + ca' < B && LimbStep(B, s, x, r6, r5 + ca, e, r5' + ca')
  {
    hide Pair;
    var r7, r8, r9 := s, 0, 0;
    Room(B, s, r6, x, r5 + ca);
    r9, r8 := MulWide(B, r7, r6);
    ghost var hi, lo := r9, r8;
    r8, ca' := Adc(B, r8, r5, ca);
    CarryFits(B, hi, lo, r5 + ca, r8, ca');
    r7 := x;
    r5', ca' := Adc(B, r9, 0, ca');
    assert ca' == 0;
    lo := r8;
    r8, ca' := Adc(B, r8, r7, 0);
    CarryFits(B, r5', lo, x, r8, ca');
    e := r8;
  }

  /** Limb i of a run in memory; S and D are the vectors as the run found them. */
  method CoreAt(B: nat, src: array<nat>, s: nat, dst: array<nat>, d: nat, i: nat, b: nat, r5: nat, ca: nat,
                ghost c: nat, ghost S: seq<nat>, ghost D: seq<nat>)
    returns (r5': nat, ca': nat)
    requires i < |S| == |D| && B > 1 && b < B && ca <= 1 && r5 + ca < B
    requires s + i < src.Length && d + i < dst.Length && src[s + i] == S[i] < B && dst[d + i] == D[i] < B
    requires MulAdded(B, S[..i], D[..i], b, c, dst[d..d + i], r5 + ca)
    modifies dst
    ensures ca' <= 1 && r5' + ca' < B && dst[d + i] < B
    ensures dst[..] == old(dst[..])[d + i := dst[d + i]]
    ensures MulAdded(B, S[..i + 1], D[..i + 1], b, c, dst[d..d + i + 1], r5' + ca')
  {
    hide MulAdded, LimbStep;
    ghost var E := dst[d..d + i];
    var e;
    e, r5', ca' := Core(B, src[s + i], dst[d + i], b, r5, ca);
    MulAddedNext(B, S, D, i, b, c, E, r5 + ca, e, r5' + ca');
    dst[d + i] := e;
    assert dst[d..d + i + 1] == E + [e];
  }

  /** MULADDC_INIT clears the pending bit, n cores run, MULADDC_STOP folds the bit into r5. */
  method Burst(B: nat, src: array<nat>, s: nat, dst: array<nat>, d: nat, n: nat, b: nat, c: nat)
    returns (s': nat, d': nat, c': nat)
    requires Ready(B, src, s, dst, d, n, b, c) && NoClobber(src, s, dst, d, n)
    modifies dst
    ensures Digits(B, dst[..]) && Ran(B, src, s, dst, d, n, b, c, s', d', c')
  {
    hide MulAdded;
    ghost var S, D := src[s..s + n], dst[d..d + n];
    var r5: nat, ca: nat := Adc(B, c, 0, 0);
    MulAddedEmpty(B, b, c);
    assert S[..0] == D[..0] == dst[d..d + 0] == [];
    for i := 0 to n
      invariant ca <= 1 && r5 + ca < B
      invariant MulAdded(B, S[..i], D[..i], b, c, dst[d..d + i], r5 + ca)
      invariant forall k | i <= k < n :: src[s + k] == S[k] && dst[d + k] == D[k]
      invariant forall k | 0 <= k < dst.Length && !(d <= k < d + i) :: dst[k] == old(dst[k])
      invariant Digits(B, dst[..])
    {
      r5, ca := CoreAt(B, src, s, dst, d, i, b, r5, ca, c, S, D);
    }
    assert S[..n] == S && D[..n] == D;
    var out;
    c', out := Adc(B, r5, 0, ca);
    s', d' := s + n, d + n;
  }
}
