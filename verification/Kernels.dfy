/**
 * The choice the preprocessor makes: one kernel per target. Every target's run meets the same
 * specification, so they all leave the same limbs and the same carry.
 */
module Kernels {
  import opened Limbs
  import opened MulAdd
  import opened Machine
  import CKernels
  import WordKernels
  import HalfWordKernels
  import PowerPc
  import Sse2
  import M68kHuit

  datatype Target =
    | CDouble | CGeneric
    | I386 | I386Sse2 | Amd64 | M68020 | Arm | TriCore | Alpha | Mips
    | MicroBlaze | Thumb
    | PowerPc
  {
    /** Whether MULADDC_HUIT is defined. */
    predicate HasHuit() {
      I386Sse2? || M68020?
    }
  }

  /** One MULADDC_CORE of a target that settles its carry within the limb. */
  method Core(t: Target, H: nat, B: nat, src: array<nat>, s: nat, dst: array<nat>, d: nat, b: nat, c: nat)
    returns (s': nat, d': nat, c': nat)
    requires H > 1 && B == H * H && !t.PowerPc? && Ready(B, src, s, dst, d, 1, b, c)
    modifies dst
    ensures Digits(B, dst[..]) && Stepped(B, src, s, dst, d, b, c, s', d', c')
  {
    hide Pair;
    var x, y, e := src[s], dst[d], 0;
    match t {
      case CDouble => e, c' := CKernels.DoubleWidth(B, x, y, b, c);
      case CGeneric => e, c' := CKernels.HalfWord(H, B, x, y, b, c);
      case I386 => e, c' := WordKernels.I386(B, x, y, b, c);
      case I386Sse2 => e, c' := WordKernels.I386(B, x, y, b, c);
      case Amd64 => e, c' := WordKernels.Amd64(B, x, y, b, c, 0);
      case M68020 => e, c' := WordKernels.M68020(B, x, y, b, c);
      case Arm => e, c' := WordKernels.Arm(B, x, y, b, c);
      case TriCore => e, c' := WordKernels.TriCore(B, x, y, b, c, 0);
      case Alpha => e, c' := WordKernels.Alpha(B, x, y, b, c);
      case Mips => e, c' := WordKernels.Mips(B, x, y, b, c);
      case MicroBlaze => e, c' := HalfWordKernels.MicroBlaze(H, B, x, y, b, c);
      case Thumb => e, c' := HalfWordKernels.Thumb(H, B, x, y, b, c);
    }
    dst[d] := e;
    s', d' := s + 1, d + 1;
  }

  /** MULADDC_INIT, n times MULADDC_CORE, MULADDC_STOP. */
  method Burst(t: Target, H: nat, B: nat, src: array<nat>, s: nat, dst: array<nat>, d: nat, n: nat, b: nat, c: nat)
    returns (s': nat, d': nat, c': nat)
    requires H > 1 && B == H * H && Ready(B, src, s, dst, d, n, b, c) && NoClobber(src, s, dst, d, n)
    modifies dst
    ensures Digits(B, dst[..]) && Ran(B, src, s, dst, d, n, b, c, s', d', c')
  {
    if t.PowerPc? {
      s', d', c' := PowerPc.Burst(B, src, s, dst, d, n, b, c);
      return;
    }
    hide MulAdded, LimbStep;
    ghost var S, D, E := src[s..s + n], dst[d..d + n], [];
    s', d', c' := s, d, c;
    MulAddedEmpty(B, b, c);
    for i := 0 to n
      invariant s' == s + i && d' == d + i && c' < B
      invariant |E| == i && MulAdded(B, S[..i], D[..i], b, c, E, c')
      invariant forall k | 0 <= k < i :: dst[d + k] == E[k]
      invariant forall k | 0 <= k < dst.Length && !(d <= k < d + i) :: dst[k] == old(dst[k])
      invariant Digits(B, dst[..]) && Digits(B, src[..])
    {
      assert src[s'] == S[i] && dst[d'] == D[i];
      ghost var r := c';
      s', d', c' := Core(t, H, B, src, s', dst, d', b, c');
      MulAddedNext(B, S, D, i, b, c, E, r, dst[d + i], c');
      E := E + [dst[d + i]];
    }
    assert S[..n] == S && D[..n] == D && dst[d..d + n] == E;
  }

  /** MULADDC_INIT, MULADDC_HUIT, MULADDC_STOP. On the 68020 the extend flag has to be clear. */
  method Huit(t: Target, B: nat, src: array<nat>, s: nat, dst: array<nat>, d: nat, b: nat, c: nat, xf: nat)
    returns (s': nat, d': nat, c': nat, xf': nat)
    requires t.HasHuit() && Ready(B, src, s, dst, d, 8, b, c) && NoClobber(src, s, dst, d, 8) && xf == 0
    modifies dst
    ensures Digits(B, dst[..]) && Ran(B, src, s, dst, d, 8, b, c, s', d', c') && xf' == 0
  {
    if t.I386Sse2? {
      s', d', c' := Sse2.Huit(B, src, s, dst, d, b, c);
      xf' := xf;
    } else {
      s', d', c', xf' := M68kHuit.Huit(B, src, s, dst, d, b, c, xf);
    }
  }
}
