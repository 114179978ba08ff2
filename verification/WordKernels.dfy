/**
 * The assembly kernels that multiply whole words and settle the carry within the limb. Locals
 * carry the names of the registers; s, x, b and c are as in CKernels.
 */
module WordKernels {
  import opened MulAdd
  import opened Machine
  import opened CKernels

  /** i386 (and the same instructions under MSVC and Watcom): two add/adc pairs. */
  method I386(B: nat, s: nat, x: nat, ebx: nat, c: nat) returns (e: nat, c': nat)
    requires B > 1 && s < B && x < B && ebx < B && c < B
    ensures LimbStep(B, s, x, ebx, c, e, c')
  {
    hide Pair;
    var ecx := c;
    Room(B, s, ebx, x, c);
    var edx, eax := MulWide(B, s, ebx);
    edx, eax := AddCarry(B, edx, eax, ecx, s * ebx);
    edx, eax := AddCarry(B, edx, eax, x, s * ebx + ecx);
    ecx := edx;
    return eax, ecx;
  }

  /** x86-64: the second carry is gathered into rcx, cleared by moving the zero kept in r8. */
  method Amd64(B: nat, s: nat, x: nat, rbx: nat, c: nat, r8: nat) returns (e: nat, c': nat)
    requires B > 1 && s < B && x < B && rbx < B && c < B && r8 == 0
    ensures LimbStep(B, s, x, rbx, c, e, c')
  {
    hide Pair;
    var rcx, cf, out := c, 0, 0;
    Room(B, s, rbx, x, c);
    var rdx, rax := MulWide(B, s, rbx);
    ghost var hi, lo := rdx, rax;
    rax, cf := Adc(B, rax, rcx, 0);
    CarryFits(B, hi, lo, c, rax, cf);
    rcx := r8;
    rdx, out := Adc(B, rdx, 0, cf);
    lo := rax;
    e, cf := Adc(B, x, rax, 0);
    CarryFits(B, rdx, lo, x, e, cf);
    rcx, out := Adc(B, rcx, rdx, cf);
    return e, rcx;
  }

  /** 68020: add and addx, with d0 holding zero and d3 cleared before it takes the last carry. */
  method M68020(B: nat, s: nat, x: nat, d2: nat, c: nat) returns (e: nat, c': nat)
    requires B > 1 && s < B && x < B && d2 < B && c < B
    ensures LimbStep(B, s, x, d2, c, e, c')
  {
    hide Pair;
    var d0, d3, xf, out := 0, c, 0, 0;
    Room(B, s, d2, x, c);
    var d4, d1 := MulWide(B, s, d2);
    ghost var hi, lo := d4, d1;
    d1, xf := Adc(B, d1, d3, 0);
    CarryFits(B, hi, lo, c, d1, xf);
    d4, out := Adc(B, d4, d0, xf);
    d3 := 0;
    lo := d1;
    e, xf := Adc(B, x, d1, 0);
    CarryFits(B, d4, lo, x, e, xf);
    d3, out := Adc(B, d3, d4, xf);
    return e, d3;
  }

  /** ARM: umlal takes the carry limb in as the low accumulator word, over a zeroed high word. */
  method Arm(B: nat, s: nat, x: nat, r3: nat, c: nat) returns (e: nat, c': nat)
    requires B > 1 && s < B && x < B && r3 < B && c < B
    ensures LimbStep(B, s, x, r3, c, e, c')
  {
    hide Pair;
    var r2, r4, r5, r6, cf, out := c, s, 0, x, 0, 0;
    Room(B, s, r3, x, c);
    PairOfWord(B, r2);
    assert r3 * r4 == s * r3;
    r5, r2 := MulAccumulate(B, r5, r2, r3, r4);
    ghost var lo := r2;
    var r7;
    r7, cf := Adc(B, r6, r2, 0);
    CarryFits(B, r5, lo, x, r7, cf);
    r2, out := Adc(B, r5, 0, cf);
    return r7, r2;
  }

  /** TriCore: madd.u over the pair d5:d4, whose high word d5 was cleared once and stays zero. */
  method TriCore(B: nat, s: nat, x: nat, d1: nat, c: nat, d5: nat) returns (e: nat, c': nat)
    requires B > 1 && s < B && x < B && d1 < B && c < B && d5 == 0
    ensures LimbStep(B, s, x, d1, c, e, c')
  {
    hide Pair;
    var d4, d0, cf, out := c, s, 0, 0;
    Room(B, s, d1, x, c);
    PairOfWord(B, d4);
    var d3, d2 := MulAccumulate(B, d5, d4, d0, d1);
    d0 := x;
    ghost var lo := d2;
    d2, cf := Adc(B, d2, d0, 0);
    CarryFits(B, d3, lo, x, d2, cf);
    d3, out := Adc(B, d3, 0, cf);
    d4 := d3;
    return d2, d4;
  }

  /** Alpha: no flags; both carries are recovered by cmpult and added to the high word at the end. */
  method Alpha(B: nat, s: nat, x: nat, r4: nat, c: nat) returns (e: nat, c': nat)
    requires B > 1 && s < B && x < B && r4 < B && c < B
    ensures LimbStep(B, s, x, r4, c, e, c')
  {
    hide Pair;
    var r3 := c;
    Room(B, s, r4, x, c);
    var r6, r7 := MulWide(B, s, r4);
    ghost var lo := r7;
    r7 := AddWrap(B, r7, r3);
    r3 := Less(r7, r3);
    CarryFits(B, r6, lo, c, r7, r3);
    ghost var mid := r7;
    var r5 := x;
    r7 := AddWrap(B, r7, r5);
    r5 := Less(r7, r5);
    CarryFits(B, r6 + r3, mid, x, r7, r5);
    e := r7;
    r3 := AddWrap(B, r6, r3);
    r3 := AddWrap(B, r5, r3);
    return e, r3;
  }

  /** MIPS: the same with sltu, comparing the sums against the other operands. */
  method Mips(B: nat, s: nat, x: nat, r13: nat, c: nat) returns (e: nat, c': nat)
    requires B > 1 && s < B && x < B && r13 < B && c < B
    ensures LimbStep(B, s, x, r13, c, e, c')
  {
    hide Pair;
    var r12 := c;
    Room(B, s, r13, x, c);
    var r9, r14 := MulWide(B, r13, s);
    ghost var lo := r14;
    r14 := AddWrap(B, r12, r14);
    var r15 := x;
    r12 := Less(r14, r12);
    CarryFits(B, r9, lo, c, r14, r12);
    ghost var mid := r14;
    r15 := AddWrap(B, r14, r15);
    r14 := Less(r15, r14);
    CarryFits(B, r9 + r12, mid, x, r15, r14);
    r12 := AddWrap(B, r12, r9);
    e := r15;
    r12 := AddWrap(B, r12, r14);
    return e, r12;
  }
}
