/**
 * The assembly kernels of machines that only multiply half words: the split of the portable
 * kernel, but with carry flags and with c and the destination limb added in other orders.
 */
module HalfWordKernels {
  import opened MulAdd
  import opened Machine
  import opened CKernels

  /** MicroBlaze: middle products, then the destination limb, then the carry limb. */
  method MicroBlaze(H: nat, B: nat, s: nat, x: nat, b: nat, c: nat) returns (e: nat, c': nat)
    requires B == H * H && H > 1 && s < B && x < B && b < B && c < B
    ensures LimbStep(B, s, x, b, c, e, c')
  {
    hide Pair;
    var r7, r6 := MaskAndShift(H, b);
    var r9, r8 := MaskAndShift(H, s);
    var r5 := c;
    Room(B, s, b, x, c);
    var r13, r12, r10, r11 := MicroBlazeProducts(H, r8, r9, r6, r7);
    r13, r12 := AddCarry(B, r13, r12, r10, s * b - r10 - r11);
    r13, r12 := AddCarry(B, r13, r12, r11, s * b - r11);
    r10 := x;
    r13, r12 := AddCarry(B, r13, r12, r10, s * b);
    r5, r12 := AddCarry(B, r13, r12, r5, s * b + x);
    return r12, r5;
  }

  /** The half words of a register, by mask and by shift, or of a limb, by two half-word loads. */
  method MaskAndShift(H: nat, x: nat) returns (low: nat, high: nat)
    requires H > 0 && x < H * H
    ensures low < H && high < H && x == high * H + low
  {
    ShiftUpKeepsLow(H, x);
    low, high := x % H, High(H, x);
  }

  method MicroBlazeProducts(H: nat, s1: nat, s0: nat, b1: nat, b0: nat)
    returns (r13: nat, r12: nat, r10: nat, r11: nat)
    requires H > 1 && s1 < H && s0 < H && b1 < H && b0 < H
    ensures r13 < H * H && r12 < H * H && r10 < H * H && r11 < H * H
    ensures Pair(H * H, r13, r12) + r10 + r11 == (s1 * H + s0) * (b1 * H + b0)
  {
    hide Pair, High, ShiftUp, LowProduct;
    var B, out := H * H, 0;
    PartialProducts(H, B, s1, s0, b1, b0);
    r10 := LowProduct(B, s0, b1);
    r11 := LowProduct(B, s1, b0);
    r12 := LowProduct(B, s0, b0);
    r13 := LowProduct(B, s1, b1);
    var r8, r9 := High(H, r10), High(H, r11);
    r13, out := Adc(B, r13, r8, 0);
    r13, out := Adc(B, r13, r9, 0);
    r10, r11 := ShiftUp(H, r10), ShiftUp(H, r11);
  }

  /** Thumb: the carry limb first, then the middle products, then the destination limb. */
  method Thumb(H: nat, B: nat, s: nat, x: nat, b: nat, c: nat) returns (e: nat, c': nat)
    requires B == H * H && H > 1 && s < B && x < B && b < B && c < B
    ensures LimbStep(B, s, x, b, c, e, c')
  {
    hide Pair;
    var r8, r9 := SplitWord(H, b);
    var r6, r7 := SplitWord(H, s);
    var r2, r3, r4, r5 := c, 0, 0, 0;
    Room(B, s, b, x, c);
    r5, r4, r6, r7 := ThumbProducts(H, r7, r6, r9, r8);
    r3, r4, r5, r2 := ThumbSums(B, r5, r4, r6, r7, r2, x, s * b);
    return r4, r2;
  }

  method ThumbSums(B: nat, hi: nat, lo: nat, r6: nat, r7: nat, c: nat, x: nat, ghost product: nat)
    returns (r3: nat, r4: nat, r5: nat, r2: nat)
    requires lo < B && r6 < B && r7 < B && c < B && x < B
    requires Pair(B, hi, lo) + r6 + r7 == product && product + c + x < B * B
    ensures r2 < B && r4 < B && Pair(B, r2, r4) == product + x + c
  {
    hide Pair;
    r5, r4 := AddCarry(B, hi, lo, c, product - r6 - r7);
    r3 := r6;
    r5, r4 := AddCarry(B, r5, r4, r3, product + c - r6 - r7);
    r3 := r7;
    r5, r4 := AddCarry(B, r5, r4, r3, product + c - r7);
    r3 := x;
    var cf, out;
    ghost var low := r4;
    r4, cf := Adc(B, r4, r3, 0);
    CarryFits(B, r5, low, x, r4, cf);
    r2, out := Adc(B, 0, r5, cf);
  }

  method ThumbProducts(H: nat, s1: nat, s0: nat, b1: nat, b0: nat)
    returns (r5: nat, r4: nat, r6: nat, r7: nat)
    requires H > 1 && s1 < H && s0 < H && b1 < H && b0 < H
    ensures r5 < H * H && r4 < H * H && r6 < H * H && r7 < H * H
    ensures Pair(H * H, r5, r4) + r6 + r7 == (s1 * H + s0) * (b1 * H + b0)
  {
    hide Pair, High, ShiftUp, LowProduct;
    var B := H * H;
    PartialProducts(H, B, s1, s0, b1, b0);
    r7, r6 := s1, s0;
    r4 := LowProduct(B, b0, r6);
    r6 := LowProduct(B, r6, b1);
    r5 := LowProduct(B, b1, r7);
    r7 := LowProduct(B, r7, b0);
    var r3 := High(H, r6);
    r5 := AddWrap(B, r5, r3);
    r3 := High(H, r7);
    r5 := AddWrap(B, r5, r3);
    r6, r7 := ShiftUp(H, r6), ShiftUp(H, r7);
  }
}
