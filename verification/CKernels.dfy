/**
 * The two portable C kernels. A call is the arithmetic of one MULADDC_CORE: s is the limb read
 * through the source pointer, x the limb under the destination pointer, e the limb stored there.
 */
module CKernels {
  import opened Powers
  import opened MulAdd
  import opened Machine

  /** With a double-width type: one wide product, then two carries recovered by comparison. */
  method DoubleWidth(B: nat, s: nat, x: nat, b: nat, c: nat) returns (e: nat, c': nat)
    requires B > 1 && s < B && x < B && b < B && c < B
    ensures LimbStep(B, s, x, b, c, e, c')
  {
    hide Pair;
    var r := s * b;
    var r0, r1 := Halve(B, r);
    Room(B, s, b, x, c);
    r1, r0 := AddCompare(B, r1, r0, c, r);
    r1, r0 := AddCompare(B, r1, r0, x, r + c);
    return r0, r1;
  }

  /** Casting a double word down and shifting it down give its two words. */
  method Halve(B: nat, r: nat) returns (r0: nat, r1: nat)
    requires B > 0
    ensures r0 < B && Pair(B, r1, r0) == r
  {
    r0, r1 := r % B, r / B;
  }

  /** Both inputs to one limb leave the total inside two words. */
  lemma Room(B: nat, s: nat, b: nat, x: nat, c: nat)
    requires s < B && b < B && x < B && c < B
    ensures s * b + x + c < B * B
  {
    ProductRoom(B, s, b);
  }

  /** Without one: four half-word products, their middle terms split, and four recovered carries. */
  method HalfWord(H: nat, B: nat, s: nat, x: nat, b: nat, c: nat) returns (e: nat, c': nat)
    requires B == H * H && H > 1 && s < B && x < B && b < B && c < B
    ensures LimbStep(B, s, x, b, c, e, c')
  {
    hide Pair;
    var b0, b1 := SplitWord(H, b);
    var s0, s1 := SplitWord(H, s);
    Room(B, s, b, x, c);
    var r1, r0, rx, ry := HalfProducts(H, s1, s0, b1, b0);
    r1, r0 := AddFour(B, r1, r0, rx, ry, c, x, s * b);
    return r0, r1;
  }

  /** ( x << biH ) >> biH and x >> biH: the two halves of a word. */
  method SplitWord(H: nat, x: nat) returns (low: nat, high: nat)
    requires H > 0 && x < H * H
    ensures low < H && high < H && x == high * H + low
  {
    ShiftUpKeepsLow(H, x);
    low, high := High(H, ShiftUp(H, x)), High(H, x);
  }

  /** The four products, with the high halves of the middle ones already added to the top word. */
  method HalfProducts(H: nat, s1: nat, s0: nat, b1: nat, b0: nat)
    returns (r1: nat, r0: nat, rx: nat, ry: nat)
    requires H > 1 && s1 < H && s0 < H && b1 < H && b0 < H
    ensures r1 < H * H && r0 < H * H && rx < H * H && ry < H * H
    ensures Pair(H * H, r1, r0) + rx + ry == (s1 * H + s0) * (b1 * H + b0)
  {
    hide Pair, High, ShiftUp, LowProduct;
    var B := H * H;
    PartialProducts(H, B, s1, s0, b1, b0);
    rx := LowProduct(B, s0, b1);
    r0 := LowProduct(B, s0, b0);
    ry := LowProduct(B, s1, b0);
    r1 := LowProduct(B, s1, b1);
    r1 := AddWrap(B, r1, High(H, rx));
    r1 := AddWrap(B, r1, High(H, ry));
    rx, ry := ShiftUp(H, rx), ShiftUp(H, ry);
  }

  /** The four additions into r0, each followed by its carry into r1. */
  method AddFour(B: nat, hi: nat, lo: nat, rx: nat, ry: nat, c: nat, x: nat, ghost product: nat)
    returns (r1: nat, r0: nat)
    requires lo < B && rx < B && ry < B && c < B && x < B
    requires Pair(B, hi, lo) + rx + ry == product && product + c + x < B * B
    ensures r1 < B && r0 < B && Pair(B, r1, r0) == product + x + c
  {
    hide Pair;
    r1, r0 := AddCompare(B, hi, lo, rx, product - rx - ry);
    r1, r0 := AddCompare(B, r1, r0, ry, product - ry);
    r1, r0 := AddCompare(B, r1, r0, c, product);
    r1, r0 := AddCompare(B, r1, r0, x, product + c);
  }

  /** The sum of the four partial products of two words cut into halves. */
  lemma Halves(H: nat, s1: nat, s0: nat, b1: nat, b0: nat)
    ensures (s1 * H + s0) * (b1 * H + b0) == (s1 * b1) * (H * H) + (s0 * b1 + s1 * b0) * H + s0 * b0
  {
    calc {
      (s1 * H + s0) * (b1 * H + b0);
      (s1 * H) * (b1 * H + b0) + s0 * (b1 * H + b0);
      (s1 * H) * (b1 * H) + (s1 * H) * b0 + s0 * (b1 * H) + s0 * b0;
    }
    assert (s1 * H) * (b1 * H) == (s1 * b1) * (H * H);
    assert (s1 * H) * b0 == (s1 * b0) * H;
    assert s0 * (b1 * H) == (s0 * b1) * H;
  }

  /** A product of half words stays far enough inside a word to take two more half words. */
  lemma HalfProduct(H: nat, B: nat, x: nat, y: nat)
    requires x < H && y < H && H > 1 && B == H * H
    ensures x * y + 2 * H <= B + 1
    ensures LowProduct(B, x, y) == x * y == LowProduct(B, y, x)
    ensures High(H, x * y) + 1 < H && ShiftUp(H, x * y) < B
  {
    ProductRoom(H, x, y);
    HighOfProduct(H, B, x * y);
    assert x * y == y * x;
  }

  lemma HighOfProduct(H: nat, B: nat, p: nat)
    requires H > 1 && B == H * H && p + 2 * H <= B + 1
    ensures p % B == p && High(H, p) + 1 < H && ShiftUp(H, p) < B
  {
    hide ShiftUp;
    DivModUnique(p, B, 0, p);
    HighBelow(H, p, p / H, p % H);
    ShiftUpInWord(H, p);
  }

  lemma HighBelow(H: nat, p: nat, q: nat, r: nat)
    requires H > 1 && p + 2 * H <= H * H + 1 && p == q * H + r
    ensures q + 1 < H
  {
    assert (H - 1) * H == H * H - H;
    if q >= H - 1 {
      MulMonotone(H - 1, q, H);
    }
  }

  lemma ShiftUpInWord(H: nat, x: nat)
    requires H > 0
    ensures ShiftUp(H, x) < H * H
  {
  }

  /**
   * The four products of half words: none wraps, the high halves of the middle two fit in the top
   * word, and with their shifted low halves everything reassembles the full product.
   */
  lemma PartialProducts(H: nat, B: nat, s1: nat, s0: nat, b1: nat, b0: nat)
    requires B == H * H && H > 1 && s1 < H && s0 < H && b1 < H && b0 < H
    ensures LowProduct(B, s0, b1) == LowProduct(B, b1, s0) == s0 * b1 < B
    ensures LowProduct(B, s1, b0) == LowProduct(B, b0, s1) == s1 * b0 < B
    ensures LowProduct(B, s0, b0) == LowProduct(B, b0, s0) == s0 * b0 < B
    ensures LowProduct(B, s1, b1) == LowProduct(B, b1, s1) == s1 * b1
    ensures s1 * b1 + High(H, s0 * b1) + High(H, s1 * b0) < B
    ensures ShiftUp(H, s0 * b1) < B && ShiftUp(H, s1 * b0) < B
    ensures Pair(B, s1 * b1 + High(H, s0 * b1) + High(H, s1 * b0), s0 * b0)
            + ShiftUp(H, s0 * b1) + ShiftUp(H, s1 * b0) == (s1 * H + s0) * (b1 * H + b0)
  {
    hide Pair, High, ShiftUp, LowProduct;
    HalfProduct(H, B, s0, b1);
    HalfProduct(H, B, s1, b0);
    HalfProduct(H, B, s0, b0);
    HalfProduct(H, B, s1, b1);
    MiddleProducts(H, B, s1, s0, b1, b0);
  }

  /** Adding the middle products in: their high halves above, their shifted low halves below. */
  lemma MiddleProducts(H: nat, B: nat, s1: nat, s0: nat, b1: nat, b0: nat)
    requires H > 0 && B == H * H
    ensures Pair(B, s1 * b1 + High(H, s0 * b1) + High(H, s1 * b0), s0 * b0)
            + ShiftUp(H, s0 * b1) + ShiftUp(H, s1 * b0) == (s1 * H + s0) * (b1 * H + b0)
  {
    var rx, ry := s0 * b1, s1 * b0;
    Halves(H, s1, s0, b1, b0);
    Weigh(H, rx);
    Weigh(H, ry);
    Distribute(s1 * b1, High(H, rx), High(H, ry), B);
    Distribute(rx, ry, 0, H);
  }

  lemma Weigh(H: nat, x: nat)
    requires H > 0
    ensures x * H == High(H, x) * (H * H) + ShiftUp(H, x)
  {
    ShiftUpKeepsLow(H, x);
    var q, r := High(H, x), x % H;
    Assoc(q, H, H);
    Distribute(q * H, r, 0, H);
  }

  lemma Distribute(x: nat, y: nat, z: nat, k: nat)
    ensures (x + y + z) * k == x * k + y * k + z * k
  {
  }
}
