/**
 * mbedtls_mpi_mod_int: the remainder by a single word, folded in half a limb at a time. It is the
 * true remainder only for divisors that fit half a word or divide the radix.
 */
module SmallModulus {
  import opened Errors
  import opened Powers
  import opened Limbs
  import opened Residues
  import opened Machine

  /** y = ( y << biH ) | half; y -= ( y / b ) * b, where the shift drops what leaves the word. */
  function FoldHalf(H: nat, b: nat, y: nat, half: nat): nat
    requires H > 0 && b > 0
  {
    (ShiftUp(H, y) + half) % b
  }

  /** The running remainder after the limbs of xs, the top one first and its high half first. */
  function Fold(H: nat, b: nat, xs: seq<nat>): nat
    requires H > 0 && b > 0
  {
    if xs == [] then 0
    else FoldHalf(H, b, FoldHalf(H, b, Fold(H, b, xs[1..]), xs[0] / H), xs[0] % H)
  }

  /** What a sign-and-magnitude number leaves modulo b, given its magnitude's remainder. */
  function Signed(s: int, b: nat, y: nat): int {
    if s < 0 && y != 0 then b - y else y
  }

  /**
   * The loop, from the top limb down, with the two trivial divisors handled apart; the case of two
   * reads the lowest limb, whether there is one or not.
   */
  method ModInt(H: nat, B: nat, s: int, A: array<nat>, b: int) returns (ret: int, r: int)
    requires H > 1 && H % 2 == 0 && B == H * H && Digits(B, A[..]) && (s == 1 || s == -1)
    ensures ret == if b == 0 then ERR_DIVISION_BY_ZERO else if b < 0 then ERR_NEGATIVE_VALUE
                   else if b == 2 && A.Length == 0 then UNDEFINED else 0
    ensures ret == 0 && b <= 2 ==> r == (s * Val(B, A[..])) % b
    ensures ret == 0 && b > 2 ==> r == Signed(s, b, Fold(H, b, A[..]))
    ensures ret == 0 && (b <= H || B % b == 0) ==> r == (s * Val(B, A[..])) % b
    ensures ret == 0 && (Val(B, A[..]) < B || StaysLow(H, b, A[..])) ==> r == (s * Val(B, A[..])) % b
  {
    hide FoldHalf, Val, Fold;
    r := 0;
    if b == 0 {
      return ERR_DIVISION_BY_ZERO, 0;
    }
    if b < 0 {
      return ERR_NEGATIVE_VALUE, 0;
    }
    if b == 1 {
      DivModUnique(s * Val(B, A[..]), 1, s * Val(B, A[..]), 0);
      return 0, 0;
    }
    if b == 2 {
      if A.Length == 0 {
        return UNDEFINED, 0;
      }
      LowBit(H, B, s, A[..]);
      return 0, A[0] % 2;
    }
    var i, y: nat := A.Length, 0;
    FoldEmpty(H, b, A[i..]);
    while i > 0
      invariant 0 <= i <= A.Length && y == Fold(H, b, A[i..])
    {
      var x := A[i - 1];
      FoldNext(H, b, A[i - 1..], A[i..], y);
      y := FoldHalf(H, b, y, High(H, x));
      ShiftUpKeepsLow(H, x);
      x := ShiftUp(H, x);
      y := FoldHalf(H, b, y, High(H, x));
      i := i - 1;
    }
    assert A[0..] == A[..];
    if b <= H || B % b == 0 {
      FoldExact(H, b, A[..]);
      SignedExact(s, b, Val(B, A[..]));
    }
    if Val(B, A[..]) < B {
      OneLimbLow(H, b, A[..]);
    }
    if StaysLow(H, b, A[..]) {
      LowExact(H, b, A[..]);
      SignedExact(s, b, Val(B, A[..]));
    }
    if s < 0 && y != 0 {
      return 0, b - y;
    }
    return 0, y;
  }

  lemma FoldEmpty(H: nat, b: nat, xs: seq<nat>)
    requires H > 0 && b > 0 && xs == []
    ensures Fold(H, b, xs) == 0
  {
  }

  lemma FoldNext(H: nat, b: nat, xs: seq<nat>, ys: seq<nat>, y: nat)
    requires H > 0 && b > 0 && |xs| > 0 && ys == xs[1..] && y == Fold(H, b, ys)
    ensures Fold(H, b, xs) == FoldHalf(H, b, FoldHalf(H, b, y, High(H, xs[0])), xs[0] % H)
  {
  }

  lemma LowBit(H: nat, B: nat, s: int, xs: seq<nat>)
    requires H % 2 == 0 && B == H * H && |xs| > 0 && (s == 1 || s == -1)
    ensures (s * Val(B, xs)) % 2 == xs[0] % 2
  {
    var v, g := Val(B, xs[1..]), H / 2;
    assert (H * H) * v == 2 * ((g * H) * v) by {
      assert H * H == 2 * (g * H);
    }
    var m := (g * H) * v;
    DivModUnique(s * Val(B, xs), 2, if s == 1 then xs[0] / 2 + m else -(xs[0] / 2 + m) - xs[0] % 2, xs[0] % 2);
  }

  /** A half step is exact modulo b while the shift drops only multiples of b. */
  lemma HalfExact(H: nat, b: nat, y: nat, half: nat)
    requires H > 0 && b > 0 && y < b && (b <= H || (H * H) % b == 0)
    ensures Cong(FoldHalf(H, b, y, half), y * H + half, b) && FoldHalf(H, b, y, half) < b
  {
    hide Cong;
    CongMod(ShiftUp(H, y) + half, b);
    if b <= H {
      NothingDropped(H, b, y);
    } else {
      MultipleDropped(H, b, y, half);
      CongTrans(FoldHalf(H, b, y, half), ShiftUp(H, y) + half, y * H + half, b);
    }
  }

  lemma NothingDropped(H: nat, b: nat, y: nat)
    requires y < b <= H
    ensures ShiftUp(H, y) == y * H
  {
    MulStrict(y, H, H);
    DivModUnique(y * H, H * H, 0, y * H);
  }

  lemma MultipleDropped(H: nat, b: nat, y: nat, half: nat)
    requires H > 0 && b > 0 && (H * H) % b == 0
    ensures Cong(ShiftUp(H, y) + half, y * H + half, b)
  {
    var B := H * H;
    var dropped, m := (y * H) / B, B / b;
    assert B == m * b && y * H == dropped * B + ShiftUp(H, y);
    Assoc(dropped, m, b);
    CongIntro(ShiftUp(H, y) + half, y * H + half, b, -(dropped * m));
  }

  lemma {:induction false} FoldExact(H: nat, b: nat, xs: seq<nat>)
    requires H > 1 && b > 0 && (b <= H || (H * H) % b == 0)
    ensures Fold(H, b, xs) == Val(H * H, xs) % b
  {
    hide FoldHalf, Cong;
    if xs == [] {
      DivModUnique(0, b, 0, 0);
    } else {
      FoldExact(H, b, xs[1..]);
      var x, v := xs[0], Val(H * H, xs[1..]);
      HalvesOf(H, x);
      CongMod(v, b);
      FoldStep(H, b, x / H, x % H, x, v % b, v);
    }
  }

  lemma FoldStep(H: nat, b: nat, h: nat, l: nat, x: nat, y: nat, v: nat)
    requires H > 1 && b > 0 && (b <= H || (H * H) % b == 0) && y < b && Cong(y, v, b) && x == h * H + l
    ensures FoldHalf(H, b, FoldHalf(H, b, y, h), l) == (x + (H * H) * v) % b
  {
    hide FoldHalf, Cong;
    HalfExact(H, b, y, h);
    var z := FoldHalf(H, b, y, h);
    HalfExact(H, b, z, l);
    var r := FoldHalf(H, b, z, l);
    LimbExact(H, b, y, v, z, h, l, r);
    Residual(r, x + (H * H) * v, b);
  }

  lemma LimbExact(H: nat, b: nat, y: nat, v: nat, z: nat, h: nat, l: nat, r: nat)
    requires b > 0 && Cong(y, v, b) && Cong(z, y * H + h, b) && Cong(r, z * H + l, b)
    ensures Cong(r, (h * H + l) + (H * H) * v, b)
  {
    hide Cong;
    CongScale(y, v, H, b);
    CongIntro(h, h, b, 0);
    CongAdd(y * H, v * H, h, h, b);
    CongTrans(z, y * H + h, v * H + h, b);
    CongScale(z, v * H + h, H, b);
    CongIntro(l, l, b, 0);
    CongAdd(z * H, (v * H + h) * H, l, l, b);
    assert (v * H + h) * H + l == (h * H + l) + (H * H) * v by {
      assert (v * H) * H == (H * H) * v;
    }
    CongTrans(r, z * H + l, (v * H + h) * H + l, b);
  }

  lemma Residual(r: nat, v: nat, b: nat)
    requires b > 0 && r < b && Cong(r, v, b)
    ensures r == v % b
  {
    DivModUnique(r, b, 0, r);
  }

  /** For any divisor a half step takes the low half of what it has, one half up, and the new half. */
  lemma HalfStep(H: nat, b: nat, y: nat, half: nat)
    requires H > 0 && b > 0
    ensures FoldHalf(H, b, y, half) == ((y % H) * H + half) % b
  {
    ShiftUpKeepsLow(H, y);
  }

  /** While the running remainder stays below the half word nothing is dropped, whatever the divisor. */
  ghost predicate StaysLow(H: nat, b: nat, xs: seq<nat>)
    requires H > 0 && b > 0
  {
    xs == [] || (StaysLow(H, b, xs[1..]) && Fold(H, b, xs[1..]) < H
                 && FoldHalf(H, b, Fold(H, b, xs[1..]), xs[0] / H) < H)
  }

  lemma {:induction false} LowExact(H: nat, b: nat, xs: seq<nat>)
    requires H > 1 && b > 0 && StaysLow(H, b, xs)
    ensures Fold(H, b, xs) == Val(H * H, xs) % b
  {
    hide FoldHalf, Cong;
    if xs == [] {
      DivModUnique(0, b, 0, 0);
    } else {
      LowExact(H, b, xs[1..]);
      var x, v := xs[0], Val(H * H, xs[1..]);
      HalvesOf(H, x);
      CongMod(v, b);
      LowFold(H, b, x / H, x % H, x, Fold(H, b, xs[1..]), v);
    }
  }

  lemma HalvesOf(H: nat, x: nat)
    requires H > 0
    ensures x == (x / H) * H + x % H
  {
  }

  lemma LowFold(H: nat, b: nat, h: nat, l: nat, x: nat, y: nat, v: nat)
    requires H > 1 && b > 0 && y < H && FoldHalf(H, b, y, h) < H && Cong(y, v, b) && x == h * H + l
    ensures FoldHalf(H, b, FoldHalf(H, b, y, h), l) == (x + (H * H) * v) % b
  {
    hide FoldHalf, Cong;
    LowStep(H, b, y, h);
    var z := FoldHalf(H, b, y, h);
    LowStep(H, b, z, l);
    var r := FoldHalf(H, b, z, l);
    LimbExact(H, b, y, v, z, h, l, r);
    Residual(r, x + (H * H) * v, b);
  }

  lemma LowStep(H: nat, b: nat, y: nat, half: nat)
    requires H > 1 && b > 0 && y < H
    ensures Cong(FoldHalf(H, b, y, half), y * H + half, b) && FoldHalf(H, b, y, half) < b
  {
    HalfStep(H, b, y, half);
    DivModUnique(y, H, 0, y);
    CongMod(y * H + half, b);
  }

  /** So a number of one limb is reduced by any divisor. */
  lemma {:induction false} OneLimbLow(H: nat, b: nat, xs: seq<nat>)
    requires H > 1 && b > 0 && Val(H * H, xs) < H * H
    ensures StaysLow(H, b, xs)
  {
    if xs != [] {
      hide Val, Pow, StaysLow, Fold, FoldHalf;
      OneLimbTop(H * H, xs);
      ZeroFold(H, b, xs[1..]);
      FirstHalf(H, b, xs[0]);
      LowCons(H, b, xs);
    } else {
      LowNothing(H, b);
    }
  }

  lemma LowNothing(H: nat, b: nat)
    requires H > 0 && b > 0
    ensures StaysLow(H, b, [])
  {
  }

  lemma LowCons(H: nat, b: nat, xs: seq<nat>)
    requires H > 0 && b > 0 && xs != [] && StaysLow(H, b, xs[1..]) && Fold(H, b, xs[1..]) == 0
    requires FoldHalf(H, b, 0, xs[0] / H) < H
    ensures StaysLow(H, b, xs)
  {
  }

  lemma OneLimbTop(B: nat, xs: seq<nat>)
    requires xs != [] && Val(B, xs) < B
    ensures xs[0] < B && forall i | 0 <= i < |xs[1..]| :: xs[1..][i] == 0
  {
    if Val(B, xs[1..]) > 0 {
      MulMonotone(1, Val(B, xs[1..]), B);
    }
    ZeroVal(B, xs[1..]);
  }

  lemma FirstHalf(H: nat, b: nat, x: nat)
    requires H > 1 && b > 0 && x < H * H
    ensures FoldHalf(H, b, 0, x / H) < H
  {
    ShiftUpKeepsLow(H, x);
    HalfStep(H, b, 0, x / H);
    NotAbove(x / H, b);
  }

  lemma NotAbove(x: nat, b: nat)
    requires b > 0
    ensures x % b <= x
  {
  }

  /** Leading zero limbs leave nothing. */
  lemma {:induction false} ZeroFold(H: nat, b: nat, xs: seq<nat>)
    requires H > 1 && b > 0 && forall i | 0 <= i < |xs| :: xs[i] == 0
    ensures Fold(H, b, xs) == 0 && StaysLow(H, b, xs)
  {
    if xs != [] {
      assert forall i | 0 <= i < |xs[1..]| :: xs[1..][i] == xs[i + 1];
      ZeroFold(H, b, xs[1..]);
      HalfStep(H, b, 0, 0);
      DivModUnique(0, b, 0, 0);
      DivModUnique(0, H, 0, 0);
    }
  }

  /** The number B itself, as limbs [0, 1]: the fold forgets it. */
  lemma RadixIsForgotten(H: nat, b: nat)
    requires H > 1 && b > H
    ensures Fold(H, b, [0, 1]) == 0 && Val(H * H, [0, 1]) == H * H
  {
    hide Fold, FoldHalf;
    var one, none: seq<nat> := [1], [];
    assert [0, 1][1..] == one && one[1..] == none;
    FoldEmpty(H, b, none);
    DivModUnique(1, H, 0, 1);
    DivModUnique(0, H, 0, 0);
    FoldSmall(H, b, 0, 0);
    FoldSmall(H, b, 0, 1);
    FoldSmall(H, b, 1, 0);
    DivModUnique(H * H, H * H, 1, 0);
    FoldNext(H, b, one, none, 0);
    FoldNext(H, b, [0, 1], one, 1);
    FoldOverflow(H, b);
    ValSingle(H * H, 1);
  }

  lemma FoldSmall(H: nat, b: nat, y: nat, half: nat)
    requires H > 1 && b > H && y <= 1 && half < H && (y == 1 ==> half == 0)
    ensures FoldHalf(H, b, y, half) == y * H + half
  {
    MulStrict(y, H, H);
    DivModUnique(y * H, H * H, 0, y * H);
    DivModUnique(y * H + half, b, 0, y * H + half);
  }

  lemma FoldOverflow(H: nat, b: nat)
    requires H > 1 && b > H
    ensures FoldHalf(H, b, H, 0) == 0
  {
    DivModUnique(H * H, H * H, 1, 0);
    DivModUnique(0, b, 0, 0);
  }

  /** The remainder computed for a signed number: right for every number, or wrong for some. */
  ghost predicate AlwaysRight(H: nat, b: nat)
    requires H > 1 && b > 2
  {
    forall s: int, xs: seq<nat> | (s == 1 || s == -1) && Digits(H * H, xs) ::
      Signed(s, b, Fold(H, b, xs)) == (s * Val(H * H, xs)) % b
  }

  /** Exactly which divisors mbedtls_mpi_mod_int serves. */
  lemma ModIntDomain(H: nat, b: nat)
    requires H > 1 && b > 2
    ensures AlwaysRight(H, b) <==> b <= H || (H * H) % b == 0
  {
    if b <= H || (H * H) % b == 0 {
      forall s: int, xs: seq<nat> | (s == 1 || s == -1) && Digits(H * H, xs)
        ensures Signed(s, b, Fold(H, b, xs)) == (s * Val(H * H, xs)) % b
      {
        FoldExact(H, b, xs);
        SignedExact(s, b, Val(H * H, xs));
      }
    } else {
      RadixIsForgotten(H, b);
      MulMonotone(2, H, H);
      assert Digits(H * H, [0, 1]);
      assert Signed(1, b, Fold(H, b, [0, 1])) != (1 * Val(H * H, [0, 1])) % b;
    }
  }

  lemma SignedExact(s: int, b: nat, v: nat)
    requires b > 0 && (s == 1 || s == -1)
    ensures Signed(s, b, v % b) == (s * v) % b
  {
    var q, y := v / b, v % b;
    assert v == q * b + y;
    if s == -1 {
      assert s * v == (-q) * b - y;
      if y == 0 {
        DivModUnique(s * v, b, -q, 0);
      } else {
        assert (-q - 1) * b == (-q) * b - b;
        DivModUnique(s * v, b, -q - 1, b - y);
      }
    }
  }
}
