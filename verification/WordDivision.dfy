/**
 * mbedtls_int_div_int: a two-word number divided by one word, with a double-width type or, without
 * one, by two half-word quotient digits estimated from the top half of the divisor.
 */
module WordDivision {
  import opened Powers
  import opened Machine

  /** mbedtls_clz: the mask walks down from the top bit until it meets the number. */
  method Clz(bl: nat, x: nat) returns (j: nat)
    requires bl > 0 && x < Pow(2, bl)
    ensures j <= bl && x * Pow(2, j) < Pow(2, bl)
    ensures x > 0 ==> 2 * (x * Pow(2, j)) >= Pow(2, bl)
  {
    hide Pow;
    j := 0;
    var mask := Pow(2, bl - 1);
    PowNext(2, bl - 1);
    PowZero(2);
    while j < bl
      invariant j <= bl && x < Pow(2, bl - j) && (j < bl ==> mask == Pow(2, bl - j - 1))
    {
      PowNext(2, bl - j - 1);
      TopBit(x, mask);
      if (x / mask) % 2 != 0 {
        break;
      }
      j := j + 1;
      if j < bl {
        PowNext(2, bl - j - 1);
        mask := mask / 2;
      }
    }
    PowAdd(2, bl - j, j);
    MulStrict(x, Pow(2, bl - j), Pow(2, j));
    if x > 0 {
      Found(bl, j, x);
    }
  }

  lemma TopBit(x: nat, mask: nat)
    requires mask > 0 && x < 2 * mask
    ensures (x / mask) % 2 != 0 <==> x >= mask
  {
    if x >= mask {
      DivModUnique(x, mask, 1, x - mask);
    } else {
      DivModUnique(x, mask, 0, x);
    }
  }

  lemma Found(bl: nat, j: nat, x: nat)
    requires j <= bl && x > 0 && (j == bl ==> x < 1) && (j < bl ==> x >= Pow(2, bl - j - 1))
    ensures 2 * (x * Pow(2, j)) >= Pow(2, bl)
  {
    PowNext(2, bl - j - 1);
    PowAdd(2, bl - j, j);
    MulMonotone(Pow(2, bl - j - 1), x, Pow(2, j));
    assert (2 * Pow(2, bl - j - 1)) * Pow(2, j) == 2 * (Pow(2, bl - j - 1) * Pow(2, j));
  }

  /**
   * One half-word digit of the quotient of u * H + low by d1 * H + d0: the estimate u / d1 is
   * corrected down while the half words show it to be too large, and is then exact. The loop keeps
   * the product and the sum that are compared inside the word.
   */
  method Digit(H: nat, u: nat, d1: nat, d0: nat, low: nat) returns (q: nat)
    requires 0 < d1 < H && d0 < H && low < H && u < d1 * H + d0
    ensures q < H && q * (d1 * H + d0) <= u * H + low < (q + 1) * (d1 * H + d0)
  {
    var r0: nat;
    ghost var d, U := d1 * H + d0, u * H + low;
    q := u / d1;
    r0 := u - d1 * q;
    EstimateIsHigh(H, u, d1, d0, low, q, r0);
    InWord(H, d0, low, q, r0);
    while q >= H || q * d0 > H * r0 + low
      invariant u == d1 * q + r0 && U < (q + 1) * d
      invariant r0 < H && H * r0 + low < H * H && (q < H ==> q * d0 < H * H)
      decreases q
    {
      TooLarge(H, u, d1, d0, low, q, r0);
      q := q - 1;
      r0 := r0 + d1;
      if r0 >= H {
        BreakIsExact(H, u, d1, d0, low, q, r0);
        return;
      }
      InWord(H, d0, low, q, r0);
    }
    Settled(H, u, d1, d0, low, q, r0);
  }

  lemma InWord(H: nat, d0: nat, low: nat, q: nat, r0: nat)
    requires d0 < H && low < H
    ensures r0 < H ==> H * r0 + low < H * H
    ensures q < H ==> q * d0 < H * H
  {
    if r0 < H {
      MulStrict(r0, H, H);
    }
    if q < H {
      MulMonotone(q, H, d0);
      MulStrict(d0, H, H);
    }
  }

  lemma Compare(H: nat, u: nat, d1: nat, d0: nat, low: nat, q: nat, r0: nat)
    requires u == d1 * q + r0
    ensures q * (d1 * H + d0) - (u * H + low) == q * d0 - (H * r0 + low)
  {
    assert q * (d1 * H + d0) == (d1 * q) * H + q * d0;
    assert (d1 * q + r0) * H == (d1 * q) * H + H * r0;
  }

  lemma EstimateIsHigh(H: nat, u: nat, d1: nat, d0: nat, low: nat, q: nat, r0: nat)
    requires 0 < d1 < H && low < H && q == u / d1 && r0 == u - d1 * q
    ensures r0 < d1 && u == d1 * q + r0 && u * H + low < (q + 1) * (d1 * H + d0)
  {
    QuotientOf(u, d1, q, r0);
    Compare(H, u, d1, d0, low, q, r0);
    Above(q, d1 * H, d0);
    MulMonotone(r0 + 1, d1, H);
    assert (r0 + 1) * H == H * r0 + H && d1 * H == H * d1;
  }

  lemma QuotientOf(u: nat, d: nat, q: nat, r: int)
    requires 0 < d && q == u / d && r == u - d * q
    ensures 0 <= r < d && u == d * q + r
  {
    assert u == (u / d) * d + u % d;
  }

  lemma Above(q: nat, x: nat, y: nat)
    ensures (q + 1) * (x + y) == q * (x + y) + x + y && q * y >= 0
  {
    MulMonotone(0, q, y);
  }

  /** The test fails only for estimates above the true digit. */
  lemma TooLarge(H: nat, u: nat, d1: nat, d0: nat, low: nat, q: nat, r0: nat)
    requires 0 < d1 && low < H && u < d1 * H + d0 && u == d1 * q + r0
    requires q >= H || q * d0 > H * r0 + low
    ensures q > 0 && u * H + low < q * (d1 * H + d0)
    ensures u == d1 * (q - 1) + (r0 + d1)
  {
    Compare(H, u, d1, d0, low, q, r0);
    if q >= H {
      MulMonotone(u + 1, d1 * H + d0, H);
      MulMonotone(H, q, d1 * H + d0);
    }
  }

  /** Stopping because the remainder left the half word leaves nothing to test. */
  lemma BreakIsExact(H: nat, u: nat, d1: nat, d0: nat, low: nat, q: nat, r0: nat)
    requires 0 < d1 && d0 < H && u < d1 * H + d0 && u == d1 * q + r0 && r0 >= H
    ensures q < H && q * (d1 * H + d0) <= u * H + low
  {
    if q >= H {
      MulMonotone(H, q, d1);
    }
    Compare(H, u, d1, d0, low, q, r0);
    MulMonotone(q, H, d0);
    MulMonotone(d0, H, H);
    MulMonotone(H, r0, H);
  }

  lemma Settled(H: nat, u: nat, d1: nat, d0: nat, low: nat, q: nat, r0: nat)
    requires q < H && q * d0 <= H * r0 + low && u == d1 * q + r0
    ensures q * (d1 * H + d0) <= u * H + low
  {
    Compare(H, u, d1, d0, low, q, r0);
  }

  /** What both forms compute: quotient and remainder, or all ones when the quotient has no room. */
  ghost predicate Divided(B: nat, u1: nat, u0: nat, d: nat, q: nat, r: nat) {
    if u1 < d then q * d + r == Pair(B, u1, u0) && r < d && q < B else q == B - 1 && r == B - 1
  }

  /** With a double-width type: one division, clamped although it cannot exceed a word. */
  method Wide(B: nat, u1: nat, u0: nat, d: nat) returns (q: nat, r: nat)
    requires B > 0 && u1 < B && u0 < B && d < B
    ensures Divided(B, u1, u0, d, q, r)
  {
    if d == 0 || u1 >= d {
      return B - 1, B - 1;
    }
    var dividend := u1 * B + u0;
    var quotient := dividend / d;
    assert dividend == quotient * d + dividend % d;
    QuotientFits(B, u1, u0, d, quotient);
    if quotient > B - 1 {
      quotient := B - 1;
    }
    return quotient, dividend - quotient * d;
  }

  lemma QuotientFits(B: nat, u1: nat, u0: nat, d: nat, q: nat)
    requires u0 < B && u1 < d && q * d <= u1 * B + u0
    ensures q < B
  {
    MulMonotone(u1 + 1, d, B);
    if q >= B {
      MulMonotone(B, q, d);
    }
  }

  /** Shifting divisor and dividend left together, as far as the divisor's top bit allows. */
  lemma ShiftsLeft(B: nat, P: nat, S: nat, u1: nat, u0: nat, d: nat, top: nat)
    requires P > 0 && S > 0 && B == P * S && u1 < d && d * S < B && u0 < B && top == u0 / P
    ensures (d * S) % B == d * S && (u1 * S) % B == u1 * S && top < S && u1 * S + top < d * S
    ensures Pair(B, u1 * S + top, (u0 * S) % B) == Pair(B, u1, u0) * S
  {
    var l := u0 % P;
    LowPart(B, P, S, u0, top, l);
    var u1S, dS, u0S, lS := u1 * S, d * S, u0 * S, l * S;
    MulStrict(u1, d, S);
    DivModUnique(dS, B, 0, dS);
    DivModUnique(u1S, B, 0, u1S);
    DivModUnique(u0S, B, top, lS);
    Regroup(B, S, u1, u0, u1S, u0S, top, lS);
  }

  lemma LowPart(B: nat, P: nat, S: nat, u0: nat, top: nat, l: nat)
    requires P > 0 && S > 0 && B == P * S && u0 < B && top == u0 / P && l == u0 % P
    ensures top < S && u0 * S == top * B + l * S && l * S < B
  {
    assert u0 == top * P + l;
    if top >= S {
      MulMonotone(S, top, P);
    }
    MulStrict(l, P, S);
    assert (top * P + l) * S == (top * P) * S + l * S;
    Assoc(top, P, S);
  }

  lemma Regroup(B: nat, S: nat, u1: nat, u0: nat, u1S: nat, u0S: nat, top: nat, lS: nat)
    requires u1S == u1 * S && u0S == u0 * S && u0S == top * B + lS
    ensures Pair(B, u1S + top, lS) == Pair(B, u1, u0) * S
  {
    assert (u1S + top) * B == u1S * B + top * B;
    assert (u1 * B + u0) * S == (u1 * B) * S + u0 * S;
    assert (u1 * B) * S == (u1 * S) * B;
  }

  /** The two digits by the normalised divisor, put together. */
  lemma TwoDigits(H: nat, B: nat, u1: nat, m: nat, l: nat, d: nat, q1: nat, q0: nat, rAX: nat, r: nat)
    requires B == H * H && rAX + q1 * d == u1 * H + m && r + q0 * d == rAX * H + l
    ensures (q1 * H + q0) * d + r == Pair(B, u1, m * H + l)
  {
    assert (q1 * H + q0) * d == (q1 * d) * H + q0 * d;
    assert (rAX + q1 * d) * H == rAX * H + (q1 * d) * H;
    assert (u1 * H + m) * H == u1 * (H * H) + m * H;
  }

  /** Undoing the shift: the remainder is a multiple of it. */
  lemma Unshift(S: nat, d: nat, N: nat, q: nat, r: nat)
    requires S > 0 && q * (d * S) + r == N * S && r < d * S
    ensures q * d + r / S == N && r / S < d
  {
    assert q * (d * S) == (q * d) * S;
    assert r == (N - q * d) * S;
    if N < q * d {
      MulMonotone(N - q * d, -1, S);
    }
    DivModUnique(r, S, N - q * d, 0);
    if r / S >= d {
      MulMonotone(d, r / S, S);
    }
  }

  /** Without one: normalise, two half-word digits, undo the shift on the remainder. */
  method Generic(H: nat, bl: nat, B: nat, u1: nat, u0: nat, d: nat) returns (q: nat, r: nat)
    requires H > 1 && bl > 0 && B == H * H == Pow(2, bl) && u1 < B && u0 < B && d < B
    ensures Divided(B, u1, u0, d, q, r)
  {
    hide Pow, Pair;
    if d == 0 || u1 >= d {
      return B - 1, B - 1;
    }
    q, r := Normalised(H, bl, B, u1, u0, d);
    FitsWord(B, u1, u0, d, q, r);
  }

  /** The division itself, once the quotient is known to have room. */
  method Normalised(H: nat, bl: nat, B: nat, u1: nat, u0: nat, d: nat) returns (q: nat, r: nat)
    requires H > 1 && bl > 0 && B == H * H == Pow(2, bl) && u1 < d < B && u0 < B
    ensures q * d + r == Pair(B, u1, u0) && r < d
  {
    hide Pow, Pair;
    var S, dn, v1, v0 := Normalise(bl, B, u1, u0, d);
    q, r := Digits(H, B, v1, v0, dn);
    r := ShiftBack(S, d, Pair(B, u1, u0), q, r);
  }

  method ShiftBack(S: nat, d: nat, ghost N: nat, ghost q: nat, r0: nat) returns (r: nat)
    requires S > 0 && q * (d * S) + r0 == N * S && r0 < d * S
    ensures q * d + r == N && r < d
  {
    Unshift(S, d, N, q, r0);
    r := r0 / S;
  }

  method Normalise(bl: nat, B: nat, u1: nat, u0: nat, d: nat) returns (S: nat, dn: nat, v1: nat, v0: nat)
    requires bl > 0 && B == Pow(2, bl) && u1 < d && u0 < B && d < B
    ensures S > 0 && dn == d * S < B && 2 * dn >= B && v1 < dn && v0 < B
    ensures Pair(B, v1, v0) == Pair(B, u1, u0) * S
  {
    hide Pow, Pair;
    var s := Clz(bl, d);
    S := Pow(2, s);
    PowAdd(2, bl - s, s);
    var top := u0 / Pow(2, bl - s);
    ShiftsLeft(B, Pow(2, bl - s), S, u1, u0, d, top);
    NoShift(bl, s, B, u0, top);
    dn := (d * S) % B;
    v1 := (u1 * S) % B + (if s == 0 then 0 else top);
    v0 := (u0 * S) % B;
  }

  /** With nothing to shift there is nothing to bring in from the low word. */
  lemma NoShift(bl: nat, s: nat, B: nat, u0: nat, top: nat)
    requires s <= bl && B == Pow(2, bl) && u0 < B && top == u0 / Pow(2, bl - s)
    ensures s == 0 ==> top == 0
  {
    if s == 0 {
      DivModUnique(u0, B, 0, u0);
    }
  }

  lemma FitsWord(B: nat, u1: nat, u0: nat, d: nat, q: nat, r: nat)
    requires u0 < B && u1 < d && q * d + r == Pair(B, u1, u0)
    ensures q < B
  {
    QuotientFits(B, u1, u0, d, q);
  }

  method Digits(H: nat, B: nat, u1: nat, u0: nat, d: nat) returns (q: nat, r: nat)
    requires H > 1 && B == H * H && u0 < B && u1 < d < B && 2 * d >= B
    ensures q * d + r == Pair(B, u1, u0) && r < d
  {
    hide Pair;
    var d1, d0 := Halves(H, B, d);
    TopHalf(H, B, d, d1, d0);
    var m, l := Halves(H, B, u0);
    var q1, rAX := DigitAndRest(H, B, u1, d, d1, d0, m);
    var q0;
    q0, r := DigitAndRest(H, B, rAX, d, d1, d0, l);
    TwoDigits(H, B, u1, m, l, d, q1, q0, rAX, r);
    q := q1 * H + q0;
  }

  /** One half-word digit, and by wrapping subtraction what it leaves of the dividend. */
  method DigitAndRest(H: nat, B: nat, u: nat, d: nat, d1: nat, d0: nat, low: nat) returns (q: nat, r: nat)
    requires 0 < d1 < H && d0 < H && low < H && d == d1 * H + d0 && u < d < B
    ensures r < d && r + q * d == u * H + low
  {
    q := Digit(H, u, d1, d0, low);
    Remaining(H, B, u, d, low, q);
    r := (u * H + (low - q * d)) % B;
  }

  lemma TopHalf(H: nat, B: nat, d: nat, d1: nat, d0: nat)
    requires H > 1 && B == H * H && 2 * d >= B && d0 < H && d == d1 * H + d0
    ensures 0 < d1
  {
    MulMonotone(2, H, H);
  }

  /** The two half-words of a word. */
  method Halves(H: nat, B: nat, u: nat) returns (hi: nat, lo: nat)
    requires H > 0 && B == H * H && u < B
    ensures hi < H && lo < H && hi * H + lo == u
  {
    hi, lo := u / H, u % H;
    if hi >= H {
      MulMonotone(H, hi, H);
    }
  }

  /** What a digit leaves is below the divisor, so the wrapped subtraction does not wrap. */
  lemma Remaining(H: nat, B: nat, u: nat, d: nat, m: nat, q: nat)
    requires q * d <= u * H + m < (q + 1) * d && 0 < d < B
    ensures var r := (u * H + (m - q * d)) % B;
            r < d && r + q * d == u * H + m
  {
    assert (q + 1) * d == q * d + d;
    var x := u * H + m - q * d;
    DivModUnique(x, B, 0, x);
  }
}
