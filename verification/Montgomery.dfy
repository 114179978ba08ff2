/**
 * Montgomery arithmetic on limb arrays: the starting constant by Newton iteration, the in-place
 * subtraction helper, and the interleaved multiplication A = A * B * R^-1 mod N.
 */
module Montgomery {
  import opened Errors
  import opened Powers
  import opened Limbs
  import opened Machine
  import opened Kernels
  import opened Residues
  import MulHelper
  import Mpi

  /** Limb widths the halving loop is written for: 8, 16, 32, 64, ... */
  ghost predicate Doubling(w: nat) {
    w == 8 || (w > 8 && w % 2 == 0 && Doubling(w / 2))
  }

  /** The starting guess is right modulo 16. */
  lemma FourBits(m: nat)
    requires m % 2 == 1
    ensures Cong(m * (m + 8 * (((m + 2) / 4) % 2)), 1, 16)
  {
    hide Cong;
    var r := m % 16;
    SameBit(m);
    CongIntro(m, r, 16, m / 16);
    CongIntro(m + 8 * (((m + 2) / 4) % 2), r + 8 * (((r + 2) / 4) % 2), 16, m / 16);
    CongMul(m, r, m + 8 * (((m + 2) / 4) % 2), r + 8 * (((r + 2) / 4) % 2), 16);
    OddSixteenth(r);
    CongTrans(m * (m + 8 * (((m + 2) / 4) % 2)), r * (r + 8 * (((r + 2) / 4) % 2)), 1, 16);
  }

  lemma SameBit(m: nat)
    ensures m == m % 16 + (m / 16) * 16 && (m % 16) % 2 == m % 2
    ensures ((m + 2) / 4) % 2 == ((m % 16 + 2) / 4) % 2
  {
    var k, r := m / 16, m % 16;
    DivModUnique(m, 2, 8 * k + r / 2, r % 2);
    var e := (r + 2) / 4;
    DivModUnique(m + 2, 4, 4 * k + e, (r + 2) % 4);
    DivModUnique(4 * k + e, 2, 2 * k + e / 2, e % 2);
  }

  /** m0 + 2 may wrap, but not so as to change the bit that is looked at. */
  lemma WrapBit(m: nat, B: nat, Q: nat)
    requires Q > 0 && B == 16 * Q && m < B && m % 2 == 1
    ensures (((m + 2) % B) / 4) % 2 == ((m + 2) / 4) % 2
  {
    if m + 2 < B {
      DivModUnique(m + 2, B, 0, m + 2);
    } else {
      assert m + 2 == B + 1;
      DivModUnique(m + 2, B, 1, 1);
      DivModUnique(m + 2, 4, 4 * Q, 1);
      DivModUnique(4 * Q, 2, 2 * Q, 0);
    }
  }

  lemma OddSixteenth(r: nat)
    requires r < 16 && r % 2 == 1
    ensures Cong(r * (r + 8 * (((r + 2) / 4) % 2)), 1, 16)
  {
    if
    case r == 1 => case r == 3 => case r == 5 => case r == 7 =>
    case r == 9 => case r == 11 => case r == 13 => case r == 15 =>
  }

  /** One Newton step squares the modulus: 1 - m x (2 - m x) = (1 - m x)^2. */
  lemma NewtonStep(m: int, x: int, M: nat)
    requires M > 0 && Cong(m * x, 1, M)
    ensures Cong(m * (x * (2 - m * x)), 1, M * M)
  {
    var k := CongElim(m * x, 1, M);
    var y := m * x;
    assert m * (x * (2 - y)) == y * (2 - y);
    assert y * (2 - y) == 1 - (y - 1) * (y - 1);
    assert (k * M) * (k * M) == (k * k) * (M * M);
    CongIntro(m * (x * (2 - y)), 1, M * M, -(k * k));
  }

  /** Wrapping a factor to the word changes nothing modulo a divisor of the word's radix. */
  lemma WrapStep(m: int, x: int, B: nat, M: nat, Q: nat)
    requires M > 0 && B > 0 && B == M * Q && Cong(m * x, 1, M)
    ensures Cong(m * (x % B), 1, M)
  {
    CongMod(x, B);
    CongDivisor(x % B, x, M, Q);
    CongScale(x % B, x, m, M);
  }

  /**
   * mpi_montg_init: each turn of the loop doubles the number of correct bits, and the halvings of
   * the limb width are as many as it takes to fill the limb. What is returned times the low limb
   * of the modulus is one short of the radix, as reduction needs.
   */
  method MontgInit(w: nat, B: nat, m0: nat) returns (mm: nat)
    requires Doubling(w) && B == Pow(2, w) && m0 < B && m0 % 2 == 1
    ensures mm < B && (m0 * mm + 1) % B == 0
  {
    hide Cong, Pow;
    Sixteen(w);
    var x := m0;
    FourBits(m0);
    WrapStep(m0, m0 + 8 * (((m0 + 2) / 4) % 2), B, Pow(2, 4), Pow(2, w - 4));
    WrapBit(m0, B, Pow(2, w - 4));
    x := (x + 8 * ((((m0 + 2) % B) / 4) % 2)) % B;
    var i := w;
    ghost var bits := 4;
    while i >= 8
      invariant 0 < i <= w && bits * i == 4 * w && (i == 4 || Doubling(i))
      invariant 0 <= x < B && bits > 0 && Cong(m0 * x, 1, Pow(2, bits))
    {
      Room2(bits, i, w);
      PowAdd(2, bits, bits);
      PowAdd(2, 2 * bits, w - 2 * bits);
      NewtonStep(m0, x, Pow(2, bits));
      WrapStep(m0, x * (2 - m0 * x), B, Pow(2, 2 * bits), Pow(2, w - 2 * bits));
      x := (x * (2 - m0 * x)) % B;
      i := i / 2;
      bits := 2 * bits;
    }
    assert bits == w;
    mm := (B - x) % B;
    MinusInverse(m0, x, B);
  }

  lemma Sixteen(w: nat)
    requires Doubling(w)
    ensures w >= 8 && Pow(2, 4) == 16 && Pow(2, w) == Pow(2, 4) * Pow(2, w - 4)
  {
    PowAdd(2, 4, w - 4);
  }

  lemma Room2(bits: nat, i: nat, w: nat)
    requires bits * i == 4 * w && i >= 8 && Doubling(i)
    ensures 2 * bits <= w && i % 2 == 0 && (2 * bits) * (i / 2) == 4 * w && (i / 2 == 4 || Doubling(i / 2))
  {
    MulMonotone(8, i, bits);
    assert i == 2 * (i / 2);
    assert (2 * bits) * (i / 2) == bits * (2 * (i / 2));
  }

  lemma MinusInverse(m: nat, x: nat, B: nat)
    requires B > 0 && x < B && Cong(m * x, 1, B)
    ensures (m * ((B - x) % B) + 1) % B == 0
  {
    var j := CongElim(m * x, 1, B);
    if x == 0 {
      UnitDivides(B, j);
    } else {
      DivModUnique(B - x, B, 0, B - x);
      assert m * (B - x) + 1 == (m - j) * B;
      DivModUnique(m * (B - x) + 1, B, m - j, 0);
    }
  }

  lemma UnitDivides(B: nat, j: int)
    requires 0 == 1 + j * B && B > 0
    ensures B == 1
  {
    if j >= 0 {
      MulMonotone(0, j, B);
    } else {
      MulMonotone(j, -1, B);
    }
  }

  /** Subtract with borrow, as the pair of comparisons in mpi_sub_hlp does it. */
  method SubBorrow(B: nat, x: nat, y: nat, c: nat) returns (diff: nat, borrow: nat)
    requires B > 0 && x < B && y < B && c <= 1
    ensures diff < B && borrow <= 1 && diff + y + c == x + Worth(B, borrow)
  {
    var z := Less(x, c);
    diff := if x >= c then x - c else x + B - c;
    borrow := Less(diff, y) + z;
    diff := if diff >= y then diff - y else diff + B - y;
  }

  /** What one borrow step does to the value of the whole vector. */
  lemma BorrowStep(B: nat, xs: seq<nat>, i: nat, y: nat, c: nat, diff: nat, borrow: nat)
    requires i < |xs| && diff + y + c == xs[i] + Worth(B, borrow) && c <= 1 && borrow <= 1
    ensures Val(B, xs[i := diff]) - borrow * Pow(B, i + 1) + Pow(B, i) * y == Val(B, xs) - c * Pow(B, i)
  {
    ValUpdate(B, xs, i, diff);
    BorrowWeights(B, Pow(B, i), xs[i], y, c, diff, borrow);
  }

  lemma BorrowWeights(B: nat, p: nat, x: nat, y: nat, c: nat, diff: nat, borrow: nat)
    requires diff + y + c == x + Worth(B, borrow) && c <= 1 && borrow <= 1
    ensures p * diff - p * x - borrow * (B * p) + p * y == -(c * p)
  {
    assert borrow * (B * p) == p * Worth(B, borrow);
    assert p * (diff + y + c) == p * (x + Worth(B, borrow));
  }

  /** A borrow that reached the end would mean the difference was negative. */
  lemma BorrowEnds(B: nat, xs: seq<nat>, k: nat, c: nat, v: int)
    requires B > 0 && k <= |xs| && Digits(B, xs) && c <= 1
    requires Val(B, xs) - c * Pow(B, k) == v && v >= 0
    ensures c == 1 ==> k < |xs|
  {
    ValBound(B, xs);
  }

  /**
   * mpi_sub_hlp: subtract the n low limbs of s from d in place, the borrow running on as far as it
   * has to, which is never past the end of d when the difference is not negative.
   */
  method SubHlp(B: nat, n: nat, s: array<nat>, d: array<nat>)
    requires B > 1 && s != d && n <= s.Length && n <= d.Length
    requires Digits(B, s[..]) && Digits(B, d[..]) && Val(B, s[..n]) <= Val(B, d[..])
    modifies d
    ensures Digits(B, d[..]) && Val(B, d[..]) == old(Val(B, d[..])) - Val(B, s[..n])
  {
    hide Val, Pow;
    ghost var v0 := Val(B, d[..]);
    var i: nat, c: nat := 0, 0;
    EmptyPrefix(B, s[..0]);
    while i < n
      invariant i <= n && c <= 1 && Digits(B, d[..])
      invariant Val(B, d[..]) - c * Pow(B, i) == v0 - Val(B, s[..i])
    {
      ghost var xs := d[..];
      var diff, borrow := SubBorrow(B, d[i], s[i], c);
      BorrowStep(B, xs, i, s[i], c, diff, borrow);
      d[i] := diff;
      assert d[..] == xs[i := diff];
      NextPrefix(B, s[..], i);
      c := borrow;
      i := i + 1;
    }
    BorrowEnds(B, d[..], i, c, v0 - Val(B, s[..n]));
    while c != 0
      invariant i <= d.Length && c <= 1 && Digits(B, d[..]) && (c == 1 ==> i < d.Length)
      invariant Val(B, d[..]) - c * Pow(B, i) == v0 - Val(B, s[..n])
      decreases d.Length - i
    {
      ghost var xs := d[..];
      var diff, borrow := SubBorrow(B, d[i], 0, c);
      BorrowStep(B, xs, i, 0, c, diff, borrow);
      d[i] := diff;
      assert d[..] == xs[i := diff];
      c := borrow;
      i := i + 1;
      NoWeight(Pow(B, i - 1));
      BorrowEnds(B, d[..], i, c, v0 - Val(B, s[..n]));
    }
  }

  lemma NoWeight(p: nat)
    ensures p * 0 == 0
  {
  }

  lemma EmptyPrefix(B: nat, xs: seq<nat>)
    requires xs == []
    ensures Val(B, xs) == 0
  {
  }

  /** The low limb is the value modulo the radix. */
  lemma LowLimb(B: nat, xs: seq<nat>)
    requires B > 0 && |xs| > 0
    ensures Cong(Val(B, xs), xs[0], B)
  {
    CongIntro(Val(B, xs), xs[0], B, Val(B, xs[1..]));
  }

  /** The multiplier u1 is chosen so that the sum it completes ends in a zero limb. */
  lemma Cancels(B: nat, t: nat, t0: nat, u0: nat, v: nat, b0: nat, u1: nat, N: nat, N0: nat, mm: nat)
    requires B > 0 && Cong(t, t0, B) && Cong(v, b0, B) && Cong(N, N0, B)
    requires (N0 * mm + 1) % B == 0 && u1 == ((t0 + u0 * b0) * mm) % B
    ensures Cong(t + u0 * v + u1 * N, 0, B)
  {
    hide Cong;
    var w := t0 + u0 * b0;
    assert N0 * mm + 1 == ((N0 * mm + 1) / B) * B;
    CongMod(w * mm, B);
    CongScale(v, b0, u0, B);
    CongAdd(t, t0, u0 * v, u0 * b0, B);
    CongMul(u1, w * mm, N, N0, B);
    CongAdd(t + u0 * v, w, u1 * N, (w * mm) * N0, B);
    Completes(w, mm, N0, (N0 * mm + 1) / B, B);
    CongTrans(t + u0 * v + u1 * N, w + (w * mm) * N0, 0, B);
  }

  lemma Completes(w: nat, mm: nat, N0: nat, q: nat, B: nat)
    requires B > 0 && N0 * mm + 1 == q * B
    ensures Cong(w + (w * mm) * N0, 0, B)
  {
    assert (w * mm) * N0 == w * (N0 * mm);
    assert w + w * (N0 * mm) == w * (N0 * mm + 1);
    Assoc(w, q, B);
    CongIntro(w + (w * mm) * N0, 0, B, w * q);
  }

  /** Bounds that hold at every turn: nothing leaves n + 2 limbs, and a division brings it back. */
  lemma TurnBounds(B: nat, p: nat, t: nat, u0: nat, v: nat, u1: nat, N: nat)
    requires B > 1 && u0 < B && u1 < B && v < p && 0 < N < p && t < N + v
    ensures t + u0 * v < B * (B * p)
    ensures t + u0 * v + u1 * N < B * (N + v)
    ensures B * (N + v) <= B * (B * p)
  {
    TurnSum(B, t, u0, v, u1, N);
    MulMonotone(2, B, p);
    MulMonotone(N + v, B * p, B);
    MulMonotone(0, u1, N);
  }

  lemma TurnSum(B: nat, t: nat, u0: nat, v: nat, u1: nat, N: nat)
    requires u0 < B && u1 < B && t < N + v
    ensures t + u0 * v + u1 * N < B * (N + v)
  {
    MulMonotone(u0 + 1, B, v);
    MulMonotone(u1 + 1, B, N);
    assert (u0 + 1) * v == u0 * v + v && (u1 + 1) * N == u1 * N + N;
    assert B * (N + v) == B * N + B * v;
  }

  /**
   * One turn of the main loop: T = (T + u0 * B + u1 * N) / 2^biL, the division being the step of
   * the cursor, which leaves u0 behind in the limb it passes.
   */
  method Turn(t: Target, H: nat, B: nat, i: nat, n: nat, m: nat, a: array<nat>, b: array<nat>, N: array<nat>,
              mm: nat, T: array<nat>)
    returns (ghost u1: nat)
    requires H > 1 && B == H * H && a != T && b != T && N != T
    requires i < n <= N.Length && n <= a.Length && 0 < m <= n && m <= b.Length && 2 * n + 2 <= T.Length
    requires Digits(B, a[..]) && Digits(B, b[..]) && Digits(B, N[..]) && Digits(B, T[..])
    requires mm < B && (N[0] * mm + 1) % B == 0 && Val(B, N[..n]) > 0
    requires Val(B, T[i..]) < Val(B, N[..n]) + Val(B, b[..m])
    modifies T
    ensures Digits(B, T[..])
    ensures B * Val(B, T[i + 1..]) == old(Val(B, T[i..])) + a[i] * Val(B, b[..m]) + u1 * Val(B, N[..n])
    ensures u1 < B && Val(B, T[i + 1..]) < Val(B, N[..n]) + Val(B, b[..m])
  {
    hide Val, Pow, Cong;
    ghost var t0, v, w := Val(B, T[i..]), Val(B, b[..m]), Val(B, N[..n]);
    var u0 := a[i];
    var u := ((T[i] + u0 * b[0]) * mm) % B;
    u1 := u;
    LowLimb(B, T[i..]);
    LowLimb(B, b[..m]);
    LowLimb(B, N[..n]);
    Cancels(B, t0, T[i], u0, v, b[0], u1, w, N[0], mm);
    TurnRoom(B, n, m, T.Length - i, b[..m], N[..n], t0, u0, u1);
    assert b[0..m] == b[..m] && N[0..n] == N[..n];
    MulHelper.MulHlp(t, H, B, m, b, 0, T, i, u0);
    MulHelper.MulHlp(t, H, B, n, N, 0, T, i, u);
    ghost var xs := T[i..];
    ShiftOut(B, xs, n + 2, t0 + u0 * v + u1 * w, w + v);
    T[i] := u0;
    assert xs[n + 2] == 0;
    T[i + 1 + n + 1] := 0;
    assert T[i + 1..] == xs[1..];
  }

  lemma TurnRoom(B: nat, n: nat, m: nat, L: nat, bs: seq<nat>, Ns: seq<nat>, t: nat, u0: nat, u1: nat)
    requires B > 1 && |bs| == m <= n == |Ns| && n + 3 <= L && Digits(B, bs) && Digits(B, Ns)
    requires u0 < B && u1 < B && Val(B, Ns) > 0 && t < Val(B, Ns) + Val(B, bs)
    ensures t + u0 * Val(B, bs) < Pow(B, L)
    ensures t + u0 * Val(B, bs) + u1 * Val(B, Ns) < Pow(B, L)
    ensures t + u0 * Val(B, bs) + u1 * Val(B, Ns) < Pow(B, n + 2)
    ensures t + u0 * Val(B, bs) + u1 * Val(B, Ns) < B * (Val(B, Ns) + Val(B, bs))
  {
    ValBound(B, bs);
    ValBound(B, Ns);
    PowMonotone(B, m, n);
    TurnBounds(B, Pow(B, n), t, u0, Val(B, bs), u1, Val(B, Ns));
    assert Pow(B, n + 2) == B * (B * Pow(B, n)) by {
      assert Pow(B, n + 1) == B * Pow(B, n);
    }
    PowMonotone(B, n + 2, L);
  }

  /** A value with a zero low limb loses it, and everything above it, without remainder. */
  lemma ShiftOut(B: nat, xs: seq<nat>, k: nat, y: nat, bound: nat)
    requires B > 1 && 0 < k < |xs| && Digits(B, xs) && Val(B, xs) == y
    requires Cong(y, 0, B) && y < Pow(B, k) && y < B * bound
    ensures xs[k] == 0 && B * Val(B, xs[1..]) == y && Val(B, xs[1..]) < bound
  {
    hide Val, Pow;
    SmallValue(B, xs, k);
    FirstLimb(B, xs);
    if Val(B, xs[1..]) >= bound {
      MulMonotone(bound, Val(B, xs[1..]), B);
    }
  }

  lemma FirstLimb(B: nat, xs: seq<nat>)
    requires B > 0 && |xs| > 0 && xs[0] < B && Cong(Val(B, xs), 0, B)
    ensures xs[0] == 0 && Val(B, xs) == B * Val(B, xs[1..])
  {
    LowLimb(B, xs);
    CongTrans(xs[0], Val(B, xs), 0, B);
    CongSmall(xs[0], 0, B);
  }

  /** n turns: T holds (A * B + U * N) / R without remainder, for some U below R. */
  method Turns(t: Target, H: nat, B: nat, n: nat, m: nat, a: array<nat>, b: array<nat>, N: array<nat>,
               mm: nat, T: array<nat>)
    returns (ghost U: nat)
    requires H > 1 && B == H * H && a != T && b != T && N != T
    requires n <= N.Length && n <= a.Length && 0 < m <= n && m <= b.Length && 2 * n + 2 <= T.Length
    requires Digits(B, a[..]) && Digits(B, b[..]) && Digits(B, N[..])
    requires mm < B && (N[0] * mm + 1) % B == 0 && Val(B, N[..n]) > 0
    requires forall k | 0 <= k < T.Length :: T[k] == 0
    modifies T
    ensures Digits(B, T[..]) && U < Pow(B, n) && Val(B, T[n..]) < Val(B, N[..n]) + Val(B, b[..m])
    ensures Pow(B, n) * Val(B, T[n..]) == Val(B, a[..n]) * Val(B, b[..m]) + U * Val(B, N[..n])
  {
    hide Val, Pow;
    ghost var v, w := Val(B, b[..m]), Val(B, N[..n]);
    U := 0;
    TurnsStart(B, T[0..], a[..0], v, w);
    var i := 0;
    while i < n
      invariant 0 <= i <= n && Digits(B, T[..]) && U < Pow(B, i) && Val(B, T[i..]) < w + v
      invariant Pow(B, i) * Val(B, T[i..]) == Val(B, a[..i]) * v + U * w
    {
      ghost var t0 := Val(B, T[i..]);
      ghost var u1 := Turn(t, H, B, i, n, m, a, b, N, mm, T);
      NextPrefix(B, a[..], i);
      assert a[..][..i] == a[..i] && a[..][..i + 1] == a[..i + 1];
      NextTurn(B, Pow(B, i), t0, Val(B, T[i + 1..]), a[i], v, u1, w, Val(B, a[..i]), U);
      PowNext(B, i);
      U := U + Pow(B, i) * u1;
      i := i + 1;
    }
  }

  lemma TurnsStart(B: nat, xs: seq<nat>, us: seq<nat>, v: nat, w: nat)
    requires us == [] && forall k | 0 <= k < |xs| :: xs[k] == 0
    ensures Pow(B, 0) == 1 && Val(B, xs) == 0
    ensures Pow(B, 0) * Val(B, xs) == Val(B, us) * v + 0 * w
  {
    ValZeros(B, xs);
  }

  lemma NextTurn(B: nat, p: nat, t: nat, t': nat, u0: nat, v: nat, u1: nat, w: nat, a: nat, U: nat)
    requires B * t' == t + u0 * v + u1 * w && p * t == a * v + U * w && U < p && u1 < B
    ensures (B * p) * t' == (a + p * u0) * v + (U + p * u1) * w
    ensures U + p * u1 < B * p
  {
    assert (B * p) * t' == p * (B * t');
    assert p * (t + u0 * v + u1 * w) == p * t + p * (u0 * v) + p * (u1 * w);
    Assoc(p, u0, v);
    Assoc(p, u1, w);
    assert (a + p * u0) * v == a * v + (p * u0) * v;
    assert (U + p * u1) * w == U * w + (p * u1) * w;
    MulMonotone(u1 + 1, B, p);
  }

  /** r is a * v / R modulo w, and fully reduced when the factors are reduced enough. */
  ghost predicate MontProduct(R: nat, a: nat, v: nat, w: nat, r: nat)
    requires w > 0
  {
    Cong(r * R, a * v, w) && (a * v < w * R ==> r < w)
  }

  /** The quotient, less the modulus if that fits, is A * B / R, reduced for reduced operands. */
  lemma Quotient(R: nat, t: nat, a: nat, v: nat, U: nat, w: nat, r: nat)
    requires R > 0 && w > 0 && R * t == a * v + U * w && U < R && r == if t >= w then t - w else t
    ensures MontProduct(R, a, v, w, r)
  {
    if t >= w {
      assert (t - w) * R == a * v + (U - R) * w;
      CongIntro((t - w) * R, a * v, w, U - R);
    } else {
      CongIntro(t * R, a * v, w, U);
    }
    MulMonotone(U, R, w);
    if a * v < w * R && t >= 2 * w {
      MulMonotone(2 * w, t, R);
    }
  }

  /**
   * mpi_montmul: A = A * B * R^-1 mod N with R = 2^(biL * n), on the low n limbs of A and of B.
   * B may be A itself. T is scratch of twice N and two limbs more; one that is not even longer
   * than N is refused. For operands whose product is below N * R the result is fully reduced.
   */
  method MontMul(t: Target, H: nat, B: nat, A: array<nat>, b: array<nat>, N: array<nat>, mm: nat, T: array<nat>)
    returns (ret: int)
    requires H > 1 && B == H * H && A != T && b != T && N != T && A != N
    requires 0 < N.Length < A.Length && b.Length > 0
    requires T.Length < N.Length + 1 || 2 * N.Length + 2 <= T.Length
    requires Digits(B, A[..]) && Digits(B, b[..]) && Digits(B, N[..])
    requires forall k | N.Length < k < A.Length :: A[k] == 0
    requires mm < B && (N[0] * mm + 1) % B == 0 && Val(B, N[..]) > 0
    modifies A, T
    ensures ret == if T.Length < N.Length + 1 then ERR_BAD_INPUT_DATA else 0
    ensures ret != 0 ==> A[..] == old(A[..])
    ensures ret == 0 ==> Digits(B, A[..]) && forall k | N.Length < k < A.Length :: A[k] == 0
    ensures ret == 0 ==>
      var m := if b.Length < N.Length then b.Length else N.Length;
      MontProduct(Pow(B, N.Length), old(Val(B, A[..N.Length])), old(Val(B, b[..m])), Val(B, N[..]), Val(B, A[..]))
  {
    hide Val, Pow, MontProduct;
    if T.Length < N.Length + 1 {
      return ERR_BAD_INPUT_DATA;
    }
    forall k | 0 <= k < T.Length {
      T[k] := 0;
    }
    var n := N.Length;
    var m := if b.Length < n then b.Length else n;
    assert N[..n] == N[..] == old(N[..]) && A[..n] == old(A[..n]) && b[..m] == old(b[..m]);
    ghost var a, v, w, R := Val(B, A[..n]), Val(B, b[..m]), Val(B, N[..]), Pow(B, n);
    ghost var U := Turns(t, H, B, n, m, A, b, N, mm, T);
    ghost var q := Val(B, T[n..]);
    QuotientFits(B, n, m, T[n..], b[..m], N[..n]);
    Finish(B, n, A, N, T);
    Quotient(R, q, a, v, U, w, Val(B, A[..]));
    ret := 0;
  }

  /**
   * The end of the multiplication: the quotient is copied down into A and the modulus taken off
   * if it fits; otherwise a subtraction of the same length is made from the scratch.
   */
  method Finish(B: nat, n: nat, A: array<nat>, N: array<nat>, T: array<nat>)
    requires B > 1 && A != T && N != T && A != N && n == N.Length < A.Length && 2 * n + 2 <= T.Length
    requires Digits(B, A[..]) && Digits(B, N[..]) && Digits(B, T[..])
    requires forall k | n < k < A.Length :: A[k] == 0
    requires Val(B, T[n..]) < Pow(B, n + 1)
    modifies A, T
    ensures Digits(B, A[..]) && forall k | n < k < A.Length :: A[k] == 0
    ensures var q, w := old(Val(B, T[n..])), Val(B, N[..]); Val(B, A[..]) == if q >= w then q - w else q
  {
    hide Val, Pow;
    assert N[..n] == N[..];
    assert forall k | n < k < A.Length :: A[n + 1..][k - (n + 1)] == A[k];
    MoveUp(T, n, A, n + 1);
    assert forall k | n < k < A.Length :: A[k] == A[n + 1..][k - (n + 1)];
    assert A[..][..n + 1] == T[n..][..n + 1];
    assert Digits(B, A[..]) by {
      assert forall k | 0 <= k <= n :: A[k] == A[..n + 1][k] == T[n + k];
    }
    SmallHead(B, A[..], T[n..], n + 1);
    var r := Mpi.CmpAbs(B, A, N);
    if r >= 0 {
      SubHlp(B, n, N, A);
      StillSmall(B, A[..], n + 1);
    } else {
      Absorbs(B, T[..], n, A[..n], A[..]);
      SubHlp(B, n, A, T);
    }
  }

  lemma QuotientFits(B: nat, n: nat, m: nat, ts: seq<nat>, bs: seq<nat>, Ns: seq<nat>)
    requires B > 1 && |bs| == m <= n == |Ns| && n + 1 <= |ts| && Digits(B, bs) && Digits(B, Ns)
    requires Val(B, ts) < Val(B, Ns) + Val(B, bs)
    ensures Val(B, ts) < Pow(B, n + 1)
  {
    ValBound(B, bs);
    ValBound(B, Ns);
    PowMonotone(B, m, n);
    MulMonotone(2, B, Pow(B, n));
  }

  /** memcpy of k limbs from T at n to the start of A. */
  method MoveUp(T: array<nat>, n: nat, A: array<nat>, k: nat)
    requires A != T && n + k <= T.Length && k <= A.Length
    modifies A
    ensures A[..k] == T[n..n + k] && A[k..] == old(A[k..])
  {
    forall i | 0 <= i < k {
      A[i] := T[n + i];
    }
  }

  lemma SmallHead(B: nat, xs: seq<nat>, ts: seq<nat>, k: nat)
    requires B > 0 && k <= |xs| && k <= |ts| && xs[..k] == ts[..k] && Val(B, ts) < Pow(B, k)
    requires forall i | k <= i < |xs| :: xs[i] == 0
    ensures Val(B, xs) == Val(B, ts)
  {
    SmallValue(B, ts, k);
    Mpi.SameNumber(B, xs, ts, k);
  }

  lemma StillSmall(B: nat, xs: seq<nat>, k: nat)
    requires B > 0 && k <= |xs| && Val(B, xs) < Pow(B, k)
    ensures forall i | k <= i < |xs| :: xs[i] == 0
  {
    SmallValue(B, xs, k);
  }

  /** The dummy subtraction never borrows past the end: T is at least what is taken from it. */
  lemma Absorbs(B: nat, ts: seq<nat>, n: nat, low: seq<nat>, xs: seq<nat>)
    requires B > 0 && n <= |ts| && n <= |xs| && low == xs[..n] && Val(B, ts[n..]) == Val(B, xs)
    ensures Val(B, low) <= Val(B, ts)
  {
    ValSplit(B, xs, n);
    ValSplit(B, ts, n);
    MulMonotone(1, Pow(B, n), Val(B, ts[n..]));
    MulMonotone(0, Pow(B, n), Val(B, xs[n..]));
  }
}
