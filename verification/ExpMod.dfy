/**
 * Sliding-window exponentiation X = A^E mod N over limb arrays. Registers hold a^e * R mod N for
 * an exponent e that the algorithm never stores; the proofs carry it along.
 */
module ExpMod {
  import opened Powers
  import opened Limbs
  import opened Kernels
  import opened Residues
  import opened Montgomery
  import opened Numerals
  import opened Errors
  import Mpi
  import opened DivisionObjects
  import Division
  import opened VanishingPowers
  import Gcd

  /** x is the Montgomery form of v. */
  ghost predicate Form(R: nat, w: nat, x: nat, v: nat)
    requires w > 0
  {
    Cong(x, v * R, w)
  }

  /** A register: a fully reduced number with one limb to spare. */
  ghost predicate Reg(B: nat, N: array<nat>, x: array<nat>)
    reads N, x
  {
    x.Length > N.Length && Digits(B, x[..]) && Val(B, x[..]) < Val(B, N[..])
  }

  /** The modulus, its Montgomery constant, and an inverse of R that only the proofs know. */
  ghost predicate Modulus(B: nat, N: array<nat>, mm: nat, Ri: nat)
    reads N
  {
    && B > 1 && N.Length > 0 && Digits(B, N[..]) && Val(B, N[..]) > 0
    && mm < B && (N[0] * mm + 1) % B == 0
    && Cong(Pow(B, N.Length) * Ri, 1, Val(B, N[..]))
  }

  /** R has an inverse modulo N because the radix has one: mm witnesses it. */
  lemma InverseOfR(B: nat, ns: seq<nat>, mm: nat) returns (Ri: nat)
    requires B > 1 && |ns| > 0 && Digits(B, ns) && Val(B, ns) > 0 && (ns[0] * mm + 1) % B == 0
    ensures Cong(Pow(B, |ns|) * Ri, 1, Val(B, ns))
  {
    hide Val, Pow, Cong;
    var w := Val(B, ns);
    LowLimb(B, ns);
    var k := CongElim(w, ns[0], B);
    var q := (ns[0] * mm + 1) / B;
    assert ns[0] * mm + 1 == q * B;
    RadixInverse(B, w, ns[0], k, mm, q);
    var b := q + k * mm;
    assert Cong(B * b, 1, w);
    PowersOfInverse(B, b, w, |ns|);
    Ri := Pow(b, |ns|);
  }

  lemma RadixInverse(B: nat, w: nat, n0: nat, k: int, mm: nat, q: int)
    requires B > 0 && w > 0 && w == n0 + k * B && n0 * mm + 1 == q * B
    ensures Cong(B * (q + k * mm), 1, w) && q + k * mm >= 0
  {
    assert w * mm == n0 * mm + (k * B) * mm;
    assert (k * B) * mm == B * (k * mm);
    assert B * (q + k * mm) == B * q + B * (k * mm);
    CongIntro(B * (q + k * mm), 1, w, mm);
    MulMonotone(0, w, mm);
    if q + k * mm < 0 {
      MulMonotone(q + k * mm, -1, B);
    }
  }

  lemma {:induction false} PowersOfInverse(B: nat, b: nat, w: nat, n: nat)
    requires w > 0 && Cong(B * b, 1, w)
    ensures Cong(Pow(B, n) * Pow(b, n), 1, w)
  {
    hide Cong;
    if n == 0 {
      CongIntro(1, 1, w, 0);
    } else {
      var p, q := Pow(B, n - 1), Pow(b, n - 1);
      PowersOfInverse(B, b, w, n - 1);
      CongMul(B * b, 1, p * q, 1, w);
      Shuffle(B, b, p, q);
    }
  }

  lemma Shuffle(a: int, b: int, p: int, q: int)
    ensures (a * b) * (p * q) == (a * p) * (b * q)
  {
    assert (a * b) * (p * q) == a * (b * (p * q));
    assert b * (p * q) == p * (b * q);
    assert (a * p) * (b * q) == a * (p * (b * q));
  }

  /** A factor with an inverse can be cancelled. */
  lemma Cancel(x: int, y: int, R: int, Ri: int, w: nat)
    requires w > 0 && Cong(R * Ri, 1, w) && Cong(x * R, y * R, w)
    ensures Cong(x, y, w)
  {
    hide Cong;
    CongScale(x * R, y * R, Ri, w);
    Absorb(x, R, Ri, w);
    Absorb(y, R, Ri, w);
    CongTrans(x, (x * R) * Ri, (y * R) * Ri, w);
    CongSym(y, (y * R) * Ri, w);
    CongTrans(x, (y * R) * Ri, y, w);
  }

  lemma Absorb(x: int, R: int, Ri: int, w: nat)
    requires w > 0 && Cong(R * Ri, 1, w)
    ensures Cong(x, (x * R) * Ri, w)
  {
    hide Cong;
    CongScale(R * Ri, 1, x, w);
    Assoc(x, R, Ri);
    CongSym(x * (R * Ri), x, w);
  }

  /** The Montgomery product of two forms is the form of the product. */
  lemma ProductForm(R: nat, Ri: nat, w: nat, x: nat, u: nat, y: nat, v: nat, r: nat)
    requires w > 0 && Cong(R * Ri, 1, w) && Form(R, w, x, u) && Form(R, w, y, v) && Cong(r * R, x * y, w)
    ensures Form(R, w, r, u * v)
  {
    hide Cong;
    CongMul(x, u * R, y, v * R, w);
    Shuffle(u, R, v, R);
    assert (u * R) * (v * R) == ((u * v) * R) * R by {
      Shuffle(u, v, R, R);
      Assoc(u * v, R, R);
    }
    CongTrans(r * R, x * y, ((u * v) * R) * R, w);
    Cancel(r, (u * v) * R, R, Ri, w);
  }

  /** One call of mpi_montmul on registers: forms multiply, exponents add. */
  method MulReg(t: Target, H: nat, B: nat, x: array<nat>, y: array<nat>, N: array<nat>, mm: nat, T: array<nat>,
                ghost Ri: nat, ghost a: nat, ghost e: nat, ghost f: nat)
    requires H > 1 && B == H * H && Modulus(B, N, mm, Ri) && x != T && y != T && N != T && x != N
    requires T.Length == 2 * N.Length + 2 && Reg(B, N, x) && Reg(B, N, y)
    requires Form(Pow(B, N.Length), Val(B, N[..]), Val(B, x[..]), Pow(a, e))
    requires Form(Pow(B, N.Length), Val(B, N[..]), Val(B, y[..]), Pow(a, f))
    modifies x, T
    ensures Reg(B, N, x) && Form(Pow(B, N.Length), Val(B, N[..]), Val(B, x[..]), Pow(a, e + f))
  {
    hide Val, Pow, Form, Cong;
    ghost var n, w, R := N.Length, Val(B, N[..]), Pow(B, N.Length);
    ghost var u, v := Val(B, x[..]), Val(B, y[..]);
    ValBound(B, N[..]);
    SmallValue(B, x[..], n);
    SmallValue(B, y[..], n);
    assert x[..][..n] == x[..n] && y[..][..n] == y[..n];
    assert N[..] == old(N[..]);
    var ret := MontMul(t, H, B, x, y, N, mm, T);
    MulMonotone(u, w, v);
    MulStrict(v, R, w);
    ProductForm(R, Ri, w, u, Pow(a, e), v, Pow(a, f), Val(B, x[..]));
    PowAdd(a, e, f);
  }

  /** The same, squaring k times over: a^e becomes a^(e * 2^k). */
  method Squarings(t: Target, H: nat, B: nat, k: nat, x: array<nat>, N: array<nat>, mm: nat, T: array<nat>,
                   ghost Ri: nat, ghost a: nat, ghost e: nat)
    requires H > 1 && B == H * H && Modulus(B, N, mm, Ri) && x != T && N != T && x != N
    requires T.Length == 2 * N.Length + 2 && Reg(B, N, x)
    requires Form(Pow(B, N.Length), Val(B, N[..]), Val(B, x[..]), Pow(a, e))
    modifies x, T
    ensures Reg(B, N, x) && Form(Pow(B, N.Length), Val(B, N[..]), Val(B, x[..]), Pow(a, e * Pow(2, k)))
  {
    hide Val, Form, Cong;
    ghost var f := e;
    assert e * Pow(2, 0) == e;
    for i := 0 to k
      invariant Modulus(B, N, mm, Ri) && Reg(B, N, x) && f == e * Pow(2, i)
      invariant Form(Pow(B, N.Length), Val(B, N[..]), Val(B, x[..]), Pow(a, f))
    {
      assert e * Pow(2, i + 1) == f + f;
      MulReg(t, H, B, x, x, N, mm, T, Ri, a, f, f);
      assert N[..] == old(N[..]);
      f := f + f;
    }
  }

  /** A fresh register with the contents of another. */
  method Clone(B: nat, n: nat, x: array<nat>) returns (y: array<nat>)
    requires n == x.Length
    ensures fresh(y) && y[..] == x[..]
  {
    y := new nat[n](_ => 0);
    for i := 0 to n
      invariant forall j | 0 <= j < i :: y[j] == x[j]
    {
      y[i] := x[i];
    }
  }

  /** Entry k of the table is register W[half + k], holding a^(half + k). */
  ghost predicate TableEntry(B: nat, N: array<nat>, x: array<nat>, a: nat, e: nat)
    requires Val(B, N[..]) > 0
    reads N, x
  {
    Reg(B, N, x) && Form(Pow(B, N.Length), Val(B, N[..]), Val(B, x[..]), Pow(a, e))
  }

  /**
   * The window table, for the exponents from 2^(wsize - 1) to 2^wsize - 1: the first by repeated
   * squaring of W[1], each of the others from its neighbour. With a window of one it is W[1] alone.
   */
  method Table(t: Target, H: nat, B: nat, wsize: nat, W1: array<nat>, N: array<nat>, mm: nat, T: array<nat>,
               ghost Ri: nat, ghost a: nat)
    returns (W: seq<array<nat>>)
    requires H > 1 && B == H * H && Modulus(B, N, mm, Ri) && W1 != T && N != T && W1 != N && wsize > 0
    requires T.Length == 2 * N.Length + 2 && TableEntry(B, N, W1, a, 1)
    modifies T
    ensures |W| == Pow(2, wsize - 1)
    ensures forall k | 0 <= k < |W| :: W[k] != T && W[k] != N && (W[k] == W1 || fresh(W[k]))
    ensures forall k | 0 <= k < |W| :: TableEntry(B, N, W[k], a, |W| + k)
  {
    hide Val, Pow, Form, Cong;
    var half := Pow(2, wsize - 1);
    W := [W1];
    PowOfTwo(wsize);
    if wsize > 1 {
      var x := Clone(B, W1.Length, W1);
      Squarings(t, H, B, wsize - 1, x, N, mm, T, Ri, a, 1);
      assert 1 * half == half;
      W := [x];
      var i := 1;
      while i < half
        invariant 1 <= i <= half && |W| == i
        invariant N[..] == old(N[..]) && W1[..] == old(W1[..])
        invariant forall k | 0 <= k < i :: fresh(W[k]) && TableEntry(B, N, W[k], a, half + k)
      {
        var y := Clone(B, W[i - 1].Length, W[i - 1]);
        MulReg(t, H, B, y, W1, N, mm, T, Ri, a, half + (i - 1), 1);
        W := W + [y];
        i := i + 1;
      }
    }
  }

  lemma PowOfTwo(wsize: nat)
    requires wsize > 0
    ensures Pow(2, wsize - 1) > 0 && (wsize == 1 ==> Pow(2, wsize - 1) == 1)
  {
  }

  /** The exponent bits read so far, as a number: everything from bit bs of limb nb upwards. */
  ghost function Prefix(B: nat, es: seq<nat>, nb: nat, bs: nat): nat
    requires nb <= |es|
  {
    Val(B, es[nb..]) / Pow(2, bs)
  }

  /** Going on to the next limb down reads nothing yet. */
  lemma NewLimb(B: nat, bl: nat, es: seq<nat>, nb: nat)
    requires B == Pow(2, bl) && nb < |es| && es[nb] < B
    ensures Prefix(B, es, nb, bl) == Prefix(B, es, nb + 1, 0)
  {
    assert es[nb..][1..] == es[nb + 1..];
    DivModUnique(Val(B, es[nb..]), B, Val(B, es[nb + 1..]), es[nb]);
  }

  /** Reading one more bit doubles the prefix and adds the bit. */
  lemma NewBit(B: nat, bl: nat, es: seq<nat>, nb: nat, bs: nat)
    requires B == Pow(2, bl) && nb < |es| && bs < bl
    ensures Prefix(B, es, nb, bs) == 2 * Prefix(B, es, nb, bs + 1) + Shr(es[nb], bs) % 2
  {
    assert es[nb..][1..] == es[nb + 1..];
    PowAdd(2, bs, bl - bs);
    assert Pow(2, bl - bs) == 2 * Pow(2, bl - bs - 1);
    SplitBit(Pow(2, bs), Pow(2, bl - bs - 1), es[nb], Val(B, es[nb + 1..]));
  }

  lemma SplitBit(P: nat, Q: nat, x: nat, v: nat)
    requires P > 0
    ensures var y := x + (P * (2 * Q)) * v; y / P == 2 * (y / (2 * P)) + (x / P) % 2
  {
    var y, h, l := x + (P * (2 * Q)) * v, x / P, x % P;
    var g, bit := h / 2, h % 2;
    assert x == h * P + l;
    assert (P * (2 * Q)) * v == (2 * (Q * v)) * P;
    assert (h + 2 * (Q * v)) * P == h * P + (2 * (Q * v)) * P;
    DivModUnique(y, P, h + 2 * (Q * v), l);
    assert (g + Q * v) * (2 * P) == (2 * g + 2 * (Q * v)) * P;
    assert (2 * g + 2 * (Q * v) + bit) * P == (2 * g + 2 * (Q * v)) * P + bit * P;
    MulMonotone(bit, 1, P);
    DivModUnique(y, 2 * P, g + Q * v, bit * P + l);
  }

  /**
   * The scanner between two bits. Q is the exponent read so far; e of it is in the register X and
   * the last nbits of it, with value pv, wait in the window, left-aligned in wbits. The window
   * begins with a one bit, and stays closed (state 0 or 1) until one comes.
   */
  ghost predicate Scanning(wsize: nat, state: nat, nbits: nat, wbits: nat, e: nat, pv: nat, Q: nat) {
    && nbits < wsize && state <= 2
    && wbits == pv * Pow(2, wsize - nbits) && pv < Pow(2, nbits)
    && Q == e * Pow(2, nbits) + pv
    && (state == 2 <==> nbits > 0) && (nbits > 0 ==> pv >= Pow(2, nbits - 1))
    && (state == 0 ==> Q == 0)
  }

  lemma ScanStart(wsize: nat, state: nat, e: nat)
    requires wsize > 0 && state <= 1 && (state == 0 ==> e == 0)
    ensures Scanning(wsize, state, 0, 0, e, 0, e)
  {
  }

  /** A zero bit outside a window leaves the window empty and doubles the exponent held. */
  lemma ScanZero(wsize: nat, state: nat, nbits: nat, wbits: nat, e: nat, pv: nat, Q: nat)
    requires Scanning(wsize, state, nbits, wbits, e, pv, Q) && state <= 1
    ensures nbits == 0 && wbits == 0 && e == Q && Scanning(wsize, state, 0, 0, 2 * e, 0, 2 * Q)
    ensures state == 0 ==> Q == 0
  {
    assert pv == 0;
  }

  /** Any other bit goes into the window. */
  lemma ScanBit(wsize: nat, state: nat, nbits: nat, wbits: nat, e: nat, pv: nat, Q: nat, ei: nat)
    requires Scanning(wsize, state, nbits, wbits, e, pv, Q) && ei <= 1 && (ei == 1 || state == 2)
    ensures var pv', w' := 2 * pv + ei, wbits + ei * Pow(2, wsize - (nbits + 1));
            && w' == pv' * Pow(2, wsize - (nbits + 1))
            && Pow(2, nbits) <= pv' < Pow(2, nbits + 1)
            && 2 * Q + ei == e * Pow(2, nbits + 1) + pv'
            && (nbits + 1 < wsize ==> Scanning(wsize, 2, nbits + 1, w', e, pv', 2 * Q + ei))
            && (nbits + 1 == wsize ==> w' == pv')
  {
    hide Pow;
    PowNext(2, wsize - (nbits + 1));
    PowNext(2, nbits);
    assert (wsize - (nbits + 1)) + 1 == wsize - nbits;
    ShiftIn(pv, Pow(2, wsize - (nbits + 1)), ei, e, Pow(2, nbits));
    if nbits > 0 {
      PowNext(2, nbits - 1);
    } else {
      PowZero(2);
      assert pv == 0;
    }
    if nbits + 1 == wsize {
      PowZero(2);
    }
  }

  lemma ShiftIn(pv: nat, P: nat, ei: nat, e: nat, M: nat)
    ensures pv * (2 * P) + ei * P == (2 * pv + ei) * P
    ensures e * (2 * M) == 2 * (e * M)
  {
  }

  /** A full window: squaring wsize times and one table product bring the register up to Q. */
  method Flush(t: Target, H: nat, B: nat, wsize: nat, X: array<nat>, W: seq<array<nat>>, wbits: nat,
               N: array<nat>, mm: nat, T: array<nat>, ghost Ri: nat, ghost a: nat, ghost e: nat)
    requires H > 1 && B == H * H && Modulus(B, N, mm, Ri) && X != T && N != T && X != N && wsize > 0
    requires T.Length == 2 * N.Length + 2 && TableEntry(B, N, X, a, e)
    requires |W| == Pow(2, wsize - 1) && |W| <= wbits < 2 * |W|
    requires forall k | 0 <= k < |W| :: W[k] != T && W[k] != X && TableEntry(B, N, W[k], a, |W| + k)
    modifies X, T
    ensures TableEntry(B, N, X, a, e * Pow(2, wsize) + wbits)
  {
    hide Val, Pow, Form, Cong;
    var y := W[wbits - |W|];
    assert TableEntry(B, N, y, a, wbits);
    Squarings(t, H, B, wsize, X, N, mm, T, Ri, a, e);
    assert N[..] == old(N[..]) && y[..] == old(y[..]);
    MulReg(t, H, B, X, y, N, mm, T, Ri, a, e * Pow(2, wsize), wbits);
  }

  /** A bit goes into the window, and a full window into the register. */
  method TakeBit(t: Target, H: nat, B: nat, wsize: nat, X: array<nat>, W: seq<array<nat>>, ei: nat,
                 state: nat, nbits: nat, wbits: nat, N: array<nat>, mm: nat, T: array<nat>,
                 ghost Ri: nat, ghost a: nat, ghost e: nat, ghost pv: nat, ghost Q: nat)
    returns (state': nat, nbits': nat, wbits': nat, ghost e': nat, ghost pv': nat)
    requires H > 1 && B == H * H && Modulus(B, N, mm, Ri) && X != T && N != T && X != N && wsize > 0 && ei <= 1
    requires T.Length == 2 * N.Length + 2 && TableEntry(B, N, X, a, e) && |W| == Pow(2, wsize - 1)
    requires forall k | 0 <= k < |W| :: W[k] != T && W[k] != X && TableEntry(B, N, W[k], a, |W| + k)
    requires Scanning(wsize, state, nbits, wbits, e, pv, Q) && (ei == 1 || state == 2)
    modifies X, T
    ensures Scanning(wsize, state', nbits', wbits', e', pv', 2 * Q + ei)
    ensures TableEntry(B, N, X, a, e')
  {
    hide Val, Pow, Form, Cong, Digits, TableEntry, Modulus;
    ScanBit(wsize, state, nbits, wbits, e, pv, Q, ei);
    state', e' := 2, e;
    nbits' := nbits + 1;
    wbits' := wbits + ei * Pow(2, wsize - nbits');
    pv' := 2 * pv + ei;
    if nbits' == wsize {
      PowNext(2, wsize - 1);
      Flush(t, H, B, wsize, X, W, wbits', N, mm, T, Ri, a, e);
      state' := state' - 1;
      nbits', wbits' := 0, 0;
      e', pv' := 2 * Q + ei, 0;
      ScanStart(wsize, 1, e');
    }
  }

  /** What one exponent bit does: nothing, a squaring, or a step into the window and perhaps its use. */
  method Digest(t: Target, H: nat, B: nat, wsize: nat, X: array<nat>, W: seq<array<nat>>, ei: nat,
                state: nat, nbits: nat, wbits: nat, N: array<nat>, mm: nat, T: array<nat>,
                ghost Ri: nat, ghost a: nat, ghost e: nat, ghost pv: nat, ghost Q: nat)
    returns (state': nat, nbits': nat, wbits': nat, ghost e': nat, ghost pv': nat)
    requires H > 1 && B == H * H && Modulus(B, N, mm, Ri) && X != T && N != T && X != N && wsize > 0 && ei <= 1
    requires T.Length == 2 * N.Length + 2 && TableEntry(B, N, X, a, e) && |W| == Pow(2, wsize - 1)
    requires forall k | 0 <= k < |W| :: W[k] != T && W[k] != X && TableEntry(B, N, W[k], a, |W| + k)
    requires Scanning(wsize, state, nbits, wbits, e, pv, Q)
    modifies X, T
    ensures Scanning(wsize, state', nbits', wbits', e', pv', 2 * Q + ei)
    ensures TableEntry(B, N, X, a, e')
  {
    hide Val, Pow, Form, Cong, Digits;
    state', nbits', wbits', e', pv' := state, nbits, wbits, e, pv;
    if ei == 0 && state == 0 {
      ScanZero(wsize, state, nbits, wbits, e, pv, Q);
      e', pv' := 2 * e, 0;
    } else if ei == 0 && state == 1 {
      ScanZero(wsize, state, nbits, wbits, e, pv, Q);
      MulReg(t, H, B, X, X, N, mm, T, Ri, a, e, e);
      e', pv' := 2 * e, 0;
    } else {
      state', nbits', wbits', e', pv' :=
        TakeBit(t, H, B, wsize, X, W, ei, state, nbits, wbits, N, mm, T, Ri, a, e, pv, Q);
    }
  }

  /** The radix of the modulus leaves one, as B^n does for the divisors of B^n - 1. */
  ghost predicate UnitRadix(B: nat, N: array<nat>)
    reads N
  {
    Val(B, N[..]) > 1 && Cong(Pow(B, N.Length), 1, Val(B, N[..]))
  }

  /** Then the register that stands for one holds one. */
  lemma UnitRegister(B: nat, N: array<nat>, X: array<nat>, a: nat)
    requires B > 1 && Val(B, N[..]) > 0 && UnitRadix(B, N) && TableEntry(B, N, X, a, 0)
    ensures Val(B, X[..]) == 1 && X.Length > 0 && Digits(B, X[..])
  {
    hide Cong, Val, Pow;
    var w, R, x := Val(B, N[..]), Pow(B, N.Length), Val(B, X[..]);
    PowZero(a);
    assert 1 * R == R;
    CongTrans(x, R, 1, w);
    CongSmall(x, 1, w);
  }

  lemma UnitLimbs(B: nat, xs: seq<nat>, k: nat)
    requires B > 1 && Digits(B, xs) && Val(B, xs) == 1 && k < |xs|
    ensures xs[k] == if k == 0 then 1 else 0
  {
    var low := [1];
    assert xs == [xs[0]] + xs[1..];
    if Val(B, xs[1..]) > 0 {
      MulMonotone(1, Val(B, xs[1..]), B);
    }
    ZeroVal(B, xs[1..]);
    assert k > 0 ==> xs[k] == xs[1..][k - 1];
  }

  lemma UnitBit(x: nat, bs: nat)
    requires x <= 1
    ensures Shr(x, bs) % 2 == if bs == 0 then x else 0
  {
    PowZero(2);
    if bs > 0 {
      PowNext(2, bs - 1);
      DivModUnique(x, Pow(2, bs), 0, x);
    }
  }

  /** Reading the bits of the register itself, as long as it stands for one. */
  lemma OwnBit(B: nat, N: array<nat>, X: array<nat>, a: nat, e: nat, pv: nat, nbits: nat, Q: nat, nb: nat, bs: nat)
    requires B > 1 && Val(B, N[..]) > 0 && UnitRadix(B, N) && TableEntry(B, N, X, a, e) && nb < X.Length
    requires Q == 0 && Q == e * Pow(2, nbits) + pv
    ensures Shr(X[nb], bs) % 2 == if nb == 0 && bs == 0 then 1 else 0
  {
    hide TableEntry, UnitRadix, Shr, Pow, Val, Digits;
    ZeroFactor(e, Pow(2, nbits));
    UnitRegister(B, N, X, a);
    UnitLimbs(B, X[..], nb);
    UnitBit(X[nb], bs);
  }

  lemma ZeroFactor(e: nat, p: nat)
    requires p > 0 && e * p == 0
    ensures e == 0
  {
    if e > 0 {
      MulMonotone(1, e, p);
    }
  }

  /**
   * The main loop: the bits of the exponent from the top, the leading zeros skipped, squarings
   * between the windows. What is left in an unfinished window is returned with its width. When the
   * exponent is the register X itself, the bits are those that X shows at the time; over a unit
   * radix that is a single one.
   */
  method Scan(t: Target, H: nat, B: nat, bl: nat, wsize: nat, X: array<nat>, W: seq<array<nat>>,
              E: array<nat>, N: array<nat>, mm: nat, T: array<nat>, ghost Ri: nat, ghost a: nat)
    returns (nbits: nat, wbits: nat, ghost e: nat, ghost pv: nat)
    requires H > 1 && B == H * H == Pow(2, bl) && bl > 0 && wsize > 0 && Modulus(B, N, mm, Ri)
    requires X != T && N != T && X != N && E != T && Digits(B, E[..])
    requires T.Length == 2 * N.Length + 2 && TableEntry(B, N, X, a, 0)
    requires |W| == Pow(2, wsize - 1)
    requires forall k | 0 <= k < |W| :: W[k] != T && W[k] != X && TableEntry(B, N, W[k], a, |W| + k)
    modifies X, T
    ensures TableEntry(B, N, X, a, e) && nbits < wsize && pv < Pow(2, nbits) && wbits == pv * Pow(2, wsize - nbits)
    ensures X != E ==> Val(B, E[..]) == e * Pow(2, nbits) + pv
    ensures X == E && UnitRadix(B, N) ==> e * Pow(2, nbits) + pv == 1
  {
    hide Val, Pow, Form, Cong, Digits, Scanning, Prefix, Shr, UnitRadix;
    var nblimbs: nat, bufsize: nat, state: nat := E.Length, 0, 0;
    nbits, wbits, e, pv := 0, 0, 0, 0;
    ghost var Q: nat, es, own := 0, E[..], X == E && UnitRadix(B, N);
    ScanStart(wsize, 0, 0);
    EmptyPrefixIsZero(B, es);
    while true
      invariant nblimbs <= E.Length && bufsize <= bl && N[..] == old(N[..])
      invariant Scanning(wsize, state, nbits, wbits, e, pv, Q) && TableEntry(B, N, X, a, e)
      invariant X != E ==> E[..] == es && Q == Prefix(B, es, nblimbs, bufsize)
      invariant own ==> UnitRadix(B, N) && X.Length > 0 && Q == if nblimbs == 0 && bufsize == 0 then 1 else 0
      invariant forall k | 0 <= k < |W| :: TableEntry(B, N, W[k], a, |W| + k)
      decreases nblimbs, bufsize
    {
      if bufsize == 0 {
        if nblimbs == 0 {
          break;
        }
        nblimbs := nblimbs - 1;
        bufsize := bl;
        if X != E {
          LimbBelow(B, es, nblimbs);
          NewLimb(B, bl, es, nblimbs);
        }
      }
      bufsize := bufsize - 1;
      NewBit(B, bl, E[..], nblimbs, bufsize);
      var ei := Shr(E[nblimbs], bufsize) % 2;
      if own {
        ScanSum(wsize, state, nbits, wbits, e, pv, Q);
        OwnBit(B, N, X, a, e, pv, nbits, Q, nblimbs, bufsize);
      }
      state, nbits, wbits, e, pv := Digest(t, H, B, wsize, X, W, ei, state, nbits, wbits, N, mm, T, Ri, a, e, pv, Q);
      Q := 2 * Q + ei;
    }
    WholePrefix(B, es);
    ScanEnds(wsize, state, nbits, wbits, e, pv, Q);
  }

  lemma ScanSum(wsize: nat, state: nat, nbits: nat, wbits: nat, e: nat, pv: nat, Q: nat)
    requires Scanning(wsize, state, nbits, wbits, e, pv, Q)
    ensures Q == e * Pow(2, nbits) + pv
  {
  }

  lemma ScanEnds(wsize: nat, state: nat, nbits: nat, wbits: nat, e: nat, pv: nat, Q: nat)
    requires Scanning(wsize, state, nbits, wbits, e, pv, Q)
    ensures nbits < wsize && pv < Pow(2, nbits) && wbits == pv * Pow(2, wsize - nbits) && Q == e * Pow(2, nbits) + pv
  {
  }

  lemma EmptyPrefixIsZero(B: nat, es: seq<nat>)
    ensures Prefix(B, es, |es|, 0) == 0
  {
  }

  lemma WholePrefix(B: nat, es: seq<nat>)
    ensures Prefix(B, es, 0, 0) == Val(B, es)
  {
    assert es[0..] == es;
  }

  lemma LimbBelow(B: nat, es: seq<nat>, k: nat)
    requires Digits(B, es) && k < |es|
    ensures es[k] < B
  {
  }

  /** The bit that reaches position wsize when the left-aligned window is shifted once more. */
  lemma LeftBit(wsize: nat, nbits: nat, i: nat, pv: nat)
    requires i < nbits < wsize
    ensures var wb, k := (pv * Pow(2, wsize - nbits)) * Pow(2, i), nbits - i - 1;
            && Shr(2 * wb, wsize) == Shr(pv, k)
            && Shr(pv, k) == 2 * Shr(pv, k + 1) + Shr(pv, k) % 2
            && 2 * wb == (pv * Pow(2, wsize - nbits)) * Pow(2, i + 1)
  {
    hide Pow;
    var k := nbits - i - 1;
    var C := Pow(2, wsize - nbits) * Pow(2, i + 1);
    PowNext(2, i);
    PowNext(2, k);
    PowAdd(2, wsize - nbits, i + 1);
    PowAdd(2, wsize - nbits + i + 1, k);
    assert wsize - nbits + i + 1 + k == wsize;
    var q, r, P := pv / Pow(2, k), pv % Pow(2, k), Pow(2, k);
    Regroup(pv, Pow(2, wsize - nbits), Pow(2, i), C);
    ScaledDivision(pv, C, P);
    HalvedDivision(pv, P);
  }

  lemma Regroup(pv: nat, A: nat, D: nat, C: nat)
    requires C == A * (2 * D)
    ensures 2 * ((pv * A) * D) == pv * C && 2 * ((pv * A) * D) == (pv * A) * (2 * D)
  {
    assert (pv * A) * (2 * D) == pv * (A * (2 * D));
    assert (pv * A) * (2 * D) == 2 * ((pv * A) * D);
  }

  lemma ScaledDivision(x: nat, C: nat, P: nat)
    requires C > 0 && P > 0
    ensures (x * C) / (C * P) == x / P
  {
    var q, r := x / P, x % P;
    assert x == q * P + r;
    assert x * C == q * (C * P) + r * C by {
      assert (q * P + r) * C == (q * P) * C + r * C;
      assert (q * P) * C == q * (C * P);
    }
    MulStrict(r, P, C);
    DivModUnique(x * C, C * P, q, r * C);
  }

  lemma HalvedDivision(x: nat, P: nat)
    requires P > 0
    ensures x / P == 2 * (x / (2 * P)) + (x / P) % 2
  {
    assert P * (2 * 1) == 2 * P;
    SplitBit(P, 1, x, 0);
  }

  /** The bits of an unfinished window, one at a time with W[1]. */
  method Leftover(t: Target, H: nat, B: nat, wsize: nat, X: array<nat>, W1: array<nat>, nbits: nat, wbits0: nat,
                  N: array<nat>, mm: nat, T: array<nat>, ghost Ri: nat, ghost a: nat, ghost e: nat, ghost pv: nat)
    requires H > 1 && B == H * H && Modulus(B, N, mm, Ri) && X != T && N != T && X != N
    requires W1 != X && W1 != T && nbits < wsize && T.Length == 2 * N.Length + 2
    requires pv < Pow(2, nbits) && wbits0 == pv * Pow(2, wsize - nbits)
    requires TableEntry(B, N, X, a, e) && TableEntry(B, N, W1, a, 1)
    modifies X, T
    ensures TableEntry(B, N, X, a, e * Pow(2, nbits) + pv)
  {
    hide Val, Pow, Form, Cong, Digits, Shr;
    var wbits := wbits0;
    ghost var f := e;
    LeftoverStart(e, pv, nbits, wbits0);
    for i := 0 to nbits
      invariant N[..] == old(N[..]) && wbits == wbits0 * Pow(2, i)
      invariant f == e * Pow(2, i) + Shr(pv, nbits - i) && TableEntry(B, N, X, a, f)
    {
      LeftBit(wsize, nbits, i, pv);
      LeftoverNext(e, i, Shr(pv, nbits - i), Shr(pv, nbits - i - 1));
      MulReg(t, H, B, X, X, N, mm, T, Ri, a, f, f);
      f := f + f;
      wbits := 2 * wbits;
      if Shr(wbits, wsize) % 2 != 0 {
        MulReg(t, H, B, X, W1, N, mm, T, Ri, a, f, 1);
        f := f + 1;
      }
    }
    LeftoverEnd(pv);
  }

  lemma LeftoverStart(e: nat, pv: nat, nbits: nat, wbits: nat)
    requires pv < Pow(2, nbits)
    ensures e == e * Pow(2, 0) + Shr(pv, nbits) && wbits == wbits * Pow(2, 0)
  {
    DivModUnique(pv, Pow(2, nbits), 0, pv);
  }

  lemma LeftoverEnd(pv: nat)
    ensures Shr(pv, 0) == pv
  {
    assert Pow(2, 0) == 1;
  }

  lemma LeftoverNext(e: nat, i: nat, q: nat, q': nat)
    requires q' == 2 * q + q' % 2
    ensures 2 * (e * Pow(2, i) + q) + q' % 2 == e * Pow(2, i + 1) + q'
  {
    assert e * (2 * Pow(2, i)) == 2 * (e * Pow(2, i));
  }

  /** The window width for an exponent of so many bits, capped by MBEDTLS_MPI_WINDOW_SIZE. */
  function WindowSize(bits: nat, cap: nat): nat {
    var w := if bits > 671 then 6 else if bits > 239 then 5 else if bits > 79 then 4 else if bits > 23 then 3 else 1;
    if w > cap then cap else w
  }

  /** mpi_montred: multiplication by a one-limb one takes a register out of Montgomery form. */
  method MontRed(t: Target, H: nat, B: nat, x: array<nat>, N: array<nat>, mm: nat, T: array<nat>, ghost Ri: nat)
    requires H > 1 && B == H * H && Modulus(B, N, mm, Ri) && x != T && N != T && x != N
    requires T.Length == 2 * N.Length + 2 && Reg(B, N, x)
    modifies x, T
    ensures Reg(B, N, x) && Cong(Val(B, x[..]) * Pow(B, N.Length), old(Val(B, x[..])), Val(B, N[..]))
  {
    hide Val, Pow, Cong;
    ghost var n, w, R, u := N.Length, Val(B, N[..]), Pow(B, N.Length), Val(B, x[..]);
    var one := new nat[1](_ => 1);
    assert one[..1] == [1] == one[..];
    ValSingle(B, 1);
    ValBound(B, N[..]);
    SmallValue(B, x[..], n);
    assert x[..][..n] == x[..n] && N[..] == old(N[..]);
    var ret := MontMul(t, H, B, x, one, N, mm, T);
    MulStrict(0, R, w);
    assert u * 1 == u;
  }

  /** Entering Montgomery form: the product with R^2 is the form of the other factor. */
  lemma EnterForm(R: nat, Ri: nat, w: nat, x: nat, rr: nat, v: nat, r: nat)
    requires w > 0 && Cong(R * Ri, 1, w) && Cong(rr, R * R, w) && Cong(x, v, w) && Cong(r * R, x * rr, w)
    ensures Form(R, w, r, v)
  {
    hide Cong;
    CongMul(x, v, rr, R * R, w);
    Assoc(v, R, R);
    CongTrans(r * R, x * rr, (v * R) * R, w);
    Cancel(r, v * R, R, Ri, w);
  }

  /** Leaving it: a reduced register of the form of v comes out congruent to v. */
  lemma LeaveForm(R: nat, Ri: nat, w: nat, x: nat, v: nat, r: nat)
    requires w > 0 && Cong(R * Ri, 1, w) && Form(R, w, x, v) && Cong(r * R, x, w)
    ensures Cong(r, v, w)
  {
    hide Cong;
    CongTrans(r * R, x, v * R, w);
    Cancel(r, v, R, Ri, w);
  }

  /** The base enters its form through the product with the square of R. */
  method EnterBase(t: Target, H: nat, B: nat, W1: array<nat>, RR: array<nat>, N: array<nat>, mm: nat, T: array<nat>,
                   ghost Ri: nat, ghost a: nat)
    requires H > 1 && B == H * H && Modulus(B, N, mm, Ri) && W1 != T && RR != T && N != T && W1 != N
    requires T.Length == 2 * N.Length + 2 && Reg(B, N, W1) && Reg(B, N, RR)
    requires Cong(Val(B, RR[..]), Pow(B, N.Length) * Pow(B, N.Length), Val(B, N[..]))
    requires Cong(Val(B, W1[..]), a, Val(B, N[..]))
    modifies W1, T
    ensures TableEntry(B, N, W1, a, 1)
  {
    hide Val, Pow, Form, Cong;
    ghost var n, w, R, u, rr := N.Length, Val(B, N[..]), Pow(B, N.Length), Val(B, W1[..]), Val(B, RR[..]);
    ValBound(B, N[..]);
    SmallValue(B, W1[..], n);
    SmallValue(B, RR[..], n);
    assert W1[..][..n] == W1[..n] && RR[..][..n] == RR[..n] && N[..] == old(N[..]);
    var ret := MontMul(t, H, B, W1, RR, N, mm, T);
    MulMonotone(u, w, rr);
    MulStrict(rr, R, w);
    EnterForm(R, Ri, w, u, rr, a, Val(B, W1[..]));
    PowOne(a);
  }

  /** Taking the square of R out of its form leaves R, which is the form of one. */
  method EnterOne(t: Target, H: nat, B: nat, X: array<nat>, N: array<nat>, mm: nat, T: array<nat>,
                  ghost Ri: nat, ghost a: nat)
    requires H > 1 && B == H * H && Modulus(B, N, mm, Ri) && X != T && N != T && X != N
    requires T.Length == 2 * N.Length + 2 && Reg(B, N, X)
    requires Cong(Val(B, X[..]), Pow(B, N.Length) * Pow(B, N.Length), Val(B, N[..]))
    modifies X, T
    ensures TableEntry(B, N, X, a, 0)
  {
    hide Val, Pow, Form, Cong;
    ghost var w, R, rr := Val(B, N[..]), Pow(B, N.Length), Val(B, X[..]);
    MontRed(t, H, B, X, N, mm, T, Ri);
    assert N[..] == old(N[..]);
    FormOfSquare(R, w, rr);
    LeaveForm(R, Ri, w, rr, R, Val(B, X[..]));
    PowOne(a);
    FormOfOne(R, w, Val(B, X[..]));
  }

  lemma FormOfSquare(R: nat, w: nat, x: nat)
    requires w > 0 && Cong(x, R * R, w)
    ensures Form(R, w, x, R)
  {
  }

  lemma FormOfOne(R: nat, w: nat, x: nat)
    requires w > 0 && Cong(x, R, w)
    ensures Form(R, w, x, 1)
  {
  }

  lemma PowOne(a: nat)
    ensures Pow(a, 1) == a && Pow(a, 0) == 1
  {
    assert Pow(a, 1) == a * Pow(a, 0);
  }

  /** R^2 mod N and A mod N, stored as registers. */
  method Operand(B: nat, v: nat, N: array<nat>) returns (x: array<nat>)
    requires B > 1 && Digits(B, N[..]) && v < Val(B, N[..])
    ensures fresh(x) && x.Length == N.Length + 1 && Reg(B, N, x) && Val(B, x[..]) == v
  {
    ValBound(B, N[..]);
    PowMonotone(B, N.Length, N.Length + 1);
    x := Store(B, v, N.Length + 1);
    assert N[..] == old(N[..]);
  }

  /** A number as a register, through mbedtls_mpi_mod_mpi unless it is known to be reduced. */
  method Remainder(udbl: bool, H: nat, bl: nat, B: nat, v: nat, N: array<nat>, divide: bool) returns (x: array<nat>)
    requires H > 1 && bl > 0 && B == H * H == Pow(2, bl) && Digits(B, N[..]) && Val(B, N[..]) > 0
    requires !divide ==> v < Val(B, N[..])
    ensures fresh(x) && x.Length == N.Length + 1 && Reg(B, N, x) && Cong(Val(B, x[..]), v, Val(B, N[..]))
  {
    hide Val, Pow, Cong;
    var w := Val(B, N[..]);
    var r := v;
    if divide {
      r := Division.Modulo(udbl, H, bl, B, 1, v, w);
      CongMod(v, w);
    }
    x := Operand(B, r, N);
    CongIntro(v, v, w, 0);
  }

  lemma OddModulus(B: nat, ns: seq<nat>)
    requires |ns| > 0 && ns[0] % 2 == 1
    ensures Val(B, ns) > 0
  {
  }

  /**
   * Everything before the window table: the constant, the scratch, W[1] and X in their forms. The
   * base has been read into W[1] when X is overwritten.
   */
  method Prepare(t: Target, udbl: bool, H: nat, B: nat, bl: nat, a: nat, X: array<nat>, N: array<nat>)
    returns (mm: nat, T: array<nat>, W1: array<nat>, ghost Ri: nat)
    requires H > 1 && B == H * H == Pow(2, bl) && Doubling(bl) && X != N && X.Length > N.Length
    requires N.Length > 0 && Digits(B, N[..]) && N[0] % 2 == 1
    modifies X
    ensures Modulus(B, N, mm, Ri) && fresh(T) && fresh(W1) && T.Length == 2 * N.Length + 2 && T != W1
    ensures TableEntry(B, N, W1, a, 1) && TableEntry(B, N, X, a, 0)
  {
    hide Val, Pow, Cong, Form;
    var n := N.Length;
    OddModulus(B, N[..]);
    mm := MontgInit(bl, B, N[0]);
    Ri := InverseOfR(B, N[..], mm);
    var w, R := Val(B, N[..]), Pow(B, n);
    ghost var ns := N[..];
    T := new nat[2 * n + 2](_ => 0);
    PowAdd(B, n, n);
    var RR := Remainder(udbl, H, bl, B, R * R, N, true);
    W1 := Remainder(udbl, H, bl, B, a, N, a >= w);
    EnterBase(t, H, B, W1, RR, N, mm, T, Ri, a);
    CopyRegister(B, N, X, RR);
    assert N[..] == ns;
    EnterOne(t, H, B, X, N, mm, T, Ri, a);
    assert N[..] == ns;
  }

  /** One register into another that may be longer. */
  method CopyRegister(B: nat, N: array<nat>, X: array<nat>, Y: array<nat>)
    requires B > 1 && X != Y && X != N && X.Length > N.Length && Y.Length == N.Length + 1 && Reg(B, N, Y)
    modifies X
    ensures Reg(B, N, X) && Val(B, X[..]) == old(Val(B, Y[..])) && Y[..] == old(Y[..]) && N[..] == old(N[..])
  {
    hide Val;
    var n := Y.Length;
    Mpi.Overwrite(X, Y, n);
    assert Y[..][..n] == Y[..];
    assert Digits(B, X[..]) by {
      assert forall k | 0 <= k < n :: X[k] == X[..][..n][k] == Y[..][k];
    }
    Mpi.SameNumber(B, X[..], Y[..], n);
  }

  /**
   * The exponentiation proper, into X: a^Q mod N for an odd N, where Q is the exponent E. If X is
   * the exponent, Q is what its own bits say on the way, which over a unit radix is one.
   */
  method PowerModulo(t: Target, udbl: bool, H: nat, B: nat, bl: nat, cap: nat, a: nat,
                     X: array<nat>, E: array<nat>, N: array<nat>)
    returns (ghost Q: nat)
    requires H > 1 && B == H * H == Pow(2, bl) && Doubling(bl) && cap > 0 && X != N && X.Length > N.Length
    requires N.Length > 0 && Digits(B, N[..]) && Digits(B, E[..]) && N[0] % 2 == 1
    modifies X
    ensures Reg(B, N, X) && Val(B, N[..]) > 0 && Cong(Val(B, X[..]), Pow(a, Q), Val(B, N[..]))
    ensures X != E ==> Q == Val(B, E[..])
    ensures X == E && UnitRadix(B, N) ==> Q == 1
  {
    hide Val, Pow, Cong, Form, UnitRadix;
    ghost var ns, es := N[..], E[..];
    var wsize := WindowSize(Len(2, Val(B, E[..])), cap);
    var mm, T, W1, Ri := Prepare(t, udbl, H, B, bl, a, X, N);
    assert N[..] == ns && (X != E ==> E[..] == es);
    assert Digits(B, E[..]);
    Q := Raise(t, H, B, bl, wsize, a, X, E, N, mm, T, W1, Ri);
    ghost var y := Val(B, X[..]);
    MontRed(t, H, B, X, N, mm, T, Ri);
    assert N[..] == ns;
    LeaveForm(Pow(B, N.Length), Ri, Val(B, ns), y, Pow(a, Q), Val(B, X[..]));
  }

  /** The window table, the bits of the exponent, and what is left of them at the end. */
  method Raise(t: Target, H: nat, B: nat, bl: nat, wsize: nat, ghost a: nat, X: array<nat>, E: array<nat>,
               N: array<nat>, mm: nat, T: array<nat>, W1: array<nat>, ghost Ri: nat)
    returns (ghost Q: nat)
    requires H > 1 && B == H * H == Pow(2, bl) && bl > 0 && wsize > 0 && Modulus(B, N, mm, Ri)
    requires X != N && X != T && N != T && E != T && W1 != T && W1 != X && W1 != N
    requires T.Length == 2 * N.Length + 2 && Digits(B, E[..])
    requires TableEntry(B, N, W1, a, 1) && TableEntry(B, N, X, a, 0)
    modifies X, T
    ensures TableEntry(B, N, X, a, Q)
    ensures X != E ==> Q == Val(B, E[..])
    ensures X == E && UnitRadix(B, N) ==> Q == 1
  {
    hide Val, Pow, Cong, Form, UnitRadix;
    var W := Table(t, H, B, wsize, W1, N, mm, T, Ri, a);
    var nbits, wbits, e, pv := Scan(t, H, B, bl, wsize, X, W, E, N, mm, T, Ri, a);
    Q := e * Pow(2, nbits) + pv;
    Leftover(t, H, B, wsize, X, W1, nbits, wbits, N, mm, T, Ri, a, e, pv);
  }

  /** Powers of signed numbers. */
  function IntPow(b: int, e: nat): int {
    if e == 0 then 1 else b * IntPow(b, e - 1)
  }

  lemma PowStart(a: nat)
    ensures Pow(a, 0) == 1 && IntPow(a, 0) == 1 && IntPow(-(a as int), 0) == 1
  {
  }

  lemma IntPowNext(b: int, e: nat)
    ensures IntPow(b, e + 1) == b * IntPow(b, e)
  {
  }

  lemma {:induction false} SignOfPower(a: nat, e: nat)
    ensures IntPow(a, e) == Pow(a, e)
    ensures IntPow(-(a as int), e) == if e % 2 == 1 then -(Pow(a, e) as int) else Pow(a, e)
  {
    hide Pow, IntPow;
    PowStart(a);
    if e > 0 {
      SignOfPower(a, e - 1);
      PowNext(a, e - 1);
      IntPowNext(a, e - 1);
      IntPowNext(-(a as int), e - 1);
      Negate(a, Pow(a, e - 1));
    }
  }

  /**
   * The one kind of call whose result is not reduced: a negative base, an odd exponent, and a
   * modulus that divides the power, which the power with the exponent capped by the bits of the
   * modulus decides.
   */
  ghost predicate Unreduced(sA: int, a: nat, e: nat, w: nat)
    requires w > 0
  {
    sA == -1 && e % 2 == 1 && Cong(Pow(a, Min(e, Len(2, w))), 0, w)
  }

  /** What the code delivers for (sA * a)^e modulo w. */
  ghost predicate Delivered(sA: int, a: nat, e: nat, w: nat, x: nat)
    requires w > 0
  {
    x <= w && Cong(x, IntPow(sA * a, e), w) && (x < w <==> !Unreduced(sA, a, e, w))
  }

  /** The power itself, reduced, unless that is zero and the sign was taken off an odd power. */
  lemma DeliveredIs(sA: int, a: nat, e: nat, w: nat, x: nat)
    requires w > 0 && Delivered(sA, a, e, w, x)
    ensures x == if Unreduced(sA, a, e, w) then w else IntPow(sA * a, e) % w
  {
    hide Cong, Unreduced;
    var p := IntPow(sA * a, e);
    if x < w {
      CongMod(p, w);
      CongSym(p % w, p, w);
      CongTrans(x, p, p % w, w);
      CongSmall(x, p % w, w);
    }
  }

  /** (-3)^1 modulo 3 comes out as 3. */
  lemma MinusThree(x: nat)
    ensures Delivered(-1, 3, 1, 3, x) <==> x == 3
  {
    assert Len(2, 3) == 1 + Len(2, 1) == 2;
    assert Pow(3, 1) == 3 && IntPow(-3, 1) == -3;
    assert Unreduced(-1, 3, 1, 3);
  }

  /** For an odd power of a negative base: reduced next to a coprime modulus, N for a multiple of it. */
  lemma DeliveredCases(a: nat, e: nat, w: nat, x: nat)
    requires w > 1 && e % 2 == 1 && Delivered(-1, a, e, w, x)
    ensures Gcd.Bezout(1, a, w) ==> x < w
    ensures a % w == 0 ==> x == w
  {
    hide Cong, Pow, Len;
    CappedPower(w, a, e);
    PlainCases(w, a, e);
  }

  /** What the number of limbs must allow for: the square of R in 2 n + 1 of them, divided by N. */
  predicate Room(n: nat) {
    2 * n + 3 <= Mpi.MAX_LIMBS
  }

  /**
   * mbedtls_mpi_exp_mod on objects; X may be A, and E. A modulus that is even or not positive and a
   * negative exponent are refused. A base without limbs is read all the same, and a result written
   * into N enlarges N under the scratch that was sized for it. Otherwise the result is congruent to
   * A^E, and reduced unless A is negative, E is odd and N divides the power, when N itself comes
   * out; but only if X is not E, which is overwritten before its bits are read.
   */
  method ExpMod(t: Target, udbl: bool, H: nat, B: nat, bl: nat, cap: nat,
                X: Mpi.Mpi, A: Mpi.Mpi, E: Mpi.Mpi, N: Mpi.Mpi)
    returns (ret: int)
    requires H > 1 && B == H * H == Pow(2, bl) && Doubling(bl) && cap > 0
    requires X.Valid(B) && A.Valid(B) && E.Valid(B) && N.Valid(B)
    requires Apart(X, A) && Apart(X, E) && Apart(X, N)
    modifies X, X.p
    ensures ret == 0 || ret == ERR_BAD_INPUT_DATA || ret == ERR_ALLOC_FAILED || ret == UNDEFINED
    ensures ret == ERR_BAD_INPUT_DATA <==> old(Refused(B, E, N))
    ensures ret == UNDEFINED <==>
              old(!Refused(B, E, N) && (X == N || (Room(N.p.Length) && X != A && A.p.Length == 0)))
    ensures ret == ERR_ALLOC_FAILED <==>
              old(!Refused(B, E, N) && X != N && (!Room(N.p.Length) || (A.Abs(B) >= N.Abs(B) && TooLong(A))))
    ensures ret == 0 ==> X.Valid(B) && X != N && 0 <= X.Value(B)
    ensures ret == 0 && X != E ==> Delivered(old(A.s), old(A.Abs(B)), old(E.Abs(B)), N.Abs(B), X.Value(B))
    ensures ret == 0 && X == E && UnitRadix(B, N.p) ==>
              var r := old(A.Abs(B)) % N.Abs(B);
              X.Value(B) == if old(A.s) == -1 && r % 2 == 1 then N.Abs(B) - r else r
  {
    hide Val, Pow, Cong, Digits, UnitRadix;
    var w := Val(B, N.p[..]);
    NoLimbsNoValue(B, N.p[..]);
    if N.s * w <= 0 || N.p[0] % 2 == 0 {
      return ERR_BAD_INPUT_DATA;
    }
    if E.s * Val(B, E.p[..]) < 0 {
      return ERR_BAD_INPUT_DATA;
    }
    if X == N {
      return UNDEFINED;
    }
    ghost var e, a0, s0 := Val(B, E.p[..]), Val(B, A.p[..]), A.s;
    var n, sA := N.p.Length, A.s;
    ret := X.Grow(B, n + 1);
    if ret != 0 || 2 * n + 3 > Mpi.MAX_LIMBS {
      return ERR_ALLOC_FAILED;
    }
    if A.p.Length == 0 {
      return UNDEFINED;
    }
    var a := Val(B, A.p[..]);
    var an := A.p.Length;
    if sA == -1 {
      an := Mpi.Trim(A.p);
    }
    if a >= w && an + 2 > Mpi.MAX_LIMBS {
      return ERR_ALLOC_FAILED;
    }
    ret := Powered(t, udbl, H, B, bl, cap, sA, a, X, E, N);
  }

  /** A base that cannot be divided; a negative one is copied, without its leading zeros, before. */
  predicate TooLong(A: Mpi.Mpi)
    reads A, A.p
  {
    (if A.s == -1 then Mpi.Used(A.p[..]) else A.p.Length) + 2 > Mpi.MAX_LIMBS
  }

  /** The calls that are refused. */
  predicate Refused(B: nat, E: Mpi.Mpi, N: Mpi.Mpi)
    reads E, E.p, N, N.p
  {
    N.s * Val(B, N.p[..]) <= 0 || N.p.Length == 0 || N.p[0] % 2 == 0 || E.s * Val(B, E.p[..]) < 0
  }

  /** The part from the first write to X on. */
  method Powered(t: Target, udbl: bool, H: nat, B: nat, bl: nat, cap: nat, sA: int, a: nat,
                 X: Mpi.Mpi, E: Mpi.Mpi, N: Mpi.Mpi)
    returns (ret: int)
    requires H > 1 && B == H * H == Pow(2, bl) && Doubling(bl) && cap > 0 && (sA == 1 || sA == -1)
    requires X.Valid(B) && E.Valid(B) && N.Valid(B) && Apart(X, E) && Apart(X, N) && X != N
    requires X.p.Length > N.p.Length > 0 && N.p[0] % 2 == 1 && N.s == 1 && Room(N.p.Length)
    modifies X, X.p
    ensures ret == 0 && X.Valid(B) && 0 <= X.Value(B) && N.Abs(B) > 0
    ensures X != E ==> Delivered(sA, a, old(E.Abs(B)), N.Abs(B), X.Value(B))
    ensures X == E && UnitRadix(B, N.p) ==>
              var r := a % N.Abs(B);
              X.Value(B) == if sA == -1 && r % 2 == 1 then N.Abs(B) - r else r
  {
    hide Val, Pow, Cong, UnitRadix;
    ghost var w, e := N.Abs(B), E.Abs(B);
    X.s := 1;
    ghost var Q := PowerModulo(t, udbl, H, B, bl, cap, a, X.p, E.p, N.p);
    ghost var x0 := X.Abs(B);
    Parity(B, bl, E.p[..]);
    ret := 0;
    if sA == -1 && E.p.Length != 0 && E.p[0] % 2 != 0 {
      X.s := -1;
      ValBound(B, N.p[..]);
      LenAtMost(B, w - x0, N.p.Length);
      ret := AddTo(B, X, N, 1);
    }
    if X != E {
      Flip(w, a, e, x0, sA, X.Value(B));
      CappedPower(w, a, e);
    } else if UnitRadix(B, N.p) {
      PowOne(a);
      CongMod(a, w);
      CongSym(a % w, a, w);
      CongTrans(x0, a, a % w, w);
      CongSmall(x0, a % w, w);
    }
  }

  /** Over a unit radix an exponent that is overwritten is right only if it did not matter. */
  lemma OwnExponent(a: nat, e: nat, w: nat)
    requires w > 1
    ensures Delivered(1, a, e, w, a % w) <==> Cong(a, Pow(a, e), w)
  {
    hide Cong, Pow;
    SignOfPower(a, e);
    assert 1 * a == a;
    CongMod(a, w);
    if Cong(a, Pow(a, e), w) {
      CongTrans(a % w, a, Pow(a, e), w);
    }
    if Cong(a % w, Pow(a, e), w) {
      CongSym(a % w, a, w);
      CongTrans(a, a % w, Pow(a, e), w);
    }
  }

  /** As it does for 2^2 modulo 3: what comes out is 2, not 1. */
  lemma OwnExponentFails()
    ensures Cong(256, 1, 3) && !Delivered(1, 2, 2, 3, 2 % 3)
  {
    assert Pow(2, 2) == 4;
    OwnExponent(2, 2, 3);
  }

  lemma NoLimbsNoValue(B: nat, xs: seq<nat>)
    ensures xs == [] ==> Val(B, xs) == 0
  {
  }

  /** The lowest bit of a number is the lowest bit of its lowest limb. */
  lemma Parity(B: nat, bl: nat, es: seq<nat>)
    requires B == Pow(2, bl) && bl > 0
    ensures Val(B, es) % 2 == if es == [] then 0 else es[0] % 2
  {
    if es != [] {
      var p, v := Pow(2, bl - 1), Val(B, es[1..]);
      assert (2 * p) * v == 2 * (p * v);
      DivModUnique(Val(B, es), 2, es[0] / 2 + p * v, es[0] % 2);
    }
  }

  /** Replacing x by N - x for an odd power of a negative base, and when that is not reduced. */
  lemma Flip(w: nat, a: nat, e: nat, x0: nat, sA: int, x: nat)
    requires w > 0 && x0 < w && Cong(x0, Pow(a, e), w) && (sA == 1 || sA == -1)
    requires x == if sA == -1 && e % 2 == 1 then w - x0 else x0
    ensures x <= w && Cong(x, IntPow(sA * a, e), w)
    ensures x < w <==> !(sA == -1 && e % 2 == 1 && Cong(Pow(a, e), 0, w))
  {
    hide Cong;
    var p: int := Pow(a, e);
    SignOfPower(a, e);
    CongIntro(0, 0, w, 0);
    if sA == -1 && e % 2 == 1 {
      CongIntro(w, 0, w, 1);
      CongAdd(w, 0, x0, p, w);
      if Cong(p, 0, w) {
        CongTrans(x0, p, 0, w);
        CongSmall(x0, 0, w);
      } else if x0 == 0 {
        CongSym(0, p, w);
      }
    }
  }
}
