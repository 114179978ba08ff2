/** Register arithmetic in radix B: a word is a nat below B, a carry flag is 0 or 1. */
module Machine {
  import opened Powers

  /** Flag as a word: the amount it is worth when added one limb up. */
  function Worth(B: nat, flag: nat): nat {
    if flag == 0 then 0 else B
  }

  /** The number held by a high and a low word. */
  function Pair(B: nat, hi: nat, lo: nat): nat {
    hi * B + lo
  }

  lemma PairOfWord(B: nat, lo: nat)
    ensures Pair(B, 0, lo) == lo
  {
  }

  /** Add with carry in and carry out. */
  method Adc(B: nat, x: nat, y: nat, cin: nat) returns (sum: nat, cout: nat)
    requires x < B && y < B && cin <= 1
    ensures sum < B && cout <= 1 && sum + Worth(B, cout) == x + y + cin
  {
    sum := x + y + cin;
    cout := 0;
    if sum >= B {
      sum, cout := sum - B, 1;
    }
  }

  /** Addition that wraps and reports nothing, as C does on unsigned words. */
  method AddWrap(B: nat, x: nat, y: nat) returns (sum: nat)
    requires x < B && y < B
    ensures sum == if x + y < B then x + y else x + y - B
  {
    sum := x + y;
    if sum >= B {
      sum := sum - B;
    }
  }

  /** Unsigned comparison as an integer, as C and the set-on-less-than instructions give it. */
  function Less(x: nat, y: nat): nat {
    if x < y then 1 else 0
  }

  /** low += x; high += (low < x): the C idiom for a carry, exact while the total fits two words. */
  method AddCompare(B: nat, hi: nat, lo: nat, x: nat, ghost total: nat) returns (hi': nat, lo': nat)
    requires lo < B && x < B && Pair(B, hi, lo) == total && total + x < B * B
    ensures hi' < B && lo' < B && Pair(B, hi', lo') == total + x
  {
    hide Pair;
    ghost var cf := if lo + x < B then 0 else 1;
    CarryFits(B, hi, lo, x, lo + x - Worth(B, cf), cf);
    lo' := AddWrap(B, lo, x);
    hi' := AddWrap(B, hi, Less(lo', x));
  }

  /** An add followed by add-with-carry of zero into the word above, exact on the same condition. */
  method AddCarry(B: nat, hi: nat, lo: nat, x: nat, ghost total: nat) returns (hi': nat, lo': nat)
    requires lo < B && x < B && Pair(B, hi, lo) == total && total + x < B * B
    ensures hi' < B && lo' < B && Pair(B, hi', lo') == total + x
  {
    hide Pair;
    var cf, out;
    ghost var cf0 := if lo + x < B then 0 else 1;
    CarryFits(B, hi, lo, x, lo + x - Worth(B, cf0), cf0);
    lo', cf := Adc(B, lo, x, 0);
    hi', out := Adc(B, hi, 0, cf);
  }

  /** Multiply and accumulate into a register pair, wrapping at two words. */
  method MulAccumulate(B: nat, hi: nat, lo: nat, x: nat, y: nat) returns (hi': nat, lo': nat)
    requires B > 0
    ensures hi' < B && lo' < B
    ensures var total := Pair(B, hi, lo) + x * y; total < B * B ==> Pair(B, hi', lo') == total
  {
    hide Pair;
    hi', lo' := Wrapped(B, B * B, Pair(B, hi, lo) + x * y);
  }

  /** The two low words of a number. */
  method Wrapped(B: nat, W: nat, total: nat) returns (hi: nat, lo: nat)
    requires B > 0 && W == B * B
    ensures hi < B && lo < B && (total < W ==> Pair(B, hi, lo) == total)
  {
    hide Pair;
    InRange(B, W, total);
    var wrapped := total % W;
    PairOfTotal(B, wrapped);
    hi, lo := wrapped / B, wrapped % B;
  }

  lemma InRange(B: nat, W: nat, total: nat)
    requires B > 0 && W == B * B
    ensures W > 0 && total % W < W && (total < W ==> total % W == total)
  {
    MulMonotone(1, B, B);
    if total < W {
      DivModUnique(total, W, 0, total);
    }
  }

  lemma PairOfTotal(B: nat, total: nat)
    requires B > 0 && total < B * B
    ensures total / B < B && total % B < B && Pair(B, total / B, total % B) == total
  {
    if total / B >= B {
      MulMonotone(B, total / B, B);
    }
  }

  /** Widening product of two words. */
  method MulWide(B: nat, x: nat, y: nat) returns (hi: nat, lo: nat)
    requires x < B && y < B && B > 1
    ensures lo < B && hi + 1 < B
    ensures Pair(B, hi, lo) == x * y
  {
    hi, lo := x * y / B, x * y % B;
    WideBound(B, x, y, hi, lo);
  }

  lemma WideBound(B: nat, x: nat, y: nat, hi: nat, lo: nat)
    requires x < B && y < B && B > 1 && lo < B && hi * B + lo == x * y
    ensures hi + 1 < B
  {
    ProductRoom(B, x, y);
    assert (B - 1) * B == B * B - B;
    if hi + 1 >= B {
      MulMonotone(B - 1, hi, B);
    }
  }

  /** Product reduced to one word. */
  function LowProduct(B: nat, x: nat, y: nat): nat
    requires B > 0
  {
    (x * y) % B
  }

  /** The part of a word above its half, x >> biH, in a machine whose half words have radix H. */
  function High(H: nat, x: nat): nat
    requires H > 0
  {
    x / H
  }

  /** x << biH, which drops whatever leaves the word. */
  function ShiftUp(H: nat, x: nat): nat
    requires H > 0
  {
    (x * H) % (H * H)
  }

  /** Shifting up drops the high half and nothing else. */
  lemma ShiftUpKeepsLow(H: nat, x: nat)
    requires H > 0
    ensures ShiftUp(H, x) == (x % H) * H
    ensures High(H, ShiftUp(H, x)) == x % H
    ensures x < H * H ==> High(H, x) < H
    ensures x == High(H, x) * H + x % H
  {
    var q, r := x / H, x % H;
    assert x == q * H + r;
    calc {
      x * H;
      (q * H + r) * H;
      (q * H) * H + r * H;
      { Assoc(q, H, H); }
      q * (H * H) + r * H;
    }
    MulStrict(r, H, H);
    DivModUnique(x * H, H * H, q, r * H);
    DivModUnique(r * H, H, r, 0);
    if q >= H {
      MulMonotone(H, q, H);
    }
  }

  /** A carry out of a low addition fits the high word whenever the exact total fits both. */
  lemma CarryFits(B: nat, hi: nat, lo: nat, x: nat, lo': nat, cf: nat)
    requires cf <= 1 && lo' + Worth(B, cf) == lo + x
    requires Pair(B, hi, lo) + x < B * B
    ensures hi + cf < B
    ensures Pair(B, hi + cf, lo') == Pair(B, hi, lo) + x
  {
    assert (hi + cf) * B == hi * B + Worth(B, cf);
    if hi + cf >= B {
      MulMonotone(B, hi + cf, B);
    }
  }
}
