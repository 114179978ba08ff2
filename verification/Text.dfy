/**
 * Numbers as text: mbedtls_mpi_read_string, mbedtls_mpi_write_string, and whether the size that
 * the latter asks for is large enough.
 */
module Text {
  import opened Powers
  import opened Numerals
  import opened Errors

  /** A return code, or the sign and magnitude that were read. */
  datatype Outcome = Failed(code: int) | Number(s: int, v: nat)

  // ----- digits and their values -----

  /** mpi_get_digit, before the comparison with the radix; 255 stands for no digit at all. */
  function DigitOf(c: char): nat {
    if 0x30 <= c as int <= 0x39 then c as int - 0x30
    else if 0x41 <= c as int <= 0x46 then c as int - 0x37
    else if 0x61 <= c as int <= 0x66 then c as int - 0x57
    else 255
  }

  predicate IsDigit(radix: int, c: char) {
    DigitOf(c) < radix
  }

  predicate AllDigits(radix: int, t: string) {
    forall i | 0 <= i < |t| :: IsDigit(radix, t[i])
  }

  /** What a string of digits means, the most significant one first. */
  function NumValue(radix: nat, t: string): nat {
    if t == "" then 0 else NumValue(radix, t[..|t| - 1]) * radix + DigitOf(t[|t| - 1])
  }

  function Glyph(d: nat): (c: char)
    requires d < 16
    ensures DigitOf(c) == d
  {
    if d < 10 then (d + 0x30) as char else (d + 0x37) as char
  }

  const UpperDigits: string := "0123456789ABCDEF"
  const LowerDigits: string := "0123456789abcdef"

  /** Where the sixteen digits of either case are among the characters. */
  lemma DigitPlaces(d: nat)
    requires d < 16
    ensures UpperDigits[d] as int == if d < 10 then d + 0x30 else d + 0x37
    ensures LowerDigits[d] as int == if d < 10 then d + 0x30 else d + 0x57
  {
    var u, l := UpperDigits, LowerDigits;
    if d < 10 {
      assert u[..10] == "0123456789" == l[..10];
      assert u[d] == u[..10][d] && l[d] == l[..10][d];
    } else {
      assert u[10..] == "ABCDEF" && l[10..] == "abcdef";
      assert u[d] == u[10..][d - 10] && l[d] == l[10..][d - 10];
    }
  }

  /** A digit of either case is worth its place, and is written in upper case. */
  lemma DigitValues(d: nat)
    requires d < 16
    ensures DigitOf(UpperDigits[d]) == d && DigitOf(LowerDigits[d]) == d && Glyph(d) == UpperDigits[d]
  {
    DigitPlaces(d);
  }

  /** The digits of a radix are the first so many of either case, and nothing else is a digit. */
  lemma DigitsAre(radix: nat, c: char)
    requires 2 <= radix <= 16
    ensures IsDigit(radix, c) <==> c in UpperDigits[..radix] || c in LowerDigits[..radix]
  {
    if IsDigit(radix, c) {
      var d := DigitOf(c);
      DigitPlaces(d);
      assert UpperDigits[..radix][d] == UpperDigits[d] && LowerDigits[..radix][d] == LowerDigits[d];
      assert c == UpperDigits[d] || c == LowerDigits[d];
    }
    if c in UpperDigits[..radix] {
      var d :| 0 <= d < radix && UpperDigits[..radix][d] == c;
      DigitValues(d);
    }
    if c in LowerDigits[..radix] {
      var d :| 0 <= d < radix && LowerDigits[..radix][d] == c;
      DigitValues(d);
    }
  }

  lemma NumAppend(radix: nat, t: string, c: char)
    ensures NumValue(radix, t + [c]) == NumValue(radix, t) * radix + DigitOf(c)
  {
    assert (t + [c])[..|t|] == t;
  }

  lemma {:induction false} NumConcat(radix: nat, t: string, u: string)
    ensures NumValue(radix, t + u) == NumValue(radix, t) * Pow(radix, |u|) + NumValue(radix, u)
  {
    if u == "" {
      assert t + u == t;
    } else {
      var w, c := u[..|u| - 1], u[|u| - 1];
      assert t + u == (t + w) + [c] && u == w + [c];
      NumAppend(radix, t + w, c);
      NumConcat(radix, t, w);
      NextDigit(NumValue(radix, t), Pow(radix, |w|), radix, NumValue(radix, w));
    }
  }

  lemma NextDigit(x: nat, p: nat, r: nat, y: nat)
    ensures (x * p + y) * r == x * (r * p) + y * r
  {
    assert (x * p + y) * r == (x * p) * r + y * r;
    Assoc(x, p, r);
    assert p * r == r * p;
  }

  // ----- mbedtls_mpi_read_string -----

  function Signed(s: string): bool {
    s != "" && s[0] == '-'
  }

  function Body(s: string): string {
    if Signed(s) then s[1..] else s
  }

  /** A string is a number exactly when all of it but a leading minus is digits. */
  function Parse(radix: int, s: string): Outcome {
    if radix < 2 || radix > 16 then Failed(ERR_BAD_INPUT_DATA)
    else if !AllDigits(radix, Body(s)) then Failed(ERR_INVALID_CHARACTER)
    else Number(if Signed(s) then -1 else 1, NumValue(radix, Body(s)))
  }

  /** Hexadecimal is read from the right, each digit put at its place; any other radix from the left. */
  method ReadString(radix: int, s: string) returns (r: Outcome)
    ensures r == Parse(radix, s)
  {
    if radix < 2 || radix > 16 {
      r := Failed(ERR_BAD_INPUT_DATA);
    } else if radix == 16 {
      r := ReadHex(s);
    } else {
      r := ReadDigits(radix, s);
    }
  }

  /** What the string up to one more character holds. */
  lemma BodyGrows(radix: nat, s: string, i: nat)
    requires radix <= 16 && i < |s|
    ensures var b, b' := Body(s[..i]), Body(s[..i + 1]);
            if i == 0 && s[0] == '-' then b' == "" else
              && NumValue(radix, b') == NumValue(radix, b) * radix + DigitOf(s[i])
              && (AllDigits(radix, b) && IsDigit(radix, s[i]) ==> AllDigits(radix, b'))
              && (!IsDigit(radix, s[i]) ==> !AllDigits(radix, Body(s)))
  {
    var b, b' := Body(s[..i]), Body(s[..i + 1]);
    if i != 0 || s[0] != '-' {
      assert b' == b + [s[i]];
      NumAppend(radix, b, s[i]);
      assert Body(s)[|b|] == s[i];
    }
  }

  method ReadDigits(radix: nat, s: string) returns (r: Outcome)
    requires 2 <= radix <= 16
    ensures r == Parse(radix, s)
  {
    hide NumValue, DigitOf;
    var sgn, x, i: nat := 1, 0, 0;
    NoText(radix);
    while i < |s|
      invariant i <= |s| && sgn == (if i > 0 && Signed(s) then -1 else 1)
      invariant AllDigits(radix, Body(s[..i])) && x == NumValue(radix, Body(s[..i]))
    {
      BodyGrows(radix, s, i);
      if i == 0 && s[i] == '-' {
        sgn := -1;
      } else if !IsDigit(radix, s[i]) {
        return Failed(ERR_INVALID_CHARACTER);
      } else {
        x := x * radix + DigitOf(s[i]);
      }
      i := i + 1;
    }
    assert s[..|s|] == s;
    r := Number(sgn, x);
  }

  /** What the string from one character further left holds. */
  lemma HexGrows(s: string, i: nat, j: nat)
    requires 0 < i && i + j == |s|
    ensures NumValue(16, s[i - 1..]) == DigitOf(s[i - 1]) * Pow(16, j) + NumValue(16, s[i..])
    ensures AllDigits(16, s[i..]) && IsDigit(16, s[i - 1]) ==> AllDigits(16, s[i - 1..])
    ensures !IsDigit(16, s[i - 1]) && !(i == 1 && s[0] == '-') ==> !AllDigits(16, Body(s))
  {
    hide NumValue, DigitOf, Pow;
    var c := [s[i - 1]];
    assert s[i - 1..] == c + s[i..];
    NumConcat(16, c, s[i..]);
    NoText(16);
    NumAppend(16, "", s[i - 1]);
    assert "" + c == c;
    if !(i == 1 && s[0] == '-') {
      assert Body(s)[if Signed(s) then i - 2 else i - 1] == s[i - 1];
    }
  }

  method ReadHex(s: string) returns (r: Outcome)
    ensures r == Parse(16, s)
  {
    hide NumValue, DigitOf, IsDigit, AllDigits, Pow;
    var sgn, x := 1, 0;
    var i: nat, j: nat := |s|, 0;
    NoText(16);
    assert s[i..] == "";
    while i > 0
      invariant i + j == |s| && sgn == 1 && (i == 0 ==> !Signed(s))
      invariant AllDigits(16, s[i..]) && x == NumValue(16, s[i..])
    {
      HexGrows(s, i, j);
      if i == 1 && s[i - 1] == '-' {
        sgn := -1;
        break;
      }
      if !IsDigit(16, s[i - 1]) {
        return Failed(ERR_INVALID_CHARACTER);
      }
      x := x + DigitOf(s[i - 1]) * Pow(16, j);
      i, j := i - 1, j + 1;
    }
    assert s[0..] == s;
    r := Number(sgn, x);
  }

  // ----- the numeral of a number -----

  /** mpi_write_hlp: the upper digits first. */
  function Written(radix: nat, v: nat): string
    requires 2 <= radix <= 16
    decreases v
  {
    (if v / radix != 0 then Shrinks(radix, v); Written(radix, v / radix) else "") + [Glyph(v % radix)]
  }

  /** Hexadecimal digits come in pairs, one pair for each byte from the topmost non-zero one. */
  function Pairs(v: nat): string
    decreases v
  {
    if v == 0 then "" else Pairs(v / 256) + [Glyph(v % 256 / 16)] + [Glyph(v % 16)]
  }

  /** A number held in so many bytes, as text. */
  function Numeral(radix: nat, v: nat, bytes: nat): string
    requires 2 <= radix <= 16
  {
    if radix != 16 then Written(radix, v)
    else if v == 0 && bytes > 0 then "00"
    else Pairs(v)
  }

  lemma WrittenNext(radix: nat, v: nat)
    requires 2 <= radix <= 16
    ensures var x, r := v / radix, v % radix;
            && r < radix && (x != 0 ==> x < v)
            && Written(radix, v) == (if x != 0 then Written(radix, x) else "") + [Glyph(r)]
  {
    hide Glyph;
    if v / radix != 0 {
      Shrinks(radix, v);
    }
  }

  /** Appending a digit to a string of digits that means x. */
  lemma Extended(radix: nat, t: string, x: nat, d: nat)
    requires d < radix <= 16 && AllDigits(radix, t) && NumValue(radix, t) == x
    ensures AllDigits(radix, t + [Glyph(d)]) && NumValue(radix, t + [Glyph(d)]) == x * radix + d
  {
    NumAppend(radix, t, Glyph(d));
  }

  lemma {:induction false} WrittenReads(radix: nat, v: nat)
    requires 2 <= radix <= 16
    ensures AllDigits(radix, Written(radix, v)) && NumValue(radix, Written(radix, v)) == v
    ensures |Written(radix, v)| == if v == 0 then 1 else Len(radix, v)
    decreases v
  {
    hide Written, NumValue, AllDigits, Len, Glyph;
    var q, r := LastDigit(radix, v);
    LenNext(radix, v, q, r);
    LenNext(radix, 0, 0, 0);
    NoText(radix);
    if q != 0 {
      WrittenReads(radix, q);
      Extended(radix, Written(radix, q), q, r);
    } else {
      Extended(radix, "", 0, r);
    }
  }

  lemma LastDigit(radix: nat, v: nat) returns (q: nat, r: nat)
    requires 2 <= radix <= 16
    ensures r < radix && (q != 0 ==> q < v) && v == q * radix + r
    ensures Written(radix, v) == (if q != 0 then Written(radix, q) else "") + [Glyph(r)]
  {
    hide Written, Glyph;
    WrittenNext(radix, v);
    q, r := Divided(radix, v);
    DivModUnique(v, radix, q, r);
  }

  lemma Divided(radix: nat, v: nat) returns (q: nat, r: nat)
    requires radix > 0
    ensures r < radix && v == q * radix + r
  {
    q, r := v / radix, v % radix;
  }

  lemma NoText(radix: nat)
    ensures AllDigits(radix, "") && NumValue(radix, "") == 0
  {
  }

  lemma PairsNext(v: nat, u: nat, c: nat)
    requires v == u * 256 + c && c < 256 && v > 0
    ensures Pairs(v) == Pairs(u) + [Glyph(c / 16)] + [Glyph(c % 16)]
  {
    assert v / 256 == u && v % 256 == c && v % 16 == c % 16;
  }

  lemma {:induction false} PairsRead(v: nat)
    ensures AllDigits(16, Pairs(v)) && NumValue(16, Pairs(v)) == v && |Pairs(v)| == 2 * Len(256, v)
    decreases v
  {
    LenNext(256, v, v / 256, v % 256);
    if v > 0 {
      hide Pairs, NumValue, AllDigits, Len;
      var u: nat, c: nat := v / 256, v % 256;
      PairsRead(u);
      PairsNext(v, u, c);
      Extended(16, Pairs(u), u, c / 16);
      Extended(16, Pairs(u) + [Glyph(c / 16)], u * 16 + c / 16, c % 16);
    }
  }

  /** A numeral is digits, and means the number. */
  lemma NumeralReads(radix: nat, v: nat, bytes: nat)
    requires 2 <= radix <= 16
    ensures AllDigits(radix, Numeral(radix, v, bytes)) && NumValue(radix, Numeral(radix, v, bytes)) == v
    ensures |Numeral(radix, v, bytes)| == if radix == 16 && bytes == 0 && v == 0 then 0 else DigitRoom(radix, v)
  {
    if radix != 16 {
      WrittenReads(radix, v);
    } else if v == 0 {
      assert NumValue(16, "0") == 0 by { NumAppend(16, "", '0'); assert "" + ['0'] == "0"; }
      NumAppend(16, "0", '0');
      assert "0" + ['0'] == "00";
    } else {
      PairsRead(v);
    }
  }

  /** The digits a numeral may take. */
  function DigitRoom(radix: nat, v: nat): nat
    requires radix > 1
  {
    if radix == 16 then 2 * (if v == 0 then 1 else Len(256, v)) else if v == 0 then 1 else Len(radix, v)
  }

  function SignText(s: int): string {
    if s == -1 then "-" else ""
  }

  lemma DigitIsNotMinus(radix: int, t: string)
    requires radix <= 16 && AllDigits(radix, t)
    ensures !Signed(t)
  {
    if t != "" {
      assert IsDigit(radix, t[0]);
    }
  }

  /** Reading what was written gives the sign and the number back, in every radix. */
  lemma RoundTrip(radix: nat, s: int, v: nat, bytes: nat)
    requires 2 <= radix <= 16 && (s == 1 || s == -1)
    ensures Parse(radix, SignText(s) + Numeral(radix, v, bytes)) == Number(s, v)
  {
    var t := Numeral(radix, v, bytes);
    NumeralReads(radix, v, bytes);
    DigitIsNotMinus(radix, t);
    assert Body(SignText(s) + t) == t;
  }

  // ----- mbedtls_mpi_write_string -----

  /** The size mbedtls_mpi_write_string asks for. */
  function Need(radix: nat, v: nat): nat {
    var n := Len(2, v);
    var n := if radix >= 4 then n / 2 else n;
    var n := if radix >= 16 then n / 2 else n;
    n + 3 + (n + 1) % 2
  }

  /** The bits, in groups of one, two or four, rounded down. */
  function BitGroups(radix: nat, v: nat): (m: nat)
    requires 2 <= radix <= 16
  {
    Len(2, v) / (if radix == 16 then 4 else if radix >= 4 then 2 else 1)
  }

  /** The size is the even one of three and four more than those. */
  lemma NeedIsEven(radix: nat, v: nat)
    requires 2 <= radix <= 16
    ensures Need(radix, v) % 2 == 0 && BitGroups(radix, v) + 3 <= Need(radix, v) <= BitGroups(radix, v) + 4
  {
    hide Len;
    var n := Len(2, v);
    assert n / 2 / 2 == n / 4;
    EvenAbove(n);
    EvenAbove(n / 2);
    EvenAbove(n / 4);
  }

  lemma EvenAbove(n: nat)
    ensures (n + 3 + (n + 1) % 2) % 2 == 0
  {
  }

  /** The size asked for always has room for the sign, the digits and the final NUL. */
  lemma NeedSuffices(radix: nat, v: nat)
    requires 2 <= radix <= 16
    ensures 1 + DigitRoom(radix, v) + 1 <= Need(radix, v)
  {
    PowersOfTwo();
    hide Len, Pow;
    LenNext(2, 0, 0, 0);
    LenOfPower(4, 2, v);
    LenOfPower(256, 8, v);
    LenBounds(2, v);
    if radix < 4 {
      LenOfRadix(2, radix, v);
    } else {
      LenOfRadix(4, radix, v);
    }
    Rounding(radix, Len(2, v), if radix == 16 then Len(256, v) else Len(radix, v));
  }

  lemma Rounding(radix: nat, n: nat, digits: nat)
    requires 2 <= radix <= 16
    requires radix < 4 ==> digits <= n
    requires 4 <= radix < 16 ==> 2 * digits <= n + 1
    requires radix == 16 ==> 8 * digits <= n + 7
    ensures var m := if radix >= 16 then n / 2 / 2 else if radix >= 4 then n / 2 else n;
            var k := if digits == 0 then 1 else digits;
            1 + (if radix == 16 then 2 * k else k) + 1 <= m + 3 + (m + 1) % 2
  {
  }

  method Put(buf: array<char>, p: nat, c: char) returns (q: nat)
    requires p < buf.Length
    modifies buf
    ensures q == p + 1 && buf[..q] == old(buf[..p]) + [c]
    ensures forall j | q <= j < buf.Length :: buf[j] == old(buf[j])
  {
    buf[p] := c;
    q := p + 1;
  }

  /** The number without its last digit, and that digit. */
  method OffLastDigit(radix: nat, v: nat) returns (x: nat, r: nat)
    requires 2 <= radix <= 16
    ensures r < radix && (x != 0 ==> x < v)
    ensures Written(radix, v) == (if x != 0 then Written(radix, x) else "") + [Glyph(r)]
  {
    hide Written, Glyph;
    WrittenNext(radix, v);
    x, r := v / radix, v % radix;
  }

  /** Digits high-order first, through the recursion. */
  method WriteHlp(radix: nat, v: nat, buf: array<char>, p: nat) returns (q: nat)
    requires 2 <= radix <= 16 && p + |Written(radix, v)| <= buf.Length
    modifies buf
    ensures q == p + |Written(radix, v)| && buf[..q] == old(buf[..p]) + Written(radix, v)
    ensures forall j | q <= j < buf.Length :: buf[j] == old(buf[j])
    decreases v
  {
    hide Written, Glyph;
    var x, r := OffLastDigit(radix, v);
    q := p;
    if x != 0 {
      q := WriteHlp(radix, x, buf, p);
    }
    q := Put(buf, q, Glyph(r));
  }

  /** The pairs of the bytes above position k - 1, from those above position k. */
  lemma PairsBelow(v: nat, k: nat)
    requires k > 0
    ensures var u, c, w := Upper(256, v, k), Limb(256, v, k - 1), Upper(256, v, k - 1);
            && w == u * 256 + c && c < 256
            && (w > 0 ==> Pairs(w) == Pairs(u) + [Glyph(c / 16)] + [Glyph(c % 16)])
            && |Pairs(u)| <= |Pairs(w)| <= |Pairs(v)|
  {
    hide Upper, Limb, Pow, Pairs;
    UpperNext(256, v, k - 1);
    var u, c, w := Upper(256, v, k), Limb(256, v, k - 1), Upper(256, v, k - 1);
    if w > 0 {
      PairsNext(w, u, c);
    }
    UpperBelow(v, k - 1);
    PairsLonger(w, v);
    PairsLonger(u, w);
  }

  lemma PairsLonger(u: nat, v: nat)
    requires u <= v
    ensures |Pairs(u)| <= |Pairs(v)|
  {
    PairsRead(u);
    PairsRead(v);
    LenMonotone(256, u, v);
  }

  lemma UpperBelow(v: nat, k: nat)
    ensures Upper(256, v, k) <= v
  {
    var low := UpperLow(256, v, k);
    MulMonotone(1, Pow(256, k), Upper(256, v, k));
  }

  /** What has been written when the bytes from position j up are done. */
  ghost function HexAbove(v: nat, bytes: nat, j: nat): string {
    if j == 0 then Numeral(16, v, bytes) else Pairs(Upper(256, v, j))
  }

  lemma HexStart(v: nat, bytes: nat)
    requires v < Pow(256, bytes)
    ensures HexAbove(v, bytes, bytes) == ""
  {
    UpperUnique(256, v, bytes, 0, v);
  }

  lemma HexStep(v: nat, bytes: nat, j: nat)
    requires 0 < j <= bytes
    ensures var t, t', c := HexAbove(v, bytes, j), HexAbove(v, bytes, j - 1), Limb(256, v, j - 1);
            && c < 256 && |t'| <= |Numeral(16, v, bytes)|
            && t' == if c == 0 && t == "" && j != 1 then t else t + [Glyph(c / 16)] + [Glyph(c % 16)]
  {
    hide Upper, Limb, Pow;
    PairsBelow(v, j);
    UpperZero(256, v);
    PairsRead(Upper(256, v, j));
  }

  /** The two loops over limbs and over their bytes, from the top; leading zero bytes are skipped. */
  method WriteHex(v: nat, bytes: nat, buf: array<char>, p: nat) returns (q: nat)
    requires v < Pow(256, bytes) && p + |Numeral(16, v, bytes)| <= buf.Length
    modifies buf
    ensures q == p + |Numeral(16, v, bytes)| && buf[..q] == old(buf[..p]) + Numeral(16, v, bytes)
    ensures forall j | q <= j < buf.Length :: buf[j] == old(buf[j])
  {
    hide Limb, Pow, HexAbove, Glyph, Numeral;
    q := p;
    var j: nat, k := bytes, false;
    HexStart(v, bytes);
    while j > 0
      invariant j <= bytes && k == (HexAbove(v, bytes, j) != "")
      invariant q == p + |HexAbove(v, bytes, j)| && q <= buf.Length
      invariant buf[..q] == old(buf[..p]) + HexAbove(v, bytes, j)
      invariant forall i | q <= i < buf.Length :: buf[i] == old(buf[i])
    {
      HexStep(v, bytes, j);
      var c := Limb(256, v, j - 1);
      if c != 0 || k || j == 1 {
        q := Put(buf, q, Glyph(c / 16));
        q := Put(buf, q, Glyph(c % 16));
        k := true;
      }
      j := j - 1;
    }
    HexDone(v, bytes);
  }

  lemma HexDone(v: nat, bytes: nat)
    ensures HexAbove(v, bytes, 0) == Numeral(16, v, bytes)
  {
  }

  /**
   * The whole of mbedtls_mpi_write_string. Nothing past the text is touched, and the text never
   * exceeds the size asked for. In radix 2 the first digit is read off the lowest limb, so a number
   * without limbs must not be written in it.
   */
  method WriteString(s: int, v: nat, bytes: nat, radix: int, buf: array<char>, buflen: nat)
    returns (ret: int, olen: nat)
    requires (s == 1 || s == -1) && v < Pow(256, bytes) && buflen <= buf.Length
    modifies buf
    ensures ret == if radix < 2 || radix > 16 then ERR_BAD_INPUT_DATA
                   else if buflen < Need(radix, v) then ERR_BUFFER_TOO_SMALL
                   else if radix == 2 && bytes == 0 then UNDEFINED else 0
    ensures ret == ERR_BUFFER_TOO_SMALL ==> olen == Need(radix, v)
    ensures ret == 0 ==> olen <= Need(radix, v)
                         && buf[..olen] == SignText(s) + Numeral(radix, v, bytes) + [0 as char]
    ensures ret == 0 ==> forall j | olen <= j < buf.Length :: buf[j] == old(buf[j])
    ensures ret < 0 ==> buf[..] == old(buf[..])
  {
    hide Need, Numeral, Written, Pow;
    if radix < 2 || radix > 16 {
      return ERR_BAD_INPUT_DATA, 0;
    }
    var n := Need(radix, v);
    if buflen < n {
      return ERR_BUFFER_TOO_SMALL, n;
    }
    NumeralReads(radix, v, bytes);
    NeedSuffices(radix, v);
    var p := 0;
    if s == -1 {
      p := Put(buf, p, '-');
    }
    assert buf[..p] == SignText(s);
    if radix == 2 && bytes == 0 {
      return UNDEFINED, 0;
    }
    p := WriteDigits(radix, v, bytes, buf, p);
    p := Put(buf, p, 0 as char);
    return 0, p;
  }

  method WriteDigits(radix: nat, v: nat, bytes: nat, buf: array<char>, p: nat) returns (q: nat)
    requires 2 <= radix <= 16 && v < Pow(256, bytes) && p + |Numeral(radix, v, bytes)| <= buf.Length
    modifies buf
    ensures q == p + |Numeral(radix, v, bytes)| && buf[..q] == old(buf[..p]) + Numeral(radix, v, bytes)
    ensures forall j | q <= j < buf.Length :: buf[j] == old(buf[j])
  {
    if radix == 16 {
      q := WriteHex(v, bytes, buf, p);
    } else {
      q := WriteHlp(radix, v, buf, p);
    }
  }
}
