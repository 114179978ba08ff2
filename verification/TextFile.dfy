/**
 * Numbers as lines of a file, and the buffer MBEDTLS_MPI_RW_BUFFER_SIZE that both directions share:
 * what fits it, what is refused although it would fit, and what a line is read back as.
 */
module TextFile {
  import opened Powers
  import opened Numerals
  import opened Errors
  import opened Text

  /** MBEDTLS_MPI_RW_BUFFER_SIZE: the digits at a ratio of 332 to 100, a label of 10, and 6 more. */
  function RwBufferSize(maxBits: nat): (size: nat)
    ensures size >= 16
  {
    (100 * maxBits + 332 - 1) / 332 + 10 + 6
  }

  /** The size is 16 above the bits times 100 / 332, rounded up. */
  lemma BufferSizeIs(maxBits: nat)
    ensures var digits := RwBufferSize(maxBits) - 16;
            100 * maxBits <= 332 * digits < 100 * maxBits + 332
  {
    var x := 100 * maxBits + 332 - 1;
    assert x == 332 * (x / 332) + x % 332;
  }

  // ----- the digits fit -----

  lemma {:induction false} PowStrict(a: nat, b: nat, n: nat)
    requires a < b && n > 0
    ensures Pow(a, n) < Pow(b, n)
  {
    if n > 1 {
      PowStrict(a, b, n - 1);
      MulMonotone(a, b, Pow(a, n - 1));
      MulStrict(Pow(a, n - 1), Pow(b, n - 1), b);
    }
  }

  /** 2^83 <= 10^25; 332 and 100 are four times these. */
  lemma SmallRatio(x: nat, y: nat)
    requires x == 83 && y == 25
    ensures Pow(2, x) <= Pow(10, y)
  {
    BinarySide(x);
    DecimalSide(y);
  }

  lemma BinarySide(x: nat)
    requires x == 83
    ensures Pow(2, x) == 9671406556917033397649408
  {
    assert Pow(2, 10) == 1024 && Pow(2, 3) == 8;
    hide Pow;
    Doubled(10, 1024);
    Doubled(20, 1048576);
    Doubled(40, 1099511627776);
    PowAdd(2, 80, 3);
  }

  lemma Doubled(n: nat, x: nat)
    requires Pow(2, n) == x
    ensures Pow(2, 2 * n) == x * x
  {
    PowAdd(2, n, n);
  }

  lemma DecimalSide(y: nat)
    requires y == 25
    ensures Pow(10, y) == 10000000000000000000000000
  {
    assert Pow(10, 5) == 100000;
    hide Pow;
    PowMul(10, 5, 5);
    Fifth(100000);
  }

  lemma Fifth(x: nat)
    ensures Pow(x, 5) == x * (x * (x * (x * x)))
  {
    assert Pow(x, 1) == x * Pow(x, 0);
    assert Pow(x, 2) == x * Pow(x, 1);
    assert Pow(x, 3) == x * Pow(x, 2);
    assert Pow(x, 4) == x * Pow(x, 3);
    assert Pow(x, 5) == x * Pow(x, 4);
  }

  /** One safe ratio is safe at every size. */
  lemma RatioLifts(m: nat, k: nat, bits: nat, d: nat)
    requires k > 0 && Pow(2, m) <= Pow(10, k) && k * bits <= m * d
    ensures Pow(2, bits) <= Pow(10, d)
  {
    hide Pow;
    var x, y := Pow(2, bits), Pow(10, d);
    PowMul(2, bits, k);
    assert bits * k == k * bits;
    PowMonotone(2, k * bits, m * d);
    PowMul(2, m, d);
    PowBaseMonotone(Pow(2, m), Pow(10, k), d);
    PowMul(10, k, d);
    PowMul(10, d, k);
    assert d * k == k * d;
    assert Pow(x, k) <= Pow(y, k);
    if y < x {
      PowStrict(y, x, k);
    }
  }

  /** Whatever the size and the radix from 10 up, the buffer less 16 has room for the digits. */
  lemma DigitsFit(maxBits: nat, radix: nat, v: nat)
    requires radix >= 10 && v < Pow(2, maxBits)
    ensures Len(radix, v) <= RwBufferSize(maxBits) - 16
  {
    hide Len, Pow;
    var d := RwBufferSize(maxBits) - 16;
    SmallRatio(83, 25);
    RatioLifts(83, 25, maxBits, d);
    PowBaseMonotone(10, radix, d);
    LenAtMost(radix, v, d);
  }

  // ----- mbedtls_mpi_write_file -----

  function Line(prefix: string, s: int, digits: string): string {
    prefix + SignText(s) + digits + "\r\n"
  }

  method WriteFile(prefix: string, s: int, v: nat, bytes: nat, radix: int, maxBits: nat)
    returns (ret: int, line: string)
    requires (s == 1 || s == -1) && v < Pow(256, bytes)
    ensures ret == if radix < 2 || radix > 16 then ERR_BAD_INPUT_DATA
                   else if Need(radix, v) > RwBufferSize(maxBits) - 2 then ERR_BUFFER_TOO_SMALL
                   else if radix == 2 && bytes == 0 then UNDEFINED else 0
    ensures ret == 0 ==> line == Line(prefix, s, Numeral(radix, v, bytes))
  {
    hide Need, Numeral, Pow, SignText, RwBufferSize;
    line := "";
    var size := RwBufferSize(maxBits);
    var buf := new char[size](_ => 0 as char);
    var n;
    ret, n := WriteString(s, v, bytes, radix, buf, size - 2);
    if ret != 0 {
      return;
    }
    var slen := n - 1;
    assert buf[..slen] == buf[..n][..slen] == SignText(s) + Numeral(radix, v, bytes);
    slen := Put(buf, slen, '\r');
    slen := Put(buf, slen, '\n');
    line := prefix + buf[..slen];
  }

  /** In hexadecimal every number of so many bytes is written. */
  lemma HexIsWritten(size: nat, v: nat)
    requires v < Pow(2, 8 * size)
    ensures Need(16, v) <= RwBufferSize(8 * size) - 2
  {
    hide Len, Pow;
    LenAtMost(2, v, 8 * size);
  }

  /**
   * For radix 10 to 15 the size that mbedtls_mpi_write_string insists on outgrows the buffer, and
   * then a number is refused whose text the buffer would hold.
   */
  lemma DecimalIsRefused(size: nat, radix: nat) returns (v: nat)
    requires 10 <= radix < 16 && size >= 7
    ensures v < Pow(2, 8 * size) && Need(radix, v) > RwBufferSize(8 * size) - 2
    ensures 1 + |Numeral(radix, v, size)| + |"\r\n"| + 1 <= RwBufferSize(8 * size)
  {
    hide Need, Numeral, Pow, RwBufferSize;
    v := AllBits(8 * size);
    NeedOfBits(size, radix, v);
    TextFits(size, radix, v);
  }

  /** The largest number of so many bits has all of them. */
  lemma AllBits(n: nat) returns (v: nat)
    requires n > 0
    ensures v < Pow(2, n) && Len(2, v) == n
  {
    hide Len, Pow;
    v := Pow(2, n) - 1;
    LenAtMost(2, v, n);
    LenAtMost(2, v, n - 1);
    PowNext(2, n - 1);
  }

  lemma NeedOfBits(size: nat, radix: nat, v: nat)
    requires 10 <= radix < 16 && size >= 7 && Len(2, v) == 8 * size
    ensures Need(radix, v) > RwBufferSize(8 * size) - 2
  {
    NeedOfEven(radix, v, 2 * size);
    BufferBelow(8 * size, 4 * size + 5);
  }

  lemma NeedOfEven(radix: nat, v: nat, h: nat)
    requires 4 <= radix < 16 && Len(2, v) == 4 * h
    ensures Need(radix, v) == 2 * h + 4
  {
    hide Len;
    var n := 2 * h;
    assert Len(2, v) / 2 == n;
    assert n + 1 == 2 * h + 1;
  }

  lemma BufferBelow(maxBits: nat, size: nat)
    requires 100 * maxBits + 331 < 332 * (size - 15)
    ensures RwBufferSize(maxBits) <= size
  {
    var x := 100 * maxBits + 332 - 1;
    assert 332 * (x / 332) <= x;
  }

  /** Sign, digits, line end and NUL fit the buffer in any case. */
  lemma TextFits(size: nat, radix: nat, v: nat)
    requires 10 <= radix < 16 && size > 0 && v < Pow(2, 8 * size)
    ensures 1 + |Numeral(radix, v, size)| + |"\r\n"| + 1 <= RwBufferSize(8 * size)
  {
    hide Len, Pow, Numeral, RwBufferSize;
    NumeralReads(radix, v, size);
    DigitsFit(8 * size, radix, v);
  }

  /** Six bytes is where every number is still written. */
  lemma DecimalIsWritten(size: nat, radix: nat)
    requires 10 <= radix < 16
    ensures (forall v: nat | v < Pow(2, 8 * size) :: Need(radix, v) <= RwBufferSize(8 * size) - 2) <==> size <= 6
  {
    hide Len, Pow;
    if size >= 7 {
      var v := DecimalIsRefused(size, radix);
      assert v < Pow(2, 8 * size);
    } else {
      forall v: nat | v < Pow(2, 8 * size)
        ensures Need(radix, v) <= RwBufferSize(8 * size) - 2
      {
        LenAtMost(2, v, 8 * size);
      }
    }
  }

  // ----- mbedtls_mpi_read_file -----

  /** fgets: up to and with the first newline, and no more than so many characters. */
  function FirstLine(t: string, limit: nat): (l: string)
    ensures |l| <= limit
  {
    if t == "" || limit == 0 then ""
    else if t[0] == '\n' then "\n"
    else [t[0]] + FirstLine(t[1..], limit - 1)
  }

  /**
   * It is the longest beginning of the stream that has its first newline at most at its end and is
   * within the limit.
   */
  lemma {:induction false} FirstLineIs(t: string, limit: nat)
    ensures var l := FirstLine(t, limit);
            && |l| <= |t| && l == t[..|l|]
            && (l != [] ==> '\n' !in l[..|l| - 1])
            && (l == t || |l| == limit || (l != [] && l[|l| - 1] == '\n'))
  {
    if t != "" && limit > 0 && t[0] != '\n' {
      var v, m := t[1..], FirstLine(t[1..], limit - 1);
      FirstChar(t, limit);
      hide FirstLine;
      FirstLineIs(v, limit - 1);
      assert t[..1 + |m|] == [t[0]] + v[..|m|];
      if m != [] {
        assert ([t[0]] + m)[..|m|] == [t[0]] + m[..|m| - 1];
      }
      assert m == v ==> [t[0]] + m == t;
    }
  }

  /** What comes after the first newline makes no difference. */
  lemma {:induction false} LineStops(u: string, rest: string, limit: nat)
    requires '\n' !in u
    ensures FirstLine(u + "\n" + rest, limit) == FirstLine(u + "\n", limit)
  {
    if u != "" && limit > 0 {
      var v := u[1..];
      var x, y := u + "\n" + rest, u + "\n";
      assert x[1..] == v + "\n" + rest && y[1..] == v + "\n" && x[0] == y[0] == u[0];
      FirstChar(x, limit);
      FirstChar(y, limit);
      hide FirstLine;
      LineStops(v, rest, limit - 1);
    }
  }

  /** So of several lines only the first is read. */
  lemma OnlyFirstLine(radix: int, u: string, rest: string, maxBits: nat)
    requires '\n' !in u
    ensures FileParse(radix, u + "\n" + rest, maxBits) == FileParse(radix, u + "\n", maxBits)
  {
    hide FirstLine, RwBufferSize, Parse, DigitSuffix, Without;
    LineStops(u, rest, RwBufferSize(maxBits) - 2);
  }

  /** One such character is taken off the end, if it is there. */
  lemma WithoutOne(t: string, c: char)
    ensures t == Without(t, c) || t == Without(t, c) + [c]
    ensures t == Without(t, c) <==> t == "" || t[|t| - 1] != c
  {
  }

  function Without(t: string, c: char): string {
    if t != "" && t[|t| - 1] == c then t[..|t| - 1] else t
  }

  /** The digits a line ends with. */
  function DigitSuffix(radix: int, t: string): string {
    if t == "" || !IsDigit(radix, t[|t| - 1]) then "" else DigitSuffix(radix, t[..|t| - 1]) + [t[|t| - 1]]
  }

  /** It is the longest run of digits at the end, and nothing else is. */
  lemma {:induction false} SuffixIsLongest(radix: int, t: string, k: nat)
    requires k <= |t|
    ensures t[k..] == DigitSuffix(radix, t) <==>
              AllDigits(radix, t[k..]) && (k == 0 || !IsDigit(radix, t[k - 1]))
  {
    hide IsDigit;
    if t != "" {
      var n := |t| - 1;
      var u, c := t[..n], t[n];
      if k <= n {
        SuffixIsLongest(radix, u, k);
        assert t[k..] == u[k..] + [c];
        assert IsDigit(radix, c) <== AllDigits(radix, t[k..]) by { assert t[k..][n - k] == c; }
        assert AllDigits(radix, u[k..]) && IsDigit(radix, c) ==> AllDigits(radix, t[k..]);
        assert AllDigits(radix, t[k..]) ==> AllDigits(radix, u[k..]) by {
          assert forall i | 0 <= i < n - k :: u[k..][i] == t[k..][i];
        }
        if t[k..] == DigitSuffix(radix, t) {
          assert IsDigit(radix, c);
          assert t[k..][..n - k] == u[k..];
        }
      }
    }
  }

  function FileParse(radix: int, contents: string, maxBits: nat): Outcome {
    var line := FirstLine(contents, RwBufferSize(maxBits) - 2);
    if contents == "" then Failed(ERR_FILE_IO_ERROR)
    else if |line| == RwBufferSize(maxBits) - 2 then Failed(ERR_BUFFER_TOO_SMALL)
    else Parse(radix, DigitSuffix(radix, Without(Without(line, '\n'), '\r')))
  }

  /** The scan back from the end of the line. */
  method ReadFile(radix: int, contents: string, maxBits: nat) returns (r: Outcome)
    ensures r == FileParse(radix, contents, maxBits)
  {
    hide FirstLine, DigitSuffix, Parse, Without, RwBufferSize;
    if contents == "" {
      return Failed(ERR_FILE_IO_ERROR);
    }
    var t := FirstLine(contents, RwBufferSize(maxBits) - 2);
    if |t| == RwBufferSize(maxBits) - 2 {
      return Failed(ERR_BUFFER_TOO_SMALL);
    }
    t := Without(Without(t, '\n'), '\r');
    var p := ScanBack(radix, t);
    r := ReadString(radix, t[p..]);
  }

  method ScanBack(radix: int, t: string) returns (p: nat)
    ensures p <= |t| && t[p..] == DigitSuffix(radix, t)
    ensures AllDigits(radix, t[p..]) && (p == 0 || !IsDigit(radix, t[p - 1]))
  {
    hide IsDigit;
    p := |t|;
    assert t[..p] == t;
    while p > 0 && IsDigit(radix, t[p - 1])
      invariant p <= |t| && DigitSuffix(radix, t[..p]) + t[p..] == DigitSuffix(radix, t)
    {
      assert t[..p][..p - 1] == t[..p - 1] && t[p - 1..] == [t[p - 1]] + t[p..];
      p := p - 1;
    }
    assert DigitSuffix(radix, t[..p]) == "";
    SuffixIsLongest(radix, t, p);
  }

  // ----- there and back -----

  lemma {:induction false} WholeLine(t: string, limit: nat)
    requires '\n' !in t
    ensures FirstLine(t + "\n", limit) == if |t| + 1 <= limit then t + "\n" else t[..limit]
  {
    var u := t + "\n";
    if t != "" && limit > 0 {
      var v := t[1..];
      assert u[1..] == v + "\n" && u[0] == t[0];
      FirstChar(u, limit);
      hide FirstLine;
      WholeLine(v, limit - 1);
      if |t| + 1 > limit {
        assert t[..limit] == [t[0]] + v[..limit - 1];
      } else {
        assert u == [t[0]] + (v + "\n");
      }
    }
  }

  lemma FirstChar(u: string, limit: nat)
    requires u != "" && limit > 0 && u[0] != '\n'
    ensures FirstLine(u, limit) == [u[0]] + FirstLine(u[1..], limit - 1)
  {
  }

  lemma {:induction false} SuffixGrows(radix: int, t: string, u: string)
    requires AllDigits(radix, u)
    ensures DigitSuffix(radix, t + u) == DigitSuffix(radix, t) + u
  {
    if u == "" {
      assert t + u == t;
    } else {
      assert (t + u)[..|t + u| - 1] == t + u[..|u| - 1];
      SuffixGrows(radix, t, u[..|u| - 1]);
      assert u == u[..|u| - 1] + [u[|u| - 1]];
    }
  }

  lemma {:induction false} SuffixIsDigits(radix: int, t: string)
    ensures AllDigits(radix, DigitSuffix(radix, t))
  {
    if t != "" {
      SuffixIsDigits(radix, t[..|t| - 1]);
    }
  }

  /** The digits the label ends with, in front of an unsigned number. */
  function LabelValue(radix: int, prefix: string): nat
    requires radix >= 0
  {
    NumValue(radix, DigitSuffix(radix, prefix))
  }

  /** The number a line of this prefix, sign and digits is read as. */
  function FileNumber(radix: nat, prefix: string, s: int, v: nat, digits: nat): nat {
    if s == -1 then v else LabelValue(radix, prefix) * Pow(radix, digits) + v
  }

  /**
   * What reading a written line gives, whatever the label, the radix and the buffer: an error for
   * a line that fills the buffer, and otherwise never the sign, and the label's trailing digits as
   * further digits of the number unless a minus keeps them apart.
   */
  lemma LineReads(radix: nat, prefix: string, s: int, v: nat, bytes: nat, maxBits: nat)
    requires 2 <= radix <= 16 && (s == 1 || s == -1) && '\n' !in prefix
    ensures var t := Numeral(radix, v, bytes);
            FileParse(radix, Line(prefix, s, t), maxBits) ==
              if |Line(prefix, s, t)| >= RwBufferSize(maxBits) - 2 then Failed(ERR_BUFFER_TOO_SMALL)
              else Number(1, FileNumber(radix, prefix, s, v, |t|))
  {
    hide Numeral, Pow, NumValue, IsDigit, DigitSuffix, RwBufferSize, AllDigits, FirstLine, Without, Body, Signed;
    var t := Numeral(radix, v, bytes);
    var before := prefix + SignText(s);
    NumeralReads(radix, v, bytes);
    DigitsOnOneLine(radix, t);
    LineEnds(before + t, RwBufferSize(maxBits) - 2);
    SuffixGrows(radix, before, t);
    SuffixIsDigits(radix, before + t);
    var w := DigitSuffix(radix, before);
    if s == -1 {
      AfterMinus(radix, prefix);
      assert w + t == t;
    } else {
      assert before == prefix;
      NumConcat(radix, w, t);
    }
    NotSigned(radix, w + t);
  }

  lemma LineEnds(t: string, limit: nat)
    requires '\n' !in t
    ensures FirstLine(t + "\r\n", limit) == if |t| + 2 <= limit then t + "\r\n" else (t + "\r")[..limit]
    ensures Without(Without(t + "\r\n", '\n'), '\r') == t
  {
    assert t + "\r\n" == (t + "\r") + "\n";
    WholeLine(t + "\r", limit);
    assert Without((t + "\r") + "\n", '\n') == t + "\r";
  }

  lemma AfterMinus(radix: nat, t: string)
    requires radix <= 16
    ensures DigitSuffix(radix, t + "-") == ""
  {
  }

  lemma NotSigned(radix: int, t: string)
    requires radix <= 16 && AllDigits(radix, t)
    ensures !Signed(t) && Body(t) == t
  {
    DigitIsNotMinus(radix, t);
  }

  lemma DigitsOnOneLine(radix: nat, t: string)
    requires radix <= 16 && AllDigits(radix, t)
    ensures '\n' !in t
  {
    assert !IsDigit(radix, '\n');
  }

  /** The 16 bytes beside the digits suffice for a label of ten characters, sign and line end. */
  lemma ShortLabelFits(radix: nat, prefix: string, s: int, v: nat, size: nat)
    requires 10 <= radix <= 16 && |prefix| <= 10 && size > 0 && v < Pow(2, 8 * size)
    ensures |Line(prefix, s, Numeral(radix, v, size))| < RwBufferSize(8 * size) - 2
  {
    hide Len, Pow, Numeral;
    NumeralReads(radix, v, size);
    DigitsFit(8 * size, radix, v);
    if radix == 16 {
      PowersOfTwo();
      GroupsOfBits(256, 8, v, size);
      LenAtMost(2, v, 8 * size);
    }
  }

  /**
   * A number written under a short label is read back as itself exactly when it is written
   * without a minus and the label does not end in digits that count.
   */
  lemma FileRoundTrip(radix: nat, prefix: string, s: int, v: nat, size: nat)
    requires 10 <= radix <= 16 && (s == 1 || s == -1) && '\n' !in prefix && |prefix| <= 10
    requires size > 0 && v < Pow(2, 8 * size)
    ensures FileParse(radix, Line(prefix, s, Numeral(radix, v, size)), 8 * size) == Number(s, v)
            <==> s == 1 && LabelValue(radix, prefix) == 0
  {
    hide Pow, Numeral, NumValue, FileParse, Line;
    ShortLabelFits(radix, prefix, s, v, size);
    LineReads(radix, prefix, s, v, size, 8 * size);
    var w := LabelValue(radix, prefix);
    if w > 0 {
      MulMonotone(1, w, Pow(radix, |Numeral(radix, v, size)|));
    }
  }
}
