/**
 * DER as mbedtls writes it, from the end of a buffer towards its start: lengths, tags, integers and
 * the ECDSA signature SEQUENCE { INTEGER r, INTEGER s }.
 */
module Der {
  import opened Powers
  import opened Numerals
  import opened Errors

  const INTEGER: nat := 0x02
  const SEQUENCE: nat := 0x30

  // ----- the encoding, as sections 8.1.3 and 8.3 of ITU-T X.690 describe it -----

  ghost predicate Octets(bs: seq<nat>) {
    forall i | 0 <= i < |bs| :: bs[i] < 256
  }

  /** The significant bytes of a number, the most significant one first. */
  function Bytes(v: nat): seq<nat> {
    if v == 0 then [] else Bytes(v / 256) + [v % 256]
  }

  function BigEndian(bs: seq<nat>): nat {
    if bs == [] then 0 else BigEndian(bs[..|bs| - 1]) * 256 + bs[|bs| - 1]
  }

  /** A length below 128 is itself; any other is a count of bytes and those bytes. */
  function LenOctets(n: nat): seq<nat> {
    if n < 0x80 then [n] else [0x80 + |Bytes(n)|] + Bytes(n)
  }

  /**
   * The top bit is a sign, so a number whose top byte has it set gets a zero byte in front; zero
   * takes one byte too.
   */
  function Content(v: nat): seq<nat> {
    (if v == 0 || Bytes(v)[0] >= 0x80 then [0] else []) + Bytes(v)
  }

  /** What content octets mean: two's complement. */
  function TwosComplement(c: seq<nat>): int
    requires c != []
  {
    if c[0] >= 0x80 then BigEndian(c) - Pow(256, |c|) else BigEndian(c)
  }

  function Tlv(tag: nat, content: seq<nat>): seq<nat> {
    [tag] + LenOctets(|content|) + content
  }

  function Integer(v: nat): seq<nat> {
    Tlv(INTEGER, Content(v))
  }

  function Signature(r: nat, s: nat): seq<nat> {
    Tlv(SEQUENCE, Integer(r) + Integer(s))
  }

  lemma {:induction false} BytesValue(v: nat)
    ensures BigEndian(Bytes(v)) == v && |Bytes(v)| == Len(256, v) && Octets(Bytes(v))
    ensures v > 0 ==> Bytes(v)[0] > 0
  {
    if v > 0 {
      BytesValue(v / 256);
      assert Bytes(v)[..|Bytes(v)| - 1] == Bytes(v / 256);
    }
  }

  /** At least one octet, the sign bit clear, and the first nine bits not all zero. */
  ghost predicate Minimal(c: seq<nat>) {
    c != [] && c[0] < 0x80 && (|c| > 1 ==> !(c[0] == 0 && c[1] < 0x80))
  }

  /** The content octets are such a form and mean the number. */
  lemma ContentIsMinimal(v: nat)
    ensures BigEndian(Content(v)) == v && Octets(Content(v)) && Minimal(Content(v))
    ensures TwosComplement(Content(v)) == v
  {
    BytesValue(v);
    LeadingZero(Bytes(v));
    if v > 0 && Bytes(v)[0] < 0x80 {
      assert Content(v) == Bytes(v);
    }
  }

  lemma ContentFrom(v: nat, bs: seq<nat>)
    requires Bytes(v) == bs
    ensures Content(v) == (if bs == [] || bs[0] >= 0x80 then [0] else []) + bs
  {
  }

  /** They are the only such form. */
  lemma MinimalIsContent(c: seq<nat>)
    requires Octets(c)
    ensures Minimal(c) <==> c == Content(BigEndian(c))
  {
    hide Bytes, BigEndian, Content;
    ContentIsMinimal(BigEndian(c));
    if Minimal(c) {
      if c[0] > 0 {
        BytesOfValue(c);
        ContentFrom(BigEndian(c), c);
        assert [] + c == c;
      } else {
        var t := c[1..];
        assert c == [0] + t;
        LeadingZero(t);
        BytesOfValue(t);
        ContentFrom(BigEndian(t), t);
      }
    }
  }

  /** Bytes without a leading zero are the significant bytes of their value. */
  lemma {:induction false} BytesOfValue(bs: seq<nat>)
    requires Octets(bs) && (bs != [] ==> bs[0] > 0)
    ensures Bytes(BigEndian(bs)) == bs
  {
    if bs != [] {
      var t, x := bs[..|bs| - 1], bs[|bs| - 1];
      BytesOfValue(t);
      BytesValue(BigEndian(t));
      assert bs == t + [x];
      assert BigEndian(bs) / 256 == BigEndian(t) && BigEndian(bs) % 256 == x;
      assert BigEndian(bs) > 0 by {
        if t == [] {
          assert x == bs[0];
        } else {
          assert Bytes(BigEndian(t)) == t;
        }
      }
    }
  }

  lemma {:induction false} LeadingZero(bs: seq<nat>)
    ensures BigEndian([0] + bs) == BigEndian(bs)
  {
    var zs := [0] + bs;
    if bs != [] {
      assert zs[..|zs| - 1] == [0] + bs[..|bs| - 1];
      LeadingZero(bs[..|bs| - 1]);
    } else {
      assert zs[..0] == [];
    }
  }

  // ----- writing, from the end of the buffer towards its start -----

  method Push(buf: array<nat>, p: nat, x: nat) returns (q: nat)
    requires 0 < p <= buf.Length
    modifies buf
    ensures q == p - 1 && buf[q..] == [x] + old(buf[p..])
  {
    q := p - 1;
    buf[q] := x;
  }

  lemma BytesNext(v: nat)
    requires v > 0
    ensures Bytes(v) == Bytes(v / 256) + [v % 256]
  {
  }

  /** One to four bytes, spelled out. */
  lemma BytesOfWord(n: nat)
    requires 0 < n <= 0xFFFFFFFF
    ensures n <= 0xFF ==> Bytes(n) == [n]
    ensures 0xFF < n <= 0xFFFF ==> Bytes(n) == [n / 0x100, n % 0x100]
    ensures 0xFFFF < n <= 0xFFFFFF ==> Bytes(n) == [n / 0x10000, n / 0x100 % 0x100, n % 0x100]
    ensures 0xFFFFFF < n ==> Bytes(n) == [n / 0x1000000, n / 0x10000 % 0x100, n / 0x100 % 0x100, n % 0x100]
  {
    assert n / 0x100 / 0x100 == n / 0x10000 && n / 0x10000 / 0x100 == n / 0x1000000;
    hide Bytes;
    NoBytes();
    BytesNext(n);
    if n > 0xFF { BytesNext(n / 0x100); }
    if n > 0xFFFF { BytesNext(n / 0x10000); }
    if n > 0xFFFFFF { BytesNext(n / 0x1000000); }
  }

  lemma NoBytes()
    ensures Bytes(0) == []
  {
  }

  /** The bytes of a 32-bit length, as the code shifts them out. */
  function LenByte(len: nat, k: nat): nat
    requires k < 4
  {
    (if k == 0 then len else if k == 1 then len / 0x100 else if k == 2 then len / 0x10000 else len / 0x1000000) % 0x100
  }

  lemma LenOctetsAre(len: nat)
    requires len <= 0xFFFFFFFF
    ensures LenOctets(len) ==
              if len < 0x80 then [len]
              else if len <= 0xFF then [0x81, len]
              else if len <= 0xFFFF then [0x82] + [LenByte(len, 1), LenByte(len, 0)]
              else if len <= 0xFFFFFF then [0x83, LenByte(len, 2)] + [LenByte(len, 1), LenByte(len, 0)]
              else [0x84] + [LenByte(len, 3), LenByte(len, 2)] + [LenByte(len, 1), LenByte(len, 0)]
  {
    hide Bytes;
    if len > 0 {
      BytesOfWord(len);
    }
  }

  method PushTwo(buf: array<nat>, p: nat, x: nat, y: nat) returns (q: nat)
    requires 1 < p <= buf.Length
    modifies buf
    ensures q == p - 2 && buf[q..] == [y, x] + old(buf[p..])
  {
    q := Push(buf, p, x);
    q := Push(buf, q, y);
  }

  method WriteLen(buf: array<nat>, p: nat, len: nat) returns (ret: int, q: nat)
    requires p <= buf.Length
    modifies buf
    ensures ret == if len > 0xFFFFFFFF then ERR_ASN1_INVALID_LENGTH
                   else if p < |LenOctets(len)| then ERR_ASN1_BUF_TOO_SMALL else |LenOctets(len)|
    ensures q == (if ret < 0 then p else p - ret) && q <= p
    ensures ret > 0 ==> buf[q..] == LenOctets(len) + old(buf[p..])
  {
    q := p;
    if len <= 0xFFFFFFFF {
      LenOctetsAre(len);
    }
    hide LenOctets, LenByte;
    if len < 0x80 {
      if p < 1 {
        return ERR_ASN1_BUF_TOO_SMALL, p;
      }
      q := Push(buf, q, len);
      return 1, q;
    }
    if len <= 0xFF {
      if p < 2 {
        return ERR_ASN1_BUF_TOO_SMALL, p;
      }
      q := PushTwo(buf, q, len, 0x81);
      return 2, q;
    }
    ret, q := WriteLongLen(buf, p, len);
  }

  /** The cases above 255. */
  method WriteLongLen(buf: array<nat>, p: nat, len: nat) returns (ret: int, q: nat)
    requires p <= buf.Length && len > 0xFF
    modifies buf
    ensures ret == if len > 0xFFFFFFFF then ERR_ASN1_INVALID_LENGTH
                   else if p < |LenOctets(len)| then ERR_ASN1_BUF_TOO_SMALL else |LenOctets(len)|
    ensures q == (if ret < 0 then p else p - ret) && q <= p
    ensures ret > 0 ==> buf[q..] == LenOctets(len) + old(buf[p..])
  {
    q := p;
    if len <= 0xFFFFFFFF {
      LongLenOctets(len);
    }
    hide LenOctets, LenByte, TopOctets;
    if len > 0xFFFFFFFF {
      return ERR_ASN1_INVALID_LENGTH, p;
    }
    ret := if len <= 0xFFFF then 3 else if len <= 0xFFFFFF then 4 else 5;
    if p < ret {
      return ERR_ASN1_BUF_TOO_SMALL, p;
    }
    q := PushTwo(buf, q, LenByte(len, 0), LenByte(len, 1));
    q := PushTop(buf, q, len);
  }

  /** The count, and what it counts above the two low bytes. */
  method PushTop(buf: array<nat>, p: nat, len: nat) returns (q: nat)
    requires 0xFF < len <= 0xFFFFFFFF && p <= buf.Length && p >= |TopOctets(len)|
    modifies buf
    ensures q == p - |TopOctets(len)| && buf[q..] == TopOctets(len) + old(buf[p..])
  {
    hide LenByte;
    if len <= 0xFFFF {
      q := Push(buf, p, 0x82);
    } else if len <= 0xFFFFFF {
      q := PushTwo(buf, p, LenByte(len, 2), 0x83);
    } else {
      q := PushTwo(buf, p, LenByte(len, 2), LenByte(len, 3));
      q := Push(buf, q, 0x84);
    }
  }

  function TopOctets(len: nat): seq<nat>
    requires 0xFF < len
  {
    if len <= 0xFFFF then [0x82]
    else if len <= 0xFFFFFF then [0x83, LenByte(len, 2)]
    else [0x84] + [LenByte(len, 3), LenByte(len, 2)]
  }

  lemma LongLenOctets(len: nat)
    requires 0xFF < len <= 0xFFFFFFFF
    ensures LenOctets(len) == TopOctets(len) + [LenByte(len, 1), LenByte(len, 0)]
    ensures |TopOctets(len)| == if len <= 0xFFFF then 1 else if len <= 0xFFFFFF then 2 else 3
  {
    LenOctetsAre(len);
    hide LenOctets, LenByte;
  }

  method WriteTag(buf: array<nat>, p: nat, tag: nat) returns (ret: int, q: nat)
    requires p <= buf.Length
    modifies buf
    ensures ret == if p < 1 then ERR_ASN1_BUF_TOO_SMALL else 1
    ensures q == (if ret < 0 then p else p - 1)
    ensures ret > 0 ==> buf[q..] == [tag] + old(buf[p..])
  {
    if p < 1 {
      return ERR_ASN1_BUF_TOO_SMALL, p;
    }
    q := Push(buf, p, tag);
    ret := 1;
  }

  /** mbedtls_mpi_size. */
  function MpiSize(v: nat): nat {
    (Len(2, v) + 7) / 8
  }

  lemma MpiSizeIsBytes(v: nat)
    ensures MpiSize(v) == |Bytes(v)|
  {
    hide Len, Pow;
    PowersOfTwo();
    BytesValue(v);
    LenOfPower(256, 8, v);
    LenNext(2, 0, 0, 0);
    LenBounds(2, v);
    LenBounds(256, v);
  }

  /** mbedtls_mpi_write_binary over buf[lo .. hi]: low-order bytes from the end, zeros in front. */
  method WriteBinary(buf: array<nat>, lo: nat, hi: nat, v: nat) returns (ret: int)
    requires lo <= hi <= buf.Length
    modifies buf
    ensures ret == if hi - lo < |Bytes(v)| then ERR_BUFFER_TOO_SMALL else 0
    ensures ret == 0 ==> buf[hi - |Bytes(v)|..hi] == Bytes(v)
    ensures ret == 0 ==> forall j | lo <= j < hi - |Bytes(v)| :: buf[j] == 0
    ensures forall j | 0 <= j < buf.Length && (j < lo || hi <= j) :: buf[j] == old(buf[j])
  {
    MpiSizeIsBytes(v);
    var n := MpiSize(v);
    if hi - lo < n {
      return ERR_BUFFER_TOO_SMALL;
    }
    forall j | lo <= j < hi {
      buf[j] := 0;
    }
    var i: nat, x := hi, v;
    while n > 0
      invariant n == |Bytes(x)| && lo <= i - n && i <= hi && hi - i + n == |Bytes(v)|
      invariant Bytes(v) == Bytes(x) + buf[i..hi]
      invariant forall j | lo <= j < i :: buf[j] == 0
      invariant forall j | 0 <= j < buf.Length && (j < lo || hi <= j) :: buf[j] == old(buf[j])
    {
      i := i - 1;
      buf[i] := x % 256;
      x := x / 256;
      n := n - 1;
    }
    ret := 0;
  }

  /**
   * The content octets mbedtls_asn1_write_mpi writes for s * v. Zero has no bytes, and the one that
   * is then looked at for the sign bit is the one after the number.
   */
  function WrittenContent(s: int, v: nat, after: nat): seq<nat> {
    Pad(s, if v > 0 then Bytes(v)[0] else after) + Bytes(v)
  }

  /**
   * They are the content octets of the number exactly for a positive one, for a zero that happens
   * to be followed by a byte from 0x80 up, and for minus the powers of two that a byte ends on.
   */
  lemma WrittenRight(s: int, v: nat, after: nat)
    requires s == 1 || s == -1
    ensures var c := WrittenContent(s, v, after);
            (c != [] && TwosComplement(c) == s * v) <==>
              if v == 0 then s == 1 && after >= 0x80 else s == 1 || 2 * v == Pow(256, |Bytes(v)|)
    ensures s == 1 && v > 0 ==> WrittenContent(s, v, after) == Content(v)
    ensures s == 1 ==> (WrittenContent(1, 0, after) == Content(0) <==> after >= 0x80)
  {
    hide BigEndian, Bytes, Pow;
    BytesValue(v);
    NoBytes();
    ContentIsMinimal(v);
    ContentIsMinimal(0);
    var c := WrittenContent(s, v, after);
    assert [] + Bytes(v) == Bytes(v);
    if v == 0 {
      ZeroContent(s, after);
    } else if s == 1 {
      assert c == Content(v);
    } else {
      HalfOfRange(v);
      assert c == Bytes(v);
    }
  }

  lemma ZeroContent(s: int, after: nat)
    requires s == 1 || s == -1
    ensures WrittenContent(s, 0, after) == if s == 1 && after >= 0x80 then [0] else []
    ensures Content(0) == [0] && TwosComplement([0]) == 0
  {
    assert BigEndian([0]) == BigEndian([]) * 256 + 0;
  }

  /** A number that is half of its bytes' range has the top bit of the top byte set. */
  lemma HalfOfRange(v: nat)
    requires v > 0
    ensures Bytes(v) != [] && (2 * v == Pow(256, |Bytes(v)|) ==> Bytes(v)[0] >= 0x80)
  {
    TopByte(v);
  }

  lemma PowParity(k: nat)
    requires k > 0
    ensures Pow(256, k) % 2 == 0
  {
    assert Pow(256, k) == 2 * (128 * Pow(256, k - 1));
  }

  /** The top bit of the top byte is set from half the range up. */
  lemma {:induction false} TopByte(v: nat)
    requires v > 0
    ensures Bytes(v) != [] && (Bytes(v)[0] >= 0x80 <==> 2 * v >= Pow(256, |Bytes(v)|))
  {
    hide Pow, Bytes;
    var q, n := v / 256, |Bytes(v / 256)|;
    BytesNext(v);
    PowNext(256, n);
    if q > 0 {
      TopByte(q);
      PowParity(n);
      HalfUp(v, q, Pow(256, n));
    } else {
      NoBytes();
      PowZero(256);
    }
  }

  lemma HalfUp(v: nat, q: nat, P: nat)
    requires q == v / 256 && P % 2 == 0
    ensures 2 * q >= P <==> 2 * v >= 256 * P
  {
  }

  /** mbedtls_mpi_write_binary over as many bytes as the number has. */
  method WriteBytes(buf: array<nat>, p: nat, v: nat) returns (ret: int, q: nat)
    requires p <= buf.Length
    modifies buf
    ensures ret == if p < |Bytes(v)| then ERR_ASN1_BUF_TOO_SMALL else |Bytes(v)|
    ensures ret >= 0 ==> q == p - ret && buf[q..] == Bytes(v) + old(buf[p..])
    ensures q <= buf.Length
  {
    hide Bytes;
    MpiSizeIsBytes(v);
    var len := MpiSize(v);
    if p < len {
      return ERR_ASN1_BUF_TOO_SMALL, p;
    }
    q := p - len;
    ret := WriteBinary(buf, q, p, v);
    ret := len;
  }

  /** The bytes of the number, and the zero in front that its sign bit may need. */
  method WriteContent(buf: array<nat>, p: nat, s: int, v: nat) returns (ret: int, q: nat)
    requires p <= buf.Length && (v == 0 ==> p < buf.Length)
    modifies buf
    ensures var c := WrittenContent(s, v, if p < buf.Length then old(buf[p]) else 0);
            && ret == (if p < |c| then ERR_ASN1_BUF_TOO_SMALL else |c|)
            && (ret >= 0 ==> q == p - ret && buf[q..] == c + old(buf[p..]))
    ensures q <= buf.Length
  {
    ghost var rest, bs := buf[p..], Bytes(v);
    ghost var after := if p < buf.Length then buf[p] else 0;
    WrittenFrom(s, v, after, bs);
    hide Bytes, WrittenContent;
    var n, m;
    n, q := WriteBytes(buf, p, v);
    if n < 0 {
      return n, q;
    }
    Padded(s, bs, rest, after);
    m, q := WritePad(buf, q, s);
    if m < 0 {
      return m, q;
    }
    ret := n + m;
  }

  /** A zero in front of a byte that would look like a sign. */
  method WritePad(buf: array<nat>, p: nat, s: int) returns (ret: int, q: nat)
    requires p < buf.Length
    modifies buf
    ensures ret == if p < |Pad(s, old(buf[p]))| then ERR_ASN1_BUF_TOO_SMALL else |Pad(s, old(buf[p]))|
    ensures ret >= 0 ==> q == p - ret && buf[q..] == Pad(s, old(buf[p])) + old(buf[p..])
    ensures q <= buf.Length
  {
    q, ret := p, 0;
    if s == 1 && buf[p] >= 0x80 {
      if p < 1 {
        return ERR_ASN1_BUF_TOO_SMALL, p;
      }
      q := Push(buf, p, 0);
      ret := 1;
    }
  }

  function Pad(s: int, top: nat): seq<nat> {
    if s == 1 && top >= 0x80 then [0] else []
  }

  lemma Padded(s: int, bs: seq<nat>, rest: seq<nat>, after: nat)
    requires bs == [] ==> rest != [] && rest[0] == after
    ensures bs + rest != [] && (bs + rest)[0] == if bs != [] then bs[0] else after
    ensures Pad(s, (bs + rest)[0]) + (bs + rest) == (Pad(s, if bs != [] then bs[0] else after) + bs) + rest
  {
  }

  lemma WrittenFrom(s: int, v: nat, after: nat, bs: seq<nat>)
    requires bs == Bytes(v)
    ensures bs == [] <==> v == 0
    ensures WrittenContent(s, v, after) == Pad(s, if bs != [] then bs[0] else after) + bs
  {
    BytesValue(v);
  }

  /** mbedtls_asn1_write_mpi, on a number s * v. Zero needs a byte after it to be looked at. */
  method WriteMpi(buf: array<nat>, p: nat, s: int, v: nat) returns (ret: int, q: nat)
    requires p <= buf.Length && (v == 0 ==> p < buf.Length)
    modifies buf
    ensures var c := WrittenContent(s, v, if p < buf.Length then old(buf[p]) else 0);
            && ret == (if p < |c| then ERR_ASN1_BUF_TOO_SMALL
                       else if |c| > 0xFFFFFFFF then ERR_ASN1_INVALID_LENGTH
                       else if p < |Tlv(INTEGER, c)| then ERR_ASN1_BUF_TOO_SMALL else |Tlv(INTEGER, c)|)
            && (ret >= 0 ==> q == p - ret && buf[q..] == Tlv(INTEGER, c) + old(buf[p..]))
    ensures q <= buf.Length
  {
    hide WrittenContent, LenOctets;
    ghost var rest, c := buf[p..], WrittenContent(s, v, if p < buf.Length then buf[p] else 0);
    var len;
    len, q := WriteContent(buf, p, s, v);
    if len < 0 {
      return len, q;
    }
    ret, q := WriteTlv(buf, q, len, INTEGER);
    InFront([INTEGER], LenOctets(len), c, rest);
  }

  lemma InFront(a: seq<nat>, b: seq<nat>, c: seq<nat>, d: seq<nat>)
    ensures a + b + (c + d) == (a + b + c) + d
  {
  }

  /** The length and the tag in front of what has been written. */
  method WriteTlv(buf: array<nat>, p: nat, len: nat, tag: nat) returns (ret: int, q: nat)
    requires p <= buf.Length
    modifies buf
    ensures ret == if len > 0xFFFFFFFF then ERR_ASN1_INVALID_LENGTH
                   else if p < 1 + |LenOctets(len)| then ERR_ASN1_BUF_TOO_SMALL else 1 + |LenOctets(len)| + len
    ensures ret >= 0 ==> q == p - 1 - |LenOctets(len)|
    ensures ret >= 0 ==> buf[q..] == [tag] + LenOctets(len) + old(buf[p..])
    ensures q <= buf.Length
  {
    var n;
    n, q := WriteLen(buf, p, len);
    if n < 0 {
      return n, q;
    }
    ret, q := WriteTag(buf, q, tag);
    if ret < 0 {
      return;
    }
    ret := len + n + ret;
  }

  /** ecdsa_signature_to_asn1 with a buffer of so many bytes. */
  method SignatureToAsn1(maxLen: nat, r: nat, s: nat) returns (ret: int, sig: seq<nat>)
    requires r > 0 && s > 0 && maxLen <= 0xFFFFFFFF
    ensures ret == if |Signature(r, s)| <= maxLen then 0 else ERR_ASN1_BUF_TOO_SMALL
    ensures ret == 0 ==> sig == Signature(r, s)
  {
    hide LenOctets, Content, WrittenContent, Pow;
    sig := [];
    var buf := new nat[maxLen];
    var n, m, k, p;
    WrittenRight(1, s, 0);
    n, p := WriteMpi(buf, maxLen, 1, s);
    if n < 0 {
      SignatureLonger(r, s);
      return n, sig;
    }
    assert buf[p..] == Integer(s);
    WrittenRight(1, r, buf[p]);
    m, p := WriteMpi(buf, p, 1, r);
    if m < 0 {
      SignatureLonger(r, s);
      return m, sig;
    }
    assert buf[p..] == Integer(r) + Integer(s);
    k, p := WriteTlv(buf, p, n + m, SEQUENCE);
    if k < 0 {
      SignatureLonger(r, s);
      return k, sig;
    }
    sig := buf[p..];
    ret := 0;
  }

  lemma SignatureLonger(r: nat, s: nat)
    ensures |Signature(r, s)| >= |Integer(r)| + |Integer(s)|
    ensures |Integer(r)| >= |Content(r)| && |Integer(s)| >= |Content(s)|
  {
  }
}
