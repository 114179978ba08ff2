/**
 * ECDSA signatures on the wire: MBEDTLS_ECDSA_MAX_LEN against the true size for every curve size,
 * and reading back what was written.
 */
module Ecdsa {
  import opened Powers
  import opened Numerals
  import opened Errors
  import opened Der
  import Mpi

  // ----- MBEDTLS_ECDSA_MAX_LEN -----

  /** MBEDTLS_ECP_MAX_BYTES. */
  function MaxBytes(bits: nat): nat {
    (bits + 7) / 8
  }

  /** MBEDTLS_ECDSA_MAX_LEN. */
  function MaxLen(bits: nat): nat {
    3 + 2 * (3 + MaxBytes(bits))
  }

  /** A number of so many bits has a content of bits / 8 + 1 octets. */
  lemma ContentSize(v: nat)
    ensures |Content(v)| == Len(2, v) / 8 + 1
  {
    hide Len, Bytes;
    LenNext(2, 0, 0, 0);
    NoBytes();
    if v > 0 {
      TopBit(v);
    }
    MpiSizeIsBytes(v);
    BytesValue(v);
  }

  /** The top byte has its top bit set when the bits fill the bytes. */
  lemma {:induction false} TopBit(v: nat)
    requires v > 0
    ensures |Bytes(v)| > 0 && (Bytes(v)[0] >= 0x80 <==> Len(2, v) % 8 == 0)
  {
    hide Len, Pow;
    EightBits(v);
    BytesNext(v);
    if v >= 256 {
      TopBit(v / 256);
    } else {
      NoBytes();
      LenAtMost(2, v, 7);
      LenAtMost(2, v, 8);
      LenBounds(2, v);
      PowersOfTwo();
    }
  }

  lemma EightBits(v: nat)
    ensures v >= 256 ==> Len(2, v) == Len(2, v / 256) + 8
  {
    hide Len, Pow;
    var q := v / 256;
    if v >= 256 {
      LenBounds(2, q);
      ByteAbove(v, q, Len(2, q));
      ByteAbove(v, q, Len(2, q) - 1);
    }
  }

  lemma ByteAbove(v: nat, q: nat, n: nat)
    requires q == v / 256
    ensures Len(2, q) <= n <==> Len(2, v) <= n + 8
  {
    hide Len, Pow;
    PowAdd(2, n, 8);
    PowersOfTwo();
    LenAtMost(2, q, n);
    LenAtMost(2, v, n + 8);
    BytesBelow(v, Pow(2, n));
  }

  lemma BytesBelow(v: nat, P: nat)
    ensures v / 256 < P <==> v < P * 256
  {
  }

  /** Octets of a length. */
  lemma LenOctetsSize(n: nat)
    ensures |LenOctets(n)| == if n < 0x80 then 1 else 1 + Len(256, n)
    ensures n < 0x80 ==> |LenOctets(n)| == 1
    ensures 0x80 <= n <= 0xFF ==> |LenOctets(n)| == 2
    ensures 0xFF < n ==> |LenOctets(n)| >= 3
    ensures 0xFF < n <= 0xFFFF ==> |LenOctets(n)| == 3
  {
    hide Len, Bytes;
    BytesValue(n);
    if 0 < n <= 0xFFFF {
      BytesOfWord(n);
    } else if n > 0 {
      BytesNext(n);
      BytesNext(n / 256);
    }
  }

  /** The size of a signature grows with its numbers. */
  lemma LongerNumbers(r: nat, s: nat, t: nat)
    requires r <= t && s <= t
    ensures |Signature(r, s)| <= |Signature(t, t)|
  {
    hide Len;
    LongerContent(r, t);
    LongerContent(s, t);
    LongerTlv(|Integer(r)| + |Integer(s)|, |Integer(t)| + |Integer(t)|);
  }

  lemma LongerContent(r: nat, t: nat)
    requires r <= t
    ensures |Integer(r)| <= |Integer(t)|
  {
    ContentSize(r);
    ContentSize(t);
    LenMonotone(2, r, t);
    LongerTlv(|Content(r)|, |Content(t)|);
  }

  lemma LongerTlv(m: nat, n: nat)
    requires m <= n
    ensures |LenOctets(m)| <= |LenOctets(n)|
  {
    LenOctetsSize(m);
    LenOctetsSize(n);
    LenMonotone(256, m, n);
  }

  /** The size of the largest signature of two numbers of so many bits. */
  lemma LargestSignature(bits: nat, t: nat)
    requires t == Pow(2, bits) - 1
    ensures var c := bits / 8 + 1;
            var i := 1 + |LenOctets(c)| + c;
            |Signature(t, t)| == 1 + |LenOctets(2 * i)| + 2 * i
  {
    hide Len, Pow;
    LenAtMost(2, t, bits);
    if bits > 0 {
      PowNext(2, bits - 1);
      LenAtMost(2, t, bits - 1);
    }
    ContentSize(t);
  }

  /** The sizes of curve for which the constant is large enough. */
  predicate Covered(bits: nat) {
    bits < 1000 || (bits < 1016 && bits % 8 != 0)
  }

  ghost predicate Suffices(bits: nat) {
    forall r: nat, s: nat | r < Pow(2, bits) && s < Pow(2, bits) :: |Signature(r, s)| <= MaxLen(bits)
  }

  /**
   * MBEDTLS_ECDSA_MAX_LEN is enough for every pair of numbers of at most so many bits exactly up
   * to 999 bits, and at 1001 to 1007 and 1009 to 1015, where a whole byte counts for its low bits.
   */
  lemma MaxLenSuffices(bits: nat)
    ensures Suffices(bits) <==> Covered(bits)
  {
    hide Pow;
    var t: nat := Pow(2, bits) - 1;
    LargestSignature(bits, t);
    var c := bits / 8 + 1;
    LenOctetsSize(c);
    LenOctetsSize(2 * (1 + |LenOctets(c)| + c));
    assert |Signature(t, t)| <= MaxLen(bits) <==> Covered(bits) by {
      hide Signature;
      LargestFits(bits, |LenOctets(c)|, |LenOctets(2 * (1 + |LenOctets(c)| + c))|);
    }
    if Covered(bits) {
      forall r: nat, s: nat | r < Pow(2, bits) && s < Pow(2, bits)
        ensures |Signature(r, s)| <= MaxLen(bits)
      {
        LongerNumbers(r, s, t);
      }
    }
  }

  lemma LargestFits(bits: nat, x: nat, y: nat)
    requires var c := bits / 8 + 1;
             var i := 1 + x + c;
             && (c < 0x80 ==> x == 1) && (0x80 <= c <= 0xFF ==> x == 2) && (0xFF < c ==> x >= 3)
             && (2 * i < 0x80 ==> y == 1) && (0x80 <= 2 * i <= 0xFF ==> y == 2)
             && (0xFF < 2 * i ==> y >= 3) && (0xFF < 2 * i <= 0xFFFF ==> y == 3)
    ensures var i := 1 + x + bits / 8 + 1;
            1 + y + 2 * i <= MaxLen(bits) <==> Covered(bits)
  {
    if bits % 8 == 0 {
      assert (bits + 7) / 8 == bits / 8;
    } else {
      assert (bits + 7) / 8 == bits / 8 + 1;
    }
  }

  /**
   * The compile-time guard asks for at most 124 bytes: exactly then the constant is enough for
   * numbers that use all the bits of their bytes.
   */
  lemma GuardIsExact(bytes: nat)
    ensures Suffices(8 * bytes) <==> MaxBytes(8 * bytes) <= 124
  {
    MaxLenSuffices(8 * bytes);
  }

  /** Under the guard every signature of a curve of any size is written. */
  method WriteSignature(bits: nat, r: nat, s: nat) returns (ret: int, sig: seq<nat>)
    requires MaxBytes(bits) <= 124 && 0 < r < Pow(2, bits) && 0 < s < Pow(2, bits)
    ensures ret == 0 && sig == Signature(r, s)
  {
    MaxLenSuffices(bits);
    ret, sig := SignatureToAsn1(MaxLen(bits), r, s);
  }

  // ----- reading -----

  /** An error code, or a length and where its value starts. */
  datatype Located = Bad(code: int) | At(len: nat, p: nat)

  function GetLen(sig: seq<nat>, p: nat, end: nat): (l: Located)
    requires p <= end <= |sig|
    ensures l.At? ==> l.p <= end && l.len <= end - l.p
  {
    if end - p < 1 then Bad(ERR_ASN1_OUT_OF_DATA)
    else if sig[p] < 0x80 then Within(sig[p], p + 1, end)
    else match sig[p] % 0x80
      case 1 =>
        if end - p < 2 then Bad(ERR_ASN1_OUT_OF_DATA)
        else Within(sig[p + 1], p + 2, end)
      case 2 =>
        if end - p < 3 then Bad(ERR_ASN1_OUT_OF_DATA)
        else Within(sig[p + 1] * 0x100 + sig[p + 2], p + 3, end)
      case 3 =>
        if end - p < 4 then Bad(ERR_ASN1_OUT_OF_DATA)
        else Within(sig[p + 1] * 0x10000 + sig[p + 2] * 0x100 + sig[p + 3], p + 4, end)
      case 4 =>
        if end - p < 5 then Bad(ERR_ASN1_OUT_OF_DATA)
        else Within(sig[p + 1] * 0x1000000 + sig[p + 2] * 0x10000 + sig[p + 3] * 0x100 + sig[p + 4], p + 5, end)
      case _ => Bad(ERR_ASN1_INVALID_LENGTH)
  }

  function Within(len: nat, p: nat, end: nat): (l: Located)
    requires p <= end
    ensures l.At? ==> l.p <= end && l.len <= end - l.p
  {
    if len > end - p then Bad(ERR_ASN1_OUT_OF_DATA) else At(len, p)
  }

  function GetTag(sig: seq<nat>, p: nat, end: nat, tag: nat): (l: Located)
    requires p <= end <= |sig|
    ensures l.At? ==> l.p <= end && l.len <= end - l.p
  {
    if end - p < 1 then Bad(ERR_ASN1_OUT_OF_DATA)
    else if sig[p] != tag then Bad(ERR_ASN1_UNEXPECTED_TAG)
    else GetLen(sig, p + 1, end)
  }

  /** What mbedtls_ecdsa_read_signature passes on, and whether bytes are left over. */
  datatype Read = Refused(code: int) | Numbers(r: nat, s: nat, leftOver: bool)

  /** Whether so many bytes fit the limbs a number may have, with so many bytes to a limb. */
  predicate Storable(len: nat, ciL: nat)
    requires ciL > 0
  {
    len / ciL + (if len % ciL != 0 then 1 else 0) <= Mpi.MAX_LIMBS
  }

  function ReadSignature(sig: seq<nat>, ciL: nat): Read
    requires ciL > 0
  {
    match GetTag(sig, 0, |sig|, SEQUENCE)
    case Bad(code) => Refused(code + ERR_ECP_BAD_INPUT_DATA)
    case At(len, p) =>
      if p + len != |sig| then Refused(ERR_ECP_BAD_INPUT_DATA + ERR_ASN1_LENGTH_MISMATCH)
      else match GetTag(sig, p, |sig|, INTEGER)
        case Bad(code) => Refused(code + ERR_ECP_BAD_INPUT_DATA)
        case At(rlen, rp) =>
          if !Storable(rlen, ciL) then Refused(ERR_ALLOC_FAILED + ERR_ECP_BAD_INPUT_DATA)
          else match GetTag(sig, rp + rlen, |sig|, INTEGER)
            case Bad(code) => Refused(code + ERR_ECP_BAD_INPUT_DATA)
            case At(slen, sp) =>
              if !Storable(slen, ciL) then Refused(ERR_ALLOC_FAILED + ERR_ECP_BAD_INPUT_DATA)
              else Numbers(BigEndian(sig[rp..rp + rlen]), BigEndian(sig[sp..sp + slen]), sp + slen != |sig|)
  }

  /** A length as written is read as itself, and refused if less than that is left. */
  lemma LenReads(sig: seq<nat>, p: nat, end: nat, len: nat)
    requires len <= 0xFFFFFFFF && p + |LenOctets(len)| <= end <= |sig|
    requires sig[p..p + |LenOctets(len)|] == LenOctets(len)
    ensures var q := p + |LenOctets(len)|;
            GetLen(sig, p, end) == if q + len <= end then At(len, q) else Bad(ERR_ASN1_OUT_OF_DATA)
  {
    LenOctetsAre(len);
    var os := LenOctets(len);
    hide LenOctets, GetLen, LenByte;
    var f := sig[p..p + |os|];
    assert f == os && sig[p] == f[0];
    if len < 0x80 {
      ShortField(sig, p, end);
    } else if len <= 0xFF {
      assert sig[p + 1] == f[1];
      OneByteField(sig, p, end);
    } else if len <= 0xFFFF {
      assert sig[p + 1] == f[1] && sig[p + 2] == f[2];
      TwoByteField(sig, p, end, len);
    } else if len <= 0xFFFFFF {
      assert sig[p + 1] == f[1] && sig[p + 2] == f[2] && sig[p + 3] == f[3];
      ThreeByteField(sig, p, end, len);
    } else {
      assert sig[p + 1] == f[1] && sig[p + 2] == f[2] && sig[p + 3] == f[3] && sig[p + 4] == f[4];
      FourByteField(sig, p, end, len);
    }
  }

  lemma ShortField(sig: seq<nat>, p: nat, end: nat)
    requires p < end <= |sig| && sig[p] < 0x80
    ensures GetLen(sig, p, end) == Within(sig[p], p + 1, end)
  {
  }

  lemma OneByteField(sig: seq<nat>, p: nat, end: nat)
    requires p + 1 < end <= |sig| && sig[p] == 0x81
    ensures GetLen(sig, p, end) == Within(sig[p + 1], p + 2, end)
  {
  }

  lemma TwoByteField(sig: seq<nat>, p: nat, end: nat, len: nat)
    requires p + 2 < end <= |sig| && sig[p] == 0x82 && len <= 0xFFFF
    requires sig[p + 1] == LenByte(len, 1) && sig[p + 2] == LenByte(len, 0)
    ensures GetLen(sig, p, end) == Within(len, p + 3, end)
  {
  }

  lemma ThreeByteField(sig: seq<nat>, p: nat, end: nat, len: nat)
    requires p + 3 < end <= |sig| && sig[p] == 0x83 && len <= 0xFFFFFF
    requires sig[p + 1] == LenByte(len, 2) && sig[p + 2] == LenByte(len, 1) && sig[p + 3] == LenByte(len, 0)
    ensures GetLen(sig, p, end) == Within(len, p + 4, end)
  {
    ThreeBytes(len);
  }

  lemma ThreeBytes(len: nat)
    requires len <= 0xFFFFFF
    ensures len == LenByte(len, 2) * 0x10000 + LenByte(len, 1) * 0x100 + LenByte(len, 0)
  {
    var x := len / 0x100;
    assert len / 0x10000 == x / 0x100;
  }

  lemma FourByteField(sig: seq<nat>, p: nat, end: nat, len: nat)
    requires p + 4 < end <= |sig| && sig[p] == 0x84 && len <= 0xFFFFFFFF
    requires sig[p + 1] == LenByte(len, 3) && sig[p + 2] == LenByte(len, 2)
    requires sig[p + 3] == LenByte(len, 1) && sig[p + 4] == LenByte(len, 0)
    ensures GetLen(sig, p, end) == Within(len, p + 5, end)
  {
    FourBytes(len);
  }

  lemma FourBytes(len: nat)
    requires len <= 0xFFFFFFFF
    ensures len == LenByte(len, 3) * 0x1000000 + LenByte(len, 2) * 0x10000 + LenByte(len, 1) * 0x100 + LenByte(len, 0)
  {
    var x, y := len / 0x100, len / 0x10000;
    assert y == x / 0x100 && len / 0x1000000 == y / 0x100;
  }

  /** A tagged value anywhere in a string is located. */
  lemma TlvReads(sig: seq<nat>, before: seq<nat>, tag: nat, content: seq<nat>, after: seq<nat>)
    requires sig == before + Tlv(tag, content) + after && |content| <= 0xFFFFFFFF
    ensures var i := |before| + |Tlv(tag, content)|;
            var j := i - |content|;
            && |before| < j && i <= |sig| && GetTag(sig, |before|, |sig|, tag) == At(|content|, j)
            && sig[j..i] == content && sig[i..] == after
  {
    hide LenOctets, GetLen;
    var p := |before| + 1;
    var os := LenOctets(|content|);
    assert sig == (before + [tag]) + os + content + after;
    assert sig[p..p + |os|] == os;
    LenReads(sig, p, |sig|, |content|);
  }

  // ----- which strings are read, and as what -----

  /** Where the two contents of a string are found: the first from a to m, the second from b on. */
  lemma PartsFound(c: seq<nat>, d: seq<nat>, sig: seq<nat>) returns (q: nat, a: nat, m: nat, b: nat)
    requires |Tlv(INTEGER, c) + Tlv(INTEGER, d)| <= 0xFFFFFFFF
    requires sig == Tlv(SEQUENCE, Tlv(INTEGER, c) + Tlv(INTEGER, d))
    ensures q <= a <= m <= b <= |sig|
    ensures GetTag(sig, 0, |sig|, SEQUENCE) == At(|sig| - q, q)
    ensures GetTag(sig, q, |sig|, INTEGER) == At(m - a, a) && GetTag(sig, m, |sig|, INTEGER) == At(|sig| - b, b)
    ensures sig[a..m] == c && sig[b..] == d && sig[q..m] == Tlv(INTEGER, c) && sig[m..] == Tlv(INTEGER, d)
  {
    hide GetTag, LenOctets;
    var both := Tlv(INTEGER, c) + Tlv(INTEGER, d);
    var head, none: seq<nat> := [SEQUENCE] + LenOctets(|both|), [];
    assert [] + sig + none == sig && |head| == |sig| - |both|;
    TlvReads(sig, [], SEQUENCE, both, none);
    q := |head|;
    a, m, b := TwoFound(c, d, head, sig);
  }

  lemma TwoFound(c: seq<nat>, d: seq<nat>, head: seq<nat>, sig: seq<nat>) returns (a: nat, m: nat, b: nat)
    requires |Tlv(INTEGER, c) + Tlv(INTEGER, d)| <= 0xFFFFFFFF && sig == head + (Tlv(INTEGER, c) + Tlv(INTEGER, d))
    ensures |head| <= a <= m <= b <= |sig|
    ensures GetTag(sig, |head|, |sig|, INTEGER) == At(m - a, a) && GetTag(sig, m, |sig|, INTEGER) == At(|sig| - b, b)
    ensures sig[a..m] == c && sig[b..] == d && sig[|head|..m] == Tlv(INTEGER, c) && sig[m..] == Tlv(INTEGER, d)
  {
    hide GetTag, Tlv;
    var x, y := Tlv(INTEGER, c), Tlv(INTEGER, d);
    Regrouped(sig, head, x, y);
    ContentShorter(c);
    ContentShorter(d);
    m := |head + x|;
    a, b := m - |c|, |sig| - |d|;
    TlvReads(sig, head, INTEGER, c, y);
    TlvReads(sig, head + x, INTEGER, d, []);
  }

  lemma ContentShorter(c: seq<nat>)
    ensures |c| <= |Tlv(INTEGER, c)|
  {
  }

  lemma Regrouped(t: seq<nat>, h: seq<nat>, x: seq<nat>, y: seq<nat>)
    requires t == h + (x + y)
    ensures t == h + x + y && t == (h + x) + y + []
    ensures t[|h|..|h + x|] == x && t[|h + x|..] == y
  {
  }

  /**
   * Any two contents that fit a number's limbs are read as unsigned numbers, whatever their form
   * and their top bits.
   */
  lemma ContentsRead(c: seq<nat>, d: seq<nat>, ciL: nat)
    requires |Tlv(INTEGER, c) + Tlv(INTEGER, d)| <= 0xFFFFFFFF && ciL > 0
    ensures ReadSignature(Tlv(SEQUENCE, Tlv(INTEGER, c) + Tlv(INTEGER, d)), ciL) ==
              if Storable(|c|, ciL) && Storable(|d|, ciL) then Numbers(BigEndian(c), BigEndian(d), false)
              else Refused(ERR_ALLOC_FAILED + ERR_ECP_BAD_INPUT_DATA)
  {
    hide GetTag, Tlv, BigEndian, Storable, ReadSignature;
    var sig := Tlv(SEQUENCE, Tlv(INTEGER, c) + Tlv(INTEGER, d));
    var q, a, m, b := PartsFound(c, d, sig);
    ReadBoth(sig, q, a, m, b, |sig|, ciL);
    assert |c| == m - a && |d| == |sig| - b && sig[b..|sig|] == sig[b..];
  }

  /** Two numbers have been found, from a to m and from b to n. */
  lemma ReadBoth(sig: seq<nat>, q: nat, a: nat, m: nat, b: nat, n: nat, ciL: nat)
    requires ciL > 0 && q <= |sig| && a <= m <= |sig| && b <= n <= |sig|
    requires GetTag(sig, 0, |sig|, SEQUENCE) == At(|sig| - q, q)
    requires GetTag(sig, q, |sig|, INTEGER) == At(m - a, a) && GetTag(sig, m, |sig|, INTEGER) == At(n - b, b)
    ensures ReadSignature(sig, ciL) ==
              if Storable(m - a, ciL) && Storable(n - b, ciL)
              then Numbers(BigEndian(sig[a..m]), BigEndian(sig[b..n]), n != |sig|)
              else Refused(ERR_ALLOC_FAILED + ERR_ECP_BAD_INPUT_DATA)
  {
    hide GetTag, BigEndian, Storable;
  }

  /** Every signature that is written is read back as the same two numbers, to the last byte. */
  lemma SignatureRoundTrip(r: nat, s: nat, ciL: nat)
    requires |Integer(r) + Integer(s)| <= 0xFFFFFFFF && ciL > 0
    requires Storable(|Content(r)|, ciL) && Storable(|Content(s)|, ciL)
    ensures ReadSignature(Signature(r, s), ciL) == Numbers(r, s, false)
  {
    hide Storable;
    ContentsRead(Content(r), Content(s), ciL);
    ContentIsMinimal(r);
    ContentIsMinimal(s);
  }

  /** Under the guard the numbers always fit, whatever the limb. */
  lemma CurveRoundTrip(bits: nat, r: nat, s: nat, ciL: nat)
    requires MaxBytes(bits) <= 124 && r < Pow(2, bits) && s < Pow(2, bits) && ciL > 0
    ensures ReadSignature(Signature(r, s), ciL) == Numbers(r, s, false)
  {
    hide Pow, Len, Content, LenOctets;
    ContentSize(r);
    ContentSize(s);
    LenAtMost(2, r, bits);
    LenAtMost(2, s, bits);
    FewLimbs(|Content(r)|, ciL);
    FewLimbs(|Content(s)|, ciL);
    LenOctetsSize(|Content(r)|);
    LenOctetsSize(|Content(s)|);
    SignatureRoundTrip(r, s, ciL);
  }

  lemma FewLimbs(len: nat, ciL: nat)
    requires len < 1000 && ciL > 0
    ensures Storable(len, ciL)
  {
    var q := len / ciL;
    assert len == q * ciL + len % ciL;
    MulMonotone(1, ciL, q);
  }

  /** Rounding up to whole limbs: what is storable is what the limbs hold. */
  lemma StorableBytes(len: nat, ciL: nat)
    requires ciL > 0
    ensures Storable(len, ciL) <==> len <= Mpi.MAX_LIMBS * ciL
  {
    var q, x := len / ciL, len % ciL;
    assert len == q * ciL + x;
    var M := Mpi.MAX_LIMBS;
    if q + (if x != 0 then 1 else 0) <= M {
      MulMonotone(q + (if x != 0 then 1 else 0), M, ciL);
    } else {
      MulMonotone(M, q, ciL);
      if x == 0 {
        MulMonotone(M + 1, q, ciL);
      }
    }
  }

  lemma OneLimb(len: nat, ciL: nat)
    requires len < ciL
    ensures Storable(len, ciL)
  {
    DivModUnique(len, ciL, 0, len);
  }

  /** So no two signatures share an encoding. */
  lemma SignaturesDiffer(r: nat, s: nat, r': nat, s': nat)
    requires |Integer(r) + Integer(s)| <= 0xFFFFFFFF && |Integer(r') + Integer(s')| <= 0xFFFFFFFF
    ensures Signature(r, s) == Signature(r', s') <==> r == r' && s == s'
  {
    if Signature(r, s) == Signature(r', s') {
      var ciL := 0x1_0000_0000;
      hide Storable, LenOctets, Content, Signature;
      OneLimb(|Content(r)|, ciL);
      OneLimb(|Content(s)|, ciL);
      OneLimb(|Content(r')|, ciL);
      OneLimb(|Content(s')|, ciL);
      SignatureRoundTrip(r, s, ciL);
      SignatureRoundTrip(r', s', ciL);
    }
  }

  /** The sign bit is not looked at: where it is set, a negative number is read as a positive one. */
  lemma SignBitIgnored(c: seq<nat>)
    requires Octets(c) && c != []
    ensures c[0] >= 0x80 ==> TwosComplement(c) < 0 < BigEndian(c)
    ensures BigEndian(c) == TwosComplement(c) <==> c[0] < 0x80
  {
    hide Pow;
    BelowRange(c);
    if c[0] >= 0x80 {
      BytesOfValue(c);
      NoBytes();
    }
  }

  lemma {:induction false} BelowRange(c: seq<nat>)
    requires Octets(c)
    ensures BigEndian(c) < Pow(256, |c|)
  {
    hide Pow;
    PowZero(256);
    if c != [] {
      BelowRange(c[..|c| - 1]);
      PowNext(256, |c| - 1);
    }
  }

  /** The length field at p is the shortest: one byte, or bytes that need to be there. */
  predicate ShortestLen(sig: seq<nat>, p: nat) {
    p < |sig| && (sig[p] < 0x80 || (p + 1 < |sig| && sig[p + 1] > 0 && (sig[p] == 0x81 ==> sig[p + 1] >= 0x80)))
  }

  lemma NextByte(sig: seq<nat>, i: nat, j: nat)
    requires i <= j < |sig|
    ensures BigEndian(sig[i..j + 1]) == BigEndian(sig[i..j]) * 256 + sig[j]
  {
    assert sig[i..j + 1][..j - i] == sig[i..j];
  }

  /** How many bytes follow the first one of a length field. */
  function Counted(first: nat): nat {
    if first < 0x80 then 0 else first - 0x80
  }

  /**
   * What any length field says: itself, or the number that one to four bytes make, shortest or not;
   * and when there is none to be had.
   */
  lemma FieldRead(sig: seq<nat>, p: nat, end: nat)
    requires Octets(sig) && p < end <= |sig|
    ensures var k := Counted(sig[p]);
            var q := p + 1 + k;
            var len := if sig[p] < 0x80 then sig[p] else if q <= end then BigEndian(sig[p + 1..q]) else 0;
            GetLen(sig, p, end) ==
              if sig[p] == 0x80 || k > 4 then Bad(ERR_ASN1_INVALID_LENGTH)
              else if q > end || q + len > end then Bad(ERR_ASN1_OUT_OF_DATA)
              else At(len, q)
  {
    hide BigEndian;
    if sig[p] >= 0x80 {
      var k, i := sig[p] - 0x80, p + 1;
      assert sig[p] < 0x100 && k == sig[p] % 0x80;
      if 1 <= k <= 4 && i + k <= end {
        FieldBytes(sig, i, k);
      }
    }
  }

  /** One to four bytes as a number. */
  lemma FieldBytes(sig: seq<nat>, i: nat, k: nat)
    requires 1 <= k <= 4 && i + k <= |sig|
    ensures var n := BigEndian(sig[i..i + k]);
            && (k == 1 ==> n == sig[i])
            && (k == 2 ==> n == sig[i] * 0x100 + sig[i + 1])
            && (k == 3 ==> n == sig[i] * 0x10000 + sig[i + 1] * 0x100 + sig[i + 2])
            && (k == 4 ==> n == sig[i] * 0x1000000 + sig[i + 1] * 0x10000 + sig[i + 2] * 0x100 + sig[i + 3])
  {
    hide BigEndian;
    assert sig[i..i] == [];
    NoBigEndian();
    NextByte(sig, i, i);
    if k > 1 { NextByte(sig, i, i + 1); }
    if k > 2 { NextByte(sig, i, i + 2); }
    if k > 3 { NextByte(sig, i, i + 3); }
  }

  /** What a length field that is read says. */
  lemma FieldValue(sig: seq<nat>, p: nat, l: Located)
    requires Octets(sig) && p <= |sig| && l.At? && l == GetLen(sig, p, |sig|)
    ensures p < |sig| && p < l.p <= |sig|
    ensures sig[p] < 0x80 ==> l.p == p + 1 && l.len == sig[p]
    ensures sig[p] >= 0x80 ==> l.p == p + 1 + (sig[p] - 0x80) && 1 < l.p - p <= 5 && l.len == BigEndian(sig[p + 1..l.p])
  {
    assert p < |sig|;
    FieldRead(sig, p, |sig|);
    hide GetLen, BigEndian;
  }
  lemma NoBigEndian()
    ensures BigEndian([]) == 0
  {
  }

  lemma FieldRange(f: seq<nat>)
    requires Octets(f) && |f| <= 4
    ensures BigEndian(f) <= 0xFFFFFFFF
  {
    hide Pow, BigEndian;
    BelowRange(f);
    PowMonotone(256, |f|, 4);
    FourBytesRange();
  }

  lemma OneByte(n: nat)
    requires n < 0x80
    ensures |Bytes(n)| <= 1
  {
    NoBytes();
    if n > 0 {
      BytesOfWord(n);
    }
  }

  lemma OneByteValue(f: seq<nat>)
    requires |f| == 1
    ensures BigEndian(f) == f[0]
  {
    assert f[..0] == [] && f == [] + [f[0]];
    NoBigEndian();
  }

  /** A counted field is the one written exactly when no byte of it could be spared. */
  lemma CountedField(f: seq<nat>)
    requires Octets(f) && 0 < |f| <= 4
    ensures var n := BigEndian(f);
            && n <= 0xFFFFFFFF
            && (LenOctets(n) == [0x80 + |f|] + f <==> f[0] > 0 && (|f| == 1 ==> f[0] >= 0x80))
  {
    hide Bytes, BigEndian, LenOctets, Octets;
    var n := BigEndian(f);
    FieldRange(f);
    CountedLen(n);
    BytesValue(n);
    if |f| == 1 {
      OneByteValue(f);
    }
    if f[0] > 0 {
      BytesOfValue(f);
    }
    if n < 0x80 {
      OneByte(n);
    }
    CountedForms(n, f, Bytes(n), LenOctets(n));
  }

  lemma CountedForms(n: nat, f: seq<nat>, bs: seq<nat>, os: seq<nat>)
    requires f != [] && (|f| == 1 ==> n == f[0]) && (f[0] > 0 ==> bs == f) && (bs != [] ==> bs[0] > 0)
    requires n < 0x80 ==> |bs| <= 1 && |os| == 1
    requires n >= 0x80 ==> os == [0x80 + |bs|] + bs
    ensures os == [0x80 + |f|] + f <==> f[0] > 0 && (|f| == 1 ==> f[0] >= 0x80)
  {
    if n >= 0x80 && os == [0x80 + |f|] + f {
      assert os[1..] == bs && os[1..] == f;
    }
  }

  lemma CountedLen(n: nat)
    ensures n < 0x80 ==> |LenOctets(n)| == 1
    ensures n >= 0x80 ==> LenOctets(n) == [0x80 + |Bytes(n)|] + Bytes(n)
  {
  }

  lemma FourBytesRange()
    ensures Pow(256, 4) == 0x1_0000_0000
  {
  }

  /** So of any field that is read. */
  lemma LenIsWritten(sig: seq<nat>, p: nat, l: Located)
    requires Octets(sig) && p <= |sig| && l.At? && l == GetLen(sig, p, |sig|)
    ensures p < l.p <= |sig| && l.len <= 0xFFFFFFFF
    ensures ShortestLen(sig, p) <==> sig[p..l.p] == LenOctets(l.len)
  {
    hide GetLen, BigEndian, LenOctets;
    FieldValue(sig, p, l);
    if sig[p] < 0x80 {
      SmallLen(l.len);
      assert sig[p..l.p] == [sig[p]];
    } else {
      var f := sig[p + 1..l.p];
      CountedField(f);
      assert sig[p..l.p] == [sig[p]] + f && f[0] == sig[p + 1];
    }
  }

  lemma SmallLen(n: nat)
    requires n < 0x80
    ensures LenOctets(n) == [n]
  {
  }

  /** And of any tagged value. */
  lemma TlvIsWritten(sig: seq<nat>, p: nat, tag: nat, l: Located)
    requires Octets(sig) && p <= |sig| && l.At? && l == GetTag(sig, p, |sig|, tag)
    ensures p < l.p && l.p + l.len <= |sig| && l.len <= 0xFFFFFFFF
    ensures ShortestLen(sig, p + 1) <==> sig[p..l.p + l.len] == Tlv(tag, sig[l.p..l.p + l.len])
  {
    hide GetLen, LenOctets, ShortestLen;
    LenIsWritten(sig, p + 1, l);
    var c, os := sig[l.p..l.p + l.len], LenOctets(l.len);
    var t := sig[p..l.p + l.len];
    assert t == [tag] + sig[p + 1..l.p] + c;
    if t == Tlv(tag, c) {
      assert |os| == |t| - 1 - |c|;
      assert sig[p + 1..l.p] == t[1..1 + |os|] == os;
    }
  }

  /** Every length is the shortest and every content minimal. */
  ghost predicate Canonical(sig: seq<nat>) {
    match GetTag(sig, 0, |sig|, SEQUENCE)
    case Bad(_) => false
    case At(_, p) =>
      match GetTag(sig, p, |sig|, INTEGER)
      case Bad(_) => false
      case At(rlen, rp) =>
        match GetTag(sig, rp + rlen, |sig|, INTEGER)
        case Bad(_) => false
        case At(slen, sp) =>
          && ShortestLen(sig, 1) && ShortestLen(sig, p + 1) && ShortestLen(sig, rp + rlen + 1)
          && Minimal(sig[rp..rp + rlen]) && Minimal(sig[sp..sp + slen])
  }

  /** What was found in a string that was read to its end. */
  lemma PartsOf(sig: seq<nat>, ciL: nat) returns (q: nat, a: nat, m: nat, b: nat)
    requires ciL > 0 && ReadSignature(sig, ciL).Numbers? && !ReadSignature(sig, ciL).leftOver
    ensures q <= |sig| && m <= |sig| && a <= m && b <= |sig|
    ensures GetTag(sig, 0, |sig|, SEQUENCE) == At(|sig| - q, q)
    ensures GetTag(sig, q, |sig|, INTEGER) == At(m - a, a) && GetTag(sig, m, |sig|, INTEGER) == At(|sig| - b, b)
    ensures ReadSignature(sig, ciL) == Numbers(BigEndian(sig[a..m]), BigEndian(sig[b..]), false)
    ensures Canonical(sig) <==>
              && ShortestLen(sig, 1) && ShortestLen(sig, q + 1) && ShortestLen(sig, m + 1)
              && Minimal(sig[a..m]) && Minimal(sig[b..])
  {
    hide GetTag, BigEndian, ShortestLen, Minimal, Storable;
    q := GetTag(sig, 0, |sig|, SEQUENCE).p;
    a := GetTag(sig, q, |sig|, INTEGER).p;
    m := a + GetTag(sig, q, |sig|, INTEGER).len;
    b := GetTag(sig, m, |sig|, INTEGER).p;
    assert sig[b..|sig|] == sig[b..];
  }

  /**
   * Of all the strings that are read to their end, those that the writer produces are exactly the
   * ones in shortest form, and they are the signature of the numbers they are read as.
   */
  lemma CanonicalIsWritten(sig: seq<nat>, ciL: nat)
    requires Octets(sig) && ciL > 0 && ReadSignature(sig, ciL).Numbers? && !ReadSignature(sig, ciL).leftOver
    ensures var v := ReadSignature(sig, ciL);
            Canonical(sig) <==> sig == Signature(v.r, v.s)
  {
    hide GetTag, BigEndian, LenOctets, ShortestLen, Minimal, Content, Tlv, ReadSignature, Canonical;
    var q, a, m, b := PartsOf(sig, ciL);
    TlvIsWritten(sig, 0, SEQUENCE, At(|sig| - q, q));
    TlvIsWritten(sig, q, INTEGER, At(m - a, a));
    TlvIsWritten(sig, m, INTEGER, At(|sig| - b, b));
    var c, d := sig[a..m], sig[b..];
    MinimalIsContent(c);
    MinimalIsContent(d);
    SplitAt(sig, q, m);
    assert sig[0..|sig|] == sig && sig[b..|sig|] == d && sig[m..|sig|] == sig[m..] && sig[q..|sig|] == sig[q..];
    if sig == Signature(BigEndian(c), BigEndian(d)) {
      ReadableLength(sig, BigEndian(c), BigEndian(d), At(|sig| - q, q));
      var q', a', m', b' := PartsFound(Content(BigEndian(c)), Content(BigEndian(d)), sig);
    }
  }

  lemma SplitAt(t: seq<nat>, i: nat, j: nat)
    requires i <= j <= |t|
    ensures t[i..|t|] == t[i..j] + t[j..|t|]
  {
  }

  /** A length of more than four bytes is not read. */
  lemma ReadableLength(sig: seq<nat>, r: nat, s: nat, q: Located)
    requires Octets(sig) && sig == Signature(r, s) && q.At? && q == GetTag(sig, 0, |sig|, SEQUENCE)
    ensures |Integer(r) + Integer(s)| <= 0xFFFFFFFF
  {
    hide Integer, BigEndian, Bytes, Pow;
    var n := |Integer(r) + Integer(s)|;
    FieldValue(sig, 1, q);
    assert sig[1] == LenOctets(n)[0];
    if n >= 0x80 {
      BytesValue(n);
      BelowRange(Bytes(n));
      PowMonotone(256, |Bytes(n)|, 4);
      FourBytesRange();
    }
  }

  /** The reader takes more than the writer gives: here a zero byte that the shortest form omits. */
  lemma ReaderIsLenient(r: nat, s: nat, ciL: nat)
    requires ciL > 0
    ensures ReadSignature([0x30, 7, 2, 2, 0, 1, 2, 1, 1], ciL) == Numbers(1, 1, false)
    ensures [0x30, 7, 2, 2, 0, 1, 2, 1, 1] != Signature(r, s)
  {
    var x: seq<nat> := [0x30, 7, 2, 2, 0, 1, 2, 1, 1];
    ZeroOneRead(x, ciL);
    if x == Signature(r, s) {
      CanonicalIsWritten(x, ciL);
      ReadableLength(x, r, s, GetTag(x, 0, |x|, SEQUENCE));
      ShortContents(r, s);
      FewLimbs(|Content(r)|, ciL);
      FewLimbs(|Content(s)|, ciL);
      SignatureRoundTrip(r, s, ciL);
    }
  }

  lemma ShortContents(r: nat, s: nat)
    ensures |Content(r)| <= |Signature(r, s)| && |Content(s)| <= |Signature(r, s)|
  {
  }

  lemma ZeroOneRead(x: seq<nat>, ciL: nat)
    requires x == [0x30, 7, 2, 2, 0, 1, 2, 1, 1] && ciL > 0
    ensures ReadSignature(x, ciL) == Numbers(1, 1, false) && !Canonical(x) && Octets(x)
    ensures GetTag(x, 0, |x|, SEQUENCE).At?
  {
    var c, d: seq<nat> := x[4..6], x[8..9];
    assert c == [0, 1] && d == [1];
    OneByteValue([1]);
    LeadingZero([1]);
    assert [0] + [1] == c;
    FewLimbs(2, ciL);
    FewLimbs(1, ciL);
    hide BigEndian, Storable;
  }
}
