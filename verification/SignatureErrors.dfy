/**
 * The strings that mbedtls_ecdsa_read_signature does not accept to the end, and what it answers:
 * cut short, followed by more, with a wrong tag or length, or with less or more than two numbers.
 */
module SignatureErrors {
  import opened Errors
  import opened Der
  import opened Ecdsa

  // ----- one tagged value -----

  lemma LenCut(sig: seq<nat>, p: nat, end: nat)
    requires p < end <= |sig| && 0x80 < sig[p] <= 0x84 && end - p < 1 + (sig[p] - 0x80)
    ensures GetLen(sig, p, end) == Bad(ERR_ASN1_OUT_OF_DATA)
  {
    assert sig[p] % 0x80 == sig[p] - 0x80;
  }

  /** No length at all, or a count of bytes that is none of one to four. */
  lemma LenInvalid(sig: seq<nat>, p: nat, end: nat)
    requires p <= end <= |sig|
    ensures p == end ==> GetLen(sig, p, end) == Bad(ERR_ASN1_OUT_OF_DATA)
    ensures p < end && (sig[p] == 0x80 || 0x84 < sig[p] < 0x100) ==>
              GetLen(sig, p, end) == Bad(ERR_ASN1_INVALID_LENGTH)
  {
    if p < end && (sig[p] == 0x80 || 0x84 < sig[p] < 0x100) {
      assert sig[p] % 0x80 == sig[p] - 0x80;
    }
  }

  /** Nothing is left, or something that does not begin with the tag. */
  lemma WrongTag(sig: seq<nat>, p: nat, tag: nat)
    requires p <= |sig|
    ensures p == |sig| ==> GetTag(sig, p, |sig|, tag) == Bad(ERR_ASN1_OUT_OF_DATA)
    ensures p < |sig| && sig[p] != tag ==> GetTag(sig, p, |sig|, tag) == Bad(ERR_ASN1_UNEXPECTED_TAG)
    ensures p + 1 < |sig| && sig[p] == tag && (sig[p + 1] == 0x80 || 0x84 < sig[p + 1] < 0x100) ==>
              GetTag(sig, p, |sig|, tag) == Bad(ERR_ASN1_INVALID_LENGTH)
  {
    if p < |sig| {
      LenInvalid(sig, p + 1, |sig|);
    }
  }

  /** A tagged value that ends too soon, wherever that is. */
  lemma TlvCut(sig: seq<nat>, before: seq<nat>, tag: nat, c: seq<nat>, k: nat)
    requires k < |Tlv(tag, c)| && |c| <= 0xFFFFFFFF && sig == before + Tlv(tag, c)[..k]
    ensures GetTag(sig, |before|, |sig|, tag) == Bad(ERR_ASN1_OUT_OF_DATA)
  {
    var os := LenOctets(|c|);
    hide LenOctets, GetLen;
    if k == 0 {
      assert sig == before;
    } else if k == 1 {
      assert sig[|before|] == tag;
      LenInvalid(sig, |before| + 1, |sig|);
    } else {
      CutParts(sig, before, tag, os, c, k);
      CutLength(sig, |before| + 1, |c|);
    }
  }

  /** A length field that ends too soon, or is followed by less than it says. */
  lemma CutLength(sig: seq<nat>, p: nat, n: nat)
    requires n <= 0xFFFFFFFF && p < |sig| < p + |LenOctets(n)| + n && sig[p] == LenOctets(n)[0]
    requires p + |LenOctets(n)| <= |sig| ==> sig[p..p + |LenOctets(n)|] == LenOctets(n)
    ensures GetLen(sig, p, |sig|) == Bad(ERR_ASN1_OUT_OF_DATA)
  {
    hide LenOctets, GetLen;
    LenFirst(n);
    if p + |LenOctets(n)| <= |sig| {
      LenReads(sig, p, |sig|, n);
    } else {
      LenCut(sig, p, |sig|);
    }
  }

  lemma CutParts(sig: seq<nat>, before: seq<nat>, tag: nat, os: seq<nat>, c: seq<nat>, k: nat)
    requires os != [] && 1 < k < 1 + |os| + |c| && sig == before + ([tag] + os + c)[..k]
    ensures var p := |before|;
            && |sig| == p + k && sig[p] == tag && sig[p + 1] == os[0]
            && (k >= 1 + |os| ==> sig[p + 1..p + 1 + |os|] == os)
  {
    var p, w := |before|, [tag] + os + c;
    assert w[0] == tag && w[1] == os[0];
    if k >= 1 + |os| {
      assert w[..k] == [tag] + os + c[..k - 1 - |os|];
    }
  }

  /** The first byte of a length tells how many follow. */
  lemma LenFirst(n: nat)
    requires n <= 0xFFFFFFFF
    ensures |LenOctets(n)| > 1 ==> |LenOctets(n)| <= 5 && LenOctets(n)[0] == 0x80 + (|LenOctets(n)| - 1)
  {
    LenOctetsAre(n);
  }

  // ----- the outer sequence -----

  /** A string that does not begin with a sequence. */
  lemma NoSequence(sig: seq<nat>, ciL: nat)
    requires ciL > 0
    ensures sig == [] ==> ReadSignature(sig, ciL) == Refused(ERR_ASN1_OUT_OF_DATA + ERR_ECP_BAD_INPUT_DATA)
    ensures sig != [] && sig[0] != SEQUENCE ==>
              ReadSignature(sig, ciL) == Refused(ERR_ASN1_UNEXPECTED_TAG + ERR_ECP_BAD_INPUT_DATA)
    ensures |sig| > 1 && sig[0] == SEQUENCE && (sig[1] == 0x80 || 0x84 < sig[1] < 0x100) ==>
              ReadSignature(sig, ciL) == Refused(ERR_ASN1_INVALID_LENGTH + ERR_ECP_BAD_INPUT_DATA)
  {
    hide GetTag;
    WrongTag(sig, 0, SEQUENCE);
  }

  /** Every proper prefix of a sequence lacks data. */
  lemma CutShort(c: seq<nat>, k: nat, ciL: nat)
    requires |c| <= 0xFFFFFFFF && k < |Tlv(SEQUENCE, c)| && ciL > 0
    ensures ReadSignature(Tlv(SEQUENCE, c)[..k], ciL) == Refused(ERR_ASN1_OUT_OF_DATA + ERR_ECP_BAD_INPUT_DATA)
  {
    hide GetTag, Tlv;
    var sig := Tlv(SEQUENCE, c)[..k];
    assert [] + sig == sig;
    TlvCut(sig, [], SEQUENCE, c, k);
  }

  /** A sequence with anything after it is refused before its numbers are looked at. */
  lemma MoreFollows(c: seq<nat>, t: seq<nat>, ciL: nat)
    requires |c| <= 0xFFFFFFFF && t != [] && ciL > 0
    ensures ReadSignature(Tlv(SEQUENCE, c) + t, ciL) == Refused(ERR_ECP_BAD_INPUT_DATA + ERR_ASN1_LENGTH_MISMATCH)
  {
    hide GetTag, Tlv;
    var sig := Tlv(SEQUENCE, c) + t;
    assert sig == [] + Tlv(SEQUENCE, c) + t;
    TlvReads(sig, [], SEQUENCE, c, t);
  }

  // ----- what is in it -----

  /** A whole sequence is located, with its content last. */
  lemma Entered(c: seq<nat>) returns (head: seq<nat>)
    requires |c| <= 0xFFFFFFFF
    ensures var sig := Tlv(SEQUENCE, c);
            sig == head + c && GetTag(sig, 0, |sig|, SEQUENCE) == At(|c|, |head|)
  {
    hide GetTag, LenOctets;
    var sig := Tlv(SEQUENCE, c);
    head := [SEQUENCE] + LenOctets(|c|);
    assert sig == [] + sig + [];
    TlvReads(sig, [], SEQUENCE, c, []);
  }

  /** What stands in place of a number: the code when it is not one. */
  ghost predicate NoNumber(t: seq<nat>, code: int) {
    || (t == [] && code == ERR_ASN1_OUT_OF_DATA)
    || (t != [] && t[0] != INTEGER && code == ERR_ASN1_UNEXPECTED_TAG)
    || (|t| > 1 && t[0] == INTEGER && (t[1] == 0x80 || 0x84 < t[1] < 0x100) && code == ERR_ASN1_INVALID_LENGTH)
    || (code == ERR_ASN1_OUT_OF_DATA && CutInteger(t))
  }

  ghost predicate CutInteger(t: seq<nat>) {
    exists c: seq<nat> :: |c| <= 0xFFFFFFFF && |t| < |Tlv(INTEGER, c)| && t == Tlv(INTEGER, c)[..|t|]
  }

  lemma NotFound(sig: seq<nat>, before: seq<nat>, t: seq<nat>, code: int)
    requires sig == before + t && NoNumber(t, code)
    ensures GetTag(sig, |before|, |sig|, INTEGER) == Bad(code)
  {
    hide GetTag, Tlv;
    var p := |before|;
    WrongTag(sig, p, INTEGER);
    if t == [] {
      assert |sig| == p;
    } else if code == ERR_ASN1_OUT_OF_DATA {
      var c: seq<nat> :| |c| <= 0xFFFFFFFF && |t| < |Tlv(INTEGER, c)| && t == Tlv(INTEGER, c)[..|t|];
      TlvCut(sig, before, INTEGER, c, |t|);
    } else {
      assert sig[p] == t[0] && (|t| > 1 ==> sig[p + 1] == t[1]);
    }
  }

  /** The sequence does not begin with a number. */
  lemma NoFirst(t: seq<nat>, code: int, ciL: nat)
    requires |t| <= 0xFFFFFFFF && NoNumber(t, code) && ciL > 0
    ensures ReadSignature(Tlv(SEQUENCE, t), ciL) == Refused(code + ERR_ECP_BAD_INPUT_DATA)
  {
    hide GetTag, Tlv, NoNumber;
    var head := Entered(t);
    NotFound(Tlv(SEQUENCE, t), head, t, code);
  }

  /** It holds one number, or one that is too long, and then no second. */
  lemma NoSecond(c: seq<nat>, t: seq<nat>, code: int, ciL: nat)
    requires |Tlv(INTEGER, c) + t| <= 0xFFFFFFFF && NoNumber(t, code) && ciL > 0
    ensures ReadSignature(Tlv(SEQUENCE, Tlv(INTEGER, c) + t), ciL) ==
              Refused((if Storable(|c|, ciL) then code else ERR_ALLOC_FAILED) + ERR_ECP_BAD_INPUT_DATA)
  {
    hide GetTag, Tlv, NoNumber, Storable;
    var x := Tlv(INTEGER, c);
    var sig := Tlv(SEQUENCE, x + t);
    var head := Entered(x + t);
    ContentShorter(c);
    assert sig == head + x + t == (head + x) + t;
    TlvReads(sig, head, INTEGER, c, t);
    NotFound(sig, head + x, t, code);
  }

  /** It holds two numbers and perhaps more: the rest is only noted. */
  lemma TwoAndMore(c: seq<nat>, d: seq<nat>, t: seq<nat>, ciL: nat)
    requires |Tlv(INTEGER, c) + Tlv(INTEGER, d) + t| <= 0xFFFFFFFF && ciL > 0
    ensures ReadSignature(Tlv(SEQUENCE, Tlv(INTEGER, c) + Tlv(INTEGER, d) + t), ciL) ==
              if Storable(|c|, ciL) && Storable(|d|, ciL) then Numbers(BigEndian(c), BigEndian(d), t != [])
              else Refused(ERR_ALLOC_FAILED + ERR_ECP_BAD_INPUT_DATA)
  {
    hide GetTag, Tlv, Storable, BigEndian, ReadSignature;
    var x, y := Tlv(INTEGER, c), Tlv(INTEGER, d);
    var sig := Tlv(SEQUENCE, x + y + t);
    var head := Entered(x + y + t);
    ContentShorter(c);
    ContentShorter(d);
    ThreeParts(head, x, y, t);
    TlvReads(sig, head, INTEGER, c, y + t);
    TlvReads(sig, head + x, INTEGER, d, t);
    ReadBoth(sig, |head|, |head + x| - |c|, |head + x|, |head + x + y| - |d|, |head + x + y|, ciL);
    assert |t| == |sig| - |head + x + y|;
  }

  lemma ThreeParts(h: seq<nat>, x: seq<nat>, y: seq<nat>, t: seq<nat>)
    ensures h + (x + y + t) == h + x + (y + t) == (h + x) + y + t
    ensures |h + x + y| == |h| + |x| + |y|
  {
  }

  // ----- signatures -----

  /** So a signature is refused with a byte after it, and with its last bytes missing. */
  lemma SignatureOnly(r: nat, s: nat, t: seq<nat>, k: nat, ciL: nat)
    requires |Integer(r) + Integer(s)| <= 0xFFFFFFFF && ciL > 0 && k < |Signature(r, s)|
    ensures t != [] ==> ReadSignature(Signature(r, s) + t, ciL) ==
                          Refused(ERR_ECP_BAD_INPUT_DATA + ERR_ASN1_LENGTH_MISMATCH)
    ensures ReadSignature(Signature(r, s)[..k], ciL) == Refused(ERR_ASN1_OUT_OF_DATA + ERR_ECP_BAD_INPUT_DATA)
  {
    hide Integer, ReadSignature;
    var c := Integer(r) + Integer(s);
    CutShort(c, k, ciL);
    if t != [] {
      MoreFollows(c, t, ciL);
    }
  }

  /** And with something after its two numbers, inside, it is read all the same, and that is noted. */
  lemma SignatureAndMore(r: nat, s: nat, t: seq<nat>, ciL: nat)
    requires |Integer(r) + Integer(s) + t| <= 0xFFFFFFFF && ciL > 0
    requires Storable(|Content(r)|, ciL) && Storable(|Content(s)|, ciL)
    ensures ReadSignature(Tlv(SEQUENCE, Integer(r) + Integer(s) + t), ciL) == Numbers(r, s, t != [])
  {
    hide ReadSignature, Storable, Tlv;
    TwoAndMore(Content(r), Content(s), t, ciL);
    ContentIsMinimal(r);
    ContentIsMinimal(s);
  }
}
