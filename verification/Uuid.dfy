/**
 * Version 4 UUIDs (RFC 4122): masking two random words, printing them with zero-padded hexadecimal
 * fields, validating the text, and reading the words back.
 */
module Uuid {
  import opened Sequences
  import opened Hex

  // ----- Hexadecimal fields -----

  function Nibble(v: bv64): (n: bv8)
    ensures n <= 15
  {
    (v & 0xF) as bv8
  }

  /** `std::hex`: no leading zeros, "0" for zero. */
  function HexDigits(v: bv64): (s: string)
    ensures s != ""
    decreases v
  {
    if v <= 0xF then [HexChar(Nibble(v))]
    else
      ShiftShrinks(v);
      HexDigits(v >> 4) + [HexChar(Nibble(v))]
  }

  lemma ShiftShrinks(v: bv64)
    requires v > 0xF
    ensures v >> 4 < v && v >> 4 != 0
  {
  }

  function Zeros(n: nat): (s: string)
    ensures |s| == n
  {
    if n == 0 then "" else ['0'] + Zeros(n - 1)
  }

  /** Filled up with zeros on the left to at least `w` digits. */
  function Padded(w: nat, v: bv64): string {
    var digits := HexDigits(v);
    Zeros(if |digits| < w then w - |digits| else 0) + digits
  }

  /** The lowest `w` nibbles, highest first: what a field of width `w` should print. */
  function Field(w: nat, v: bv64): (s: string)
    ensures |s| == w
  {
    if w == 0 then "" else Field(w - 1, v >> 4) + [HexChar(Nibble(v))]
  }

  /** No bits above the lowest `w` nibbles. */
  predicate Fits(w: nat, v: bv64) {
    if w == 0 then v == 0 else Fits(w - 1, v >> 4)
  }

  lemma {:induction false} ZeroField(w: nat)
    ensures Fits(w, 0) && Field(w, 0) == Zeros(w)
  {
    if w > 0 {
      ZeroField(w - 1);
      assert 0 as bv64 >> 4 == 0;
      assert HexChar(0) == '0';
      ZerosSnoc(w - 1);
    }
  }

  lemma {:induction false} ZerosSnoc(n: nat)
    ensures Zeros(n + 1) == Zeros(n) + ['0']
  {
    if n > 0 {
      ZerosSnoc(n - 1);
    }
  }

  /** A value that fits its field is printed as exactly its nibbles. */
  lemma {:induction false} PaddedIsField(w: nat, v: bv64)
    requires w > 0 && Fits(w, v)
    ensures Padded(w, v) == Field(w, v)
  {
    if v <= 0xF {
      assert v >> 4 == 0;
      ZeroField(w - 1);
    } else {
      ShiftShrinks(v);
      PaddedIsField(w - 1, v >> 4);
    }
  }

  function ReadHex(s: string): bv64
    requires AllHex(s)
  {
    if s == "" then 0 else (ReadHex(Front(s)) << 4) | HexValue(Last(s)) as bv64
  }

  lemma {:induction false} FieldIsHex(w: nat, v: bv64)
    ensures AllHex(Field(w, v))
  {
    if w > 0 {
      FieldIsHex(w - 1, v >> 4);
      DigitReadsBack(Nibble(v));
    }
  }

  lemma NibbleRejoins(v: bv64)
    ensures ((v >> 4) << 4) | (Nibble(v) as bv64) == v
  {
  }

  /** Reading a field gives the value back. */
  lemma {:induction false} FieldReadsBack(w: nat, v: bv64)
    requires Fits(w, v)
    ensures AllHex(Field(w, v)) && ReadHex(Field(w, v)) == v
  {
    FieldIsHex(w, v);
    if w > 0 {
      FieldReadsBack(w - 1, v >> 4);
      DigitReadsBack(Nibble(v));
      NibbleRejoins(v);
      assert Front(Field(w, v)) == Field(w - 1, v >> 4);
    }
  }

  lemma FitsFour(v: bv64)
    requires v <= 0xFFFF
    ensures Fits(4, v)
  {
    assert (((v >> 4) >> 4) >> 4) >> 4 == 0;
    assert Fits(0, (((v >> 4) >> 4) >> 4) >> 4);
    assert Fits(1, ((v >> 4) >> 4) >> 4);
    assert Fits(2, (v >> 4) >> 4);
    assert Fits(3, v >> 4);
  }

  lemma FitsFourMore(w: nat, v: bv64)
    requires Fits(w, v >> 16)
    ensures Fits(w + 4, v)
  {
    assert (((v >> 4) >> 4) >> 4) >> 4 == v >> 16;
    assert Fits(w + 1, ((v >> 4) >> 4) >> 4);
    assert Fits(w + 2, (v >> 4) >> 4);
    assert Fits(w + 3, v >> 4);
  }

  // ----- The generator -----

  /** The random bits that survive in the first and in the second word. */
  function KeptVersionBits(ab: bv64): bv64 {
    ab & 0xFFFF_FFFF_FFFF_0FFF
  }

  function KeptVariantBits(cd: bv64): bv64 {
    cd & 0x3FFF_FFFF_FFFF_FFFF
  }

  function MaskVersion(ab: bv64): bv64 {
    KeptVersionBits(ab) | 0x0000_0000_0000_4000
  }

  function MaskVariant(cd: bv64): bv64 {
    KeptVariantBits(cd) | 0x8000_0000_0000_0000
  }

  /** The five fields of the masked words, with hyphens between them. */
  function Text(ab: bv64, cd: bv64): (s: string)
    ensures |s| == 36
  {
    Field(8, (ab >> 32) & 0xFFFF_FFFF) + "-" + Field(4, (ab >> 16) & 0xFFFF) + "-" + Field(4, ab & 0xFFFF) + "-"
    + Field(4, (cd >> 48) & 0xFFFF) + "-" + Field(12, cd & 0xFFFF_FFFF_FFFF)
  }

  lemma FitsWord(v: bv64)
    ensures Fits(4, v & 0xFFFF)
  {
    FitsFour(v & 0xFFFF);
  }

  lemma FitsTwoWords(v: bv64)
    requires v >> 16 <= 0xFFFF
    ensures Fits(8, v)
  {
    FitsFour(v >> 16);
    FitsFourMore(4, v);
  }

  lemma FitsThreeWords(v: bv64)
    requires (v >> 16) >> 16 <= 0xFFFF
    ensures Fits(12, v)
  {
    FitsTwoWords(v >> 16);
    FitsFourMore(8, v);
  }

  lemma HighHalfFits(ab: bv64)
    ensures ((ab >> 32) & 0xFFFF_FFFF) >> 16 <= 0xFFFF
  {
  }

  lemma NodeFits(cd: bv64)
    ensures ((cd & 0xFFFF_FFFF_FFFF) >> 16) >> 16 <= 0xFFFF
  {
  }

  lemma FieldsFit(ab: bv64, cd: bv64)
    ensures Fits(8, (ab >> 32) & 0xFFFF_FFFF) && Fits(4, (ab >> 16) & 0xFFFF) && Fits(4, ab & 0xFFFF)
    ensures Fits(4, (cd >> 48) & 0xFFFF) && Fits(12, cd & 0xFFFF_FFFF_FFFF)
  {
    hide Fits;
    HighHalfFits(ab);
    FitsTwoWords((ab >> 32) & 0xFFFF_FFFF);
    FitsWord(ab >> 16);
    FitsWord(ab);
    FitsWord(cd >> 48);
    NodeFits(cd);
    FitsThreeWords(cd & 0xFFFF_FFFF_FFFF);
  }

  /** The stream output of the five fields. */
  function Streamed(ab: bv64, cd: bv64): string {
    Padded(8, (ab >> 32) & 0xFFFF_FFFF) + "-" + Padded(4, (ab >> 16) & 0xFFFF) + "-" + Padded(4, ab & 0xFFFF) + "-"
    + Padded(4, (cd >> 48) & 0xFFFF) + "-" + Padded(12, cd & 0xFFFF_FFFF_FFFF)
  }

  lemma StreamedIsText(ab: bv64, cd: bv64)
    ensures Streamed(ab, cd) == Text(ab, cd)
  {
    hide Padded, Field, Fits;
    FieldsFit(ab, cd);
    PaddedIsField(8, (ab >> 32) & 0xFFFF_FFFF);
    PaddedIsField(4, (ab >> 16) & 0xFFFF);
    PaddedIsField(4, ab & 0xFFFF);
    PaddedIsField(4, (cd >> 48) & 0xFFFF);
    PaddedIsField(12, cd & 0xFFFF_FFFF_FFFF);
  }

  /** The stream part of `generate`. */
  method PrintFields(ab: bv64, cd: bv64) returns (uuid: string)
    ensures uuid == Text(ab, cd)
  {
    hide Padded, Text;
    uuid := Padded(8, (ab >> 32) & 0xFFFF_FFFF) + "-";
    uuid := uuid + Padded(4, (ab >> 16) & 0xFFFF) + "-";
    uuid := uuid + Padded(4, ab & 0xFFFF) + "-";
    uuid := uuid + Padded(4, (cd >> 48) & 0xFFFF) + "-";
    uuid := uuid + Padded(12, cd & 0xFFFF_FFFF_FFFF);
    StreamedIsText(ab, cd);
  }

  /** `generate`, given the two random words. */
  method Generate(random1: bv64, random2: bv64) returns (uuid: string)
    ensures uuid == Text(MaskVersion(random1), MaskVariant(random2))
  {
    hide Text;
    var ab := random1;
    var cd := random2;
    ab := (ab & 0xFFFF_FFFF_FFFF_0FFF) | 0x0000_0000_0000_4000;
    cd := (cd & 0x3FFF_FFFF_FFFF_FFFF) | 0x8000_0000_0000_0000;
    uuid := PrintFields(ab, cd);
  }

  // ----- The validator -----

  predicate IsHyphenPosition(i: int) {
    i == 8 || i == 13 || i == 18 || i == 23
  }

  predicate WellFormed(uuid: string) {
    |uuid| == 36
    && forall i :: 0 <= i < 36 ==> if IsHyphenPosition(i) then uuid[i] == '-' else IsHexDigit(uuid[i])
  }

  method IsValid(uuid: string) returns (valid: bool)
    ensures valid == WellFormed(uuid)
  {
    if |uuid| != 36 {
      return false;
    }
    for i := 0 to |uuid|
      invariant forall k :: 0 <= k < i ==> if IsHyphenPosition(k) then uuid[k] == '-' else IsHexDigit(uuid[k])
    {
      if i == 8 || i == 13 || i == 18 || i == 23 {
        if uuid[i] != '-' {
          return false;
        }
      } else {
        var c := uuid[i];
        if !(('0' <= c <= '9') || ('a' <= c <= 'f') || ('A' <= c <= 'F')) {
          return false;
        }
      }
    }
    return true;
  }

  // ----- What a generated UUID is -----

  /** The two words a well-formed text stands for. */
  function ReadBack(uuid: string): (bv64, bv64)
    requires WellFormed(uuid)
  {
    ((ReadHex(uuid[..8]) << 32) | (ReadHex(uuid[9..13]) << 16) | ReadHex(uuid[14..18]),
     (ReadHex(uuid[19..23]) << 48) | ReadHex(uuid[24..]))
  }

  /** Where the second of two texts begins, behind a hyphen. */
  lemma CutAtHyphen(before: string, after: string)
    ensures var s := before + "-" + after;
      s[..|before|] == before && s[|before|] == '-' && s[|before| + 1..] == after
  {
  }

  lemma FiveFields(a: string, b: string, c: string, d: string, e: string)
    requires |a| == 8 && |b| == 4 && |c| == 4 && |d| == 4 && |e| == 12
    ensures var s := a + "-" + b + "-" + c + "-" + d + "-" + e;
      && s[..8] == a && s[8] == '-' && s[9..13] == b && s[13] == '-' && s[14..18] == c && s[18] == '-'
      && s[19..23] == d && s[23] == '-' && s[24..] == e
  {
    var two := a + "-" + b;
    var three := two + "-" + c;
    var four := three + "-" + d;
    var s := four + "-" + e;
    CutAtHyphen(a, b);
    CutAtHyphen(two, c);
    CutAtHyphen(three, d);
    CutAtHyphen(four, e);
    assert s[..23] == four && s[..18] == three && s[..13] == two && s[..8] == a;
    assert s[9..13] == two[9..] && s[14..18] == three[14..] && s[19..23] == four[19..];
  }

  lemma FieldPositions(ab: bv64, cd: bv64)
    ensures var s := Text(ab, cd);
      && s[..8] == Field(8, (ab >> 32) & 0xFFFF_FFFF) && s[8] == '-'
      && s[9..13] == Field(4, (ab >> 16) & 0xFFFF) && s[13] == '-'
      && s[14..18] == Field(4, ab & 0xFFFF) && s[18] == '-'
      && s[19..23] == Field(4, (cd >> 48) & 0xFFFF) && s[23] == '-'
      && s[24..] == Field(12, cd & 0xFFFF_FFFF_FFFF)
  {
    hide Field;
    FiveFields(Field(8, (ab >> 32) & 0xFFFF_FFFF), Field(4, (ab >> 16) & 0xFFFF), Field(4, ab & 0xFFFF),
               Field(4, (cd >> 48) & 0xFFFF), Field(12, cd & 0xFFFF_FFFF_FFFF));
  }

  lemma TextIsWellFormed(ab: bv64, cd: bv64)
    ensures WellFormed(Text(ab, cd))
  {
    hide Field, Text, IsHexDigit;
    FieldPositions(ab, cd);
    FieldIsHex(8, (ab >> 32) & 0xFFFF_FFFF);
    FieldIsHex(4, (ab >> 16) & 0xFFFF);
    FieldIsHex(4, ab & 0xFFFF);
    FieldIsHex(4, (cd >> 48) & 0xFFFF);
    FieldIsHex(12, cd & 0xFFFF_FFFF_FFFF);
    var s := Text(ab, cd);
    forall i | 0 <= i < 36
      ensures if IsHyphenPosition(i) then s[i] == '-' else IsHexDigit(s[i])
    {
      if i < 8 {
        assert s[i] == s[..8][i];
      } else if 8 < i < 13 {
        assert s[i] == s[9..13][i - 9];
      } else if 13 < i < 18 {
        assert s[i] == s[14..18][i - 14];
      } else if 18 < i < 23 {
        assert s[i] == s[19..23][i - 19];
      } else if i > 23 {
        assert s[i] == s[24..][i - 24];
      }
    }
  }

  lemma WordsRejoin(ab: bv64, cd: bv64)
    ensures (((ab >> 32) & 0xFFFF_FFFF) << 32) | (((ab >> 16) & 0xFFFF) << 16) | (ab & 0xFFFF) == ab
    ensures (((cd >> 48) & 0xFFFF) << 48) | (cd & 0xFFFF_FFFF_FFFF) == cd
  {
  }

  /** The text determines the words, so two texts are equal only if their words are. */
  lemma TextReadsBack(ab: bv64, cd: bv64)
    ensures WellFormed(Text(ab, cd)) && ReadBack(Text(ab, cd)) == (ab, cd)
  {
    hide Field, Text, Fits, ReadHex, WellFormed;
    TextIsWellFormed(ab, cd);
    FieldPositions(ab, cd);
    FieldsFit(ab, cd);
    FieldReadsBack(8, (ab >> 32) & 0xFFFF_FFFF);
    FieldReadsBack(4, (ab >> 16) & 0xFFFF);
    FieldReadsBack(4, ab & 0xFFFF);
    FieldReadsBack(4, (cd >> 48) & 0xFFFF);
    FieldReadsBack(12, cd & 0xFFFF_FFFF_FFFF);
    WordsRejoin(ab, cd);
  }

  /** The leading digit of a four-digit field is its highest nibble. */
  lemma FourDigits(v: bv64)
    ensures Field(4, v)[0] == HexChar(Nibble(((v >> 4) >> 4) >> 4))
  {
    var a, b, c := v >> 4, (v >> 4) >> 4, ((v >> 4) >> 4) >> 4;
    assert Field(1, c) == [HexChar(Nibble(c))] by {
      assert Field(0, c >> 4) == "";
    }
    assert Field(2, b) == Field(1, c) + [HexChar(Nibble(b))];
    assert Field(3, a) == Field(2, b) + [HexChar(Nibble(a))];
  }

  lemma VersionNibble(ab: bv64)
    ensures Nibble((((MaskVersion(ab) & 0xFFFF) >> 4) >> 4) >> 4) == 4
  {
  }

  lemma VariantNibble(cd: bv64)
    ensures 8 <= Nibble(((((MaskVariant(cd) >> 48) & 0xFFFF) >> 4) >> 4) >> 4) <= 11
  {
  }

  /**
   * A generated UUID is valid, reads back to the masked words, has the version digit 4 and a
   * variant digit 8, 9, a or b (sections 4.1.1, 4.1.3 and 4.4 of RFC 4122).
   */
  lemma GeneratedUuid(random1: bv64, random2: bv64)
    ensures var s := Text(MaskVersion(random1), MaskVariant(random2));
      && WellFormed(s)
      && ReadBack(s) == (MaskVersion(random1), MaskVariant(random2))
      && s[14] == '4'
      && s[19] in {'8', '9', 'a', 'b'}
  {
    hide Field, Text, WellFormed, ReadBack, MaskVersion, MaskVariant, Nibble;
    var ab, cd := MaskVersion(random1), MaskVariant(random2);
    TextReadsBack(ab, cd);
    FieldPositions(ab, cd);
    var s := Text(ab, cd);
    assert s[14] == s[14..18][0] && s[19] == s[19..23][0];
    FourDigits(ab & 0xFFFF);
    FourDigits((cd >> 48) & 0xFFFF);
    VersionNibble(random1);
    VariantNibble(random2);
    VariantDigit(Nibble(((((cd >> 48) & 0xFFFF) >> 4) >> 4) >> 4));
    assert HexChar(4) == '4';
  }

  lemma VariantDigit(n: bv8)
    requires 8 <= n <= 11
    ensures HexChar(n) in {'8', '9', 'a', 'b'}
  {
    assert n == 8 || n == 9 || n == 10 || n == 11;
  }

  lemma KeptBitsSurvive(a: bv64)
    ensures KeptVersionBits(MaskVersion(a)) == KeptVersionBits(a)
    ensures KeptVariantBits(MaskVariant(a)) == KeptVariantBits(a)
  {
  }

  /** The bits of `a` that are set in `mask`. */
  function Masked(a: bv64, mask: bv64): bv64 {
    a & mask
  }

  /** Two runs give the same UUID exactly when their words agree in all but the six bits that are set. */
  lemma SameUuidIff(a1: bv64, a2: bv64, b1: bv64, b2: bv64)
    ensures Text(MaskVersion(a1), MaskVariant(a2)) == Text(MaskVersion(b1), MaskVariant(b2)) <==>
      && Masked(a1, 0xFFFF_FFFF_FFFF_0FFF) == Masked(b1, 0xFFFF_FFFF_FFFF_0FFF)
      && Masked(a2, 0x3FFF_FFFF_FFFF_FFFF) == Masked(b2, 0x3FFF_FFFF_FFFF_FFFF)
  {
    hide *;
    SameKeptIff(a1, a2, b1, b2);
    KeptBitsAre(a1);
    KeptBitsAre(b1);
    KeptBitsAre(a2);
    KeptBitsAre(b2);
  }

  lemma KeptBitsAre(a: bv64)
    ensures KeptVersionBits(a) == Masked(a, 0xFFFF_FFFF_FFFF_0FFF)
    ensures KeptVariantBits(a) == Masked(a, 0x3FFF_FFFF_FFFF_FFFF)
  {
  }

  lemma SameKeptIff(a1: bv64, a2: bv64, b1: bv64, b2: bv64)
    ensures Text(MaskVersion(a1), MaskVariant(a2)) == Text(MaskVersion(b1), MaskVariant(b2)) <==>
      KeptVersionBits(a1) == KeptVersionBits(b1) && KeptVariantBits(a2) == KeptVariantBits(b2)
  {
    hide Text, ReadBack, WellFormed, KeptVersionBits, KeptVariantBits;
    TextReadsBack(MaskVersion(a1), MaskVariant(a2));
    TextReadsBack(MaskVersion(b1), MaskVariant(b2));
    KeptBitsSurvive(a1);
    KeptBitsSurvive(a2);
    KeptBitsSurvive(b1);
    KeptBitsSurvive(b2);
  }

  // ----- Which digits are random -----

  /** The fields of the two words. */
  function TimeLow(ab: bv64): bv64 {
    (ab >> 32) & 0xFFFF_FFFF
  }

  function TimeMid(ab: bv64): bv64 {
    (ab >> 16) & 0xFFFF
  }

  function TimeHigh(ab: bv64): bv64 {
    ab & 0xFFFF
  }

  function ClockSeq(cd: bv64): bv64 {
    (cd >> 48) & 0xFFFF
  }

  function Node(cd: bv64): bv64 {
    cd & 0xFFFF_FFFF_FFFF
  }

  /** The nibble at `k`, from the lowest. */
  function NibbleAt(v: bv64, k: nat): (n: bv8)
    ensures n <= 15
  {
    if k == 0 then Nibble(v) else NibbleAt(v >> 4, k - 1)
  }

  lemma NibbleShifts(v: bv64)
    ensures NibbleAt(v, 0) == Nibble(v) && NibbleAt(v, 1) == Nibble(v >> 4)
    ensures NibbleAt(v, 2) == Nibble((v >> 4) >> 4) && NibbleAt(v, 3) == Nibble(((v >> 4) >> 4) >> 4)
  {
    hide Nibble;
    var a, b, c := v >> 4, (v >> 4) >> 4, ((v >> 4) >> 4) >> 4;
    assert NibbleAt(a, 0) == Nibble(a) && NibbleAt(b, 0) == Nibble(b) && NibbleAt(c, 0) == Nibble(c);
    assert NibbleAt(v, 1) == NibbleAt(a, 0);
    assert NibbleAt(v, 2) == NibbleAt(a, 1) == NibbleAt(b, 0);
    assert NibbleAt(v, 3) == NibbleAt(a, 2) == NibbleAt(b, 1) == NibbleAt(c, 0);
  }

  lemma VersionKeepsFields(a: bv64)
    ensures TimeLow(MaskVersion(a)) == TimeLow(a) && TimeMid(MaskVersion(a)) == TimeMid(a)
  {
  }

  lemma VersionKeepsNibbles(a: bv64)
    ensures Nibble(TimeHigh(MaskVersion(a))) == Nibble(TimeHigh(a))
    ensures Nibble(TimeHigh(MaskVersion(a)) >> 4) == Nibble(TimeHigh(a) >> 4)
    ensures Nibble((TimeHigh(MaskVersion(a)) >> 4) >> 4) == Nibble((TimeHigh(a) >> 4) >> 4)
  {
  }

  lemma VariantKeepsNode(b: bv64)
    ensures Node(MaskVariant(b)) == Node(b)
  {
  }

  /** The two bits of the variant digit that are left to chance. */
  function LowBits(n: bv8): bv8 {
    n & 3
  }

  lemma VariantKeepsNibbles(b: bv64)
    ensures Nibble(ClockSeq(MaskVariant(b))) == Nibble(ClockSeq(b))
    ensures Nibble(ClockSeq(MaskVariant(b)) >> 4) == Nibble(ClockSeq(b) >> 4)
    ensures Nibble((ClockSeq(MaskVariant(b)) >> 4) >> 4) == Nibble((ClockSeq(b) >> 4) >> 4)
  {
  }

  lemma VariantKeepsLowBits(b: bv64)
    ensures LowBits(Nibble(((ClockSeq(MaskVariant(b)) >> 4) >> 4) >> 4))
      == LowBits(Nibble(((ClockSeq(b) >> 4) >> 4) >> 4))
  {
  }

  lemma AllFourDigits(v: bv64)
    ensures Field(4, v)
      == [HexChar(NibbleAt(v, 3)), HexChar(NibbleAt(v, 2)), HexChar(NibbleAt(v, 1)), HexChar(NibbleAt(v, 0))]
  {
    hide Nibble, HexChar, NibbleAt;
    NibbleShifts(v);
    var a, b, c := v >> 4, (v >> 4) >> 4, ((v >> 4) >> 4) >> 4;
    assert Field(1, c) == [HexChar(Nibble(c))] by {
      assert Field(0, c >> 4) == "";
    }
    assert Field(2, b) == Field(1, c) + [HexChar(Nibble(b))];
    assert Field(3, a) == Field(2, b) + [HexChar(Nibble(a))];
  }

  lemma SameFromSecond(v: bv64, w: bv64)
    requires forall k :: 0 <= k < 3 ==> NibbleAt(v, k) == NibbleAt(w, k)
    ensures Field(4, v)[1..] == Field(4, w)[1..]
  {
    hide *;
    AllFourDigits(v);
    AllFourDigits(w);
  }

  lemma VersionKeepsTail(a: bv64)
    ensures Field(4, TimeHigh(MaskVersion(a)))[1..] == Field(4, TimeHigh(a))[1..]
  {
    hide *;
    NibbleShifts(TimeHigh(MaskVersion(a)));
    NibbleShifts(TimeHigh(a));
    VersionKeepsNibbles(a);
    SameFromSecond(TimeHigh(MaskVersion(a)), TimeHigh(a));
  }

  lemma VariantKeepsTail(b: bv64)
    ensures Field(4, ClockSeq(MaskVariant(b)))[1..] == Field(4, ClockSeq(b))[1..]
  {
    hide *;
    NibbleShifts(ClockSeq(MaskVariant(b)));
    NibbleShifts(ClockSeq(b));
    VariantKeepsNibbles(b);
    SameFromSecond(ClockSeq(MaskVariant(b)), ClockSeq(b));
  }

  lemma VariantKeepsHead(b: bv64)
    ensures LowBits(NibbleAt(ClockSeq(MaskVariant(b)), 3)) == LowBits(NibbleAt(ClockSeq(b), 3))
  {
    hide *;
    NibbleShifts(ClockSeq(MaskVariant(b)));
    NibbleShifts(ClockSeq(b));
    VariantKeepsLowBits(b);
  }

  lemma Positions(ab: bv64, cd: bv64)
    ensures var s := Text(ab, cd);
      && s[..8] == Field(8, TimeLow(ab)) && s[8] == '-'
      && s[9..13] == Field(4, TimeMid(ab)) && s[13] == '-'
      && s[14..18] == Field(4, TimeHigh(ab)) && s[18] == '-'
      && s[19..23] == Field(4, ClockSeq(cd)) && s[23] == '-'
      && s[24..] == Field(12, Node(cd))
  {
    hide Field, Text;
    FieldPositions(ab, cd);
  }

  /** The texts of two pairs of words agree wherever their fields do. */
  lemma SameDigits(a: bv64, b: bv64, c: bv64, d: bv64, i: nat)
    requires TimeLow(a) == TimeLow(c) && TimeMid(a) == TimeMid(c) && Node(b) == Node(d)
    requires Field(4, TimeHigh(a))[1..] == Field(4, TimeHigh(c))[1..]
    requires Field(4, ClockSeq(b))[1..] == Field(4, ClockSeq(d))[1..]
    requires i < 36 && i != 14 && i != 19
    ensures Text(a, b)[i] == Text(c, d)[i]
  {
    hide *;
    Positions(a, b);
    Positions(c, d);
    var s, t := Text(a, b), Text(c, d);
    if i < 8 {
      assert s[i] == s[..8][i] && t[i] == t[..8][i];
    } else if 8 < i < 13 {
      assert s[i] == s[9..13][i - 9] && t[i] == t[9..13][i - 9];
    } else if 13 < i < 18 {
      assert s[i] == s[14..18][1..][i - 15] && t[i] == t[14..18][1..][i - 15];
    } else if 18 < i < 23 {
      assert s[i] == s[19..23][1..][i - 20] && t[i] == t[19..23][1..][i - 20];
    } else if i > 23 {
      assert s[i] == s[24..][i - 24] && t[i] == t[24..][i - 24];
    }
  }

  /**
   * Of the text of two random words, a generated UUID changes the version digit and the two high
   * bits of the variant digit, and nothing else.
   */
  lemma OtherDigitsAreRandom(random1: bv64, random2: bv64)
    ensures var s, t := Text(MaskVersion(random1), MaskVariant(random2)), Text(random1, random2);
      && (forall i :: 0 <= i < 36 && i != 14 && i != 19 ==> s[i] == t[i])
      && IsHexDigit(s[19]) && IsHexDigit(t[19]) && LowBits(HexValue(s[19])) == LowBits(HexValue(t[19]))
  {
    hide *;
    forall i | 0 <= i < 36 && i != 14 && i != 19
      ensures Text(MaskVersion(random1), MaskVariant(random2))[i] == Text(random1, random2)[i]
    {
      DigitIsRandom(random1, random2, i);
    }
    VariantDigitKeepsLowBits(random1, random2);
  }

  lemma DigitIsRandom(random1: bv64, random2: bv64, i: nat)
    requires i < 36 && i != 14 && i != 19
    ensures Text(MaskVersion(random1), MaskVariant(random2))[i] == Text(random1, random2)[i]
  {
    hide *;
    VersionKeepsFields(random1);
    VersionKeepsTail(random1);
    VariantKeepsNode(random2);
    VariantKeepsTail(random2);
    SameDigits(MaskVersion(random1), MaskVariant(random2), random1, random2, i);
  }

  lemma VariantDigitKeepsLowBits(random1: bv64, random2: bv64)
    ensures var c, d := Text(MaskVersion(random1), MaskVariant(random2))[19], Text(random1, random2)[19];
      IsHexDigit(c) && IsHexDigit(d) && LowBits(HexValue(c)) == LowBits(HexValue(d))
  {
    hide *;
    VariantDigitIs(MaskVersion(random1), MaskVariant(random2));
    VariantDigitIs(random1, random2);
    VariantKeepsHead(random2);
  }

  lemma VariantDigitIs(ab: bv64, cd: bv64)
    ensures var c := Text(ab, cd)[19];
      IsHexDigit(c) && HexValue(c) == NibbleAt(ClockSeq(cd), 3)
  {
    hide *;
    Positions(ab, cd);
    assert Text(ab, cd)[19] == Text(ab, cd)[19..23][0];
    AllFourDigits(ClockSeq(cd));
    DigitReadsBack(NibbleAt(ClockSeq(cd), 3));
  }
}
