/** Hexadecimal text and the byte codec over it. */
module Hex {
  import opened Sequences

  datatype HexError = InvalidLength | InvalidCharacter
  datatype Result<+T> = Ok(value: T) | Err(error: HexError)

  const HEX_CHARS := "0123456789abcdef"

  predicate IsHexDigit(c: char) {
    '0' <= c <= '9' || 'a' <= c <= 'f' || 'A' <= c <= 'F'
  }

  predicate AllHex(s: string) {
    forall i :: 0 <= i < |s| ==> IsHexDigit(s[i])
  }

  function HexChar(n: bv8): (c: char)
    requires n <= 15
  {
    HEX_CHARS[n as int]
  }

  function HexValue(c: char): (n: bv8)
    requires IsHexDigit(c)
    ensures n <= 15
  {
    if '0' <= c <= '9' then (c as int - '0' as int) as bv8
    else if 'a' <= c <= 'f' then (c as int - 'a' as int + 10) as bv8
    else (c as int - 'A' as int + 10) as bv8
  }

  function LowerDigit(c: char): char {
    if 'A' <= c <= 'F' then c - 'A' + 'a' else c
  }

  function Lower(s: string): (r: string)
    ensures |r| == |s|
    ensures forall i :: 0 <= i < |s| ==> r[i] == LowerDigit(s[i])
  {
    seq(|s|, i requires 0 <= i < |s| => LowerDigit(s[i]))
  }

  lemma DigitReadsBack(n: bv8)
    requires n <= 15
    ensures IsHexDigit(HexChar(n)) && HexValue(HexChar(n)) == n
    ensures LowerDigit(HexChar(n)) == HexChar(n)
  {
    var i := n as int;
    assert i as bv8 == n;
  }

  lemma ByteOfInt(n: int)
    requires 0 <= n <= 15
    ensures (n as bv8) as int == n
  {
  }

  lemma HexValueIs(c: char)
    requires IsHexDigit(c)
    ensures HexValue(c) as int ==
      if '0' <= c <= '9' then c as int - '0' as int
      else if 'a' <= c <= 'f' then c as int - 'a' as int + 10
      else c as int - 'A' as int + 10
  {
    if '0' <= c <= '9' {
      ByteOfInt(c as int - '0' as int);
    } else if 'a' <= c <= 'f' {
      ByteOfInt(c as int - 'a' as int + 10);
    } else {
      ByteOfInt(c as int - 'A' as int + 10);
    }
  }

  lemma DigitPrintsBack(c: char)
    requires IsHexDigit(c)
    ensures HexChar(HexValue(c)) == LowerDigit(c)
  {
    hide HexChar, HexValue;
    HexValueIs(c);
    HexCharIs(HexValue(c));
  }

  lemma HexCharIs(n: bv8)
    requires n <= 15
    ensures HexChar(n) as int == if (n as int) < 10 then (n as int) + '0' as int else (n as int) - 10 + 'a' as int
  {
  }

  lemma NibblesOfByte(b: bv8)
    ensures (b >> 4) & 0x0F <= 15 && b & 0x0F <= 15
    ensures (((b >> 4) & 0x0F) << 4) | (b & 0x0F) == b
  {
  }

  lemma ByteOfNibbles(hi: bv8, lo: bv8)
    requires hi <= 15 && lo <= 15
    ensures ((((hi << 4) | lo) >> 4) & 0x0F) == hi
    ensures ((hi << 4) | lo) & 0x0F == lo
  {
  }

  // ----- What the codec computes -----

  function EncodeByte(b: bv8): (r: string)
    ensures |r| == 2
  {
    NibblesOfByte(b);
    [HexChar((b >> 4) & 0x0F), HexChar(b & 0x0F)]
  }

  lemma ByteIsHex(b: bv8)
    ensures AllHex(EncodeByte(b))
  {
    hide HexChar, IsHexDigit;
    NibblesOfByte(b);
    DigitReadsBack((b >> 4) & 0x0F);
    DigitReadsBack(b & 0x0F);
  }

  function Encode(data: seq<bv8>): (r: string)
    ensures |r| == 2 * |data|
  {
    if data == [] then "" else Encode(Front(data)) + EncodeByte(Last(data))
  }

  function DecodePair(hi: char, lo: char): Result<bv8> {
    if IsHexDigit(hi) && IsHexDigit(lo) then Ok((HexValue(hi) << 4) | HexValue(lo)) else Err(InvalidCharacter)
  }

  function DecodePairs(hex: string): Result<seq<bv8>>
    requires |hex| % 2 == 0
  {
    if hex == "" then Ok([])
    else
      match (DecodePairs(hex[..|hex| - 2]), DecodePair(hex[|hex| - 2], hex[|hex| - 1]))
      case (Ok(bytes), Ok(b)) => Ok(bytes + [b])
      case _ => Err(InvalidCharacter)
  }

  function Decode(hex: string): Result<seq<bv8>> {
    if |hex| % 2 != 0 then Err(InvalidLength) else DecodePairs(hex)
  }

  // ----- The codec -----

  lemma EmptyEncoding()
    ensures Encode([]) == ""
  {
  }

  method ToHex(data: seq<bv8>) returns (result: string)
    ensures result == Encode(data)
  {
    hide Encode, HexChar;
    assert data[..0] == [];
    EmptyEncoding();
    result := "";
    for i := 0 to |data|
      invariant result == Encode(data[..i])
    {
      var b := data[i];
      NibblesOfByte(b);
      result := result + [HexChar((b >> 4) & 0x0F)];
      result := result + [HexChar(b & 0x0F)];
      EncodeSnoc(data[..i], b);
      assert data[..i + 1] == data[..i] + [b];
    }
    assert data[..|data|] == data;
  }

  lemma DigitValue(c: char)
    ensures '0' <= c <= '9' ==> HexValue(c) == (c as int - '0' as int) as bv8
    ensures 'a' <= c <= 'f' ==> HexValue(c) == (c as int - 'a' as int + 10) as bv8
    ensures 'A' <= c <= 'F' ==> HexValue(c) == (c as int - 'A' as int + 10) as bv8
  {
  }

  /** The shift of the empty byte leaves room for the first digit. */
  lemma FirstDigit(n: bv8)
    ensures ((0 as bv8) << 4) | n == n
  {
  }

  /** The inner loop of `fromHex`: two digits shifted into one byte. */
  method ReadByte(hex: string, i: nat) returns (r: Result<bv8>)
    requires i + 1 < |hex|
    ensures r == DecodePair(hex[i], hex[i + 1])
  {
    hide HexValue;
    var b: bv8 := 0;
    for j := 0 to 2
      invariant j == 0 ==> b == 0
      invariant j >= 1 ==> IsHexDigit(hex[i]) && (j == 1 ==> b == HexValue(hex[i]))
      invariant j == 2 ==> IsHexDigit(hex[i + 1]) && b == (HexValue(hex[i]) << 4) | HexValue(hex[i + 1])
    {
      var c := hex[i + j];
      DigitValue(c);
      FirstDigit(if IsHexDigit(c) then HexValue(c) else 0);
      b := b << 4;
      if '0' <= c <= '9' {
        b := b | (c as int - '0' as int) as bv8;
      } else if 'a' <= c <= 'f' {
        b := b | (c as int - 'a' as int + 10) as bv8;
      } else if 'A' <= c <= 'F' {
        b := b | (c as int - 'A' as int + 10) as bv8;
      } else {
        return Err(InvalidCharacter);
      }
    }
    r := Ok(b);
  }

  method FromHex(hex: string) returns (r: Result<seq<bv8>>)
    ensures r == Decode(hex)
  {
    hide DecodePair;
    if |hex| % 2 != 0 {
      return Err(InvalidLength);
    }
    var result: seq<bv8> := [];
    var i := 0;
    while i < |hex|
      invariant 0 <= i <= |hex| && i % 2 == 0
      invariant DecodePairs(hex[..i]) == Ok(result)
    {
      assert hex[..i + 2][..i] == hex[..i];
      var b := ReadByte(hex, i);
      if b.Err? {
        BadPrefix(hex, i + 2);
        return Err(InvalidCharacter);
      }
      result := result + [b.value];
      i := i + 2;
    }
    assert hex[..|hex|] == hex;
    r := Ok(result);
  }

  lemma {:induction false} BadPrefix(hex: string, n: nat)
    requires n <= |hex| && n % 2 == 0 && |hex| % 2 == 0
    requires DecodePairs(hex[..n]).Err?
    ensures DecodePairs(hex) == Err(InvalidCharacter)
    decreases |hex|
  {
    if n == |hex| {
      assert hex[..n] == hex;
    } else {
      var init := hex[..|hex| - 2];
      assert init[..n] == hex[..n];
      BadPrefix(init, n);
    }
  }

  /** The hexadecimal digits, one by one. */
  lemma HexDigitsAre(c: char)
    ensures IsHexDigit(c) <==> c in "0123456789abcdefABCDEF"
  {
  }

  lemma NibblesAreQuotients(b: bv8)
    ensures 16 * (((b >> 4) & 0x0F) as int) + ((b & 0x0F) as int) == b as int
  {
    var hi, lo := (b >> 4) & 0x0F, b & 0x0F;
    assert b == 16 * hi + lo && hi <= 15 && lo <= 15;
  }

  /** The two digits at `2 * i` print the byte at `i`, the higher first. */
  lemma {:induction false} EncodedDigits(data: seq<bv8>, i: nat)
    requires i < |data|
    ensures var s := Encode(data);
      && s[2 * i..2 * i + 2] == EncodeByte(data[i])
      && IsHexDigit(s[2 * i]) && IsHexDigit(s[2 * i + 1])
      && 16 * (HexValue(s[2 * i]) as int) + (HexValue(s[2 * i + 1]) as int) == data[i] as int
    decreases |data|
  {
    hide EncodeByte, HexValue, IsHexDigit;
    var n, b := |data| - 1, Last(data);
    assert Encode(data) == Encode(Front(data)) + EncodeByte(b);
    if i < n {
      EncodedDigits(Front(data), i);
    } else {
      DigitsOfByte(b);
    }
  }

  lemma DigitsOfByte(b: bv8)
    ensures var r := EncodeByte(b);
      && IsHexDigit(r[0]) && IsHexDigit(r[1])
      && 16 * (HexValue(r[0]) as int) + (HexValue(r[1]) as int) == b as int
  {
    hide HexChar, HexValue, IsHexDigit;
    NibblesOfByte(b);
    NibblesAreQuotients(b);
    DigitReadsBack((b >> 4) & 0x0F);
    DigitReadsBack(b & 0x0F);
  }

  // ----- Round trips -----

  lemma DecodePairsSnoc(init: string, hi: char, lo: char)
    requires |init| % 2 == 0
    ensures DecodePairs(init + [hi, lo]) ==
      if DecodePairs(init).Ok? && IsHexDigit(hi) && IsHexDigit(lo)
      then Ok(DecodePairs(init).value + [(HexValue(hi) << 4) | HexValue(lo)]) else Err(InvalidCharacter)
  {
    hide HexValue, IsHexDigit;
    var hex := init + [hi, lo];
    assert hex[..|hex| - 2] == init;
  }

  lemma EncodeSnoc(data: seq<bv8>, b: bv8)
    ensures Encode(data + [b]) == Encode(data) + EncodeByte(b)
  {
    hide EncodeByte;
    assert Front(data + [b]) == data;
  }

  lemma ByteReadsBack(b: bv8)
    ensures var r := EncodeByte(b);
      IsHexDigit(r[0]) && IsHexDigit(r[1]) && (HexValue(r[0]) << 4) | HexValue(r[1]) == b
  {
    hide HexChar, HexValue, IsHexDigit;
    NibblesOfByte(b);
    DigitReadsBack((b >> 4) & 0x0F);
    DigitReadsBack(b & 0x0F);
  }

  lemma DecodeByte(text: string, data: seq<bv8>, b: bv8)
    requires |text| % 2 == 0 && DecodePairs(text) == Ok(data)
    ensures DecodePairs(text + EncodeByte(b)) == Ok(data + [b])
  {
    hide HexValue, IsHexDigit, EncodeByte, DecodePairs;
    var r := EncodeByte(b);
    ByteReadsBack(b);
    DecodePairsSnoc(text, r[0], r[1]);
    assert r == [r[0], r[1]];
  }

  lemma {:induction false} DecodeAfterEncode(data: seq<bv8>)
    ensures Decode(Encode(data)) == Ok(data)
    decreases |data|
  {
    if data != [] {
      hide EncodeByte, DecodePairs, Encode;
      var init, b := Front(data), Last(data);
      assert data == init + [b];
      DecodeAfterEncode(init);
      EncodeSnoc(init, b);
      DecodeByte(Encode(init), init, b);
    }
  }

  lemma PairPrintsBack(hi: char, lo: char)
    requires IsHexDigit(hi) && IsHexDigit(lo)
    ensures EncodeByte((HexValue(hi) << 4) | HexValue(lo)) == [LowerDigit(hi), LowerDigit(lo)]
  {
    hide HexValue, LowerDigit, HexChar, IsHexDigit;
    ByteOfNibbles(HexValue(hi), HexValue(lo));
    DigitPrintsBack(hi);
    DigitPrintsBack(lo);
  }

  lemma PairSnoc(init: string, hi: char, lo: char)
    ensures AllHex(init + [hi, lo]) <==> AllHex(init) && IsHexDigit(hi) && IsHexDigit(lo)
    ensures Lower(init + [hi, lo]) == Lower(init) + [LowerDigit(hi), LowerDigit(lo)]
  {
    hide IsHexDigit, LowerDigit;
    var s := init + [hi, lo];
    assert s[|init|] == hi && s[|init| + 1] == lo;
    assert forall i :: 0 <= i < |init| ==> s[i] == init[i];
  }

  /** Decoding succeeds exactly on hexadecimal text of even length, and encoding then gives it in lower case. */
  lemma {:induction false} DecodeSucceedsIffHex(hex: string)
    ensures Decode(hex).Ok? <==> |hex| % 2 == 0 && AllHex(hex)
    ensures Decode(hex) == Err(InvalidLength) <==> |hex| % 2 != 0
    ensures Decode(hex).Ok? ==> |Decode(hex).value| == |hex| / 2 && Encode(Decode(hex).value) == Lower(hex)
    decreases |hex|
  {
    if |hex| % 2 == 0 && hex != "" {
      hide HexValue, LowerDigit, IsHexDigit, EncodeByte, AllHex, DecodePairs, Encode, Lower;
      var n := |hex|;
      var init, hi, lo := hex[..n - 2], hex[n - 2], hex[n - 1];
      assert hex == init + [hi, lo];
      DecodeSucceedsIffHex(init);
      DecodePairsSnoc(init, hi, lo);
      PairSnoc(init, hi, lo);
      if Decode(hex).Ok? {
        PairPrintsBack(hi, lo);
        EncodeSnoc(Decode(init).value, (HexValue(hi) << 4) | HexValue(lo));
      }
    }
  }
}
