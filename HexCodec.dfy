/** Decoding of the hexadecimal payload strings that the feature catalog
    stores for every injection. */
module HexCodec {
  import opened Base

  /** The characters `char::to_digit(16)` accepts: 0-9, a-f and A-F. */
  predicate IsHexDigit(c: char) {
    '0' <= c <= '9' || 'a' <= c <= 'f' || 'A' <= c <= 'F'
  }

  predicate AllHexDigits(s: string) {
    forall i :: 0 <= i < |s| ==> IsHexDigit(s[i])
  }

  /** The value of one hexadecimal digit, letters in either case: the digit's
      upper-case spelling is the nibble's upper-case digit. */
  function DigitValue(c: char): (r: Option<nat>)
    ensures r.Some? <==> IsHexDigit(c)
    ensures r.Some? ==> r.value < 16
    ensures r.Some? ==> HexChar(r.value) == if 'a' <= c <= 'f' then (c as int - 32) as char else c
  {
    if '0' <= c <= '9' then Some(c as int - '0' as int)
    else if 'a' <= c <= 'f' then Some(c as int - 'a' as int + 10)
    else if 'A' <= c <= 'F' then Some(c as int - 'A' as int + 10)
    else None
  }

  /** The byte spelled by the k-th pair of digits of `s`: high nibble first. */
  function PairValue(s: string, k: nat): Byte
    requires 2 * k + 1 < |s| && IsHexDigit(s[2 * k]) && IsHexDigit(s[2 * k + 1])
  {
    DigitValue(s[2 * k]).value * 16 + DigitValue(s[2 * k + 1]).value
  }

  /** Decoding of an even-length string, one pair of digits at a time. */
  function DecodePairs(s: string): (r: Result<seq<Byte>, Error>)
    requires |s| % 2 == 0
    ensures r.Success? <==> AllHexDigits(s)
    ensures r.Failure? ==> r.error == NonHexDigit
    ensures r.Success? ==> |r.value| == |s| / 2
    ensures r.Success? ==> forall k :: 0 <= k < |s| / 2 ==> r.value[k] == PairValue(s, k)
    decreases |s|
  {
    if s == [] then Success([])
    else
      var high, low := DigitValue(s[0]), DigitValue(s[1]);
      if high.None? || low.None? then Failure(NonHexDigit)
      else
        match DecodePairs(s[2..])
        case Failure(e) => Failure(e)
        case Success(rest) =>
          assert forall i :: 2 <= i < |s| ==> s[i] == s[2..][i - 2];
          Success([high.value * 16 + low.value] + rest)
  }

  /** The meaning of `decode_hex`: an odd length is refused before any
      character is looked at; otherwise every character must be a digit, and
      byte k of the result is the value of digits 2k (high) and 2k+1 (low). */
  function HexDecode(s: string): (r: Result<seq<Byte>, Error>)
    ensures r.Success? <==> |s| % 2 == 0 && AllHexDigits(s)
    ensures r.Failure? ==> r.error == (if |s| % 2 == 0 then NonHexDigit else OddLength)
    ensures r.Success? ==> |r.value| == |s| / 2
    ensures r.Success? ==> forall k :: 0 <= k < |s| / 2 ==> r.value[k] == PairValue(s, k)
  {
    if |s| % 2 != 0 then Failure(OddLength) else DecodePairs(s)
  }

  /** `decode_hex`: walks the string two characters at a time and appends one
      byte per pair to a growing sequence. */
  method DecodeHex(hexa: string) returns (r: Result<seq<Byte>, Error>)
    ensures r == HexDecode(hexa)
  {
    if |hexa| % 2 != 0 {
      return Failure(OddLength);
    }
    var bytes: seq<Byte> := [];
    var i := 0;
    while i < |hexa|
      invariant 0 <= i <= |hexa| && i % 2 == 0
      invariant forall j :: 0 <= j < i ==> IsHexDigit(hexa[j])
      invariant |bytes| == i / 2
      invariant forall k :: 0 <= k < i / 2 ==> bytes[k] == PairValue(hexa, k)
    {
      var high := DigitValue(hexa[i]);
      if high.None? {
        return Failure(NonHexDigit);
      }
      var low := DigitValue(hexa[i + 1]);
      if low.None? {
        return Failure(NonHexDigit);
      }
      bytes := bytes + [high.value * 16 + low.value];
      i := i + 2;
    }
    var expected := HexDecode(hexa);
    assert expected.Success?;
    assert expected.value == bytes;
    return Success(bytes);
  }

  // ----- the inverse, used to author payloads -----

  /** The upper-case digit for a nibble. */
  function HexChar(n: nat): char
    requires n < 16
  {
    "0123456789ABCDEF"[n]
  }

  /** Encoding of bytes as two upper-case digits each, high nibble first. */
  function HexEncode(bytes: seq<Byte>): (s: string)
    ensures |s| == 2 * |bytes|
    ensures AllHexDigits(s)
  {
    if bytes == [] then []
    else [HexChar(bytes[0] / 16), HexChar(bytes[0] % 16)] + HexEncode(bytes[1..])
  }

  lemma DigitValueOfHexChar(n: nat)
    requires n < 16
    ensures DigitValue(HexChar(n)) == Some(n)
  {
  }

  /** Byte k of the input is spelled by characters 2k and 2k+1 of the encoding. */
  lemma {:induction false} HexEncodeAt(bytes: seq<Byte>, k: nat)
    requires k < |bytes|
    ensures HexEncode(bytes)[2 * k] == HexChar(bytes[k] / 16)
    ensures HexEncode(bytes)[2 * k + 1] == HexChar(bytes[k] % 16)
  {
    if k > 0 {
      HexEncodeAt(bytes[1..], k - 1);
    }
  }

  /** Decoding inverts encoding: every byte sequence survives the round trip. */
  lemma DecodeEncode(bytes: seq<Byte>)
    ensures HexDecode(HexEncode(bytes)) == Success(bytes)
  {
    var s := HexEncode(bytes);
    var r := HexDecode(s);
    assert |s| / 2 == |bytes|;
    forall k | 0 <= k < |bytes|
      ensures r.value[k] == bytes[k]
    {
      HexEncodeAt(bytes, k);
      DigitValueOfHexChar(bytes[k] / 16);
      DigitValueOfHexChar(bytes[k] % 16);
    }
    assert r.value == bytes;
  }

  /** The two vectors the original's unit test checks. */
  lemma DecodeExamples()
    ensures HexDecode("ABCDEF") == Success([0xAB, 0xCD, 0xEF])
    ensures HexDecode("123456") == Success([0x12, 0x34, 0x56])
  {
    var s1 := "ABCDEF";
    assert AllHexDigits(s1);
    assert PairValue(s1, 0) == 0xAB && PairValue(s1, 1) == 0xCD && PairValue(s1, 2) == 0xEF;
    var r1 := HexDecode(s1);
    assert r1.value[0] == 0xAB && r1.value[1] == 0xCD && r1.value[2] == 0xEF;
    assert r1.value == [0xAB, 0xCD, 0xEF];
    var s2 := "123456";
    assert AllHexDigits(s2);
    assert PairValue(s2, 0) == 0x12 && PairValue(s2, 1) == 0x34 && PairValue(s2, 2) == 0x56;
    var r2 := HexDecode(s2);
    assert r2.value[0] == 0x12 && r2.value[1] == 0x34 && r2.value[2] == 0x56;
    assert r2.value == [0x12, 0x34, 0x56];
  }
}
