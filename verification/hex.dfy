/**
 * Base16 ("hex") text, as RFC 4648 section 8 defines it and as the `hex`
 * crate implements it: `encode` writes two lower-case digits per byte, high
 * nibble first; `decode` accepts both cases, rejects text of odd length before
 * looking at any character, and otherwise reports the first character that is
 * not a hex digit, with its index.
 */
module Hex {
  import opened Wrappers

  /** The decoder's error (the crate's `FromHexError`). */
  datatype FromHexError = OddLength | InvalidHexCharacter(c: char, index: nat)

  /** The encoder's digit table, "0123456789abcdef". */
  const LowerDigits: seq<char> := "0123456789abcdef"

  /** The upper-case form of the same alphabet, which the decoder also reads. */
  const UpperDigits: seq<char> := "0123456789ABCDEF"

  predicate IsHexDigit(c: char) {
    '0' <= c <= '9' || 'a' <= c <= 'f' || 'A' <= c <= 'F'
  }

  /** Text the decoder accepts: an even number of hex digits of either case. */
  predicate IsHexText(s: seq<char>) {
    |s| % 2 == 0 && forall i :: 0 <= i < |s| ==> IsHexDigit(s[i])
  }

  /** The value of one digit, or None for a character that is not a digit. */
  function DigitValue(c: char): (v: Option<nat>)
    ensures v.Some? <==> IsHexDigit(c)
    ensures v.Some? ==> v.value < 16
    ensures v.Some? ==> c == LowerDigits[v.value] || c == UpperDigits[v.value]
  {
    if 'A' <= c <= 'F' then Some(c as int - 'A' as int + 10)
    else if 'a' <= c <= 'f' then Some(c as int - 'a' as int + 10)
    else if '0' <= c <= '9' then Some(c as int - '0' as int)
    else None
  }

  /** The lower-case digit for a nibble: entry n of LowerDigits. */
  function LowerDigit(n: nat): (c: char)
    requires n < 16
    ensures DigitValue(c) == Some(n)
    ensures 'A' <= c <= 'F' ==> false
  {
    if n < 10 then ('0' as int + n) as char else ('a' as int + n - 10) as char
  }

  lemma LowerDigitIsTableEntry()
    ensures forall n :: 0 <= n < 16 ==> LowerDigit(n) == LowerDigits[n]
  {
  }

  /** Lower-cases the letters A-F and leaves every other character alone. */
  function ToLowerHex(s: seq<char>): (t: seq<char>)
    ensures |t| == |s|
    ensures forall i :: 0 <= i < |s| ==> DigitValue(t[i]) == DigitValue(s[i])
    ensures forall i :: 0 <= i < |s| ==> !('A' <= t[i] <= 'F')
  {
    if s == [] then []
    else [if 'A' <= s[0] <= 'F' then (s[0] as int - 'A' as int + 'a' as int) as char else s[0]]
         + ToLowerHex(s[1..])
  }

  /** Two lower-case digits per byte, high nibble first. */
  function Encode(bytes: seq<byte>): (s: seq<char>)
    ensures |s| == 2 * |bytes|
    ensures IsHexText(s)
    ensures forall i :: 0 <= i < |s| ==> !('A' <= s[i] <= 'F')
  {
    if bytes == [] then []
    else [LowerDigit(bytes[0] / 16), LowerDigit(bytes[0] % 16)] + Encode(bytes[1..])
  }

  /** The crate's `decode`: the length check first, then the pairs in order. */
  function Decode(s: seq<char>): (r: Result<seq<byte>, FromHexError>)
    ensures r.Ok? <==> IsHexText(s)
    ensures r == Err(OddLength) <==> |s| % 2 != 0
  {
    if |s| % 2 != 0 then Err(OddLength)
    else
      DecodePairsOkIff(s, 0);
      DecodePairs(s, 0)
  }

  /**
   * Decodes `s` pair by pair; `base` is the index of s[0] in the whole text,
   * so that an error names the offending character's position in it.
   */
  function DecodePairs(s: seq<char>, base: nat): (r: Result<seq<byte>, FromHexError>)
    requires |s| % 2 == 0
  {
    if s == [] then Ok([])
    else match (DigitValue(s[0]), DigitValue(s[1]))
      case (None, _) => Err(InvalidHexCharacter(s[0], base))
      case (Some(_), None) => Err(InvalidHexCharacter(s[1], base + 1))
      case (Some(hi), Some(lo)) =>
        match DecodePairs(s[2..], base + 2)
        case Err(e) => Err(e)
        case Ok(rest) => Ok([hi * 16 + lo] + rest)
  }

  lemma {:induction false} DecodePairsOkIff(s: seq<char>, base: nat)
    requires |s| % 2 == 0
    ensures DecodePairs(s, base).Ok? <==> forall i :: 0 <= i < |s| ==> IsHexDigit(s[i])
    ensures DecodePairs(s, base).Ok? ==> |DecodePairs(s, base).value| == |s| / 2
    ensures DecodePairs(s, base).Err? ==>
      match DecodePairs(s, base).error
      case OddLength => false
      case InvalidHexCharacter(c, index) =>
        base <= index < base + |s| && s[index - base] == c && !IsHexDigit(c)
        && forall j :: 0 <= j < index - base ==> IsHexDigit(s[j])
  {
    if s != [] {
      DecodePairsOkIff(s[2..], base + 2);
      if IsHexDigit(s[0]) && IsHexDigit(s[1]) {
        forall j | 2 <= j < |s| ensures s[j] == s[2..][j - 2] { }
      }
    }
  }

  /**
   * Decoding succeeds exactly on hex text; text of odd length is reported as
   * such whatever it holds; otherwise the error names the first character
   * that is not a hex digit.
   */
  lemma DecodeErrors(s: seq<char>)
    ensures Decode(s).Ok? <==> IsHexText(s)
    ensures Decode(s) == Err(OddLength) <==> |s| % 2 != 0
    ensures Decode(s).Ok? ==> |Decode(s).value| == |s| / 2
    ensures Decode(s).Err? && Decode(s).error.InvalidHexCharacter? ==>
      var InvalidHexCharacter(c, index) := Decode(s).error;
      index < |s| && s[index] == c && !IsHexDigit(c)
      && forall j :: 0 <= j < index ==> IsHexDigit(s[j])
  {
    if |s| % 2 == 0 {
      DecodePairsOkIff(s, 0);
    }
  }

  /** Byte k of a successful decode is digit 2k times 16 plus digit 2k + 1. */
  lemma {:induction false} DecodePairsAt(s: seq<char>, base: nat, k: nat)
    requires |s| % 2 == 0 && DecodePairs(s, base).Ok? && k < |s| / 2
    ensures DigitValue(s[2 * k]).Some? && DigitValue(s[2 * k + 1]).Some?
    ensures k < |DecodePairs(s, base).value|
    ensures DecodePairs(s, base).value[k]
            == DigitValue(s[2 * k]).value * 16 + DigitValue(s[2 * k + 1]).value
  {
    DecodePairsOkIff(s, base);
    if k > 0 {
      DecodePairsAt(s[2..], base + 2, k - 1);
    }
  }

  /** Encoding then decoding gives back the bytes. */
  lemma DecodeEncode(bytes: seq<byte>)
    ensures Decode(Encode(bytes)) == Ok(bytes)
  {
    DecodePairsEncode(bytes, 0);
  }

  lemma {:induction false} DecodePairsEncode(bytes: seq<byte>, base: nat)
    ensures DecodePairs(Encode(bytes), base) == Ok(bytes)
  {
    if bytes != [] {
      var s := Encode(bytes);
      assert s[2..] == Encode(bytes[1..]);
      DecodePairsEncode(bytes[1..], base + 2);
      assert [bytes[0]] + bytes[1..] == bytes;
    }
  }

  /** Decoding then encoding gives back the text, in lower case. */
  lemma EncodeDecode(s: seq<char>)
    requires Decode(s).Ok?
    ensures Encode(Decode(s).value) == ToLowerHex(s)
  {
    DecodeErrors(s);
    forall i | 0 <= i < |s| ensures Encode(Decode(s).value)[i] == ToLowerHex(s)[i] {
      EncodeDecodeAt(s, i);
    }
  }

  lemma EncodeDecodeAt(s: seq<char>, i: nat)
    requires Decode(s).Ok? && i < |s|
    ensures |Encode(Decode(s).value)| == |s|
    ensures Encode(Decode(s).value)[i] == ToLowerHex(s)[i]
  {
    DecodeErrors(s);
    var bytes := Decode(s).value;
    assert |Encode(bytes)| == |s|;
    var k := i / 2;
    DecodePairsAt(s, 0, k);
    EncodeAt(bytes, k);
    var e, t := Encode(bytes), ToLowerHex(s);
    EncodedDigit(s[2 * k], s[2 * k + 1], bytes[k]);
    var d := DigitValue(s[i]).value;
    assert e[i] == LowerDigit(d) by {
      if i != 2 * k {
        assert i == 2 * k + 1;
      }
    }
    LowerDigitUnique(e[i], t[i]);
  }

  /** The two digits written for a decoded byte read as the two digits it came from. */
  lemma EncodedDigit(a: char, b: char, x: byte)
    requires DigitValue(a).Some? && DigitValue(b).Some?
    requires x == DigitValue(a).value * 16 + DigitValue(b).value
    ensures LowerDigit(x / 16) == LowerDigit(DigitValue(a).value)
    ensures LowerDigit(x % 16) == LowerDigit(DigitValue(b).value)
  {
    Nibbles(DigitValue(a).value, DigitValue(b).value);
  }

  lemma Nibbles(hi: nat, lo: nat)
    requires hi < 16 && lo < 16
    ensures (hi * 16 + lo) / 16 == hi && (hi * 16 + lo) % 16 == lo
  {
  }

  /** Characters 2k and 2k + 1 of an encoding are the nibbles of byte k. */
  lemma {:induction false} EncodeAt(bytes: seq<byte>, k: nat)
    requires k < |bytes|
    ensures Encode(bytes)[2 * k] == LowerDigit(bytes[k] / 16)
    ensures Encode(bytes)[2 * k + 1] == LowerDigit(bytes[k] % 16)
  {
    if k > 0 {
      EncodeAt(bytes[1..], k - 1);
    }
  }

  /** Two characters without upper-case letters that read as the same digit are equal. */
  lemma LowerDigitUnique(a: char, b: char)
    requires DigitValue(a).Some? && DigitValue(a) == DigitValue(b)
    requires !('A' <= a <= 'F') && !('A' <= b <= 'F')
    ensures a == b
  {
  }
}
