/** The worker's `hexToBytes`: it turns the hex-encoded public key and
    signature header into bytes, two characters per byte, on any input
    string of characters from the Basic Multilingual Plane, well-formed or
    not. A character of the model stands for one UTF-16 code unit of
    JavaScript's `length` and `substr`; characters outside that plane, which
    JavaScript counts as two units, are not modelled. */
module Hex {
  import opened Text

  newtype byte = x: int | 0 <= x < 256

  predicate IsHexDigit(c: char) {
    ('0' <= c <= '9') || ('a' <= c <= 'f') || ('A' <= c <= 'F')
  }

  /** What `parseInt(c, 16)` gives for a single hex digit of either case. */
  function HexValue(c: char): (v: nat)
    requires IsHexDigit(c)
    ensures v < 16
  {
    if '0' <= c <= '9' then c as int - '0' as int
    else if 'a' <= c <= 'f' then c as int - 'a' as int + 10
    else c as int - 'A' as int + 10
  }

  /** Input of the expected shape: an even number of hex digits. */
  predicate IsHexString(hex: string) {
    |hex| % 2 == 0 && forall k :: 0 <= k < |hex| ==> IsHexDigit(hex[k])
  }

  /** The characters `parseInt` skips before a number: ECMAScript's
      WhiteSpace and LineTerminator. */
  predicate IsJsSpace(c: char) {
    || c == '\t' || c == '\n' || c == '\U{000B}' || c == '\U{000C}' || c == '\r' || c == ' '
    || c == '\U{00A0}' || c == '\U{1680}' || ('\U{2000}' <= c <= '\U{200A}') || c == '\U{2028}'
    || c == '\U{2029}' || c == '\U{202F}' || c == '\U{205F}' || c == '\U{3000}' || c == '\U{FEFF}'
  }

  /** `parseInt(a + b, 16)` stored into a `Uint8Array` element: leading
      whitespace and one sign are skipped, the longest run of hex digits is
      read, no digits at all gives `NaN`, which is stored as 0, and a
      negative value is stored modulo 256. A "0x" prefix leaves no digits
      in two characters, so it also gives 0. */
  function ParsePair(a: char, b: char): (v: byte)
    ensures IsHexDigit(a) && IsHexDigit(b) ==> v as int == 16 * HexValue(a) + HexValue(b)
    ensures IsHexDigit(a) && !IsHexDigit(b) ==> v as int == HexValue(a)
    ensures !IsHexDigit(b) && !IsHexDigit(a) ==> v == 0
    ensures !IsHexDigit(a) && !IsJsSpace(a) && a != '+' && a != '-' ==> v == 0
  {
    if IsHexDigit(a) then
      if IsHexDigit(b) then (16 * HexValue(a) + HexValue(b)) as byte else HexValue(a) as byte
    else if (IsJsSpace(a) || a == '+') && IsHexDigit(b) then HexValue(b) as byte
    else if a == '-' && IsHexDigit(b) then ((256 - HexValue(b)) % 256) as byte
    else 0
  }

  /** `hexToBytes`: a `Uint8Array` of `hex.length / 2` elements (rounded
      down), element `k` parsed from characters `2k` and `2k+1`. With an odd
      length the last character would land one past the end of the array,
      where the write is ignored. */
  function HexToBytes(hex: string): (bytes: seq<byte>)
    ensures |bytes| == |hex| / 2
    decreases |hex|
  {
    if |hex| < 2 then []
    else [ParsePair(hex[0], hex[1])] + HexToBytes(hex[2..])
  }

  /** Byte `i` is parsed from characters `2i` and `2i+1`, whatever else the string holds. */
  lemma {:induction false} HexToBytesAt(hex: string, i: nat)
    requires i < |hex| / 2
    ensures HexToBytes(hex)[i] == ParsePair(hex[2 * i], hex[2 * i + 1])
    decreases i
  {
    if i > 0 {
      var tail := hex[2..];
      HexToBytesAt(tail, i - 1);
      assert tail[2 * (i - 1)] == hex[2 * i] && tail[2 * (i - 1) + 1] == hex[2 * i + 1];
    }
  }

  /** On hex digits, byte `i` is the two-digit value of characters `2i` and `2i+1`. */
  lemma HexToBytesValue(hex: string, i: nat)
    requires IsHexString(hex)
    requires i < |hex| / 2
    ensures HexToBytes(hex)[i] as int == 16 * HexValue(hex[2 * i]) + HexValue(hex[2 * i + 1])
  {
    HexToBytesAt(hex, i);
  }

  /** A trailing character of an odd-length input is dropped. */
  lemma {:induction false} TrailingCharIgnored(hex: string, c: char)
    requires |hex| % 2 == 0
    ensures HexToBytes(hex + [c]) == HexToBytes(hex)
    decreases |hex|
  {
    if |hex| >= 2 {
      assert (hex + [c])[2..] == hex[2..] + [c];
      assert (hex + [c])[0] == hex[0] && (hex + [c])[1] == hex[1];
      TrailingCharIgnored(hex[2..], c);
    } else {
      assert |hex + [c]| == 1;
    }
  }

  /** Malformed input never fails: no digits give 0, a minus sign wraps
      modulo 256, and a lone character gives no byte. */
  lemma MalformedInput()
    ensures HexToBytes("zz") == [0]
    ensures HexToBytes("-1") == [255]
    ensures HexToBytes("7g") == [7]
    ensures HexToBytes("f") == []
  {
    assert HexToBytes("zz") == [ParsePair('z', 'z')] + HexToBytes("");
    assert HexToBytes("-1") == [ParsePair('-', '1')] + HexToBytes("");
    assert HexToBytes("7g") == [ParsePair('7', 'g')] + HexToBytes("");
  }

  /** The lower-case hex digit of a value below 16. */
  function HexDigit(v: nat): (c: char)
    requires v < 16
    ensures IsHexDigit(c) && HexValue(c) == v
    ensures c == LowerChar(c)
  {
    if v < 10 then ('0' as int + v) as char else ('a' as int + v - 10) as char
  }

  /** The inverse encoding: two lower-case hex digits per byte, high nibble first. */
  function BytesToHex(bytes: seq<byte>): (hex: string)
    ensures IsHexString(hex)
    ensures |hex| == 2 * |bytes|
  {
    if bytes == [] then ""
    else
      var b := bytes[0] as int;
      [HexDigit(b / 16), HexDigit(b % 16)] + BytesToHex(bytes[1..])
  }

  /** Decoding an encoding gives back the bytes. */
  lemma {:induction false} DecodeEncode(bytes: seq<byte>)
    ensures HexToBytes(BytesToHex(bytes)) == bytes
  {
    if bytes != [] {
      DecodeEncode(bytes[1..]);
      var hex := BytesToHex(bytes);
      var b := bytes[0] as int;
      assert hex[2..] == BytesToHex(bytes[1..]);
      DecodeHead(hex);
      var hi, lo := HexValue(hex[0]), HexValue(hex[1]);
      assert hi == b / 16 && lo == b % 16;
      assert 16 * hi + lo == b;
      calc {
        HexToBytes(hex);
        [ParsePair(hex[0], hex[1])] + HexToBytes(hex[2..]);
        [bytes[0]] + HexToBytes(hex[2..]);
        [bytes[0]] + HexToBytes(BytesToHex(bytes[1..]));
        [bytes[0]] + bytes[1..];
        bytes;
      }
    }
  }

  /** The first byte comes from the first two characters and the rest from the rest. */
  lemma DecodeHead(hex: string)
    requires |hex| >= 2
    ensures HexToBytes(hex) == [ParsePair(hex[0], hex[1])] + HexToBytes(hex[2..])
  {
  }

  /** Encoding a decoding gives back the input, lower-cased: `parseInt`
      accepts both cases, so upper-case digits are the only thing lost. */
  lemma {:induction false} EncodeDecode(hex: string)
    requires IsHexString(hex)
    ensures BytesToHex(HexToBytes(hex)) == AsciiLower(hex)
    decreases |hex|
  {
    if hex != "" {
      assert IsHexString(hex[2..]) by {
        assert forall k :: 0 <= k < |hex| - 2 ==> hex[2..][k] == hex[k + 2];
      }
      EncodeDecode(hex[2..]);
      DecodeHead(hex);
      var b := HexToBytes(hex)[0] as int;
      HexDigitLower(hex[0]);
      HexDigitLower(hex[1]);
      assert HexToBytes(hex)[1..] == HexToBytes(hex[2..]);
      assert b / 16 == HexValue(hex[0]) && b % 16 == HexValue(hex[1]);
      assert AsciiLower(hex) == [LowerChar(hex[0]), LowerChar(hex[1])] + AsciiLower(hex[2..]);
    }
  }

  lemma HexDigitLower(c: char)
    requires IsHexDigit(c)
    ensures HexDigit(HexValue(c)) == LowerChar(c)
  {
  }
}
