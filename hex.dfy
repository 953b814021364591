/**
 * Hexadecimal text as the extractor finds it and as `Buffer.from(s, "hex")`
 * turns it into key and IV bytes (downloadSignedUrls.mjs, decryptMangaPage).
 */
module Hex {
  type Byte = b: int | 0 <= b < 256

  /** The character class `[a-f0-9]` of both secret patterns. */
  predicate IsLowerHexDigit(c: char) {
    ('0' <= c <= '9') || ('a' <= c <= 'f')
  }

  predicate IsLowerHex(s: string) {
    forall i | 0 <= i < |s| :: IsLowerHexDigit(s[i])
  }

  /** A digit Node's hex decoder accepts: either letter case. */
  predicate IsHexDigit(c: char) {
    ('0' <= c <= '9') || ('a' <= c <= 'f') || ('A' <= c <= 'F')
  }

  function HexDigitValue(c: char): (v: nat)
    requires IsHexDigit(c)
    ensures v < 16
  {
    if '0' <= c <= '9' then c as int - '0' as int
    else if 'a' <= c <= 'f' then c as int - 'a' as int + 10
    else c as int - 'A' as int + 10
  }

  /**
   * `Buffer.from(s, "hex")`: reads the text two digits at a time and stops,
   * without an error, at the first pair that is not two hex digits; an odd
   * trailing digit is dropped.
   */
  function HexDecode(s: string): (bytes: seq<Byte>)
    ensures |bytes| <= |s| / 2
    decreases |s|
  {
    if |s| < 2 || !IsHexDigit(s[0]) || !IsHexDigit(s[1]) then []
    else [HexDigitValue(s[0]) * 16 + HexDigitValue(s[1])] + HexDecode(s[2..])
  }

  function LowerHexDigit(v: nat): (c: char)
    requires v < 16
    ensures IsLowerHexDigit(c) && HexDigitValue(c) == v
  {
    if v < 10 then ('0' as int + v) as char else ('a' as int + v - 10) as char
  }

  /** Reference encoder: two lower-case digits per byte, high nibble first. */
  function HexEncode(bytes: seq<Byte>): (s: string)
    ensures |s| == 2 * |bytes| && IsLowerHex(s)
  {
    if bytes == [] then []
    else [LowerHexDigit(bytes[0] / 16), LowerHexDigit(bytes[0] % 16)] + HexEncode(bytes[1..])
  }

  /** Lower-case hex of even length decodes completely: one byte per two digits. */
  lemma {:induction false} HexDecodeLength(s: string)
    requires IsLowerHex(s) && |s| % 2 == 0
    ensures |HexDecode(s)| == |s| / 2
    decreases |s|
  {
    if |s| >= 2 {
      assert IsLowerHexDigit(s[0]) && IsLowerHexDigit(s[1]);
      assert IsLowerHex(s[2..]) by {
        forall i | 0 <= i < |s| - 2 ensures IsLowerHexDigit(s[2..][i]) {
          assert s[2..][i] == s[i + 2];
        }
      }
      HexDecodeLength(s[2..]);
    }
  }

  /** Decoding undoes encoding. */
  lemma {:induction false} HexDecodeEncode(bytes: seq<Byte>)
    ensures HexDecode(HexEncode(bytes)) == bytes
  {
    if bytes != [] {
      var s := HexEncode(bytes);
      var hi, lo := LowerHexDigit(bytes[0] / 16), LowerHexDigit(bytes[0] % 16);
      assert s[0] == hi && s[1] == lo && s[2..] == HexEncode(bytes[1..]);
      HexDecodeEncode(bytes[1..]);
      assert HexDigitValue(hi) * 16 + HexDigitValue(lo) == bytes[0];
    }
  }

  /** Encoding a decoded lower-case hex string of even length gives it back. */
  lemma {:induction false} HexEncodeDecode(s: string)
    requires IsLowerHex(s) && |s| % 2 == 0
    ensures HexEncode(HexDecode(s)) == s
    decreases |s|
  {
    if |s| >= 2 {
      assert IsLowerHexDigit(s[0]) && IsLowerHexDigit(s[1]);
      assert IsLowerHex(s[2..]) by {
        forall i | 0 <= i < |s| - 2 ensures IsLowerHexDigit(s[2..][i]) {
          assert s[2..][i] == s[i + 2];
        }
      }
      var hi, lo := HexDigitValue(s[0]), HexDigitValue(s[1]);
      var b: Byte := hi * 16 + lo;
      assert HexDecode(s) == [b] + HexDecode(s[2..]);
      assert b / 16 == hi && b % 16 == lo;
      LowerHexDigitOf(s[0]);
      LowerHexDigitOf(s[1]);
      HexEncodeDecode(s[2..]);
      assert s == [s[0], s[1]] + s[2..];
    }
  }

  /**
   * Decoding stops at the first pair that is not two hex digits: whatever
   * follows a well-formed even-length prefix from such a pair on is ignored.
   */
  lemma {:induction false} HexDecodeStopsAtInvalidPair(s: string, t: string)
    requires IsLowerHex(s) && |s| % 2 == 0
    requires |t| < 2 || !IsHexDigit(t[0]) || !IsHexDigit(t[1])
    ensures HexDecode(s + t) == HexDecode(s)
    decreases |s|
  {
    if |s| == 0 {
      assert s + t == t;
    } else {
      assert IsLowerHexDigit(s[0]) && IsLowerHexDigit(s[1]);
      assert IsLowerHex(s[2..]) by {
        forall i | 0 <= i < |s| - 2 ensures IsLowerHexDigit(s[2..][i]) {
          assert s[2..][i] == s[i + 2];
        }
      }
      assert (s + t)[2..] == s[2..] + t;
      HexDecodeStopsAtInvalidPair(s[2..], t);
    }
  }

  lemma LowerHexDigitOf(c: char)
    requires IsLowerHexDigit(c)
    ensures LowerHexDigit(HexDigitValue(c)) == c
  {
  }
}
