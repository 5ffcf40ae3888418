/**
 The payload encoder `b64_encode` of code.py: the UTF-8 bytes of a string
 (`str.encode()`), their base64url encoding, and a transposition of the first
 two 6-character blocks when that encoding has at least 12 characters.
 */
module Obfuscator {

  import opened Options
  import opened Base64Url

  /** Length below which the encoding is sent as it is. */
  const BlockSwapThreshold: nat := 12

  predicate IsAscii(s: string) {
    forall i :: 0 <= i < |s| ==> s[i] as int < 128
  }

  // The UTF-8 form of one Unicode scalar value (RFC 3629, section 3).
  function CodePointBytes(cp: int): (r: seq<byte>)
    requires 0 <= cp < 0x11_0000
    ensures 1 <= |r| <= 4
    ensures |r| == 1 <==> cp < 0x80
    ensures cp < 0x80 ==> r[0] as int == cp
  {
    if cp < 0x80 then [cp as byte]
    else if cp < 0x800 then [(0xC0 + cp / 64) as byte, (0x80 + cp % 64) as byte]
    else if cp < 0x1_0000 then
      [(0xE0 + cp / 4096) as byte, (0x80 + (cp / 64) % 64) as byte, (0x80 + cp % 64) as byte]
    else
      [ (0xF0 + cp / 262144) as byte, (0x80 + (cp / 4096) % 64) as byte,
        (0x80 + (cp / 64) % 64) as byte, (0x80 + cp % 64) as byte ]
  }

  /**
   Python's `s.encode()`: the UTF-8 bytes of `s`. Every character takes one
   to four bytes, and an ASCII string is its own byte sequence.
   */
  function Utf8(s: string): (r: seq<byte>)
    ensures |s| <= |r| <= 4 * |s|
    ensures IsAscii(s) ==> |r| == |s| && forall i :: 0 <= i < |s| ==> r[i] as int == s[i] as int
    decreases |s|
  {
    if s == [] then []
    else
      var head := CodePointBytes(s[0] as int);
      var tail := Utf8(s[1..]);
      assert IsAscii(s) ==> IsAscii(s[1..]);
      head + tail
  }

  /**
   The reordering applied to the encoding `e`: shorter than 12 characters it
   is kept; otherwise characters 6..12 come first, then 0..6, then the rest.
   */
  function SwapBlocks(e: seq<char>): (r: seq<char>)
    ensures |r| == |e| && multiset(r) == multiset(e)
    ensures |e| < BlockSwapThreshold ==> r == e
    ensures |e| >= BlockSwapThreshold ==> forall i :: 0 <= i < 6 ==> r[i] == e[i + 6] && r[i + 6] == e[i]
    ensures forall i :: BlockSwapThreshold <= i < |e| ==> r[i] == e[i]
  {
    if |e| < BlockSwapThreshold then e
    else
      var first, mid, rest := e[..6], e[6..12], e[12..];
      assert e == first + mid + rest;
      mid + first + rest
  }

  /** Swapping twice restores the encoding, so the swap is its own inverse. */
  lemma SwapBlocksInvolution(e: seq<char>)
    ensures SwapBlocks(SwapBlocks(e)) == e
  {
    if |e| >= BlockSwapThreshold {
      var m := SwapBlocks(e);
      assert m == e[6..12] + e[..6] + e[12..];
      assert m[..6] == e[6..12] && m[6..12] == e[..6] && m[12..] == e[12..];
      assert SwapBlocks(m) == m[6..12] + m[..6] + m[12..];
      assert e == e[..6] + e[6..12] + e[12..];
    }
  }

  /** The swap only moves characters, so it keeps a string of alphabet and pad characters one. */
  lemma SwapKeepsEncodingChars(e: seq<char>)
    requires forall i :: 0 <= i < |e| ==> IsAlphabetChar(e[i]) || e[i] == PadChar
    ensures forall i :: 0 <= i < |e| ==> IsAlphabetChar(SwapBlocks(e)[i]) || SwapBlocks(e)[i] == PadChar
  {
    var r := SwapBlocks(e);
    forall i | 0 <= i < |e|
      ensures IsAlphabetChar(r[i]) || r[i] == PadChar
    {
      if i < 6 && |e| >= BlockSwapThreshold {
        assert r[i] == e[i + 6];
      } else if i < 12 && |e| >= BlockSwapThreshold {
        assert r[i] == e[i - 6] by {
          assert r[(i - 6) + 6] == e[i - 6];
        }
      } else {
        assert r[i] == e[i];
      }
    }
  }

  /** Swapping the blocks of a swapped encoding back and decoding gives the encoded bytes. */
  lemma SwapBackDecodes(b: seq<byte>)
    ensures Decode(SwapBlocks(SwapBlocks(Encode(b)))) == Some(b)
  {
    SwapBlocksInvolution(Encode(b));
    DecodeEncode(b);
  }

  /**
   `b64_encode(s)`: the length is that of the plain base64url encoding of
   `s.encode()`, every character is from the alphabet or a pad, and swapping
   back and decoding gives back exactly the bytes of `s`.
   */
  function B64Encode(s: string): (r: string)
    ensures |r| == 4 * ((|Utf8(s)| + 2) / 3)
    ensures forall i :: 0 <= i < |r| ==> IsAlphabetChar(r[i]) || r[i] == PadChar
    ensures multiset(r) == multiset(Encode(Utf8(s)))
    ensures Decode(SwapBlocks(r)) == Some(Utf8(s))
  {
    var e := Encode(Utf8(s));
    SwapKeepsEncodingChars(e);
    SwapBackDecodes(Utf8(s));
    SwapBlocks(e)
  }

  /**
   The boundary sits at 6 input bytes: up to 6 bytes (at most 8 characters) the
   plain encoding E is returned; from 7 bytes on the result is
   E[6..12] + E[0..6] + E[12..].
   */
  lemma SwapBoundary(s: string)
    ensures var e := Encode(Utf8(s));
      && (|Utf8(s)| <= 6 <==> |e| < BlockSwapThreshold)
      && (|Utf8(s)| <= 6 ==> B64Encode(s) == e)
      && (|Utf8(s)| > 6 ==> B64Encode(s) == e[6..12] + e[..6] + e[12..])
  {
    var e := Encode(Utf8(s));
    var n := |Utf8(s)|;
    assert |e| == 4 * ((n + 2) / 3);
    if n > 6 {
      assert |e| >= BlockSwapThreshold;
      assert B64Encode(s) == SwapBlocks(e);
    }
  }

  /** For an ASCII string such as a coordinate pair, 4 characters per started 3 characters. */
  lemma AsciiLength(s: string)
    requires IsAscii(s)
    ensures |B64Encode(s)| == 4 * ((|s| + 2) / 3)
  {
  }

  /**
   With 7 to 9 bytes the encoding has exactly 12 characters, so its padding
   (characters 10 and 11 when there are 7 bytes) is moved to positions 4 and 5
   of the payload.
   */
  lemma SevenBytesMovePadding(s: string)
    requires |Utf8(s)| == 7
    ensures var r := B64Encode(s);
      |r| == 12 && r[4] == PadChar && r[5] == PadChar && IsAlphabetChar(r[11])
  {
    var e := Encode(Utf8(s));
    assert |e| == 12 && PadCount(7) == 2;
    assert e[10] == PadChar && e[11] == PadChar && IsAlphabetChar(e[5]);
  }
}
