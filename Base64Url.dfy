/**
 The "URL and Filename safe" base64 encoding of section 5 of RFC 4648, with
 `=` padding, as Python's `base64.urlsafe_b64encode` produces it, and a strict
 decoder that accepts exactly the strings the encoder can produce.

 The codec is written in the two steps of section 4 of RFC 4648: bytes are
 cut into 6-bit symbols (the value 64 standing for the pad), and each symbol
 is written as one character of the alphabet.
 */
module Base64Url {

  import opened Options

  newtype byte = x: int | 0 <= x < 256

  /** The symbol that is written as the pad character `=`. */
  const PadSymbol: int := 64
  const PadChar: char := '='

  predicate IsSextet(v: int) {
    0 <= v < 64
  }

  // ---------------------------------------------------------------------
  // Bytes and 6-bit symbols
  // ---------------------------------------------------------------------

  /** Number of pad symbols that end the encoding of `n` bytes. */
  function PadCount(n: nat): (p: nat)
    ensures p < 3 && (n + p) % 3 == 0
  {
    if n % 3 == 0 then 0 else 3 - n % 3
  }

  // One 24-bit group of three bytes becomes four sextets.
  function GroupSymbols(b0: byte, b1: byte, b2: byte): seq<int> {
    [ b0 as int / 4,
      (b0 as int % 4) * 16 + b1 as int / 16,
      (b1 as int % 16) * 4 + b2 as int / 64,
      b2 as int % 64 ]
  }

  // A final group of two bytes: three sextets (the last with two zero bits) and a pad.
  function Tail2Symbols(b0: byte, b1: byte): seq<int> {
    [ b0 as int / 4,
      (b0 as int % 4) * 16 + b1 as int / 16,
      (b1 as int % 16) * 4,
      PadSymbol ]
  }

  // A final group of one byte: two sextets (the last with four zero bits) and two pads.
  function Tail1Symbols(b0: byte): seq<int> {
    [ b0 as int / 4,
      (b0 as int % 4) * 16,
      PadSymbol, PadSymbol ]
  }

  /**
   The symbols of `b`: 4 per started group of 3 bytes, sextets first and then
   exactly `PadCount(|b|)` pads.
   */
  function Symbols(b: seq<byte>): (r: seq<int>)
    ensures |r| == 4 * ((|b| + 2) / 3)
    ensures forall i :: 0 <= i < |r| - PadCount(|b|) ==> IsSextet(r[i])
    ensures forall i :: |r| - PadCount(|b|) <= i < |r| ==> r[i] == PadSymbol
    decreases |b|
  {
    if |b| == 0 then []
    else if |b| == 1 then Tail1Symbols(b[0])
    else if |b| == 2 then Tail2Symbols(b[0], b[1])
    else
      var rest := Symbols(b[3..]);
      assert PadCount(|b|) == PadCount(|b| - 3);
      GroupSymbols(b[0], b[1], b[2]) + rest
  }

  // The three bytes carried by four sextets.
  function GroupBytes(v0: int, v1: int, v2: int, v3: int): seq<byte>
    requires IsSextet(v0) && IsSextet(v1) && IsSextet(v2) && IsSextet(v3)
  {
    [ (v0 * 4 + v1 / 16) as byte, ((v1 % 16) * 16 + v2 / 4) as byte, ((v2 % 4) * 64 + v3) as byte ]
  }

  /**
   The last group: four sextets, or three and a pad, or two and two pads. Bits
   that no byte carries must be zero.
   */
  function LastBytes(v: seq<int>): (r: Option<seq<byte>>)
    requires |v| == 4
  {
    if IsSextet(v[0]) && IsSextet(v[1]) && IsSextet(v[2]) && IsSextet(v[3]) then
      Some(GroupBytes(v[0], v[1], v[2], v[3]))
    else if IsSextet(v[0]) && IsSextet(v[1]) && IsSextet(v[2]) && v[3] == PadSymbol && v[2] % 4 == 0 then
      Some(GroupBytes(v[0], v[1], v[2], 0)[..2])
    else if IsSextet(v[0]) && IsSextet(v[1]) && v[2] == PadSymbol && v[3] == PadSymbol && v[1] % 16 == 0 then
      Some(GroupBytes(v[0], v[1], 0, 0)[..1])
    else
      None
  }

  /** The bytes a symbol sequence stands for; pads only in the last group. */
  function BytesOf(v: seq<int>): (r: Option<seq<byte>>)
    decreases |v|
  {
    if |v| == 0 then Some([])
    else if |v| < 4 then None
    else if |v| == 4 then LastBytes(v)
    else if IsSextet(v[0]) && IsSextet(v[1]) && IsSextet(v[2]) && IsSextet(v[3]) then
      match BytesOf(v[4..])
      case None => None
      case Some(tail) => Some(GroupBytes(v[0], v[1], v[2], v[3]) + tail)
    else
      None
  }

  // Re-splitting the three bytes built from four sextets gives back the sextets.
  lemma ResplitSextets(v0: int, v1: int, v2: int, v3: int)
    requires IsSextet(v0) && IsSextet(v1) && IsSextet(v2) && IsSextet(v3)
    ensures var x, y, z := v0 * 4 + v1 / 16, (v1 % 16) * 16 + v2 / 4, (v2 % 4) * 64 + v3;
      && x / 4 == v0
      && (x % 4) * 16 + y / 16 == v1
      && (y % 16) * 4 + z / 64 == v2
      && z % 64 == v3
  {
    var x, y, z := v0 * 4 + v1 / 16, (v1 % 16) * 16 + v2 / 4, (v2 % 4) * 64 + v3;
    assert x / 4 == v0 && x % 4 == v1 / 16;
    assert y / 16 == v1 % 16 && y % 16 == v2 / 4;
    assert z / 64 == v2 % 4 && z % 64 == v3;
  }

  // Joining the sextets of three bytes gives back the bytes.
  lemma RejoinBytes(b0: byte, b1: byte, b2: byte)
    ensures var v := GroupSymbols(b0, b1, b2);
      && IsSextet(v[0]) && IsSextet(v[1]) && IsSextet(v[2]) && IsSextet(v[3])
      && GroupBytes(v[0], v[1], v[2], v[3]) == [b0, b1, b2]
  {
    var x, y, z := b0 as int, b1 as int, b2 as int;
    assert (x / 4) * 4 + ((x % 4) * 16 + y / 16) / 16 == x;
    assert (((x % 4) * 16 + y / 16) % 16) * 16 + ((y % 16) * 4 + z / 64) / 4 == y;
    assert (((y % 16) * 4 + z / 64) % 4) * 64 + z % 64 == z;
  }

  lemma LastOfGroup(b0: byte, b1: byte, b2: byte)
    ensures LastBytes(GroupSymbols(b0, b1, b2)) == Some([b0, b1, b2])
  {
    RejoinBytes(b0, b1, b2);
  }

  lemma LastOfTail2(b0: byte, b1: byte)
    ensures LastBytes(Tail2Symbols(b0, b1)) == Some([b0, b1])
  {
    var x, y := b0 as int, b1 as int;
    var v := Tail2Symbols(b0, b1);
    assert (x / 4) * 4 + ((x % 4) * 16 + y / 16) / 16 == x;
    assert (((x % 4) * 16 + y / 16) % 16) * 16 + ((y % 16) * 4) / 4 == y;
    var g := GroupBytes(v[0], v[1], v[2], 0);
    assert g[0] == b0 && g[1] == b1;
    assert g[..2] == [b0, b1];
  }

  lemma LastOfTail1(b0: byte)
    ensures LastBytes(Tail1Symbols(b0)) == Some([b0])
  {
    var x := b0 as int;
    var v := Tail1Symbols(b0);
    assert (x / 4) * 4 + ((x % 4) * 16) / 16 == x;
    var g := GroupBytes(v[0], v[1], 0, 0);
    assert g[0] == b0;
    assert g[..1] == [b0];
  }

  // The group structure of `Symbols`, one case per length.
  lemma SymbolsShape(b: seq<byte>)
    ensures |b| == 1 ==> Symbols(b) == Tail1Symbols(b[0])
    ensures |b| == 2 ==> Symbols(b) == Tail2Symbols(b[0], b[1])
    ensures |b| == 3 ==> Symbols(b) == GroupSymbols(b[0], b[1], b[2])
    ensures |b| > 3 ==> Symbols(b) == GroupSymbols(b[0], b[1], b[2]) + Symbols(b[3..]) && |Symbols(b[3..])| >= 4
  {
    if |b| == 3 {
      assert Symbols(b[3..]) == [];
    }
  }

  // Reading a full leading group followed by a non-empty remainder.
  lemma BytesOfFront(g: seq<int>, rest: seq<int>)
    requires |g| == 4 && IsSextet(g[0]) && IsSextet(g[1]) && IsSextet(g[2]) && IsSextet(g[3])
    requires |rest| > 0
    ensures BytesOf(g + rest) == match BytesOf(rest)
                                 case None => None
                                 case Some(tail) => Some(GroupBytes(g[0], g[1], g[2], g[3]) + tail)
  {
    var v := g + rest;
    assert v[..4] == g && v[4..] == rest;
  }

  lemma BytesOfSymbolsStep(b: seq<byte>)
    requires |b| > 3
    requires BytesOf(Symbols(b[3..])) == Some(b[3..])
    ensures BytesOf(GroupSymbols(b[0], b[1], b[2]) + Symbols(b[3..])) == Some(b)
  {
    SymbolsShape(b);
    RejoinBytes(b[0], b[1], b[2]);
    BytesOfFront(GroupSymbols(b[0], b[1], b[2]), Symbols(b[3..]));
    assert [b[0], b[1], b[2]] + b[3..] == b;
  }

  /** Reading the symbols of `b` gives back `b`. */
  lemma {:induction false} BytesOfSymbols(b: seq<byte>)
    ensures BytesOf(Symbols(b)) == Some(b)
    decreases |b|
  {
    SymbolsShape(b);
    if |b| == 0 {
    } else if |b| == 1 {
      LastOfTail1(b[0]);
      assert b == [b[0]];
    } else if |b| == 2 {
      LastOfTail2(b[0], b[1]);
      assert b == [b[0], b[1]];
    } else if |b| == 3 {
      LastOfGroup(b[0], b[1], b[2]);
      assert b == [b[0], b[1], b[2]];
    } else {
      BytesOfSymbols(b[3..]);
      BytesOfSymbolsStep(b);
    }
  }

  lemma GroupOfBytes(v: seq<int>)
    requires |v| == 4 && IsSextet(v[0]) && IsSextet(v[1]) && IsSextet(v[2]) && IsSextet(v[3])
    ensures var r := GroupBytes(v[0], v[1], v[2], v[3]); GroupSymbols(r[0], r[1], r[2]) == v
  {
    ResplitSextets(v[0], v[1], v[2], v[3]);
  }

  lemma SymbolsOfOnePad(v: seq<int>)
    requires |v| == 4 && IsSextet(v[0]) && IsSextet(v[1]) && IsSextet(v[2]) && v[3] == PadSymbol && v[2] % 4 == 0
    ensures var r := GroupBytes(v[0], v[1], v[2], 0); Tail2Symbols(r[0], r[1]) == v
  {
    var r := GroupBytes(v[0], v[1], v[2], 0);
    var x, y := v[0] * 4 + v[1] / 16, (v[1] % 16) * 16 + v[2] / 4;
    ResplitSextets(v[0], v[1], v[2], 0);
    assert r[0] as int == x && r[1] as int == y;
    assert (y % 16) * 4 == v[2];
    assert Tail2Symbols(r[0], r[1]) == [v[0], v[1], v[2], PadSymbol];
  }

  lemma SymbolsOfTwoPads(v: seq<int>)
    requires |v| == 4 && IsSextet(v[0]) && IsSextet(v[1]) && v[2] == PadSymbol && v[3] == PadSymbol && v[1] % 16 == 0
    ensures var r := GroupBytes(v[0], v[1], 0, 0); Tail1Symbols(r[0]) == v
  {
    var r := GroupBytes(v[0], v[1], 0, 0);
    var x := v[0] * 4 + v[1] / 16;
    ResplitSextets(v[0], v[1], 0, 0);
    assert r[0] as int == x;
    assert (x % 4) * 16 == v[1];
    assert Tail1Symbols(r[0]) == [v[0], v[1], PadSymbol, PadSymbol];
  }

  lemma SymbolsOfLast(v: seq<int>, b: seq<byte>)
    requires |v| == 4 && LastBytes(v) == Some(b)
    ensures Symbols(b) == v
  {
    SymbolsShape(b);
    if IsSextet(v[0]) && IsSextet(v[1]) && IsSextet(v[2]) && IsSextet(v[3]) {
      GroupOfBytes(v);
    } else if IsSextet(v[0]) && IsSextet(v[1]) && IsSextet(v[2]) && v[3] == PadSymbol && v[2] % 4 == 0 {
      SymbolsOfOnePad(v);
    } else {
      SymbolsOfTwoPads(v);
    }
  }

  /** Every symbol sequence that reads as `b` is the symbol sequence of `b`. */
  lemma {:induction false} SymbolsOfBytes(v: seq<int>, b: seq<byte>)
    requires BytesOf(v) == Some(b)
    ensures Symbols(b) == v
    decreases |v|
  {
    if |v| == 0 {
    } else if |v| == 4 {
      SymbolsOfLast(v, b);
    } else {
      var tail := BytesOf(v[4..]).value;
      var g := GroupBytes(v[0], v[1], v[2], v[3]);
      SymbolsOfBytes(v[4..], tail);
      GroupOfBytes(v[..4]);
      SymbolsShape(g + tail);
      assert (g + tail)[3..] == tail;
      assert v[..4] + v[4..] == v;
    }
  }

  // ---------------------------------------------------------------------
  // Symbols and characters
  // ---------------------------------------------------------------------

  /** The 64 characters of the URL and Filename safe alphabet. */
  predicate IsAlphabetChar(c: char) {
    ('A' <= c <= 'Z') || ('a' <= c <= 'z') || ('0' <= c <= '9') || c == '-' || c == '_'
  }

  predicate IsEncodingChar(c: char) {
    IsAlphabetChar(c) || c == PadChar
  }

  /** The character for the 6-bit value `v`: A-Z, a-z, 0-9, then `-` and `_`. */
  function CharOf(v: int): (c: char)
    requires IsSextet(v)
    ensures IsAlphabetChar(c)
  {
    if v < 26 then ('A' as int + v) as char
    else if v < 52 then ('a' as int + (v - 26)) as char
    else if v < 62 then ('0' as int + (v - 52)) as char
    else if v == 62 then '-'
    else '_'
  }

  /** The 6-bit value an alphabet character stands for. */
  function ValueOf(c: char): (v: int)
    requires IsAlphabetChar(c)
    ensures IsSextet(v)
  {
    if 'A' <= c <= 'Z' then c as int - 'A' as int
    else if 'a' <= c <= 'z' then c as int - 'a' as int + 26
    else if '0' <= c <= '9' then c as int - '0' as int + 52
    else if c == '-' then 62
    else 63
  }

  lemma ValueOfCharOf(v: int)
    requires IsSextet(v)
    ensures ValueOf(CharOf(v)) == v
  {
  }

  lemma CharOfValueOf(c: char)
    requires IsAlphabetChar(c)
    ensures CharOf(ValueOf(c)) == c
  {
  }

  function SymbolChar(v: int): (c: char)
    requires IsSextet(v) || v == PadSymbol
    ensures IsEncodingChar(c)
  {
    if v == PadSymbol then PadChar else CharOf(v)
  }

  function CharSymbol(c: char): (v: int)
    requires IsEncodingChar(c)
    ensures IsSextet(v) || v == PadSymbol
  {
    if c == PadChar then PadSymbol else ValueOf(c)
  }

  predicate AreSymbols(v: seq<int>) {
    forall i :: 0 <= i < |v| ==> IsSextet(v[i]) || v[i] == PadSymbol
  }

  predicate AreEncodingChars(s: seq<char>) {
    forall i :: 0 <= i < |s| ==> IsEncodingChar(s[i])
  }

  function ToChars(v: seq<int>): (s: seq<char>)
    requires AreSymbols(v)
  {
    seq(|v|, i requires 0 <= i < |v| => SymbolChar(v[i]))
  }

  function ToSymbols(s: seq<char>): (v: seq<int>)
    requires AreEncodingChars(s)
  {
    seq(|s|, i requires 0 <= i < |s| => CharSymbol(s[i]))
  }

  lemma ToSymbolsToChars(v: seq<int>)
    requires AreSymbols(v)
    ensures AreEncodingChars(ToChars(v)) && ToSymbols(ToChars(v)) == v
  {
    forall i | 0 <= i < |v| ensures CharSymbol(SymbolChar(v[i])) == v[i] {
      if v[i] != PadSymbol {
        ValueOfCharOf(v[i]);
      }
    }
  }

  lemma ToCharsToSymbols(s: seq<char>)
    requires AreEncodingChars(s)
    ensures AreSymbols(ToSymbols(s)) && ToChars(ToSymbols(s)) == s
  {
    forall i | 0 <= i < |s| ensures SymbolChar(CharSymbol(s[i])) == s[i] {
      if s[i] != PadChar {
        CharOfValueOf(s[i]);
      }
    }
  }

  // ---------------------------------------------------------------------
  // The codec
  // ---------------------------------------------------------------------

  /**
   The base64url encoding of `b`: 4 characters per started group of 3 bytes,
   alphabet characters first and then exactly `PadCount(|b|)` pads.
   */
  function Encode(b: seq<byte>): (r: seq<char>)
    ensures |r| == 4 * ((|b| + 2) / 3)
    ensures forall i :: 0 <= i < |r| - PadCount(|b|) ==> IsAlphabetChar(r[i])
    ensures forall i :: |r| - PadCount(|b|) <= i < |r| ==> r[i] == PadChar
  {
    ToChars(Symbols(b))
  }

  /**
   Strict decoding: only alphabet and pad characters, the length a multiple of
   4, padding only at the end of the last group, no stray bits. `None` for
   anything else.
   */
  function Decode(s: seq<char>): (r: Option<seq<byte>>) {
    if AreEncodingChars(s) then BytesOf(ToSymbols(s)) else None
  }

  /** Decoding inverts encoding, for every byte sequence. */
  lemma DecodeEncode(b: seq<byte>)
    ensures Decode(Encode(b)) == Some(b)
  {
    ToSymbolsToChars(Symbols(b));
    BytesOfSymbols(b);
  }

  /** Every string the strict decoder accepts is the encoding of what it decodes to. */
  lemma EncodeDecode(s: seq<char>, b: seq<byte>)
    requires Decode(s) == Some(b)
    ensures Encode(b) == s
  {
    SymbolsOfBytes(ToSymbols(s), b);
    ToCharsToSymbols(s);
  }

  /** The test vectors "f", "fo" and "foo" of section 10 of RFC 4648. */
  lemma ShortTestVectors()
    ensures Encode([]) == ""
    ensures Encode([0x66]) == "Zg=="
    ensures Encode([0x66, 0x6f]) == "Zm8="
    ensures Encode([0x66, 0x6f, 0x6f]) == "Zm9v"
  {
  }

  /** The test vector "foob" of section 10 of RFC 4648. */
  lemma FoobTestVector()
    ensures Encode([0x66, 0x6f, 0x6f, 0x62]) == "Zm9vYg=="
  {
    assert Symbols([0x66, 0x6f, 0x6f, 0x62]) == [25, 38, 61, 47, 24, 32, PadSymbol, PadSymbol];
  }

  /** The test vector "fooba" of section 10 of RFC 4648. */
  lemma FoobaTestVector()
    ensures Encode([0x66, 0x6f, 0x6f, 0x62, 0x61]) == "Zm9vYmE="
  {
    assert Symbols([0x66, 0x6f, 0x6f, 0x62, 0x61]) == [25, 38, 61, 47, 24, 38, 4, PadSymbol];
  }

  /** The test vector "foobar" of section 10 of RFC 4648. */
  lemma FoobarTestVector()
    ensures Encode([0x66, 0x6f, 0x6f, 0x62, 0x61, 0x72]) == "Zm9vYmFy"
  {
    assert Symbols([0x66, 0x6f, 0x6f, 0x62, 0x61, 0x72]) == [25, 38, 61, 47, 24, 38, 5, 50];
  }

  /** The two characters in which the URL-safe alphabet differs from the standard one. */
  lemma UrlSafeTestVector()
    ensures Encode([0xfb, 0xff, 0xbf]) == "-_-_"
  {
  }

  /** Distinct byte sequences have distinct encodings. */
  lemma EncodeInjective(a: seq<byte>, b: seq<byte>)
    requires Encode(a) == Encode(b)
    ensures a == b
  {
    DecodeEncode(a);
    DecodeEncode(b);
  }
}
