/**
 * UTF-8 as Python's strict 'utf-8' codec reads it: exactly the byte
 * sequences of the grammar in section 4 of RFC 3629 (no overlong forms, no
 * surrogates, nothing above U+10FFFF). `bytes.decode('utf-8')` raises
 * UnicodeDecodeError on anything else. Also the 'ascii' codec, which accepts
 * only bytes below 0x80.
 */
module Utf8 {
  import opened Values

  predicate IsTail(b: byte) { 0x80 <= b <= 0xBF }

  /** One UTF8-char of the RFC 3629 grammar (UTF8-1 to UTF8-4). */
  predicate IsEncodedChar(c: seq<byte>) {
    || (|c| == 1 && c[0] <= 0x7F)
    || (|c| == 2 && 0xC2 <= c[0] <= 0xDF && IsTail(c[1]))
    || (|c| == 3 && IsTail(c[2]) &&
          ((c[0] == 0xE0 && 0xA0 <= c[1] <= 0xBF)
           || (0xE1 <= c[0] <= 0xEC && IsTail(c[1]))
           || (c[0] == 0xED && 0x80 <= c[1] <= 0x9F)
           || (0xEE <= c[0] <= 0xEF && IsTail(c[1]))))
    || (|c| == 4 && IsTail(c[2]) && IsTail(c[3]) &&
          ((c[0] == 0xF0 && 0x90 <= c[1] <= 0xBF)
           || (0xF1 <= c[0] <= 0xF3 && IsTail(c[1]))
           || (c[0] == 0xF4 && 0x80 <= c[1] <= 0x8F)))
  }

  /** How many bytes the character introduced by `lead` occupies; 0 when no character starts with it. */
  function SequenceLength(lead: byte): (n: nat)
    ensures n <= 4
  {
    if lead <= 0x7F then 1
    else if 0xC2 <= lead <= 0xDF then 2
    else if 0xE0 <= lead <= 0xEF then 3
    else if 0xF0 <= lead <= 0xF4 then 4
    else 0
  }

  /** The bytes are a sequence of UTF8-chars: what `decode('utf-8')` accepts. */
  predicate WellFormed(s: seq<byte>)
    decreases |s|
  {
    s == [] ||
    var n := SequenceLength(s[0]);
    0 < n <= |s| && IsEncodedChar(s[..n]) && WellFormed(s[n..])
  }

  /** A Unicode scalar value: what a Python string decoded from UTF-8 can hold. */
  predicate IsScalar(cp: int) {
    (0 <= cp < 0xD800) || (0xE000 <= cp < 0x110000)
  }

  /** The six payload bits of a continuation byte. */
  function Low6(b: byte): int { b as int - 0x80 }

  /** The code point one UTF8-char stands for. */
  function CodePoint(c: seq<byte>): (cp: int)
    requires IsEncodedChar(c)
    ensures IsScalar(cp)
    ensures SequenceLength(c[0]) == |c|
  {
    var b0: int := c[0];
    if |c| == 1 then b0
    else if |c| == 2 then (b0 - 0xC0) * 64 + Low6(c[1])
    else if |c| == 3 then (b0 - 0xE0) * 4096 + Low6(c[1]) * 64 + Low6(c[2])
    else (b0 - 0xF0) * 262144 + Low6(c[1]) * 4096 + Low6(c[2]) * 64 + Low6(c[3])
  }

  /** `bytes.decode('utf-8')` on bytes it accepts. */
  function Decode(s: seq<byte>): string
    requires WellFormed(s)
    decreases |s|
  {
    if s == [] then []
    else
      var n := SequenceLength(s[0]);
      [CodePoint(s[..n]) as char] + Decode(s[n..])
  }

  /** The shortest UTF8-char for a character (`str.encode('utf-8')`). */
  function EncodeChar(ch: char): (c: seq<byte>)
    ensures IsEncodedChar(c) && CodePoint(c) == ch as int
  {
    var cp := ch as int;
    var q := cp / 64;
    if cp < 0x80 then [cp]
    else if cp < 0x800 then [0xC0 + q, 0x80 + cp % 64]
    else if cp < 0x10000 then [0xE0 + q / 64, 0x80 + q % 64, 0x80 + cp % 64]
    else
      var qq := q / 64;
      [0xF0 + qq / 64, 0x80 + qq % 64, 0x80 + q % 64, 0x80 + cp % 64]
  }

  function Encode(s: string): seq<byte>
    decreases |s|
  {
    if s == [] then [] else EncodeChar(s[0]) + Encode(s[1..])
  }

  /** Encoding a string gives bytes the strict decoder accepts, and decoding them gives the string back. */
  lemma {:induction false} DecodeEncode(s: string)
    ensures WellFormed(Encode(s)) && Decode(Encode(s)) == s
    decreases |s|
  {
    if s != [] {
      DecodeEncode(s[1..]);
      var c, t := EncodeChar(s[0]), Encode(s[1..]);
      var e := c + t;
      assert e == Encode(s);
      assert SequenceLength(e[0]) == |c|;
      assert e[..|c|] == c && e[|c|..] == t;
      assert (CodePoint(c) as char) == s[0];
      assert s == [s[0]] + s[1..];
    }
  }

  /** A UTF8-char is the encoding of the code point it stands for: no character has two encodings. */
  lemma EncodeCodePoint(c: seq<byte>)
    requires IsEncodedChar(c)
    ensures EncodeChar(CodePoint(c) as char) == c
  {
    if |c| == 2 {
      EncodeTwo(c);
    } else if |c| == 3 {
      EncodeThree(c);
    } else if |c| == 4 {
      EncodeFour(c);
    }
  }

  lemma SplitSix(hi: int, lo: int)
    requires 0 <= lo < 64
    ensures (hi * 64 + lo) / 64 == hi && (hi * 64 + lo) % 64 == lo
  {
  }

  lemma EncodeTwo(c: seq<byte>)
    requires IsEncodedChar(c) && |c| == 2
    ensures EncodeChar(CodePoint(c) as char) == c
  {
    SplitSix(c[0] as int - 0xC0, Low6(c[1]));
  }

  lemma EncodeThree(c: seq<byte>)
    requires IsEncodedChar(c) && |c| == 3
    ensures EncodeChar(CodePoint(c) as char) == c
  {
    var q := (c[0] as int - 0xE0) * 64 + Low6(c[1]);
    SplitSix(q, Low6(c[2]));
    SplitSix(c[0] as int - 0xE0, Low6(c[1]));
    assert CodePoint(c) == q * 64 + Low6(c[2]);
  }

  lemma EncodeFour(c: seq<byte>)
    requires IsEncodedChar(c) && |c| == 4
    ensures EncodeChar(CodePoint(c) as char) == c
  {
    var qq := (c[0] as int - 0xF0) * 64 + Low6(c[1]);
    var q := qq * 64 + Low6(c[2]);
    SplitSix(q, Low6(c[3]));
    SplitSix(qq, Low6(c[2]));
    SplitSix(c[0] as int - 0xF0, Low6(c[1]));
    assert CodePoint(c) == q * 64 + Low6(c[3]);
  }

  /** Decoding loses nothing: accepted bytes are the encoding of their decoding. */
  lemma {:induction false} EncodeDecode(s: seq<byte>)
    requires WellFormed(s)
    ensures Encode(Decode(s)) == s
    decreases |s|
  {
    if s != [] {
      var n := SequenceLength(s[0]);
      EncodeDecode(s[n..]);
      EncodeCodePoint(s[..n]);
      assert s == s[..n] + s[n..];
    }
  }

  /** `decode('ascii')` accepts exactly the bytes below 0x80. */
  predicate IsAscii(s: seq<byte>) {
    forall i | 0 <= i < |s| :: s[i] < 0x80
  }

  /** `bytes.decode('ascii')` on bytes it accepts: one character per byte. */
  function AsciiDecode(s: seq<byte>): (r: string)
    requires IsAscii(s)
    ensures |r| == |s| && forall i | 0 <= i < |s| :: r[i] as int == s[i]
  {
    seq(|s|, i requires 0 <= i < |s| => s[i] as char)
  }

  /** ASCII is a subset of UTF-8: bytes the ASCII codec accepts are accepted, and read alike, by the UTF-8 codec. */
  lemma {:induction false} AsciiIsUtf8(s: seq<byte>)
    requires IsAscii(s)
    ensures WellFormed(s) && Decode(s) == AsciiDecode(s)
    decreases |s|
  {
    if s != [] {
      assert IsAscii(s[1..]) by {
        forall i | 0 <= i < |s| - 1 ensures s[1..][i] < 0x80 { assert s[1..][i] == s[i + 1]; }
      }
      AsciiIsUtf8(s[1..]);
      assert s[..1] == [s[0]];
    }
  }
}
