/**
 * Strict base64 (the alphabet and padding of section 4 of RFC 4648), as
 * `pybase64.b64decode(content, validate=True)` applies it to a document's
 * `content` field: any character outside the alphabet, a length that is not a
 * multiple of four, or padding anywhere but at the end of the last quantum
 * raises `binascii.Error`, which the model reports as `None`.
 */
module Base64 {
  import opened Wrappers
  import opened Values

  /** The 64 characters of the base64 alphabet (RFC 4648, Table 1). */
  predicate IsAlphabetChar(c: char) {
    ('A' <= c <= 'Z') || ('a' <= c <= 'z') || ('0' <= c <= '9') || c == '+' || c == '/'
  }

  /** The 6-bit value a character of the alphabet stands for. */
  function IndexOf(c: char): (v: nat)
    requires IsAlphabetChar(c)
    ensures v < 64
  {
    if 'A' <= c <= 'Z' then c as int - 'A' as int
    else if 'a' <= c <= 'z' then c as int - 'a' as int + 26
    else if '0' <= c <= '9' then c as int - '0' as int + 52
    else if c == '+' then 62
    else 63
  }

  /** The character of the alphabet for a 6-bit value: the inverse of IndexOf. */
  function CharOf(v: nat): (c: char)
    requires v < 64
    ensures IsAlphabetChar(c) && IndexOf(c) == v
  {
    if v < 26 then ('A' as int + v) as char
    else if v < 52 then ('a' as int + (v - 26)) as char
    else if v < 62 then ('0' as int + (v - 52)) as char
    else if v == 62 then '+'
    else '/'
  }

  /**
   * What strict validation accepts: whole 4-character quanta, alphabet
   * characters everywhere except that the last quantum may end in "=" or "==".
   */
  predicate WellFormed(s: string) {
    && |s| % 4 == 0
    && (forall i | 0 <= i < |s| - 2 :: IsAlphabetChar(s[i]))
    && (|s| >= 4 ==>
          && (IsAlphabetChar(s[|s| - 2]) || (s[|s| - 2] == '=' && s[|s| - 1] == '='))
          && (IsAlphabetChar(s[|s| - 1]) || s[|s| - 1] == '='))
  }

  predicate IsFullQuantum(q: string) {
    |q| == 4 && IsAlphabetChar(q[0]) && IsAlphabetChar(q[1]) && IsAlphabetChar(q[2]) && IsAlphabetChar(q[3])
  }

  /** The first, second and third byte of a quantum of sextets a, b, c, d. */
  function Byte0(a: nat, b: nat): byte requires a < 64 && b < 64 { a * 4 + b / 16 }
  function Byte1(b: nat, c: nat): byte requires b < 64 && c < 64 { (b % 16) * 16 + c / 4 }
  function Byte2(c: nat, d: nat): byte requires c < 64 && d < 64 { (c % 4) * 64 + d }

  function DecodeFullQuantum(q: string): (r: seq<byte>)
    requires IsFullQuantum(q)
    ensures |r| == 3
  {
    var a, b, c, d := IndexOf(q[0]), IndexOf(q[1]), IndexOf(q[2]), IndexOf(q[3]);
    [Byte0(a, b), Byte1(b, c), Byte2(c, d)]
  }

  /**
   * The last quantum, which may be padded. Bits below the last byte that a
   * padded quantum carries are dropped, as the decoder does.
   */
  function DecodeLastQuantum(q: string): Option<seq<byte>>
    requires |q| == 4
  {
    if IsFullQuantum(q) then Some(DecodeFullQuantum(q))
    else if IsAlphabetChar(q[0]) && IsAlphabetChar(q[1]) && IsAlphabetChar(q[2]) && q[3] == '=' then
      Some([Byte0(IndexOf(q[0]), IndexOf(q[1])), Byte1(IndexOf(q[1]), IndexOf(q[2]))])
    else if IsAlphabetChar(q[0]) && IsAlphabetChar(q[1]) && q[2] == '=' && q[3] == '=' then
      Some([Byte0(IndexOf(q[0]), IndexOf(q[1]))])
    else None
  }

  /** Strict decoding; `None` is the `binascii.Error` the validating decoder raises. */
  function Decode(s: string): (r: Option<seq<byte>>)
    ensures r.Some? <==> WellFormed(s)
    decreases |s|
  {
    if s == [] then Some([])
    else if |s| < 4 then None
    else if |s| == 4 then DecodeLastQuantum(s)
    else if !IsFullQuantum(s[..4]) then
      assert !IsAlphabetChar(s[0]) || !IsAlphabetChar(s[1]) || !IsAlphabetChar(s[2]) || !IsAlphabetChar(s[3]);
      None
    else
      var rest := Decode(s[4..]);
      assert WellFormed(s) <==> WellFormed(s[4..]) by {
        var t := s[4..];
        assert forall i | 0 <= i < |t| - 2 :: t[i] == s[i + 4];
        if WellFormed(t) {
          forall i | 0 <= i < |s| - 2 ensures IsAlphabetChar(s[i]) {
            if i >= 4 { assert s[i] == t[i - 4]; }
          }
        }
      }
      match rest
      case None => None
      case Some(tail) => Some(DecodeFullQuantum(s[..4]) + tail)
  }

  lemma Byte0Inverse(x: byte, y: byte)
    ensures Byte0(x / 4, (x % 4) * 16 + y / 16) == x
  {
    assert ((x % 4) * 16 + y / 16) / 16 == x % 4;
  }

  lemma Byte1Inverse(x: byte, y: byte, z: byte)
    ensures Byte1((x % 4) * 16 + y / 16, (y % 16) * 4 + z / 64) == y
  {
    assert ((x % 4) * 16 + y / 16) % 16 == y / 16;
    assert ((y % 16) * 4 + z / 64) / 4 == y % 16;
  }

  lemma Byte2Inverse(y: byte, z: byte)
    ensures Byte2((y % 16) * 4 + z / 64, z % 64) == z
  {
    assert ((y % 16) * 4 + z / 64) % 4 == z / 64;
  }

  /** The four characters of a full quantum for the bytes x, y, z. */
  function EncodeQuantum(x: byte, y: byte, z: byte): (q: string)
    ensures IsFullQuantum(q) && DecodeFullQuantum(q) == [x, y, z]
  {
    Byte0Inverse(x, y);
    Byte1Inverse(x, y, z);
    Byte2Inverse(y, z);
    [CharOf(x / 4), CharOf((x % 4) * 16 + y / 16), CharOf((y % 16) * 4 + z / 64), CharOf(z % 64)]
  }

  /** The last, padded quantum for one or two remaining bytes. */
  function EncodePadded(b: seq<byte>): (q: string)
    requires 1 <= |b| <= 2
    ensures |q| == 4 && DecodeLastQuantum(q) == Some(b)
  {
    if |b| == 1 then
      Byte0Inverse(b[0], 0);
      assert [b[0]] == b;
      [CharOf(b[0] / 4), CharOf((b[0] % 4) * 16), '=', '=']
    else
      var x, y := b[0], b[1];
      Byte0Inverse(x, y);
      Byte1Inverse(x, y, 0);
      assert [x, y] == b;
      [CharOf(x / 4), CharOf((x % 4) * 16 + y / 16), CharOf((y % 16) * 4), '=']
  }

  /** Standard base64 encoding with padding: the partner of Decode. */
  function Encode(b: seq<byte>): (s: string)
    ensures |b| > 0 ==> |s| >= 4
    decreases |b|
  {
    if |b| == 0 then []
    else if |b| <= 2 then EncodePadded(b)
    else EncodeQuantum(b[0], b[1], b[2]) + Encode(b[3..])
  }

  lemma DecodeFullThenRest(q: string, t: string)
    requires IsFullQuantum(q) && |t| >= 4
    ensures Decode(q + t) == match Decode(t)
                             case None => None
                             case Some(tail) => Some(DecodeFullQuantum(q) + tail)
  {
    var s := q + t;
    assert s[..4] == q && s[4..] == t;
  }

  lemma DecodeEncodeQuantum(b: seq<byte>)
    requires |b| == 3
    ensures Decode(Encode(b)) == Some(b)
  {
    var q := EncodeQuantum(b[0], b[1], b[2]);
    assert Encode(b[3..]) == [];
    assert Encode(b) == q;
    assert b == [b[0], b[1], b[2]];
  }

  lemma DecodeEncodePadded(b: seq<byte>)
    requires 1 <= |b| <= 2
    ensures Decode(Encode(b)) == Some(b)
  {
    assert Encode(b) == EncodePadded(b);
  }

  lemma SplitThree(b: seq<byte>)
    requires |b| >= 3
    ensures b == [b[0], b[1], b[2]] + b[3..]
  {
  }

  lemma DecodeEncodeStep(b: seq<byte>)
    requires |b| > 3 && Decode(Encode(b[3..])) == Some(b[3..])
    ensures Decode(Encode(b)) == Some(b)
  {
    SplitThree(b);
    var q := EncodeQuantum(b[0], b[1], b[2]);
    var t := Encode(b[3..]);
    assert Encode(b) == q + t;
    DecodeFullThenRest(q, t);
  }

  /** Every byte string survives encoding and strict decoding unchanged. */
  lemma {:induction false} DecodeEncode(b: seq<byte>)
    ensures Decode(Encode(b)) == Some(b)
    decreases |b|
  {
    if |b| == 0 {
    } else if |b| <= 2 {
      DecodeEncodePadded(b);
    } else if |b| == 3 {
      DecodeEncodeQuantum(b);
    } else {
      DecodeEncode(b[3..]);
      DecodeEncodeStep(b);
    }
  }
}
