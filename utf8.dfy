/**
 * Strict UTF-8, as Python's str.encode('utf-8') and bytes.decode('utf-8') apply it:
 * the decoder refuses stray continuation bytes, truncated sequences, overlong forms,
 * surrogates and code points above U+10FFFF. A Dafny char is a Unicode scalar value.
 */
module Utf8 {
  import opened Wrappers
  import opened Bytes

  predicate IsContinuation(b: Byte) {
    0x80 <= b < 0xC0
  }

  /** The length of the sequence a lead byte starts, 0 when no sequence starts with it. */
  function SequenceLength(lead: Byte): nat {
    if lead < 0x80 then 1
    else if lead < 0xC0 then 0
    else if lead < 0xE0 then 2
    else if lead < 0xF0 then 3
    else if lead < 0xF8 then 4
    else 0
  }

  function EncodeChar(c: char): (r: seq<Byte>)
    ensures 1 <= |r| <= 4
  {
    var cp := c as int;
    if cp < 0x80 then [cp]
    else if cp < 0x800 then [0xC0 + cp / 64, 0x80 + cp % 64]
    else if cp < 0x1_0000 then [0xE0 + cp / 4096, 0x80 + (cp / 64) % 64, 0x80 + cp % 64]
    else [0xF0 + cp / 262144, 0x80 + (cp / 4096) % 64, 0x80 + (cp / 64) % 64, 0x80 + cp % 64]
  }

  function Encode(s: string): (r: seq<Byte>)
    ensures |s| <= |r| <= 4 * |s|
  {
    if s == [] then [] else EncodeChar(s[0]) + Encode(s[1..])
  }

  /** The first character of b and the number of bytes it occupies, or None if b does not start with a valid sequence. */
  function DecodeFirst(b: seq<Byte>): (r: Option<(char, nat)>)
    requires |b| > 0
    ensures r.Some? ==> 1 <= r.value.1 <= |b| && r.value.1 == SequenceLength(b[0])
  {
    var n := SequenceLength(b[0]);
    if n == 0 || |b| < n then None
    else if n == 1 then Some((b[0] as char, 1))
    else if n == 2 then
      if !IsContinuation(b[1]) then None
      else
        var cp := (b[0] as int - 0xC0) * 64 + (b[1] as int - 0x80);
        if cp < 0x80 then None else Some((cp as char, 2))
    else if n == 3 then
      if !IsContinuation(b[1]) || !IsContinuation(b[2]) then None
      else
        var cp := ((b[0] as int - 0xE0) * 64 + (b[1] as int - 0x80)) * 64 + (b[2] as int - 0x80);
        if cp < 0x800 || 0xD800 <= cp < 0xE000 then None else Some((cp as char, 3))
    else
      if !IsContinuation(b[1]) || !IsContinuation(b[2]) || !IsContinuation(b[3]) then None
      else
        var cp := (((b[0] as int - 0xF0) * 64 + (b[1] as int - 0x80)) * 64 + (b[2] as int - 0x80)) * 64 + (b[3] as int - 0x80);
        if cp < 0x1_0000 || 0x11_0000 <= cp then None else Some((cp as char, 4))
  }

  function Decode(b: seq<Byte>): (r: Option<string>)
    decreases |b|
  {
    if b == [] then Some([])
    else match DecodeFirst(b)
      case None => None
      case Some((c, n)) =>
        match Decode(b[n..])
        case None => None
        case Some(s) => Some([c] + s)
  }

  lemma DivMod64(x: int, q: int, r: int)
    requires x == q * 64 + r && 0 <= r < 64
    ensures x / 64 == q && x % 64 == r
  {
  }

  /** A character's encoding, followed by anything, decodes to that character first. */
  lemma DecodeFirstEncodeChar(c: char, rest: seq<Byte>)
    ensures DecodeFirst(EncodeChar(c) + rest) == Some((c, |EncodeChar(c)|))
  {
    var cp := c as int;
    if cp < 0x80 {
    } else if cp < 0x800 {
      DivMod64(cp, cp / 64, cp % 64);
    } else if cp < 0x1_0000 {
      DecodeFirstEncodeThree(c, rest);
    } else {
      DecodeFirstEncodeFour(c, rest);
    }
  }

  lemma DecodeFirstEncodeThree(c: char, rest: seq<Byte>)
    requires 0x800 <= c as int < 0x1_0000
    ensures DecodeFirst(EncodeChar(c) + rest) == Some((c, 3))
  {
    var cp := c as int;
    var q1 := cp / 64;
    assert cp == q1 * 64 + cp % 64;
    assert q1 == (q1 / 64) * 64 + q1 % 64;
    assert cp / 4096 == q1 / 64;
  }

  lemma DecodeFirstEncodeFour(c: char, rest: seq<Byte>)
    requires 0x1_0000 <= c as int
    ensures DecodeFirst(EncodeChar(c) + rest) == Some((c, 4))
  {
    var cp := c as int;
    var q1 := cp / 64;
    var q2 := q1 / 64;
    assert cp == q1 * 64 + cp % 64;
    assert q1 == q2 * 64 + q1 % 64;
    assert q2 == (q2 / 64) * 64 + q2 % 64;
    assert cp / 4096 == q2;
    assert cp / 262144 == q2 / 64;
  }

  /** A sequence the decoder accepts is exactly the encoding of the character it yields: no overlong forms. */
  lemma EncodeCharDecodeFirst(b: seq<Byte>)
    requires |b| > 0 && DecodeFirst(b).Some?
    ensures EncodeChar(DecodeFirst(b).value.0) == b[..DecodeFirst(b).value.1]
  {
    var n := SequenceLength(b[0]);
    if n == 2 {
      DivMod64(DecodeFirst(b).value.0 as int, b[0] - 0xC0, b[1] - 0x80);
    } else if n == 3 {
      EncodeCharDecodeThree(b);
    } else if n == 4 {
      EncodeCharDecodeFour(b);
    }
  }

  lemma EncodeCharDecodeThree(b: seq<Byte>)
    requires |b| > 0 && DecodeFirst(b).Some? && SequenceLength(b[0]) == 3
    ensures EncodeChar(DecodeFirst(b).value.0) == b[..3]
  {
    var cp := DecodeFirst(b).value.0 as int;
    var q1 := (b[0] as int - 0xE0) * 64 + (b[1] as int - 0x80);
    DivMod64(cp, q1, b[2] - 0x80);
    DivMod64(q1, b[0] - 0xE0, b[1] - 0x80);
    assert cp / 4096 == b[0] - 0xE0;
  }

  lemma EncodeCharDecodeFour(b: seq<Byte>)
    requires |b| > 0 && DecodeFirst(b).Some? && SequenceLength(b[0]) == 4
    ensures EncodeChar(DecodeFirst(b).value.0) == b[..4]
  {
    var cp := DecodeFirst(b).value.0 as int;
    var q2 := (b[0] as int - 0xF0) * 64 + (b[1] as int - 0x80);
    var q1: int := q2 * 64 + (b[2] as int - 0x80);
    DivMod64(cp, q1, b[3] - 0x80);
    DivMod64(q1, q2, b[2] - 0x80);
    DivMod64(q2, b[0] - 0xF0, b[1] - 0x80);
    assert cp / 4096 == q2;
    assert cp / 262144 == b[0] - 0xF0;
  }

  /** Decoding undoes encoding. */
  lemma {:induction false} DecodeEncode(s: string)
    ensures Decode(Encode(s)) == Some(s)
  {
    if s != [] {
      var e := EncodeChar(s[0]);
      var tail := Encode(s[1..]);
      DecodeFirstEncodeChar(s[0], tail);
      assert (e + tail)[|e|..] == tail;
      DecodeEncode(s[1..]);
      assert [s[0]] + s[1..] == s;
    }
  }

  /** One step of Decode on a non-empty input it accepts. */
  lemma DecodeStep(b: seq<Byte>)
    requires b != [] && Decode(b).Some?
    ensures DecodeFirst(b).Some?
    ensures Decode(b[DecodeFirst(b).value.1..]).Some?
    ensures Decode(b).value == [DecodeFirst(b).value.0] + Decode(b[DecodeFirst(b).value.1..]).value
  {
  }

  /** One step of Encode. */
  lemma EncodeStep(c: char, s: string)
    ensures Encode([c] + s) == EncodeChar(c) + Encode(s)
  {
    assert ([c] + s)[1..] == s;
  }

  /** A first character and the rest, each encoding its part of b, encode b. */
  lemma Recombine(b: seq<Byte>, n: nat, c: char, rest: string)
    requires n <= |b| && EncodeChar(c) == b[..n] && Encode(rest) == b[n..]
    ensures Encode([c] + rest) == b
  {
    EncodeStep(c, rest);
    assert b[..n] + b[n..] == b;
  }

  /** Encoding undoes decoding: the strict decoder accepts only canonical encodings. */
  lemma {:induction false} EncodeDecode(b: seq<Byte>)
    requires Decode(b).Some?
    ensures Encode(Decode(b).value) == b
    decreases |b|
  {
    if b != [] {
      var (c, n) := DecodeFirst(b).value;
      assert Decode(b[n..]).Some? && Decode(b).value == [c] + Decode(b[n..]).value by {
        DecodeStep(b);
      }
      var rest := Decode(b[n..]).value;
      assert EncodeChar(c) == b[..n] by {
        EncodeCharDecodeFirst(b);
      }
      assert Encode(rest) == b[n..] by {
        EncodeDecode(b[n..]);
      }
      Recombine(b, n, c, rest);
    }
  }
}
