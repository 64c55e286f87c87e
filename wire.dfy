/**
 * The binary reader and writer the version payload is serialized with. Their code is not
 * part of this model. This module ASSUMES that they behave as follows, which is what the
 * payload code relies on; nothing here is checked against their implementation:
 *  - fixed-width integers are little-endian (struct formats '<B', '<H', '<I', '<Q');
 *    writing a value that is missing (None) or out of range fails before anything is written;
 *  - a variable-length integer is one byte below 0xFD, else 0xFD + u16 (up to 0xFFFF),
 *    0xFE + u32 (up to 0xFFFFFFFF) or 0xFF + u64; the reader accepts non-canonical prefixes
 *    but refuses a value above sys.maxsize (2^63 - 1 on a 64-bit build);
 *  - a var-string is a variable-length byte count followed by the UTF-8 bytes;
 *  - a bool is written as one byte 1 or 0 and read as true for any non-zero byte;
 *  - a read past the end of the input fails.
 */
module Wire {
  import opened Wrappers
  import opened Bytes
  import Utf8

  datatype DecodeError = Truncated | InvalidFormat | InvalidUtf8

  /** sys.maxsize on a 64-bit build: ReadVarInt's default maximum. */
  const MAX_VAR_INT: nat := 0x7FFF_FFFF_FFFF_FFFF

  /** A value read from the front of the input, with the input that remains. */
  datatype Read<T> = Read(value: T, rest: seq<Byte>)

  // ---------------------------------------------------------------- writing

  /** The bytes WriteUInt8/16/32/64 emit for v in a w-byte field, None when the write raises. */
  function UIntBytes(v: Option<int>, w: nat): (r: Option<seq<Byte>>)
    ensures r.Some? <==> v.Some? && 0 <= v.value < Pow256(w)
    ensures r.Some? ==> |r.value| == w
  {
    if v.Some? && 0 <= v.value < Pow256(w) then Some(ToLE(v.value, w)) else None
  }

  function VarIntSize(n: nat): nat {
    if n < 0xFD then 1 else if n <= 0xFFFF then 3 else if n <= 0xFFFF_FFFF then 5 else 9
  }

  /** The bytes WriteVarInt emits for n; n must fit in 64 bits. */
  function VarIntBytes(n: nat): (r: seq<Byte>)
    requires n < Pow256(8)
    ensures |r| == VarIntSize(n)
  {
    Pow256Widths();
    if n < 0xFD then [n]
    else if n <= 0xFFFF then [0xFD] + ToLE(n, 2)
    else if n <= 0xFFFF_FFFF then [0xFE] + ToLE(n, 4)
    else [0xFF] + ToLE(n, 8)
  }

  /** The bytes WriteVarString emits for s, None when the write raises (no string, or a length beyond 64 bits). */
  function VarStringBytes(s: Option<string>): (r: Option<seq<Byte>>)
    ensures r.Some? <==> s.Some? && |Utf8.Encode(s.value)| < Pow256(8)
  {
    if s.Some? && |Utf8.Encode(s.value)| < Pow256(8) then
      var u := Utf8.Encode(s.value);
      Some(VarIntBytes(|u|) + u)
    else None
  }

  function BoolBytes(b: bool): seq<Byte> {
    if b then [1] else [0]
  }

  // ---------------------------------------------------------------- reading

  function ParseUInt(s: seq<Byte>, w: nat): (r: Result<Read<nat>, DecodeError>)
    ensures r.Ok? ==> |s| >= w && r.value.rest == s[w..]
  {
    if |s| < w then Err(Truncated) else Ok(Read(FromLE(s[..w]), s[w..]))
  }

  function ParseVarInt(s: seq<Byte>): (r: Result<Read<nat>, DecodeError>)
    ensures r.Ok? ==> (|r.value.rest| < |s|) && r.value.rest == s[|s| - |r.value.rest|..]
  {
    if |s| == 0 then Err(Truncated)
    else
      var fb := s[0];
      var r :- if fb == 0xFD then ParseUInt(s[1..], 2)
               else if fb == 0xFE then ParseUInt(s[1..], 4)
               else if fb == 0xFF then ParseUInt(s[1..], 8)
               else Ok(Read(fb as nat, s[1..]));
      if r.value > MAX_VAR_INT then Err(InvalidFormat) else Ok(r)
  }

  /** ReadVarString: the raw bytes; decoding them is the caller's business. */
  function ParseVarBytes(s: seq<Byte>): (r: Result<Read<seq<Byte>>, DecodeError>)
    ensures r.Ok? ==> (|r.value.rest| < |s|) && r.value.rest == s[|s| - |r.value.rest|..]
  {
    var n :- ParseVarInt(s);
    if |n.rest| < n.value then Err(Truncated)
    else Ok(Read(n.rest[..n.value], n.rest[n.value..]))
  }

  function ParseBool(s: seq<Byte>): (r: Result<Read<bool>, DecodeError>)
    ensures r.Ok? ==> (|r.value.rest| < |s|) && r.value.rest == s[|s| - |r.value.rest|..]
  {
    if |s| == 0 then Err(Truncated) else Ok(Read(s[0] != 0, s[1..]))
  }

  // ---------------------------------------------------------------- round trips of the primitives

  /** A written integer reads back, leaving what followed it. */
  lemma ParseUIntOfBytes(v: Option<int>, w: nat, rest: seq<Byte>)
    requires UIntBytes(v, w).Some?
    ensures ParseUInt(UIntBytes(v, w).value + rest, w) == Ok(Read(v.value as nat, rest))
  {
    var e := UIntBytes(v, w).value;
    assert (e + rest)[..w] == e && (e + rest)[w..] == rest;
    FromLEToLE(v.value, w);
  }

  /** A written variable-length integer reads back, provided it is at most sys.maxsize. */
  lemma ParseVarIntOfBytes(n: nat, rest: seq<Byte>)
    requires n <= MAX_VAR_INT
    ensures ParseVarInt(VarIntBytes(n) + rest) == Ok(Read(n, rest))
  {
    Pow256Widths();
    var e := VarIntBytes(n);
    var s := e + rest;
    assert s[1..] == e[1..] + rest;
    if n >= 0xFD {
      var w := |e| - 1;
      assert e[1..] == ToLE(n, w);
      assert s[1..][..w] == ToLE(n, w) && s[1..][w..] == rest;
      FromLEToLE(n, w);
    }
  }

  /** A written string reads back as its UTF-8 bytes, leaving what followed it. */
  lemma ParseVarBytesOfString(ua: Option<string>, rest: seq<Byte>)
    requires VarStringBytes(ua).Some? && |Utf8.Encode(ua.value)| <= MAX_VAR_INT
    ensures ParseVarBytes(VarStringBytes(ua).value + rest) == Ok(Read(Utf8.Encode(ua.value), rest))
  {
    var u := Utf8.Encode(ua.value);
    var p := VarIntBytes(|u|);
    assert VarStringBytes(ua).value + rest == p + (u + rest);
    ParseVarIntOfBytes(|u|, u + rest);
    assert (u + rest)[..|u|] == u && (u + rest)[|u|..] == rest;
  }

  lemma ParseBoolOfBytes(b: bool, rest: seq<Byte>)
    ensures ParseBool(BoolBytes(b) + rest) == Ok(Read(b, rest))
  {
    assert (BoolBytes(b) + rest)[1..] == rest;
  }

  // ---------------------------------------------------------------- reading a prefix of the input

  /** Reading an integer from the first k bytes of an input it can be read from: truncated, or the same value. */
  lemma ParseUIntPrefix(s: seq<Byte>, w: nat, k: nat)
    requires ParseUInt(s, w).Ok? && k <= |s|
    ensures ParseUInt(s[..k], w) == if k < w then Err(Truncated) else Ok(Read(ParseUInt(s, w).value.value, s[w..k]))
  {
    if k >= w {
      assert s[..k][..w] == s[..w];
      assert s[..k][w..] == s[w..k];
    }
  }

  lemma ParseVarIntPrefix(s: seq<Byte>, k: nat)
    requires ParseVarInt(s).Ok? && k <= |s|
    ensures var used := |s| - |ParseVarInt(s).value.rest|;
      ParseVarInt(s[..k]) == if k < used then Err(Truncated) else Ok(Read(ParseVarInt(s).value.value, s[used..k]))
  {
    if k > 0 {
      var t := s[..k];
      assert t[1..] == s[1..][..k - 1];
      var fb := s[0];
      var w := if fb == 0xFD then 2 else if fb == 0xFE then 4 else if fb == 0xFF then 8 else 0;
      if w > 0 {
        ParseUIntPrefix(s[1..], w, k - 1);
        assert s[1..][w..] == s[1 + w..];
        if k - 1 >= w {
          assert s[1..][w..k - 1] == s[1 + w..k];
        }
      }
    }
  }

  lemma ParseVarBytesPrefix(s: seq<Byte>, k: nat)
    requires ParseVarBytes(s).Ok? && k <= |s|
    ensures var used := |s| - |ParseVarBytes(s).value.rest|;
      ParseVarBytes(s[..k]) == if k < used then Err(Truncated) else Ok(Read(ParseVarBytes(s).value.value, s[used..k]))
  {
    ParseVarIntPrefix(s, k);
    var n := ParseVarInt(s).value;
    var head := |s| - |n.rest|;
    assert n.rest == s[head..];
    if k >= head {
      var r := s[head..k];
      assert r == n.rest[..k - head];
      if |r| >= n.value {
        assert r[..n.value] == n.rest[..n.value];
        assert r[n.value..] == s[head + n.value..k];
      }
    }
  }

  lemma ParseBoolPrefix(s: seq<Byte>, k: nat)
    requires ParseBool(s).Ok? && k <= |s|
    ensures ParseBool(s[..k]) == if k < 1 then Err(Truncated) else Ok(Read(ParseBool(s).value.value, s[1..k]))
  {
  }

  // ---------------------------------------------------------------- the stream objects

  /** The output stream a BinaryWriter appends to. */
  class BinaryWriter {
    var data: seq<Byte>

    constructor ()
      ensures data == []
    {
      data := [];
    }

    /** WriteUInt8/16/32/64: appends v's w-byte encoding, or fails and writes nothing. */
    method WriteUInt(v: Option<int>, w: nat) returns (ok: bool)
      modifies this
      ensures ok == UIntBytes(v, w).Some?
      ensures data == old(data) + (if ok then UIntBytes(v, w).value else [])
    {
      var e := UIntBytes(v, w);
      ok := e.Some?;
      if ok {
        data := data + e.value;
      }
    }

    method WriteVarString(s: Option<string>) returns (ok: bool)
      modifies this
      ensures ok == VarStringBytes(s).Some?
      ensures data == old(data) + (if ok then VarStringBytes(s).value else [])
    {
      var e := VarStringBytes(s);
      ok := e.Some?;
      if ok {
        data := data + e.value;
      }
    }

    method WriteBool(b: bool)
      modifies this
      ensures data == old(data) + BoolBytes(b)
    {
      data := data + BoolBytes(b);
    }
  }

  /** A BinaryReader: an immutable input and a cursor into it. */
  class BinaryReader {
    const data: seq<Byte>
    var pos: nat

    ghost predicate Valid()
      reads this
    {
      pos <= |data|
    }

    /** The input not yet consumed. */
    function Remaining(): seq<Byte>
      reads this
      requires Valid()
    {
      data[pos..]
    }

    constructor (input: seq<Byte>)
      ensures Valid() && data == input && Remaining() == input
    {
      data := input;
      pos := 0;
    }

    /** Moves the cursor past what a successful read consumed. */
    method Advance(rest: seq<Byte>)
      requires Valid() && |rest| <= |Remaining()| && rest == Remaining()[|Remaining()| - |rest|..]
      modifies this
      ensures Valid() && Remaining() == rest
    {
      pos := |data| - |rest|;
    }

    /** ReadUInt8/16/32/64. */
    method ReadUInt(w: nat) returns (r: Result<nat, DecodeError>)
      requires Valid()
      modifies this
      ensures Valid()
      ensures var spec := ParseUInt(old(Remaining()), w);
        && r == (if spec.Ok? then Ok(spec.value.value) else Err(spec.error))
        && Remaining() == (if spec.Ok? then spec.value.rest else old(Remaining()))
    {
      var spec := ParseUInt(Remaining(), w);
      if spec.Ok? {
        Advance(spec.value.rest);
        r := Ok(spec.value.value);
      } else {
        r := Err(spec.error);
      }
    }

    /** ReadVarString, before the bytes are decoded. */
    method ReadVarBytes() returns (r: Result<seq<Byte>, DecodeError>)
      requires Valid()
      modifies this
      ensures Valid()
      ensures var spec := ParseVarBytes(old(Remaining()));
        && r == (if spec.Ok? then Ok(spec.value.value) else Err(spec.error))
        && Remaining() == (if spec.Ok? then spec.value.rest else old(Remaining()))
    {
      var spec := ParseVarBytes(Remaining());
      if spec.Ok? {
        Advance(spec.value.rest);
        r := Ok(spec.value.value);
      } else {
        r := Err(spec.error);
      }
    }

    method ReadBool() returns (r: Result<bool, DecodeError>)
      requires Valid()
      modifies this
      ensures Valid()
      ensures var spec := ParseBool(old(Remaining()));
        && r == (if spec.Ok? then Ok(spec.value.value) else Err(spec.error))
        && Remaining() == (if spec.Ok? then spec.value.rest else old(Remaining()))
    {
      var spec := ParseBool(Remaining());
      if spec.Ok? {
        Advance(spec.value.rest);
        r := Ok(spec.value.value);
      } else {
        r := Err(spec.error);
      }
    }
  }
}
