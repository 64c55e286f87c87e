/**
 * The Neo P2P `version` message: the peer-identification payload two nodes exchange when a
 * session opens. Fixed field order: Version (u8), Services (u64), Timestamp (u32), Port (u16),
 * Nonce (u32), UserAgent (var-string), StartHeight (u32), Relay (bool).
 */
module Payloads {
  import opened Wrappers
  import opened Bytes
  import opened Wire
  import Utf8

  /** NetworkAddressWithTime.NODE_NETWORK, the service bit a constructed payload advertises. */
  const NODE_NETWORK: int := 1

  datatype Field = Version | Services | Timestamp | Port | Nonce | UserAgent | StartHeight | Relay

  /** The attributes of a VersionPayload; None stands for Python's None. */
  datatype VersionFields = VersionFields(
    version: Option<int>,
    services: Option<int>,
    timestamp: Option<int>,
    port: Option<int>,
    nonce: Option<int>,
    userAgent: Option<string>,
    startHeight: int,
    relay: bool)

  /** The class-level defaults a payload keeps unless its constructor overwrites them. */
  const CLASS_DEFAULTS := VersionFields(None, None, None, None, None, None, 1, false)

  /** Python truthiness of an optional integer and of an optional string. */
  predicate TruthyInt(v: Option<int>) {
    v.Some? && v.value != 0
  }

  predicate TruthyString(v: Option<string>) {
    v.Some? && v.value != []
  }

  // ---------------------------------------------------------------- construction

  /**
   * What `Blockchain.Default()` offers __init__: no default chain; a chain whose `Height()` is a
   * method returning a height or None; or a chain whose `Height` is a plain int attribute, which
   * `Height()` cannot call.
   */
  datatype ChainHeight = NoDefaultChain | HeightMethod(result: Option<int>) | HeightAttribute(value: int)

  /** The TypeError `Height()` raises when `Height` is an int. */
  datatype InitError = HeightNotCallable

  /**
   * __init__ as a value: the fields it leaves, or the error it raises. With a truthy port, nonce
   * and user agent it looks the chain's height up after setting six fields, so a chain without a
   * callable `Height` makes it raise and no payload results; otherwise the class defaults stay.
   */
  function InitFields(port: Option<int>, nonce: Option<int>, userAgent: Option<string>, now: int,
                      chain: ChainHeight): (r: Result<VersionFields, InitError>)
    ensures r.Err? <==> TruthyInt(port) && TruthyInt(nonce) && TruthyString(userAgent) && chain.HeightAttribute?
    ensures !(TruthyInt(port) && TruthyInt(nonce) && TruthyString(userAgent)) ==> r == Ok(CLASS_DEFAULTS)
    ensures TruthyInt(port) && TruthyInt(nonce) && TruthyString(userAgent) && !chain.HeightAttribute? ==>
      && r.Ok?
      && r.value.version == Some(0) && r.value.services == Some(NODE_NETWORK) && r.value.timestamp == Some(now)
      && r.value.port == port && r.value.nonce == nonce && r.value.userAgent == userAgent && r.value.relay
      && r.value.startHeight == (if chain.HeightMethod? && chain.result.Some? then chain.result.value else 1)
    ensures r.Ok? && r.value.startHeight != 1 ==> chain == HeightMethod(Some(r.value.startHeight))
  {
    if TruthyInt(port) && TruthyInt(nonce) && TruthyString(userAgent) then
      var startHeight :-
        match chain
        case NoDefaultChain => Ok(1)
        case HeightMethod(h) => Ok(if h.Some? then h.value else 1)
        case HeightAttribute(_) => Err(HeightNotCallable);
      Ok(VersionFields(Some(0), Some(NODE_NETWORK), Some(now), port, nonce, userAgent, startHeight, true))
    else
      Ok(CLASS_DEFAULTS)
  }

  // ---------------------------------------------------------------- serialization

  /** What Serialize hands the writer, field by field in wire order: the bytes, or None where the write raises. */
  function FieldEncodings(f: VersionFields): seq<(Field, Option<seq<Byte>>)> {
    [ (Version, UIntBytes(f.version, 1)),
      (Services, UIntBytes(f.services, 8)),
      (Timestamp, UIntBytes(f.timestamp, 4)),
      (Port, UIntBytes(f.port, 2)),
      (Nonce, UIntBytes(f.nonce, 4)),
      (UserAgent, VarStringBytes(f.userAgent)),
      (StartHeight, UIntBytes(Some(f.startHeight), 4)),
      (Relay, Some(BoolBytes(f.relay))) ]
  }

  /** The bytes a writer holds after a sequence of writes, and the field whose write raised, if any. */
  datatype WriteOutcome = WriteOutcome(written: seq<Byte>, failed: Option<Field>)

  function Emit(chunks: seq<(Field, Option<seq<Byte>>)>): WriteOutcome {
    if chunks == [] then WriteOutcome([], None)
    else match chunks[0].1
      case None => WriteOutcome([], Some(chunks[0].0))
      case Some(b) =>
        var tail := Emit(chunks[1..]);
        WriteOutcome(b + tail.written, tail.failed)
  }

  /** The writer's stream when `data` is already written and the writes `pending` follow. */
  function EmitOnto(data: seq<Byte>, pending: seq<(Field, Option<seq<Byte>>)>): WriteOutcome
    decreases pending
  {
    if pending == [] then WriteOutcome(data, None)
    else match pending[0].1
      case None => WriteOutcome(data, Some(pending[0].0))
      case Some(b) => EmitOnto(data + b, pending[1..])
  }

  lemma {:induction false} EmitOntoAppends(data: seq<Byte>, pending: seq<(Field, Option<seq<Byte>>)>)
    ensures EmitOnto(data, pending) == WriteOutcome(data + Emit(pending).written, Emit(pending).failed)
    decreases pending
  {
    if pending != [] && pending[0].1.Some? {
      var b := pending[0].1.value;
      EmitOntoAppends(data + b, pending[1..]);
      Append(data, b, Emit(pending[1..]).written);
    }
  }

  /** The next write of EmitOnto: it either raises, or appends its chunk and moves on. */
  lemma EmitOntoNext(data: seq<Byte>, pending: seq<(Field, Option<seq<Byte>>)>)
    requires pending != []
    ensures pending[0].1.None? ==> EmitOnto(data, pending) == WriteOutcome(data, Some(pending[0].0))
    ensures pending[0].1.Some? ==> EmitOnto(data, pending) == EmitOnto(data + pending[0].1.value, pending[1..])
  {
  }

  function Concat(chunks: seq<(Field, Option<seq<Byte>>)>): seq<Byte>
    requires forall i :: 0 <= i < |chunks| ==> chunks[i].1.Some?
  {
    if chunks == [] then [] else chunks[0].1.value + Concat(chunks[1..])
  }

  /** VersionPayload.Serialize, as a value: the writes in order, stopping at the first that raises. */
  function SerializeFields(f: VersionFields): WriteOutcome {
    Emit(FieldEncodings(f))
  }

  /** Every field present and within its wire width. */
  predicate Encodable(f: VersionFields) {
    && f.version.Some? && 0 <= f.version.value < 0x100
    && f.services.Some? && 0 <= f.services.value < 0x1_0000_0000_0000_0000
    && f.timestamp.Some? && 0 <= f.timestamp.value < 0x1_0000_0000
    && f.port.Some? && 0 <= f.port.value < 0x1_0000
    && f.nonce.Some? && 0 <= f.nonce.value < 0x1_0000_0000
    && f.userAgent.Some? && |Utf8.Encode(f.userAgent.value)| < 0x1_0000_0000_0000_0000
    && 0 <= f.startHeight < 0x1_0000_0000
  }

  // ---------------------------------------------------------------- deserialization

  /** A suffix of a suffix of `s` is a suffix of `s`. */
  lemma SuffixOfSuffix(s: seq<Byte>, a: seq<Byte>, b: seq<Byte>)
    requires |a| <= |s| && a == s[|s| - |a|..]
    requires |b| <= |a| && b == a[|a| - |b|..]
    ensures b == s[|s| - |b|..]
  {
  }

  /** The five fixed-width fields Deserialize reads first. */
  datatype Head = Head(version: nat, services: nat, timestamp: nat, port: nat, nonce: nat)

  /** The three fields Deserialize reads after them. */
  datatype Tail = Tail(userAgent: string, startHeight: nat, relay: bool)

  function DecodeHead(s: seq<Byte>): (r: Result<Read<Head>, DecodeError>)
    ensures r.Ok? ==> (|r.value.rest| < |s|) && r.value.rest == s[|s| - |r.value.rest|..]
  {
    var version :- ParseUInt(s, 1);
    var services :- ParseUInt(version.rest, 8);
    var timestamp :- ParseUInt(services.rest, 4);
    var port :- ParseUInt(timestamp.rest, 2);
    var nonce :- ParseUInt(port.rest, 4);
    SuffixOfSuffix(s, version.rest, services.rest);
    SuffixOfSuffix(s, services.rest, timestamp.rest);
    SuffixOfSuffix(s, timestamp.rest, port.rest);
    SuffixOfSuffix(s, port.rest, nonce.rest);
    Ok(Read(Head(version.value, services.value, timestamp.value, port.value, nonce.value), nonce.rest))
  }

  function DecodeTail(s: seq<Byte>): (r: Result<Read<Tail>, DecodeError>)
    ensures r.Ok? ==> (|r.value.rest| < |s|) && r.value.rest == s[|s| - |r.value.rest|..]
  {
    var agent :- ParseVarBytes(s);
    var text :- DecodeText(agent.value);
    var last :- DecodeLast(agent.rest);
    SuffixOfSuffix(s, agent.rest, last.rest);
    Ok(Read(Tail(text, last.value.0, last.value.1), last.rest))
  }

  /** The start height and relay flag that end the payload. */
  function DecodeLast(s: seq<Byte>): (r: Result<Read<(nat, bool)>, DecodeError>)
    ensures r.Ok? ==> (|r.value.rest| < |s|) && r.value.rest == s[|s| - |r.value.rest|..]
  {
    var height :- ParseUInt(s, 4);
    var relay :- ParseBool(height.rest);
    SuffixOfSuffix(s, height.rest, relay.rest);
    Ok(Read((height.value, relay.value), relay.rest))
  }

  /** The first five writes of Serialize, against EmitOnto: raising, or leaving the rest to do. */
  method WriteHead(writer: BinaryWriter, f: VersionFields) returns (failed: Option<Field>)
    modifies writer
    ensures var goal := EmitOnto(old(writer.data), FieldEncodings(f));
      if failed.Some? then goal == WriteOutcome(writer.data, failed)
      else goal == EmitOnto(writer.data, FieldEncodings(f)[5..])
  {
    ghost var pending := FieldEncodings(f);
    var ok: bool;
    EmitOntoNext(writer.data, pending);
    ok := writer.WriteUInt(f.version, 1);
    if !ok { return Some(Version); }
    pending := pending[1..];
    EmitOntoNext(writer.data, pending);
    ok := writer.WriteUInt(f.services, 8);
    if !ok { return Some(Services); }
    assert pending[1..] == FieldEncodings(f)[2..];
    failed := WriteMiddle(writer, f);
  }

  /** The timestamp, port and nonce writes of Serialize, against EmitOnto. */
  method WriteMiddle(writer: BinaryWriter, f: VersionFields) returns (failed: Option<Field>)
    modifies writer
    ensures var goal := EmitOnto(old(writer.data), FieldEncodings(f)[2..]);
      if failed.Some? then goal == WriteOutcome(writer.data, failed)
      else goal == EmitOnto(writer.data, FieldEncodings(f)[5..])
  {
    ghost var pending := FieldEncodings(f)[2..];
    var ok: bool;
    EmitOntoNext(writer.data, pending);
    ok := writer.WriteUInt(f.timestamp, 4);
    if !ok { return Some(Timestamp); }
    pending := pending[1..];
    EmitOntoNext(writer.data, pending);
    ok := writer.WriteUInt(f.port, 2);
    if !ok { return Some(Port); }
    pending := pending[1..];
    EmitOntoNext(writer.data, pending);
    ok := writer.WriteUInt(f.nonce, 4);
    if !ok { return Some(Nonce); }
    assert pending[1..] == FieldEncodings(f)[5..];
    failed := None;
  }

  /** The last three writes of Serialize, against EmitOnto. */
  method WriteTail(writer: BinaryWriter, f: VersionFields) returns (failed: Option<Field>)
    modifies writer
    ensures EmitOnto(old(writer.data), FieldEncodings(f)[5..]) == WriteOutcome(writer.data, failed)
  {
    ghost var pending := FieldEncodings(f)[5..];
    EmitOntoNext(writer.data, pending);
    var ok := writer.WriteVarString(f.userAgent);
    if !ok { return Some(UserAgent); }
    assert pending[1..] == FieldEncodings(f)[6..];
    failed := WriteLast(writer, f);
  }

  /** The start height and relay writes of Serialize, against EmitOnto. */
  method WriteLast(writer: BinaryWriter, f: VersionFields) returns (failed: Option<Field>)
    modifies writer
    ensures EmitOnto(old(writer.data), FieldEncodings(f)[6..]) == WriteOutcome(writer.data, failed)
  {
    ghost var pending := FieldEncodings(f)[6..];
    assert pending == [(StartHeight, UIntBytes(Some(f.startHeight), 4)), (Relay, Some(BoolBytes(f.relay)))];
    EmitOntoNext(writer.data, pending);
    var ok := writer.WriteUInt(Some(f.startHeight), 4);
    if !ok { return Some(StartHeight); }
    ghost var last: seq<(Field, Option<seq<Byte>>)> := pending[1..];
    EmitOntoNext(writer.data, last);
    writer.WriteBool(f.relay);
    assert last[1..] == [];
    failed := None;
  }

  /** Five successful reads make up a successful DecodeHead. */
  lemma DecodeHeadOfReads(s: seq<Byte>, a: Read<nat>, b: Read<nat>, c: Read<nat>, d: Read<nat>, e: Read<nat>)
    requires ParseUInt(s, 1) == Ok(a) && ParseUInt(a.rest, 8) == Ok(b) && ParseUInt(b.rest, 4) == Ok(c)
    requires ParseUInt(c.rest, 2) == Ok(d) && ParseUInt(d.rest, 4) == Ok(e)
    ensures DecodeHead(s) == Ok(Read(Head(a.value, b.value, c.value, d.value, e.value), e.rest))
  {
  }

  /** Successful reads of the last three fields make up a successful DecodeTail. */
  lemma DecodeTailOfReads(s: seq<Byte>, g: Read<seq<Byte>>, text: string, h: Read<nat>, k: Read<bool>)
    requires ParseVarBytes(s) == Ok(g) && DecodeText(g.value) == Ok(text)
    requires ParseUInt(g.rest, 4) == Ok(h) && ParseBool(h.rest) == Ok(k)
    ensures DecodeTail(s) == Ok(Read(Tail(text, h.value, k.value), k.rest))
  {
  }

  /** VersionPayload.Deserialize, as a value: the fields read in wire order and the input left over. */
  function DecodeFields(s: seq<Byte>): Result<Read<VersionFields>, DecodeError> {
    var head :- DecodeHead(s);
    var tail :- DecodeTail(head.rest);
    var h, t := head.value, tail.value;
    Ok(Read(VersionFields(Some(h.version), Some(h.services), Some(h.timestamp), Some(h.port), Some(h.nonce),
                          Some(t.userAgent), t.startHeight, t.relay),
            tail.rest))
  }

  /** bytes.decode('utf-8'), raising on invalid input. */
  function DecodeText(b: seq<Byte>): (r: Result<string, DecodeError>)
    ensures r.Ok? <==> Utf8.Decode(b).Some?
    ensures r.Err? ==> r.error == InvalidUtf8
  {
    match Utf8.Decode(b)
    case None => Err(InvalidUtf8)
    case Some(t) => Ok(t)
  }

  /** The decoded user agent re-encodes to the bytes it came from. */
  lemma DecodeTextReencodes(b: seq<Byte>)
    requires DecodeText(b).Ok?
    ensures Utf8.Encode(DecodeText(b).value) == b
  {
    Utf8.EncodeDecode(b);
  }

  // ---------------------------------------------------------------- properties of the writes

  /** When every write succeeds, the writer holds all the chunks in order. */
  lemma {:induction false} EmitAllSome(c: seq<(Field, Option<seq<Byte>>)>)
    requires forall i :: 0 <= i < |c| ==> c[i].1.Some?
    ensures Emit(c) == WriteOutcome(Concat(c), None)
  {
    if c != [] {
      EmitAllSome(c[1..]);
    }
  }

  /** The first write that raises ends serialization: the writer holds exactly the chunks before it. */
  lemma {:induction false} EmitStopsAtFirstFailure(c: seq<(Field, Option<seq<Byte>>)>, i: nat)
    requires i < |c| && c[i].1.None? && forall j :: 0 <= j < i ==> c[j].1.Some?
    ensures Emit(c) == WriteOutcome(Concat(c[..i]), Some(c[i].0))
  {
    if i > 0 {
      EmitStopsAtFirstFailure(c[1..], i - 1);
      assert c[1..][..i - 1] == c[..i][1..];
    }
  }

  /** Serialize raises exactly when some field is missing or outside its wire width. */
  lemma SerializeSucceedsIff(f: VersionFields)
    ensures SerializeFields(f).failed.None? <==> Encodable(f)
  {
    Pow256Widths();
    var c := FieldEncodings(f);
    if forall i :: 0 <= i < |c| ==> c[i].1.Some? {
      EmitAllSome(c);
      assert c[0].1.Some? && c[1].1.Some? && c[2].1.Some? && c[3].1.Some?;
      assert c[4].1.Some? && c[5].1.Some? && c[6].1.Some?;
    } else {
      var i :| 0 <= i < |c| && c[i].1.None? && forall j :: 0 <= j < i ==> c[j].1.Some?;
      EmitStopsAtFirstFailure(c, i);
    }
  }

  /** The wire layout: the eight fields in their fixed order, integers little-endian. */
  lemma SerializeLayout(f: VersionFields)
    requires Encodable(f)
    ensures SerializeFields(f).failed == None
    ensures var u := Utf8.Encode(f.userAgent.value);
      SerializeFields(f).written
        == ToLE(f.version.value, 1) + (ToLE(f.services.value, 8) + (ToLE(f.timestamp.value, 4)
           + (ToLE(f.port.value, 2) + (ToLE(f.nonce.value, 4) + ((VarIntBytes(|u|) + u)
           + (ToLE(f.startHeight, 4) + BoolBytes(f.relay)))))))
  {
    Pow256Widths();
    var c := FieldEncodings(f);
    assert forall i :: 0 <= i < |c| ==> c[i].1.Some?;
    EmitAllSome(c);
    ConcatOfEight(c);
  }

  /** Concat of eight present chunks, spelled out. */
  lemma ConcatOfEight(c: seq<(Field, Option<seq<Byte>>)>)
    requires |c| == 8 && forall i :: 0 <= i < |c| ==> c[i].1.Some?
    ensures Concat(c) == c[0].1.value + (c[1].1.value + (c[2].1.value + (c[3].1.value + (c[4].1.value
                         + (c[5].1.value + (c[6].1.value + c[7].1.value))))))
  {
    assert Concat(c[5..]) == c[5].1.value + (c[6].1.value + c[7].1.value) by {
      assert Concat(c[8..]) == [];
      assert Concat(c[7..]) == c[7].1.value + Concat(c[8..]);
      assert Concat(c[6..]) == c[6].1.value + Concat(c[7..]);
    }
    assert Concat(c[2..]) == c[2].1.value + (c[3].1.value + (c[4].1.value + Concat(c[5..]))) by {
      assert Concat(c[4..]) == c[4].1.value + Concat(c[5..]);
      assert Concat(c[3..]) == c[3].1.value + Concat(c[4..]);
    }
    assert Concat(c[1..]) == c[1].1.value + Concat(c[2..]);
    assert c[0..] == c;
  }

  /** The encoded length is 24 fixed bytes plus the var-string: its length prefix and its UTF-8 bytes. */
  lemma SerializedLength(f: VersionFields)
    requires Encodable(f)
    ensures var n := |Utf8.Encode(f.userAgent.value)|;
      |SerializeFields(f).written| == 24 + VarIntSize(n) + n
  {
    SerializeLayout(f);
  }

  // ---------------------------------------------------------------- round trip and truncation

  lemma DecodeHeadSerialized(f: VersionFields, rest: seq<Byte>)
    requires Encodable(f)
    ensures DecodeHead(ToLE(f.version.value, 1) + (ToLE(f.services.value, 8) + (ToLE(f.timestamp.value, 4)
              + (ToLE(f.port.value, 2) + (ToLE(f.nonce.value, 4) + rest)))))
            == Ok(Read(Head(f.version.value, f.services.value, f.timestamp.value, f.port.value, f.nonce.value), rest))
  {
    Pow256Widths();
    var t4 := ToLE(f.nonce.value, 4) + rest;
    ParseUIntOfBytes(f.nonce, 4, rest);
    var t3 := ToLE(f.port.value, 2) + t4;
    ParseUIntOfBytes(f.port, 2, t4);
    var t2 := ToLE(f.timestamp.value, 4) + t3;
    ParseUIntOfBytes(f.timestamp, 4, t3);
    var t1 := ToLE(f.services.value, 8) + t2;
    ParseUIntOfBytes(f.services, 8, t2);
    ParseUIntOfBytes(f.version, 1, t1);
  }

  lemma DecodeTailSerialized(f: VersionFields, rest: seq<Byte>)
    requires Encodable(f) && |Utf8.Encode(f.userAgent.value)| <= MAX_VAR_INT
    ensures var u := Utf8.Encode(f.userAgent.value);
      DecodeTail((VarIntBytes(|u|) + u) + (ToLE(f.startHeight, 4) + (BoolBytes(f.relay) + rest)))
        == Ok(Read(Tail(f.userAgent.value, f.startHeight, f.relay), rest))
  {
    Pow256Widths();
    var t7 := BoolBytes(f.relay) + rest;
    ParseBoolOfBytes(f.relay, rest);
    var t6 := ToLE(f.startHeight, 4) + t7;
    ParseUIntOfBytes(Some(f.startHeight), 4, t7);
    ParseVarBytesOfString(f.userAgent, t6);
    Utf8.DecodeEncode(f.userAgent.value);
  }

  /** Deserialize reads back what Serialize wrote, consuming exactly those bytes and leaving what follows. */
  lemma DecodeSerialized(f: VersionFields, rest: seq<Byte>)
    requires Encodable(f) && |Utf8.Encode(f.userAgent.value)| <= MAX_VAR_INT
    ensures SerializeFields(f).failed == None
    ensures DecodeFields(SerializeFields(f).written + rest) == Ok(Read(f, rest))
  {
    SerializeLayout(f);
    var u := Utf8.Encode(f.userAgent.value);
    var a0, a1, a2, a3 := ToLE(f.version.value, 1), ToLE(f.services.value, 8), ToLE(f.timestamp.value, 4), ToLE(f.port.value, 2);
    var a4, a5, a6, a7 := ToLE(f.nonce.value, 4), VarIntBytes(|u|) + u, ToLE(f.startHeight, 4), BoolBytes(f.relay);
    var tail := a5 + (a6 + (a7 + rest));
    calc {
      SerializeFields(f).written + rest;
      (a0 + (a1 + (a2 + (a3 + (a4 + (a5 + (a6 + a7))))))) + rest;
      { Append(a0, a1 + (a2 + (a3 + (a4 + (a5 + (a6 + a7))))), rest);
        Append(a1, a2 + (a3 + (a4 + (a5 + (a6 + a7)))), rest);
        Append(a2, a3 + (a4 + (a5 + (a6 + a7))), rest);
        Append(a3, a4 + (a5 + (a6 + a7)), rest); }
      a0 + (a1 + (a2 + (a3 + ((a4 + (a5 + (a6 + a7))) + rest))));
      { Append(a4, a5 + (a6 + a7), rest);
        Append(a5, a6 + a7, rest);
        Append(a6, a7, rest); }
      a0 + (a1 + (a2 + (a3 + (a4 + tail))));
    }
    DecodeTailSerialized(f, rest);
    DecodeHeadSerialized(f, tail);
  }

  lemma SliceOfSuffix(s: seq<Byte>, i: nat, k: nat)
    requires i <= k <= |s|
    ensures s[i..k] == s[i..][..k - i]
  {
  }

  lemma Append(a: seq<Byte>, b: seq<Byte>, c: seq<Byte>)
    ensures (a + b) + c == a + (b + c)
  {
  }

  lemma DecodeHeadPrefix(s: seq<Byte>, k: nat)
    requires DecodeHead(s).Ok? && k <= |s|
    ensures var used := |s| - |DecodeHead(s).value.rest|;
      DecodeHead(s[..k]) == if k < used then Err(Truncated) else Ok(Read(DecodeHead(s).value.value, s[used..k]))
  {
    var s1 := ParseUInt(s, 1).value.rest;
    ParseUIntPrefix(s, 1, k);
    if k < 1 { return; }
    var k1 := k - 1;
    assert s[1..k] == s1[..k1];
    var s2 := ParseUInt(s1, 8).value.rest;
    ParseUIntPrefix(s1, 8, k1);
    if k1 < 8 { return; }
    var k2 := k1 - 8;
    assert s1[8..k1] == s2[..k2];
    var s3 := ParseUInt(s2, 4).value.rest;
    ParseUIntPrefix(s2, 4, k2);
    if k2 < 4 { return; }
    var k3 := k2 - 4;
    assert s2[4..k2] == s3[..k3];
    var s4 := ParseUInt(s3, 2).value.rest;
    ParseUIntPrefix(s3, 2, k3);
    if k3 < 2 { return; }
    var k4 := k3 - 2;
    assert s3[2..k3] == s4[..k4];
    ParseUIntPrefix(s4, 4, k4);
    if k4 >= 4 {
      assert s4[4..k4] == s[19..k];
    }
  }

  lemma DecodeTailPrefix(s: seq<Byte>, k: nat)
    requires DecodeTail(s).Ok? && k < |s| - |DecodeTail(s).value.rest|
    ensures DecodeTail(s[..k]) == Err(Truncated)
  {
    DecodeTailStages(s);
    var agent := ParseVarBytes(s).value;
    var used := |s| - |agent.rest|;
    if k < used {
      assert ParseVarBytes(s[..k]) == Err(Truncated) by {
        ParseVarBytesPrefix(s, k);
      }
      DecodeTailAgentErr(s[..k]);
    } else {
      var cut := Read(agent.value, agent.rest[..k - used]);
      assert ParseVarBytes(s[..k]) == Ok(cut) by {
        ParseVarBytesPrefix(s, k);
        SliceOfSuffix(s, used, k);
      }
      AfterAgentCut(agent.rest, k - used);
      DecodeTailAfterAgentErr(s[..k], cut);
    }
  }

  /** A successful DecodeTail is a successful read of each of its fields. */
  lemma DecodeTailStages(s: seq<Byte>)
    requires DecodeTail(s).Ok?
    ensures ParseVarBytes(s).Ok? && DecodeText(ParseVarBytes(s).value.value).Ok?
    ensures var g := ParseVarBytes(s).value;
      && ParseUInt(g.rest, 4).Ok? && ParseBool(ParseUInt(g.rest, 4).value.rest).Ok?
      && DecodeTail(s).value.rest == ParseBool(ParseUInt(g.rest, 4).value.rest).value.rest
  {
  }

  /** A failing var-string read is the failure of DecodeTail. */
  lemma DecodeTailAgentErr(s: seq<Byte>)
    requires ParseVarBytes(s).Err?
    ensures DecodeTail(s) == Err(ParseVarBytes(s).error)
  {
  }

  /** Whatever follows the user agent, cut short of the height and relay bytes, does not parse. */
  lemma AfterAgentCut(t: seq<Byte>, k: nat)
    requires ParseUInt(t, 4).Ok? && ParseBool(ParseUInt(t, 4).value.rest).Ok?
    requires k < |t| - |ParseBool(ParseUInt(t, 4).value.rest).value.rest|
    ensures ParseUInt(t[..k], 4).Err? || ParseBool(ParseUInt(t[..k], 4).value.rest).Err?
    ensures ParseUInt(t[..k], 4).Err? ==> ParseUInt(t[..k], 4).error == Truncated
    ensures ParseUInt(t[..k], 4).Ok? ==> ParseBool(ParseUInt(t[..k], 4).value.rest) == Err(Truncated)
  {
    var u := ParseUInt(t, 4).value.rest;
    ParseUIntPrefix(t, 4, k);
    if k >= 4 {
      assert t[4..k] == u[..k - 4];
      ParseBoolPrefix(u, k - 4);
    }
  }

  /** After a good user agent, a failing height or relay read is the failure of DecodeTail. */
  lemma DecodeTailAfterAgentErr(s: seq<Byte>, g: Read<seq<Byte>>)
    requires ParseVarBytes(s) == Ok(g) && DecodeText(g.value).Ok?
    requires ParseUInt(g.rest, 4).Err? || ParseBool(ParseUInt(g.rest, 4).value.rest).Err?
    requires ParseUInt(g.rest, 4).Err? ==> ParseUInt(g.rest, 4).error == Truncated
    requires ParseUInt(g.rest, 4).Ok? ==> ParseBool(ParseUInt(g.rest, 4).value.rest) == Err(Truncated)
    ensures DecodeTail(s) == Err(Truncated)
  {
  }

  /** A cut inside the five fixed-width fields fails in DecodeHead. */
  lemma HeadCutTruncated(s: seq<Byte>, k: nat)
    requires DecodeHead(s).Ok? && k < |s| - |DecodeHead(s).value.rest|
    ensures DecodeFields(s[..k]) == Err(Truncated)
  {
    DecodeHeadPrefix(s, k);
    DecodeFieldsHeadErr(s[..k]);
  }

  /** A cut after the five fixed-width fields still reads them, leaving the cut remainder. */
  lemma HeadOfCut(s: seq<Byte>, head: Read<Head>, k: nat)
    requires DecodeHead(s) == Ok(head) && |s| - |head.rest| <= k <= |s|
    ensures DecodeHead(s[..k]) == Ok(Read(head.value, head.rest[..k - (|s| - |head.rest|)]))
  {
    DecodeHeadPrefix(s, k);
    SliceOfSuffix(s, |s| - |head.rest|, k);
  }

  /** A cut after the five fixed-width fields but inside the last three fails in DecodeTail. */
  lemma TailCutTruncated(s: seq<Byte>, head: Read<Head>, k: nat)
    requires DecodeHead(s) == Ok(head) && DecodeTail(head.rest).Ok?
    requires |s| - |head.rest| <= k < |s| - |DecodeTail(head.rest).value.rest|
    ensures DecodeFields(s[..k]) == Err(Truncated)
  {
    var used := |s| - |head.rest|;
    var cut := Read(head.value, head.rest[..k - used]);
    HeadOfCut(s, head, k);
    assert DecodeTail(cut.rest) == Err(Truncated) by {
      DecodeTailPrefix(head.rest, k - used);
    }
    DecodeFieldsTailErr(s[..k], cut);
  }

  /** Any strict prefix of an input Deserialize accepts fails with Truncated, never with a partial payload. */
  lemma DecodePrefixTruncated(s: seq<Byte>, k: nat)
    requires DecodeFields(s).Ok? && k < |s| - |DecodeFields(s).value.rest|
    ensures DecodeFields(s[..k]) == Err(Truncated)
  {
    DecodeFieldsStages(s);
    var head := DecodeHead(s).value;
    if k < |s| - |head.rest| {
      HeadCutTruncated(s, k);
    } else {
      TailCutTruncated(s, head, k);
    }
  }

  /** The truncation property for what Serialize writes. */
  lemma SerializedPrefixTruncated(f: VersionFields, k: nat)
    requires Encodable(f) && |Utf8.Encode(f.userAgent.value)| <= MAX_VAR_INT
    requires k < |SerializeFields(f).written|
    ensures DecodeFields(SerializeFields(f).written[..k]) == Err(Truncated)
  {
    var w := SerializeFields(f).written;
    DecodeSerialized(f, []);
    assert w + [] == w;
    DecodePrefixTruncated(w, k);
  }

  // ---------------------------------------------------------------- the payload object

  /** A successful DecodeHead followed by a successful DecodeTail makes up DecodeFields. */
  lemma DecodeFieldsOfStages(s: seq<Byte>, head: Read<Head>, tail: Read<Tail>)
    requires DecodeHead(s) == Ok(head) && DecodeTail(head.rest) == Ok(tail)
    ensures DecodeFields(s) == Ok(Read(VersionFields(Some(head.value.version), Some(head.value.services),
                                                     Some(head.value.timestamp), Some(head.value.port),
                                                     Some(head.value.nonce), Some(tail.value.userAgent),
                                                     tail.value.startHeight, tail.value.relay), tail.rest))
  {
  }

  /** A successful DecodeFields is a successful DecodeHead followed by a successful DecodeTail. */
  lemma DecodeFieldsStages(s: seq<Byte>)
    requires DecodeFields(s).Ok?
    ensures DecodeHead(s).Ok? && DecodeTail(DecodeHead(s).value.rest).Ok?
    ensures DecodeFields(s).value.rest == DecodeTail(DecodeHead(s).value.rest).value.rest
  {
  }

  /** A successful DecodeFields consumes a non-empty prefix of its input and leaves the rest. */
  lemma DecodeFieldsConsumes(s: seq<Byte>)
    requires DecodeFields(s).Ok?
    ensures var rest := DecodeFields(s).value.rest;
      |rest| < |s| && rest == s[|s| - |rest|..]
  {
    DecodeFieldsStages(s);
    var head := DecodeHead(s).value;
    var tail := DecodeTail(head.rest).value;
    SuffixOfSuffix(s, head.rest, tail.rest);
  }

  /** A failing DecodeHead is the failure of DecodeFields. */
  lemma DecodeFieldsHeadErr(s: seq<Byte>)
    requires DecodeHead(s).Err?
    ensures DecodeFields(s) == Err(DecodeHead(s).error)
  {
  }

  /** A failing DecodeTail after a successful DecodeHead is the failure of DecodeFields. */
  lemma DecodeFieldsTailErr(s: seq<Byte>, head: Read<Head>)
    requires DecodeHead(s) == Ok(head) && DecodeTail(head.rest).Err?
    ensures DecodeFields(s) == Err(DecodeTail(head.rest).error)
  {
  }

  /** The reads of Deserialize up to the nonce, against DecodeHead. */
  method ReadHead(reader: BinaryReader) returns (r: Result<Head, DecodeError>)
    requires reader.Valid()
    modifies reader
    ensures reader.Valid()
    ensures var spec := DecodeHead(old(reader.Remaining()));
      && r.Ok? == spec.Ok?
      && (spec.Ok? ==> r.value == spec.value.value && reader.Remaining() == spec.value.rest)
      && (spec.Err? ==> r.error == spec.error)
  {
    ghost var input := reader.Remaining();
    var v := reader.ReadUInt(1);
    if v.Err? { return Err(v.error); }
    ghost var a := Read(v.value, reader.Remaining());
    var services := reader.ReadUInt(8);
    if services.Err? { return Err(services.error); }
    ghost var b := Read(services.value, reader.Remaining());
    var timestamp := reader.ReadUInt(4);
    if timestamp.Err? { return Err(timestamp.error); }
    ghost var c := Read(timestamp.value, reader.Remaining());
    var port := reader.ReadUInt(2);
    if port.Err? { return Err(port.error); }
    ghost var d := Read(port.value, reader.Remaining());
    var nonce := reader.ReadUInt(4);
    if nonce.Err? { return Err(nonce.error); }
    DecodeHeadOfReads(input, a, b, c, d, Read(nonce.value, reader.Remaining()));
    r := Ok(Head(v.value, services.value, timestamp.value, port.value, nonce.value));
  }

  /** The reads of Deserialize from the user agent on, against DecodeTail. */
  method ReadTail(reader: BinaryReader) returns (r: Result<Tail, DecodeError>)
    requires reader.Valid()
    modifies reader
    ensures reader.Valid()
    ensures var spec := DecodeTail(old(reader.Remaining()));
      && r.Ok? == spec.Ok?
      && (spec.Ok? ==> r.value == spec.value.value && reader.Remaining() == spec.value.rest)
      && (spec.Err? ==> r.error == spec.error)
  {
    ghost var input := reader.Remaining();
    var agent := reader.ReadVarBytes();
    if agent.Err? { return Err(agent.error); }
    ghost var g := Read(agent.value, reader.Remaining());
    var text := DecodeText(agent.value);
    if text.Err? { return Err(text.error); }
    var height := reader.ReadUInt(4);
    if height.Err? { return Err(height.error); }
    ghost var h := Read(height.value, reader.Remaining());
    var relay := reader.ReadBool();
    if relay.Err? { return Err(relay.error); }
    DecodeTailOfReads(input, g, text.value, h, Read(relay.value, reader.Remaining()));
    r := Ok(Tail(text.value, height.value, relay.value));
  }

  class VersionPayload {
    var version: Option<int>
    var services: Option<int>
    var timestamp: Option<int>
    var port: Option<int>
    var nonce: Option<int>
    var userAgent: Option<string>
    var startHeight: int
    var relay: bool

    function Fields(): VersionFields
      reads this
    {
      VersionFields(version, services, timestamp, port, nonce, userAgent, startHeight, relay)
    }

    /**
     * __init__ on a chain whose `Height()` can be called. The clock reading `now` and what
     * `Height()` returns (None also when there is no default chain) are passed in.
     */
    constructor (port: Option<int>, nonce: Option<int>, userAgent: Option<string>, now: int, height: Option<int>)
      ensures Ok(Fields()) == InitFields(port, nonce, userAgent, now, HeightMethod(height))
      ensures TruthyInt(port) && TruthyInt(nonce) && TruthyString(userAgent) ==>
        Fields() == VersionFields(Some(0), Some(NODE_NETWORK), Some(now), port, nonce, userAgent,
                                  if height.Some? then height.value else 1, true)
      ensures !(TruthyInt(port) && TruthyInt(nonce) && TruthyString(userAgent)) ==> Fields() == CLASS_DEFAULTS
    {
      version, services, timestamp := None, None, None;
      this.port, this.nonce, this.userAgent := None, None, None;
      startHeight, relay := 1, false;
      if TruthyInt(port) && TruthyInt(nonce) && TruthyString(userAgent) {
        this.port := port;
        version := Some(0);
        services := Some(NODE_NETWORK);
        timestamp := Some(now);
        this.nonce := nonce;
        this.userAgent := userAgent;
        if height.Some? {
          startHeight := height.value;
        }
        relay := true;
      }
    }

    /** Serialize: the writes in wire order; the result names the field whose write raised, if any. */
    method Serialize(writer: BinaryWriter) returns (failed: Option<Field>)
      modifies writer
      ensures writer.data == old(writer.data) + SerializeFields(old(Fields())).written
      ensures failed == SerializeFields(old(Fields())).failed
    {
      var f := Fields();
      ghost var goal := EmitOnto(writer.data, FieldEncodings(f));
      EmitOntoAppends(writer.data, FieldEncodings(f));
      failed := WriteHead(writer, f);
      if failed.None? {
        failed := WriteTail(writer, f);
      }
    }

    /** Stores each decoded field in its attribute. */
    method Assign(f: VersionFields)
      modifies this
      ensures Fields() == f
    {
      version, services, timestamp, port, nonce := f.version, f.services, f.timestamp, f.port, f.nonce;
      userAgent, startHeight, relay := f.userAgent, f.startHeight, f.relay;
    }

    /**
     * Deserialize: reads the fields in wire order. On success the payload holds what DecodeFields
     * yields and the reader sits just past it; on failure the error is DecodeFields' error.
     */
    method Deserialize(reader: BinaryReader) returns (r: Result<(), DecodeError>)
      requires reader.Valid()
      modifies this, reader
      ensures reader.Valid()
      ensures var spec := DecodeFields(old(reader.Remaining()));
        && r.Ok? == spec.Ok?
        && (spec.Ok? ==> Fields() == spec.value.value && reader.Remaining() == spec.value.rest)
        && (spec.Err? ==> r.error == spec.error)
    {
      ghost var input := reader.Remaining();
      var head := ReadHead(reader);
      if head.Err? {
        DecodeFieldsHeadErr(input);
        return Err(head.error);
      }
      ghost var afterHead := reader.Remaining();
      var tail := ReadTail(reader);
      if tail.Err? {
        DecodeFieldsTailErr(input, Read(head.value, afterHead));
        return Err(tail.error);
      }
      DecodeFieldsOfStages(input, Read(head.value, afterHead), Read(tail.value, reader.Remaining()));
      Assign(VersionFields(Some(head.value.version), Some(head.value.services), Some(head.value.timestamp),
                           Some(head.value.port), Some(head.value.nonce), Some(tail.value.userAgent),
                           tail.value.startHeight, tail.value.relay));
      r := Ok(());
    }
  }
}
