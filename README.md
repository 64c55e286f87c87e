# neo-python JSON-RPC front door and `version` payload, in Dafny

This project models three small pieces of neo-python and proves what they promise.

- **`LimitedSizeDict` and the response decorators** (`neo/api/utils.py`).
  - `LimitedSizeDict` is an insertion-ordered dictionary. After every write it pops entries from
    the front until it holds at most `size_limit`.
  - `json_response` serialises a handler's result and always announces JSON. It gzip-compresses
    payloads longer than 1549 characters when an `Accept-Encoding` value contains `"gzip"`.
  - `cors_header` passes the result through and sets two fixed CORS headers.
- **HTTP Basic authentication** (`neo/api/JSONRPC/auth.py`).
  - A per-username failure counter saturates at 100. It lives in a `LimitedSizeDict(size_limit=100)`
    shared by every checker.
  - A failed login backs off for `2 * 2^(n-1)` seconds.
  - `requestAvatarId` makes the credential decision.
  - The realm chooses between the plain API and the authenticated one.
- **The Neo P2P `version` message** (`neo/Network/Payloads/VersionPayload.py`).
  - `__init__` fills in the fields.
  - `Serialize` writes u8, u64, u32, u16, u32, var-string, u32, bool in that order, little-endian.
  - `Deserialize` reads them back the same way.

Files:

- `wrappers.dfy`: `Option` and `Result`.
- `bytes.dfy`: octets and little-endian integers.
- `utf8.dfy`: the strict UTF-8 codec of `str.encode` and `bytes.decode`. Both round trips are proved.
- `wire.dfy`: the binary reader and writer the payload uses. Their code is not part of this
  model, so this module fixes their behaviour as an explicit assumption:
  - little-endian integers;
  - the CompactSize variable-length integer (1, 3, 5 or 9 bytes);
  - var-strings;
  - bools read as true for any non-zero byte;
  - failure on a short read;
  - failure on a write of a missing or out-of-range value.
- `version_payload.dfy`: the payload object, `Serialize` and `Deserialize`. Each method is proved
  against a pure function (`SerializeFields`, `DecodeFields`), and that function's properties are
  proved separately.
- `limited_size_dict.dfy`:
  - `OrderedMap`, the value view of an `OrderedDict`;
  - `SetItem`, the specification of one write;
  - the class `LimitedSizeDict`, whose `Set` performs the write in place with the source's
    `while len(self) > size_limit: popitem(last=False)` loop.
- `response.dfy`: `_response_data` and `_request`, over a `Request` object whose headers
  `SetHeader` updates in place.
- `auth.dfy`: the failure counter, the backoff delay, `requestAvatarId` (as a method over the
  shared history, proved against the pure `CheckCredentials`) and `requestAvatar`.

Overwriting a key of a `LimitedSizeDict` keeps the key's original position, because
`OrderedDict.__setitem__` does not move an existing key. So eviction follows first insertion, not
the recency of the last update; `OverwriteKeepsOrder` states this.

A handler result that is already `bytes` and longer than the threshold, sent to a client that
accepts gzip, makes `bytes(response_data, 'utf-8')` raise `TypeError`. The model returns
`EncodingTypeError` in that case.

## Model

| member | source | states |
|---|---|---|
| LimitedDict.Put | neo/api/utils.py:74 | an existing key keeps its position and takes the new value; a new key goes to the back; well-formedness is preserved |
| LimitedDict.PopFront | neo/api/utils.py:80 | `popitem(last=False)` drops the front entry, preserves well-formedness and shrinks the size by one |
| LimitedDict.Evict | neo/api/utils.py:79-80 | the eviction loop preserves well-formedness and leaves at most `limit` keys; a map already within the limit is left alone |
| LimitedDict.CheckSizeLimit | neo/api/utils.py:77-80 | `_check_size_limit` leaves a well-formed map within `size_limit` when one is set, and changes nothing when it is None |
| LimitedDict.SetItem | neo/api/utils.py:73-75 | one `__setitem__` leaves a well-formed map, within `size_limit` when one is set |
| LimitedDict.EvictKeepsLastKeys | neo/api/utils.py:79-80 | the eviction loop keeps exactly the last `limit` keys, in their order |
| LimitedDict.EvictKeepsValues | neo/api/utils.py:79-80 | the eviction loop changes no value of a key it keeps |
| LimitedDict.EvictKeepsSuffix | neo/api/utils.py:79-80 | closed form of the loop: it keeps the last `limit` keys, each with its old value |
| LimitedDict.NewKeyEvictsFront | neo/api/utils.py:73-80 | a new key written into a full map evicts exactly the first key in insertion order and becomes the last key |
| LimitedDict.OverwriteKeepsOrder | neo/api/utils.py:74-75 | overwriting a present key keeps the key order and the size and changes only that key's value |
| LimitedDict.NoLimitNoEviction | neo/api/utils.py:77-78 | with `size_limit` None no key is ever evicted |
| LimitedDict.SetItemFrame | neo/api/utils.py:73-80 | the written key maps to the new value if it survives; every other surviving key keeps its value; a vanished key was among the popped front entries |
| LimitedDict.WrittenKeySurvives | neo/api/utils.py:73-80 | the written key survives iff there is no limit or the limit is at least 1 |
| LimitedDict.LimitedSizeDict.constructor | neo/api/utils.py:68-71 | a new dictionary is empty and has the given limit |
| LimitedDict.LimitedSizeDict.Len | neo/api/utils.py:77-80 | `len(d)` never exceeds `size_limit` |
| LimitedDict.LimitedSizeDict.Get | neo/api/JSONRPC/auth.py:66 | `dict.get` returns the stored value iff the key is present, else None |
| LimitedDict.LimitedSizeDict.PopFirst | neo/api/utils.py:80 | removes and returns the front entry; the new contents are `PopFront` of the old ones |
| LimitedDict.LimitedSizeDict.Set | neo/api/utils.py:73-80 | the in-place write and eviction loop leave exactly `SetItem` of the old contents and keep the size within the limit |
| ResponseDecorators.Contains | neo/api/utils.py:30 | Python's substring test: true iff the needle occurs at some index of the haystack |
| ResponseDecorators.AnyMentionsGzip | neo/api/utils.py:30 | true iff some `Accept-Encoding` value contains `"gzip"` |
| ResponseDecorators.Serialised | neo/api/utils.py:24 | a dict or list is sent as `json.dumps` of it; a str or bytes result is sent as is |
| ResponseDecorators.AcceptsGzip | neo/api/utils.py:28-30 | the client accepts gzip iff the header is present and one of its values contains "gzip" |
| ResponseDecorators.ShouldCompress | neo/api/utils.py:27-32 | compression happens iff the payload is at least 1550 long and the client accepts gzip; it needs a non-empty header |
| ResponseDecorators.Request.SetHeader | neo/api/utils.py:25 | `setHeader` replaces the named header and leaves the others alone |
| ResponseDecorators.ResponseData | neo/api/utils.py:22-36 | `Content-Type: application/json` is always set. Data is compressed iff its length exceeds 1549 and some `Accept-Encoding` value contains "gzip"; then the body is gzip of its UTF-8 bytes, with `Content-Encoding: gzip` and `Content-Length` set to the compressed length. Otherwise the data is returned unchanged. A bytes payload on the compression path is a TypeError |
| ResponseDecorators.CorsRequest | neo/api/utils.py:53-56 | the result is returned unchanged and exactly the two fixed CORS headers are set |
| ResponseDecorators.ThresholdIsMtuPlusBase | neo/api/utils.py:6-9 | the threshold is 1500 + 49: a 1549-long payload is not compressed, a 1550-long one is |
| ResponseDecorators.NoHeaderNoCompression | neo/api/utils.py:28-29 | with no `Accept-Encoding` header, or an empty list of values, nothing is compressed |
| ResponseDecorators.SubstringNotNegotiation | neo/api/utils.py:30 | `gzip;q=0` and `x-gzip` both count as accepting gzip: a substring test, not content negotiation |
| ResponseDecorators.CaseSensitive | neo/api/utils.py:30 | `GZIP` does not count: the test is case-sensitive |
| Auth.RecordFailure | neo/api/JSONRPC/auth.py:65-74 | `get_consecutive_errors` keeps the history well formed, and either leaves it alone or stores the returned count for the user through the size-limited write |
| Auth.FirstFailureCountsOne | neo/api/JSONRPC/auth.py:71-74 | the first failure of an unknown user stores 1 and returns 1 |
| Auth.FailureIncrements | neo/api/JSONRPC/auth.py:67-70 | a stored count c below 100 becomes c + 1 and is returned; key order is unchanged and nothing is evicted |
| Auth.FailureSaturates | neo/api/JSONRPC/auth.py:67-70 | from 100 on the count is returned as is and the history is not written |
| Auth.CountStaysInRange | neo/api/JSONRPC/auth.py:65-74 | with counts in 1..100, the returned count is in 1..100; the history keeps its counts in range and its size within 100 |
| Auth.Backoff | neo/api/JSONRPC/auth.py:62-63 | the first failure waits exactly the base delay `t` |
| Auth.BackoffPositive | neo/api/JSONRPC/auth.py:62-63 | a positive base gives a positive delay, at least the base from the first failure on |
| Auth.BackoffDoubles | neo/api/JSONRPC/auth.py:62-63 | each further failure doubles the backoff delay |
| Auth.ThreeFailuresBackOff | neo/api/JSONRPC/auth.py:87-88 | a fresh user's first three failures back off for 2, 4 and 8 seconds |
| Auth.Refuse | neo/api/JSONRPC/auth.py:86-90 | a refusal is `Unauthorized` with the backoff delay of the count `get_consecutive_errors` returns, and leaves the history that call leaves |
| Auth.CheckCredentials | neo/api/JSONRPC/auth.py:76-90 | `requestAvatarId` keeps the history well formed and writes it only when it refuses |
| Auth.SucceedsIffBothMatch | neo/api/JSONRPC/auth.py:83-85 | success iff the username decodes to the stored one and `to_aes_key` of the decoded password is the stored key; success returns the username and leaves the history alone |
| Auth.RefusalBacksOff | neo/api/JSONRPC/auth.py:83-90 | every refusal comes from a username and password whose username decodes and either differs from the stored one or comes with a decodable password deriving the wrong key; it counts one more failure for that name and carries the backoff delay of the new count |
| Auth.MismatchIsRefused | neo/api/JSONRPC/auth.py:83-90 | conversely, a decodable username that differs from the stored one, or a matching one whose decodable password derives a different key, is refused, counted and delayed by the backoff of the new count |
| Auth.ThreeWrongPasswords | neo/api/JSONRPC/auth.py:83-90 | three logins of a user the history does not know, with a password that derives the wrong key, are refused with delays of 2, 4 and 8 seconds |
| Auth.UndecodableNotCounted | neo/api/JSONRPC/auth.py:83 | a username that is not UTF-8, or the stored username with a password that is not, raises UnicodeDecodeError and leaves the history alone: neither counted nor delayed |
| Auth.OtherCredentialsUnhandled | neo/api/JSONRPC/auth.py:77-81 | credentials that are not a username and password raise UnhandledCredentials before any counting |
| Auth.BasicUserPassCredentialChecker.constructor | neo/api/JSONRPC/auth.py:55-60 | the checker stores the username and key it is given and shares the failure history passed in, limited to 100 entries with every count in 1..100 |
| Auth.BasicUserPassCredentialChecker.GetConsecutiveErrors | neo/api/JSONRPC/auth.py:65-74 | the returned count and the new shared history are those of `RecordFailure` on the old history; the count is in 1..100 and the history keeps every count in that range |
| Auth.BasicUserPassCredentialChecker.BackoffDelay | neo/api/JSONRPC/auth.py:62-63 | the delay is `t * 2^(n-1)`: t times a power of two for n >= 1, and t divided by `2^(1-n)` below |
| Auth.BasicUserPassCredentialChecker.RequestAvatarId | neo/api/JSONRPC/auth.py:76-90 | the outcome and the new shared history are those of `CheckCredentials` on the old history |
| Auth.RequestAvatar | neo/api/JSONRPC/auth.py:39-48 | a user avatar gets the authenticated API; the anonymous avatar gets the plain extended API |
| Bytes.FromLEToLE | neo/Network/Payloads/VersionPayload.py:49-53 | reading back a little-endian integer yields the integer written |
| Bytes.ToLEFromLE | neo/Network/Payloads/VersionPayload.py:49-53 | every w-byte string is the encoding of its value |
| Utf8.DecodeEncode | neo/Network/Payloads/VersionPayload.py:64 | decoding the UTF-8 bytes of a string yields the string |
| Utf8.EncodeDecode | neo/Network/Payloads/VersionPayload.py:54 | bytes the strict decoder accepts are exactly the encoding of what it yields |
| Wire.UIntBytes | neo/Network/Payloads/VersionPayload.py:59-63 | an integer write succeeds iff the value is present and fits its width, and then emits exactly that many bytes |
| Wire.VarStringBytes | neo/Network/Payloads/VersionPayload.py:64 | a var-string write succeeds iff the string is present and its UTF-8 length fits 64 bits |
| Wire.ParseUIntOfBytes | neo/Network/Payloads/VersionPayload.py:49-53 | reading a fixed-width integer returns the value written and the bytes after it |
| Wire.ParseVarIntOfBytes | neo/Network/Payloads/VersionPayload.py:54 | reading a variable-length integer returns the value written, up to 2^63 - 1 |
| Wire.ParseVarBytesOfString | neo/Network/Payloads/VersionPayload.py:54 | reading a var-string returns the UTF-8 bytes written and the bytes after them |
| Wire.ParseBoolOfBytes | neo/Network/Payloads/VersionPayload.py:56 | reading a bool returns the bool written |
| Wire.ParseUIntPrefix | neo/Network/Payloads/VersionPayload.py:49-53 | a cut input fails with Truncated before the field's end and reads the same value after it |
| Wire.ParseVarBytesPrefix | neo/Network/Payloads/VersionPayload.py:54 | a cut var-string fails with Truncated before its end and reads the same bytes after it |
| Wire.ParseBoolPrefix | neo/Network/Payloads/VersionPayload.py:56 | a cut bool fails with Truncated |
| Wire.BinaryWriter.WriteUInt | neo/Network/Payloads/VersionPayload.py:59-63 | appends the little-endian bytes when the value fits, else reports failure and writes nothing |
| Wire.BinaryWriter.WriteVarString | neo/Network/Payloads/VersionPayload.py:64 | appends length prefix and UTF-8 bytes when writable, else reports failure and writes nothing |
| Wire.BinaryWriter.WriteBool | neo/Network/Payloads/VersionPayload.py:66 | appends one byte, 1 or 0 |
| Wire.BinaryReader.ReadUInt | neo/Network/Payloads/VersionPayload.py:49-53 | returns what `ParseUInt` reads and advances past it, or fails leaving the cursor in place |
| Wire.BinaryReader.ReadVarBytes | neo/Network/Payloads/VersionPayload.py:54 | returns what `ParseVarBytes` reads and advances past it, or fails leaving the cursor in place |
| Wire.BinaryReader.ReadBool | neo/Network/Payloads/VersionPayload.py:56 | returns what `ParseBool` reads and advances past it, or fails leaving the cursor in place |
| Payloads.FieldEncodings | neo/Network/Payloads/VersionPayload.py:58-66 | the eight writes of `Serialize` in order, each with the bytes it emits or None where it raises; its properties are the `Serialize*` lemmas below |
| Payloads.SerializeFields | neo/Network/Payloads/VersionPayload.py:58-66 | `Serialize` as a value: the writes in order, stopping at the first that raises; its properties are the `Serialize*` lemmas below |
| Payloads.EmitOnto | neo/Network/Payloads/VersionPayload.py:58-66 | the writer's stream when some bytes are already written and the given writes follow, stopping at the first that raises; `EmitOntoAppends` relates it to `Emit`, on which `SerializeFields` rests |
| Payloads.EmitOntoAppends | neo/Network/Payloads/VersionPayload.py:58-66 | writing onto an existing stream appends exactly what the writes emit from scratch and raises at the same field |
| Payloads.EmitAllSome | neo/Network/Payloads/VersionPayload.py:58-66 | when every write succeeds, the writer holds all the chunks in order |
| Payloads.EmitStopsAtFirstFailure | neo/Network/Payloads/VersionPayload.py:58-66 | the first write that raises ends serialisation; the writer holds exactly the chunks before it |
| Payloads.SerializeSucceedsIff | neo/Network/Payloads/VersionPayload.py:58-66 | serialisation raises iff some field is missing or outside its wire width |
| Payloads.SerializeLayout | neo/Network/Payloads/VersionPayload.py:58-66 | the written bytes are the eight fields in wire order: u8, u64, u32, u16, u32, var-string, u32, bool, little-endian |
| Payloads.SerializedLength | neo/Network/Payloads/VersionPayload.py:58-66 | the encoding is 24 + varint length + n bytes long, where n is the UTF-8 length of the user agent |
| Payloads.DecodeFields | neo/Network/Payloads/VersionPayload.py:48-56 | `Deserialize` as a value: the eight reads in wire order, stopping at the first failure; its properties are `DecodeFieldsConsumes` and the `Decode*` lemmas below |
| Payloads.DecodeFieldsConsumes | neo/Network/Payloads/VersionPayload.py:48-56 | a successful read consumes a non-empty prefix of the input and leaves the rest |
| Payloads.DecodeHead | neo/Network/Payloads/VersionPayload.py:49-53 | the five fixed-width reads; a success consumes a non-empty prefix and leaves the rest |
| Payloads.DecodeTail | neo/Network/Payloads/VersionPayload.py:54-56 | the user-agent, start-height and relay reads; a success consumes a non-empty prefix and leaves the rest |
| Payloads.DecodeLast | neo/Network/Payloads/VersionPayload.py:55-56 | the start-height and relay reads consume a non-empty prefix and leave the rest |
| Payloads.DecodeText | neo/Network/Payloads/VersionPayload.py:54 | `decode('utf-8')` succeeds iff the bytes are valid UTF-8, and fails with the UTF-8 error otherwise |
| Payloads.DecodeTextReencodes | neo/Network/Payloads/VersionPayload.py:54 | a decoded user agent re-encodes to exactly the bytes it was read from |
| Payloads.DecodeSerialized | neo/Network/Payloads/VersionPayload.py:48-66 | Deserialize reads back what Serialize wrote, consuming exactly those bytes and leaving any that follow |
| Payloads.DecodeHeadPrefix | neo/Network/Payloads/VersionPayload.py:49-53 | a cut inside the five fixed-width fields fails with Truncated; a cut after them reads the same five values |
| Payloads.DecodeTailPrefix | neo/Network/Payloads/VersionPayload.py:54-56 | a cut inside the user agent, start height or relay fails with Truncated |
| Payloads.DecodePrefixTruncated | neo/Network/Payloads/VersionPayload.py:48-56 | every strict prefix of an accepted input fails with Truncated |
| Payloads.SerializedPrefixTruncated | neo/Network/Payloads/VersionPayload.py:48-66 | every strict prefix of a serialised payload fails to deserialise with Truncated |
| Payloads.WriteHead | neo/Network/Payloads/VersionPayload.py:59-63 | the first five writes advance the writer exactly as the write specification does, raising at the first field that cannot be written |
| Payloads.WriteMiddle | neo/Network/Payloads/VersionPayload.py:61-63 | the timestamp, port and nonce writes advance the writer exactly as the write specification does |
| Payloads.WriteTail | neo/Network/Payloads/VersionPayload.py:64-66 | the last three writes advance the writer exactly as the write specification does |
| Payloads.WriteLast | neo/Network/Payloads/VersionPayload.py:65-66 | the start height and relay writes advance the writer exactly as the write specification does |
| Payloads.ReadHead | neo/Network/Payloads/VersionPayload.py:49-53 | the first five reads return what `DecodeHead` yields and move the cursor past it, or fail with its error |
| Payloads.ReadTail | neo/Network/Payloads/VersionPayload.py:54-56 | the last three reads return what `DecodeTail` yields and move the cursor past it, or fail with its error |
| Payloads.InitFields | neo/Network/Payloads/VersionPayload.py:15-38 | `__init__` raises exactly when port, nonce and user agent are truthy and the chain's `Height` is not callable; with any of the three falsy the class defaults stay; otherwise Version 0, node-network services, the current time, the given values and Relay true, with a start height other than 1 only from a `Height()` call that returned it |
| Payloads.VersionPayload.constructor | neo/Network/Payloads/VersionPayload.py:15-38 | the fields are those of `InitFields` for a chain whose `Height()` returns `height`; spelled out: with truthy port, nonce and user agent: Version 0, node-network services, the current time, the given values, the chain height when one is known (else 1), and Relay true. Otherwise the class defaults |
| Payloads.VersionPayload.Serialize | neo/Network/Payloads/VersionPayload.py:58-66 | appends exactly `SerializeFields` of the payload's fields and reports the field whose write raised, if any |
| Payloads.VersionPayload.Deserialize | neo/Network/Payloads/VersionPayload.py:48-56 | succeeds iff `DecodeFields` does; then the fields are the decoded ones and the reader sits just past them; otherwise the error is that of `DecodeFields` |

## Left out

- `VersionPayload.Size()` is not modelled. It adds up platform-dependent `ctypes.sizeof` values
  and `sys.getsizeof` of a Python string, so it is not a wire length. `SerializedLength` states
  the real length.
- `__init__`: the `print` is left out. `datetime.utcnow()` is the parameter `now`.
- Payloads.VersionPayload.constructor: assumes that `Blockchain.Default().Height()` can be called
  and returns an int or None (the parameter `height`, None also when there is no default chain).
  Blockchain is not part of this model, and `neo/bin/api_server.py:93` reads `Height` as a
  property (`Height + 1`). If it is one, line 35 raises TypeError after six fields are set and no
  payload results. A Dafny constructor cannot raise, so that path is stated by `InitFields`
  (`HeightAttribute` gives `Err(HeightNotCallable)`), not by the constructor.
- The BinaryReader and BinaryWriter of neo.IO are not part of this model. `wire.dfy` states their
  behaviour as an assumption.
- Wire.BinaryReader.ReadUInt, ReadVarBytes, ReadBool: the cursor position after a failed read is
  part of the assumption, not of the source. The model leaves the cursor in place, whereas a
  stream reader may already have consumed a short remainder. `Deserialize`'s contract does not
  depend on this position.
- Payloads.VersionPayload.Deserialize: when a read fails midway, the source has already stored the
  fields read before it. The contract says nothing about the fields after a failure, and the model
  assigns them only once every read has succeeded.
- Wire.ParseVarIntOfBytes: a var-string longer than 2^63 - 1 bytes is written but refused on
  reading. So the round trip is stated only up to that length.
- `time.sleep` is not performed: `BackoffDelay` returns the delay it would sleep for. With the base
  of 2 that `requestAvatarId` passes, that delay is an exact integer number of seconds, here a real.
- Auth.Backoff, Auth.Refuse, Auth.MismatchIsRefused: the sleep's own failure is not modelled. CPython
  converts the sleep time to a 64-bit count of nanoseconds and raises OverflowError above about
  9.22e9 seconds. The delay `2 * 2^(n-1)` passes that from the 34th consecutive failure on. There
  `requestAvatarId` raises, after storing the count, instead of returning the refusal. The model
  still returns `Unauthorized` with the delay for every count up to 100.
- `json.dumps`, `gzip.compress` and `to_aes_key` are foreign functions. They are function
  parameters with no properties assumed.
- The Twisted glue is not modelled: `Portal`, `HTTPAuthSessionWrapper`, `BasicCredentialFactory`,
  `AllowAnonymousAccess`, `guard_resource_with_http_auth` and the avatar resource object. The
  headers are set only on the success path of the Deferred, and the model says nothing about
  error responses.
- Deferred chaining is not modelled. Neither is concurrent access to the shared failure history,
  which has no locking: the model is sequential.
- `neo/bin/api_server.py` is not modelled. It is argument parsing, logging, wallet opening and
  reactor plumbing.
- Handler results other than a dict, list, str or bytes are not modelled.
- Strings with lone surrogates, on which `str.encode('utf-8')` raises, are not modelled: a Dafny
  `char` is a Unicode scalar value.
- `LimitedSizeDict` is modelled only as built with the `size_limit` keyword and no initial items;
  a negative `size_limit` is not modelled (the limit is a `nat`).
- Python's dynamic types are not modelled: a truthy or falsy count of a non-integer type, or a
  username that is not bytes. Counts are integers and credentials are byte strings.
