/**
 * The two response decorators of neo/api/utils.py, as the callbacks they add:
 * json_response's `_response_data` (serialise, then gzip large payloads for clients that accept
 * gzip) and cors_header's `_request` (two fixed CORS headers).
 *
 * json.dumps and gzip.compress are foreign functions and are passed in as function parameters;
 * the request is an object whose response headers setHeader updates in place.
 */
module ResponseDecorators {
  import opened Wrappers
  import opened Bytes
  import Utf8

  /** The gzip level `_response_data` asks for; `compress` stands for gzip.compress at this level. */
  const COMPRESS_FASTEST: int := 1
  const BASE_STRING_SIZE: int := 49
  const MTU_TCP_PACKET_SIZE: int := 1500
  /** Payloads longer than this are gzip-compressed when the client accepts gzip. */
  const COMPRESS_THRESHOLD: int := MTU_TCP_PACKET_SIZE + BASE_STRING_SIZE

  /** What a decorated handler returns: a dict or list (JSON-serialisable), a str, or bytes. */
  datatype HandlerResult<J> = Structured(json: J) | Text(text: string) | Binary(bytes: seq<Byte>)

  /** A response body: a str or a bytes object. */
  datatype Body = TextBody(text: string) | BinaryBody(bytes: seq<Byte>)

  /** A value passed to setHeader: a string, or the integer Content-Length. */
  datatype HeaderValue = HeaderText(text: string) | HeaderInt(number: int)

  /**
   * What `_response_data` produces: the body handed on down the callback chain, or the TypeError
   * that `bytes(response_data, 'utf-8')` raises when the payload is already bytes.
   */
  datatype Outcome = Respond(body: Body) | EncodingTypeError

  /** `len(response_data)`: code points of a str, bytes of a bytes object. */
  function Length(b: Body): nat {
    match b
    case TextBody(t) => |t|
    case BinaryBody(d) => |d|
  }

  /** `json.dumps(res) if isinstance(res, (dict, list)) else res`. */
  function Serialised<J>(res: HandlerResult<J>, dumps: J -> string): (b: Body)
    ensures res.Structured? ==> b == TextBody(dumps(res.json))
    ensures res.Text? ==> b == TextBody(res.text)
    ensures res.Binary? ==> b == BinaryBody(res.bytes)
  {
    match res
    case Structured(j) => TextBody(dumps(j))
    case Text(t) => TextBody(t)
    case Binary(d) => BinaryBody(d)
  }

  /** `needle` occurs in `hay` starting at index `i`. */
  predicate OccursAt(hay: string, needle: string, i: int) {
    0 <= i <= |hay| - |needle| && hay[i..i + |needle|] == needle
  }

  /** Python's `needle in hay` on strings: `needle` occurs somewhere in `hay`. */
  function Contains(hay: string, needle: string): (r: bool)
    ensures r <==> exists i :: OccursAt(hay, needle, i)
    decreases |hay|
  {
    if |hay| < |needle| then false
    else if hay[..|needle|] == needle then
      assert OccursAt(hay, needle, 0);
      true
    else
      var found := Contains(hay[1..], needle);
      assert found ==> exists i :: OccursAt(hay, needle, i) by {
        if found {
          var j :| OccursAt(hay[1..], needle, j);
          assert hay[j + 1..j + 1 + |needle|] == hay[1..][j..j + |needle|];
          assert OccursAt(hay, needle, j + 1);
        }
      }
      assert (exists i :: OccursAt(hay, needle, i)) ==> found by {
        if exists i :: OccursAt(hay, needle, i) {
          var i :| OccursAt(hay, needle, i);
          assert i != 0;
          assert hay[1..][i - 1..i - 1 + |needle|] == hay[i..i + |needle|];
          assert OccursAt(hay[1..], needle, i - 1);
        }
      }
      found
  }

  /** `any("gzip" in encoding for encoding in encodings)`. */
  function AnyMentionsGzip(encodings: seq<string>): (r: bool)
    ensures r <==> exists k :: 0 <= k < |encodings| && Contains(encodings[k], "gzip")
  {
    if encodings == [] then false
    else Contains(encodings[0], "gzip") || AnyMentionsGzip(encodings[1..])
  }

  /**
   * The raw Accept-Encoding header values (None when the header is absent) allow gzip: the list
   * must be truthy, i.e. present and non-empty, and one value must contain "gzip".
   */
  predicate AcceptsGzip(acceptEncoding: Option<seq<string>>): (b: bool)
    ensures b <==> (acceptEncoding.Some? &&
                    exists k :: 0 <= k < |acceptEncoding.value| && Contains(acceptEncoding.value[k], "gzip"))
  {
    acceptEncoding.Some? && |acceptEncoding.value| > 0 && AnyMentionsGzip(acceptEncoding.value)
  }

  /** The compression gate of `_response_data`. */
  predicate ShouldCompress(b: Body, acceptEncoding: Option<seq<string>>): (c: bool)
    ensures c ==> acceptEncoding.Some? && acceptEncoding.value != []
    ensures c <==> Length(b) >= 1550 && AcceptsGzip(acceptEncoding)
  {
    Length(b) > COMPRESS_THRESHOLD && AcceptsGzip(acceptEncoding)
  }

  const CONTENT_TYPE: string := "Content-Type"
  const CONTENT_ENCODING: string := "Content-Encoding"
  const CONTENT_LENGTH: string := "Content-Length"
  const ALLOW_ORIGIN: string := "Access-Control-Allow-Origin"
  const ALLOW_HEADERS: string := "Access-Control-Allow-Headers"
  const ALLOWED_HEADERS: string := "Content-Type, Access-Control-Allow-Headers, Authorization, X-Requested-With"

  /**
   * The part of a Twisted request the decorators touch: the raw values of the client's
   * Accept-Encoding header and the response headers set so far.
   */
  class Request {
    const acceptEncoding: Option<seq<string>>
    var headers: map<string, HeaderValue>

    constructor (acceptEncoding: Option<seq<string>>)
      ensures this.acceptEncoding == acceptEncoding && headers == map[]
    {
      this.acceptEncoding := acceptEncoding;
      headers := map[];
    }

    /** setHeader: the named response header now holds `value`, replacing any earlier one. */
    method SetHeader(name: string, value: HeaderValue)
      modifies this
      ensures headers == old(headers)[name := value]
    {
      headers := headers[name := value];
    }
  }

  /**
   * json_response's `_response_data`: serialise, always announce JSON, and compress with gzip when
   * the payload exceeds COMPRESS_THRESHOLD and the client accepts gzip, announcing the encoding
   * and the compressed length.
   */
  method ResponseData<J>(res: HandlerResult<J>, request: Request, dumps: J -> string,
                         compress: seq<Byte> -> seq<Byte>) returns (out: Outcome)
    modifies request
    ensures var data := Serialised(res, dumps);
      var typed := old(request.headers)[CONTENT_TYPE := HeaderText("application/json")];
      && (!ShouldCompress(data, request.acceptEncoding) ==>
            out == Respond(data) && request.headers == typed)
      && (ShouldCompress(data, request.acceptEncoding) && data.BinaryBody? ==>
            out == EncodingTypeError && request.headers == typed)
      && (ShouldCompress(data, request.acceptEncoding) && data.TextBody? ==>
            var zipped := compress(Utf8.Encode(data.text));
            && out == Respond(BinaryBody(zipped))
            && request.headers == typed[CONTENT_ENCODING := HeaderText("gzip")]
                                       [CONTENT_LENGTH := HeaderInt(|zipped|)])
  {
    var data := Serialised(res, dumps);
    request.SetHeader(CONTENT_TYPE, HeaderText("application/json"));
    if Length(data) > COMPRESS_THRESHOLD {
      var accepted := request.acceptEncoding;
      if accepted.Some? && |accepted.value| > 0 {
        var useGzip := AnyMentionsGzip(accepted.value);
        if useGzip {
          if data.BinaryBody? {
            return EncodingTypeError;
          }
          var zipped := compress(Utf8.Encode(data.text));
          request.SetHeader(CONTENT_ENCODING, HeaderText("gzip"));
          request.SetHeader(CONTENT_LENGTH, HeaderInt(|zipped|));
          return Respond(BinaryBody(zipped));
        }
      }
    }
    out := Respond(data);
  }

  /** cors_header's `_request`: the result passes through and the two CORS headers are set. */
  method CorsRequest<T>(res: T, request: Request) returns (out: T)
    modifies request
    ensures out == res
    ensures request.headers == old(request.headers)[ALLOW_ORIGIN := HeaderText("*")]
                                                   [ALLOW_HEADERS := HeaderText(ALLOWED_HEADERS)]
  {
    request.SetHeader(ALLOW_ORIGIN, HeaderText("*"));
    request.SetHeader(ALLOW_HEADERS, HeaderText(ALLOWED_HEADERS));
    out := res;
  }

  /** The threshold is 1549: a 1549-long payload is sent as is, a 1550-long one is compressed. */
  lemma ThresholdIsMtuPlusBase(accept: Option<seq<string>>, short: Body, long: Body)
    requires AcceptsGzip(accept) && Length(short) == 1549 && Length(long) == 1550
    ensures !ShouldCompress(short, accept) && ShouldCompress(long, accept)
  {
  }

  /** Without an Accept-Encoding header, or with an empty list of values, nothing is compressed. */
  lemma NoHeaderNoCompression(b: Body)
    ensures !ShouldCompress(b, None) && !ShouldCompress(b, Some([]))
  {
  }

  /**
   * The test is a plain substring test, not content negotiation: "gzip;q=0", which refuses gzip,
   * and "x-gzip" both count as accepting it.
   */
  lemma SubstringNotNegotiation()
    ensures AcceptsGzip(Some(["gzip;q=0"]))
    ensures AcceptsGzip(Some(["deflate", "x-gzip"]))
  {
    assert "gzip;q=0"[0..4] == "gzip";
    assert "x-gzip"[2..6] == "gzip";
  }

  /** A string without the first character of `needle` does not contain `needle`. */
  lemma AbsentFirstChar(hay: string, needle: string)
    requires |needle| > 0 && forall j :: 0 <= j < |hay| ==> hay[j] != needle[0]
    ensures !Contains(hay, needle)
  {
    forall i | 0 <= i <= |hay| - |needle|
      ensures !OccursAt(hay, needle, i)
    {
      assert hay[i..i + |needle|][0] == hay[i];
    }
  }

  /** The test is case-sensitive, so "GZIP" does not count. */
  lemma CaseSensitive()
    ensures !AcceptsGzip(Some(["GZIP", "deflate, br"]))
  {
    AbsentFirstChar("GZIP", "gzip");
    AbsentFirstChar("deflate, br", "gzip");
  }
}
