/**
 * The zero-copy HTTP/1.x request decoder and encoder.
 *
 * The request-line and header-field grammar (section 3.1.1 and section 3.2
 * of RFC 7230) is recognised by the httparse library, which is not part of
 * this model: its answer for a buffer is an input, `Parse`, whose tokens are
 * given as (offset, length) positions in that buffer. What the decoder does
 * with that answer is modelled here: applying its 16-slot header array,
 * turning tokens into offset pairs, mapping the version, and draining the
 * consumed prefix into the request's own buffer.
 */
module HttpRequest {
  import opened ByteSlice

  /** Number of header slots the decoder hands to the parser. */
  const HeaderCapacity: nat := 16

  datatype Version = Http10 | Http11

  /** A token the parser found: `len` bytes starting `offset` bytes into the parsed buffer. */
  datatype Token = Token(offset: nat, len: nat)

  datatype HeaderToken = HeaderToken(name: Token, value: Token)

  /** The parser's error kinds. */
  datatype ParseError =
    | HeaderName | HeaderValue | NewLine | Status | TokenChar | TooManyHeaders | VersionSyntax

  /**
   * The parser's answer for a buffer: it needs more bytes (having begun
   * `headerLines` header lines so far), the bytes are not a request (the
   * error was met after `headerLines` header lines had begun), or the first
   * `amt` bytes hold a complete request head.
   */
  datatype Parse =
    | Partial(headerLines: nat)
    | Invalid(error: ParseError, headerLines: nat)
    | Complete(amt: nat, reqMethod: Token, path: Token, version: nat, headers: seq<HeaderToken>)

  /** True if `t` lies inside the first `amt` bytes. */
  predicate Within(t: Token, amt: nat) {
    t.offset + t.len <= amt
  }

  /**
   * What the parser guarantees about its answer: a complete request head
   * fits in the buffer and every token is a sub-range of it.
   */
  predicate Consistent(buf: Bytes, p: Parse) {
    p.Complete? ==>
      && p.amt <= |buf|
      && Within(p.reqMethod, p.amt)
      && Within(p.path, p.amt)
      && forall i :: 0 <= i < |p.headers| ==>
           Within(p.headers[i].name, p.amt) && Within(p.headers[i].value, p.amt)
  }

  /** The bytes of a token. */
  function TokenBytes(buf: Bytes, t: Token): Bytes
    requires t.offset + t.len <= |buf|
  {
    buf[t.offset..t.offset + t.len]
  }

  /** The number of header lines the parser has met: all of a complete head's, or those begun before it stopped. */
  function HeaderLines(p: Parse): nat {
    match p
    case Partial(n) => n
    case Invalid(_, n) => n
    case Complete(_, _, _, _, headers) => |headers|
  }

  /**
   * The parser run with `capacity` header slots: whatever the unbounded
   * parser would have answered, a head that reaches a header line beyond
   * the last slot stops on that line with `TooManyHeaders`.
   */
  function WithCapacity(p: Parse, capacity: nat): (q: Parse)
    ensures p.Complete? && |p.headers| > capacity ==> q == Invalid(TooManyHeaders, capacity + 1)
    ensures p.Partial? && p.headerLines > capacity ==> q == Invalid(TooManyHeaders, capacity + 1)
    ensures p.Invalid? && p.headerLines > capacity ==> q == Invalid(TooManyHeaders, capacity + 1)
    ensures HeaderLines(p) <= capacity ==> q == p
    ensures HeaderLines(q) <= capacity + 1
  {
    if HeaderLines(p) > capacity then Invalid(TooManyHeaders, capacity + 1) else p
  }

  /**
   * The slot limit is a threshold on the header count alone: applying it
   * twice is applying it once, an answer that fits `capacity` slots fits any
   * larger number, and only a count above `capacity` changes the answer
   * (unless the answer already is the parser stopping on the first line
   * beyond the slots).
   */
  lemma CapacityIsThreshold(p: Parse, capacity: nat, larger: nat)
    requires capacity <= larger
    ensures WithCapacity(WithCapacity(p, capacity), capacity) == WithCapacity(p, capacity)
    ensures WithCapacity(p, capacity) == p ==> WithCapacity(p, larger) == p
    ensures WithCapacity(p, capacity) != p <==>
              HeaderLines(p) > capacity && p != Invalid(TooManyHeaders, capacity + 1)
  {
  }

  /** The version token the parser reports for a version. */
  function VersionToken(v: Version): nat {
    match v
    case Http10 => 0
    case Http11 => 1
  }

  datatype VersionLookup = Known(version: Version) | Unknown

  /** Maps the parser's minor-version token to a version; any other token is unsupported. */
  function VersionOf(token: nat): (r: VersionLookup)
    ensures r.Known? <==> token <= 1
  {
    match token
    case 0 => Known(Http10)
    case 1 => Known(Http11)
    case _ => Unknown
  }

  /** `VersionOf` and `VersionToken` are inverse on the supported versions. */
  lemma VersionRoundTrip(v: Version, token: nat)
    ensures VersionOf(VersionToken(v)) == Known(v)
    ensures VersionOf(token) == Known(v) ==> token == VersionToken(v)
  {
    if VersionOf(token) == Known(v) {
      assert token == 0 || token == 1;
    }
  }

  /** The check the decoder makes before turning a token into a slice: it must start inside the buffer. */
  predicate Anchored(buf: Bytes, t: Token) {
    t.offset < |buf|
  }

  predicate AllAnchored(buf: Bytes, reqMethod: Token, path: Token, headers: seq<HeaderToken>) {
    && Anchored(buf, reqMethod)
    && Anchored(buf, path)
    && forall i :: 0 <= i < |headers| ==> Anchored(buf, headers[i].name) && Anchored(buf, headers[i].value)
  }

  /** The offset pair of a token. */
  function ToSlice(t: Token): (s: Slice)
    ensures s.start == t.offset && s.end - s.start == t.len
  {
    Slice(t.offset, t.offset + t.len)
  }

  datatype Header = Header(name: Slice, value: Slice)

  /** One header slice pair per parsed header, in the parser's order. */
  function HeaderSlices(hs: seq<HeaderToken>): (r: seq<Header>)
    ensures |r| == |hs|
    ensures forall i :: 0 <= i < |hs| ==>
              r[i].name == ToSlice(hs[i].name) && r[i].value == ToSlice(hs[i].value)
  {
    if |hs| == 0 then []
    else [Header(ToSlice(hs[0].name), ToSlice(hs[0].value))] + HeaderSlices(hs[1..])
  }

  /** A decoded request: offset pairs into the buffer it owns. */
  datatype Request = Request(reqMethod: Slice, path: Slice, version: Version, headers: seq<Header>, data: Bytes) {

    /** Every slice of the request denotes a range of its own buffer. */
    predicate Valid() {
      && reqMethod.In(data)
      && path.In(data)
      && forall i :: 0 <= i < |headers| ==> headers[i].name.In(data) && headers[i].value.In(data)
    }
  }

  function MethodBytes(r: Request): Bytes
    requires r.Valid()
  {
    View(r.data, r.reqMethod)
  }

  function PathBytes(r: Request): Bytes
    requires r.Valid()
  {
    View(r.data, r.path)
  }

  function HeaderName(r: Request, i: nat): Bytes
    requires r.Valid() && i < |r.headers|
  {
    View(r.data, r.headers[i].name)
  }

  function HeaderValue(r: Request, i: nat): Bytes
    requires r.Valid() && i < |r.headers|
  {
    View(r.data, r.headers[i].value)
  }

  datatype DecodeError =
    | ParseFailed(error: ParseError)
    | TokenOutOfBuffer
    | UnsupportedVersion(token: nat)

  datatype Outcome = Incomplete | Decoded(request: Request) | Failed(error: DecodeError)

  /** The decoder's answer together with what is left of the input buffer. */
  datatype Decoding = Decoding(outcome: Outcome, rest: Bytes)

  /**
   * The decoder's work on a complete head of `amt` bytes: check that every
   * token starts inside the buffer, map the version, and drain the head.
   */
  function DecodeHead(buf: Bytes, amt: nat, reqMethod: Token, path: Token, version: nat,
                      headers: seq<HeaderToken>): (d: Decoding)
    requires amt <= |buf|
    ensures !AllAnchored(buf, reqMethod, path, headers) ==> d == Decoding(Failed(TokenOutOfBuffer), buf)
    ensures AllAnchored(buf, reqMethod, path, headers) && !VersionOf(version).Known? ==>
              d == Decoding(Failed(UnsupportedVersion(version)), buf)
    ensures d.outcome.Decoded? <==> AllAnchored(buf, reqMethod, path, headers) && VersionOf(version).Known?
    ensures !d.outcome.Decoded? ==> d.rest == buf
    ensures d.outcome.Decoded? ==>
              && d.outcome.request.data + d.rest == buf
              && |d.outcome.request.data| == amt
              && VersionOf(version) == Known(d.outcome.request.version)
  {
    if !AllAnchored(buf, reqMethod, path, headers) then
      Decoding(Failed(TokenOutOfBuffer), buf)
    else
      match VersionOf(version)
      case Unknown => Decoding(Failed(UnsupportedVersion(version)), buf)
      case Known(v) =>
        var r := Request(ToSlice(reqMethod), ToSlice(path), v, HeaderSlices(headers), buf[..amt]);
        assert r.data + buf[amt..] == buf;
        Decoding(Decoded(r), buf[amt..])
  }

  /**
   * Decodes the request head at the front of `buf`, given the parser's answer
   * for `buf`. Only a fully decoded request consumes bytes.
   */
  function Decode(buf: Bytes, grammar: Parse): (d: Decoding)
    requires Consistent(buf, grammar)
    ensures grammar.Partial? && grammar.headerLines <= HeaderCapacity ==> d == Decoding(Incomplete, buf)
    ensures grammar.Partial? && grammar.headerLines > HeaderCapacity ==>
              d == Decoding(Failed(ParseFailed(TooManyHeaders)), buf)
    ensures grammar.Invalid? && grammar.headerLines <= HeaderCapacity ==>
              d == Decoding(Failed(ParseFailed(grammar.error)), buf)
    ensures grammar.Invalid? && grammar.headerLines > HeaderCapacity ==>
              d == Decoding(Failed(ParseFailed(TooManyHeaders)), buf)
    ensures grammar.Complete? && |grammar.headers| > HeaderCapacity ==>
              d == Decoding(Failed(ParseFailed(TooManyHeaders)), buf)
    ensures grammar.Complete? && |grammar.headers| <= HeaderCapacity
              && !AllAnchored(buf, grammar.reqMethod, grammar.path, grammar.headers) ==>
              d == Decoding(Failed(TokenOutOfBuffer), buf)
    ensures grammar.Complete? && |grammar.headers| <= HeaderCapacity
              && AllAnchored(buf, grammar.reqMethod, grammar.path, grammar.headers)
              && !VersionOf(grammar.version).Known? ==>
              d == Decoding(Failed(UnsupportedVersion(grammar.version)), buf)
    ensures !d.outcome.Decoded? ==> d.rest == buf
    ensures d.outcome.Decoded? <==>
              && grammar.Complete?
              && |grammar.headers| <= HeaderCapacity
              && AllAnchored(buf, grammar.reqMethod, grammar.path, grammar.headers)
              && VersionOf(grammar.version).Known?
    ensures d.outcome.Decoded? ==>
              && d.outcome.request.data + d.rest == buf
              && |d.outcome.request.data| == grammar.amt
              && VersionOf(grammar.version) == Known(d.outcome.request.version)
  {
    match WithCapacity(grammar, HeaderCapacity)
    case Partial(_) => Decoding(Incomplete, buf)
    case Invalid(e, _) => Decoding(Failed(ParseFailed(e)), buf)
    case Complete(amt, reqMethod, path, version, headers) =>
      DecodeHead(buf, amt, reqMethod, path, version, headers)
  }

  /**
   * After `Incomplete` the caller still holds every byte it had, so appending
   * more and decoding again sees exactly the extended input.
   */
  lemma RetryAfterIncomplete(buf: Bytes, grammar: Parse, more: Bytes, later: Parse)
    requires Consistent(buf, grammar) && Decode(buf, grammar).outcome.Incomplete?
    requires Consistent(buf + more, later)
    ensures Consistent(Decode(buf, grammar).rest + more, later)
    ensures Decode(Decode(buf, grammar).rest + more, later) == Decode(buf + more, later)
  {
  }

  /**
   * Every slice of a decoded request starts inside the input buffer, is as
   * long as its token, and denotes exactly the token's bytes; there is one
   * header pair per parsed header, in the parser's order.
   */
  lemma DecodedSlicesDenoteTokens(buf: Bytes, grammar: Parse)
    requires Consistent(buf, grammar)
    requires Decode(buf, grammar).outcome.Decoded?
    ensures var r := Decode(buf, grammar).outcome.request;
      && r.Valid()
      && r.reqMethod == ToSlice(grammar.reqMethod) && r.path == ToSlice(grammar.path)
      && r.headers == HeaderSlices(grammar.headers)
      && r.reqMethod.start < |buf| && r.reqMethod.end == r.reqMethod.start + grammar.reqMethod.len
      && r.path.start < |buf| && r.path.end == r.path.start + grammar.path.len
      && MethodBytes(r) == TokenBytes(buf, grammar.reqMethod)
      && PathBytes(r) == TokenBytes(buf, grammar.path)
      && |r.headers| == |grammar.headers|
      && forall i :: 0 <= i < |r.headers| ==>
           && r.headers[i].name.start < |buf|
           && r.headers[i].value.start < |buf|
           && HeaderName(r, i) == TokenBytes(buf, grammar.headers[i].name)
           && HeaderValue(r, i) == TokenBytes(buf, grammar.headers[i].value)
  {
    var r := Decode(buf, grammar).outcome.request;
    var amt := grammar.amt;
    assert r.data == buf[..amt];
    ViewOfPrefix(buf, amt, ToSlice(grammar.reqMethod));
    ViewOfPrefix(buf, amt, ToSlice(grammar.path));
    forall i | 0 <= i < |r.headers|
      ensures && r.headers[i].name.In(r.data) && r.headers[i].value.In(r.data)
              && View(r.data, r.headers[i].name) == TokenBytes(buf, grammar.headers[i].name)
              && View(r.data, r.headers[i].value) == TokenBytes(buf, grammar.headers[i].value)
    {
      assert Within(grammar.headers[i].name, amt) && Within(grammar.headers[i].value, amt);
      ViewOfPrefix(buf, amt, ToSlice(grammar.headers[i].name));
      ViewOfPrefix(buf, amt, ToSlice(grammar.headers[i].value));
    }
  }

  /**
   * A head the parser completed ends with the empty line that follows every
   * token, so every token starts before `amt`: for such a parse the
   * decoder's start-inside-buffer check always passes.
   */
  lemma TerminatedParseIsAnchored(buf: Bytes, grammar: Parse)
    requires Consistent(buf, grammar) && grammar.Complete?
    requires grammar.reqMethod.offset < grammar.amt && grammar.path.offset < grammar.amt
    requires forall i :: 0 <= i < |grammar.headers| ==>
               grammar.headers[i].name.offset < grammar.amt && grammar.headers[i].value.offset < grammar.amt
    requires |grammar.headers| <= HeaderCapacity && grammar.version <= 1
    ensures Decode(buf, grammar).outcome.Decoded?
  {
    assert AllAnchored(buf, grammar.reqMethod, grammar.path, grammar.headers);
  }

  /** Serialises a request by appending its buffer, unchanged, to `out`. */
  function Encode(r: Request, out: Bytes): (o: Bytes)
    ensures |o| == |out| + |r.data|
    ensures o[..|out|] == out && o[|out|..] == r.data
  {
    out + r.data
  }

  /**
   * Decoding a complete head and encoding the request reproduces the
   * consumed prefix of the input byte for byte, and what was encoded
   * followed by what was left is the whole input.
   */
  lemma EncodeDecodeRoundTrip(buf: Bytes, grammar: Parse, out: Bytes)
    requires Consistent(buf, grammar)
    requires Decode(buf, grammar).outcome.Decoded?
    ensures Encode(Decode(buf, grammar).outcome.request, []) == buf[..grammar.amt]
    ensures Encode(Decode(buf, grammar).outcome.request, out) + Decode(buf, grammar).rest == out + buf
  {
    var d := Decode(buf, grammar);
    assert d.outcome.request.data + d.rest == buf;
    assert Encode(d.outcome.request, []) == d.outcome.request.data;
    assert (out + d.outcome.request.data) + d.rest == out + (d.outcome.request.data + d.rest);
  }

  /** Appends body bytes to the request's buffer. */
  function AppendData(r: Request, more: Bytes): (r': Request)
    requires r.Valid()
    ensures r'.Valid()
    ensures |r'.data| == |r.data| + |more|
    ensures r'.data[..|r.data|] == r.data && r'.data[|r.data|..] == more
    ensures r'.reqMethod == r.reqMethod && r'.path == r.path && r'.version == r.version && r'.headers == r.headers
    ensures MethodBytes(r') == MethodBytes(r) && PathBytes(r') == PathBytes(r)
    ensures forall i :: 0 <= i < |r.headers| ==>
              HeaderName(r', i) == HeaderName(r, i) && HeaderValue(r', i) == HeaderValue(r, i)
  {
    var r' := r.(data := r.data + more);
    ViewSurvivesAppend(r.data, more, r.reqMethod);
    ViewSurvivesAppend(r.data, more, r.path);
    forall i | 0 <= i < |r.headers|
      ensures r.headers[i].name.In(r'.data) && r.headers[i].value.In(r'.data)
      ensures View(r'.data, r.headers[i].name) == View(r.data, r.headers[i].name)
      ensures View(r'.data, r.headers[i].value) == View(r.data, r.headers[i].value)
    {
      ViewSurvivesAppend(r.data, more, r.headers[i].name);
      ViewSurvivesAppend(r.data, more, r.headers[i].value);
    }
    r'
  }
}
