/**
  The request parser (src/request.rs): the request line, the header lines,
  query and url-encoded parameters, and multipart/form-data bodies.

  Every map the source builds is a `BTreeMap` filled by `insert` in order;
  only lookups are made on it, so it is a Dafny `map` here and `Collect`
  states the insertion order (a later key overwrites an earlier one).
*/
module Request {
  import opened Wrappers
  import opened Bytes
  import opened Errors
  import opened Constant
  import Utils

  // The failure messages of the source, as it words them.
  const NO_REQUEST_LINE := "获取请求行失败"
  const NO_METHOD := "无法解析请求方法"
  const NO_VERSION := "无法解析http协议版本"
  const NO_BOUNDARY := "没有有效的boundary"
  const NO_FIELD_NAME := "表单内容没有name属性"
  const CORRUPT_PART := "表单内容损坏"
  const SUBTRACT_OVERFLOW := "attempt to subtract with overflow"
  const BAD_SLICE := "byte index out of range or not a char boundary"

  const OPTIONS: bytes := Ascii("OPTIONS")
  const GET: bytes := Ascii("GET")
  const POST: bytes := Ascii("POST")
  const HTTP_1_1: bytes := Ascii("HTTP/1.1")
  const HTTP_2_0: bytes := Ascii("HTTP/2.0")
  const ROOT: bytes := Ascii("/")
  const CONTENT_TYPE: bytes := Ascii("content-type")
  const BOUNDARY_PREFIX: bytes := Ascii("boundary=")
  const NAME_PREFIX: bytes := Ascii("name=")
  const RAW_KEY: bytes := Ascii("__raw")
  const DASHES: bytes := Ascii("--")

  type Entry = (bytes, bytes)

  datatype HttpMethod = Unknown | Options | Get | Post

  datatype HttpVersion = Unknown | V1_1 | V2_0

  datatype HttpRequest = HttpRequest(
    httpMethod: HttpMethod,
    url: bytes,
    version: HttpVersion,
    ip: bytes,
    headers: map<bytes, bytes>,
    searchParams: map<bytes, bytes>,
    body: map<bytes, bytes>)

  /** The token each named method is spelled with. */
  function MethodToken(m: HttpMethod): bytes
    requires m != HttpMethod.Unknown
  {
    match m
    case Options => OPTIONS
    case Get => GET
    case Post => POST
  }

  /** `HttpMethod::from`: exact, case-sensitive tokens; anything else is `Unknown`. */
  function MethodFrom(s: bytes): (m: HttpMethod)
    ensures m != HttpMethod.Unknown <==> s in {OPTIONS, GET, POST}
    ensures m != HttpMethod.Unknown ==> MethodToken(m) == s
  {
    if s == OPTIONS then Options
    else if s == GET then Get
    else if s == POST then Post
    else HttpMethod.Unknown
  }

  /** The token each named version is spelled with. */
  function VersionToken(v: HttpVersion): bytes
    requires v != HttpVersion.Unknown
  {
    match v
    case V1_1 => HTTP_1_1
    case V2_0 => HTTP_2_0
  }

  /** `HttpVersion::from`: exact, case-sensitive tokens; anything else is `Unknown`. */
  function VersionFrom(s: bytes): (v: HttpVersion)
    ensures v != HttpVersion.Unknown <==> s in {HTTP_1_1, HTTP_2_0}
    ensures v != HttpVersion.Unknown ==> VersionToken(v) == s
  {
    if s == HTTP_1_1 then V1_1
    else if s == HTTP_2_0 then V2_0
    else HttpVersion.Unknown
  }

  // ------------------------------------------------------ map by insertion

  /** The map that inserting the present entries in order builds. */
  function Collect(es: seq<Option<Entry>>): map<bytes, bytes>
    decreases |es|
  {
    if es == [] then map[]
    else
      var m := Collect(es[..|es| - 1]);
      match es[|es| - 1]
      case None => m
      case Some(e) => m[e.0 := e.1]
  }

  /** Collecting one more entry inserts it last. */
  lemma CollectSnoc(es: seq<Option<Entry>>, e: Option<Entry>)
    ensures Collect(es + [e]) == if e.Some? then Collect(es)[e.value.0 := e.value.1] else Collect(es)
  {
    assert (es + [e])[..|es|] == es;
  }

  /** The entries a function gives for each line or pair, in order. */
  function Entries(f: bytes -> Option<Entry>, xs: seq<bytes>): (es: seq<Option<Entry>>)
    ensures |es| == |xs|
    decreases |xs|
  {
    if xs == [] then [] else Entries(f, xs[..|xs| - 1]) + [f(xs[|xs| - 1])]
  }

  lemma EntriesPrefix(f: bytes -> Option<Entry>, xs: seq<bytes>, n: nat)
    requires n < |xs|
    ensures Entries(f, xs[..n + 1]) == Entries(f, xs[..n]) + [f(xs[n])]
  {
    TakeOneMore(xs, n);
  }

  /** A key is in the collected map exactly when some element gives an entry with it. */
  lemma {:induction false} EntriesKeys(f: bytes -> Option<Entry>, xs: seq<bytes>, k: bytes)
    ensures k in Collect(Entries(f, xs)) <==> exists j :: 0 <= j < |xs| && f(xs[j]).Some? && f(xs[j]).value.0 == k
    decreases |xs|
  {
    if xs != [] {
      var init := xs[..|xs| - 1];
      EntriesKeys(f, init, k);
      CollectSnoc(Entries(f, init), f(xs[|xs| - 1]));
      if exists j :: 0 <= j < |init| && f(init[j]).Some? && f(init[j]).value.0 == k {
        var j :| 0 <= j < |init| && f(init[j]).Some? && f(init[j]).value.0 == k;
        assert xs[j] == init[j];
      }
      if exists j :: 0 <= j < |xs| && f(xs[j]).Some? && f(xs[j]).value.0 == k {
        var j :| 0 <= j < |xs| && f(xs[j]).Some? && f(xs[j]).value.0 == k;
        if j < |init| {
          assert init[j] == xs[j];
        }
      }
    }
  }

  /** A key takes the value of the last element that gives an entry with it. */
  lemma {:induction false} EntriesLastWins(f: bytes -> Option<Entry>, xs: seq<bytes>, j: nat)
    requires j < |xs| && f(xs[j]).Some?
    requires forall j' :: j < j' < |xs| && f(xs[j']).Some? ==> f(xs[j']).value.0 != f(xs[j]).value.0
    ensures f(xs[j]).value.0 in Collect(Entries(f, xs))
    ensures Collect(Entries(f, xs))[f(xs[j]).value.0] == f(xs[j]).value.1
    decreases |xs|
  {
    var init := xs[..|xs| - 1];
    CollectSnoc(Entries(f, init), f(xs[|xs| - 1]));
    if j < |xs| - 1 {
      assert init[j] == xs[j];
      forall j' | j < j' < |init| ensures init[j'] == xs[j'] {
      }
      EntriesLastWins(f, init, j);
    }
  }

  /** Every key and value of the collected map satisfies what every entry satisfies. */
  lemma {:induction false} EntriesAll(f: bytes -> Option<Entry>, xs: seq<bytes>, P: Entry -> bool)
    requires forall j :: 0 <= j < |xs| && f(xs[j]).Some? ==> P(f(xs[j]).value)
    ensures forall k :: k in Collect(Entries(f, xs)) ==> P((k, Collect(Entries(f, xs))[k]))
    decreases |xs|
  {
    if xs != [] {
      var init := xs[..|xs| - 1];
      forall j | 0 <= j < |init| ensures init[j] == xs[j] {
      }
      EntriesAll(f, init, P);
      CollectSnoc(Entries(f, init), f(xs[|xs| - 1]));
    }
  }

  // ------------------------------------------------------------ parameters

  /** One `&`-separated pair: the key before the first `=`, trimmed and lower-cased, and the trimmed rest. */
  function ParamEntry(pair: bytes): (e: Entry)
    ensures IsLowerCase(e.0) && IsTrimmed(e.0) && IsTrimmed(e.1)
    ensures EQUALS !in pair ==> e == (ToLower(Trim(pair)), [])
  {
    var kv := SplitOnce(pair, EQUALS);
    (ToLower(Trim(kv.0)), if kv.1.Some? then Trim(kv.1.value) else [])
  }

  /**
    A pair with an `=` splits at its first `=`: the key is what precedes it,
    trimmed and lower-cased, and the value what follows it, trimmed.
  */
  lemma ParamEntryAtFirstEquals(pair: bytes)
    ensures EQUALS in pair ==> (IndexOf(pair, EQUALS).Some? &&
      ParamEntry(pair) == (ToLower(Trim(pair[..IndexOf(pair, EQUALS).value])), Trim(pair[IndexOf(pair, EQUALS).value + 1..])))
  {
  }

  function SomeParamEntry(pair: bytes): Option<Entry> {
    Some(ParamEntry(pair))
  }

  /** What `parse_parameters` returns for `raw`. */
  function Parameters(raw: bytes): map<bytes, bytes> {
    Collect(Entries(SomeParamEntry, SplitOn(raw, AMPERSAND)))
  }

  /** `parse_parameters`, which never fails. */
  method ParseParameters(raw: bytes) returns (r: Result<map<bytes, bytes>>)
    ensures r == Ok(Parameters(raw))
  {
    var params: map<bytes, bytes> := map[];
    var pairs := SplitOn(raw, AMPERSAND);
    for n := 0 to |pairs|
      invariant params == Collect(Entries(SomeParamEntry, pairs[..n]))
    {
      var kv := SplitOnce(pairs[n], EQUALS);
      var key := ToLower(Trim(kv.0));
      var value := if kv.1.Some? then Trim(kv.1.value) else [];
      EntriesPrefix(SomeParamEntry, pairs, n);
      CollectSnoc(Entries(SomeParamEntry, pairs[..n]), Some((key, value)));
      params := params[key := value];
    }
    TakeAll(pairs);
    return Ok(params);
  }

  /** A key is present exactly when some pair gives it. */
  lemma ParametersKeys(raw: bytes, k: bytes)
    ensures k in Parameters(raw) <==>
      exists j :: 0 <= j < |SplitOn(raw, AMPERSAND)| && ParamEntry(SplitOn(raw, AMPERSAND)[j]).0 == k
  {
    var pairs := SplitOn(raw, AMPERSAND);
    PairKeys(pairs, k);
    assert Parameters(raw) == Collect(Entries(SomeParamEntry, pairs));
    if k in Parameters(raw) {
      var j :| 0 <= j < |pairs| && ParamEntry(pairs[j]).0 == k;
      assert ParamEntry(SplitOn(raw, AMPERSAND)[j]).0 == k;
    }
  }

  lemma PairKeys(pairs: seq<bytes>, k: bytes)
    ensures k in Collect(Entries(SomeParamEntry, pairs)) <==> exists j :: 0 <= j < |pairs| && ParamEntry(pairs[j]).0 == k
  {
    EntriesKeys(SomeParamEntry, pairs, k);
  }

  /** Keys are lower-cased and trimmed, values trimmed, and neither holds a `&`. */
  lemma ParametersNormalised(raw: bytes)
    ensures forall k :: k in Parameters(raw) ==>
      IsLowerCase(k) && IsTrimmed(k) && IsTrimmed(Parameters(raw)[k]) && AMPERSAND !in k && AMPERSAND !in Parameters(raw)[k]
  {
    var pairs := SplitOn(raw, AMPERSAND);
    forall j | 0 <= j < |pairs|
      ensures AMPERSAND !in ParamEntry(pairs[j]).0 && AMPERSAND !in ParamEntry(pairs[j]).1
    {
      var kv := SplitOnce(pairs[j], EQUALS);
      assert AMPERSAND !in pairs[j];
      NoByteInToLower(Trim(kv.0), AMPERSAND);
    }
    EntriesAll(SomeParamEntry, pairs,
      (e: Entry) => IsLowerCase(e.0) && IsTrimmed(e.0) && IsTrimmed(e.1) && AMPERSAND !in e.0 && AMPERSAND !in e.1);
  }

  /** A key takes the value of the last pair that gives it. */
  lemma ParametersLastWins(raw: bytes, j: nat)
    requires j < |SplitOn(raw, AMPERSAND)|
    requires forall j' :: j < j' < |SplitOn(raw, AMPERSAND)| ==>
      ParamEntry(SplitOn(raw, AMPERSAND)[j']).0 != ParamEntry(SplitOn(raw, AMPERSAND)[j]).0
    ensures var e := ParamEntry(SplitOn(raw, AMPERSAND)[j]);
      e.0 in Parameters(raw) && Parameters(raw)[e.0] == e.1
  {
    EntriesLastWins(SomeParamEntry, SplitOn(raw, AMPERSAND), j);
  }

  /** Empty input is one empty pair: the map {"": ""}. */
  lemma ParametersOfEmpty()
    ensures Parameters([]) == map[[] := []]
  {
    assert SplitOn([], AMPERSAND) == [[]];
    assert Entries(SomeParamEntry, [[]]) == [] + [Some(([], []))];
    CollectSnoc([], Some(([], [])));
  }

  // --------------------------------------------------------- request line

  /** The parts of the request line the request keeps, and the raw query. */
  datatype RequestLine = RequestLine(httpMethod: HttpMethod, url: bytes, query: bytes, version: HttpVersion)

  /**
    The request line: a method token, then the url up to its first `?` with
    the rest as query, then a version token. Fewer than three tokens fail.
  */
  function ParseRequestLine(line: bytes): (r: Result<RequestLine>)
    ensures var words := SplitWhitespace(line);
      && (r.Ok? <==> |words| >= 3)
      && (|words| == 0 ==> r == Err(Fail(NO_METHOD)))
      && (1 <= |words| < 3 ==> r == Err(Fail(NO_VERSION)))
      && (r.Ok? ==>
        && r.value.httpMethod == MethodFrom(words[0])
        && r.value.version == VersionFrom(words[2])
        && QUESTION !in r.value.url
        && (if QUESTION in words[1] then words[1] == r.value.url + [QUESTION] + r.value.query
            else r.value.url == words[1] && r.value.query == []))
  {
    var words := SplitWhitespace(line);
    if |words| == 0 then Err(Fail(NO_METHOD))
    else
      var httpMethod := MethodFrom(words[0]);
      var target := if |words| >= 2 then SplitOnce(words[1], QUESTION) else (ROOT, None);
      var query := if target.1.Some? then target.1.value else [];
      if |words| < 3 then Err(Fail(NO_VERSION))
      else Ok(RequestLine(httpMethod, target.0, query, VersionFrom(words[2])))
  }

  // --------------------------------------------------------------- headers

  /** A header line split at its first `:`, or nothing when it has none. */
  function HeaderEntry(line: bytes): (e: Option<Entry>)
    ensures e.None? <==> COLON !in line
    ensures e.Some? ==> IsLowerCase(e.value.0) && IsTrimmed(e.value.0) && IsTrimmed(e.value.1) && COLON !in e.value.0
    ensures e.Some? ==> (IndexOf(line, COLON).Some? &&
      e.value == (ToLower(Trim(line[..IndexOf(line, COLON).value])), Trim(line[IndexOf(line, COLON).value + 1..])))
  {
    var kv := SplitOnce(line, COLON);
    if kv.1.Some? then
      NoByteInToLower(Trim(kv.0), COLON);
      Some((ToLower(Trim(kv.0)), Trim(kv.1.value)))
    else None
  }

  /** The header map built from the lines after the request line. */
  function Headers(lines: seq<bytes>): map<bytes, bytes> {
    Collect(Entries(HeaderEntry, lines))
  }

  /**
    A name is a header exactly when some line with a `:` gives it; names are
    lower-cased, trimmed and free of `:`, and values are trimmed.
  */
  lemma HeadersFromLines(lines: seq<bytes>, k: bytes)
    ensures k in Headers(lines) <==>
      exists j :: 0 <= j < |lines| && HeaderEntry(lines[j]).Some? && HeaderEntry(lines[j]).value.0 == k
    ensures k in Headers(lines) ==> IsLowerCase(k) && IsTrimmed(k) && COLON !in k && IsTrimmed(Headers(lines)[k])
  {
    EntriesKeys(HeaderEntry, lines, k);
    EntriesAll(HeaderEntry, lines, (e: Entry) => IsLowerCase(e.0) && IsTrimmed(e.0) && COLON !in e.0 && IsTrimmed(e.1));
  }

  /** A later line with the same name overwrites an earlier one. */
  lemma HeadersLastWins(lines: seq<bytes>, j: nat)
    requires j < |lines| && HeaderEntry(lines[j]).Some?
    requires forall j' :: j < j' < |lines| && HeaderEntry(lines[j']).Some? ==>
      HeaderEntry(lines[j']).value.0 != HeaderEntry(lines[j]).value.0
    ensures var e := HeaderEntry(lines[j]).value;
      e.0 in Headers(lines) && Headers(lines)[e.0] == e.1
  {
    EntriesLastWins(HeaderEntry, lines, j);
  }

  // ------------------------------------------------------------------ body

  /** "boundary=" holds one `=`, its last byte. */
  lemma BoundaryPrefixShape()
    ensures BOUNDARY_PREFIX != [] && BOUNDARY_PREFIX[|BOUNDARY_PREFIX| - 1] == EQUALS
    ensures EQUALS !in BOUNDARY_PREFIX[..|BOUNDARY_PREFIX| - 1]
  {
  }

  /** A `;`-separated attribute of the content type that, trimmed, starts with "boundary=". */
  predicate GivesBoundary(part: bytes) {
    StartsWith(Trim(part), BOUNDARY_PREFIX)
  }

  /** The boundary such an attribute gives: its second `=`-separated piece. */
  function BoundaryOf(part: bytes): bytes
    requires GivesBoundary(part)
  {
    var p := Trim(part);
    BoundaryPrefixShape();
    AfterPrefix(p, BOUNDARY_PREFIX, EQUALS);
    SplitOn(p, EQUALS)[1]
  }

  /** The boundary is the text after "boundary=" up to the next `=`, or to the end when there is none. */
  lemma BoundaryOfValue(part: bytes)
    requires GivesBoundary(part)
    ensures var rest := Trim(part)[|BOUNDARY_PREFIX|..];
      && EQUALS !in BoundaryOf(part)
      && StartsWith(rest, BoundaryOf(part))
      && (EQUALS in rest ==> rest[|BoundaryOf(part)|] == EQUALS)
      && (EQUALS !in rest ==> BoundaryOf(part) == rest)
  {
    var rest := Trim(part)[|BOUNDARY_PREFIX|..];
    BoundaryPrefixShape();
    AfterPrefix(Trim(part), BOUNDARY_PREFIX, EQUALS);
    SplitOnHead(rest, EQUALS);
    SplitOnJoin(rest, EQUALS);
  }

  /** The boundary of the last attribute that gives one: the source's loop overwrites it each time. */
  function LastBoundary(parts: seq<bytes>): Option<bytes> {
    LastWhereIsLast(parts, GivesBoundary);
    match LastWhere(parts, GivesBoundary)
    case None => None
    case Some(i) => Some(BoundaryOf(parts[i]))
  }

  lemma LastBoundarySnoc(parts: seq<bytes>, n: nat)
    requires n < |parts|
    ensures LastBoundary(parts[..n + 1]) ==
      if GivesBoundary(parts[n]) then Some(BoundaryOf(parts[n])) else LastBoundary(parts[..n])
  {
    TakeOneMore(parts, n);
  }

  /** There is a boundary exactly when some attribute gives one, and it is the last such attribute's. */
  lemma LastBoundaryIsLast(parts: seq<bytes>)
    ensures LastBoundary(parts).None? <==> forall j :: 0 <= j < |parts| ==> !GivesBoundary(parts[j])
    ensures LastBoundary(parts).Some? ==>
      exists j :: 0 <= j < |parts| && GivesBoundary(parts[j]) && LastBoundary(parts).value == BoundaryOf(parts[j]) &&
                  forall j' :: j < j' < |parts| ==> !GivesBoundary(parts[j'])
  {
    LastWhereIsLast(parts, GivesBoundary);
    if LastWhere(parts, GivesBoundary).Some? {
      var i := LastWhere(parts, GivesBoundary).value;
      assert GivesBoundary(parts[i]) && LastBoundary(parts).value == BoundaryOf(parts[i]);
    }
  }

  /**
    What `parse_body` returns: url-encoded pairs, multipart fields, or the
    whole body under the key "__raw". A missing content type reads as
    text/plain, which takes the last path.
  */
  function BodySpec(headers: map<bytes, bytes>, body: bytes): Result<map<bytes, bytes>> {
    var contentType := if CONTENT_TYPE in headers then Trim(headers[CONTENT_TYPE]) else TEXT_PLAIN;
    var boundary := if CONTENT_TYPE in headers then LastBoundary(SplitOn(headers[CONTENT_TYPE], SEMICOLON)) else None;
    if StartsWith(contentType, APPLICATION_X_WWW_FORM_URLENCODED) then
      if Utf8Valid(body) then Ok(Parameters(body)) else Err(InvalidUtf8)
    else if StartsWith(contentType, MULTIPART_FORM_DATA) then
      match boundary
      case None => Err(Fail(NO_BOUNDARY))
      case Some(b) => Multipart(body, b)
    else Ok(map[RAW_KEY := body])
  }

  /** The loop over the `;`-separated parts of the content type in `parse_body`. */
  method FindBoundary(contentType: bytes) returns (boundary: Option<bytes>)
    ensures boundary == LastBoundary(SplitOn(contentType, SEMICOLON))
  {
    boundary := None;
    var parts := SplitOn(contentType, SEMICOLON);
    for n := 0 to |parts|
      invariant boundary == LastBoundary(parts[..n])
    {
      LastBoundarySnoc(parts, n);
      var part := Trim(parts[n]);
      if StartsWith(part, BOUNDARY_PREFIX) {
        BoundaryPrefixShape();
        AfterPrefix(part, BOUNDARY_PREFIX, EQUALS);
        boundary := Some(SplitOn(part, EQUALS)[1]);
      }
    }
    TakeAll(parts);
  }

  /** `parse_body` */
  method ParseBody(headers: map<bytes, bytes>, body: bytes) returns (r: Result<map<bytes, bytes>>)
    ensures r == BodySpec(headers, body)
  {
    var boundary: Option<bytes> := None;
    var contentType: bytes;
    if CONTENT_TYPE !in headers {
      ContentTypeInitials();
      contentType := TEXT_PLAIN;
    } else {
      contentType := Trim(headers[CONTENT_TYPE]);
      boundary := FindBoundary(headers[CONTENT_TYPE]);
    }
    if StartsWith(contentType, APPLICATION_X_WWW_FORM_URLENCODED) {
      if !Utf8Valid(body) {
        return Err(InvalidUtf8);
      }
      r := ParseParameters(body);
    } else if StartsWith(contentType, MULTIPART_FORM_DATA) {
      if boundary.None? {
        return Err(Fail(NO_BOUNDARY));
      }
      r := ParseMultipartForm(body, boundary.value);
    } else {
      r := Ok(map[RAW_KEY := body]);
    }
  }

  /** With no content type, or one that starts with neither form type, the body is kept whole under "__raw". */
  lemma BodyFallsBackToRaw(headers: map<bytes, bytes>, body: bytes)
    requires CONTENT_TYPE in headers ==>
      && !StartsWith(Trim(headers[CONTENT_TYPE]), APPLICATION_X_WWW_FORM_URLENCODED)
      && !StartsWith(Trim(headers[CONTENT_TYPE]), MULTIPART_FORM_DATA)
    ensures BodySpec(headers, body) == Ok(map[RAW_KEY := body])
  {
    ContentTypeInitials();
  }

  /** A url-encoded body must be UTF-8 text and is then read as parameters. */
  lemma BodyUrlEncoded(headers: map<bytes, bytes>, body: bytes)
    requires CONTENT_TYPE in headers && StartsWith(Trim(headers[CONTENT_TYPE]), APPLICATION_X_WWW_FORM_URLENCODED)
    ensures BodySpec(headers, body) == if Utf8Valid(body) then Ok(Parameters(body)) else Err(InvalidUtf8)
  {
  }

  /** The form content types and text/plain differ in their first byte. */
  lemma ContentTypeInitials()
    ensures TEXT_PLAIN[0] != APPLICATION_X_WWW_FORM_URLENCODED[0] && TEXT_PLAIN[0] != MULTIPART_FORM_DATA[0]
    ensures MULTIPART_FORM_DATA[0] != APPLICATION_X_WWW_FORM_URLENCODED[0]
  {
  }

  /** A multipart body needs a boundary attribute, and the last one is used. */
  lemma BodyMultipart(headers: map<bytes, bytes>, body: bytes, parts: seq<bytes>)
    requires CONTENT_TYPE in headers && parts == SplitOn(headers[CONTENT_TYPE], SEMICOLON)
    requires StartsWith(Trim(headers[CONTENT_TYPE]), MULTIPART_FORM_DATA)
    ensures (forall j :: 0 <= j < |parts| ==> !GivesBoundary(parts[j])) ==> BodySpec(headers, body) == Err(Fail(NO_BOUNDARY))
    ensures LastBoundary(parts).Some? ==> BodySpec(headers, body) == Multipart(body, LastBoundary(parts).value)
  {
    var t := Trim(headers[CONTENT_TYPE]);
    ContentTypeInitials();
    assert t[0] == MULTIPART_FORM_DATA[0];
    assert !StartsWith(t, APPLICATION_X_WWW_FORM_URLENCODED);
    LastBoundaryIsLast(parts);
  }

  // ------------------------------------------------------------- multipart

  /**
    A part that ends with the closing delimiter loses it and the two bytes
    before it; the source's `len - last_sep.len() - 2` underflows, and
    panics, when the part is shorter than that.
  */
  function StripTerminal(section: bytes, lastSep: bytes): (r: Result<bytes>)
    ensures r.Err? <==> EndsWith(section, lastSep) && |section| < |lastSep| + 2
    ensures r.Ok? && EndsWith(section, lastSep) ==> |r.value| + 2 + |lastSep| == |section| && StartsWith(section, r.value)
    ensures r.Ok? && !EndsWith(section, lastSep) ==> r.value == section
  {
    if EndsWith(section, lastSep) then
      if |section| < |lastSep| + 2 then Err(Panic(SUBTRACT_OVERFLOW))
      else Ok(section[..|section| - |lastSep| - 2])
    else Ok(section)
  }

  /** "name=" holds one `=`, its last byte. */
  lemma NamePrefixShape()
    ensures NAME_PREFIX != [] && NAME_PREFIX[|NAME_PREFIX| - 1] == EQUALS
    ensures EQUALS !in NAME_PREFIX[..|NAME_PREFIX| - 1]
  {
  }

  /** A `;`-separated attribute of a part's first line that, trimmed, starts with "name=". */
  predicate IsNameAttr(attr: bytes) {
    StartsWith(Trim(attr), NAME_PREFIX)
  }

  /**
    The name a trimmed "name=" attribute gives: its second `=`-separated
    piece without its first and last bytes (the quotes), lower-cased.
    `name.len() - 1` underflows on an empty piece, and the slice panics when
    the piece is one byte long or a cut falls inside a UTF-8 sequence.
  */
  function QuotedName(attr: bytes): (r: Result<bytes>)
    requires StartsWith(attr, NAME_PREFIX)
    ensures r.Err? ==> r.error.Panic?
  {
    NamePrefixShape();
    AfterPrefix(attr, NAME_PREFIX, EQUALS);
    var quoted := SplitOn(attr, EQUALS)[1];
    if |quoted| == 0 then Err(Panic(SUBTRACT_OVERFLOW))
    else if |quoted| == 1 || !IsCharBoundary(quoted, 1) || !IsCharBoundary(quoted, |quoted| - 1) then Err(Panic(BAD_SLICE))
    else Ok(ToLower(quoted[1..|quoted| - 1]))
  }

  /**
    The field name of a part: `find_map` over the trimmed attributes of its
    first line stops at the first "name=" attribute.
  */
  function FieldName(line: bytes): Result<bytes> {
    var attrs := SplitOn(line, SEMICOLON);
    var i := FirstWhere(attrs, IsNameAttr);
    if i == |attrs| then Err(Fail(NO_FIELD_NAME))
    else
      FirstWhereIsFirst(attrs, IsNameAttr);
      QuotedName(Trim(attrs[i]))
  }

  /** Lower-casing brings in no byte outside a-z that was not there. */
  lemma NoByteInToLower(s: bytes, c: byte)
    requires c < 97 || c > 122
    requires c !in s
    ensures c !in ToLower(s)
  {
    forall i | 0 <= i < |s| ensures ToLower(s)[i] != c {
    }
  }

  /**
    The quoted piece is the text after "name=" up to the next `=`; it must be
    at least two bytes long and cut at character boundaries, and the name is
    what lies between its first and last bytes, lower-cased, free of `=`.
  */
  lemma QuotedNameValue(attr: bytes)
    requires StartsWith(attr, NAME_PREFIX)
    ensures var quoted := SplitOn(attr[|NAME_PREFIX|..], EQUALS)[0];
      && StartsWith(attr[|NAME_PREFIX|..], quoted)
      && (|quoted| == 0 ==> QuotedName(attr) == Err(Panic(SUBTRACT_OVERFLOW)))
      && (QuotedName(attr).Ok? <==> |quoted| >= 2 && IsCharBoundary(quoted, 1) && IsCharBoundary(quoted, |quoted| - 1))
      && (QuotedName(attr).Ok? ==>
            && QuotedName(attr).value == ToLower(quoted[1..|quoted| - 1])
            && IsLowerCase(QuotedName(attr).value)
            && EQUALS !in QuotedName(attr).value)
  {
    NamePrefixShape();
    AfterPrefix(attr, NAME_PREFIX, EQUALS);
    var quoted := SplitOn(attr[|NAME_PREFIX|..], EQUALS)[0];
    SplitOnHead(attr[|NAME_PREFIX|..], EQUALS);
    if |quoted| >= 2 {
      assert forall b :: b in quoted[1..|quoted| - 1] ==> b in quoted;
      NoByteInToLower(quoted[1..|quoted| - 1], EQUALS);
    }
  }

  /** A name holds no byte outside a-z that its attribute does not hold. */
  lemma QuotedNameOmits(attr: bytes, c: byte)
    requires StartsWith(attr, NAME_PREFIX) && QuotedName(attr).Ok?
    requires c !in attr && (c < 97 || c > 122)
    ensures c !in QuotedName(attr).value
  {
    NamePrefixShape();
    AfterPrefix(attr, NAME_PREFIX, EQUALS);
    var quoted := SplitOn(attr, EQUALS)[1];
    SplitOnHead(attr[|NAME_PREFIX|..], EQUALS);
    assert forall b :: b in quoted[1..|quoted| - 1] ==> b in attr;
    NoByteInToLower(quoted[1..|quoted| - 1], c);
  }

  /**
    A line without a "name=" attribute fails with the source's message;
    otherwise the name comes from the first such attribute alone, and a name
    holds no `;`.
  */
  lemma FieldNameValue(line: bytes, attrs: seq<bytes>, i: nat)
    requires attrs == SplitOn(line, SEMICOLON) && i == FirstWhere(attrs, IsNameAttr)
    ensures FieldName(line) == Err(Fail(NO_FIELD_NAME)) <==> forall j :: 0 <= j < |attrs| ==> !IsNameAttr(attrs[j])
    ensures FieldName(line) != Err(Fail(NO_FIELD_NAME)) ==>
      && i < |attrs| && IsNameAttr(attrs[i])
      && (forall j :: 0 <= j < i ==> !IsNameAttr(attrs[j]))
      && FieldName(line) == QuotedName(Trim(attrs[i]))
  {
    FirstWhereIsFirst(attrs, IsNameAttr);
  }

  /** A field name is lower case and holds neither `;` nor `=`. */
  lemma FieldNameChars(line: bytes)
    requires FieldName(line).Ok?
    ensures IsLowerCase(FieldName(line).value)
    ensures SEMICOLON !in FieldName(line).value && EQUALS !in FieldName(line).value
  {
    var attrs := SplitOn(line, SEMICOLON);
    var i := FirstWhere(attrs, IsNameAttr);
    FirstWhereIsFirst(attrs, IsNameAttr);
    var attr := Trim(attrs[i]);
    QuotedNameValue(attr);
    assert SEMICOLON !in attrs[i];
    QuotedNameOmits(attr, SEMICOLON);
  }

  /**
    How far the source's counter gets: the number of lines up to and
    including the first empty one, or all of them when none is empty.
  */
  function DataLineIndex(lines: seq<bytes>): nat
    decreases |lines|
  {
    if lines == [] then 0
    else if lines[0] == [] then 1
    else 1 + DataLineIndex(lines[1..])
  }

  /** The counter stops just after the first empty line, or runs off the end when there is none. */
  lemma {:induction false} DataLineIndexFirstEmpty(lines: seq<bytes>)
    ensures DataLineIndex(lines) <= |lines|
    ensures forall j :: 0 <= j < DataLineIndex(lines) - 1 ==> lines[j] != []
    ensures DataLineIndex(lines) < |lines| ==> lines[DataLineIndex(lines) - 1] == []
    ensures (exists j :: 0 <= j < |lines| && lines[j] == []) ==> lines[DataLineIndex(lines) - 1] == []
    decreases |lines|
  {
    if lines != [] && lines[0] != [] {
      var rest := lines[1..];
      DataLineIndexFirstEmpty(rest);
      forall j | 1 <= j < |lines| ensures rest[j - 1] == lines[j] {
      }
      if exists j :: 0 <= j < |lines| && lines[j] == [] {
        var j :| 0 <= j < |lines| && lines[j] == [];
        assert rest[j - 1] == [];
      }
    }
  }

  /**
    One part: its lines are the part split at CRLF; the name comes from line
    0 and the value is the line after the first empty line.
  */
  function Part(section: bytes, lastSep: bytes): Result<Entry> {
    match StripTerminal(section, lastSep)
    case Err(e) => Err(e)
    case Ok(s) =>
      var lines := Utils.SplitSpec(s, CRLF);
      match FieldName(lines[0])
      case Err(e) => Err(e)
      case Ok(name) =>
        var idx := DataLineIndex(lines);
        if idx < |lines| then Ok((name, lines[idx])) else Err(Fail(CORRUPT_PART))
  }

  /**
    A part decodes to its field name and the line after its first empty
    line; a part with no empty line before its last line is corrupt.
  */
  lemma PartValue(section: bytes, lastSep: bytes, lines: seq<bytes>)
    requires StripTerminal(section, lastSep).Ok?
    requires lines == Utils.SplitSpec(StripTerminal(section, lastSep).value, CRLF)
    ensures Part(section, lastSep).Ok? <==> FieldName(lines[0]).Ok? && exists j :: 0 <= j < |lines| - 1 && lines[j] == []
    ensures FieldName(lines[0]).Err? ==> Part(section, lastSep) == Err(FieldName(lines[0]).error)
    ensures Part(section, lastSep).Ok? ==>
      && Part(section, lastSep).value.0 == FieldName(lines[0]).value
      && 0 < DataLineIndex(lines) < |lines|
      && lines[DataLineIndex(lines) - 1] == []
      && (forall j :: 0 <= j < DataLineIndex(lines) - 1 ==> lines[j] != [])
      && Part(section, lastSep).value.1 == lines[DataLineIndex(lines)]
  {
    DataLineIndexFirstEmpty(lines);
    if exists j :: 0 <= j < |lines| - 1 && lines[j] == [] {
      var j :| 0 <= j < |lines| - 1 && lines[j] == [];
      assert DataLineIndex(lines) - 1 <= j;
    }
  }

  /** The delimiter that starts a part, "--{boundary}\r\n". */
  function Delimiter(boundary: bytes): bytes {
    DASHES + boundary + CRLF
  }

  /** The closing delimiter, "--{boundary}--\r\n". */
  function CloseDelimiter(boundary: bytes): bytes {
    DASHES + boundary + DASHES + CRLF
  }

  /** Whether a section fails to decode. */
  function PartFails(lastSep: bytes): bytes -> bool {
    section => Part(section, lastSep).Err?
  }

  /** A section as an optional entry: its entry when it decodes. */
  function PartEntry(lastSep: bytes): bytes -> Option<Entry> {
    section => if Part(section, lastSep).Ok? then Some(Part(section, lastSep).value) else None
  }

  /**
    What `parse_multipart_form` returns: every section after the first is a
    part; the first part that does not decode ends it with that part's
    error, and otherwise the parts are inserted in order.
  */
  function Multipart(body: bytes, boundary: bytes): Result<map<bytes, bytes>> {
    Form(Utils.SplitSpec(body, Delimiter(boundary))[1..], CloseDelimiter(boundary))
  }

  /** The form made of the sections that follow the first delimiter. */
  function Form(sections: seq<bytes>, lastSep: bytes): Result<map<bytes, bytes>> {
    var i := FirstWhere(sections, PartFails(lastSep));
    if i < |sections| then
      FirstWhereIsFirst(sections, PartFails(lastSep));
      Err(Part(sections[i], lastSep).error)
    else Ok(Collect(Entries(PartEntry(lastSep), sections)))
  }

  /** One pass of the loop in `parse_multipart_form`: one section decoded. */
  method ParsePart(section: bytes, lastSep: bytes) returns (r: Result<Entry>)
    ensures r == Part(section, lastSep)
  {
    var s := section;
    if EndsWith(s, lastSep) {
      if |s| < |lastSep| + 2 {
        return Err(Panic(SUBTRACT_OVERFLOW));
      }
      s := s[..|s| - |lastSep| - 2];
    }
    var lines := Utils.Split(s, CRLF);
    var name := FieldName(lines[0]);
    if name.Err? {
      return Err(name.error);
    }
    var dataLineIdx := FindDataLine(lines);
    if dataLineIdx >= |lines| {
      return Err(Fail(CORRUPT_PART));
    }
    return Ok((name.value, lines[dataLineIdx]));
  }

  /** The `data_line_idx` loop of `parse_multipart_form`: one past the first empty line. */
  method FindDataLine(lines: seq<bytes>) returns (dataLineIdx: nat)
    ensures dataLineIdx == DataLineIndex(lines)
  {
    dataLineIdx := 0;
    while dataLineIdx < |lines|
      invariant dataLineIdx <= |lines|
      invariant DataLineIndex(lines) == dataLineIdx + DataLineIndex(lines[dataLineIdx..])
    {
      var l := lines[dataLineIdx];
      DropOneMore(lines, dataLineIdx);
      dataLineIdx := dataLineIdx + 1;
      if |l| == 0 {
        break;
      }
    }
  }

  /** `parse_multipart_form` */
  method ParseMultipartForm(body: bytes, boundary: bytes) returns (r: Result<map<bytes, bytes>>)
    ensures r == Multipart(body, boundary)
  {
    var params: map<bytes, bytes> := map[];
    var sections := Utils.Split(body, Delimiter(boundary));
    var lastSep := CloseDelimiter(boundary);
    sections := sections[1..];
    assert Multipart(body, boundary) == Form(sections, lastSep);
    for n := 0 to |sections|
      invariant n <= FirstWhere(sections, PartFails(lastSep))
      invariant params == Collect(Entries(PartEntry(lastSep), sections[..n]))
    {
      var part := ParsePart(sections[n], lastSep);
      FirstWhereStep(sections, PartFails(lastSep), n);
      if part.Err? {
        return Err(part.error);
      }
      EntriesPrefix(PartEntry(lastSep), sections, n);
      CollectSnoc(Entries(PartEntry(lastSep), sections[..n]), Some(part.value));
      params := params[part.value.0 := part.value.1];
    }
    TakeAll(sections);
    return Ok(params);
  }

  /** A decoded part's name is lower case. */
  lemma PartLowerName(section: bytes, lastSep: bytes)
    requires Part(section, lastSep).Ok?
    ensures IsLowerCase(Part(section, lastSep).value.0)
  {
    var lines := Utils.SplitSpec(StripTerminal(section, lastSep).value, CRLF);
    FieldNameChars(lines[0]);
  }

  /** The form decodes exactly when every part does; otherwise the first part that fails gives the error. */
  lemma MultipartOk(body: bytes, boundary: bytes, parts: seq<bytes>)
    requires parts == Utils.SplitSpec(body, Delimiter(boundary))[1..]
    ensures Multipart(body, boundary).Ok? <==> forall j :: 0 <= j < |parts| ==> Part(parts[j], CloseDelimiter(boundary)).Ok?
    ensures forall i ::
      (0 <= i < |parts| && Part(parts[i], CloseDelimiter(boundary)).Err? &&
       forall j :: 0 <= j < i ==> Part(parts[j], CloseDelimiter(boundary)).Ok?) ==>
      Multipart(body, boundary) == Err(Part(parts[i], CloseDelimiter(boundary)).error)
  {
    var lastSep := CloseDelimiter(boundary);
    FirstWhereIsFirst(parts, PartFails(lastSep));
    forall i | 0 <= i < |parts| && Part(parts[i], lastSep).Err? && (forall j :: 0 <= j < i ==> Part(parts[j], lastSep).Ok?)
      ensures Multipart(body, boundary) == Err(Part(parts[i], lastSep).error)
    {
      FirstWhereAt(parts, PartFails(lastSep), i);
    }
  }

  /** Field names of a decoded form are lower case. */
  lemma MultipartLowerKeys(body: bytes, boundary: bytes)
    requires Multipart(body, boundary).Ok?
    ensures forall k :: k in Multipart(body, boundary).value ==> IsLowerCase(k)
  {
    var parts := Utils.SplitSpec(body, Delimiter(boundary))[1..];
    var lastSep := CloseDelimiter(boundary);
    MultipartOk(body, boundary, parts);
    forall j | 0 <= j < |parts| ensures IsLowerCase(Part(parts[j], lastSep).value.0) {
      PartLowerName(parts[j], lastSep);
    }
    EntriesAll(PartEntry(lastSep), parts, (e: Entry) => IsLowerCase(e.0));
  }

  /** In a decoded form a later part with the same name overwrites an earlier one. */
  lemma MultipartLastWins(body: bytes, boundary: bytes, parts: seq<bytes>, j: nat)
    requires parts == Utils.SplitSpec(body, Delimiter(boundary))[1..]
    requires Multipart(body, boundary).Ok? && j < |parts|
    ensures Part(parts[j], CloseDelimiter(boundary)).Ok?
    ensures var e := Part(parts[j], CloseDelimiter(boundary)).value;
      (forall j' :: j < j' < |parts| && Part(parts[j'], CloseDelimiter(boundary)).Ok? ==>
        Part(parts[j'], CloseDelimiter(boundary)).value.0 != e.0) ==>
      e.0 in Multipart(body, boundary).value && Multipart(body, boundary).value[e.0] == e.1
  {
    var lastSep := CloseDelimiter(boundary);
    MultipartOk(body, boundary, parts);
    var e := Part(parts[j], lastSep).value;
    if forall j' :: j < j' < |parts| && Part(parts[j'], lastSep).Ok? ==> Part(parts[j'], lastSep).value.0 != e.0 {
      EntriesLastWins(PartEntry(lastSep), parts, j);
    }
  }

  /** A body in which the delimiter is never found has no part: the first section is dropped. */
  lemma MultipartDropsFirstSection(body: bytes, boundary: bytes)
    requires Utils.ScanSpec(body, Delimiter(boundary)) == None
    ensures Multipart(body, boundary) == Ok(map[])
  {
  }

  // --------------------------------------------------------------- request

  /** What `HttpRequest::from` returns for a header text, a body and a peer address. */
  function RequestSpec(rawHeader: bytes, rawBody: bytes, ip: bytes): Result<HttpRequest> {
    var lines := Lines(rawHeader);
    if lines == [] then Err(Fail(NO_REQUEST_LINE))
    else match ParseRequestLine(lines[0])
      case Err(e) => Err(e)
      case Ok(line) =>
        var headers := Headers(lines[1..]);
        match BodySpec(headers, rawBody)
        case Err(e) => Err(e)
        case Ok(body) => Ok(HttpRequest(line.httpMethod, line.url, line.version, ip, headers, Parameters(line.query), body))
  }

  /** The query text of a url: what follows its first `?`, or nothing. */
  function QueryOf(url: bytes): bytes {
    var split := SplitOnce(url, QUESTION);
    if split.1.Some? then split.1.value else []
  }

  /** The query of a parsed request line is what follows the first `?` of its second token. */
  lemma RequestLineQuery(line: bytes, words: seq<bytes>)
    requires words == SplitWhitespace(line) && ParseRequestLine(line).Ok?
    ensures ParseRequestLine(line).value.query == QueryOf(words[1])
  {
    var l := ParseRequestLine(line).value;
    if QUESTION in words[1] {
      SplitOnceAt(words[1], QUESTION, l.url, l.query);
    }
  }

  /**
    A request is built exactly when the header has a request line of at
    least three tokens and the body decodes; otherwise the first failure
    is returned. The request's parts are those of the request line, the
    header lines after it, the query and the body.
  */
  lemma RequestParts(rawHeader: bytes, rawBody: bytes, ip: bytes, lines: seq<bytes>, words: seq<bytes>)
    requires lines == Lines(rawHeader) && (lines != [] ==> words == SplitWhitespace(lines[0]))
    ensures lines == [] ==> RequestSpec(rawHeader, rawBody, ip) == Err(Fail(NO_REQUEST_LINE))
    ensures lines != [] && ParseRequestLine(lines[0]).Err? ==>
      RequestSpec(rawHeader, rawBody, ip) == Err(ParseRequestLine(lines[0]).error)
    ensures lines != [] && ParseRequestLine(lines[0]).Ok? && BodySpec(Headers(lines[1..]), rawBody).Err? ==>
      RequestSpec(rawHeader, rawBody, ip) == Err(BodySpec(Headers(lines[1..]), rawBody).error)
    ensures RequestSpec(rawHeader, rawBody, ip).Ok? <==>
      lines != [] && |words| >= 3 && BodySpec(Headers(lines[1..]), rawBody).Ok?
    ensures RequestSpec(rawHeader, rawBody, ip).Ok? ==>
      && RequestSpec(rawHeader, rawBody, ip).value.httpMethod == MethodFrom(words[0])
      && RequestSpec(rawHeader, rawBody, ip).value.version == VersionFrom(words[2])
      && RequestSpec(rawHeader, rawBody, ip).value.ip == ip
      && RequestSpec(rawHeader, rawBody, ip).value.headers == Headers(lines[1..])
      && RequestSpec(rawHeader, rawBody, ip).value.body == BodySpec(Headers(lines[1..]), rawBody).value
      && RequestSpec(rawHeader, rawBody, ip).value.url == ParseRequestLine(lines[0]).value.url
      && RequestSpec(rawHeader, rawBody, ip).value.searchParams == Parameters(QueryOf(words[1]))
  {
    if lines != [] && ParseRequestLine(lines[0]).Ok? {
      RequestLineQuery(lines[0], words);
    }
  }

  /** The header-line loop of `HttpRequest::from`: each line with a `:` inserts its normalised name and value. */
  method ParseHeaders(lines: seq<bytes>) returns (headers: map<bytes, bytes>)
    ensures headers == Headers(lines)
  {
    headers := map[];
    for n := 0 to |lines|
      invariant headers == Collect(Entries(HeaderEntry, lines[..n]))
    {
      var kv := SplitOnce(lines[n], COLON);
      EntriesPrefix(HeaderEntry, lines, n);
      CollectSnoc(Entries(HeaderEntry, lines[..n]), HeaderEntry(lines[n]));
      if kv.1.Some? {
        headers := headers[ToLower(Trim(kv.0)) := Trim(kv.1.value)];
      }
    }
    TakeAll(lines);
  }

  /** `HttpRequest::from` */
  method ParseRequest(rawHeader: bytes, rawBody: bytes, ip: bytes) returns (r: Result<HttpRequest>)
    ensures r == RequestSpec(rawHeader, rawBody, ip)
  {
    var header := Lines(rawHeader);
    if header == [] {
      return Err(Fail(NO_REQUEST_LINE));
    }
    var words := SplitWhitespace(header[0]);
    if |words| == 0 {
      return Err(Fail(NO_METHOD));
    }
    var httpMethod := MethodFrom(words[0]);
    var searchParamsRaw: bytes := [];
    var url: bytes;
    if |words| >= 2 {
      var splitUrl := SplitOnce(words[1], QUESTION);
      url := splitUrl.0;
      if splitUrl.1.Some? {
        searchParamsRaw := splitUrl.1.value;
      }
    } else {
      url := ROOT;
    }
    if |words| < 3 {
      return Err(Fail(NO_VERSION));
    }
    var version := VersionFrom(words[2]);
    var headers := ParseHeaders(header[1..]);
    var searchParams := ParseParameters(searchParamsRaw);
    var body := ParseBody(headers, rawBody);
    if body.Err? {
      return Err(body.error);
    }
    return Ok(HttpRequest(httpMethod, url, version, ip, headers, searchParams.value, body.value));
  }
}
