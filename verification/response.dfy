/**
  The response side (src/response.rs): a status, an ordered header map with
  two default entries, an optional body, and the bytes that go on the wire.

  The source keeps headers in a `BTreeMap<&str, &str>`; here it is a list of
  entries whose keys ascend in byte order (`Sorted`), which is also the order
  in which `headers()` renders them. `ToMap` is the map that list stands for.
*/
module Response {
  import opened Wrappers
  import opened Bytes
  import Constant

  datatype HttpStatus = Ok | BadRequest | NotFound | InternalServerError

  /** The numeric code of a status. */
  function Code(status: HttpStatus): nat {
    match status
    case Ok => 200
    case BadRequest => 400
    case NotFound => 404
    case InternalServerError => 500
  }

  const OK_TEXT: bytes := Ascii("200 OK")
  const BAD_REQUEST_TEXT: bytes := Ascii("400 Bad Request")
  const NOT_FOUND_TEXT: bytes := Ascii("404 Not Found")
  const INTERNAL_SERVER_ERROR_TEXT: bytes := Ascii("500 Internal Server Error")

  /** `HttpStatus::to_str`: the code, a space and the reason phrase. */
  function ToStr(status: HttpStatus): (r: bytes)
    ensures |r| > 4 && r[..3] == Decimal(Code(status)) && r[3] == SPACE
  {
    ThreeDigits(Code(status));
    match status
    case Ok => OK_TEXT
    case BadRequest => BAD_REQUEST_TEXT
    case NotFound => NOT_FOUND_TEXT
    case InternalServerError => INTERNAL_SERVER_ERROR_TEXT
  }

  /** The status whose text is `text`, if any. */
  function StatusOf(text: bytes): (r: Option<HttpStatus>)
    ensures r.Some? ==> ToStr(r.value) == text
  {
    if text == ToStr(Ok) then Some(Ok)
    else if text == ToStr(BadRequest) then Some(BadRequest)
    else if text == ToStr(NotFound) then Some(NotFound)
    else if text == ToStr(InternalServerError) then Some(InternalServerError)
    else None
  }

  /** Each status has its own text, so the text gives the status back. */
  lemma StatusRoundTrip(status: HttpStatus)
    ensures StatusOf(ToStr(status)) == Some(status)
  {
    assert |OK_TEXT| == 6 && |BAD_REQUEST_TEXT| == 15;
    assert |NOT_FOUND_TEXT| == 13 && |INTERNAL_SERVER_ERROR_TEXT| == 25;
  }

  // ------------------------------------------------------------ header map

  type Entry = (bytes, bytes)

  /** Byte-wise lexicographic order, the order of `str` keys in a `BTreeMap`. */
  predicate Less(a: bytes, b: bytes)
    decreases |a|
  {
    if a == [] then b != []
    else b != [] && (if a[0] == b[0] then Less(a[1..], b[1..]) else a[0] < b[0])
  }

  lemma {:induction false} LessIrreflexive(a: bytes)
    ensures !Less(a, a)
    decreases |a|
  {
    if a != [] {
      LessIrreflexive(a[1..]);
    }
  }

  lemma {:induction false} LessTransitive(a: bytes, b: bytes, c: bytes)
    requires Less(a, b) && Less(b, c)
    ensures Less(a, c)
    decreases |a|
  {
    if a != [] && a[0] == b[0] && b[0] == c[0] {
      LessTransitive(a[1..], b[1..], c[1..]);
    }
  }

  lemma {:induction false} LessTotal(a: bytes, b: bytes)
    ensures a == b || Less(a, b) || Less(b, a)
    decreases |a|
  {
    if a != [] && b != [] && a[0] == b[0] {
      LessTotal(a[1..], b[1..]);
      assert a == [a[0]] + a[1..] && b == [b[0]] + b[1..];
    }
  }

  /** Keys strictly ascending: how a `BTreeMap` holds its entries, each key once. */
  predicate Sorted(es: seq<Entry>) {
    forall i, j :: 0 <= i < j < |es| ==> Less(es[i].0, es[j].0)
  }

  /** The map a list of entries stands for; in a sorted list every key occurs once. */
  function ToMap(es: seq<Entry>): map<bytes, bytes>
    decreases |es|
  {
    if es == [] then map[] else ToMap(es[1..])[es[0].0 := es[0].1]
  }

  lemma {:induction false} ToMapKeys(es: seq<Entry>, k: bytes)
    ensures k in ToMap(es) <==> exists j :: 0 <= j < |es| && es[j].0 == k
    decreases |es|
  {
    if es != [] {
      ToMapKeys(es[1..], k);
      if k in ToMap(es[1..]) {
        var j :| 0 <= j < |es[1..]| && es[1..][j].0 == k;
        assert es[j + 1].0 == k;
      }
      if exists j :: 0 <= j < |es| && es[j].0 == k {
        var j :| 0 <= j < |es| && es[j].0 == k;
        if j > 0 {
          assert es[1..][j - 1].0 == k;
        }
      }
    }
  }

  /**
    `BTreeMap::insert`: the value of an existing key is replaced, otherwise
    the entry goes in at its place in key order.
  */
  function Insert(es: seq<Entry>, k: bytes, v: bytes): (r: seq<Entry>)
    ensures ToMap(r) == ToMap(es)[k := v]
    ensures forall j :: 0 <= j < |r| ==> r[j] == (k, v) || r[j] in es
    decreases |es|
  {
    if es == [] then [(k, v)]
    else if es[0].0 == k then
      assert ([(k, v)] + es[1..])[1..] == es[1..];
      [(k, v)] + es[1..]
    else if Less(k, es[0].0) then
      assert ([(k, v)] + es)[1..] == es;
      [(k, v)] + es
    else
      var rest := Insert(es[1..], k, v);
      assert ([es[0]] + rest)[1..] == rest;
      [es[0]] + rest
  }

  /** Inserting keeps the keys ascending. */
  lemma {:induction false} InsertSorted(es: seq<Entry>, k: bytes, v: bytes)
    requires Sorted(es)
    ensures Sorted(Insert(es, k, v))
    decreases |es|
  {
    if es == [] {
    } else if es[0].0 == k {
      var r := Insert(es, k, v);
      assert forall j :: 0 <= j < |r| ==> r[j].0 == es[j].0;
    } else if Less(k, es[0].0) {
      forall j | 0 < j < |es| ensures Less(k, es[j].0) {
        LessTransitive(k, es[0].0, es[j].0);
      }
    } else {
      LessTotal(k, es[0].0);
      var rest := Insert(es[1..], k, v);
      InsertSorted(es[1..], k, v);
      forall j | 0 <= j < |rest| ensures Less(es[0].0, rest[j].0) {
        if rest[j] != (k, v) {
          var i :| 0 <= i < |es[1..]| && es[1..][i] == rest[j];
          assert es[i + 1] == rest[j];
        }
      }
      var r := [es[0]] + rest;
      forall i, j | 0 <= i < j < |r| ensures Less(r[i].0, r[j].0) {
        assert r[j] == rest[j - 1];
        if i > 0 {
          assert r[i] == rest[i - 1];
        }
      }
    }
  }

  /** The entries of `es` inserted into `m` one after another, in order. */
  function Overlay(m: map<bytes, bytes>, es: seq<Entry>): map<bytes, bytes>
    decreases |es|
  {
    if es == [] then m else Overlay(m[es[0].0 := es[0].1], es[1..])
  }

  /** Inserting the entries of a sorted list overrides exactly the keys it holds. */
  lemma {:induction false} OverlaySorted(m: map<bytes, bytes>, es: seq<Entry>)
    requires Sorted(es)
    ensures Overlay(m, es) == m + ToMap(es)
    decreases |es|
  {
    if es != [] {
      var k := es[0].0;
      var rest := es[1..];
      assert Sorted(rest) by {
        forall i, j | 0 <= i < j < |rest| ensures Less(rest[i].0, rest[j].0) {
          assert rest[i] == es[i + 1] && rest[j] == es[j + 1];
        }
      }
      OverlaySorted(m[k := es[0].1], rest);
      LessIrreflexive(k);
      forall j | 0 <= j < |rest| ensures rest[j].0 != k {
        assert rest[j] == es[j + 1];
      }
      ToMapKeys(rest, k);
      assert k !in ToMap(rest);
    }
  }

  // --------------------------------------------------------------- text

  const HTTP_1_1: bytes := Ascii("HTTP/1.1")
  const CONTENT_TYPE: bytes := Ascii("Content-Type")
  const SERVER: bytes := Ascii("server")
  const SERVER_NAME: bytes := Ascii("FlapyPan/my-http-server")
  const CONTENT_LENGTH: bytes := Ascii("Content-Length: ")

  /** The header entries of a default response, in key order. */
  const DEFAULT_HEADERS: seq<Entry> := [(CONTENT_TYPE, Constant.TEXT_PLAIN), (SERVER, SERVER_NAME)]

  /** One rendered header, "key:value\r\n" with no space after the colon. */
  function HeaderLine(e: Entry): bytes {
    e.0 + [COLON] + e.1 + CRLF
  }

  /** What `headers()` renders: each entry's line, in the list's order. */
  function HeaderText(es: seq<Entry>): bytes
    decreases |es|
  {
    if es == [] then [] else HeaderLine(es[0]) + HeaderText(es[1..])
  }

  /** `lines()` takes one header line off the front of a header block. */
  lemma LinesOfHeaderLine(e: Entry, rest: bytes)
    requires LF !in e.0 && LF !in e.1
    ensures Lines(HeaderLine(e) + rest) == [e.0 + [COLON] + e.1] + Lines(rest)
  {
    var s := HeaderLine(e) + rest;
    var i := |e.0| + 1 + |e.1| + 1;
    assert s == e.0 + [COLON] + e.1 + [CR] + [LF] + rest;
    assert s[..i] == e.0 + [COLON] + e.1 + [CR];
    assert s[i + 1..] == rest;
    forall j | 0 <= j < i ensures s[j] != LF {
      assert s[j] == s[..i][j];
      assert s[..i][j] in e.0 || s[..i][j] in e.1 || s[..i][j] == COLON || s[..i][j] == CR;
    }
    IndexOfFirst(s, LF, i);
    assert DropCr(s[..i]) == e.0 + [COLON] + e.1;
  }

  /** Read with `lines()`, the rendered header block gives one "key:value" line per entry. */
  lemma {:induction false} HeaderTextLines(es: seq<Entry>)
    requires forall j :: 0 <= j < |es| ==> LF !in es[j].0 && LF !in es[j].1
    ensures |Lines(HeaderText(es))| == |es|
    ensures forall j :: 0 <= j < |es| ==> Lines(HeaderText(es))[j] == es[j].0 + [COLON] + es[j].1
    decreases |es|
  {
    if es != [] {
      var rest := HeaderText(es[1..]);
      LinesOfHeaderLine(es[0], rest);
      HeaderTextLines(es[1..]);
      var lines := Lines(HeaderText(es));
      forall j | 0 < j < |es| ensures lines[j] == es[j].0 + [COLON] + es[j].1 {
        assert lines[j] == Lines(rest)[j - 1];
        assert es[1..][j - 1] == es[j];
      }
    }
  }

  /**
    The rendered header block reads back, line by line with `lines()` and
    each line cut at its first `:`, as the entries it was made from, as long
    as no key holds a `:` and no key or value holds a line feed.
  */
  lemma HeaderTextReadsBack(es: seq<Entry>)
    requires forall j :: 0 <= j < |es| ==> COLON !in es[j].0 && LF !in es[j].0 && LF !in es[j].1
    ensures |Lines(HeaderText(es))| == |es|
    ensures forall j :: 0 <= j < |es| ==> SplitOnce(Lines(HeaderText(es))[j], COLON) == (es[j].0, Some(es[j].1))
  {
    HeaderTextLines(es);
    forall j | 0 <= j < |es| ensures SplitOnce(Lines(HeaderText(es))[j], COLON) == (es[j].0, Some(es[j].1)) {
      SplitOnceAt(Lines(HeaderText(es))[j], COLON, es[j].0, es[j].1);
    }
  }

  /** The body bytes, none when there is no body. */
  function BodyBytes(body: Option<bytes>): bytes {
    if body.Some? then body.value else []
  }

  /** The text before the body, up to and including the empty line. */
  function Head(version: bytes, status: HttpStatus, headers: seq<Entry>, body: Option<bytes>): bytes {
    version + [SPACE] + ToStr(status) + CRLF + HeaderText(headers)
      + CONTENT_LENGTH + Decimal(|BodyBytes(body)|) + CRLFCRLF
  }

  /** What `to_vec` returns. */
  function Serialize(version: bytes, status: HttpStatus, headers: seq<Entry>, body: Option<bytes>): bytes {
    Head(version, status, headers, body) + BodyBytes(body)
  }

  /**
    The bytes start with the status line, the head ends with an empty line,
    and the body follows the head verbatim.
  */
  lemma SerializeFraming(version: bytes, status: HttpStatus, headers: seq<Entry>, body: Option<bytes>)
    ensures StartsWith(Serialize(version, status, headers, body), version + [SPACE] + ToStr(status) + CRLF)
    ensures EndsWith(Head(version, status, headers, body), CRLFCRLF)
    ensures EndsWith(Serialize(version, status, headers, body), BodyBytes(body))
    ensures |Serialize(version, status, headers, body)| == |Head(version, status, headers, body)| + |BodyBytes(body)|
  {
    var line := version + [SPACE] + ToStr(status) + CRLF;
    var a := line + HeaderText(headers);
    var b := a + CONTENT_LENGTH;
    var c := b + Decimal(|BodyBytes(body)|);
    var head := c + CRLFCRLF;
    assert head == Head(version, status, headers, body);
    Affixes(line, HeaderText(headers));
    PrefixExtend(a, CONTENT_LENGTH, line);
    PrefixExtend(b, Decimal(|BodyBytes(body)|), line);
    PrefixExtend(c, CRLFCRLF, line);
    PrefixExtend(head, BodyBytes(body), line);
    Affixes(c, CRLFCRLF);
    Affixes(head, BodyBytes(body));
  }

  /** Before the empty line comes "Content-Length: " and digits that read back as the body length. */
  lemma ContentLengthReadsBack(version: bytes, status: HttpStatus, headers: seq<Entry>, body: Option<bytes>)
    ensures var head := Head(version, status, headers, body);
      |head| >= 4 && EndsWith(head[..|head| - 4], CONTENT_LENGTH + Decimal(|BodyBytes(body)|))
    ensures DecimalValue(Decimal(|BodyBytes(body)|)) == |BodyBytes(body)|
  {
    var x := version + [SPACE] + ToStr(status) + CRLF + HeaderText(headers);
    var d := Decimal(|BodyBytes(body)|);
    var head := Head(version, status, headers, body);
    assert head == x + CONTENT_LENGTH + d + CRLFCRLF;
    Affixes(x + CONTENT_LENGTH + d, CRLFCRLF);
    assert head[..|head| - 4] == x + CONTENT_LENGTH + d;
    AppendAssoc(x, CONTENT_LENGTH, d);
    Affixes(x, CONTENT_LENGTH + d);
    DecimalRoundTrip(|BodyBytes(body)|);
  }

  // ------------------------------------------------------------ response

  class HttpResponse {
    var version: bytes
    var status: HttpStatus
    var headers: seq<Entry>
    var body: Option<bytes>

    predicate Valid()
      reads this
    {
      Sorted(headers)
    }

    /** `HttpResponse::default` */
    constructor Default()
      ensures Valid()
      ensures version == HTTP_1_1 && status == Ok && body == None
      ensures headers == DEFAULT_HEADERS
    {
      version := HTTP_1_1;
      status := Ok;
      headers := [];
      body := None;
      new;
      headers := Insert(headers, CONTENT_TYPE, Constant.TEXT_PLAIN);
      var one := headers;
      assert one == [(CONTENT_TYPE, Constant.TEXT_PLAIN)] && one[1..] == [];
      assert CONTENT_TYPE != SERVER && !Less(SERVER, CONTENT_TYPE) by {
        assert |CONTENT_TYPE| != |SERVER| && CONTENT_TYPE[0] < SERVER[0];
      }
      assert Insert(one, SERVER, SERVER_NAME) == [one[0]] + Insert([], SERVER, SERVER_NAME);
      headers := Insert(headers, SERVER, SERVER_NAME);
    }

    /**
      `HttpResponse::new`: a default response with the given status and body,
      the caller's headers inserted one by one over the defaults.
    */
    static method New(status: HttpStatus, hs: Option<seq<Entry>>, body: Option<bytes>) returns (r: HttpResponse)
      ensures fresh(r) && r.Valid()
      ensures r.version == HTTP_1_1 && r.status == status && r.body == body
      ensures ToMap(r.headers) == if hs.Some? then Overlay(ToMap(DEFAULT_HEADERS), hs.value) else ToMap(DEFAULT_HEADERS)
      ensures hs.Some? && Sorted(hs.value) ==> ToMap(r.headers) == ToMap(DEFAULT_HEADERS) + ToMap(hs.value)
    {
      r := new HttpResponse.Default();
      r.status := status;
      if hs.Some? {
        var entries := hs.value;
        for n := 0 to |entries|
          invariant r.Valid() && r.version == HTTP_1_1 && r.status == status
          invariant Overlay(ToMap(r.headers), entries[n..]) == Overlay(ToMap(DEFAULT_HEADERS), entries)
        {
          DropOneMore(entries, n);
          InsertSorted(r.headers, entries[n].0, entries[n].1);
          r.headers := Insert(r.headers, entries[n].0, entries[n].1);
        }
        if Sorted(entries) {
          OverlaySorted(ToMap(DEFAULT_HEADERS), entries);
        }
      }
      r.body := body;
    }

    /** `HttpResponse::not_found`: a default response with status 404 and Content-Type text/html. */
    static method NotFound(body: Option<bytes>) returns (r: HttpResponse)
      ensures fresh(r) && r.Valid()
      ensures r.version == HTTP_1_1 && r.status == HttpStatus.NotFound && r.body == body
      ensures r.headers == [(CONTENT_TYPE, Constant.TEXT_HTML), (SERVER, SERVER_NAME)]
    {
      r := new HttpResponse.Default();
      r.status := HttpStatus.NotFound;
      r.headers := Insert(r.headers, CONTENT_TYPE, Constant.TEXT_HTML);
      r.body := body;
    }

    /** `headers()`: the header lines in ascending key order. */
    method Headers() returns (s: bytes)
      ensures s == HeaderText(headers)
    {
      var entries := headers;
      s := [];
      for n := 0 to |entries|
        invariant s + HeaderText(entries[n..]) == HeaderText(entries)
      {
        DropOneMore(entries, n);
        AppendAssoc(s, HeaderLine(entries[n]), HeaderText(entries[n + 1..]));
        s := s + HeaderLine(entries[n]);
      }
    }

    /** `to_vec` */
    method ToVec() returns (v: bytes)
      ensures v == Serialize(version, status, headers, body)
    {
      var hs := Headers();
      var length := if body.Some? then |body.value| else 0;
      v := version + [SPACE] + ToStr(status) + CRLF + hs + CONTENT_LENGTH + Decimal(length) + CRLFCRLF;
      if body.Some? {
        v := v + body.value;
      }
    }
  }
}
