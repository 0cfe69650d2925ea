/**
  The header framer of src/server.rs: `HttpSettings::new` and `read_stream`.

  The TCP stream is a `ByteSource`: the bytes the client will send, and a
  schedule saying how many bytes each successive `read` call hands over (or
  that it fails). `read_stream` reads chunks of at most `header_buffer`
  bytes until it sees "\r\n\r\n", tops up a window cut short by the end of a
  chunk with `read_exact`, and returns the header (checked to be UTF-8) and
  the bytes that followed the window in the same chunk.
*/
module Server {
  import opened Wrappers
  import opened Errors
  import opened Bytes

  const HEADER_TOO_LARGE: string := "请求头大小超出限制"
  const READ_FAILED: string := "读取请求头失败"
  const INDEX_OUT_OF_BOUNDS: string := "index out of bounds"

  datatype HttpSettings = HttpSettings(
    maxHeaderSize: nat,
    maxBodySize: nat,
    headerBuffer: nat,
    bodyBuffer: nat,
    headerReadAttempts: nat,
    bodyReadAttempts: nat)
  {
    /** What `read_stream` needs to terminate: a read buffer of at least one byte. */
    predicate Valid() {
      headerBuffer > 0
    }

    /** `HttpSettings::new`: an 8 KiB header limit and buffers, an 8 MiB body limit, three read attempts. */
    static function New(): (s: HttpSettings)
      ensures s.Valid() && s.headerBuffer == s.maxHeaderSize && s.maxBodySize == 1024 * s.maxHeaderSize
      ensures s.headerReadAttempts == s.bodyReadAttempts == 3
      ensures s.maxHeaderSize == s.bodyBuffer == 8192
    {
      HttpSettings(8192, 8192 * 1024, 8192, 8192, 3, 3)
    }
  }

  // ------------------------------------------------------------ the stream

  /** How one `read` call behaves: it hands over at most `size` bytes, or fails. */
  datatype ReadEvent = Chunk(size: nat) | Failure

  /** The state of the stream: the bytes not yet read and the behaviour of the next reads. */
  datatype Source = Source(remaining: bytes, schedule: seq<ReadEvent>)

  function Min(a: nat, b: nat): nat {
    if a <= b then a else b
  }

  /**
    What `read` into a buffer of `capacity` bytes returns: an I/O error when
    the schedule says so, otherwise as many bytes as the buffer, the schedule
    and the stream allow (no bytes at the end of the stream). Once the
    schedule is used up every read fills as much of the buffer as it can.
  */
  function ReadOutcome(st: Source, capacity: nat): (r: Result<bytes>)
    ensures r.Ok? ==> |r.value| <= capacity && |r.value| <= |st.remaining| && st.remaining == r.value + st.remaining[|r.value|..]
  {
    if st.schedule != [] && st.schedule[0].Failure? then Err(Io)
    else
      var n := Min(capacity, |st.remaining|);
      var n := if st.schedule != [] then Min(n, st.schedule[0].size) else n;
      assert st.remaining == st.remaining[..n] + st.remaining[n..];
      Ok(st.remaining[..n])
  }

  /** The stream after a `read`: the bytes handed over are gone and one schedule entry is used. */
  function AfterRead(st: Source, capacity: nat): Source {
    var got := ReadOutcome(st, capacity);
    var n := if got.Ok? then |got.value| else 0;
    Source(st.remaining[n..], if st.schedule == [] then [] else st.schedule[1..])
  }

  /** What `read_exact` of `n` bytes returns: the next `n` bytes, or an error when the stream ends first. */
  function ReadExactOutcome(st: Source, n: nat): (r: Result<bytes>)
    ensures r.Ok? ==> |r.value| == n <= |st.remaining| && st.remaining == r.value + st.remaining[n..]
  {
    if n <= |st.remaining| then
      assert st.remaining == st.remaining[..n] + st.remaining[n..];
      Ok(st.remaining[..n])
    else Err(Io)
  }

  function AfterReadExact(st: Source, n: nat): Source {
    Source(if n <= |st.remaining| then st.remaining[n..] else [], st.schedule)
  }

  /** The TCP stream that `read_stream` reads from. */
  class ByteSource {
    var remaining: bytes
    var schedule: seq<ReadEvent>

    function State(): Source
      reads this
    {
      Source(remaining, schedule)
    }

    constructor (data: bytes, schedule: seq<ReadEvent>)
      ensures State() == Source(data, schedule)
    {
      remaining := data;
      this.schedule := schedule;
    }

    /** `AsyncReadExt::read` into a buffer of `capacity` bytes. */
    method Read(capacity: nat) returns (r: Result<bytes>)
      modifies this
      ensures r == ReadOutcome(old(State()), capacity)
      ensures State() == AfterRead(old(State()), capacity)
    {
      r := ReadOutcome(State(), capacity);
      var n := if r.Ok? then |r.value| else 0;
      remaining := remaining[n..];
      if schedule != [] {
        schedule := schedule[1..];
      }
    }

    /** `AsyncReadExt::read_exact` of `n` bytes. */
    method ReadExact(n: nat) returns (r: Result<bytes>)
      modifies this
      ensures r == ReadExactOutcome(old(State()), n)
      ensures State() == AfterReadExact(old(State()), n)
    {
      r := ReadExactOutcome(State(), n);
      remaining := if n <= |remaining| then remaining[n..] else [];
    }
  }

  // ---------------------------------------------------- scanning one chunk

  /** How the scan of one chunk (the `'f` loop) ends. */
  datatype Window =
    | Whole          // no window starts in the chunk: all of it goes to the header
    | Split(at: nat) // a whole "\r\n\r\n" ends at `at`: the header ends there
    | TopUp(i: nat)  // a CR at `i` with fewer than three bytes after it in the chunk

  /** The three bytes after position `k` are "\n\r\n": with a CR at `k` they end a header. */
  predicate TailAt(buf: bytes, k: nat)
    requires k + 4 <= |buf|
  {
    buf[k + 1] == LF && buf[k + 2] == CR && buf[k + 3] == LF
  }

  lemma TerminatorAt(buf: bytes, k: nat)
    requires k + 4 <= |buf|
    ensures buf[k] == CR && TailAt(buf, k) <==> buf[k..k + 4] == CRLFCRLF
  {
    assert buf[k..k + 4] == [buf[k], buf[k + 1], buf[k + 2], buf[k + 3]];
  }

  /**
    The scan from byte `i` on: the first CR that either has fewer than three
    bytes after it or is followed by "\n\r\n" decides.
  */
  function WindowFrom(buf: bytes, i: nat): (r: Window)
    requires i <= |buf|
    ensures r.Split? ==> i + 4 <= r.at <= |buf| && buf[r.at - 4] == CR && TailAt(buf, r.at - 4)
    ensures r.TopUp? ==> i <= r.i < |buf| < r.i + 4 && buf[r.i] == CR
    ensures r.Split? ==> forall k :: i <= k < r.at - 4 && buf[k] == CR ==> k + 4 <= |buf| && !TailAt(buf, k)
    ensures r.TopUp? ==> forall k :: i <= k < r.i && buf[k] == CR ==> k + 4 <= |buf| && !TailAt(buf, k)
    decreases |buf| - i
  {
    if i == |buf| then Whole
    else if buf[i] == CR && |buf| < i + 4 then TopUp(i)
    else if buf[i] == CR && TailAt(buf, i) then Split(i + 4)
    else WindowFrom(buf, i + 1)
  }

  function WindowOf(buf: bytes): (r: Window)
    ensures r.Split? ==> 4 <= r.at <= |buf| && buf[r.at - 4] == CR && TailAt(buf, r.at - 4)
    ensures r.TopUp? ==> r.i < |buf| < r.i + 4 && buf[r.i] == CR
    ensures r.Split? ==> forall k :: 0 <= k < r.at - 4 && buf[k] == CR ==> k + 4 <= |buf| && !TailAt(buf, k)
    ensures r.TopUp? ==> forall k :: 0 <= k < r.i && buf[k] == CR ==> k + 4 <= |buf| && !TailAt(buf, k)
  {
    WindowFrom(buf, 0)
  }

  /**
    The scan runs to the end of the chunk exactly when every CR from `i` on
    has three bytes after it and they are not "\n\r\n".
  */
  lemma {:induction false} WindowWhole(buf: bytes, i: nat)
    requires i <= |buf|
    ensures WindowFrom(buf, i).Whole? <==>
      forall k :: i <= k < |buf| && buf[k] == CR ==> k + 4 <= |buf| && !TailAt(buf, k)
    decreases |buf| - i
  {
    if i < |buf| {
      WindowWhole(buf, i + 1);
    }
  }

  /** The `'f` loop of `read_stream`, up to the point where it acts on the window. */
  method FindWindow(buf: bytes) returns (w: Window)
    ensures w == WindowOf(buf)
  {
    for i := 0 to |buf|
      invariant WindowFrom(buf, i) == WindowOf(buf)
    {
      if buf[i] == CR {
        if |buf| < i + 4 {
          return TopUp(i);
        } else if buf[i + 1] == LF && buf[i + 2] == CR && buf[i + 3] == LF {
          return Split(i + 4);
        }
      }
    }
    return Whole;
  }

  // ------------------------------------------------------- read_stream

  /** The outcome of `read_stream` and the stream left behind. */
  datatype Framed = Framed(result: Result<(bytes, bytes)>, rest: Source)

  /** What acting on one chunk leaves: the call is over, or the header so far and the stream. */
  datatype Step = Done(framed: Framed) | Next(header: bytes, st: Source)

  /**
    One chunk acted on, as the source means it: a window inside the chunk
    splits it between header and body; a window cut short is completed with
    `read_exact`, the chunk and the extra bytes go to the header, and the
    call ends if the completed window is "\r\n\r\n"; otherwise the whole
    chunk goes to the header. With `asWritten` the completed window is read
    as lines 112-115 of src/server.rs do it (`TopUpAsWritten`).
  */
  function ChunkStep(chunk: bytes, header: bytes, st: Source, asWritten: bool := false): (s: Step)
    ensures s.Next? ==> |header| + |chunk| <= |s.header| <= |header| + |chunk| + 3
  {
    match WindowOf(chunk)
    case Split(at) => Done(Framed(Ok((header + chunk[..at], chunk[at..])), st))
    case TopUp(i) =>
      var need := i + 4 - |chunk|;
      var extra := ReadExactOutcome(st, need);
      var st2 := AfterReadExact(st, need);
      if extra.Err? then Done(Framed(Err(extra.error), st2))
      else if asWritten then
        match TopUpAsWritten(header, chunk, extra.value, i)
        case Err(e) => Done(Framed(Err(e), st2))
        case Ok((h, complete)) => if complete then Done(Framed(Ok((h, [])), st2)) else Next(h, st2)
      else
        var buf2 := chunk + extra.value;
        if TailAt(buf2, i) then Done(Framed(Ok((header + buf2, [])), st2))
        else Next(header + buf2, st2)
    case Whole => Next(header + chunk, st)
  }

  /** Acting on the chunk the `'f` loop has scanned. */
  method ActOnChunk(chunk: bytes, header: bytes, src: ByteSource) returns (s: Step)
    modifies src
    ensures s == ChunkStep(chunk, header, old(src.State()))
    ensures src.State() == if s.Done? then s.framed.rest else s.st
  {
    var w := FindWindow(chunk);
    match w {
      case Split(at) =>
        return Done(Framed(Ok((header + chunk[..at], chunk[at..])), src.State()));
      case TopUp(i) =>
        var extra := src.ReadExact(i + 4 - |chunk|);
        if extra.Err? {
          return Done(Framed(Err(extra.error), src.State()));
        }
        var buf2 := chunk + extra.value;
        assert |buf2| == i + 4;
        var h := header + buf2;
        if buf2[i + 1] == LF && buf2[i + 2] == CR && buf2[i + 3] == LF {
          return Done(Framed(Ok((h, [])), src.State()));
        }
        return Next(h, src.State());
      case Whole =>
        return Next(header + chunk, src.State());
    }
  }

  /** How one pass of the `'l` loop ends: the call is over, or it goes round again. */
  datatype Round = Stop(framed: Framed) | Again(header: bytes, st: Source, fails: nat)

  /** The measure under which `read_stream` terminates. */
  predicate Progress(settings: HttpSettings, header: bytes, fails: nat, header': bytes, fails': nat) {
    fails < fails' || (fails == fails' && |header| < |header'|)
  }

  /**
    One pass of the `'l` loop with `header` read so far and `fails` short
    reads counted: read a chunk, reject it if the header would grow past
    `max_header_size`, act on it, and count a read shorter than the buffer,
    giving up once there are more than `header_read_attempts` of them.
  */
  function RoundOf(settings: HttpSettings, st: Source, header: bytes, fails: nat, asWritten: bool := false): (r: Round)
    requires settings.Valid() && fails <= settings.headerReadAttempts
    requires |header| <= settings.maxHeaderSize + 3
    ensures r.Again? ==>
      && r.fails <= settings.headerReadAttempts && |r.header| <= settings.maxHeaderSize + 3
      && Progress(settings, header, fails, r.header, r.fails)
  {
    var got := ReadOutcome(st, settings.headerBuffer);
    var st1 := AfterRead(st, settings.headerBuffer);
    if got.Err? then Stop(Framed(Err(got.error), st1))
    else if |header| + |got.value| > settings.maxHeaderSize then Stop(Framed(Err(Fail(HEADER_TOO_LARGE)), st1))
    else match ChunkStep(got.value, header, st1, asWritten)
      case Done(f) => Stop(f)
      case Next(h, st2) =>
        if |got.value| < settings.headerBuffer then
          if fails + 1 > settings.headerReadAttempts then Stop(Framed(Err(Fail(READ_FAILED)), st2))
          else Again(h, st2, fails + 1)
        else Again(h, st2, fails)
  }

  /** `read_stream` from a state with `header` read so far and `fails` short reads counted. */
  function Frame(settings: HttpSettings, st: Source, header: bytes, fails: nat, asWritten: bool := false): Framed
    requires settings.Valid() && fails <= settings.headerReadAttempts
    requires |header| <= settings.maxHeaderSize + 3
    decreases settings.headerReadAttempts - fails, settings.maxHeaderSize + 4 - |header|
  {
    match RoundOf(settings, st, header, fails, asWritten)
    case Stop(f) => f
    case Again(h, st2, f) => Frame(settings, st2, h, f, asWritten)
  }

  /** The state at the start of the pass of the `'l` loop that ends the call. */
  datatype Pass = Pass(st: Source, header: bytes, fails: nat)

  function LastPass(settings: HttpSettings, st: Source, header: bytes, fails: nat): (p: Pass)
    requires settings.Valid() && fails <= settings.headerReadAttempts
    requires |header| <= settings.maxHeaderSize + 3
    ensures p.fails <= settings.headerReadAttempts && |p.header| <= settings.maxHeaderSize + 3
    ensures RoundOf(settings, p.st, p.header, p.fails) == Stop(Frame(settings, st, header, fails))
    decreases settings.headerReadAttempts - fails, settings.maxHeaderSize + 4 - |header|
  {
    match RoundOf(settings, st, header, fails)
    case Stop(f) => Pass(st, header, fails)
    case Again(h, st2, f) => LastPass(settings, st2, h, f)
  }

  /** A pass whose read delivered `chunk` within the size limit ends as acting on that chunk says. */
  lemma RoundOfChunk(settings: HttpSettings, st: Source, header: bytes, fails: nat, chunk: bytes, st1: Source,
                     asWritten: bool := false)
    requires settings.Valid() && fails <= settings.headerReadAttempts
    requires |header| <= settings.maxHeaderSize + 3
    requires ReadOutcome(st, settings.headerBuffer) == Ok(chunk) && st1 == AfterRead(st, settings.headerBuffer)
    requires |header| + |chunk| <= settings.maxHeaderSize
    ensures RoundOf(settings, st, header, fails, asWritten) == match ChunkStep(chunk, header, st1, asWritten)
      case Done(f) => Stop(f)
      case Next(h, st2) =>
        if |chunk| < settings.headerBuffer then
          if fails + 1 > settings.headerReadAttempts then Stop(Framed(Err(Fail(READ_FAILED)), st2))
          else Again(h, st2, fails + 1)
        else Again(h, st2, fails)
  {
  }

  /** One pass of the `'l` loop of `read_stream`. */
  method ReadRound(settings: HttpSettings, src: ByteSource, header: bytes, fails: nat) returns (r: Round)
    requires settings.Valid() && fails <= settings.headerReadAttempts
    requires |header| <= settings.maxHeaderSize + 3
    modifies src
    ensures r == RoundOf(settings, old(src.State()), header, fails)
    ensures src.State() == if r.Stop? then r.framed.rest else r.st
  {
    ghost var st0 := src.State();
    var got := src.Read(settings.headerBuffer);
    ghost var st1 := src.State();
    if got.Err? {
      return Stop(Framed(Err(got.error), src.State()));
    }
    var buf := got.value;
    if |header| + |buf| > settings.maxHeaderSize {
      return Stop(Framed(Err(Fail(HEADER_TOO_LARGE)), src.State()));
    }
    var s := ActOnChunk(buf, header, src);
    RoundOfChunk(settings, st0, header, fails, buf, st1);
    if s.Done? {
      return Stop(s.framed);
    }
    var readFails := fails;
    if |buf| < settings.headerBuffer {
      readFails := readFails + 1;
      if readFails > settings.headerReadAttempts {
        return Stop(Framed(Err(Fail(READ_FAILED)), s.st));
      }
    }
    return Again(s.header, s.st, readFails);
  }

  /** `read_stream`: the framing, then the header must be UTF-8. */
  function ReadStreamSpec(settings: HttpSettings, st: Source, asWritten: bool := false): Framed
    requires settings.Valid()
  {
    var f := Frame(settings, st, [], 0, asWritten);
    if f.result.Ok? && !Utf8Valid(f.result.value.0) then Framed(Err(InvalidUtf8), f.rest) else f
  }

  /** `read_stream` */
  method ReadStream(settings: HttpSettings, src: ByteSource) returns (r: Result<(bytes, bytes)>)
    requires settings.Valid()
    modifies src
    ensures r == ReadStreamSpec(settings, old(src.State())).result
    ensures src.State() == ReadStreamSpec(settings, old(src.State())).rest
  {
    ghost var framed := Frame(settings, src.State(), [], 0);
    var header: bytes := [];
    var readFails := 0;
    var outcome: Result<(bytes, bytes)> := Ok(([], []));
    var done := false;
    while !done
      invariant readFails <= settings.headerReadAttempts && |header| <= settings.maxHeaderSize + 3
      invariant !done ==> Frame(settings, src.State(), header, readFails) == framed
      invariant done ==> framed == Framed(outcome, src.State())
      decreases if done then 0 else 1, settings.headerReadAttempts - readFails, settings.maxHeaderSize + 4 - |header|
    {
      var round := ReadRound(settings, src, header, readFails);
      if round.Again? {
        header, readFails := round.header, round.fails;
      } else {
        outcome := round.framed.result;
        done := true;
      }
    }
    if outcome.Ok? && !Utf8Valid(outcome.value.0) {
      return Err(InvalidUtf8);
    }
    return outcome;
  }

  // ------------------------------------------------------------ properties

  /**
    Acting on a chunk loses no byte and makes none up: the header so far, the
    chunk and the stream's bytes are the new header (which extends the old
    one), the body if the call ends, and what the stream still holds.
  */
  lemma ChunkStepConserves(chunk: bytes, header: bytes, st: Source)
    ensures var s := ChunkStep(chunk, header, st);
      && (s.Next? ==> StartsWith(s.header, header) && header + chunk + st.remaining == s.header + s.st.remaining)
      && (s.Done? && s.framed.result.Ok? ==>
            && StartsWith(s.framed.result.value.0, header)
            && header + chunk + st.remaining == s.framed.result.value.0 + s.framed.result.value.1 + s.framed.rest.remaining)
  {
    match WindowOf(chunk)
    case Split(at) => SplitConserves(chunk, header, st.remaining, at);
    case TopUp(i) => TopUpStepConserves(chunk, header, st, i);
    case Whole => Affixes(header, chunk);
  }

  lemma TopUpStepConserves(chunk: bytes, header: bytes, st: Source, i: nat)
    requires WindowOf(chunk) == TopUp(i)
    ensures var s := ChunkStep(chunk, header, st);
      && (s.Next? ==> StartsWith(s.header, header) && header + chunk + st.remaining == s.header + s.st.remaining)
      && (s.Done? && s.framed.result.Ok? ==>
            && StartsWith(s.framed.result.value.0, header)
            && header + chunk + st.remaining == s.framed.result.value.0 + s.framed.result.value.1 + s.framed.rest.remaining)
  {
    var need := i + 4 - |chunk|;
    var extra := ReadExactOutcome(st, need);
    if extra.Ok? {
      var st2 := AfterReadExact(st, need);
      var h := header + (chunk + extra.value);
      TopUpConserves(chunk, header, extra.value, st2.remaining, st.remaining);
      if TailAt(chunk + extra.value, i) {
        assert ChunkStep(chunk, header, st) == Done(Framed(Ok((h, [])), st2));
      } else {
        assert ChunkStep(chunk, header, st) == Next(h, st2);
      }
    } else {
      assert ChunkStep(chunk, header, st).Done? && ChunkStep(chunk, header, st).framed.result.Err?;
    }
  }

  lemma SplitConserves(chunk: bytes, header: bytes, rest: bytes, at: nat)
    requires at <= |chunk|
    ensures StartsWith(header + chunk[..at], header)
    ensures header + chunk + rest == (header + chunk[..at]) + chunk[at..] + rest
  {
    assert chunk == chunk[..at] + chunk[at..];
    AppendAssoc(header, chunk[..at], chunk[at..]);
    Affixes(header, chunk[..at]);
  }

  lemma TopUpConserves(chunk: bytes, header: bytes, extra: bytes, rest: bytes, remaining: bytes)
    requires remaining == extra + rest
    ensures StartsWith(header + (chunk + extra), header)
    ensures header + chunk + remaining == (header + (chunk + extra)) + [] + rest
  {
    AppendAssoc(header + chunk, extra, rest);
    AppendAssoc(header, chunk, extra);
    Affixes(header, chunk + extra);
  }

  /** `ChunkStepConserves` for one pass of the `'l` loop. */
  lemma RoundConserves(settings: HttpSettings, st: Source, header: bytes, fails: nat)
    requires settings.Valid() && fails <= settings.headerReadAttempts
    requires |header| <= settings.maxHeaderSize + 3
    ensures var r := RoundOf(settings, st, header, fails);
      && (r.Again? ==> StartsWith(r.header, header) && header + st.remaining == r.header + r.st.remaining)
      && (r.Stop? && r.framed.result.Ok? ==>
            && StartsWith(r.framed.result.value.0, header)
            && header + st.remaining == r.framed.result.value.0 + r.framed.result.value.1 + r.framed.rest.remaining)
  {
    var got := ReadOutcome(st, settings.headerBuffer);
    if got.Ok? {
      var st1 := AfterRead(st, settings.headerBuffer);
      assert st.remaining == got.value + st1.remaining;
      AppendAssoc(header, got.value, st1.remaining);
      ChunkStepConserves(got.value, header, st1);
    }
  }

  /**
    No byte is lost or made up: the header read so far and the stream's
    bytes are exactly the returned header, the returned body and what the
    stream still holds.
  */
  lemma {:induction false} FrameConserves(settings: HttpSettings, st: Source, header: bytes, fails: nat)
    requires settings.Valid() && fails <= settings.headerReadAttempts
    requires |header| <= settings.maxHeaderSize + 3
    ensures var f := Frame(settings, st, header, fails);
      f.result.Ok? ==>
        && StartsWith(f.result.value.0, header)
        && header + st.remaining == f.result.value.0 + f.result.value.1 + f.rest.remaining
    decreases settings.headerReadAttempts - fails, settings.maxHeaderSize + 4 - |header|
  {
    RoundConserves(settings, st, header, fails);
    match RoundOf(settings, st, header, fails)
    case Stop(f) =>
    case Again(h, st2, f) =>
      FrameConserves(settings, st2, h, f);
      var g := Frame(settings, st2, h, f);
      if g.result.Ok? {
        assert header + st.remaining == h + st2.remaining;
      }
  }

  /**
    How a header `h` with body `b` ended on `chunk`, after `header`: at a
    window inside the chunk, with the rest of the chunk as the body; or at a
    window that `read_exact` completed, with the chunk and the bytes that
    completed it in the header and no body.
  */
  predicate EndsOnChunk(header: bytes, chunk: bytes, h: bytes, b: bytes) {
    match WindowOf(chunk)
    case Split(at) => h == header + chunk[..at] && b == chunk[at..]
    case TopUp(i) => |h| == |header| + i + 4 && StartsWith(h, header + chunk) && b == []
    case Whole => false
  }

  /**
    A call that ends with a header after acting on a chunk ends it with
    "\r\n\r\n", at most three bytes past the chunk; the body is what
    follows the window in the same chunk, and empty after a top-up.
  */
  lemma ChunkStepTerminated(chunk: bytes, header: bytes, st: Source)
    ensures var s := ChunkStep(chunk, header, st);
      s.Done? && s.framed.result.Ok? ==>
        var h := s.framed.result.value.0;
        var b := s.framed.result.value.1;
        && EndsWith(h, CRLFCRLF)
        && |h| <= |header| + |chunk| + 3
        && (b == [] || |b| + 4 <= |chunk|)
        && EndsOnChunk(header, chunk, h, b)
  {
    match WindowOf(chunk)
    case Split(at) =>
      TerminatorAt(chunk, at - 4);
      var h := header + chunk[..at];
      assert h[|h| - 4..] == chunk[at - 4..at];
    case TopUp(i) =>
      var extra := ReadExactOutcome(st, i + 4 - |chunk|);
      if extra.Ok? {
        TopUpTerminated(header, chunk + extra.value, i);
        AppendAssoc(header, chunk, extra.value);
        Affixes(header + chunk, extra.value);
      }
    case Whole =>
  }

  lemma TopUpTerminated(header: bytes, buf2: bytes, i: nat)
    requires |buf2| == i + 4 && buf2[i] == CR
    ensures TailAt(buf2, i) ==> EndsWith(header + buf2, CRLFCRLF)
  {
    TerminatorAt(buf2, i);
    var h := header + buf2;
    assert h[|h| - 4..] == buf2[i..i + 4];
  }

  /** `ChunkStepTerminated` for one pass of the `'l` loop. */
  lemma RoundTerminated(settings: HttpSettings, st: Source, header: bytes, fails: nat)
    requires settings.Valid() && fails <= settings.headerReadAttempts
    requires |header| <= settings.maxHeaderSize + 3
    ensures var r := RoundOf(settings, st, header, fails);
      r.Stop? && r.framed.result.Ok? ==>
        var h := r.framed.result.value.0;
        var b := r.framed.result.value.1;
        && EndsWith(h, CRLFCRLF)
        && |h| <= settings.maxHeaderSize + 3
        && (b == [] || |b| + 4 <= settings.headerBuffer)
        && ReadOutcome(st, settings.headerBuffer).Ok?
        && EndsOnChunk(header, ReadOutcome(st, settings.headerBuffer).value, h, b)
  {
    var got := ReadOutcome(st, settings.headerBuffer);
    if got.Ok? {
      ChunkStepTerminated(got.value, header, AfterRead(st, settings.headerBuffer));
    }
  }

  /**
    A header the framing ends with ends with "\r\n\r\n" and is at most
    three bytes over `max_header_size`; the body is the rest of the chunk
    the last pass read, after the window, or empty when `read_exact`
    completed the window, so a non-empty body is at least four bytes
    shorter than the read buffer.
  */
  lemma {:induction false} FrameTerminated(settings: HttpSettings, st: Source, header: bytes, fails: nat)
    requires settings.Valid() && fails <= settings.headerReadAttempts
    requires |header| <= settings.maxHeaderSize + 3
    ensures var f := Frame(settings, st, header, fails);
      f.result.Ok? ==>
        var h := f.result.value.0;
        var b := f.result.value.1;
        && EndsWith(h, CRLFCRLF)
        && |h| <= settings.maxHeaderSize + 3
        && (b == [] || |b| + 4 <= settings.headerBuffer)
        && var p := LastPass(settings, st, header, fails);
          && ReadOutcome(p.st, settings.headerBuffer).Ok?
          && EndsOnChunk(p.header, ReadOutcome(p.st, settings.headerBuffer).value, h, b)
    decreases settings.headerReadAttempts - fails, settings.maxHeaderSize + 4 - |header|
  {
    RoundTerminated(settings, st, header, fails);
    match RoundOf(settings, st, header, fails)
    case Stop(f) =>
    case Again(h, st2, f) =>
      FrameTerminated(settings, st2, h, f);
  }

  /**
    What `read_stream` returns: a UTF-8 header ending in "\r\n\r\n", at
    most three bytes over `max_header_size`, and a body, which together are
    exactly the bytes taken from the start of the stream.
  */
  lemma ReadStreamOk(settings: HttpSettings, st: Source)
    requires settings.Valid()
    ensures var f := ReadStreamSpec(settings, st);
      f.result.Ok? ==>
        var h := f.result.value.0;
        var b := f.result.value.1;
        && Utf8Valid(h) && EndsWith(h, CRLFCRLF) && |h| <= settings.maxHeaderSize + 3
        && (b == [] || |b| + 4 <= settings.headerBuffer)
        && st.remaining == h + b + f.rest.remaining
  {
    FrameConserves(settings, st, [], 0);
    FrameTerminated(settings, st, [], 0);
    assert [] + st.remaining == st.remaining;
  }

  /**
    A header is only returned when the stream holds a CR: a client that
    never sends one never gets a request through.
  */
  lemma HeaderNeedsCarriageReturn(settings: HttpSettings, st: Source)
    requires settings.Valid()
    ensures ReadStreamSpec(settings, st).result.Ok? ==> CR in st.remaining
  {
    ReadStreamOk(settings, st);
    var f := ReadStreamSpec(settings, st);
    if f.result.Ok? {
      var h := f.result.value.0;
      assert h[|h| - 4] == CRLFCRLF[0];
      assert st.remaining[|h| - 4] == h[|h| - 4];
    }
  }

  /** An empty chunk leaves the header as it was and the call going on. */
  lemma EmptyChunkStep(header: bytes, st: Source)
    ensures ChunkStep([], header, st) == Next(header, st)
  {
    assert WindowOf([]) == Whole;
    assert header + [] == header;
  }

  /**
    A stream that has ended and never fails gives zero-byte reads; each is
    short, so the call gives up with the read failure once more than
    `header_read_attempts` of them are counted.
  */
  lemma {:induction false} EndedStreamFails(settings: HttpSettings, st: Source, header: bytes, fails: nat)
    requires settings.Valid() && fails <= settings.headerReadAttempts
    requires |header| <= settings.maxHeaderSize
    requires st.remaining == [] && Failure !in st.schedule
    ensures Frame(settings, st, header, fails).result == Err(Fail(READ_FAILED))
    decreases settings.headerReadAttempts - fails
  {
    var st1 := AfterRead(st, settings.headerBuffer);
    assert st.schedule != [] ==> st.schedule[0] != Failure;
    assert ReadOutcome(st, settings.headerBuffer) == Ok([]);
    assert st1.remaining == [] && Failure !in st1.schedule;
    RoundOfChunk(settings, st, header, fails, [], st1);
    EmptyChunkStep(header, st1);
    if fails + 1 <= settings.headerReadAttempts {
      assert RoundOf(settings, st, header, fails) == Again(header, st1, fails + 1);
      EndedStreamFails(settings, st1, header, fails + 1);
    } else {
      assert RoundOf(settings, st, header, fails) == Stop(Framed(Err(Fail(READ_FAILED)), st1));
    }
  }

  /** A chunk that would take the header past `max_header_size` ends the call with that error. */
  lemma OversizeChunkRejected(settings: HttpSettings, st: Source, header: bytes, fails: nat)
    requires settings.Valid() && fails <= settings.headerReadAttempts
    requires |header| <= settings.maxHeaderSize + 3
    requires ReadOutcome(st, settings.headerBuffer).Ok?
    requires |header| + |ReadOutcome(st, settings.headerBuffer).value| > settings.maxHeaderSize
    ensures Frame(settings, st, header, fails).result == Err(Fail(HEADER_TOO_LARGE))
  {
  }

  // ---------------------------------------------- the top-up as written

  /** Indexing a `Vec<u8>`: a byte, or the panic of an index past the end. */
  function At(v: bytes, k: nat): (r: Result<byte>)
    ensures r.Ok? <==> k < |v|
    ensures r.Ok? ==> r.value == v[k]
  {
    if k < |v| then Ok(v[k]) else Err(Panic(INDEX_OUT_OF_BOUNDS))
  }

  /**
    Lines 109-119 of src/server.rs as written: the extra bytes are appended
    to the chunk, `header.append(&mut buf2)` moves every byte of `buf2` into
    the header and leaves `buf2` empty, and only then is `buf2[i + 1]` read.
    The result is the new header and whether the window matched, or the
    panic of an out-of-bounds index.
  */
  function TopUpAsWritten(header: bytes, chunk: bytes, extra: bytes, i: nat): (r: Result<(bytes, bool)>)
    ensures r.Ok? ==> r.value.0 == header + (chunk + extra)
  {
    var buf2 := chunk + extra;
    var newHeader := header + buf2;
    var moved: bytes := [];
    var b1 := At(moved, i + 1);
    var b2 := At(moved, i + 2);
    var b3 := At(moved, i + 3);
    if b1.Ok? && b2.Ok? && b3.Ok? then Ok((newHeader, b1 == Ok(LF) && b2 == Ok(CR) && b3 == Ok(LF)))
    else Err(Panic(INDEX_OUT_OF_BOUNDS))
  }

  /** Every top-up panics as written: the index is read from the emptied `buf2`. */
  lemma TopUpAsWrittenPanics(header: bytes, chunk: bytes, extra: bytes, i: nat)
    ensures TopUpAsWritten(header, chunk, extra, i) == Err(Panic(INDEX_OUT_OF_BOUNDS))
  {
  }

  /**
    As written, acting on a chunk is the corrected step except where
    `read_exact` completes a window: there it panics.
  */
  lemma ChunkStepAsWritten(chunk: bytes, header: bytes, st: Source)
    ensures var w := ChunkStep(chunk, header, st, true);
      w == ChunkStep(chunk, header, st) || w == Done(Framed(Err(Panic(INDEX_OUT_OF_BOUNDS)), w.framed.rest))
    ensures WindowOf(chunk).TopUp? && ReadExactOutcome(st, WindowOf(chunk).i + 4 - |chunk|).Ok? ==>
      ChunkStep(chunk, header, st, true).Done? &&
      ChunkStep(chunk, header, st, true).framed.result == Err(Panic(INDEX_OUT_OF_BOUNDS))
  {
    match WindowOf(chunk)
    case TopUp(i) =>
      var extra := ReadExactOutcome(st, i + 4 - |chunk|);
      if extra.Ok? {
        TopUpAsWrittenPanics(header, chunk, extra.value, i);
      }
    case Split(_) =>
    case Whole =>
  }

  /** `ChunkStepAsWritten` for one pass of the `'l` loop. */
  lemma RoundAsWritten(settings: HttpSettings, st: Source, header: bytes, fails: nat)
    requires settings.Valid() && fails <= settings.headerReadAttempts
    requires |header| <= settings.maxHeaderSize + 3
    ensures var w := RoundOf(settings, st, header, fails, true);
      w == RoundOf(settings, st, header, fails) || (w.Stop? && w.framed.result == Err(Panic(INDEX_OUT_OF_BOUNDS)))
  {
    var got := ReadOutcome(st, settings.headerBuffer);
    if got.Ok? {
      ChunkStepAsWritten(got.value, header, AfterRead(st, settings.headerBuffer));
    }
  }

  /**
    The framing as written returns what the corrected framing returns, or
    the index panic: the two part only at a top-up, where the code as
    written panics.
  */
  lemma {:induction false} FrameAsWritten(settings: HttpSettings, st: Source, header: bytes, fails: nat)
    requires settings.Valid() && fails <= settings.headerReadAttempts
    requires |header| <= settings.maxHeaderSize + 3
    ensures var w := Frame(settings, st, header, fails, true).result;
      w == Frame(settings, st, header, fails).result || w == Err(Panic(INDEX_OUT_OF_BOUNDS))
    decreases settings.headerReadAttempts - fails, settings.maxHeaderSize + 4 - |header|
  {
    RoundAsWritten(settings, st, header, fails);
    if RoundOf(settings, st, header, fails, true) == RoundOf(settings, st, header, fails) {
      match RoundOf(settings, st, header, fails)
      case Stop(f) =>
      case Again(h, st2, f) =>
        FrameAsWritten(settings, st2, h, f);
    }
  }

  /** `read_stream` as written returns what the corrected one returns, or panics. */
  lemma ReadStreamAsWritten(settings: HttpSettings, st: Source)
    requires settings.Valid()
    ensures var w := ReadStreamSpec(settings, st, true).result;
      w == ReadStreamSpec(settings, st).result || w == Err(Panic(INDEX_OUT_OF_BOUNDS))
  {
    FrameAsWritten(settings, st, [], 0);
  }

  lemma CrlfCrlfIsUtf8()
    ensures Utf8Valid(CRLFCRLF)
  {
    assert Utf8Valid(CRLFCRLF[4..]);
    assert Utf8Valid(CRLFCRLF[3..]);
    assert Utf8Valid(CRLFCRLF[2..]);
    assert Utf8Valid(CRLFCRLF[1..]);
  }

  lemma TerminatorFirstRead()
    ensures ReadOutcome(Source(CRLFCRLF, [Chunk(2)]), 8192) == Ok([CR, LF])
    ensures AfterRead(Source(CRLFCRLF, [Chunk(2)]), 8192) == Source([CR, LF], [])
  {
    var st := Source(CRLFCRLF, [Chunk(2)]);
    assert st.remaining[..2] == [CR, LF];
    assert st.remaining[2..] == [CR, LF];
  }

  lemma TerminatorWindow()
    ensures WindowOf([CR, LF]) == TopUp(0)
  {
    assert WindowFrom([CR, LF], 0) == TopUp(0);
  }

  lemma TerminatorExtra()
    ensures ReadExactOutcome(Source([CR, LF], []), 2) == Ok([CR, LF])
    ensures AfterReadExact(Source([CR, LF], []), 2) == Source([], [])
  {
    var st1 := Source([CR, LF], []);
    assert st1.remaining[..2] == [CR, LF] && st1.remaining[2..] == [];
  }

  lemma TerminatorTopUp()
    ensures ChunkStep([CR, LF], [], Source([CR, LF], [])) == Done(Framed(Ok((CRLFCRLF, [])), Source([], [])))
    ensures ChunkStep([CR, LF], [], Source([CR, LF], []), true)
         == Done(Framed(Err(Panic(INDEX_OUT_OF_BOUNDS)), Source([], [])))
  {
    TerminatorWindow();
    TerminatorExtra();
    assert [CR, LF] + [CR, LF] == CRLFCRLF;
    assert [] + CRLFCRLF == CRLFCRLF;
    assert TailAt(CRLFCRLF, 0);
    TopUpAsWrittenPanics([], [CR, LF], [CR, LF], 0);
  }

  /** The first pass over the stream "\r\n\r\n" whose first read returns two bytes. */
  lemma TerminatorAcrossReadsRound()
    ensures RoundOf(HttpSettings.New(), Source(CRLFCRLF, [Chunk(2)]), [], 0)
         == Stop(Framed(Ok((CRLFCRLF, [])), Source([], [])))
    ensures RoundOf(HttpSettings.New(), Source(CRLFCRLF, [Chunk(2)]), [], 0, true)
         == Stop(Framed(Err(Panic(INDEX_OUT_OF_BOUNDS)), Source([], [])))
  {
    TerminatorFirstRead();
    TerminatorTopUp();
    RoundOfChunk(HttpSettings.New(), Source(CRLFCRLF, [Chunk(2)]), [], 0, [CR, LF], Source([CR, LF], []));
    RoundOfChunk(HttpSettings.New(), Source(CRLFCRLF, [Chunk(2)]), [], 0, [CR, LF], Source([CR, LF], []), true);
  }

  /**
    The smallest input that reaches the top-up: the stream "\r\n\r\n" whose
    first read returns "\r\n". The scan asks for two more bytes; as written
    the call then panics (`TopUpAsWrittenPanics`), while the corrected
    framing returns the whole stream as the header.
  */
  lemma TerminatorAcrossReads()
    ensures WindowOf([CR, LF]) == TopUp(0)
    ensures TopUpAsWritten([], [CR, LF], [CR, LF], 0).Err?
    ensures ReadStreamSpec(HttpSettings.New(), Source(CRLFCRLF, [Chunk(2)])).result == Ok((CRLFCRLF, []))
    ensures ReadStreamSpec(HttpSettings.New(), Source(CRLFCRLF, [Chunk(2)]), true).result
         == Err(Panic(INDEX_OUT_OF_BOUNDS))
  {
    TerminatorWindow();
    TopUpAsWrittenPanics([], [CR, LF], [CR, LF], 0);
    TerminatorAcrossReadsRound();
    CrlfCrlfIsUtf8();
  }
}
