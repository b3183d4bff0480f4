/**
 The streaming HTTP/1.1 response parser of src/aclk/https_client.c as a state machine on values:
 the unread bytes of the receive buffer and the parse context. Both loops of the source are flattened
 into `Step`; `Parse` runs it until the source would return.
 */
module HttpResponse {
  import opened Bytes
  import opened CLib

  const RESP_PROTO: string := "HTTP/1.1 "
  const RESP_PROTO10: string := "HTTP/1.0 "
  const KEYVAL_SEPARATOR: string := ": "
  const HDR_BUFFER_SIZE: nat := 1024
  const RX_BUFFER_SIZE: nat := 16384
  const NO_CONTENT_LENGTH: int := -1
  const TRANSFER_ENCODING_CHUNKED: int := -2

  datatype State = ProxyConnect | Initial | Headers | Content

  datatype ChunkState = ChunkSize | ChunkData | ChunkEndCrlf | FinalCrlf

  /** `Undefined` marks the point where the source leaves the defined behaviour of C or fails an assertion. */
  datatype Rc = Error | NeedMoreData | Success | Undefined

  datatype Context = Context(
    state: State,
    contentLength: int,
    httpCode: int,
    headers: map<string, string>,
    dontWaitForContent: bool,
    chunkState: ChunkState,
    body: string,
    reserved: nat,
    chunkSize: nat,
    chunkGot: nat)
  {
    /** The chunk buffer always has room for exactly the rest of the chunk being read. */
    predicate Valid() {
      && contentLength >= TRANSFER_ENCODING_CHUNKED
      && (if chunkState.ChunkData? then
            chunkGot < chunkSize && reserved == |body| + (chunkSize - chunkGot)
          else
            reserved == |body|)
    }

    predicate Chunked() {
      contentLength == TRANSFER_ENCODING_CHUNKED
    }
  }

  /** `http_parse_ctx_create` on zeroed memory. */
  function Fresh(state: State): (ctx: Context)
    ensures ctx.Valid()
  {
    Context(state, NO_CONTENT_LENGTH, 0, map[], false, ChunkSize, [], 0, 0, 0)
  }

  datatype Config = Config(buf: string, ctx: Context) {
    predicate Valid() {
      ctx.Valid()
    }

    /** The same context with more bytes received. */
    function Plus(more: string): (c: Config)
      ensures c.ctx == ctx
    {
      Config(buf + more, ctx)
    }
  }

  /** What the parser is run with: the ring's capacity, and whether `errno` holds a stale EINVAL. */
  datatype Env = Env(capacity: nat, errnoInvalid: bool)

  datatype Outcome = Continue(next: Config) | Done(rc: Rc, final: Config)

  // ---- status line ------------------------------------------------------------------------------

  /** What the status line yields, and the bytes left behind. */
  datatype Status = NoStatus(rest: string) | BadCode(code: int, rest: string) | Code(code: int, rest: string)

  predicate ProtoAccepted(buf: string, proxy: bool) {
    Agrees(buf, RESP_PROTO) || (proxy && Agrees(buf, RESP_PROTO10))
  }

  function ReadStatus(buf: string, proxy: bool): (s: Status)
    ensures s.Code? ==> |s.rest| < |buf| && 100 <= s.code < 600
  {
    if !ProtoAccepted(buf, proxy) then NoStatus(buf)
    else ReadCode(Skip(buf, |RESP_PROTO|))
  }

  /** The three bytes before the space, as `atoi` reads them. */
  function StatusCode(rc: string): int
    requires |rc| == 4
  {
    Atoi(CString(rc[..3]))
  }

  function ReadCode(buf: string): (s: Status)
    ensures s.Code? ==> |s.rest| < |buf| && 100 <= s.code < 600
  {
    var n := Min(4, |buf|);
    JudgeCode(buf[..n], buf[n..])
  }

  /** The bytes taken for the status code, and the rest of the line behind them. */
  function JudgeCode(rc: string, line: string): (s: Status)
    ensures s.Code? ==> |rc| == 4 && |s.rest| <= |line| && 100 <= s.code < 600
  {
    if |rc| != 4 || rc[3] != ' ' then NoStatus(line)
    else
      var code := StatusCode(rc);
      if code < 100 || code >= 600 then BadCode(code, line)
      else Code(code, Skip(line, Find(line, CRLF) + |CRLF|))
  }

  function StatusLine(c: Config): (o: Outcome) {
    TakeStatus(ReadStatus(c.buf, c.ctx.state.ProxyConnect?), c.ctx)
  }

  function TakeStatus(s: Status, ctx: Context): (o: Outcome)
    ensures o.Done? ==> o.rc == Error
    ensures o.Continue? ==> s.Code? && o.next.buf == s.rest
  {
    match s
    case NoStatus(rest) => Done(Error, Config(rest, ctx))
    case BadCode(code, rest) => Done(Error, Config(rest, ctx.(httpCode := code)))
    case Code(code, rest) => Continue(Config(rest, ctx.(httpCode := code, state := Headers)))
  }

  // ---- header fields ----------------------------------------------------------------------------

  datatype HeaderResult = Rejected(ctx: Context) | Accepted(ctx: Context)

  function ProcessHeader(ctx: Context, key: string, val: string): (r: HeaderResult)
    ensures r.Accepted? && ctx.contentLength >= TRANSFER_ENCODING_CHUNKED
            ==> r.ctx.contentLength >= TRANSFER_ENCODING_CHUNKED
    ensures r.ctx == ctx.(contentLength := r.ctx.contentLength, headers := r.ctx.headers)
  {
    if ctx.contentLength < 0 && key == "content-length" then
      if ctx.contentLength == TRANSFER_ENCODING_CHUNKED then Rejected(ctx)
      else if ctx.contentLength != NO_CONTENT_LENGTH then Rejected(ctx)
      else
        var ctx' := ctx.(contentLength := ToInt32(Str2u(val)));
        if ctx'.contentLength < 0 then Rejected(ctx') else Accepted(ctx')
    else if key == "transfer-encoding" then
      if val == "chunked" then
        if ctx.contentLength != NO_CONTENT_LENGTH then Rejected(ctx)
        else Accepted(ctx.(contentLength := TRANSFER_ENCODING_CHUNKED))
      else Accepted(ctx)
    else
      Accepted(ctx.(headers := ctx.headers[key := val]))
  }

  /** What a header line splits into; `rest` still starts with the line terminator. */
  datatype Field = BadField(rest: string) | Overrun(rest: string) | Field(key: string, val: string, rest: string)

  /**
   The separator search is not limited to the line, which ends at `lineEnd`. Taking an empty name off a full ring
   fails an assertion, or flushes the ring and leaves the value buffer unset.
   */
  function SplitField(buf: string, lineEnd: nat, capacity: nat): (f: Field)
    requires lineEnd <= |buf|
    ensures f.Field? ==> |f.rest| < |buf|
  {
    var sep := Find(buf, KEYVAL_SEPARATOR);
    if sep == |buf| || sep >= HDR_BUFFER_SIZE then BadField(buf)
    else if sep == 0 && |buf| >= capacity then Overrun([])
    else
      var n := lineEnd - |KEYVAL_SEPARATOR| - sep;
      if n >= HDR_BUFFER_SIZE then BadField(buf[sep + 2..])
      else if n < 0 then Overrun(Skip(buf[sep..], |KEYVAL_SEPARATOR|))
      else Field(buf[..sep], buf[sep + 2..lineEnd], buf[lineEnd..])
  }

  function HeaderLine(c: Config, env: Env): (o: Outcome) {
    TakeField(SplitField(c.buf, Find(c.buf, CRLF), env.capacity), c.ctx)
  }

  function TakeField(f: Field, ctx: Context): (o: Outcome)
    ensures o.Done? ==> o.rc == Error || o.rc == Undefined
    ensures o.Continue? ==> f.Field? && |o.next.buf| <= |f.rest| && o.next.ctx.state == ctx.state
    ensures o.Continue? && ctx.Valid() ==> o.next.Valid()
  {
    match f
    case BadField(rest) => Done(Error, Config(rest, ctx))
    case Overrun(rest) => Done(Undefined, Config(rest, ctx))
    case Field(key, val, rest) =>
      var r := ProcessHeader(ctx, LowerCase(CString(key)), CString(val));
      if r.Rejected? then Done(Error, Config(rest, r.ctx))
      else Continue(Config(Skip(rest, Find(rest, CRLF) + |CRLF|), r.ctx))
  }

  // ---- chunked content --------------------------------------------------------------------------

  datatype SizeLine = NoLine | BlankLine | TooLong | Size(size: int, rest: string)

  /** The chunk size line; `rest` still starts with the line terminator. */
  function ReadSize(buf: string): (s: SizeLine)
    ensures s.Size? ==> |s.rest| < |buf|
  {
    var idx := Find(buf, CRLF);
    if idx == |buf| then NoLine
    else if idx == 0 then BlankLine
    else if idx >= HDR_BUFFER_SIZE then TooLong
    else Size(Strtol16(CString(buf[..idx])), buf[idx..])
  }

  function ChunkSizeLine(c: Config, env: Env): (o: Outcome) {
    TakeSize(ReadSize(c.buf), c, env)
  }

  function TakeSize(line: SizeLine, c: Config, env: Env): (o: Outcome)
    ensures o.Continue? ==>
      || (line.Size? && |o.next.buf| <= |line.rest|)
      || (o.next.buf == c.buf && o.next.ctx.chunkState.FinalCrlf?)
    ensures o.Continue? && c.Valid() && c.ctx.chunkState.ChunkSize? ==> o.next.Valid()
  {
    var ctx := c.ctx;
    match line
    case NoLine => Done(if |c.buf| >= env.capacity then Error else NeedMoreData, c)
    case BlankLine => Continue(Config(c.buf, ctx.(chunkState := FinalCrlf)))
    case TooLong => Done(Error, c)
    case Size(size, rest) =>
      if size < 0 || size == LONG_MAX then Done(Error, Config(rest, ctx))
      else if size == 0 then
        if env.errnoInvalid then Done(Error, Config(rest, ctx.(chunkSize := 0)))
        else Continue(Config(rest, ctx.(chunkSize := 0, chunkState := ChunkEndCrlf)))
      else
        Continue(Config(Skip(rest, |CRLF|), ctx.(
          chunkSize := size, chunkGot := 0, reserved := ctx.reserved + size, chunkState := ChunkData)))
  }

  /** The context after `bytes` of the current chunk have been copied. */
  function Copied(ctx: Context, bytes: string): Context {
    var ctx' := ctx.(body := ctx.body + bytes, chunkGot := ctx.chunkGot + |bytes|);
    if ctx'.chunkGot != ctx'.chunkSize then ctx' else ctx'.(chunkState := ChunkEndCrlf)
  }

  function ChunkBytes(c: Config): (o: Outcome)
    requires c.Valid() && c.ctx.chunkState.ChunkData?
  {
    var Config(buf, ctx) := c;
    if buf == [] then Done(NeedMoreData, c)
    else
      var n := Min(|buf|, ctx.chunkSize - ctx.chunkGot);
      Continue(Config(buf[n..], Copied(ctx, buf[..n])))
  }

  function ChunkCrlf(c: Config): (o: Outcome)
  {
    var Config(buf, ctx) := c;
    if |buf| < |CRLF| then Done(NeedMoreData, c)
    else if buf[..2] != CRLF then Done(Error, Config(buf[2..], ctx))
    else if ctx.chunkState.FinalCrlf? then
      Done(Success, Config(buf[2..], ctx.(reserved := ctx.reserved + 1)))
    else if ctx.chunkSize == 0 then Continue(Config(buf[2..], ctx.(chunkState := FinalCrlf)))
    else Continue(Config(buf[2..], ctx.(chunkState := ChunkSize)))
  }

  // ---- one loop iteration and the whole run -----------------------------------------------------

  function Step(c: Config, env: Env): (o: Outcome)
    requires c.Valid()
    ensures o.Continue? ==> o.next.Valid()
    ensures o.Done? && o.rc == NeedMoreData ==> o.final == c
  {
    var Config(buf, ctx) := c;
    if !ctx.state.Content? && Find(buf, CRLF) == |buf| then Done(NeedMoreData, c)
    else
      match ctx.state
      case ProxyConnect => StatusLine(c)
      case Initial => StatusLine(c)
      case Headers =>
        if Find(buf, CRLF) == 0 then Continue(Config(Skip(buf, |CRLF|), ctx.(state := Content)))
        else HeaderLine(c, env)
      case Content =>
        if ctx.Chunked() then
          match ctx.chunkState
          case ChunkSize => ChunkSizeLine(c, env)
          case ChunkData => ChunkBytes(c)
          case ChunkEndCrlf => ChunkCrlf(c)
          case FinalCrlf => ChunkCrlf(c)
        else if ctx.contentLength < 0 || ctx.dontWaitForContent || |buf| >= ctx.contentLength then
          Done(Success, c)
        else
          Done(NeedMoreData, c)
  }

  /** How far the context has come; a step that reads nothing moves it forward. */
  function Rank(ctx: Context): nat {
    match ctx.state
    case ProxyConnect => 0
    case Initial => 0
    case Headers => 1
    case Content => if ctx.chunkState.ChunkSize? then 2 else 3
  }

  /** Both parse loops terminate: every iteration reads bytes or moves the state forward. */
  lemma StepProgress(c: Config, env: Env)
    requires c.Valid() && Step(c, env).Continue?
    ensures var d := Step(c, env).next;
      |d.buf| < |c.buf| || (d.buf == c.buf && Rank(d.ctx) > Rank(c.ctx))
  {
    match c.ctx.state
    case ProxyConnect =>
    case Initial =>
    case Headers =>
    case Content => match c.ctx.chunkState case ChunkSize => case _ =>
  }

  /** Runs the loop to the point where the source returns. */
  function Parse(c: Config, env: Env): (r: (Rc, Config))
    requires c.Valid()
    ensures r.0 == NeedMoreData ==> r.1.Valid() && Step(r.1, env) == Done(NeedMoreData, r.1)
    decreases |c.buf|, 3 - Rank(c.ctx)
  {
    match Step(c, env)
    case Done(rc, final) => (rc, final)
    case Continue(next) =>
      StepProgress(c, env);
      Parse(next, env)
  }

  /** A decoded body fills its buffer to the byte, with the terminator behind it: sizes never mismatch at the end. */
  lemma {:induction false} BufferExact(c: Config, env: Env)
    requires c.Valid() && Parse(c, env).0 == Success && Parse(c, env).1.ctx.Chunked()
    ensures var ctx := Parse(c, env).1.ctx; ctx.chunkState.FinalCrlf? && ctx.reserved == |ctx.body| + 1
    decreases |c.buf|, 3 - Rank(c.ctx)
  {
    match Step(c, env) {
      case Done(_, _) =>
      case Continue(next) =>
        StepProgress(c, env);
        BufferExact(next, env);
    }
  }

  // ---- where the source leaves the defined behaviour ---------------------------------------------

  /**
   The header line at hand makes a length negative, because the first separator within reach of the name buffer
   lies behind the end of the line, or has an empty name on a full ring.
   */
  predicate Faulty(c: Config, env: Env) {
    var lineEnd, sep := Find(c.buf, CRLF), Find(c.buf, KEYVAL_SEPARATOR);
    && c.ctx.state.Headers? && 0 < lineEnd < |c.buf|
    && sep < |c.buf| && sep < HDR_BUFFER_SIZE
    && (lineEnd < sep + |KEYVAL_SEPARATOR| || (sep == 0 && |c.buf| >= env.capacity))
  }

  lemma StepFaultsExactly(c: Config, env: Env)
    requires c.Valid()
    ensures Step(c, env).Done? && Step(c, env).rc == Undefined <==> Faulty(c, env)
  {
    if c.ctx.state.Headers? && 0 < Find(c.buf, CRLF) < |c.buf| {
      assert Step(c, env) == HeaderLine(c, env);
    }
  }

  /** Some header line that the call on `c` comes to is faulty. */
  predicate MeetsFault(c: Config, env: Env)
    requires c.Valid()
    decreases |c.buf|, 3 - Rank(c.ctx)
  {
    || Faulty(c, env)
    || match Step(c, env)
       case Done(_, _) => false
       case Continue(next) => StepProgress(c, env); MeetsFault(next, env)
  }

  /** A call leaves the defined behaviour if and only if it comes to a faulty header line. */
  lemma {:induction false} UndefinedExactly(c: Config, env: Env)
    requires c.Valid()
    ensures Parse(c, env).0 == Undefined <==> MeetsFault(c, env)
    decreases |c.buf|, 3 - Rank(c.ctx)
  {
    StepFaultsExactly(c, env);
    if Step(c, env).Continue? {
      StepProgress(c, env);
      UndefinedExactly(Step(c, env).next, env);
    }
  }
}
