/** The main results on cut responses: which cuts deliver a response and what the others do to it. */
module HttpTears {
  import opened Bytes
  import opened CLib
  import opened HttpResponse
  import opened HttpResume
  import opened HttpMessages
  import opened HttpHead
  import opened HttpCuts

  /** A response that the parser accepts when it comes in one piece. */
  predicate Acceptable(r: Response, state: State, env: Env) {
    && ValidResponse(r, state, env) && Framed(r)
    && (r.body.ChunkedBody? ==> env.capacity >= MIN_CAPACITY)
  }

  lemma SentLayout(r: Response, rest: string)
    ensures Sent(r, rest) == EncodeStatus(r.status) + (FieldLines(r.fields) + (CRLF + (EncodeBody(r.body) + rest)))
  {
    var y := EncodeBody(r.body) + rest;
    Associates(EncodeStatus(r.status), EncodeFields(r.fields), y);
    Associates(FieldLines(r.fields), CRLF, y);
  }

  lemma StatusWithoutCr(s: StatusText, state: State)
    requires ValidStatus(s, state) && CR !in s.reason
    ensures CR !in StatusLineText(s) && EncodeStatus(s) == StatusLineText(s) + CRLF
  {
    if !ThreeDigits(s.digits) {
      StatusDigits(s.digits, CString(s.digits));
    }
    assert CR !in s.proto && CR !in s.digits;
  }

  lemma StatusParses(s: StatusText, state: State, t: string, env: Env)
    requires (state.Initial? || state.ProxyConnect?) && ValidStatus(s, state)
    ensures Parse(Config(EncodeStatus(s) + t, Fresh(state)), env)
         == Parse(Config(t, Fresh(Headers).(httpCode := Atoi(CString(s.digits)))), env)
  {
    StatusStep(Config(EncodeStatus(s) + t, Fresh(state)), s, t, env);
  }

  // ---- cuts that do no harm ---------------------------------------------------------------------------

  /** A cut that tears no line is seamless, whatever part of the response follows next. */
  lemma UntornSeamless(r: Response, state: State, rest: string, a: string, b: string, env: Env)
    requires Acceptable(r, state, env) && NoBareCr(r) && a + b <= Sent(r, rest) && !Tears(r, a)
    ensures Seamless(Fresh(state), a, b, env)
  {
    var line := EncodeStatus(r.status);
    var more := FieldLines(r.fields) + (CRLF + (EncodeBody(r.body) + rest));
    SentLayout(r, rest);
    StatusWithoutCr(r.status, state);
    CutInPieces(a, b, line, more);
    if |a| < |line| {
      InsideHeaderLine(Fresh(state), StatusLineText(r.status), a, b, env);
    } else {
      var t := a[|line|..];
      StatusParses(r.status, state, t, env);
      StatusParses(r.status, state, t + b, env);
      BlockSeamless(StartContext(r), r.fields, r.body, rest, t, b, env);
      SeamlessBehind(Fresh(state), line, StartContext(r), t, b, env);
    }
  }

  // ---- feeding fragments ---------------------------------------------------------------------------------

  /** Every cut between the fragments behind `first` is seamless, as far as the bytes `all` go. */
  ghost predicate SeamlessCuts(ctx: Context, all: string, first: string, fragments: seq<string>, env: Env)
    requires ctx.Valid()
  {
    forall i, b | 0 <= i < |fragments| && first + Concat(fragments[..i]) + b <= all ::
      Seamless(ctx, first + Concat(fragments[..i]), b, env)
  }

  lemma ConcatNext(first: string, fragments: seq<string>, i: nat)
    requires fragments != [] && i < |fragments|
    ensures first + fragments[0] + Concat(fragments[1..][..i]) == first + Concat(fragments[..i + 1])
  {
    assert fragments[..i + 1][1..] == fragments[1..][..i];
    Associates(first, fragments[0], Concat(fragments[1..][..i]));
  }

  lemma NoFragmentYet(first: string, fragments: seq<string>)
    ensures first + Concat(fragments[..0]) == first
  {
    assert fragments[..0] == [] && first + [] == first;
  }

  lemma NextCuts(ctx: Context, all: string, first: string, fragments: seq<string>, env: Env)
    requires ctx.Valid() && fragments != [] && SeamlessCuts(ctx, all, first, fragments, env)
    ensures SeamlessCuts(ctx, all, first + fragments[0], fragments[1..], env)
  {
    forall i, b | 0 <= i < |fragments[1..]| && first + fragments[0] + Concat(fragments[1..][..i]) + b <= all
      ensures Seamless(ctx, first + fragments[0] + Concat(fragments[1..][..i]), b, env)
    {
      ConcatNext(first, fragments, i);
      assert Seamless(ctx, first + Concat(fragments[..i + 1]), b, env);
    }
  }

  /** Feeding fragments with seamless cuts is one call on all of them. */
  lemma {:induction false} FeedSeamless(ctx: Context, all: string, first: string, c: Config, fragments: seq<string>, env: Env)
    requires ctx.Valid() && c.Valid() && SeamlessCuts(ctx, all, first, fragments, env)
    requires first + Concat(fragments) == all && Parse(c, env) == Parse(Config(first, ctx), env)
    ensures Feed(c, fragments, env) == Parse(Config(all, ctx), env)
    decreases |fragments|
  {
    if fragments == [] {
      assert first + [] == first;
    } else {
      NoFragmentYet(first, fragments);
      var out := Parse(c, env);
      if out.0 != NeedMoreData {
        assert Seamless(ctx, first + Concat(fragments[..0]), Concat(fragments), env);
      } else {
        Associates(first, fragments[0], Concat(fragments[1..]));
        assert first + Concat(fragments[..0]) + fragments[0] <= all;
        assert Seamless(ctx, first + Concat(fragments[..0]), fragments[0], env);
        NextCuts(ctx, all, first, fragments, env);
        FeedSeamless(ctx, all, first + fragments[0], out.1.Plus(fragments[0]), fragments[1..], env);
      }
    }
  }

  /** No boundary between the fragments behind `first` tears a line. */
  predicate UntornCuts(r: Response, first: string, fragments: seq<string>) {
    forall i | 0 <= i < |fragments| :: !Tears(r, first + Concat(fragments[..i]))
  }

  lemma UntornFeed(r: Response, state: State, rest: string, fragments: seq<string>, env: Env)
    requires Acceptable(r, state, env) && NoBareCr(r)
    requires Concat(fragments) <= Sent(r, rest) && UntornCuts(r, [], fragments)
    ensures Feed(Config([], Fresh(state)), fragments, env) == Parse(Config(Concat(fragments), Fresh(state)), env)
  {
    var all := Concat(fragments);
    assert [] + all == all;
    forall i, b | 0 <= i < |fragments| && [] + Concat(fragments[..i]) + b <= all
      ensures Seamless(Fresh(state), [] + Concat(fragments[..i]), b, env)
    {
      UntornSeamless(r, state, rest, [] + Concat(fragments[..i]), b, env);
    }
    FeedSeamless(Fresh(state), all, [], Config([], Fresh(state)), fragments, env);
  }

  // ---- torn lines --------------------------------------------------------------------------------------

  lemma TornText(text: string)
    requires CR !in text
    ensures Torn(text + [CR], CRLF) && Find(text + [CR], CRLF) == |text|
  {
    FoundAfter(text, [CR]);
  }

  /** A header line torn apart ends the headers, if it is not refused. */
  lemma TornHeaders(d: Config, env: Env) returns (ctx: Context)
    requires d.Valid() && d.ctx.state.Headers? && Torn(d.buf, CRLF)
    ensures Parse(d, env).0 == Error || Parse(d, env).0 == Undefined
      || (&& ctx == d.ctx.(state := Content, contentLength := ctx.contentLength, headers := ctx.headers)
          && (Find(d.buf, CRLF) == 0 ==> ctx == d.ctx.(state := Content))
          && ctx.Valid() && Parse(d, env) == Parse(Config("\r", ctx), env))
  {
    ctx := d.ctx;
    TornIsTrailingCr(d.buf);
    FoundAtOnce("\r");
    if Find(d.buf, CRLF) == 0 {
      assert d.buf == "\r";
      ctx := d.ctx.(state := Content);
      assert Step(d, env) == Continue(Config("\r", ctx));
    } else {
      var o := HeaderLine(d, env);
      assert Step(d, env) == o;
      if o.Continue? {
        TornHeader(d, env);
        ctx := o.next.ctx.(state := Content);
        assert Step(o.next, env) == Continue(Config("\r", ctx));
      }
    }
  }

  /** The CR that opened the content: it ends a chunked body at once, and other content keeps its context. */
  lemma StrayCr(ctx: Context, y: string, env: Env)
    requires ctx.Valid() && ctx.state.Content? && ctx.chunkState.ChunkSize?
    ensures var out := Resume(Parse(Config("\r", ctx), env), "\n" + y, env);
      if ctx.Chunked() then out == (Success, Config(y, ctx.(reserved := ctx.reserved + 1, chunkState := FinalCrlf)))
      else out.1.ctx == ctx
  {
    if ctx.Chunked() {
      BlankOpensFinal(ctx, "\r", env);
      var d := Config("\r", ctx.(chunkState := FinalCrlf));
      assert Parse(d, env) == (NeedMoreData, d);
      assert "\r" + ("\n" + y) == CRLF + y;
      CrlfStep(d.Plus("\n" + y), y, env);
    } else {
      PlainContent(Config("\r", ctx), env);
      PlainContent(Config("\r", ctx).Plus("\n" + y), env);
    }
  }

  lemma {:induction false} EncodeNonEmpty(chunks: seq<Chunk>, end: Ending)
    ensures |Encode(chunks, end)| > 0
  {
  }

  /** A call that stopped in a torn header line; `y`, of `n` bytes or more, follows the LF of that line. */
  predicate TornHead(d: Config, y: string, out: (Rc, Config), b: string, n: nat, env: Env) {
    && InHeaders(d.ctx) && Torn(d.buf, CRLF)
    && out == Parse(d, env) && b == "\n" + y && |y| >= n
  }

  /** A call that took the torn terminator of a size line for data; `more` follows the chunk. */
  predicate TornSize(ctx: Context, data: string, more: string, out: (Rc, Config), b: string, rest: string, env: Env) {
    && AtChunkSize(ctx) && data != [] && DuringChunk(ctx, |data|).Valid()
    && out == Parse(Config([CR], DuringChunk(ctx, |data|)), env)
    && [CR] + b == CRLF + data + CRLF + more && |more| > |rest|
  }

  ghost predicate TornForm(out: (Rc, Config), b: string, body: Body, rest: string, env: Env) {
    || (exists d, y :: TornHead(d, y, out, b, |EncodeBody(body) + rest|, env))
    || (body.ChunkedBody? && exists ctx, data, more :: TornSize(ctx, data, more, out, b, rest, env))
  }

  /** A size line torn apart: the line terminator is taken for data. */
  lemma TornSizeReads(ctx: Context, chunk: Chunk, env: Env)
    requires AtChunkSize(ctx) && SizeText(chunk.line, |chunk.data|) && chunk.data != [] && CR !in chunk.line
    ensures DuringChunk(ctx, |chunk.data|).Valid()
    ensures Parse(Config(chunk.line + [CR], ctx), env) == Parse(Config([CR], DuringChunk(ctx, |chunk.data|)), env)
  {
    var n := |chunk.data|;
    FoundAfter(chunk.line, [CR]);
    assert ReadSize(chunk.line + [CR]) == Size(n, [CR]);
    assert Step(Config(chunk.line + [CR], ctx), env) == Continue(Config([CR], DuringChunk(ctx, n)));
  }

  lemma TornBytes(chunk: Chunk, more: string, b: string)
    requires chunk.line + [CR] + b == EncodeChunk(chunk) + more
    ensures [CR] + b == CRLF + chunk.data + CRLF + more
  {
    var x := chunk.line + [CR] + b;
    assert x[|chunk.line|..] == [CR] + b;
    assert (EncodeChunk(chunk) + more)[|chunk.line|..] == CRLF + chunk.data + CRLF + more;
  }

  lemma {:induction false} TornBody(ctx: Context, chunks: seq<Chunk>, end: Ending, rest: string, a: string, b: string, env: Env)
    requires AtChunkSize(ctx) && ValidChunks(chunks) && PlainChunks(chunks, end)
    requires a + b == Encode(chunks, end) + rest && TearsSize(chunks, a)
    ensures exists cx, data, more :: TornSize(cx, data, more, Parse(Config(a, ctx), env), b, rest, env)
    decreases |chunks|
  {
    var chunk := chunks[0];
    var all, next := EncodeChunk(chunk), Encode(chunks[1..], end);
    var more := next + rest;
    Associates(all, next, rest);
    if a == chunk.line + [CR] {
      TornBytes(chunk, more, b);
      TornSizeReads(ctx, chunk, env);
      EncodeNonEmpty(chunks[1..], end);
      assert TornSize(ctx, chunk.data, more, Parse(Config(a, ctx), env), b, rest, env);
    } else {
      CutInPieces(a, b, all, more);
      var t := a[|all|..];
      SameTail(all, t, b, more);
      OneChunk(ctx, chunk, t, env);
      TornBody(AfterChunk(ctx, chunk.data), chunks[1..], end, rest, t, b, env);
    }
  }

  lemma FirstIsLf(text: string, b: string, more: string)
    requires text + [CR] + b == text + CRLF + more
    ensures b == "\n" + more
  {
    assert (text + [CR] + b)[|text| + 1..] == b;
    assert (text + CRLF + more)[|text| + 1..] == "\n" + more;
  }

  lemma TornLine(ctx: Context, text: string, more: string, b: string, body: Body, rest: string, env: Env)
    requires InHeaders(ctx) && CR !in text
    requires text + [CR] + b == text + CRLF + more && |more| >= |EncodeBody(body) + rest|
    ensures TornForm(Parse(Config(text + [CR], ctx), env), b, body, rest, env)
  {
    FirstIsLf(text, b, more);
    TornText(text);
    var d := Config(text + [CR], ctx);
    assert TornHead(d, more, Parse(d, env), b, |EncodeBody(body) + rest|, env);
  }

  lemma {:induction false} TornBlock(
    ctx: Context, fields: seq<HeaderField>, body: Body, rest: string, a: string, b: string, env: Env)
    requires InHeaders(ctx) && ValidFields(fields) && PlainFields(fields)
    requires ProcessAll(ctx, fields).Accepted? && Cuttable(ProcessAll(ctx, fields).ctx, body, env)
    requires a + b == FieldLines(fields) + (CRLF + (EncodeBody(body) + rest)) && TearsBlock(fields, body, a)
    ensures TornForm(Parse(Config(a, ctx), env), b, body, rest, env)
    decreases |fields|
  {
    var content := CRLF + (EncodeBody(body) + rest);
    if fields == [] {
      assert FieldLines(fields) + content == content;
      TornBlankOrBody(ctx, body, rest, a, b, env);
    } else {
      var f := fields[0];
      var line, more := FieldText(f) + CRLF, FieldLines(fields[1..]) + content;
      Associates(line, FieldLines(fields[1..]), content);
      if a == FieldText(f) + [CR] {
        TornLine(ctx, FieldText(f), more, b, body, rest, env);
      } else {
        CutInPieces(a, b, line, more);
        var t := a[|line|..];
        OneField(ctx, f, t, env);
        SameTail(line, t, b, more);
        TornBlock(ProcessField(ctx, f).ctx, fields[1..], body, rest, t, b, env);
      }
    }
  }

  lemma SameTail(line: string, t: string, b: string, more: string)
    requires line + t + b == line + more
    ensures t + b == more
  {
    assert (line + t + b)[|line|..] == t + b;
    assert (line + more)[|line|..] == more;
  }

  lemma TornBlankOrBody(ctx: Context, body: Body, rest: string, a: string, b: string, env: Env)
    requires InHeaders(ctx) && Cuttable(ctx, body, env)
    requires a + b == CRLF + (EncodeBody(body) + rest) && TearsBlock([], body, a)
    ensures TornForm(Parse(Config(a, ctx), env), b, body, rest, env)
  {
    var content := EncodeBody(body) + rest;
    if a == [CR] {
      assert [] + [CR] + b == [CR] + b && [] + CRLF + content == CRLF + content && [] + [CR] == [CR];
      TornLine(ctx, [], content, b, body, rest, env);
    } else {
      CutInPieces(a, b, CRLF, content);
      var t := a[2..];
      SameTail(CRLF, t, b, content);
      BlankLineParses(ctx, t, env);
      TornBody(ctx.(state := Content), body.chunks, body.end, rest, t, b, env);
    }
  }

  /** A status line torn apart leaves the reason as a header line, torn apart in the same way. */
  lemma TornStatusReads(s: StatusText, state: State, env: Env)
    requires (state.Initial? || state.ProxyConnect?) && ValidStatus(s, state) && CR !in s.reason
    ensures Parse(Config(StatusLineText(s) + [CR], Fresh(state)), env)
         == Parse(Config(s.reason + [CR], Fresh(Headers).(httpCode := Atoi(CString(s.digits)))), env)
  {
    var a, line := StatusLineText(s) + [CR], s.reason + [CR];
    StatusWithoutCr(s, state);
    TornText(StatusLineText(s));
    TornText(s.reason);
    TornStatusLayout(s);
    ProtoLayout(s.proto, s.digits + " " + line);
    CodeLayout(s.digits, line);
    assert ReadCode(s.digits + " " + line) == JudgeCode((s.digits + " " + line)[..4], line);
    assert ReadStatus(a, state.ProxyConnect?) == Code(Atoi(CString(s.digits)), line);
  }

  lemma TornStatusLayout(s: StatusText)
    ensures StatusLineText(s) + [CR] == s.proto + (s.digits + " " + (s.reason + [CR]))
  {
  }

  lemma TornReason(reason: string, more: string, b: string)
    requires b == "\n" + more
    ensures reason + [CR] + b == reason + CRLF + more
  {
  }

  /** Every torn response has come to one of the two forms. */
  lemma TornResponse(r: Response, state: State, rest: string, a: string, b: string, env: Env)
    requires Acceptable(r, state, env) && NoBareCr(r) && a + b == Sent(r, rest) && Tears(r, a)
    ensures TornForm(Parse(Config(a, Fresh(state)), env), b, r.body, rest, env)
  {
    var line := EncodeStatus(r.status);
    var more := FieldLines(r.fields) + (CRLF + (EncodeBody(r.body) + rest));
    SentLayout(r, rest);
    StatusWithoutCr(r.status, state);
    if a == StatusLineText(r.status) + [CR] {
      FirstIsLf(StatusLineText(r.status), b, more);
      TornStatusReads(r.status, state, env);
      TornReason(r.status.reason, more, b);
      TornLine(StartContext(r), r.status.reason, more, b, r.body, rest, env);
    } else {
      CutInPieces(a, b, line, more);
      var t := a[|line|..];
      SameTail(line, t, b, more);
      StatusParses(r.status, state, t, env);
      TornBlock(StartContext(r), r.fields, r.body, rest, t, b, env);
    }
  }

  // ---- what becomes of a torn response -----------------------------------------------------------------

  /** Content that is not chunked stays in the buffer and never changes the context. */
  lemma {:induction false} PlainFeed(c: Config, fragments: seq<string>, env: Env)
    requires c.Valid() && c.ctx.state.Content? && !c.ctx.Chunked()
    ensures Feed(c, fragments, env).1 == c.Plus(Concat(fragments))
    decreases |fragments|
  {
    PlainContent(c, env);
    if fragments == [] {
      assert c.buf + [] == c.buf;
    } else if Parse(c, env).0 == NeedMoreData {
      PlainFeed(c.Plus(fragments[0]), fragments[1..], env);
      PlusTwice(c, fragments[0], Concat(fragments[1..]));
    }
  }

  /** Feeding depends on the first call only through its result. */
  lemma SameFeed(c: Config, d: Config, fragments: seq<string>, env: Env)
    requires c.Valid() && d.Valid() && Parse(c, env) == Parse(d, env)
    ensures Feed(c, fragments, env) == Feed(d, fragments, env)
  {
  }

  lemma FinalFeed(ctx: Context, fragments: seq<string>, y: string, env: Env)
    requires ctx.Valid() && ctx.state.Content? && ctx.Chunked() && ctx.chunkState.FinalCrlf?
    requires Concat(fragments) == "\n" + y
    ensures Feed(Config([CR], ctx), fragments, env) == (Success, Config(y, ctx.(reserved := ctx.reserved + 1)))
  {
    var all := CRLF + y;
    assert [CR] + ("\n" + y) == all;
    forall i, b | 0 <= i < |fragments| && [CR] + Concat(fragments[..i]) + b <= all
      ensures Seamless(ctx, [CR] + Concat(fragments[..i]), b, env)
    {
      FinalSeamless(ctx, [CR] + Concat(fragments[..i]), b, env);
    }
    FeedSeamless(ctx, all, [CR], Config([CR], ctx), fragments, env);
    CrlfStep(Config(all, ctx), y, env);
  }

  lemma TornHeadLost(d: Config, y: string, c: Config, fragments: seq<string>, r: Response, rest: string, env: Env)
    requires c.Valid() && TornHead(d, y, Parse(c, env), Concat(fragments), |EncodeBody(r.body) + rest|, env) && Framed(r)
    ensures !Delivered(r, rest, Feed(c, fragments, env))
  {
    SameFeed(c, d, fragments, env);
    var ctx := TornHeaders(d, env);
    if Parse(d, env).0 != Error && Parse(d, env).0 != Undefined {
      SameFeed(d, Config([CR], ctx), fragments, env);
      if ctx.Chunked() {
        BlankOpensFinal(ctx, [CR], env);
        SameFeed(Config([CR], ctx), Config([CR], ctx.(chunkState := FinalCrlf)), fragments, env);
        FinalFeed(ctx.(chunkState := FinalCrlf), fragments, y, env);
        if r.body.ChunkedBody? {
          EncodeNonEmpty(r.body.chunks, r.body.end);
        }
      } else {
        PlainFeed(Config([CR], ctx), fragments, env);
      }
    }
  }

  /** Cuts behind a torn size line change nothing any more. */
  lemma TornSizeSeamless(ctx: Context, data: string, more: string, a: string, b: string, env: Env)
    requires AtChunkSize(ctx) && data != [] && DuringChunk(ctx, |data|).Valid() && env.capacity >= MIN_CAPACITY
    requires a + b <= CRLF + data + CRLF + more
    ensures Seamless(DuringChunk(ctx, |data|), a, b, env)
  {
    var n, during := |data|, DuringChunk(ctx, |data|);
    if |a| < n + 2 {
      DataSeamless(ctx, n, a, b, env);
    } else {
      var taken, t := a[..n], a[n..];
      assert a == taken + t;
      Associates(taken, t, b);
      DataStep(ctx, taken, t, env);
      DataStep(ctx, taken, t + b, env);
      var after := AfterChunk(ctx, taken).(chunkState := ChunkEndCrlf);
      if t[..2] == CRLF {
        ShiftedData(data, more, a + b);
        var u := t[2..];
        assert t == CRLF + u && (a + b)[n + 2..] == u + b;
        CrlfStep(Config(t, after), u, env);
        Associates(CRLF, u, b);
        CrlfStep(Config(t + b, after), u + b, env);
        EndingSeamless(AfterChunk(ctx, taken), EmptyLine, more, u, b, env);
        SeamlessBehind(after, CRLF, AfterChunk(ctx, taken), u, b, env);
      } else {
        assert (t + b)[..2] == t[..2] && (t + b)[2..] == t[2..] + b;
      }
      SeamlessBehind(during, taken, after, t, b, env);
    }
  }

  /** Data shifted by a line terminator that still end in one: an empty line comes next. */
  lemma ShiftedData(data: string, more: string, s: string)
    requires data != [] && s <= CRLF + data + CRLF + more && |s| >= |data| + 2 && s[|data|] == CR
    ensures s[|data| + 2..] <= CRLF + more
  {
    var n, all := |data|, CRLF + data + CRLF + more;
    assert s[n] == all[n];
    assert n > 1;
    assert all[n + 2..] == CRLF + more;
    assert s[n + 2..] == all[n + 2..|s|];
  }

  /** Should a torn size line come to a success all the same, everything behind the chunk is left unread. */
  lemma TornSizeLeaves(ctx: Context, data: string, more: string, env: Env)
    requires AtChunkSize(ctx) && data != [] && DuringChunk(ctx, |data|).Valid()
    ensures var out := Parse(Config(CRLF + data + CRLF + more, DuringChunk(ctx, |data|)), env);
      out.0 == Success ==> out.1.buf == more
  {
    var n, buf := |data|, CRLF + data + CRLF + more;
    var d := Config(buf, DuringChunk(ctx, n));
    if Parse(d, env).0 == Success {
      DataThenCrlf(d, ctx, n, env);
      assert buf[n..][..2][0] == buf[n];
      ShiftedWhole(data, more);
      DataDecodes(ctx, buf[..n], CRLF + more, env);
      EmptyLineDecodes(AfterChunk(ctx, buf[..n]), more, env);
    }
  }

  lemma ShiftedWhole(data: string, more: string)
    requires data != []
    requires var buf := CRLF + data + CRLF + more; buf[|data|..][..2] == CRLF
    ensures var buf := CRLF + data + CRLF + more; buf == buf[..|data|] + (CRLF + (CRLF + more))
  {
    var n, buf := |data|, CRLF + data + CRLF + more;
    assert buf[n..][..2][0] == buf[n];
    assert n > 1;
    assert buf[n + 2..] == CRLF + more;
    assert buf[n..] == buf[n..][..2] + buf[n + 2..];
  }

  lemma TornSizeLost(ctx: Context, data: string, more: string, c: Config, fragments: seq<string>, rest: string, env: Env)
    requires c.Valid() && TornSize(ctx, data, more, Parse(c, env), Concat(fragments), rest, env)
    requires env.capacity >= MIN_CAPACITY
    ensures var out := Feed(c, fragments, env); !(out.0 == Success && out.1.buf == rest)
  {
    var all, during := CRLF + data + CRLF + more, DuringChunk(ctx, |data|);
    forall i, b | 0 <= i < |fragments| && [CR] + Concat(fragments[..i]) + b <= all
      ensures Seamless(during, [CR] + Concat(fragments[..i]), b, env)
    {
      TornSizeSeamless(ctx, data, more, [CR] + Concat(fragments[..i]), b, env);
    }
    FeedSeamless(during, all, [CR], c, fragments, env);
    TornSizeLeaves(ctx, data, more, env);
  }

  /** A response that has been torn is not delivered, however the other fragments are cut. */
  lemma TornFeedLost(r: Response, state: State, rest: string, a: string, c: Config, fragments: seq<string>, env: Env)
    requires Acceptable(r, state, env) && NoBareCr(r) && a + Concat(fragments) == Sent(r, rest) && Tears(r, a)
    requires c.Valid() && Parse(c, env) == Parse(Config(a, Fresh(state)), env)
    ensures !Delivered(r, rest, Feed(c, fragments, env))
  {
    var out, b := Parse(c, env), Concat(fragments);
    TornResponse(r, state, rest, a, b, env);
    if d, y :| TornHead(d, y, out, b, |EncodeBody(r.body) + rest|, env) {
      TornHeadLost(d, y, c, fragments, r, rest, env);
    } else {
      var ctx, data, more :| TornSize(ctx, data, more, out, b, rest, env);
      TornSizeLost(ctx, data, more, c, fragments, rest, env);
    }
  }

  // ---- the main results --------------------------------------------------------------------------------

  lemma OneFragment(c: Config, b: string, env: Env)
    requires c.Valid()
    ensures Feed(c, [b], env) == Resume(Parse(c, env), b, env)
  {
    assert [b][1..] == [];
    assert Concat([b]) == b + Concat([b][1..]) == b;
    var r := Parse(c, env);
    if r.0 == NeedMoreData {
      assert Feed(c, [b], env) == Feed(r.1.Plus(b), [], env);
    }
  }

  lemma TwoFragments(state: State, a: string, b: string, env: Env)
    requires !state.Content?
    ensures Feed(Config([], Fresh(state)), [a, b], env) == Resume(Parse(Config(a, Fresh(state)), env), b, env)
  {
    var c := Config([], Fresh(state));
    NoCrNoLine([]);
    assert Parse(c, env) == (NeedMoreData, c);
    assert c.Plus(a) == Config(a, Fresh(state));
    assert [a, b][0] == a && [a, b][1..] == [b];
    assert Feed(c, [a, b], env) == Feed(c.Plus(a), [b], env);
    OneFragment(c.Plus(a), b, env);
  }

  lemma {:induction false} ConcatSplit(fragments: seq<string>, i: nat)
    requires i <= |fragments|
    ensures Concat(fragments) == Concat(fragments[..i]) + Concat(fragments[i..])
  {
    if i == 0 {
      assert fragments[..0] == [] && fragments[0..] == fragments;
    } else {
      ConcatSplit(fragments[1..], i - 1);
      assert fragments[1..][..i - 1] == fragments[..i][1..] && fragments[1..][i - 1..] == fragments[i..];
      Associates(fragments[0], Concat(fragments[1..][..i - 1]), Concat(fragments[i..]));
    }
  }

  /** A call that has answered before a torn cut: the torn response shows that it cannot have been delivered. */
  lemma AnsweredEarly(r: Response, state: State, rest: string, first: string, c: Config, fragments: seq<string>, i: nat, env: Env)
    requires Acceptable(r, state, env) && NoBareCr(r) && first + Concat(fragments) == Sent(r, rest) && !Tears(r, first)
    requires c.Valid() && Parse(c, env) == Parse(Config(first, Fresh(state)), env) && Parse(c, env).0 != NeedMoreData
    requires i < |fragments| && Tears(r, first + Concat(fragments[..i]))
    ensures !Delivered(r, rest, Feed(c, fragments, env))
  {
    var out, x, y := Parse(c, env), Concat(fragments[..i]), Concat(fragments[i..]);
    ConcatSplit(fragments, i);
    Associates(first, x, y);
    UntornSeamless(r, state, rest, first, x, env);
    TornFeedLost(r, state, rest, first + x, Config(first + x, Fresh(state)), fragments[i..], env);
    Associates(out.1.buf, x, y);
  }

  /** A torn cut behind the first fragment is one of the others. */
  lemma TearsLater(r: Response, first: string, fragments: seq<string>, i: nat)
    requires 0 < i < |fragments| && Tears(r, first + Concat(fragments[..i]))
    ensures !UntornCuts(r, first + fragments[0], fragments[1..])
  {
    ConcatNext(first, fragments, i - 1);
    assert Tears(r, first + fragments[0] + Concat(fragments[1..][..i - 1]));
  }

  lemma {:induction false} SomeCutTears(r: Response, state: State, rest: string, first: string, c: Config, fragments: seq<string>, env: Env)
    requires Acceptable(r, state, env) && NoBareCr(r) && first + Concat(fragments) == Sent(r, rest)
    requires c.Valid() && Parse(c, env) == Parse(Config(first, Fresh(state)), env)
    requires !UntornCuts(r, first, fragments)
    ensures !Delivered(r, rest, Feed(c, fragments, env))
    decreases |fragments|
  {
    var i :| 0 <= i < |fragments| && Tears(r, first + Concat(fragments[..i]));
    NoFragmentYet(first, fragments);
    var out := Parse(c, env);
    if Tears(r, first) {
      TornFeedLost(r, state, rest, first, c, fragments, env);
    } else if out.0 != NeedMoreData {
      AnsweredEarly(r, state, rest, first, c, fragments, i, env);
    } else {
      var f, more := fragments[0], fragments[1..];
      TearsLater(r, first, fragments, i);
      Associates(first, f, Concat(more));
      UntornSeamless(r, state, rest, first, f, env);
      SomeCutTears(r, state, rest, first + f, out.1.Plus(f), more, env);
    }
  }

  /**
   A response in any number of fragments is delivered if and only if the announced content is there and no cut falls
   between CR and LF of the status line, of a header line, of the blank line, or of the size line of a chunk with data.
   */
  lemma FragmentsDeliverExactly(r: Response, state: State, rest: string, fragments: seq<string>, env: Env)
    requires Acceptable(r, state, env) && NoBareCr(r) && Concat(fragments) == Sent(r, rest)
    ensures Delivered(r, rest, Feed(Config([], Fresh(state)), fragments, env))
      <==> UntornCuts(r, [], fragments) && Complete(r, rest)
  {
    if UntornCuts(r, [], fragments) {
      UntornFeed(r, state, rest, fragments, env);
      ResponseParses(r, state, rest, env);
    } else {
      assert [] + Concat(fragments) == Concat(fragments);
      SomeCutTears(r, state, rest, [], Config([], Fresh(state)), fragments, env);
    }
  }

  /** The head of a response without its last byte. */
  function HeadWithoutLf(r: Response): (s: string)
    ensures s + "\n" == EncodeHead(r)
  {
    EncodeStatus(r.status) + (FieldLines(r.fields) + [CR])
  }

  /**
   A chunked response whose blank line is cut between its two bytes: the parser reports success with an empty body
   and leaves the whole body unread.
   */
  lemma TornBlankLineLosesBody(r: Response, state: State, rest: string, env: Env)
    requires Acceptable(r, state, env) && r.body.ChunkedBody?
    ensures var body := EncodeBody(r.body) + rest;
      var out := Feed(Config([], Fresh(state)), [HeadWithoutLf(r), "\n" + body], env);
      out.0 == Success && out.1.ctx.body == [] && out.1.buf == body
  {
    var body := EncodeBody(r.body) + rest;
    TwoFragments(state, HeadWithoutLf(r), "\n" + body, env);
    StatusParses(r.status, state, FieldLines(r.fields) + [CR], env);
    FieldLinesParse(StartContext(r), r.fields, [CR], env);
    ContextUntouched(StartContext(r), r.fields);
    TornBlankReads(HeadContext(r).ctx, env);
    StrayCr(ContentContext(r), body, env);
  }

  lemma TornBlankReads(ctx: Context, env: Env)
    requires ctx.Valid() && ctx.state.Headers?
    ensures ctx.(state := Content).Valid()
    ensures Parse(Config([CR], ctx), env) == Parse(Config([CR], ctx.(state := Content)), env)
  {
    FoundAtOnce([CR]);
    assert Step(Config([CR], ctx), env) == Continue(Config([CR], ctx.(state := Content)));
  }
}
