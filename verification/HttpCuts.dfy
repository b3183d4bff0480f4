/**
 Responses cut at any place: exactly which cuts lose the response. Lines contain no bare CR, which section 2.2
 of RFC 9112 forbids outside the content; content may contain any bytes.
 */
module HttpCuts {
  import opened Bytes
  import opened HttpResponse
  import opened HttpResume
  import opened HttpMessages
  import opened HttpHead

  // ---- cuts ------------------------------------------------------------------------------------------

  predicate PlainFields(fields: seq<HeaderField>) {
    forall i | 0 <= i < |fields| :: CR !in FieldText(fields[i])
  }

  predicate PlainChunks(chunks: seq<Chunk>, end: Ending) {
    && (forall i | 0 <= i < |chunks| :: CR !in chunks[i].line)
    && (end.ZeroChunk? ==> CR !in end.line)
  }

  predicate PlainLines(body: Body) {
    body.ChunkedBody? ==> PlainChunks(body.chunks, body.end)
  }

  /** No line of the response contains a bare CR. */
  predicate NoBareCr(r: Response) {
    CR !in r.status.reason && PlainFields(r.fields) && PlainLines(r.body)
  }

  function StatusLineText(s: StatusText): string {
    s.proto + s.digits + " " + s.reason
  }

  /** The first fragment ends between CR and LF of the size line of a chunk with data. */
  predicate TearsSize(chunks: seq<Chunk>, a: string)
    decreases |chunks|
  {
    chunks != [] &&
    (var all := EncodeChunk(chunks[0]);
     || a == chunks[0].line + [CR]
     || (all <= a && TearsSize(chunks[1..], a[|all|..])))
  }

  predicate TearsBody(body: Body, a: string) {
    body.ChunkedBody? && TearsSize(body.chunks, a)
  }

  /** It ends between CR and LF of a header line, of the blank line, or of a size line as above. */
  predicate TearsBlock(fields: seq<HeaderField>, body: Body, a: string)
    decreases |fields|
  {
    if fields == [] then a == [CR] || (CRLF <= a && TearsBody(body, a[2..]))
    else
      var line := FieldText(fields[0]) + CRLF;
      || a == FieldText(fields[0]) + [CR]
      || (line <= a && TearsBlock(fields[1..], body, a[|line|..]))
  }

  /** It ends between CR and LF of the status line, or of one of the lines above. */
  predicate Tears(r: Response, a: string) {
    var line := EncodeStatus(r.status);
    || a == StatusLineText(r.status) + [CR]
    || (line <= a && TearsBlock(r.fields, r.body, a[|line|..]))
  }

  // ---- cuts that do no harm ---------------------------------------------------------------------------

  /** Going on with `b` after the cut gives what one call on both gives, result, context and buffer. */
  predicate Seamless(ctx: Context, a: string, b: string, env: Env)
    requires ctx.Valid()
  {
    Resume(Parse(Config(a, ctx), env), b, env) == Parse(Config(a + b, ctx), env)
  }

  lemma WaitingSeamless(ctx: Context, a: string, b: string, env: Env)
    requires ctx.Valid() && Parse(Config(a, ctx), env) == (NeedMoreData, Config(a, ctx))
    ensures Seamless(ctx, a, b, env)
  {
  }

  /** A cut is seamless if it is seamless behind the bytes that have been read already. */
  lemma SeamlessBehind(ctx: Context, first: string, ctx': Context, a: string, b: string, env: Env)
    requires ctx.Valid() && ctx'.Valid() && Seamless(ctx', a, b, env)
    requires Parse(Config(first + a, ctx), env) == Parse(Config(a, ctx'), env)
    requires Parse(Config(first + (a + b), ctx), env) == Parse(Config(a + b, ctx'), env)
    ensures Seamless(ctx, first + a, b, env)
  {
    Associates(first, a, b);
  }

  lemma NoCrNoLine(a: string)
    requires CR !in a
    ensures Find(a, CRLF) == |a|
  {
    forall i | 0 <= i < |a|
      ensures !Agrees(a[i..], CRLF)
    {
      assert a[i..][0] == a[i] && a[i] in a;
    }
    FindIs(a, CRLF, |a|);
  }

  /** A cut inside the text of a line. */
  lemma InsideLine(ctx: Context, a: string, b: string, env: Env)
    requires ctx.Valid() && CR !in a && |a| < env.capacity
    requires !ctx.state.Content? || AtChunkSize(ctx)
    ensures Seamless(ctx, a, b, env)
  {
    NoCrNoLine(a);
    WaitingSeamless(ctx, a, b, env);
  }

  // ---- chunks -----------------------------------------------------------------------------------------

  /** A cut before the line terminator of a chunk is complete. */
  lemma DataSeamless(ctx: Context, n: nat, a: string, b: string, env: Env)
    requires AtChunkSize(ctx) && n > 0 && |a| < n + 2
    ensures DuringChunk(ctx, n).Valid() && Seamless(DuringChunk(ctx, n), a, b, env)
  {
    var d := Config(a, DuringChunk(ctx, n));
    if a == [] {
      WaitingSeamless(d.ctx, a, b, env);
    } else if |a| < n {
      PartialCopy(d, b, env);
    } else {
      var taken, t := a[..n], a[n..];
      assert a == taken + t;
      Associates(taken, t, b);
      DataStep(ctx, taken, t, env);
      DataStep(ctx, taken, t + b, env);
      var after := AfterChunk(ctx, taken).(chunkState := ChunkEndCrlf);
      WaitingSeamless(after, t, b, env);
      SeamlessBehind(d.ctx, taken, after, t, b, env);
    }
  }

  lemma SizeLineRead(ctx: Context, chunk: Chunk, after: string, env: Env)
    requires AtChunkSize(ctx) && SizeText(chunk.line, |chunk.data|) && chunk.data != []
    ensures DuringChunk(ctx, |chunk.data|).Valid()
    ensures Parse(Config(chunk.line + CRLF + after, ctx), env)
         == Parse(Config(after, DuringChunk(ctx, |chunk.data|)), env)
  {
    ReadsSize(chunk.line, after);
    SizeStep(Config(chunk.line + CRLF + after, ctx), |chunk.data|, after, env);
  }

  lemma PrefixOfSum(a: string, x: string, y: string)
    requires a <= x + y
    ensures |a| <= |x| ==> a <= x
    ensures |a| >= |x| ==> x <= a && a == x + a[|x|..] && a[|x|..] <= y
  {
    if |a| <= |x| {
      assert x[..|a|] == (x + y)[..|a|];
    } else {
      assert a[..|x|] == (x + y)[..|x|] == x;
      assert a[|x|..] == (x + y)[|x|..|a|] == y[..|a| - |x|];
    }
  }

  lemma PrefixWithoutCr(a: string, line: string)
    requires a <= line && CR !in line
    ensures CR !in a
  {
    forall i | 0 <= i < |a|
      ensures a[i] != CR
    {
      assert a[i] == line[i] && line[i] in line;
    }
  }

  lemma InsideChunk(ctx: Context, chunk: Chunk, a: string, b: string, env: Env)
    requires AtChunkSize(ctx) && SizeText(chunk.line, |chunk.data|) && chunk.data != [] && CR !in chunk.line
    requires env.capacity >= MIN_CAPACITY
    requires a <= EncodeChunk(chunk) && |a| < |EncodeChunk(chunk)| && a != chunk.line + [CR]
    ensures Seamless(ctx, a, b, env)
  {
    var line, data := chunk.line, chunk.data;
    Associates(line, CRLF, data + CRLF);
    PrefixOfSum(a, line, CRLF + (data + CRLF));
    if |a| <= |line| {
      PrefixWithoutCr(a, line);
      InsideLine(ctx, a, b, env);
    } else {
      assert a[|line|..][0] == CR;
      assert |a| == |line| + 1 ==> a == line + [CR];
      PrefixOfSum(a, line + CRLF, data + CRLF);
      var t := a[|line| + 2..];
      DataSeamless(ctx, |data|, t, b, env);
      SizeLineRead(ctx, chunk, t, env);
      SizeLineRead(ctx, chunk, t + b, env);
      SeamlessBehind(ctx, line + CRLF, DuringChunk(ctx, |data|), t, b, env);
    }
  }

  // ---- the end of the body ------------------------------------------------------------------------------

  /** Cuts in and behind the last line terminator. */
  lemma FinalSeamless(ctx: Context, a: string, b: string, env: Env)
    requires ctx.Valid() && ctx.state.Content? && ctx.Chunked() && ctx.chunkState.FinalCrlf?
    ensures Seamless(ctx, a, b, env)
  {
    if |a| < 2 {
      WaitingSeamless(ctx, a, b, env);
    } else {
      assert (a + b)[..2] == a[..2] && (a + b)[2..] == a[2..] + b;
    }
  }

  /** Cuts in and behind the line terminator of a chunk of size zero. */
  lemma ZeroEndSeamless(ctx: Context, a: string, b: string, env: Env)
    requires ctx.Valid() && ctx.state.Content? && ctx.Chunked() && ctx.chunkState.ChunkEndCrlf? && ctx.chunkSize == 0
    requires |a| >= 2 ==> CRLF <= a
    ensures Seamless(ctx, a, b, env)
  {
    if |a| < 2 {
      WaitingSeamless(ctx, a, b, env);
    } else {
      var t := a[2..];
      assert a == CRLF + t;
      Associates(CRLF, t, b);
      CrlfStep(Config(a, ctx), t, env);
      CrlfStep(Config(a + b, ctx), t + b, env);
      FinalSeamless(ctx.(chunkState := FinalCrlf), t, b, env);
      SeamlessBehind(ctx, CRLF, ctx.(chunkState := FinalCrlf), t, b, env);
    }
  }

  /** CRLF, or as much of it as has arrived. */
  predicate BeginsLineEnd(s: string) {
    s != [] && s[0] == CR && (|s| > 1 ==> s[1] == LF)
  }

  lemma FoundAtOnce(s: string)
    requires BeginsLineEnd(s)
    ensures Find(s, CRLF) == 0
  {
    FindIs(s, CRLF, 0);
  }

  lemma FoundAfter(line: string, s: string)
    requires CR !in line && BeginsLineEnd(s)
    ensures var t := line + s; Find(t, CRLF) == |line| && t[..|line|] == line && t[|line|..] == s
  {
    var t := line + s;
    forall i | 0 <= i < |line|
      ensures !Agrees(t[i..], CRLF)
    {
      assert t[i..][0] == line[i] && line[i] in line;
    }
    assert t[|line|..] == s;
    FindIs(t, CRLF, |line|);
  }

  lemma BlankOpensFinal(ctx: Context, s: string, env: Env)
    requires AtChunkSize(ctx) && BeginsLineEnd(s)
    ensures Parse(Config(s, ctx), env) == Parse(Config(s, ctx.(chunkState := FinalCrlf)), env)
  {
    FoundAtOnce(s);
    assert Step(Config(s, ctx), env) == Continue(Config(s, ctx.(chunkState := FinalCrlf)));
  }

  lemma ZeroOpensEnd(ctx: Context, line: string, s: string, env: Env)
    requires AtChunkSize(ctx) && SizeText(line, 0) && CR !in line && !env.errnoInvalid && BeginsLineEnd(s)
    ensures Parse(Config(line + s, ctx), env) == Parse(Config(s, ctx.(chunkSize := 0, chunkState := ChunkEndCrlf)), env)
  {
    FoundAfter(line, s);
    assert ReadSize(line + s) == Size(0, s);
    assert Step(Config(line + s, ctx), env) == Continue(Config(s, ctx.(chunkSize := 0, chunkState := ChunkEndCrlf)));
  }

  lemma StartsWithCrlf(t: string, rest: string)
    requires t != [] && t <= CRLF + rest
    ensures BeginsLineEnd(t) && (|t| >= 2 ==> CRLF <= t)
  {
    assert t[0] == (CRLF + rest)[0];
    if |t| >= 2 {
      assert t[1] == (CRLF + rest)[1];
      assert t[..2] == CRLF;
    }
  }

  lemma PrefixOfPrefix(a: string, b: string, s: string)
    requires a + b <= s
    ensures a <= s
  {
    assert (a + b)[..|a|] == a;
  }

  /** A cut inside the first piece of the bytes, or behind it. */
  lemma CutInPieces(a: string, b: string, piece: string, more: string)
    requires a + b <= piece + more
    ensures |a| < |piece| ==> a <= piece
    ensures |a| >= |piece| ==>
      piece <= a && a == piece + a[|piece|..] && a[|piece|..] + b <= more && a + b == piece + (a[|piece|..] + b)
  {
    PrefixOfPrefix(a, b, piece + more);
    PrefixOfSum(a, piece, more);
    PrefixOfSum(a + b, piece, more);
    if |a| >= |piece| {
      assert (a + b)[|piece|..] == a[|piece|..] + b;
    }
  }

  lemma EndingSeamless(ctx: Context, end: Ending, rest: string, a: string, b: string, env: Env)
    requires AtChunkSize(ctx) && ValidEnding(end, env) && PlainChunks([], end) && env.capacity >= MIN_CAPACITY
    requires a + b <= EncodeEnding(end) + rest
    ensures Seamless(ctx, a, b, env)
  {
    PrefixOfPrefix(a, b, EncodeEnding(end) + rest);
    match end {
      case EmptyLine =>
        if a == [] {
          InsideLine(ctx, a, b, env);
        } else {
          StartsWithCrlf(a, rest);
          StartsWithCrlf(a + b, rest);
          BlankOpensFinal(ctx, a, env);
          BlankOpensFinal(ctx, a + b, env);
          FinalSeamless(ctx.(chunkState := FinalCrlf), a, b, env);
        }
      case ZeroChunk(line) =>
        ZeroLayout(line, rest);
        PrefixOfSum(a, line, CRLF + (CRLF + rest));
        if |a| <= |line| {
          PrefixWithoutCr(a, line);
          InsideLine(ctx, a, b, env);
        } else {
          BehindZero(ctx, line, rest, a, b, env);
        }
    }
  }

  lemma ZeroLayout(line: string, rest: string)
    ensures line + CRLF + CRLF + rest == line + (CRLF + (CRLF + rest))
  {
  }

  lemma BehindZero(ctx: Context, line: string, rest: string, a: string, b: string, env: Env)
    requires AtChunkSize(ctx) && SizeText(line, 0) && CR !in line && !env.errnoInvalid
    requires a + b <= line + (CRLF + (CRLF + rest)) && |a| > |line|
    ensures Seamless(ctx, a, b, env)
  {
    PrefixOfPrefix(a, b, line + (CRLF + (CRLF + rest)));
    PrefixOfSum(a, line, CRLF + (CRLF + rest));
    PrefixOfSum(a + b, line, CRLF + (CRLF + rest));
    var t := a[|line|..];
    assert (a + b)[|line|..] == t + b;
    StartsWithCrlf(t, CRLF + rest);
    StartsWithCrlf(t + b, CRLF + rest);
    ZeroOpensEnd(ctx, line, t, env);
    ZeroOpensEnd(ctx, line, t + b, env);
    var ctx' := ctx.(chunkSize := 0, chunkState := ChunkEndCrlf);
    ZeroEndSeamless(ctx', t, b, env);
    SeamlessBehind(ctx, line, ctx', t, b, env);
  }

  // ---- body, block and response -------------------------------------------------------------------------

  /** A cut anywhere in the body or behind it, except inside the size line terminator of a chunk with data. */
  lemma {:induction false} BodySeamless(ctx: Context, chunks: seq<Chunk>, end: Ending, rest: string, a: string, b: string, env: Env)
    requires AtChunkSize(ctx) && ValidChunks(chunks) && ValidEnding(end, env) && PlainChunks(chunks, end)
    requires env.capacity >= MIN_CAPACITY && a + b <= Encode(chunks, end) + rest && !TearsSize(chunks, a)
    ensures Seamless(ctx, a, b, env)
    decreases |chunks|
  {
    if chunks == [] {
      EndingSeamless(ctx, end, rest, a, b, env);
    } else {
      var all, more := EncodeChunk(chunks[0]), Encode(chunks[1..], end) + rest;
      Associates(all, Encode(chunks[1..], end), rest);
      CutInPieces(a, b, all, more);
      if |a| < |all| {
        InsideChunk(ctx, chunks[0], a, b, env);
      } else {
        var t := a[|all|..];
        OneChunk(ctx, chunks[0], t, env);
        OneChunk(ctx, chunks[0], t + b, env);
        var ctx' := AfterChunk(ctx, chunks[0].data);
        BodySeamless(ctx', chunks[1..], end, rest, t, b, env);
        SeamlessBehind(ctx, all, ctx', t, b, env);
      }
    }
  }

  /** Content that is not chunked is only ever awaited. */
  lemma PlainSeamless(ctx: Context, a: string, b: string, env: Env)
    requires ctx.Valid() && ctx.state.Content? && !ctx.Chunked()
    ensures Seamless(ctx, a, b, env)
  {
    PlainContent(Config(a, ctx), env);
    PlainContent(Config(a + b, ctx), env);
  }

  /** The header fields are read in a context like this one. */
  predicate InHeaders(ctx: Context) {
    ctx.Valid() && ctx.state.Headers? && ctx.chunkState.ChunkSize?
  }

  /** A body that can be cut with a known effect, in a context that announces it. */
  predicate Cuttable(ctx: Context, body: Body, env: Env) {
    && (ctx.Chunked() <==> body.ChunkedBody?)
    && ValidBody(body, env) && PlainLines(body) && (body.ChunkedBody? ==> env.capacity >= MIN_CAPACITY)
  }

  lemma BlankLineParses(ctx: Context, t: string, env: Env)
    requires ctx.Valid() && ctx.state.Headers?
    ensures ctx.(state := Content).Valid()
    ensures Parse(Config(CRLF + t, ctx), env) == Parse(Config(t, ctx.(state := Content)), env)
  {
    BlankLineStep(Config(CRLF + t, ctx), t, env);
  }

  lemma BlankLineSeamless(ctx: Context, body: Body, rest: string, a: string, b: string, env: Env)
    requires InHeaders(ctx) && Cuttable(ctx, body, env)
    requires a + b <= CRLF + (EncodeBody(body) + rest) && !TearsBlock([], body, a)
    ensures Seamless(ctx, a, b, env)
  {
    CutInPieces(a, b, CRLF, EncodeBody(body) + rest);
    if |a| < 2 {
      InsideHeaderLine(ctx, [], a, b, env);
    } else {
      var t := a[2..];
      BlankLineParses(ctx, t, env);
      BlankLineParses(ctx, t + b, env);
      if body.ChunkedBody? {
        BodySeamless(ctx.(state := Content), body.chunks, body.end, rest, t, b, env);
      } else {
        PlainSeamless(ctx.(state := Content), t, b, env);
      }
      SeamlessBehind(ctx, CRLF, ctx.(state := Content), t, b, env);
    }
  }

  lemma OneField(ctx: Context, f: HeaderField, t: string, env: Env)
    requires ctx.Valid() && ctx.state.Headers? && ValidField(f) && ProcessField(ctx, f).Accepted?
    ensures ProcessField(ctx, f).ctx.Valid()
    ensures Parse(Config(FieldText(f) + CRLF + t, ctx), env) == Parse(Config(t, ProcessField(ctx, f).ctx), env)
  {
    FieldStep(Config(FieldText(f) + CRLF + t, ctx), f, t, env);
  }

  /** A cut anywhere in a header block or behind it that tears no line. */
  lemma {:induction false} BlockSeamless(
    ctx: Context, fields: seq<HeaderField>, body: Body, rest: string, a: string, b: string, env: Env)
    requires InHeaders(ctx) && ValidFields(fields) && PlainFields(fields)
    requires ProcessAll(ctx, fields).Accepted? && Cuttable(ProcessAll(ctx, fields).ctx, body, env)
    requires a + b <= FieldLines(fields) + (CRLF + (EncodeBody(body) + rest)) && !TearsBlock(fields, body, a)
    ensures Seamless(ctx, a, b, env)
    decreases |fields|
  {
    var content := CRLF + (EncodeBody(body) + rest);
    if fields == [] {
      assert FieldLines(fields) + content == content;
      BlankLineSeamless(ctx, body, rest, a, b, env);
    } else {
      var f := fields[0];
      var line, more := FieldText(f) + CRLF, FieldLines(fields[1..]) + content;
      Associates(line, FieldLines(fields[1..]), content);
      CutInPieces(a, b, line, more);
      if |a| < |line| {
        InsideHeaderLine(ctx, FieldText(f), a, b, env);
      } else {
        var t := a[|line|..];
        OneField(ctx, f, t, env);
        OneField(ctx, f, t + b, env);
        var ctx' := ProcessField(ctx, f).ctx;
        BlockSeamless(ctx', fields[1..], body, rest, t, b, env);
        SeamlessBehind(ctx, line, ctx', t, b, env);
      }
    }
  }

  lemma InsideHeaderLine(ctx: Context, text: string, a: string, b: string, env: Env)
    requires ctx.Valid() && !ctx.state.Content? && CR !in text
    requires a <= text + CRLF && |a| < |text| + 2 && a != text + [CR]
    ensures Seamless(ctx, a, b, env)
  {
    PrefixOfSum(a, text, CRLF);
    assert |a| == |text| + 1 ==> a == text + [CR];
    PrefixWithoutCr(a, text);
    NoCrNoLine(a);
    WaitingSeamless(ctx, a, b, env);
  }
}
