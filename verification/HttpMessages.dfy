/**
 Whole messages: what the parser makes of every response a conforming sender can produce, and which chunked
 bodies it accepts at all (RFC 9112 sections 4, 5, 6.3 and 7.1).
 */
module HttpMessages {
  import opened Bytes
  import opened CLib
  import opened HttpResponse

  // ---- lines ------------------------------------------------------------------------------------

  /** Text that a line terminator ends, and no earlier one. */
  predicate IsLine(text: string) {
    Find(text + CRLF, CRLF) == |text|
  }

  lemma NoCrIsLine(text: string)
    requires CR !in text
    ensures IsLine(text)
  {
    var s := text + CRLF;
    forall i | 0 <= i < |text| ensures !Agrees(s[i..], CRLF) {
      assert s[i..][0] == text[i];
    }
    assert s[|text|..] == CRLF;
    FindIs(s, CRLF, |text|);
  }

  lemma LineEnd(text: string, rest: string)
    requires IsLine(text)
    ensures var s := text + CRLF + rest;
      Find(s, CRLF) == |text| && s[..|text|] == text && s[|text|..] == CRLF + rest && Hit(s, CRLF)
  {
    HitExtends(text + CRLF, CRLF, rest);
  }

  // ---- chunked coding ---------------------------------------------------------------------------

  /** A chunk with the text of its size line, which may carry an extension. */
  datatype Chunk = Chunk(line: string, data: string)

  /** What ends a chunked body: a chunk of size zero, or just an empty line, which the source takes as well. */
  datatype Ending = ZeroChunk(line: string) | EmptyLine

  predicate SizeText(line: string, n: int) {
    0 < |line| < HDR_BUFFER_SIZE && IsLine(line) && Strtol16(CString(line)) == n && 0 <= n < LONG_MAX
  }

  predicate ValidChunks(chunks: seq<Chunk>) {
    forall i | 0 <= i < |chunks| :: SizeText(chunks[i].line, |chunks[i].data|) && chunks[i].data != []
  }

  predicate ValidEnding(end: Ending, env: Env) {
    end.ZeroChunk? ==> SizeText(end.line, 0) && !env.errnoInvalid
  }

  function EncodeChunk(chunk: Chunk): string {
    chunk.line + CRLF + (chunk.data + CRLF)
  }

  function EncodeEnding(end: Ending): string {
    match end
    case ZeroChunk(line) => line + CRLF + CRLF
    case EmptyLine => CRLF
  }

  function Encode(chunks: seq<Chunk>, end: Ending): string {
    if chunks == [] then EncodeEnding(end) else EncodeChunk(chunks[0]) + Encode(chunks[1..], end)
  }

  function Payload(chunks: seq<Chunk>): string {
    if chunks == [] then [] else chunks[0].data + Payload(chunks[1..])
  }

  /** The parser is about to read a chunk size. */
  predicate AtChunkSize(ctx: Context) {
    ctx.Valid() && ctx.state.Content? && ctx.Chunked() && ctx.chunkState.ChunkSize?
  }

  /** The body read so far is the only trace a complete chunked body leaves in the context. */
  predicate BodyDone(ctx: Context, ctx': Context, payload: string) {
    && ctx'.body == ctx.body + payload
    && ctx'.reserved == |ctx'.body| + 1
    && ctx' == ctx.(body := ctx'.body, reserved := ctx'.reserved, chunkState := FinalCrlf,
                    chunkSize := ctx'.chunkSize, chunkGot := ctx'.chunkGot)
  }

  /** The context after one chunk has been copied. */
  function AfterChunk(ctx: Context, data: string): Context {
    ctx.(body := ctx.body + data, reserved := ctx.reserved + |data|, chunkSize := |data|, chunkGot := |data|)
  }

  function DuringChunk(ctx: Context, size: nat): Context {
    ctx.(chunkSize := size, chunkGot := 0, reserved := ctx.reserved + size, chunkState := ChunkData)
  }

  lemma ReadsSize(line: string, after: string)
    requires IsLine(line) && 0 < |line| < HDR_BUFFER_SIZE
    ensures ReadSize(line + CRLF + after) == Size(Strtol16(CString(line)), CRLF + after)
  {
    LineEnd(line, after);
  }

  lemma TakesSize(c: Config, size: nat, after: string, env: Env)
    requires AtChunkSize(c.ctx) && 0 < size < LONG_MAX
    ensures Config(after, DuringChunk(c.ctx, size)).Valid()
    ensures TakeSize(Size(size, CRLF + after), c, env) == Continue(Config(after, DuringChunk(c.ctx, size)))
  {
    assert Skip(CRLF + after, 2) == after;
  }

  lemma SizeStep(c: Config, size: nat, after: string, env: Env)
    requires AtChunkSize(c.ctx) && 0 < size < LONG_MAX && ReadSize(c.buf) == Size(size, CRLF + after)
    ensures Config(after, DuringChunk(c.ctx, size)).Valid()
    ensures Step(c, env) == Continue(Config(after, DuringChunk(c.ctx, size)))
  {
    TakesSize(c, size, after, env);
    assert Step(c, env) == TakeSize(ReadSize(c.buf), c, env);
  }

  lemma DataStep(ctx: Context, data: string, after: string, env: Env)
    requires AtChunkSize(ctx) && data != []
    ensures Config(data + after, DuringChunk(ctx, |data|)).Valid()
    ensures Step(Config(data + after, DuringChunk(ctx, |data|)), env)
         == Continue(Config(after, AfterChunk(ctx, data).(chunkState := ChunkEndCrlf)))
  {
    assert (data + after)[..|data|] == data && (data + after)[|data|..] == after;
  }

  lemma CrlfStep(c: Config, rest: string, env: Env)
    requires c.Valid() && c.ctx.state.Content? && c.ctx.Chunked()
    requires c.ctx.chunkState.ChunkEndCrlf? || c.ctx.chunkState.FinalCrlf?
    requires c.buf == CRLF + rest
    ensures Step(c, env) ==
      if c.ctx.chunkState.FinalCrlf? then Done(Success, Config(rest, c.ctx.(reserved := c.ctx.reserved + 1)))
      else Continue(Config(rest, c.ctx.(chunkState := if c.ctx.chunkSize == 0 then FinalCrlf else ChunkSize)))
  {
    assert c.buf[..2] == CRLF && c.buf[2..] == rest;
  }

  lemma DataDecodes(ctx: Context, data: string, rest: string, env: Env)
    requires AtChunkSize(ctx) && data != []
    ensures AtChunkSize(AfterChunk(ctx, data))
    ensures Config(data + (CRLF + rest), DuringChunk(ctx, |data|)).Valid()
    ensures Parse(Config(data + (CRLF + rest), DuringChunk(ctx, |data|)), env) == Parse(Config(rest, AfterChunk(ctx, data)), env)
  {
    DataStep(ctx, data, CRLF + rest, env);
    var e := Config(CRLF + rest, AfterChunk(ctx, data).(chunkState := ChunkEndCrlf));
    CrlfStep(e, rest, env);
    assert Parse(e, env) == Parse(Config(rest, AfterChunk(ctx, data)), env);
  }

  lemma ChunkLayout(chunk: Chunk, rest: string)
    ensures EncodeChunk(chunk) + rest == chunk.line + CRLF + (chunk.data + (CRLF + rest))
  {
  }

  /** Size line, data and line terminator of one chunk, read one after the other. */
  lemma OneChunk(ctx: Context, chunk: Chunk, rest: string, env: Env)
    requires AtChunkSize(ctx) && SizeText(chunk.line, |chunk.data|) && chunk.data != []
    ensures AtChunkSize(AfterChunk(ctx, chunk.data))
    ensures Parse(Config(EncodeChunk(chunk) + rest, ctx), env) == Parse(Config(rest, AfterChunk(ctx, chunk.data)), env)
  {
    var data := chunk.data;
    ChunkLayout(chunk, rest);
    ReadsSize(chunk.line, data + (CRLF + rest));
    SizeStep(Config(EncodeChunk(chunk) + rest, ctx), |data|, data + (CRLF + rest), env);
    DataDecodes(ctx, data, rest, env);
  }

  lemma EmptyLineDecodes(ctx: Context, rest: string, env: Env)
    requires AtChunkSize(ctx)
    ensures Parse(Config(CRLF + rest, ctx), env)
         == (Success, Config(rest, ctx.(reserved := ctx.reserved + 1, chunkState := FinalCrlf)))
  {
    var c := Config(CRLF + rest, ctx);
    NoCrIsLine("");
    LineEnd("", rest);
    assert c.buf == "" + CRLF + rest;
    CrlfStep(Config(c.buf, ctx.(chunkState := FinalCrlf)), rest, env);
  }

  lemma ZeroStep(c: Config, after: string, env: Env)
    requires AtChunkSize(c.ctx) && ReadSize(c.buf) == Size(0, CRLF + after)
    ensures Step(c, env) ==
      if env.errnoInvalid then Done(Error, Config(CRLF + after, c.ctx.(chunkSize := 0)))
      else Continue(Config(CRLF + after, c.ctx.(chunkSize := 0, chunkState := ChunkEndCrlf)))
  {
  }

  lemma TwoCrlfDecode(ctx: Context, rest: string, env: Env)
    requires ctx.Valid() && ctx.state.Content? && ctx.Chunked() && ctx.chunkState.ChunkEndCrlf? && ctx.chunkSize == 0
    ensures Parse(Config(CRLF + (CRLF + rest), ctx), env)
         == (Success, Config(rest, ctx.(reserved := ctx.reserved + 1, chunkState := FinalCrlf)))
  {
    CrlfStep(Config(CRLF + (CRLF + rest), ctx), CRLF + rest, env);
    CrlfStep(Config(CRLF + rest, ctx.(chunkState := FinalCrlf)), rest, env);
  }

  lemma ZeroChunkDecodes(ctx: Context, line: string, rest: string, env: Env)
    requires AtChunkSize(ctx) && SizeText(line, 0) && !env.errnoInvalid
    ensures Parse(Config(line + CRLF + CRLF + rest, ctx), env)
         == (Success, Config(rest, ctx.(reserved := ctx.reserved + 1, chunkState := FinalCrlf, chunkSize := 0)))
  {
    Associates(line + CRLF, CRLF, rest);
    ReadsSize(line, CRLF + rest);
    ZeroStep(Config(line + CRLF + CRLF + rest, ctx), CRLF + rest, env);
    TwoCrlfDecode(ctx.(chunkSize := 0, chunkState := ChunkEndCrlf), rest, env);
  }

  lemma CutAt(s: string, n: nat)
    requires n + 2 <= |s| && s[n..][..2] == CRLF
    ensures s == s[..n] + (CRLF + s[n..][2..]) && s[0..] == s
  {
    assert s[n..] == s[n..][..2] + s[n..][2..];
  }

  lemma Associates(a: string, b: string, c: string)
    ensures a + b + c == a + (b + c)
  {
  }

  lemma EndingDecodes(ctx: Context, end: Ending, rest: string, env: Env)
    requires AtChunkSize(ctx) && ValidEnding(end, env)
    ensures var r := Parse(Config(EncodeEnding(end) + rest, ctx), env);
      r.0 == Success && r.1.buf == rest && BodyDone(ctx, r.1.ctx, [])
  {
    assert ctx.body + [] == ctx.body;
    match end
    case EmptyLine => EmptyLineDecodes(ctx, rest, env);
    case ZeroChunk(line) => ZeroChunkDecodes(ctx, line, rest, env);
  }

  /** Decoding inverts encoding, uses up exactly the encoding and allocates one byte more than the payload. */
  lemma {:induction false} ChunkedRoundTrip(ctx: Context, chunks: seq<Chunk>, end: Ending, rest: string, env: Env)
    requires AtChunkSize(ctx) && ValidChunks(chunks) && ValidEnding(end, env)
    ensures var r := Parse(Config(Encode(chunks, end) + rest, ctx), env);
      r.0 == Success && r.1.buf == rest && BodyDone(ctx, r.1.ctx, Payload(chunks))
    decreases |chunks|
  {
    if chunks == [] {
      EndingDecodes(ctx, end, rest, env);
    } else {
      var more := Encode(chunks[1..], end);
      OneChunk(ctx, chunks[0], more + rest, env);
      Associates(EncodeChunk(chunks[0]), more, rest);
      ChunkedRoundTrip(AfterChunk(ctx, chunks[0].data), chunks[1..], end, rest, env);
      BodyExtends(ctx, chunks[0].data, Payload(chunks[1..]));
    }
  }

  lemma BodyExtends(ctx: Context, data: string, payload: string)
    ensures forall ctx' :: BodyDone(AfterChunk(ctx, data), ctx', payload) ==> BodyDone(ctx, ctx', data + payload)
  {
    assert ctx.body + data + payload == ctx.body + (data + payload);
  }

  // ---- the coding a sender uses -------------------------------------------------------------------

  /** The data with their sizes in hexadecimal. */
  function HexChunks(datas: seq<string>): (chunks: seq<Chunk>)
    ensures |chunks| == |datas|
    ensures forall i | 0 <= i < |datas| :: chunks[i] == Chunk(ToHex(|datas[i]|), datas[i])
  {
    seq(|datas|, i requires 0 <= i < |datas| => Chunk(ToHex(|datas[i]|), datas[i]))
  }

  lemma HexIsSizeText(n: nat)
    requires n < LONG_MAX
    ensures SizeText(ToHex(n), n) && CR !in ToHex(n)
  {
    var line := ToHex(n);
    StrtolReadsHex(n, []);
    assert line + [] == line;
    assert CR !in line && NUL !in line;
    NoCrIsLine(line);
    NoNulIsCString(line);
  }

  lemma {:induction false} NoNulIsCString(s: string)
    requires NUL !in s
    ensures CString(s) == s
  {
    if s != [] {
      assert s[0] in s && s == [s[0]] + s[1..];
      NoNulIsCString(s[1..]);
    }
  }

  lemma {:induction false} HexPayload(datas: seq<string>)
    ensures Payload(HexChunks(datas)) == Concat(datas)
    decreases |datas|
  {
    if datas != [] {
      assert HexChunks(datas)[1..] == HexChunks(datas[1..]);
      HexPayload(datas[1..]);
    }
  }

  /** Any data, in any non-empty pieces, get through the chunked coding as RFC 9112 section 7.1 writes it. */
  lemma AnyDataRoundTrip(ctx: Context, datas: seq<string>, rest: string, env: Env)
    requires AtChunkSize(ctx) && !env.errnoInvalid
    requires forall i | 0 <= i < |datas| :: 0 < |datas[i]| < LONG_MAX
    ensures var r := Parse(Config(Encode(HexChunks(datas), ZeroChunk("0")) + rest, ctx), env);
      r.0 == Success && r.1.buf == rest && BodyDone(ctx, r.1.ctx, Concat(datas))
  {
    forall i | 0 <= i < |datas|
      ensures SizeText(ToHex(|datas[i]|), |datas[i]|)
    {
      HexIsSizeText(|datas[i]|);
    }
    HexIsSizeText(0);
    assert ToHex(0) == "0";
    HexPayload(datas);
    ChunkedRoundTrip(ctx, HexChunks(datas), ZeroChunk("0"), rest, env);
  }

  // ---- nothing else is accepted -----------------------------------------------------------------

  /** A size line that the search did not have to guess. */
  lemma WholeLine(buf: string)
    requires Hit(buf, CRLF)
    ensures var idx := Find(buf, CRLF); IsLine(buf[..idx]) && buf == buf[..idx] + CRLF + buf[idx + 2..]
  {
    var idx := Find(buf, CRLF);
    HitIsOccurrence(buf, CRLF);
    var head := buf[..idx] + CRLF;
    assert buf == head + buf[idx + 2..];
    MissExtends(head, CRLF, buf[idx + 2..]);
    assert head[idx..idx + 2] == CRLF;
    OccurrenceIsHit(head, CRLF, idx);
    if Find(head, CRLF) < idx {
      assert Hit(head, CRLF);
      HitExtends(head, CRLF, buf[idx + 2..]);
    }
  }

  /** A line terminator torn apart never leads to success within the same call. */
  lemma TornNeverSucceeds(c: Config, env: Env)
    requires AtChunkSize(c.ctx) && !Hit(c.buf, CRLF)
    ensures Parse(c, env).0 != Success
  {
    var o := TakeSize(ReadSize(c.buf), c, env);
    assert Step(c, env) == o;
    if o.Continue? {
      assert |o.next.buf| <= 1 && !o.next.ctx.chunkState.ChunkSize?;
      OneByteNeverSucceeds(o.next, env);
    }
  }

  lemma OneByteNeverSucceeds(d: Config, env: Env)
    requires d.Valid() && d.ctx.state.Content? && d.ctx.Chunked() && !d.ctx.chunkState.ChunkSize? && |d.buf| <= 1
    ensures Parse(d, env).0 != Success
    decreases |d.buf|
  {
    if d.ctx.chunkState.ChunkData? && d.buf != [] {
      var e := ChunkBytes(d).next;
      assert Step(d, env) == Continue(e);
      OneByteNeverSucceeds(e, env);
    }
  }

  /** What has to follow the size line of a last chunk. */
  lemma ZeroChunkSound(c: Config, rest: string, env: Env)
    requires AtChunkSize(c.ctx) && Parse(c, env).0 == Success && ReadSize(c.buf) == Size(0, CRLF + rest)
    ensures !env.errnoInvalid && |rest| >= 2 && rest[..2] == CRLF
  {
    ZeroStep(c, rest, env);
    var ctx := c.ctx.(chunkSize := 0, chunkState := ChunkEndCrlf);
    CrlfStep(Config(CRLF + rest, ctx), rest, env);
    CrlfNeeded(Config(rest, ctx.(chunkState := FinalCrlf)), env);
  }

  lemma CrlfNeeded(c: Config, env: Env)
    requires c.Valid() && c.ctx.state.Content? && c.ctx.Chunked()
    requires c.ctx.chunkState.ChunkEndCrlf? || c.ctx.chunkState.FinalCrlf?
    requires Parse(c, env).0 == Success
    ensures |c.buf| >= 2 && c.buf[..2] == CRLF
  {
  }

  /** What has to follow the size line of any other chunk. */
  lemma DataChunkSound(c: Config, size: nat, rest: string, env: Env)
    requires AtChunkSize(c.ctx) && Parse(c, env).0 == Success
    requires 0 < size < LONG_MAX && ReadSize(c.buf) == Size(size, CRLF + rest)
    ensures |rest| >= size + 2 && rest[size..][..2] == CRLF
  {
    SizeStep(c, size, rest, env);
    DataThenCrlf(Config(rest, DuringChunk(c.ctx, size)), c.ctx, size, env);
  }

  lemma DataThenCrlf(d: Config, ctx: Context, size: nat, env: Env)
    requires AtChunkSize(ctx) && size > 0 && d.ctx == DuringChunk(ctx, size) && d.Valid()
    requires Parse(d, env).0 == Success
    ensures |d.buf| >= size + 2 && d.buf[size..][..2] == CRLF
  {
    DataNeeded(d, env);
    var data, after := d.buf[..size], d.buf[size..];
    assert d.buf == data + after;
    DataStep(ctx, data, after, env);
    CrlfNeeded(Config(after, AfterChunk(ctx, data).(chunkState := ChunkEndCrlf)), env);
  }

  lemma DataNeeded(d: Config, env: Env)
    requires d.Valid() && d.ctx.state.Content? && d.ctx.Chunked() && d.ctx.chunkState.ChunkData?
    requires Parse(d, env).0 == Success
    ensures |d.buf| >= d.ctx.chunkSize - d.ctx.chunkGot
  {
    if 0 < |d.buf| < d.ctx.chunkSize - d.ctx.chunkGot {
      var e := ChunkBytes(d).next;
      assert Step(d, env) == Continue(e);
      OneByteNeverSucceeds(e, env);
    }
  }

  lemma SizeLineSound(c: Config, env: Env) returns (line: string, rest: string)
    requires AtChunkSize(c.ctx) && Parse(c, env).0 == Success
    ensures c.buf == line + CRLF + rest && (line == [] || SizeText(line, Strtol16(CString(line))))
  {
    if !Hit(c.buf, CRLF) {
      TornNeverSucceeds(c, env);
    }
    WholeLine(c.buf);
    var idx := Find(c.buf, CRLF);
    line, rest := c.buf[..idx], c.buf[idx + 2..];
    SizeInRange(c, env);
  }

  lemma SizeInRange(c: Config, env: Env)
    requires AtChunkSize(c.ctx) && Parse(c, env).0 == Success
    ensures var line := ReadSize(c.buf); line.BlankLine? || (line.Size? && 0 <= line.size < LONG_MAX)
  {
    assert Step(c, env) == TakeSize(ReadSize(c.buf), c, env);
  }

  /** Every chunked body the parser accepts is an encoding, and the body it reports is its payload. */
  lemma {:induction false} ChunkedSound(c: Config, env: Env) returns (chunks: seq<Chunk>, end: Ending)
    requires AtChunkSize(c.ctx) && Parse(c, env).0 == Success
    ensures ValidChunks(chunks) && ValidEnding(end, env)
    ensures c.buf == Encode(chunks, end) + Parse(c, env).1.buf
    ensures BodyDone(c.ctx, Parse(c, env).1.ctx, Payload(chunks))
    decreases |c.buf|
  {
    var line, rest := SizeLineSound(c, env);
    if line == [] {
      chunks, end := [], EmptyLine;
      EndingSound(c, end, rest, env);
    } else if Strtol16(CString(line)) == 0 {
      chunks, end := [], ZeroChunk(line);
      LastChunkSound(c, line, rest, env);
    } else {
      var chunk, left := FirstChunkSound(c, line, rest, env);
      var more;
      more, end := ChunkedSound(Config(left, AfterChunk(c.ctx, chunk.data)), env);
      chunks := [chunk] + more;
      assert chunks[1..] == more;
      Associates(EncodeChunk(chunk), Encode(more, end), Parse(c, env).1.buf);
      BodyExtends(c.ctx, chunk.data, Payload(more));
    }
  }

  lemma LastChunkSound(c: Config, line: string, rest: string, env: Env)
    requires AtChunkSize(c.ctx) && Parse(c, env).0 == Success && c.buf == line + CRLF + rest
    requires SizeText(line, 0)
    ensures ValidEnding(ZeroChunk(line), env)
    ensures c.buf == Encode([], ZeroChunk(line)) + Parse(c, env).1.buf
    ensures BodyDone(c.ctx, Parse(c, env).1.ctx, Payload([]))
  {
    ReadsSize(line, rest);
    ZeroChunkSound(c, rest, env);
    CutAt(rest, 0);
    Associates(line + CRLF, CRLF, rest[2..]);
    EndingSound(c, ZeroChunk(line), rest[2..], env);
  }

  lemma FirstChunkSound(c: Config, line: string, rest: string, env: Env) returns (chunk: Chunk, left: string)
    requires AtChunkSize(c.ctx) && Parse(c, env).0 == Success && c.buf == line + CRLF + rest
    requires SizeText(line, Strtol16(CString(line))) && Strtol16(CString(line)) != 0
    ensures chunk.line == line && SizeText(line, |chunk.data|) && chunk.data != []
    ensures c.buf == EncodeChunk(chunk) + left && |left| < |c.buf|
    ensures AtChunkSize(AfterChunk(c.ctx, chunk.data))
    ensures Parse(c, env) == Parse(Config(left, AfterChunk(c.ctx, chunk.data)), env)
  {
    var size := Strtol16(CString(line));
    ReadsSize(line, rest);
    DataChunkSound(c, size, rest, env);
    chunk, left := Chunk(line, rest[..size]), rest[size..][2..];
    CutAt(rest, size);
    ChunkLayout(chunk, left);
    OneChunk(c.ctx, chunk, left, env);
  }

  lemma EndingSound(c: Config, end: Ending, rest: string, env: Env)
    requires AtChunkSize(c.ctx) && ValidEnding(end, env) && c.buf == EncodeEnding(end) + rest
    ensures c.buf == Encode([], end) + Parse(c, env).1.buf
    ensures BodyDone(c.ctx, Parse(c, env).1.ctx, Payload([]))
  {
    EndingDecodes(c.ctx, end, rest, env);
  }
}
