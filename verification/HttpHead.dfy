/** Status line, header block and message framing, up to whole responses. */
module HttpHead {
  import opened Bytes
  import opened CLib
  import opened HttpResponse
  import opened HttpMessages

  datatype HeaderField = HeaderField(name: string, value: string)

  // ---- framing: what a sequence of fields decides about the body ----------------------------------

  /** `process_http_hdr` over the fields of a block, in order. */
  function ProcessAll(ctx: Context, fields: seq<HeaderField>): HeaderResult
    decreases |fields|
  {
    if fields == [] then Accepted(ctx)
    else
      var r := ProcessField(ctx, fields[0]);
      if r.Rejected? then r else ProcessAll(r.ctx, fields[1..])
  }

  function ProcessField(ctx: Context, f: HeaderField): HeaderResult {
    ProcessHeader(ctx, LowerCase(CString(f.name)), CString(f.value))
  }

  /** The field has this name, in upper or lower case. */
  predicate Named(f: HeaderField, name: string) {
    EqualUpToCase(CString(f.name), name)
  }

  predicate IsLength(f: HeaderField) {
    Named(f, "content-length")
  }

  predicate IsChunked(f: HeaderField) {
    Named(f, "transfer-encoding") && CString(f.value) == "chunked"
  }

  ghost predicate HasLength(fields: seq<HeaderField>) {
    exists i | 0 <= i < |fields| :: IsLength(fields[i])
  }

  function ChunkedCount(fields: seq<HeaderField>): nat {
    if fields == [] then 0 else (if IsChunked(fields[0]) then 1 else 0) + ChunkedCount(fields[1..])
  }

  /** The value the first Content-Length field stands for, as a 32-bit integer. */
  function FirstLength(fields: seq<HeaderField>): int {
    if fields == [] then NO_CONTENT_LENGTH
    else if IsLength(fields[0]) then ToInt32(Str2u(CString(fields[0].value)))
    else FirstLength(fields[1..])
  }

  /** The framing a block stands for: the first length, else the chunked coding, else none. */
  ghost function Framing(fields: seq<HeaderField>): int {
    if HasLength(fields) then FirstLength(fields)
    else if ChunkedCount(fields) == 1 then TRANSFER_ENCODING_CHUNKED
    else NO_CONTENT_LENGTH
  }

  lemma NameIs(f: HeaderField, name: string)
    requires NoUpperCase(name)
    ensures LowerCase(CString(f.name)) == name <==> Named(f, name)
  {
    LowerIs(CString(f.name), name);
  }

  /** Fields that differ in the case of their names only are the same field. */
  lemma CaseDoesNotMatter(ctx: Context, f: HeaderField, g: HeaderField)
    requires EqualUpToCase(CString(f.name), CString(g.name)) && CString(f.value) == CString(g.value)
    ensures ProcessField(ctx, f) == ProcessField(ctx, g)
  {
    LowerMeans(CString(f.name), CString(g.name));
  }

  lemma FieldEffect(ctx: Context, f: HeaderField)
    ensures var r := ProcessField(ctx, f);
      && r.ctx == ctx.(contentLength := r.ctx.contentLength, headers := r.ctx.headers)
      && (if IsLength(f) && ctx.contentLength < 0 then
            && r.Accepted? == (ctx.contentLength == NO_CONTENT_LENGTH && ToInt32(Str2u(CString(f.value))) >= 0)
            && (r.Accepted? ==> r.ctx.contentLength == ToInt32(Str2u(CString(f.value))))
          else if IsChunked(f) then
            && r.Accepted? == (ctx.contentLength == NO_CONTENT_LENGTH)
            && (r.Accepted? ==> r.ctx.contentLength == TRANSFER_ENCODING_CHUNKED)
          else
            r.Accepted? && r.ctx.contentLength == ctx.contentLength)
  {
    NameIs(f, "content-length");
    NameIs(f, "transfer-encoding");
    assert "content-length"[0] != "transfer-encoding"[0];
  }

  /** A length, whatever the case of its name, is a 32-bit integer; one above the range is refused. */
  lemma LengthRecognised(ctx: Context, f: HeaderField, n: nat)
    requires ctx.contentLength == NO_CONTENT_LENGTH && IsLength(f) && CString(f.value) == Decimal(n)
    ensures ProcessField(ctx, f).Accepted? <==> n % 0x1_0000_0000 < 0x8000_0000
    ensures ProcessField(ctx, f).Accepted? ==> ProcessField(ctx, f).ctx.contentLength == n % 0x1_0000_0000
  {
    Int32ReadsDecimal(CString(f.value), n);
    FieldEffect(ctx, f);
  }

  /** Once the length is known, later lengths are ignored and chunked coding is refused. */
  lemma {:induction false} AfterLength(ctx: Context, fields: seq<HeaderField>)
    requires ctx.contentLength >= 0
    ensures var r := ProcessAll(ctx, fields);
      r.Accepted? == (ChunkedCount(fields) == 0) && (r.Accepted? ==> r.ctx.contentLength == ctx.contentLength)
    decreases |fields|
  {
    if fields != [] {
      FieldEffect(ctx, fields[0]);
      var r := ProcessField(ctx, fields[0]);
      if r.Accepted? {
        AfterLength(r.ctx, fields[1..]);
      }
    }
  }

  lemma HasLengthCons(fields: seq<HeaderField>)
    requires fields != []
    ensures HasLength(fields) <==> IsLength(fields[0]) || HasLength(fields[1..])
  {
    if HasLength(fields) && !IsLength(fields[0]) {
      var i :| 0 <= i < |fields| && IsLength(fields[i]);
      assert IsLength(fields[1..][i - 1]);
    }
    if HasLength(fields[1..]) {
      var i :| 0 <= i < |fields[1..]| && IsLength(fields[1..][i]);
      assert IsLength(fields[i + 1]);
    }
  }

  /** Once the coding is chunked, a second such field or any length is refused. */
  lemma {:induction false} AfterChunked(ctx: Context, fields: seq<HeaderField>)
    requires ctx.contentLength == TRANSFER_ENCODING_CHUNKED
    ensures var r := ProcessAll(ctx, fields);
      && r.Accepted? == (ChunkedCount(fields) == 0 && !HasLength(fields))
      && (r.Accepted? ==> r.ctx.contentLength == TRANSFER_ENCODING_CHUNKED)
    decreases |fields|
  {
    if fields != [] {
      FieldEffect(ctx, fields[0]);
      HasLengthCons(fields);
      var r := ProcessField(ctx, fields[0]);
      if r.Accepted? {
        AfterChunked(r.ctx, fields[1..]);
      }
    }
  }

  /**
   Which header blocks are accepted, and the framing they leave: -1 without framing fields, -2 for one
   chunked coding and no length, and the first length otherwise. Both kinds together are refused in
   either order, whatever lies between; a repeated length is not.
   */
  lemma {:induction false} FramingExact(ctx: Context, fields: seq<HeaderField>)
    requires ctx.contentLength == NO_CONTENT_LENGTH
    ensures var r := ProcessAll(ctx, fields);
      && r.Accepted? == (if HasLength(fields) then ChunkedCount(fields) == 0 && FirstLength(fields) >= 0
                         else ChunkedCount(fields) <= 1)
      && (r.Accepted? ==> r.ctx.contentLength == Framing(fields))
    decreases |fields|
  {
    if fields != [] {
      FieldEffect(ctx, fields[0]);
      HasLengthCons(fields);
      var r := ProcessField(ctx, fields[0]);
      if r.Accepted? {
        if r.ctx.contentLength == NO_CONTENT_LENGTH {
          FramingExact(r.ctx, fields[1..]);
        } else if r.ctx.contentLength >= 0 {
          AfterLength(r.ctx, fields[1..]);
        } else {
          AfterChunked(r.ctx, fields[1..]);
        }
      }
    }
  }

  // ---- the header table ---------------------------------------------------------------------------

  /** A name that takes no part in the framing. */
  predicate Ordinary(key: string) {
    NoUpperCase(key) && key != "content-length" && key != "transfer-encoding"
  }

  lemma FieldTable(ctx: Context, f: HeaderField, key: string)
    requires Ordinary(key) && ProcessField(ctx, f).Accepted?
    ensures var table := ProcessField(ctx, f).ctx.headers;
      if Named(f, key) then key in table && table[key] == CString(f.value)
      else (key in table <==> key in ctx.headers) && (key in table ==> table[key] == ctx.headers[key])
  {
    NameIs(f, key);
  }

  predicate NoneNamed(fields: seq<HeaderField>, key: string) {
    forall i | 0 <= i < |fields| :: !Named(fields[i], key)
  }

  lemma {:induction false} TableKeeps(ctx: Context, fields: seq<HeaderField>, key: string)
    requires Ordinary(key) && ProcessAll(ctx, fields).Accepted? && NoneNamed(fields, key)
    ensures var table := ProcessAll(ctx, fields).ctx.headers;
      (key in table <==> key in ctx.headers) && (key in table ==> table[key] == ctx.headers[key])
    decreases |fields|
  {
    if fields != [] {
      FieldTable(ctx, fields[0], key);
      TableKeeps(ProcessField(ctx, fields[0]).ctx, fields[1..], key);
    }
  }

  /** The table holds the last value sent under each ordinary name, in upper or lower case, and no other name. */
  lemma {:induction false} TableExact(ctx: Context, fields: seq<HeaderField>, key: string, i: nat)
    requires Ordinary(key) && ProcessAll(ctx, fields).Accepted? && key !in ctx.headers
    ensures NoneNamed(fields, key) ==> key !in ProcessAll(ctx, fields).ctx.headers
    ensures i < |fields| && Named(fields[i], key) && NoneNamed(fields[i + 1..], key) ==>
      var table := ProcessAll(ctx, fields).ctx.headers; key in table && table[key] == CString(fields[i].value)
  {
    if NoneNamed(fields, key) {
      TableKeeps(ctx, fields, key);
    }
    if i < |fields| && Named(fields[i], key) && NoneNamed(fields[i + 1..], key) {
      TableLast(ctx, fields, key, i);
    }
  }

  lemma {:induction false} TableLast(ctx: Context, fields: seq<HeaderField>, key: string, i: nat)
    requires Ordinary(key) && ProcessAll(ctx, fields).Accepted?
    requires i < |fields| && Named(fields[i], key) && NoneNamed(fields[i + 1..], key)
    ensures var table := ProcessAll(ctx, fields).ctx.headers; key in table && table[key] == CString(fields[i].value)
    decreases |fields|
  {
    var next := ProcessField(ctx, fields[0]).ctx;
    if i == 0 {
      FieldTable(ctx, fields[0], key);
      TableKeeps(next, fields[1..], key);
    } else {
      assert fields[1..][i..] == fields[i + 1..];
      TableLast(next, fields[1..], key, i - 1);
    }
  }

  // ---- the header block as bytes ------------------------------------------------------------------

  function FieldText(f: HeaderField): string {
    f.name + KEYVAL_SEPARATOR + f.value
  }

  /** A field with a name that fits the line buffers and whose first separator is the one after the name. */
  predicate ValidField(f: HeaderField) {
    && 0 < |f.name| < HDR_BUFFER_SIZE && |f.value| < HDR_BUFFER_SIZE
    && IsLine(FieldText(f))
    && Find(f.name + KEYVAL_SEPARATOR, KEYVAL_SEPARATOR) == |f.name|
  }

  predicate ValidFields(fields: seq<HeaderField>) {
    forall i | 0 <= i < |fields| :: ValidField(fields[i])
  }

  /** The fields, each ended by a line terminator. */
  function FieldLines(fields: seq<HeaderField>): string {
    if fields == [] then [] else FieldText(fields[0]) + CRLF + FieldLines(fields[1..])
  }

  /** The header block: the fields and the empty line. */
  function EncodeFields(fields: seq<HeaderField>): string {
    FieldLines(fields) + CRLF
  }

  lemma FieldLayout(f: HeaderField, rest: string)
    ensures var s := FieldText(f) + CRLF + rest;
      && s == f.name + KEYVAL_SEPARATOR + (f.value + CRLF + rest)
      && s[..|f.name|] == f.name
      && s[|f.name| + 2..|FieldText(f)|] == f.value
      && s[|FieldText(f)|..] == CRLF + rest
  {
    var s := FieldText(f) + CRLF + rest;
    assert s == f.name + KEYVAL_SEPARATOR + (f.value + CRLF + rest);
  }

  lemma SplitsField(f: HeaderField, rest: string, capacity: nat)
    requires ValidField(f)
    ensures var s := FieldText(f) + CRLF + rest;
      Find(s, CRLF) == |FieldText(f)| && SplitField(s, |FieldText(f)|, capacity) == Field(f.name, f.value, CRLF + rest)
  {
    LineEnd(FieldText(f), rest);
    FieldLayout(f, rest);
    HitExtends(f.name + KEYVAL_SEPARATOR, KEYVAL_SEPARATOR, f.value + CRLF + rest);
  }

  lemma FieldStep(c: Config, f: HeaderField, rest: string, env: Env)
    requires c.Valid() && c.ctx.state.Headers? && ValidField(f) && c.buf == FieldText(f) + CRLF + rest
    ensures var r := ProcessField(c.ctx, f);
      Step(c, env) == if r.Rejected? then Done(Error, Config(CRLF + rest, r.ctx)) else Continue(Config(rest, r.ctx))
  {
    SplitsField(f, rest, env.capacity);
    SkipsLineEnd(rest);
    assert Step(c, env) == TakeField(Field(f.name, f.value, CRLF + rest), c.ctx);
  }

  /**
   A whole header line is taken exactly if its first separator lies inside it, name and value fit their buffers, an empty
   name does not start a full ring, and the field is accepted. Then the line and its end are consumed.
   */
  lemma HeaderExactly(c: Config, env: Env)
    requires c.Valid() && c.ctx.state.Headers? && Hit(c.buf, CRLF) && Find(c.buf, CRLF) > 0
    ensures var e, sep, o := Find(c.buf, CRLF), Find(c.buf, KEYVAL_SEPARATOR), Step(c, env);
      && (o.Continue? <==>
           && sep + 2 <= e && sep < 1024 && e - sep - 2 < 1024 && !(sep == 0 && |c.buf| >= env.capacity)
           && ProcessField(c.ctx, HeaderField(c.buf[..sep], c.buf[sep + 2..e])).Accepted?)
      && (o.Continue? ==>
           o.next == Config(c.buf[e + 2..], ProcessField(c.ctx, HeaderField(c.buf[..sep], c.buf[sep + 2..e])).ctx))
  {
    var e := Find(c.buf, CRLF);
    SplitExactly(c.buf, e, env.capacity);
    assert Step(c, env) == TakeField(SplitField(c.buf, e, env.capacity), c.ctx);
    LineRest(c.buf);
    SkipsLineEnd(c.buf[e + 2..]);
  }

  lemma SplitExactly(buf: string, e: nat, capacity: nat)
    requires e + 2 <= |buf|
    ensures var sep, f := Find(buf, KEYVAL_SEPARATOR), SplitField(buf, e, capacity);
      && (f.Field? <==> sep + 2 <= e && sep < 1024 && e - sep - 2 < 1024 && !(sep == 0 && |buf| >= capacity))
      && (f.Field? ==> f == Field(buf[..sep], buf[sep + 2..e], buf[e..]))
  {
  }

  lemma LineRest(buf: string)
    requires Hit(buf, CRLF)
    ensures var e := Find(buf, CRLF); buf[e..] == CRLF + buf[e + 2..]
  {
    var e := Find(buf, CRLF);
    HitIsOccurrence(buf, CRLF);
    assert buf[e..] == buf[e..e + 2] + buf[e + 2..];
  }

  lemma SkipsLineEnd(rest: string)
    ensures Find(CRLF + rest, CRLF) == 0 && Skip(CRLF + rest, 2) == rest
  {
    NoCrIsLine("");
    LineEnd("", rest);
    assert "" + CRLF + rest == CRLF + rest;
  }

  lemma BlankLineStep(c: Config, rest: string, env: Env)
    requires c.Valid() && c.ctx.state.Headers? && c.buf == CRLF + rest
    ensures Step(c, env) == Continue(Config(rest, c.ctx.(state := Content)))
  {
    SkipsLineEnd(rest);
  }

  /** Parsing field lines is folding `process_http_hdr` over the fields. */
  lemma {:induction false} FieldLinesParse(ctx: Context, fields: seq<HeaderField>, rest: string, env: Env)
    requires ctx.Valid() && ctx.state.Headers? && ValidFields(fields)
    ensures var p := ProcessAll(ctx, fields);
      var r := Parse(Config(FieldLines(fields) + rest, ctx), env);
      if p.Rejected? then r.0 == Error
      else p.ctx.Valid() && p.ctx.state.Headers? && r == Parse(Config(rest, p.ctx), env)
    decreases |fields|
  {
    if fields == [] {
      assert FieldLines(fields) + rest == rest;
    } else {
      var c := Config(FieldLines(fields) + rest, ctx);
      var more := FieldLines(fields[1..]) + rest;
      Associates(FieldText(fields[0]) + CRLF, FieldLines(fields[1..]), rest);
      FieldStep(c, fields[0], more, env);
      var r := ProcessField(ctx, fields[0]);
      if r.Accepted? {
        FieldLinesParse(r.ctx, fields[1..], rest, env);
      }
    }
  }

  /** A header block ends with the blank line, which opens the content. */
  lemma HeaderBlock(ctx: Context, fields: seq<HeaderField>, rest: string, env: Env)
    requires ctx.Valid() && ctx.state.Headers? && ValidFields(fields)
    ensures var p := ProcessAll(ctx, fields);
      var r := Parse(Config(EncodeFields(fields) + rest, ctx), env);
      if p.Rejected? then r.0 == Error
      else p.ctx.(state := Content).Valid() && r == Parse(Config(rest, p.ctx.(state := Content)), env)
  {
    Associates(FieldLines(fields), CRLF, rest);
    FieldLinesParse(ctx, fields, CRLF + rest, env);
    var p := ProcessAll(ctx, fields);
    if p.Accepted? {
      BlankLineStep(Config(CRLF + rest, p.ctx), rest, env);
    }
  }

  // ---- status line ----------------------------------------------------------------------------------

  /** A status line: protocol, three digits, a space and any reason. */
  datatype StatusText = StatusText(proto: string, digits: string, reason: string)

  predicate ValidStatus(s: StatusText, state: State) {
    && (s.proto == RESP_PROTO || (state.ProxyConnect? && s.proto == RESP_PROTO10))
    && |s.digits| == 3 && 100 <= Atoi(CString(s.digits)) < 600
    && IsLine(s.reason)
  }

  function EncodeStatus(s: StatusText): string {
    s.proto + (s.digits + " " + s.reason + CRLF)
  }

  /** Everything behind the protocol. */
  function CodeText(s: StatusText, rest: string): string {
    s.digits + " " + (s.reason + CRLF + rest)
  }

  lemma CodeLayout(digits: string, after: string)
    requires |digits| == 3
    ensures var buf := digits + " " + after;
      |buf| >= 4 && buf[4..] == after && buf[..4][3] == ' ' && buf[..4][..3] == digits
  {
  }

  lemma ReadsCode(s: StatusText, state: State, rest: string)
    requires ValidStatus(s, state)
    ensures ReadCode(CodeText(s, rest)) == Code(Atoi(CString(s.digits)), rest)
  {
    var after := s.reason + CRLF + rest;
    CodeLayout(s.digits, after);
    SkipsLine(s.reason, rest);
    assert ReadCode(CodeText(s, rest)) == JudgeCode(CodeText(s, rest)[..4], after);
  }

  lemma SkipsLine(text: string, rest: string)
    requires IsLine(text)
    ensures Skip(text + CRLF + rest, Find(text + CRLF + rest, CRLF) + 2) == rest
  {
    LineEnd(text, rest);
  }

  lemma LineIsThere(a: string, rest: string)
    ensures var s := a + CRLF + rest; Find(s, CRLF) < |s|
  {
    var s := a + CRLF + rest;
    assert s[|a|..|a| + 2] == CRLF;
    OccurrenceIsHit(s, CRLF, |a|);
  }

  lemma StatusLayout(s: StatusText, rest: string)
    ensures EncodeStatus(s) + rest == s.proto + CodeText(s, rest)
    ensures EncodeStatus(s) + rest == s.proto + s.digits + " " + s.reason + CRLF + rest
  {
  }

  lemma ProtoLayout(proto: string, after: string)
    requires |proto| == 9
    ensures Agrees(proto + after, proto) && Skip(proto + after, 9) == after
  {
  }

  lemma ReadsStatus(s: StatusText, state: State, rest: string)
    requires ValidStatus(s, state)
    ensures ReadStatus(EncodeStatus(s) + rest, state.ProxyConnect?) == Code(Atoi(CString(s.digits)), rest)
  {
    StatusLayout(s, rest);
    ProtoLayout(s.proto, CodeText(s, rest));
    ReadsCode(s, state, rest);
  }

  lemma StatusStep(c: Config, s: StatusText, rest: string, env: Env)
    requires c.Valid() && (c.ctx.state.Initial? || c.ctx.state.ProxyConnect?) && ValidStatus(s, c.ctx.state)
    requires c.buf == EncodeStatus(s) + rest
    ensures Step(c, env) == Continue(Config(rest, c.ctx.(httpCode := Atoi(CString(s.digits)), state := Headers)))
  {
    StatusLayout(s, rest);
    LineIsThere(s.proto + s.digits + " " + s.reason, rest);
    ReadsStatus(s, c.ctx.state, rest);
    assert Step(c, env) == StatusLine(c);
  }

  lemma BytesBeforeLineEnd(buf: string, proto: string)
    requires Find(buf, CRLF) < |buf| && CR !in proto && Agrees(buf, proto)
    ensures proto <= buf
  {
    FindSpec(buf, CRLF);
    var e := Find(buf, CRLF);
    assert buf[e..][0] == CR == buf[e];
    assert forall i | 0 <= i < |proto| :: proto[i] in proto;
    assert buf[..|proto|] == proto;
  }

  lemma AgreesIsPrefix(buf: string, proto: string)
    requires Find(buf, CRLF) < |buf| && CR !in proto
    ensures Agrees(buf, proto) <==> proto <= buf
  {
    if Agrees(buf, proto) {
      BytesBeforeLineEnd(buf, proto);
    }
  }

  /**
   A status line is taken exactly if it starts with the protocol, HTTP/1.0 being good for a proxy, followed by a code
   from 100 to 599 in three bytes and a space; every other line is an error.
   */
  lemma StatusExactly(c: Config, env: Env)
    requires c.Valid() && (c.ctx.state.Initial? || c.ctx.state.ProxyConnect?) && Find(c.buf, CRLF) < |c.buf|
    ensures var buf, o := c.buf, Step(c, env);
      && (o.Continue? <==>
           && ("HTTP/1.1 " <= buf || (c.ctx.state.ProxyConnect? && "HTTP/1.0 " <= buf))
           && |buf| >= 13 && buf[12] == ' ' && 100 <= Atoi(CString(buf[9..12])) < 600)
      && (o.Done? ==> o.rc == Error)
      && (o.Continue? ==> o.next.ctx == c.ctx.(httpCode := Atoi(CString(buf[9..12])), state := Headers))
  {
    var buf := c.buf;
    AgreesIsPrefix(buf, RESP_PROTO);
    AgreesIsPrefix(buf, RESP_PROTO10);
    assert Step(c, env) == StatusLine(c);
    if |buf| >= 9 {
      var s := buf[9..];
      assert Skip(buf, 9) == s;
      CodeAt(s);
      if |s| >= 4 {
        assert s[3] == buf[12] && s[..3] == buf[9..12];
      }
    }
  }

  lemma CodeAt(s: string)
    ensures ReadCode(s).Code? <==> |s| >= 4 && s[3] == ' ' && 100 <= Atoi(CString(s[..3])) < 600
    ensures ReadCode(s).Code? ==> ReadCode(s).code == Atoi(CString(s[..3]))
  {
    var n := Min(4, |s|);
    assert ReadCode(s) == JudgeCode(s[..n], s[n..]);
    if |s| >= 4 {
      assert s[..4][..3] == s[..3] && s[..4][3] == s[3];
    }
  }

  // ---- whole responses --------------------------------------------------------------------------------

  /** The content of a response: chunks and what ends them, or bytes as they are. */
  datatype Body = ChunkedBody(chunks: seq<Chunk>, end: Ending) | PlainBody(content: string)

  function EncodeBody(body: Body): string {
    match body
    case ChunkedBody(chunks, end) => Encode(chunks, end)
    case PlainBody(content) => content
  }

  predicate ValidBody(body: Body, env: Env) {
    body.ChunkedBody? ==> ValidChunks(body.chunks) && ValidEnding(body.end, env)
  }

  datatype Response = Response(status: StatusText, fields: seq<HeaderField>, body: Body)

  predicate ValidResponse(r: Response, state: State, env: Env) {
    && (state.Initial? || state.ProxyConnect?)
    && ValidStatus(r.status, state) && ValidFields(r.fields) && ValidBody(r.body, env)
  }

  function EncodeHead(r: Response): string {
    EncodeStatus(r.status) + EncodeFields(r.fields)
  }

  /** The response and what follows it on the connection. */
  function Sent(r: Response, rest: string): string {
    EncodeHead(r) + (EncodeBody(r.body) + rest)
  }

  /** The context in which the header fields are read. */
  function StartContext(r: Response): Context {
    Fresh(Headers).(httpCode := Atoi(CString(r.status.digits)))
  }

  /** The context in which the content of the response is read, short of the state. */
  function HeadContext(r: Response): HeaderResult {
    ProcessAll(StartContext(r), r.fields)
  }

  function ContentContext(r: Response): Context {
    HeadContext(r).ctx.(state := Content)
  }

  /** The header is accepted and announces the kind of content that follows. */
  predicate Framed(r: Response) {
    HeadContext(r).Accepted? && (HeadContext(r).ctx.Chunked() <==> r.body.ChunkedBody?)
  }

  /** The announced content is there. Of a chunked response it always is. */
  predicate Complete(r: Response, rest: string) {
    r.body.PlainBody? ==> |r.body.content + rest| >= HeadContext(r).ctx.contentLength
  }

  /**
   Status code and header table are the sender's. The body of a chunked response is in the context, and what follows it
   in the buffer; other content stays in the buffer.
   */
  predicate Delivered(r: Response, rest: string, out: (Rc, Config)) {
    && out.0 == Success
    && match r.body
       case ChunkedBody(chunks, _) => out.1.buf == rest && BodyDone(ContentContext(r), out.1.ctx, Payload(chunks))
       case PlainBody(content) => out.1 == Config(content + rest, ContentContext(r))
  }

  /** Status line and header block of any response, read from a fresh context. */
  lemma HeadParses(r: Response, state: State, rest: string, env: Env)
    requires ValidResponse(r, state, env)
    ensures var p := HeadContext(r);
      var out := Parse(Config(EncodeHead(r) + rest, Fresh(state)), env);
      if p.Rejected? then out.0 == Error
      else ContentContext(r).Valid() && out == Parse(Config(rest, ContentContext(r)), env)
  {
    var c := Config(EncodeHead(r) + rest, Fresh(state));
    Associates(EncodeStatus(r.status), EncodeFields(r.fields), rest);
    StatusStep(c, r.status, EncodeFields(r.fields) + rest, env);
    HeaderBlock(StartContext(r), r.fields, rest, env);
  }

  /** A chunked response: the body ends up in the context and everything after it stays in the buffer. */
  lemma ChunkedResponseParses(r: Response, state: State, rest: string, env: Env)
    requires ValidResponse(r, state, env) && Framed(r) && r.body.ChunkedBody?
    ensures Delivered(r, rest, Parse(Config(Sent(r, rest), Fresh(state)), env))
  {
    HeadParses(r, state, EncodeBody(r.body) + rest, env);
    ContextUntouched(StartContext(r), r.fields);
    ChunkedRoundTrip(ContentContext(r), r.body.chunks, r.body.end, rest, env);
  }

  /** Any other response: its content, awaited if a length was given, stays in the buffer. */
  lemma PlainResponseParses(r: Response, state: State, rest: string, env: Env)
    requires ValidResponse(r, state, env) && Framed(r) && r.body.PlainBody?
    ensures Parse(Config(Sent(r, rest), Fresh(state)), env) ==
      (if Complete(r, rest) then Success else NeedMoreData, Config(r.body.content + rest, ContentContext(r)))
  {
    HeadParses(r, state, EncodeBody(r.body) + rest, env);
    ContextUntouched(StartContext(r), r.fields);
    PlainContent(Config(r.body.content + rest, ContentContext(r)), env);
  }

  /** A response in one piece is delivered exactly if the announced content is there. */
  lemma ResponseParses(r: Response, state: State, rest: string, env: Env)
    requires ValidResponse(r, state, env) && Framed(r)
    ensures Delivered(r, rest, Parse(Config(Sent(r, rest), Fresh(state)), env)) <==> Complete(r, rest)
    ensures !Complete(r, rest) ==>
      Parse(Config(Sent(r, rest), Fresh(state)), env) == (NeedMoreData, Config(r.body.content + rest, ContentContext(r)))
  {
    if r.body.ChunkedBody? {
      ChunkedResponseParses(r, state, rest, env);
    } else {
      PlainResponseParses(r, state, rest, env);
    }
  }

  lemma PlainContent(c: Config, env: Env)
    requires c.Valid() && c.ctx.state.Content? && !c.ctx.Chunked()
    ensures Parse(c, env) ==
      (if c.ctx.dontWaitForContent || |c.buf| >= c.ctx.contentLength then Success else NeedMoreData, c)
  {
  }

  /** Header fields only ever change the framing and the header table. */
  lemma {:induction false} ContextUntouched(ctx: Context, fields: seq<HeaderField>)
    ensures var p := ProcessAll(ctx, fields);
      p.ctx == ctx.(contentLength := p.ctx.contentLength, headers := p.ctx.headers)
    decreases |fields|
  {
    if fields != [] {
      var r := ProcessField(ctx, fields[0]);
      if r.Accepted? {
        ContextUntouched(r.ctx, fields[1..]);
      }
    }
  }

  // ---- constants read back ------------------------------------------------------------------------------

  lemma FirstColon(hay: string, k: nat)
    requires k <= |hay| && ':' !in hay[..k]
    requires k < |hay| ==> k + 1 < |hay| && hay[k] == ':' && hay[k + 1] == ' '
    ensures Find(hay, KEYVAL_SEPARATOR) == k
  {
    forall i | 0 <= i < k
      ensures !Agrees(hay[i..], KEYVAL_SEPARATOR)
    {
      assert hay[i] == hay[..k][i] && hay[i..][0] == hay[i];
    }
    FindIs(hay, KEYVAL_SEPARATOR, k);
  }

  lemma CodeTwoHundred()
    ensures Atoi(CString("200")) == 200
  {
    assert "200"[1..] == "00" && "00"[1..] == "0" && "0"[1..] == "";
    assert CString("0") == "0" && CString("00") == "00" && CString("200") == "200";
    assert DigitsValue("200", 0) == DigitsValue("00", 2) == DigitsValue("0", 20) == DigitsValue("", 200);
  }
}
