/** What the receiving loop makes of a response, whatever the reads bring and however small the ring is. */
module HttpReceived {
  import opened Bytes
  import opened CLib
  import opened HttpResponse
  import opened HttpMessages
  import opened HttpHead
  import opened HttpCuts
  import opened HttpTears
  import opened HttpReception

  // ---- the unfinished line ------------------------------------------------------------------------------

  /** What the parser keeps of a header block that has not come to its end: the unfinished line. */
  function PartOfBlock(fields: seq<HeaderField>, a: string): string
    decreases |fields|
  {
    if fields == [] then a
    else
      var line := FieldText(fields[0]) + CRLF;
      if |a| < |line| then a else PartOfBlock(fields[1..], a[|line|..])
  }

  function PartOfHead(r: Response, a: string): string {
    var line := EncodeStatus(r.status);
    if |a| < |line| then a else PartOfBlock(r.fields, a[|line|..])
  }

  lemma LineWaits(ctx: Context, text: string, a: string, env: Env)
    requires ctx.Valid() && !ctx.state.Content? && CR !in text
    requires a <= text + CRLF && |a| < |text| + 2 && a != text + [CR]
    ensures Parse(Config(a, ctx), env) == (NeedMoreData, Config(a, ctx))
  {
    PrefixOfSum(a, text, CRLF);
    assert |a| == |text| + 1 ==> a == text + [CR];
    PrefixWithoutCr(a, text);
    NoCrNoLine(a);
  }

  lemma {:induction false} BlockWaits(ctx: Context, fields: seq<HeaderField>, body: Body, a: string, env: Env)
    requires InHeaders(ctx) && ValidFields(fields) && PlainFields(fields) && ProcessAll(ctx, fields).Accepted?
    requires a <= FieldLines(fields) + CRLF && |a| < |FieldLines(fields)| + 2 && !TearsBlock(fields, body, a)
    ensures var out := Parse(Config(a, ctx), env); out.0 == NeedMoreData && out.1.buf == PartOfBlock(fields, a)
    decreases |fields|
  {
    if fields == [] {
      assert FieldLines(fields) + CRLF == [] + CRLF;
      LineWaits(ctx, [], a, env);
    } else {
      var line := FieldText(fields[0]) + CRLF;
      Associates(line, FieldLines(fields[1..]), CRLF);
      PrefixOfSum(a, line, FieldLines(fields[1..]) + CRLF);
      if |a| < |line| {
        LineWaits(ctx, FieldText(fields[0]), a, env);
      } else {
        var t := a[|line|..];
        OneField(ctx, fields[0], t, env);
        BlockWaits(ProcessField(ctx, fields[0]).ctx, fields[1..], body, t, env);
      }
    }
  }

  /** A proper part of the head that tears no line: the parser waits with the unfinished line. */
  lemma HeadWaits(r: Response, state: State, a: string, env: Env)
    requires Acceptable(r, state, env) && NoBareCr(r)
    requires a <= EncodeHead(r) && |a| < |EncodeHead(r)| && !Tears(r, a)
    ensures var out := Parse(Config(a, Fresh(state)), env); out.0 == NeedMoreData && out.1.buf == PartOfHead(r, a)
  {
    var line := EncodeStatus(r.status);
    StatusWithoutCr(r.status, state);
    PrefixOfSum(a, line, EncodeFields(r.fields));
    if |a| < |line| {
      LineWaits(Fresh(state), StatusLineText(r.status), a, env);
    } else {
      StatusParses(r.status, state, a[|line|..], env);
      BlockWaits(StartContext(r), r.fields, r.body, a[|line|..], env);
    }
  }

  // ---- does the response fit? ---------------------------------------------------------------------------

  predicate FieldsFit(fields: seq<HeaderField>, capacity: nat) {
    forall i | 0 <= i < |fields| :: |FieldText(fields[i])| + 2 <= capacity
  }

  /** The ring can hold every line of the head. */
  predicate LinesFit(r: Response, capacity: nat) {
    |EncodeStatus(r.status)| <= capacity && FieldsFit(r.fields, capacity)
  }

  /** The ring can hold every line of the head, and content that is not chunked. */
  predicate Fits(r: Response, capacity: nat) {
    LinesFit(r, capacity) && (r.body.PlainBody? ==> HeadContext(r).ctx.contentLength <= capacity)
  }

  lemma {:induction false} PartFitsBlock(fields: seq<HeaderField>, a: string, capacity: nat)
    requires FieldsFit(fields, capacity) && capacity >= 2 && |a| < |FieldLines(fields)| + 2
    ensures |PartOfBlock(fields, a)| < capacity
    decreases |fields|
  {
    if fields != [] {
      var line := FieldText(fields[0]) + CRLF;
      if |a| >= |line| {
        PartFitsBlock(fields[1..], a[|line|..], capacity);
      }
    }
  }

  lemma PartFits(r: Response, a: string, capacity: nat)
    requires LinesFit(r, capacity) && |a| < |EncodeHead(r)|
    ensures |PartOfHead(r, a)| < capacity
  {
    var line := EncodeStatus(r.status);
    assert |line| >= 2;
    if |a| >= |line| {
      PartFitsBlock(r.fields, a[|line|..], capacity);
    }
  }

  /** A chunked body that waits for more leaves room: the source checks it where the line may be long. */
  lemma {:induction false} ChunkedWaits(c: Config, env: Env)
    requires c.Valid() && c.ctx.state.Content? && c.ctx.Chunked() && env.capacity >= 2
    ensures Parse(c, env).0 == NeedMoreData ==> |Parse(c, env).1.buf| < env.capacity
    decreases |c.buf|, 3 - Rank(c.ctx)
  {
    var o := Step(c, env);
    if o.Continue? {
      StepProgress(c, env);
      ChunkedStays(c, env);
      ChunkedWaits(o.next, env);
    }
  }

  lemma ChunkedStays(c: Config, env: Env)
    requires c.Valid() && c.ctx.state.Content? && c.ctx.Chunked() && Step(c, env).Continue?
    ensures Step(c, env).next.ctx.state.Content? && Step(c, env).next.ctx.Chunked()
  {
  }

  /** As long as a response that fits is not torn, a parser that waits for more has room for it. */
  lemma RoomLeft(r: Response, state: State, rest: string, a: string, env: Env)
    requires Acceptable(r, state, env) && NoBareCr(r) && Fits(r, env.capacity)
    requires a <= Sent(r, rest) && !Tears(r, a)
    ensures var out := Parse(Config(a, Fresh(state)), env); out.0 == NeedMoreData ==> |out.1.buf| < env.capacity
  {
    var head := EncodeHead(r);
    PrefixOfSum(a, head, EncodeBody(r.body) + rest);
    if |a| < |head| {
      HeadWaits(r, state, a, env);
      PartFits(r, a, env.capacity);
    } else {
      var c := Config(a[|head|..], ContentContext(r));
      HeadParses(r, state, c.buf, env);
      assert |EncodeStatus(r.status)| >= 2;
      if r.body.ChunkedBody? {
        ChunkedWaits(c, env);
      } else {
        PlainContent(c, env);
      }
    }
  }

  // ---- responses that do not fit ------------------------------------------------------------------------

  lemma MisfitIsLater(fields: seq<HeaderField>, capacity: nat)
    requires !FieldsFit(fields, capacity) && |FieldText(fields[0])| + 2 <= capacity
    ensures !FieldsFit(fields[1..], capacity)
  {
    var i :| 0 <= i < |fields| && |FieldText(fields[i])| + 2 > capacity;
    assert fields[1..][i - 1] == fields[i];
  }

  /** Where the first field line that does not fit comes to its end. */
  function BlockMisfit(fields: seq<HeaderField>, capacity: nat): (n: nat)
    requires !FieldsFit(fields, capacity)
    ensures capacity < n <= |FieldLines(fields)|
    decreases |fields|
  {
    var line := |FieldText(fields[0])| + 2;
    if line > capacity then line
    else MisfitIsLater(fields, capacity); line + BlockMisfit(fields[1..], capacity)
  }

  function Misfit(r: Response, capacity: nat): (n: nat)
    requires !LinesFit(r, capacity)
    ensures n < |EncodeHead(r)|
  {
    var line := |EncodeStatus(r.status)|;
    if line > capacity then line else line + BlockMisfit(r.fields, capacity)
  }

  lemma {:induction false} BlockStuck(fields: seq<HeaderField>, a: string, f: string, capacity: nat)
    requires !FieldsFit(fields, capacity) && |a| < BlockMisfit(fields, capacity)
    requires |PartOfBlock(fields, a)| + |f| <= capacity
    ensures |a + f| < BlockMisfit(fields, capacity)
    decreases |fields|
  {
    var line := FieldText(fields[0]) + CRLF;
    if |a| >= |line| {
      MisfitIsLater(fields, capacity);
      BlockStuck(fields[1..], a[|line|..], f, capacity);
    }
  }

  /** A read that the ring has room for does not bring the end of a line that does not fit. */
  lemma Stuck(r: Response, a: string, f: string, capacity: nat)
    requires !LinesFit(r, capacity) && |a| < Misfit(r, capacity) && |PartOfHead(r, a)| + |f| <= capacity
    ensures |a + f| < Misfit(r, capacity)
  {
    var line := EncodeStatus(r.status);
    if |a| >= |line| {
      BlockStuck(r.fields, a[|line|..], f, capacity);
    }
  }

  /** No read behind the bytes `first` ends inside a line terminator of the response. */
  predicate Untorn(r: Response, first: string, got: seq<string>) {
    forall i | 0 <= i <= |got| :: !Tears(r, first + Concat(got[..i]))
  }

  lemma UntornRest(r: Response, first: string, f: string, more: seq<string>)
    requires Untorn(r, first, [f] + more)
    ensures !Tears(r, first) && !Tears(r, first + f) && Untorn(r, first + f, more)
  {
    var got := [f] + more;
    assert got[..0] == [] && first + [] == first;
    assert !Tears(r, first + Concat(got[..0]));
    forall i | 0 <= i <= |more|
      ensures !Tears(r, first + f + Concat(more[..i]))
    {
      assert got[..i + 1] == [f] + more[..i];
      ConcatCons(f, more[..i]);
      Associates(first, f, Concat(more[..i]));
      assert !Tears(r, first + Concat(got[..i + 1]));
    }
    assert more[..0] == [] && first + f + [] == first + f;
    assert !Tears(r, first + f + Concat(more[..0]));
  }

  /** A line that does not fit fills the ring, and the next read fails. */
  lemma {:induction false} MisfitFails(
    r: Response, state: State, rest: string, first: string, c: Config, left: string, arrivals: seq<string>, env: Env)
    requires Acceptable(r, state, env) && NoBareCr(r) && !LinesFit(r, env.capacity)
    requires first + (left + Concat(arrivals)) == Sent(r, rest) && |first| < Misfit(r, env.capacity)
    requires c.Valid() && Parse(Config(first, Fresh(state)), env) == (NeedMoreData, c)
    requires !Tears(r, first) && Untorn(r, first, Reads(c, left, arrivals, env))
    ensures Receive(c, left, arrivals, env).answer == ReadError
    decreases |arrivals|, |left|
  {
    PrefixOfSum(first, EncodeHead(r), EncodeBody(r.body) + rest);
    HeadWaits(r, state, first, env);
    if (left != [] || arrivals != []) && |c.buf| < env.capacity {
      var waiting, later := Waiting(left, arrivals), Later(arrivals);
      var n := Fitting(c, waiting, env);
      var f, more := waiting[..n], waiting[n..] + Concat(later);
      WaitingBytes(left, arrivals, n);
      Associates(first, f, more);
      Stuck(r, first, f, env.capacity);
      var d := Parse(c.Plus(f), env);
      UntornRest(r, first, f, if d.0 != NeedMoreData then [] else Reads(d.1, waiting[n..], later, env));
      UntornSeamless(r, state, rest, first, f, env);
      PrefixOfSum(first + f, EncodeHead(r), EncodeBody(r.body) + rest);
      HeadWaits(r, state, first + f, env);
      MisfitFails(r, state, rest, first + f, d.1, waiting[n..], later, env);
    }
  }

  /** Content that is not chunked is a success only if all of it is in the ring. */
  lemma {:induction false} PlainSuccess(c: Config, env: Env)
    requires c.Valid() && Parse(c, env).0 == Success && !Parse(c, env).1.ctx.Chunked()
    ensures var d := Parse(c, env).1; d.ctx.dontWaitForContent || |d.buf| >= d.ctx.contentLength
    decreases |c.buf|, 3 - Rank(c.ctx)
  {
    if Step(c, env).Continue? {
      StepProgress(c, env);
      PlainSuccess(Step(c, env).next, env);
    }
  }

  lemma {:induction false} PlainReceived(c: Config, left: string, arrivals: seq<string>, env: Env)
    requires c.Valid()
    ensures var out := Receive(c, left, arrivals, env);
      out.answer == Parsed(Success) && !out.config.ctx.Chunked()
      ==> out.config.ctx.dontWaitForContent || |out.config.buf| >= out.config.ctx.contentLength
    decreases |arrivals|, |left|
  {
    if (left != [] || arrivals != []) && |c.buf| < env.capacity {
      var waiting, later := Waiting(left, arrivals), Later(arrivals);
      var n := Fitting(c, waiting, env);
      var d := c.Plus(waiting[..n]);
      if Parse(d, env).0 == NeedMoreData {
        PlainReceived(Parse(d, env).1, waiting[n..], later, env);
      } else if Parse(d, env).0 == Success && !Parse(d, env).1.ctx.Chunked() {
        PlainSuccess(d, env);
      }
    }
  }

  // ---- the main result ----------------------------------------------------------------------------------

  /** The loop has answered with success, and status code, header table and content are the sender's. */
  predicate Arrived(r: Response, rest: string, out: Reception) {
    out.answer == Parsed(Success) && Delivered(r, rest, out.Outcome())
  }

  lemma UntornIsUntornCuts(r: Response, got: seq<string>, unread: string)
    ensures Untorn(r, [], got) <==> UntornCuts(r, [], got + [unread])
  {
    forall i | 0 <= i <= |got|
      ensures (got + [unread])[..i] == got[..i]
    {
    }
    if Untorn(r, [], got) {
      forall i | 0 <= i < |got + [unread]|
        ensures !Tears(r, [] + Concat((got + [unread])[..i]))
      {
        assert !Tears(r, [] + Concat(got[..i]));
      }
    }
    if UntornCuts(r, [], got + [unread]) {
      forall i | 0 <= i <= |got|
        ensures !Tears(r, [] + Concat(got[..i]))
      {
        assert !Tears(r, [] + Concat((got + [unread])[..i]));
      }
    }
  }

  lemma FreshWaits(state: State, env: Env)
    requires !state.Content?
    ensures Parse(Config([], Fresh(state)), env) == (NeedMoreData, Config([], Fresh(state)))
  {
    NoCrNoLine([]);
  }

  /** A response that fits and is not torn finds room for every read. */
  lemma AlwaysRoom(r: Response, state: State, rest: string, arrivals: seq<string>, env: Env)
    requires Acceptable(r, state, env) && NoBareCr(r) && Concat(arrivals) == Sent(r, rest) && Fits(r, env.capacity)
    requires Untorn(r, [], Reads(Config([], Fresh(state)), [], arrivals, env))
    ensures !Receive(Config([], Fresh(state)), [], arrivals, env).answer.ReadError?
  {
    var c := Config([], Fresh(state));
    var got, out := Reads(c, [], arrivals, env), Receive(c, [], arrivals, env);
    FreshWaits(state, env);
    ReceiveFeeds(c, [], arrivals, env);
    assert [] + Concat(arrivals) == Concat(arrivals);
    assert Concat(got) <= Sent(r, rest);
    assert UntornCuts(r, [], got);
    UntornFeed(r, state, rest, got, env);
    assert got[..|got|] == got && [] + Concat(got) == Concat(got);
    assert !Tears(r, [] + Concat(got[..|got|]));
    RoomLeft(r, state, rest, Concat(got), env);
  }

  /** A response that does not fit is not received. */
  lemma NoFitNoSuccess(r: Response, state: State, rest: string, arrivals: seq<string>, env: Env)
    requires Acceptable(r, state, env) && NoBareCr(r) && Concat(arrivals) == Sent(r, rest) && !Fits(r, env.capacity)
    requires Untorn(r, [], Reads(Config([], Fresh(state)), [], arrivals, env))
    ensures !Arrived(r, rest, Receive(Config([], Fresh(state)), [], arrivals, env))
  {
    var c := Config([], Fresh(state));
    FreshWaits(state, env);
    if !LinesFit(r, env.capacity) {
      var got := Reads(c, [], arrivals, env);
      assert got[..0] == [] && [] + Concat(got[..0]) == [];
      assert !Tears(r, [] + Concat(got[..0]));
      assert [] + ([] + Concat(arrivals)) == Concat(arrivals);
      MisfitFails(r, state, rest, [], c, [], arrivals, env);
    } else {
      ReceiveInRing(c, [], arrivals, env);
      PlainReceived(c, [], arrivals, env);
      ContextUntouched(StartContext(r), r.fields);
    }
  }

  /** Of a response that is not torn and fits, the loop waits for what is missing. */
  lemma IncompleteTimesOut(r: Response, state: State, rest: string, arrivals: seq<string>, env: Env)
    requires Acceptable(r, state, env) && NoBareCr(r) && Concat(arrivals) == Sent(r, rest)
    ensures var c := Config([], Fresh(state));
      Untorn(r, [], Reads(c, [], arrivals, env)) && Fits(r, env.capacity) && !Complete(r, rest)
      ==> Receive(c, [], arrivals, env).answer == TimedOut
  {
    var c := Config([], Fresh(state));
    var out, got := Receive(c, [], arrivals, env), Reads(c, [], arrivals, env);
    if Untorn(r, [], got) && Fits(r, env.capacity) && !Complete(r, rest) {
      FreshWaits(state, env);
      ReceiveFeeds(c, [], arrivals, env);
      ReceiveFeedsAll(c, arrivals, env);
      UntornIsUntornCuts(r, got, out.Unread());
      UntornFeed(r, state, rest, AllReads(c, arrivals, env), env);
      ResponseParses(r, state, rest, env);
      AlwaysRoom(r, state, rest, arrivals, env);
    }
  }

  /**
   The receiving loop delivers a response if and only if no read ends between CR and LF of the status line, of a header
   line, of the blank line or of the size line of a chunk with data, every line of the head fits into the ring, and so
   does the announced length, if there is one, all of whose bytes come. A complete response that is not torn and does
   not fit ends in a read error.
   */
  lemma ReceivedExactly(r: Response, state: State, rest: string, arrivals: seq<string>, env: Env)
    requires Acceptable(r, state, env) && NoBareCr(r) && Concat(arrivals) == Sent(r, rest)
    ensures var c := Config([], Fresh(state));
      var out, untorn := Receive(c, [], arrivals, env), Untorn(r, [], Reads(c, [], arrivals, env));
      && (Arrived(r, rest, out) <==> untorn && Fits(r, env.capacity) && Complete(r, rest))
      && (untorn && !Fits(r, env.capacity) && Complete(r, rest) ==> out.answer == ReadError)
  {
    var c := Config([], Fresh(state));
    var out, got := Receive(c, [], arrivals, env), Reads(c, [], arrivals, env);
    FreshWaits(state, env);
    ReceiveFeedsAll(c, arrivals, env);
    UntornIsUntornCuts(r, got, out.Unread());
    FragmentsDeliverExactly(r, state, rest, AllReads(c, arrivals, env), env);
    if Untorn(r, [], got) {
      if Fits(r, env.capacity) {
        AlwaysRoom(r, state, rest, arrivals, env);
      } else {
        NoFitNoSuccess(r, state, rest, arrivals, env);
      }
    }
  }

  // ---- a response longer than the ring ------------------------------------------------------------------

  lemma FullRing(c: Config, b: string, env: Env)
    requires c.Valid() && c.buf == [] && 0 < env.capacity < |b|
    requires Parse(c.Plus(b[..env.capacity]), env) == (NeedMoreData, c.Plus(b[..env.capacity]))
    ensures Receive(c, [], [b], env).answer == ReadError
  {
    OneRead(c, b, env);
    assert b[env.capacity..] != [];
  }

  /** Content that the ring cannot hold is waited for until the ring is full. */
  lemma LongContentFillsRing(c: Config, content: string, env: Env)
    requires c.Valid() && c.buf == [] && c.ctx.state.Content? && !c.ctx.Chunked() && !c.ctx.dontWaitForContent
    requires 0 < env.capacity < c.ctx.contentLength <= |content|
    ensures Parse(c, env) == (NeedMoreData, c) && Receive(c, [], [content], env).answer == ReadError
  {
    PlainContent(c, env);
    PlainContent(c.Plus(content[..env.capacity]), env);
    FullRing(c, content, env);
  }

  /** A response whose length exceeds the ring, its head and its content in one read each: the loop fails. */
  lemma LongContentFails(r: Response, state: State, env: Env)
    requires ValidResponse(r, state, env) && Framed(r) && r.body.PlainBody?
    requires |EncodeHead(r)| <= env.capacity < HeadContext(r).ctx.contentLength <= |r.body.content|
    ensures Receive(Config([], Fresh(state)), [], [EncodeHead(r), r.body.content], env).answer == ReadError
  {
    var d := Config([], ContentContext(r));
    HeadParses(r, state, [], env);
    ContextUntouched(StartContext(r), r.fields);
    assert EncodeHead(r) + [] == EncodeHead(r) && [] + EncodeHead(r) == EncodeHead(r);
    LongContentFillsRing(d, r.body.content, env);
    TwoReads(Config([], Fresh(state)), EncodeHead(r), r.body.content, d, env);
  }

  lemma LengthIsRead(value: string)
    requires value == "16385"
    ensures ToInt32(Str2u(CString(value))) == 16385
  {
    LengthText(value);
    NoNulIsCString(value);
    Int32ReadsDecimal(value, 16385);
  }

  lemma LengthText(value: string)
    requires value == "16385"
    ensures value == Decimal(16385)
  {
    assert Decimal(16) == "16" && Decimal(163) == "163" && Decimal(1638) == "1638";
  }

  /** One length field and nothing else. */
  lemma LengthFraming(r: Response, f: HeaderField, n: nat)
    requires r.fields == [f] && IsLength(f) && ToInt32(Str2u(CString(f.value))) == n
    ensures HeadContext(r).Accepted? && HeadContext(r).ctx.contentLength == n
  {
    var p := ProcessField(StartContext(r), f);
    assert r.fields[0] == f && r.fields[1..] == [];
    FieldEffect(StartContext(r), f);
    assert ProcessAll(p.ctx, r.fields[1..]) == Accepted(p.ctx);
  }

  lemma LengthLine(f: HeaderField)
    requires f == HeaderField("content-length", "16385")
    ensures ValidField(f)
  {
    NoCrIsLine(FieldText(f));
    FirstColon(f.name + KEYVAL_SEPARATOR, |f.name|);
  }

  lemma LongLines(status: StatusText, f: HeaderField)
    requires status == StatusText(RESP_PROTO, "200", "OK") && f == HeaderField("content-length", "16385")
    ensures ValidStatus(status, Initial) && ValidField(f) && IsLength(f)
  {
    CodeTwoHundred();
    NoCrIsLine(status.reason);
    LengthLine(f);
    NoNulIsCString(f.name);
  }

  lemma LongBytes(r: Response, f: HeaderField)
    requires r.status == StatusText(RESP_PROTO, "200", "OK")
    requires r.fields == [f] && f == HeaderField("content-length", "16385")
    ensures EncodeHead(r) == "HTTP/1.1 200 OK\r\n" + ("content-length: 16385\r\n" + "\r\n")
  {
    assert r.fields[1..] == [];
    assert EncodeStatus(r.status) == "HTTP/1.1 200 OK\r\n";
    assert FieldLines(r.fields) == FieldText(f) + CRLF == "content-length: 16385\r\n";
  }

  lemma LengthContentFails(r: Response, f: HeaderField, n: nat, env: Env)
    requires ValidStatus(r.status, Initial) && r.fields == [f] && ValidField(f) && r.body.PlainBody?
    requires IsLength(f) && ToInt32(Str2u(CString(f.value))) == n
    requires |EncodeHead(r)| <= env.capacity < n <= |r.body.content|
    ensures Receive(Config([], Fresh(Initial)), [], [EncodeHead(r), r.body.content], env).answer == ReadError
  {
    LengthFraming(r, f, n);
    LongContentFails(r, Initial, env);
  }

  /** One that the program's ring of 16384 bytes cannot take. */
  lemma LongResponse(content: string, env: Env)
    requires |content| == 16385 && env.capacity == RX_BUFFER_SIZE
    ensures Receive(Config([], Fresh(Initial)), [],
                    ["HTTP/1.1 200 OK\r\n" + ("content-length: 16385\r\n" + "\r\n"), content], env).answer == ReadError
  {
    var status, f := StatusText(RESP_PROTO, "200", "OK"), HeaderField("content-length", "16385");
    var r := Response(status, [f], PlainBody(content));
    LongLines(status, f);
    LengthIsRead(f.value);
    LongBytes(r, f);
    LengthContentFails(r, f, 16385, env);
  }
}
