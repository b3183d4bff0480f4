/** Which bytes make the header parser leave the defined behaviour of C. */
module HttpFaults {
  import opened Bytes
  import opened CLib
  import opened HttpResponse
  import opened HttpMessages
  import opened HttpHead
  import opened HttpDelivery
  import opened HttpCuts
  import opened HttpReception

  /** A buffer whose header lines all show a name and a separator is read without fault. */
  lemma {:induction false} SeparatedNeverFaults(c: Config, env: Env)
    requires c.Valid() && WellSeparated(c, env) && EndsWell(c.buf)
    ensures Parse(c, env).0 != Undefined
    decreases |c.buf|, 3 - Rank(c.ctx)
  {
    TornIsTrailingCr(c.buf);
    SeparatedIsDefined(c, env);
    if Step(c, env).Continue? {
      StepProgress(c, env);
      StepLeavesSuffix(c, env);
      SeparatedNeverFaults(Step(c, env).next, env);
    }
  }

  /** A response up to some header line: a status line and whole fields, read into the context `HeadSoFar`. */
  function HeadSoFar(status: StatusText, fields: seq<HeaderField>): HeaderResult {
    ProcessAll(Fresh(Headers).(httpCode := Atoi(CString(status.digits))), fields)
  }

  lemma ReachesLine(status: StatusText, fields: seq<HeaderField>, tail: string, env: Env)
    requires ValidStatus(status, Initial) && ValidFields(fields) && HeadSoFar(status, fields).Accepted?
    ensures var ctx := HeadSoFar(status, fields).ctx;
      && ctx.Valid() && ctx.state.Headers?
      && Parse(Config(EncodeStatus(status) + (FieldLines(fields) + tail), Fresh(Initial)), env) == Parse(Config(tail, ctx), env)
  {
    StatusStep(Config(EncodeStatus(status) + (FieldLines(fields) + tail), Fresh(Initial)), status, FieldLines(fields) + tail, env);
    FieldLinesParse(Fresh(Headers).(httpCode := Atoi(CString(status.digits))), fields, tail, env);
  }

  /** The line has no separator, not even the beginning of one. */
  predicate Unseparated(text: string) {
    text != [] && IsLine(text) && Find(text + CRLF, KEYVAL_SEPARATOR) == |text| + 2
  }

  /**
   A response with a header line without separator: the call is undefined exactly if a separator, or a colon at the
   very end, follows within reach of the name buffer; otherwise it is an error.
   */
  lemma MissingSeparator(status: StatusText, fields: seq<HeaderField>, text: string, rest: string, env: Env)
    requires ValidStatus(status, Initial) && ValidFields(fields) && HeadSoFar(status, fields).Accepted?
    requires Unseparated(text)
    ensures var tail := text + CRLF + rest;
      var sep := Find(tail, KEYVAL_SEPARATOR);
      Parse(Config(EncodeStatus(status) + (FieldLines(fields) + tail), Fresh(Initial)), env).0 ==
        if sep < |tail| && sep < HDR_BUFFER_SIZE then Undefined else Error
  {
    var tail := text + CRLF + rest;
    var ctx := HeadSoFar(status, fields).ctx;
    ReachesLine(status, fields, tail, env);
    LineEnd(text, rest);
    MissExtends(text + CRLF, KEYVAL_SEPARATOR, rest);
    assert Step(Config(tail, ctx), env) == HeaderLine(Config(tail, ctx), env);
  }

  lemma EmptyNameFaults(c: Config, value: string, rest: string, env: Env)
    requires c.Valid() && c.ctx.state.Headers? && IsLine(KEYVAL_SEPARATOR + value)
    requires c.buf == KEYVAL_SEPARATOR + value + CRLF + rest
    ensures Faulty(c, env) <==> |c.buf| >= env.capacity
  {
    LineEnd(KEYVAL_SEPARATOR + value, rest);
    FindIs(c.buf, KEYVAL_SEPARATOR, 0);
  }

  lemma LineThenRest(line: string, rest: string, n: nat)
    requires |line| + 2 <= n <= |line + CRLF + rest|
    ensures (line + CRLF + rest)[..n] == line + CRLF + rest[..n - |line| - 2]
  {
  }

  /**
   A header line with an empty name that starts a read of its own: what comes before it, in one read, leaves the ring
   empty, and the call after the next read is undefined at the line exactly if that read fills the ring.
   */
  lemma EmptyName(status: StatusText, fields: seq<HeaderField>, value: string, rest: string, env: Env)
    requires ValidStatus(status, Initial) && ValidFields(fields) && HeadSoFar(status, fields).Accepted?
    requires IsLine(KEYVAL_SEPARATOR + value) && |value| + 4 <= env.capacity
    requires |EncodeStatus(status) + FieldLines(fields)| <= env.capacity
    ensures var before, tail := EncodeStatus(status) + FieldLines(fields), KEYVAL_SEPARATOR + value + CRLF + rest;
      var out := Receive(Config([], Fresh(Initial)), [], [before, tail], env);
      var c := Config(tail[..Min(|tail|, env.capacity)], HeadSoFar(status, fields).ctx);
      && c.Valid() && out == Receive(Config([], c.ctx), [], [tail], env)
      && (Faulty(c, env) <==> |tail| >= env.capacity)
      && (|tail| >= env.capacity ==> out.answer == Parsed(Undefined))
  {
    var before, line := EncodeStatus(status) + FieldLines(fields), KEYVAL_SEPARATOR + value;
    var tail := line + CRLF + rest;
    var n := Min(|tail|, env.capacity);
    var d := Config([], HeadSoFar(status, fields).ctx);
    ReachesLine(status, fields, [], env);
    assert FieldLines(fields) + [] == FieldLines(fields) && [] + before == before;
    NoCrNoLine([]);
    TwoReads(Config([], Fresh(Initial)), before, tail, d, env);
    LineThenRest(line, rest, n);
    var c := Config(tail[..n], d.ctx);
    EmptyNameFaults(c, value, rest[..n - |line| - 2], env);
    StepFaultsExactly(c, env);
    OneRead(d, tail, env);
    assert d.Plus(tail[..n]) == c;
  }

  lemma EmptyNameBytes(status: StatusText, rest: string)
    requires status == StatusText(RESP_PROTO, "200", "OK")
    ensures EncodeStatus(status) + FieldLines([]) == "HTTP/1.1 200 OK\r\n"
    ensures KEYVAL_SEPARATOR + "x" + CRLF + rest == ": x\r\n" + rest
  {
  }

  /** One that does it on the program's ring. */
  lemma EmptyNameResponse(rest: string, env: Env)
    requires |rest| >= RX_BUFFER_SIZE == env.capacity
    ensures Receive(Config([], Fresh(Initial)), [], ["HTTP/1.1 200 OK\r\n", ": x\r\n" + rest], env).answer == Parsed(Undefined)
  {
    var status := StatusText(RESP_PROTO, "200", "OK");
    CodeTwoHundred();
    NoCrIsLine("OK");
    NoCrIsLine(KEYVAL_SEPARATOR + "x");
    EmptyNameBytes(status, rest);
    EmptyName(status, [], "x", rest, env);
  }

  lemma FooIsUnseparated()
    ensures Unseparated("foo")
    ensures Find("foo" + CRLF + "bar: x\r\n\r\n", KEYVAL_SEPARATOR) == 8
  {
    NoCrIsLine("foo");
    FirstColon("foo" + CRLF, 5);
    FirstColon("foo" + CRLF + "bar: x\r\n\r\n", 8);
  }

  /** One response that does it. */
  lemma FaultyResponse(env: Env)
    ensures Parse(Config("HTTP/1.1 200 OK\r\nfoo\r\nbar: x\r\n\r\n", Fresh(Initial)), env).0 == Undefined
  {
    var status := StatusText(RESP_PROTO, "200", "OK");
    CodeTwoHundred();
    NoCrIsLine("OK");
    FooIsUnseparated();
    MissingSeparator(status, [], "foo", "bar: x\r\n\r\n", env);
    FaultyBytes(status);
  }

  lemma FaultyBytes(status: StatusText)
    requires status == StatusText(RESP_PROTO, "200", "OK")
    ensures EncodeStatus(status) + (FieldLines([]) + ("foo" + CRLF + "bar: x\r\n\r\n"))
         == "HTTP/1.1 200 OK\r\nfoo\r\nbar: x\r\n\r\n"
  {
  }
}
