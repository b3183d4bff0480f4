/** Whole responses delivered in fragments: a condition on the cuts alone that makes resuming safe. */
module HttpDelivery {
  import opened Bytes
  import opened HttpResponse
  import opened HttpResume
  import opened HttpMessages
  import opened HttpHead

  /** The buffer does not end inside a line terminator. */
  predicate EndsWell(buf: string) {
    buf == [] || buf[|buf| - 1] != CR
  }

  /** A complete header line shows a name and its separator. */
  predicate LineSeparated(c: Config) {
    c.ctx.state.Headers? && Hit(c.buf, CRLF) && Find(c.buf, CRLF) > 0
    ==> 0 < Find(c.buf, KEYVAL_SEPARATOR) <= Find(c.buf, CRLF) - 2
  }

  /** Every header line met by a call on `c` shows a name and its separator. */
  predicate WellSeparated(c: Config, env: Env)
    requires c.Valid()
    decreases |c.buf|, 3 - Rank(c.ctx)
  {
    && LineSeparated(c)
    && match Step(c, env)
       case Done(_, _) => true
       case Continue(next) => StepProgress(c, env); WellSeparated(next, env)
  }

  lemma {:induction false} ContentSeparated(c: Config, env: Env)
    requires c.Valid() && c.ctx.state.Content?
    ensures WellSeparated(c, env)
    decreases |c.buf|, 3 - Rank(c.ctx)
  {
    var o := Step(c, env);
    if o.Continue? {
      StepProgress(c, env);
      StepAdvances(c, env);
      ContentSeparated(o.next, env);
    }
  }

  /** A step leaves a suffix of the buffer. */
  lemma StepLeavesSuffix(c: Config, env: Env)
    requires c.Valid() && EndsWell(c.buf) && Step(c, env).Continue?
    ensures EndsWell(Step(c, env).next.buf)
  {
    match c.ctx.state {
      case Content => ContentLeavesSuffix(c, env);
      case Headers => HeaderLeavesSuffix(c, env);
      case _ => StatusLeavesSuffix(c, env);
    }
  }

  predicate Suffix(s: string, t: string) {
    |s| <= |t| && s == t[|t| - |s|..]
  }

  lemma SuffixEndsWell(s: string, t: string)
    requires Suffix(s, t) && EndsWell(t)
    ensures EndsWell(s)
  {
  }

  lemma SkipLeavesSuffix(s: string, t: string, n: nat)
    requires Suffix(s, t)
    ensures Suffix(Skip(s, n), t)
  {
  }

  lemma StatusLeavesSuffix(c: Config, env: Env)
    requires c.Valid() && EndsWell(c.buf) && !c.ctx.state.Content? && !c.ctx.state.Headers? && Step(c, env).Continue?
    ensures EndsWell(Step(c, env).next.buf)
  {
    var s := Skip(c.buf, 9);
    var rest := ReadCode(s).rest;
    CodeLeavesSuffix(s);
    SuffixEndsWell(s, c.buf);
    SuffixEndsWell(rest, s);
    assert Step(c, env).next.buf == rest;
  }

  lemma CodeLeavesSuffix(s: string)
    requires ReadCode(s).Code?
    ensures Suffix(ReadCode(s).rest, s)
  {
    var line := s[4..];
    assert Suffix(line, s);
    SkipLeavesSuffix(line, s, Find(line, CRLF) + 2);
  }

  lemma HeaderLeavesSuffix(c: Config, env: Env)
    requires c.Valid() && EndsWell(c.buf) && c.ctx.state.Headers? && Step(c, env).Continue?
    ensures EndsWell(Step(c, env).next.buf)
  {
    var e := Find(c.buf, CRLF);
    if e == 0 {
      SkipLeavesSuffix(c.buf, c.buf, 2);
      SuffixEndsWell(Skip(c.buf, 2), c.buf);
    } else {
      var rest := c.buf[e..];
      assert Suffix(rest, c.buf);
      SkipLeavesSuffix(rest, c.buf, Find(rest, CRLF) + 2);
      SuffixEndsWell(Skip(rest, Find(rest, CRLF) + 2), c.buf);
    }
  }

  lemma ContentLeavesSuffix(c: Config, env: Env)
    requires c.Valid() && EndsWell(c.buf) && c.ctx.state.Content? && Step(c, env).Continue?
    ensures EndsWell(Step(c, env).next.buf)
  {
    if c.ctx.chunkState.ChunkSize? {
      var line := ReadSize(c.buf);
      if line.Size? {
        assert Suffix(line.rest, c.buf);
        SkipLeavesSuffix(line.rest, c.buf, 2);
        SuffixEndsWell(Skip(line.rest, 2), c.buf);
        SuffixEndsWell(line.rest, c.buf);
      }
    }
  }

  lemma EndsWellNeverBreaks(c: Config, future: string, env: Env)
    requires c.Valid() && EndsWell(c.buf) && LineSeparated(c.Plus(future))
    ensures !Breaks(c, env)
  {
    TornIsTrailingCr(c.buf);
    if c.ctx.state.Headers? && Hit(c.buf, CRLF) && Find(c.buf, CRLF) > 0 {
      HitExtends(c.buf, CRLF, future);
      MissExtends(c.buf, KEYVAL_SEPARATOR, future);
    }
  }

  /** A torn line is the only faulty one that shows a name and a separator. */
  lemma SeparatedIsDefined(c: Config, env: Env)
    requires c.Valid() && LineSeparated(c) && !Torn(c.buf, CRLF)
    ensures Step(c, env).Done? ==> Step(c, env).rc != Undefined
  {
    StepFaultsExactly(c, env);
  }

  lemma HeadStepLocal(c: Config, future: string, env: Env)
    requires c.Valid() && env.capacity >= MIN_CAPACITY && !c.ctx.state.Content? && EndsWell(c.buf)
    requires LineSeparated(c.Plus(future)) && !Breaks(c, env) && Step(c, env).Continue?
    ensures Step(c.Plus(future), env) == Continue(Step(c, env).next.Plus(future))
  {
    TornIsTrailingCr(c.buf);
    HitExtends(c.buf, CRLF, future);
    StepLocal(c, future, env);
    SeparatedIsDefined(c.Plus(future), env);
  }

  /** A prefix that ends well is clean, and what it leaves is again followed by a well separated rest. */
  lemma {:induction false} PrefixClean(c: Config, future: string, env: Env)
    requires c.Valid() && env.capacity >= MIN_CAPACITY && EndsWell(c.buf) && WellSeparated(c.Plus(future), env)
    ensures Clean(c, env)
    ensures var r := Parse(c, env); r.0 == NeedMoreData ==> EndsWell(r.1.buf) && WellSeparated(r.1.Plus(future), env)
    decreases |c.buf|, 3 - Rank(c.ctx)
  {
    EndsWellNeverBreaks(c, future, env);
    var o := Step(c, env);
    if o.Continue? {
      StepProgress(c, env);
      StepLeavesSuffix(c, env);
      if c.ctx.state.Content? {
        StepAdvances(c, env);
        ContentSeparated(o.next.Plus(future), env);
      } else {
        HeadStepLocal(c, future, env);
      }
      PrefixClean(o.next, future, env);
    }
  }

  predicate GoodCuts(fragments: seq<string>) {
    forall i | 0 <= i < |fragments| - 1 :: EndsWell(fragments[i])
  }

  lemma AppendEndsWell(a: string, b: string)
    requires EndsWell(a) && EndsWell(b)
    ensures EndsWell(a + b)
  {
  }

  lemma {:induction false} GoodCutsFeedClean(c: Config, fragments: seq<string>, env: Env)
    requires c.Valid() && env.capacity >= MIN_CAPACITY && EndsWell(c.buf) && GoodCuts(fragments)
    requires WellSeparated(c.Plus(Concat(fragments)), env)
    ensures CleanFeed(c, fragments, env)
    decreases |fragments|
  {
    if fragments != [] {
      PrefixClean(c, Concat(fragments), env);
      var r := Parse(c, env);
      if r.0 == NeedMoreData && |fragments| > 1 {
        AppendEndsWell(r.1.buf, fragments[0]);
        PlusTwice(r.1, fragments[0], Concat(fragments[1..]));
        GoodCutsFeedClean(r.1.Plus(fragments[0]), fragments[1..], env);
      }
    }
  }

  // ---- valid responses are well separated -------------------------------------------------------------

  lemma FieldSeparated(f: HeaderField, rest: string)
    requires ValidField(f)
    ensures var s := FieldText(f) + CRLF + rest;
      Find(s, CRLF) == |FieldText(f)| && Find(s, KEYVAL_SEPARATOR) == |f.name|
  {
    LineEnd(FieldText(f), rest);
    FieldLayout(f, rest);
    HitExtends(f.name + KEYVAL_SEPARATOR, KEYVAL_SEPARATOR, f.value + CRLF + rest);
  }

  lemma {:induction false} FieldLinesSeparated(ctx: Context, fields: seq<HeaderField>, rest: string, env: Env)
    requires ctx.Valid() && ctx.state.Headers? && ValidFields(fields)
    ensures WellSeparated(Config(FieldLines(fields) + (CRLF + rest), ctx), env)
    decreases |fields|
  {
    var c := Config(FieldLines(fields) + (CRLF + rest), ctx);
    if fields == [] {
      assert c.buf == CRLF + rest;
      SkipsLineEnd(rest);
      BlankLineStep(c, rest, env);
      ContentSeparated(Config(rest, ctx.(state := Content)), env);
    } else {
      var more := FieldLines(fields[1..]) + (CRLF + rest);
      Associates(FieldText(fields[0]) + CRLF, FieldLines(fields[1..]), CRLF + rest);
      FieldSeparated(fields[0], more);
      FieldStep(c, fields[0], more, env);
      var r := ProcessField(ctx, fields[0]);
      if r.Accepted? {
        FieldLinesSeparated(r.ctx, fields[1..], rest, env);
      }
    }
  }

  lemma ResponseSeparated(r: Response, state: State, content: string, env: Env)
    requires ValidResponse(r, state, env)
    ensures WellSeparated(Config(EncodeHead(r) + content, Fresh(state)), env)
  {
    var c := Config(EncodeHead(r) + content, Fresh(state));
    Associates(EncodeStatus(r.status), EncodeFields(r.fields), content);
    StatusStep(c, r.status, EncodeFields(r.fields) + content, env);
    Associates(FieldLines(r.fields), CRLF, content);
    FieldLinesSeparated(StartContext(r), r.fields, content, env);
  }

  /**
   A valid response, cut anywhere except right behind a carriage return, is delivered whole as soon as the announced
   content is there.
   */
  lemma FragmentsDeliver(r: Response, state: State, rest: string, fragments: seq<string>, env: Env)
    requires ValidResponse(r, state, env) && Framed(r) && env.capacity >= MIN_CAPACITY
    requires Concat(fragments) == Sent(r, rest) && GoodCuts(fragments)
    ensures var out := Feed(Config([], Fresh(state)), fragments, env);
      if Complete(r, rest) then Delivered(r, rest, out)
      else out == (NeedMoreData, Config(r.body.content + rest, ContentContext(r)))
  {
    var c := Config([], Fresh(state));
    assert c.Plus(Sent(r, rest)) == Config(Sent(r, rest), Fresh(state));
    ResponseSeparated(r, state, EncodeBody(r.body) + rest, env);
    GoodCutsFeedClean(c, fragments, env);
    SplitInvariance(c, fragments, env);
    ResponseParses(r, state, rest, env);
  }
}
