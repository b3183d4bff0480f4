/**
 Resuming the parser on fragments. The promise of the source is that a response may arrive in any pieces;
 its line search accepts a carriage return that ends the buffer as a line terminator, so the promise holds
 exactly for the buffers that `Clean` describes.
 */
module HttpResume {
  import opened Bytes
  import opened CLib
  import opened HttpResponse

  /** The room the source's fixed-size line buffers need beside a line terminator. */
  const MIN_CAPACITY: nat := HDR_BUFFER_SIZE + 2

  // ---- what resuming means ----------------------------------------------------------------------

  /** After a failure the caller drops context and buffer, so only the code counts. */
  predicate Matches(a: (Rc, Config), b: (Rc, Config)) {
    a.0 == b.0 && (a.0 == Success || a.0 == NeedMoreData ==> a.1 == b.1)
  }

  /** The caller's next move once `more` bytes have arrived behind the result `r`. */
  function Resume(r: (Rc, Config), more: string, env: Env): (Rc, Config)
    requires r.0 == NeedMoreData ==> r.1.Valid()
  {
    if r.0 == NeedMoreData then Parse(r.1.Plus(more), env) else (r.0, r.1.Plus(more))
  }

  /** Going on with `more` is parsing all at once, wherever the latter has a defined result. */
  predicate Resumes(c: Config, more: string, env: Env)
    requires c.Valid()
  {
    var whole := Parse(c.Plus(more), env);
    whole.0 == Undefined || Matches(Resume(Parse(c, env), more, env), whole)
  }

  // ---- when it goes wrong -----------------------------------------------------------------------

  /** A header line is complete, and the separator search is answered by a colon that ends the buffer. */
  predicate TornSeparator(buf: string) {
    && Hit(buf, CRLF) && Find(buf, CRLF) > 0
    && Torn(buf, KEYVAL_SEPARATOR) && Find(buf, KEYVAL_SEPARATOR) < HDR_BUFFER_SIZE
  }

  /** The next line search or separator search would be answered by the end of the buffer. */
  predicate Breaks(c: Config, env: Env) {
    var Config(buf, ctx) := c;
    match ctx.state
    case ProxyConnect => Torn(buf, CRLF)
    case Initial => Torn(buf, CRLF)
    case Headers => Torn(buf, CRLF) || TornSeparator(buf)
    case Content =>
      ctx.Chunked() && ctx.chunkState.ChunkSize? && Torn(buf, CRLF)
      && (|buf| <= HDR_BUFFER_SIZE || |buf| + 1 < env.capacity)
  }

  /** A header line with an empty name, in a buffer that one more byte would fill. */
  predicate AtBrim(c: Config, env: Env) {
    && c.ctx.state.Headers? && Hit(c.buf, CRLF) && Find(c.buf, CRLF) > 0
    && Find(c.buf, KEYVAL_SEPARATOR) == 0 && |c.buf| + 1 >= env.capacity
  }

  /**
   No search of the coming call is answered by the end of the buffer, up to a line at which no longer buffer has a
   defined result.
   */
  predicate Clean(c: Config, env: Env)
    requires c.Valid()
    decreases |c.buf|, 3 - Rank(c.ctx)
  {
    && !Breaks(c, env)
    && (|| AtBrim(c, env)
        || match Step(c, env)
           case Done(_, _) => true
           case Continue(next) => StepProgress(c, env); Clean(next, env))
  }

  // ---- steps on longer buffers ------------------------------------------------------------------

  /** The same step, taken with `more` bytes behind it, or none that is defined. */
  predicate SameStep(o: Outcome, o': Outcome, more: string) {
    || (o'.Done? && o'.rc == Undefined)
    || match o
       case Continue(next) => o' == Continue(next.Plus(more))
       case Done(Success, final) => o' == Done(Success, final.Plus(more))
       case Done(rc, _) => rc == NeedMoreData || (o'.Done? && o'.rc == rc)
  }

  lemma TwoDigits(s: string)
    requires |s| <= 3
    requires |s| == 3 ==> !IsDigit(s[0]) || !IsDigit(s[1]) || !IsDigit(s[2])
    ensures DigitsValue(s, 0) < 100
  {
    if |s| > 1 && IsDigit(s[0]) && IsDigit(s[1]) {
      var d := s[0] as int - '0' as int;
      var e := d * 10 + (s[1] as int - '0' as int);
      assert s[1..][1..] == s[2..];
      assert DigitsValue(s, 0) == DigitsValue(s[1..], d) == DigitsValue(s[2..], e) == e;
    }
  }

  lemma ShortNumber(s: string)
    requires |s| <= 3
    requires |s| == 3 ==> !IsDigit(s[0]) || !IsDigit(s[1]) || !IsDigit(s[2])
    ensures Atoi(s) < 100
  {
    var t := SkipSpaces(s);
    TwoDigits(t);
    if t != [] {
      TwoDigits(t[1..]);
    }
  }

  predicate ThreeDigits(s: string) {
    |s| >= 3 && IsDigit(s[0]) && IsDigit(s[1]) && IsDigit(s[2])
  }

  /** A status code in range consists of three digits. */
  lemma StatusDigits(s: string, t: string)
    requires |s| == 3 && t == CString(s) && !ThreeDigits(s)
    ensures Atoi(t) < 100
  {
    assert |t| == 3 ==> t == s;
    ShortNumber(t);
  }

  lemma ProtoBeforeLineEnd(buf: string, proto: string)
    requires |proto| == 9 && CR !in proto && Agrees(buf, proto) && Hit(buf, CRLF)
    ensures Find(buf, CRLF) >= 9
  {
    LineEndsInCrlf(buf);
    assert forall i | 0 <= i < 9 && i < |buf| :: proto[i] == buf[i] && proto[i] in proto;
  }

  lemma LineEndsInCrlf(buf: string)
    requires Hit(buf, CRLF)
    ensures var e := Find(buf, CRLF); e + 2 <= |buf| && buf[e] == CR && buf[e + 1] == LF
  {
    HitIsOccurrence(buf, CRLF);
    var e := Find(buf, CRLF);
    assert buf[e] == buf[e..e + 2][0] && buf[e + 1] == buf[e..e + 2][1];
  }

  lemma AgreesExtends(buf: string, needle: string, more: string)
    requires |buf| >= |needle| || !Agrees(buf, needle)
    ensures Agrees(buf + more, needle) <==> Agrees(buf, needle)
  {
    assert forall i | 0 <= i < |buf| :: (buf + more)[i] == buf[i];
  }

  lemma ProtoLocal(buf: string, proxy: bool, more: string)
    requires Hit(buf, CRLF)
    ensures ProtoAccepted(buf + more, proxy) <==> ProtoAccepted(buf, proxy)
    ensures ProtoAccepted(buf, proxy) ==> Find(buf, CRLF) >= 9
  {
    if Agrees(buf, RESP_PROTO) {
      ProtoBeforeLineEnd(buf, RESP_PROTO);
    }
    AgreesExtends(buf, RESP_PROTO, more);
    if Agrees(buf, RESP_PROTO10) {
      ProtoBeforeLineEnd(buf, RESP_PROTO10);
    }
    AgreesExtends(buf, RESP_PROTO10, more);
  }

  /** A status on the longer buffer is the same status, or an error as well. */
  predicate SameStatus(s: Status, s': Status, more: string) {
    if s.Code? then s' == Code(s.code, s.rest + more) else !s'.Code?
  }

  /** Fewer than four bytes before the line terminator are never a status code. */
  lemma ShortCode(buf: string)
    requires Hit(buf, CRLF) && Find(buf, CRLF) < 4
    ensures !ReadCode(buf).Code?
  {
    LineEndsInCrlf(buf);
    if |buf| >= 4 && buf[3] == ' ' {
      var digits := buf[..4][..3];
      assert digits == buf[..3] && !ThreeDigits(digits);
      StatusDigits(digits, CString(digits));
    }
  }

  lemma CodeLocal(buf: string, more: string)
    requires Hit(buf, CRLF)
    ensures SameStatus(ReadCode(buf), ReadCode(buf + more), more)
  {
    if Find(buf, CRLF) < 4 {
      ShortCode(buf);
      HitExtends(buf, CRLF, more);
      ShortCode(buf + more);
    } else {
      assert (buf + more)[..4] == buf[..4];
      assert (buf + more)[4..] == buf[4..] + more;
      FindDrop(buf, CRLF, 4);
      var line := buf[4..];
      HitExtends(line, CRLF, more);
      assert Skip(line + more, Find(line, CRLF) + 2) == Skip(line, Find(line, CRLF) + 2) + more;
    }
  }

  lemma StatusLocal(c: Config, more: string)
    requires Hit(c.buf, CRLF)
    ensures SameStep(StatusLine(c), StatusLine(c.Plus(more)), more)
  {
    var proxy := c.ctx.state.ProxyConnect?;
    ProtoLocal(c.buf, proxy, more);
    if ProtoAccepted(c.buf, proxy) {
      FindDrop(c.buf, CRLF, 9);
      assert (c.buf + more)[9..] == c.buf[9..] + more;
      CodeLocal(c.buf[9..], more);
    }
    assert SameStatus(ReadStatus(c.buf, proxy), ReadStatus(c.buf + more, proxy), more);
  }

  lemma FieldLocal(buf: string, more: string, capacity: nat)
    requires Hit(buf, CRLF) && Find(buf, CRLF) > 0 && !TornSeparator(buf)
    ensures var f, f' := SplitField(buf, Find(buf, CRLF), capacity), SplitField(buf + more, Find(buf, CRLF), capacity);
      f'.Overrun? ||
      match f
      case Field(key, val, rest) => f' == Field(key, val, rest + more) && Hit(rest, CRLF)
      case BadField(_) => f'.BadField?
      case Overrun(_) => false
  {
    var sep := Find(buf, KEYVAL_SEPARATOR);
    if !Hit(buf, KEYVAL_SEPARATOR) || sep >= HDR_BUFFER_SIZE {
      MissExtends(buf, KEYVAL_SEPARATOR, more);
      if Hit(buf, KEYVAL_SEPARATOR) {
        HitExtends(buf, KEYVAL_SEPARATOR, more);
      }
    } else {
      HitExtends(buf, KEYVAL_SEPARATOR, more);
      FieldParts(buf, more, sep, Find(buf, CRLF));
      FindDrop(buf, CRLF, Find(buf, CRLF));
    }
  }

  /** The pieces of a line whose separator is at `sep` and whose end is at `e`, with and without what follows. */
  lemma FieldParts(buf: string, more: string, sep: nat, e: nat)
    requires sep <= |buf| && e <= |buf|
    ensures (buf + more)[..sep] == buf[..sep]
    ensures (buf + more)[e..] == buf[e..] + more
    ensures e >= sep + 2 ==> (buf + more)[sep + 2..e] == buf[sep + 2..e]
  {
  }

  lemma TakeFieldLocal(key: string, val: string, rest: string, ctx: Context, more: string)
    requires Hit(rest, CRLF)
    ensures SameStep(TakeField(Field(key, val, rest), ctx), TakeField(Field(key, val, rest + more), ctx), more)
  {
    HitExtends(rest, CRLF, more);
    var r := ProcessHeader(ctx, LowerCase(CString(key)), CString(val));
    var n := Find(rest, CRLF) + 2;
    assert (rest + more)[n..] == rest[n..] + more;
  }

  lemma HeaderLocal(c: Config, more: string, env: Env)
    requires Hit(c.buf, CRLF) && Find(c.buf, CRLF) > 0 && !TornSeparator(c.buf)
    ensures SameStep(HeaderLine(c, env), HeaderLine(c.Plus(more), env), more)
  {
    FieldLocal(c.buf, more, env.capacity);
    HitExtends(c.buf, CRLF, more);
    var f := SplitField(c.buf, Find(c.buf, CRLF), env.capacity);
    if f.Field? && !SplitField(c.buf + more, Find(c.buf, CRLF), env.capacity).Overrun? {
      TakeFieldLocal(f.key, f.val, f.rest, c.ctx, more);
    }
  }

  lemma SizeLocal(buf: string, more: string)
    requires Hit(buf, CRLF)
    ensures match ReadSize(buf)
      case NoLine => false
      case BlankLine => ReadSize(buf + more).BlankLine?
      case TooLong => ReadSize(buf + more).TooLong?
      case Size(size, rest) => ReadSize(buf + more) == Size(size, rest + more) && |rest| >= 2
  {
    var idx := Find(buf, CRLF);
    HitExtends(buf, CRLF, more);
    assert (buf + more)[..idx] == buf[..idx];
    assert (buf + more)[idx..] == buf[idx..] + more;
  }

  lemma TakeSizeLocal(line: SizeLine, line': SizeLine, c: Config, more: string, env: Env)
    requires !line.NoLine?
    requires line' == if line.Size? then Size(line.size, line.rest + more) else line
    requires line.Size? ==> |line.rest| >= 2
    ensures SameStep(TakeSize(line, c, env), TakeSize(line', c.Plus(more), env), more)
  {
    if line.Size? {
      assert (line.rest + more)[2..] == line.rest[2..] + more;
    }
  }

  /** Without a whole line the size cannot be read, and a line that has outgrown its buffer never will be. */
  lemma NoSizeLocal(buf: string, more: string, capacity: nat)
    requires !Hit(buf, CRLF) && capacity >= MIN_CAPACITY
    requires if ReadSize(buf).NoLine? then |buf| >= capacity else |buf| > HDR_BUFFER_SIZE && |buf| + 1 >= capacity
    ensures ReadSize(buf).NoLine? || ReadSize(buf).TooLong?
    ensures var line := ReadSize(buf + more);
      line.TooLong? || (line.NoLine? && |buf + more| >= capacity)
  {
    MissExtends(buf, CRLF, more);
    if more == [] {
      assert buf + more == buf;
    }
  }

  lemma ChunkSizeLocal(c: Config, more: string, env: Env)
    requires !(Torn(c.buf, CRLF) && (|c.buf| <= HDR_BUFFER_SIZE || |c.buf| + 1 < env.capacity))
    requires env.capacity >= MIN_CAPACITY
    ensures SameStep(ChunkSizeLine(c, env), ChunkSizeLine(c.Plus(more), env), more)
  {
    if Hit(c.buf, CRLF) {
      SizeLocal(c.buf, more);
      TakeSizeLocal(ReadSize(c.buf), ReadSize(c.buf + more), c, more, env);
    } else if !(ReadSize(c.buf).NoLine? && |c.buf| < env.capacity) {
      NoSizeLocal(c.buf, more, env.capacity);
    }
  }

  lemma StepLocal(c: Config, more: string, env: Env)
    requires c.Valid() && !Breaks(c, env) && env.capacity >= MIN_CAPACITY
    requires c.ctx.state.Content? && c.ctx.Chunked() && c.ctx.chunkState.ChunkData?
             ==> |c.buf| >= c.ctx.chunkSize - c.ctx.chunkGot
    ensures SameStep(Step(c, env), Step(c.Plus(more), env), more)
  {
    var Config(buf, ctx) := c;
    match ctx.state
    case Content =>
      if ctx.Chunked() {
        match ctx.chunkState
        case ChunkSize => ChunkSizeLocal(c, more, env);
        case ChunkData =>
          var n := ctx.chunkSize - ctx.chunkGot;
          assert (buf + more)[..n] == buf[..n];
          assert (buf + more)[n..] == buf[n..] + more;
        case _ =>
          if |buf| >= 2 {
            assert (buf + more)[..2] == buf[..2];
            assert (buf + more)[2..] == buf[2..] + more;
          }
      }
    case Headers =>
      if Hit(buf, CRLF) {
        HitExtends(buf, CRLF, more);
        if Find(buf, CRLF) == 0 {
          assert Skip(buf + more, 2) == Skip(buf, 2) + more;
        } else {
          HeaderLocal(c, more, env);
        }
      }
    case _ =>
      if Hit(buf, CRLF) {
        HitExtends(buf, CRLF, more);
        StatusLocal(c, more);
      }
  }

  lemma CopiedTwice(ctx: Context, a: string, b: string)
    requires ctx.chunkGot + |a| < ctx.chunkSize
    ensures Copied(Copied(ctx, a), b) == Copied(ctx, a + b)
  {
    assert ctx.body + a + b == ctx.body + (a + b);
  }

  lemma CutBehind(a: string, b: string, k: nat)
    requires k <= |b|
    ensures (a + b)[..|a| + k] == a + b[..k] && (a + b)[|a| + k..] == b[k..] && [] + b == b && a[..|a|] == a
  {
  }

  lemma CopiesAll(c: Config, n: nat)
    requires c.Valid() && c.ctx.chunkState.ChunkData? && c.buf != []
    requires n == Min(|c.buf|, c.ctx.chunkSize - c.ctx.chunkGot)
    ensures ChunkBytes(c) == Continue(Config(c.buf[n..], Copied(c.ctx, c.buf[..n])))
  {
  }

  /** Copying part of a chunk now and the rest later is copying it at once. */
  lemma CopyTwice(c: Config, d: Config, more: string)
    requires c.Valid() && d.Valid() && c.ctx.chunkState.ChunkData? && d.ctx.chunkState.ChunkData?
    requires 0 < |c.buf| < c.ctx.chunkSize - c.ctx.chunkGot && more != []
    requires d == Config([], Copied(c.ctx, c.buf))
    ensures ChunkBytes(c.Plus(more)) == ChunkBytes(d.Plus(more))
  {
    var k := Min(|more|, c.ctx.chunkSize - c.ctx.chunkGot - |c.buf|);
    CutBehind(c.buf, more, k);
    CopiesAll(c.Plus(more), |c.buf| + k);
    CopiesAll(d.Plus(more), k);
    CopiedTwice(c.ctx, c.buf, more[..k]);
  }

  lemma PartialCopy(c: Config, more: string, env: Env)
    requires c.Valid() && c.ctx.state.Content? && c.ctx.Chunked() && c.ctx.chunkState.ChunkData?
    requires 0 < |c.buf| < c.ctx.chunkSize - c.ctx.chunkGot
    ensures Step(c, env).Continue? && Step(c, env).next.buf == []
    ensures Step(c, env).next.ctx.state.Content? && Step(c, env).next.ctx.chunkState.ChunkData?
    ensures Parse(c.Plus(more), env) == Parse(Step(c, env).next.Plus(more), env)
  {
    CutBehind(c.buf, [], 0);
    CopiesAll(c, |c.buf|);
    var d := ChunkBytes(c).next;
    assert Step(c, env) == Continue(d);
    if more == [] {
      assert c.Plus(more) == c && d.Plus(more) == d;
      assert Parse(c, env) == Parse(d, env);
    } else {
      CopyTwice(c, d, more);
      SameNextParse(c.Plus(more), d.Plus(more), env);
    }
  }

  lemma SameNextParse(c: Config, d: Config, env: Env)
    requires c.Valid() && d.Valid() && Step(c, env) == Step(d, env)
    ensures Parse(c, env) == Parse(d, env)
  {
  }

  // ---- sufficiency ------------------------------------------------------------------------------

  lemma FaultStops(c: Config, env: Env)
    requires c.Valid() && Faulty(c, env)
    ensures Parse(c, env).0 == Undefined
  {
    StepFaultsExactly(c, env);
  }

  lemma BrimResumes(c: Config, more: string, env: Env)
    requires c.Valid() && AtBrim(c, env)
    ensures Resumes(c, more, env)
  {
    if more == [] {
      var r := Parse(c, env);
      assert c.Plus(more) == c && r.1.Plus(more) == r.1;
    } else {
      HitExtends(c.buf, CRLF, more);
      HitExtends(c.buf, KEYVAL_SEPARATOR, more);
      FaultStops(c.Plus(more), env);
    }
  }

  lemma {:induction false} CleanResumes(c: Config, more: string, env: Env)
    requires c.Valid() && env.capacity >= MIN_CAPACITY && Clean(c, env)
    ensures Resumes(c, more, env)
    decreases |c.buf|, 3 - Rank(c.ctx)
  {
    var ctx := c.ctx;
    if AtBrim(c, env) {
      BrimResumes(c, more, env);
    } else if ctx.state.Content? && ctx.Chunked() && ctx.chunkState.ChunkData?
       && |c.buf| < ctx.chunkSize - ctx.chunkGot {
      if c.buf != [] {
        PartialCopy(c, more, env);
      }
    } else {
      StepLocal(c, more, env);
      if Step(c, env).Continue? {
        StepProgress(c, env);
        CleanResumes(Step(c, env).next, more, env);
      }
    }
  }

  // ---- necessity --------------------------------------------------------------------------------

  function StateRank(s: State): nat {
    match s
    case ProxyConnect => 0
    case Initial => 0
    case Headers => 1
    case Content => 2
  }

  lemma StepAdvances(c: Config, env: Env)
    requires c.Valid()
    ensures match Step(c, env)
      case Continue(next) => StateRank(next.ctx.state) >= StateRank(c.ctx.state)
      case Done(_, final) => StateRank(final.ctx.state) >= StateRank(c.ctx.state)
  {
  }

  lemma {:induction false} StateOnlyAdvances(c: Config, env: Env)
    requires c.Valid()
    ensures StateRank(Parse(c, env).1.ctx.state) >= StateRank(c.ctx.state)
    decreases |c.buf|, 3 - Rank(c.ctx)
  {
    StepAdvances(c, env);
    if Step(c, env).Continue? {
      StepProgress(c, env);
      StateOnlyAdvances(Step(c, env).next, env);
    }
  }

  lemma ResumeOnlyAdvances(c: Config, more: string, env: Env)
    requires c.Valid()
    ensures StateRank(Resume(Parse(c, env), more, env).1.ctx.state) >= StateRank(c.ctx.state)
  {
    StateOnlyAdvances(c, env);
    if Parse(c, env).0 == NeedMoreData {
      StateOnlyAdvances(Parse(c, env).1.Plus(more), env);
    }
  }

  /** One more byte that is no line feed takes the torn terminator back. */
  lemma TornLineWaits(c: Config, env: Env)
    requires c.Valid() && !c.ctx.state.Content? && Torn(c.buf, CRLF)
    ensures Parse(c.Plus("a"), env) == (NeedMoreData, c.Plus("a"))
  {
    FindNothing(c.buf, CRLF, 'a');
  }

  /** A line terminator torn apart in the status line or in a header. */
  lemma TornLineBreaks(c: Config, env: Env)
    requires c.Valid() && !c.ctx.state.Content? && Torn(c.buf, CRLF)
    ensures !Resumes(c, "a", env)
  {
    TornLineWaits(c, env);
    TornLineAdvances(c, env);
  }

  lemma TornLineAdvances(c: Config, env: Env)
    requires c.Valid() && !c.ctx.state.Content? && Torn(c.buf, CRLF)
    ensures var r := Resume(Parse(c, env), "a", env);
      r.0 != NeedMoreData || StateRank(r.1.ctx.state) > StateRank(c.ctx.state)
  {
    var o := Step(c, env);
    if o.Continue? {
      if c.ctx.state.Headers? && Find(c.buf, CRLF) > 0 {
        TornHeader(c, env);
        var d := o.next;
        var e := Config("\r", d.ctx.(state := Content));
        assert Step(d, env) == Continue(e);
        ResumeOnlyAdvances(e, "a", env);
      } else {
        ResumeOnlyAdvances(o.next, "a", env);
      }
    }
  }

  lemma TornHeader(c: Config, env: Env)
    requires Torn(c.buf, CRLF) && HeaderLine(c, env).Continue?
    ensures HeaderLine(c, env).next.buf == "\r"
    ensures Find("\r", CRLF) == 0
  {
    TornIsTrailingCr(c.buf);
    TornField(c.buf, env.capacity);
    FindIs("\r", CRLF, 0);
  }

  lemma TornField(buf: string, capacity: nat)
    requires Torn(buf, CRLF) && buf[|buf| - 1] == CR
    ensures var f := SplitField(buf, Find(buf, CRLF), capacity); f.Field? ==> f.rest == "\r"
  {
    var e := Find(buf, CRLF);
    assert e == |buf| - 1;
    LastByte(buf);
  }

  lemma LastByte(s: string)
    requires s != []
    ensures s[|s| - 1..] == [s[|s| - 1]]
  {
  }

  /** One more byte that is no space takes the torn separator back; the call before it was undefined. */
  lemma TornSeparatorBreaks(c: Config, env: Env)
    requires c.Valid() && c.ctx.state.Headers? && TornSeparator(c.buf)
    ensures !Resumes(c, "a", env)
  {
    LineEndsInCrlf(c.buf);
    FaultStops(c, env);
    HitExtends(c.buf, CRLF, "a");
    FindNothing(c.buf, KEYVAL_SEPARATOR, 'a');
    assert Step(c.Plus("a"), env) == HeaderLine(c.Plus("a"), env);
  }

  lemma TornSizeWaits(c: Config, env: Env)
    requires c.Valid() && env.capacity >= MIN_CAPACITY && Breaks(c, env) && c.ctx.state.Content?
    ensures Parse(c.Plus("a"), env) == (NeedMoreData, c.Plus("a"))
  {
    FindNothing(c.buf, CRLF, 'a');
  }

  lemma TornChunkSizeBreaks(c: Config, env: Env)
    requires c.Valid() && env.capacity >= MIN_CAPACITY && Breaks(c, env) && c.ctx.state.Content?
    ensures !Resumes(c, "a", env)
  {
    TornSizeWaits(c, env);
    TornIsTrailingCr(c.buf);
    TornSizeRest(c.buf);
    TornSizeContinues(c, env);
  }

  lemma TornSizeContinues(c: Config, env: Env)
    requires c.Valid() && c.ctx.state.Content? && c.ctx.Chunked() && c.ctx.chunkState.ChunkSize?
    requires var line := ReadSize(c.buf);
      !line.NoLine? && (line.Size? ==> line.rest == "\r") && (line.BlankLine? ==> c.buf == "\r")
    ensures var r := Resume(Parse(c, env), "a", env);
      r.0 == Error || !r.1.ctx.chunkState.ChunkSize?
  {
    var o := TakeSize(ReadSize(c.buf), c, env);
    assert Step(c, env) == o;
    if o.Continue? {
      assert o.next.buf == "\r" && !o.next.ctx.chunkState.ChunkSize?;
      TornChunkContinues(o.next, env);
    }
  }

  lemma TornSizeRest(buf: string)
    requires Torn(buf, CRLF) && buf[|buf| - 1] == CR
    ensures var line := ReadSize(buf);
      (line.Size? ==> line.rest == "\r") && (line.BlankLine? ==> buf == "\r")
  {
  }

  lemma TornChunkContinues(d: Config, env: Env)
    requires d.Valid() && d.ctx.state.Content? && d.ctx.Chunked() && !d.ctx.chunkState.ChunkSize?
    requires d.buf == "\r"
    ensures var r := Resume(Parse(d, env), "a", env);
      r.0 == Error || !r.1.ctx.chunkState.ChunkSize?
  {
    if d.ctx.chunkState.ChunkData? {
      TornChunkData(d, env);
    } else {
      assert Parse(d, env) == (NeedMoreData, d);
      assert d.Plus("a").buf[..2] == "\ra";
    }
  }

  lemma TornChunkData(d: Config, env: Env)
    requires d.Valid() && d.ctx.state.Content? && d.ctx.Chunked() && d.ctx.chunkState.ChunkData?
    requires d.buf == "\r"
    ensures var r := Resume(Parse(d, env), "a", env);
      r.0 == NeedMoreData && !r.1.ctx.chunkState.ChunkSize?
  {
    var e := Step(d, env).next;
    assert e.buf == [] && Parse(d, env) == (NeedMoreData, e);
    var f := e.Plus("a");
    assert f.buf == "a";
    if f.ctx.chunkState.ChunkData? {
      var g := Step(f, env).next;
      assert g.buf == [] && Parse(f, env) == (NeedMoreData, g);
    }
  }

  /** One more byte makes no line faulty that has been read. */
  lemma NoNewFault(c: Config, env: Env)
    requires c.Valid() && !Breaks(c, env) && !AtBrim(c, env) && Step(c, env).Continue?
    ensures !Faulty(c.Plus("a"), env)
  {
    if c.ctx.state.Headers? && Find(c.buf, CRLF) > 0 {
      assert Step(c, env) == HeaderLine(c, env);
      HitExtends(c.buf, CRLF, "a");
      HitExtends(c.buf, KEYVAL_SEPARATOR, "a");
    } else if c.ctx.state.Headers? {
      HitExtends(c.buf, CRLF, "a");
    }
  }

  lemma UncleanStep(c: Config, env: Env)
    requires c.Valid() && env.capacity >= MIN_CAPACITY && !Breaks(c, env) && !AtBrim(c, env)
    requires Step(c, env).Continue? && !Resumes(Step(c, env).next, "a", env)
    ensures !Resumes(c, "a", env)
  {
    if c.ctx.state.Content? && c.ctx.Chunked() && c.ctx.chunkState.ChunkData?
       && |c.buf| < c.ctx.chunkSize - c.ctx.chunkGot {
      PartialCopy(c, "a", env);
    } else {
      StepLocal(c, "a", env);
      NoNewFault(c, env);
      StepFaultsExactly(c.Plus("a"), env);
    }
  }

  /** One byte is enough to show that a buffer is not clean. */
  lemma {:induction false} UncleanBreaks(c: Config, env: Env)
    requires c.Valid() && env.capacity >= MIN_CAPACITY && !Clean(c, env)
    ensures !Resumes(c, "a", env)
    decreases |c.buf|, 3 - Rank(c.ctx)
  {
    if Breaks(c, env) {
      if c.ctx.state.Content? {
        TornChunkSizeBreaks(c, env);
      } else if Torn(c.buf, CRLF) {
        TornLineBreaks(c, env);
      } else {
        TornSeparatorBreaks(c, env);
      }
    } else {
      StepProgress(c, env);
      UncleanBreaks(Step(c, env).next, env);
      UncleanStep(c, env);
    }
  }

  // ---- the main results -------------------------------------------------------------------------

  /**
   Whatever arrives next, resuming equals parsing the whole, exactly when the buffer is clean; otherwise a single
   byte tells them apart.
   */
  lemma ResumeExactlyWhenClean(c: Config, env: Env)
    requires c.Valid() && env.capacity >= MIN_CAPACITY
    ensures (forall more :: Resumes(c, more, env)) <==> Clean(c, env)
    ensures Resumes(c, "a", env) <==> Clean(c, env)
  {
    if Clean(c, env) {
      forall more ensures Resumes(c, more, env) {
        CleanResumes(c, more, env);
      }
      CleanResumes(c, "a", env);
    } else {
      UncleanBreaks(c, env);
    }
  }

  /** Parsing after every fragment until the parser answers. */
  function Feed(c: Config, fragments: seq<string>, env: Env): (Rc, Config)
    requires c.Valid()
    decreases |fragments|
  {
    var r := Parse(c, env);
    if fragments == [] then r
    else if r.0 != NeedMoreData then (r.0, r.1.Plus(Concat(fragments)))
    else Feed(r.1.Plus(fragments[0]), fragments[1..], env)
  }

  /** No fragment boundary leaves a buffer that breaks. */
  predicate CleanFeed(c: Config, fragments: seq<string>, env: Env)
    requires c.Valid()
    decreases |fragments|
  {
    fragments == [] ||
    (&& Clean(c, env)
     && var r := Parse(c, env);
        r.0 == NeedMoreData ==> CleanFeed(r.1.Plus(fragments[0]), fragments[1..], env))
  }

  lemma PlusTwice(c: Config, a: string, b: string)
    ensures c.Plus(a).Plus(b) == c.Plus(a + b)
  {
    assert c.buf + a + b == c.buf + (a + b);
  }

  /** Split invariance over any number of fragments. */
  lemma {:induction false} SplitInvariance(c: Config, fragments: seq<string>, env: Env)
    requires c.Valid() && env.capacity >= MIN_CAPACITY && CleanFeed(c, fragments, env)
    ensures var whole := Parse(c.Plus(Concat(fragments)), env);
      whole.0 == Undefined || Matches(Feed(c, fragments, env), whole)
    decreases |fragments|
  {
    if fragments == [] {
      assert c.buf + [] == c.buf;
    } else {
      var r := Parse(c, env);
      var all := Concat(fragments);
      CleanResumes(c, all, env);
      if r.0 == NeedMoreData {
        SplitInvariance(r.1.Plus(fragments[0]), fragments[1..], env);
        PlusTwice(r.1, fragments[0], Concat(fragments[1..]));
      }
    }
  }
}
