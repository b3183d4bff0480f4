/**
 The receiving loop around the parser, on values: bytes go from the socket into the ring as far as there is room, and
 the parser runs after every read.
 */
module HttpReception {
  import opened Bytes
  import opened HttpResponse
  import opened HttpResume

  /** The parser has answered, the ring had no room to read into, or nothing came any more. */
  datatype Answer = Parsed(rc: Rc) | ReadError | TimedOut

  /** How the loop ends: `left` waits in the socket, `later` is still to arrive. */
  datatype Reception = Reception(answer: Answer, config: Config, left: string, later: seq<string>) {
    function Unread(): string {
      left + Concat(later)
    }

    /** What the caller gets, with the bytes nobody has read behind it. */
    function Outcome(): (Rc, Config) {
      (if answer.Parsed? then answer.rc else NeedMoreData, config.Plus(Unread()))
    }
  }

  /** What a poll finds in the socket. */
  function Waiting(left: string, arrivals: seq<string>): string {
    if arrivals == [] then left else left + arrivals[0]
  }

  function Later(arrivals: seq<string>): seq<string> {
    if arrivals == [] then [] else arrivals[1..]
  }

  /** As much of it as the ring has room for. */
  function Fitting(c: Config, waiting: string, env: Env): (n: nat)
    requires |c.buf| < env.capacity
    ensures n <= |waiting| && |c.buf| + n <= env.capacity
    ensures waiting != [] ==> n > 0
  {
    Min(|waiting|, env.capacity - |c.buf|)
  }

  /** `read_parse_response`; `arrivals` are the bytes that reach the socket between one poll and the next. */
  function Receive(c: Config, left: string, arrivals: seq<string>, env: Env): Reception
    requires c.Valid()
    decreases |arrivals|, |left|
  {
    if left == [] && arrivals == [] then Reception(TimedOut, c, [], [])
    else
      var waiting, later := Waiting(left, arrivals), Later(arrivals);
      if |c.buf| >= env.capacity then Reception(ReadError, c, waiting, later)
      else
        var n := Fitting(c, waiting, env);
        var r := Parse(c.Plus(waiting[..n]), env);
        if r.0 != NeedMoreData then Reception(Parsed(r.0), r.1, waiting[n..], later)
        else Receive(r.1, waiting[n..], later, env)
  }

  /** What each of the reads brings. */
  function Reads(c: Config, left: string, arrivals: seq<string>, env: Env): seq<string>
    requires c.Valid()
    decreases |arrivals|, |left|
  {
    if (left == [] && arrivals == []) || |c.buf| >= env.capacity then []
    else
      var waiting, later := Waiting(left, arrivals), Later(arrivals);
      var n := Fitting(c, waiting, env);
      var r := Parse(c.Plus(waiting[..n]), env);
      [waiting[..n]] + if r.0 != NeedMoreData then [] else Reads(r.1, waiting[n..], later, env)
  }

  // ---- the loop feeds the parser what it reads ----------------------------------------------------------

  lemma WaitingBytes(left: string, arrivals: seq<string>, n: nat)
    requires n <= |Waiting(left, arrivals)|
    ensures var waiting := Waiting(left, arrivals);
      && waiting + Concat(Later(arrivals)) == left + Concat(arrivals)
      && waiting[..n] + (waiting[n..] + Concat(Later(arrivals))) == left + Concat(arrivals)
  {
    var waiting := Waiting(left, arrivals);
    if arrivals != [] {
      assert left + arrivals[0] + Concat(arrivals[1..]) == left + (arrivals[0] + Concat(arrivals[1..]));
    }
    assert waiting[..n] + waiting[n..] == waiting;
    assert waiting[..n] + (waiting[n..] + Concat(Later(arrivals))) == waiting[..n] + waiting[n..] + Concat(Later(arrivals));
  }

  lemma ConcatCons(f: string, more: seq<string>)
    ensures Concat([f] + more) == f + Concat(more)
  {
    assert ([f] + more)[1..] == more;
  }

  /** A parser that waits is fed the next fragment. */
  lemma FeedCons(c: Config, f: string, more: seq<string>, env: Env)
    requires c.Valid() && Parse(c, env) == (NeedMoreData, c)
    ensures Feed(c, [f] + more, env) == Feed(c.Plus(f), more, env)
  {
    assert ([f] + more)[0] == f && ([f] + more)[1..] == more;
  }

  lemma FeedAfter(c: Config, fragments: seq<string>, env: Env)
    requires c.Valid() && Parse(c, env).0 == NeedMoreData
    ensures Feed(c, fragments, env) == Feed(Parse(c, env).1, fragments, env)
  {
    var d := Parse(c, env).1;
    assert Parse(d, env) == (NeedMoreData, d);
  }

  lemma JoinReads(f: string, got: string, unread: string, all: string)
    requires got + unread == all
    ensures f + got + unread == f + all
  {
    assert f + got + unread == f + (got + unread);
  }

  /** Every byte is read once and in order, and the loop ends as feeding the reads to the parser does. */
  lemma {:induction false} ReceiveFeeds(c: Config, left: string, arrivals: seq<string>, env: Env)
    requires c.Valid() && Parse(c, env) == (NeedMoreData, c)
    ensures var out, got := Receive(c, left, arrivals, env), Reads(c, left, arrivals, env);
      && Concat(got) + out.Unread() == left + Concat(arrivals)
      && Feed(c, got, env) == (out.Outcome().0, out.config)
      && (out.answer.Parsed? ==> out.answer.rc != NeedMoreData)
      && (out.answer.ReadError? ==> |out.config.buf| >= env.capacity)
      && (out.answer.TimedOut? ==> out.Unread() == [])
    decreases |arrivals|, |left|
  {
    if left != [] || arrivals != [] {
      var waiting, later := Waiting(left, arrivals), Later(arrivals);
      if |c.buf| >= env.capacity {
        WaitingBytes(left, arrivals, 0);
      } else {
        var n := Fitting(c, waiting, env);
        var f, rest := waiting[..n], waiting[n..];
        WaitingBytes(left, arrivals, n);
        var d := c.Plus(f);
        var r := Parse(d, env);
        if r.0 != NeedMoreData {
          FeedCons(c, f, [], env);
          ConcatCons(f, []);
          assert [f] + [] == [f] && f + [] == f;
        } else {
          ReceiveFeeds(r.1, rest, later, env);
          var more := Reads(r.1, rest, later, env);
          ConcatCons(f, more);
          FeedCons(c, f, more, env);
          FeedAfter(d, more, env);
          JoinReads(f, Concat(more), Receive(r.1, rest, later, env).Unread(), rest + Concat(later));
        }
      }
    }
  }

  lemma {:induction false} ConcatAppend(fragments: seq<string>, f: string)
    ensures Concat(fragments + [f]) == Concat(fragments) + f
    decreases |fragments|
  {
    if fragments == [] {
      assert [] + [f] == [f] && [f][1..] == [];
    } else {
      assert (fragments + [f])[0] == fragments[0] && (fragments + [f])[1..] == fragments[1..] + [f];
      ConcatAppend(fragments[1..], f);
    }
  }

  /** One more fragment continues where the others left off. */
  lemma {:induction false} FeedAppend(c: Config, fragments: seq<string>, f: string, env: Env)
    requires c.Valid()
    ensures var r := Feed(c, fragments, env);
      && (r.0 == NeedMoreData ==> r.1.Valid() && Parse(r.1, env) == r)
      && Feed(c, fragments + [f], env) == Resume(r, f, env)
    decreases |fragments|
  {
    var r := Parse(c, env);
    if fragments == [] {
      assert [] + [f] == [f] && [f][1..] == [];
      assert Concat([f]) == f + Concat([f][1..]) == f;
      if r.0 == NeedMoreData {
        assert Feed(c, [f], env) == Feed(r.1.Plus(f), [], env);
      }
    } else {
      assert (fragments + [f])[0] == fragments[0] && (fragments + [f])[1..] == fragments[1..] + [f];
      if r.0 == NeedMoreData {
        FeedAppend(r.1.Plus(fragments[0]), fragments[1..], f, env);
      } else {
        ConcatAppend(fragments, f);
        PlusTwice(r.1, Concat(fragments), f);
      }
    }
  }

  /** The reads, with everything unread as a last one. */
  function AllReads(c: Config, arrivals: seq<string>, env: Env): seq<string>
    requires c.Valid()
  {
    Reads(c, [], arrivals, env) + [Receive(c, [], arrivals, env).Unread()]
  }

  /** Unless the ring had no room, the loop ends as feeding all bytes does. */
  lemma ReceiveFeedsAll(c: Config, arrivals: seq<string>, env: Env)
    requires c.Valid() && Parse(c, env) == (NeedMoreData, c)
    ensures Concat(AllReads(c, arrivals, env)) == Concat(arrivals)
    ensures var out := Receive(c, [], arrivals, env);
      !out.answer.ReadError? ==> Feed(c, AllReads(c, arrivals, env), env) == out.Outcome()
  {
    var out, got := Receive(c, [], arrivals, env), Reads(c, [], arrivals, env);
    ReceiveFeeds(c, [], arrivals, env);
    ConcatAppend(got, out.Unread());
    FeedAppend(c, got, out.Unread(), env);
    assert [] + Concat(arrivals) == Concat(arrivals);
    if out.answer.TimedOut? {
      assert out.config.buf + [] == out.config.buf;
    }
  }

  /** Split invariance of the loop: reads with clean cuts give what one call on all bytes gives, if the ring has room. */
  lemma ReceiveWhole(c: Config, arrivals: seq<string>, env: Env)
    requires c.Valid() && env.capacity >= MIN_CAPACITY && Parse(c, env) == (NeedMoreData, c)
    requires CleanFeed(c, AllReads(c, arrivals, env), env)
    ensures var out, whole := Receive(c, [], arrivals, env), Parse(c.Plus(Concat(arrivals)), env);
      out.answer.ReadError? || whole.0 == Undefined || Matches(out.Outcome(), whole)
  {
    ReceiveFeedsAll(c, arrivals, env);
    SplitInvariance(c, AllReads(c, arrivals, env), env);
  }

  // ---- single reads --------------------------------------------------------------------------------------

  lemma TwoReads(c: Config, a: string, b: string, d: Config, env: Env)
    requires c.Valid() && c.buf == [] && |a| <= env.capacity && env.capacity > 0
    requires Parse(c.Plus(a), env) == (NeedMoreData, d)
    ensures Receive(c, [], [a, b], env) == Receive(d, [], [b], env)
  {
    assert [] + a == a && [a, b][1..] == [b] && a[..|a|] == a && a[|a|..] == [];
    assert Waiting([], [a, b]) == a;
  }

  /** The last arrival, of which the ring takes as much as it can. */
  lemma OneRead(c: Config, b: string, env: Env)
    requires c.Valid() && c.buf == [] && env.capacity > 0
    ensures var n := Min(|b|, env.capacity);
      var r := Parse(c.Plus(b[..n]), env);
      Receive(c, [], [b], env) ==
        if r.0 == NeedMoreData then Receive(r.1, b[n..], [], env) else Reception(Parsed(r.0), r.1, b[n..], [])
  {
    assert [] + b == b && [b][1..] == [] && Waiting([], [b]) == b;
  }

  // ---- the ring ------------------------------------------------------------------------------------------

  lemma CodeShrinks(buf: string)
    ensures |ReadCode(buf).rest| <= |buf|
  {
    var n := Min(4, |buf|);
    assert ReadCode(buf) == JudgeCode(buf[..n], buf[n..]);
  }

  lemma StatusShrinks(c: Config)
    ensures StatusLine(c).Done? ==> |StatusLine(c).final.buf| <= |c.buf|
  {
    CodeShrinks(Skip(c.buf, |RESP_PROTO|));
  }

  lemma HeaderShrinks(c: Config, env: Env)
    ensures HeaderLine(c, env).Done? ==> |HeaderLine(c, env).final.buf| <= |c.buf|
  {
    var f := SplitField(c.buf, Find(c.buf, CRLF), env.capacity);
    assert |f.rest| <= |c.buf|;
    assert HeaderLine(c, env) == TakeField(f, c.ctx);
  }

  lemma ContentShrinks(c: Config, env: Env)
    requires c.Valid() && c.ctx.state.Content? && Step(c, env).Done?
    ensures |Step(c, env).final.buf| <= |c.buf|
  {
    if c.ctx.Chunked() && c.ctx.chunkState.ChunkSize? {
      assert Step(c, env) == TakeSize(ReadSize(c.buf), c, env);
    }
  }

  lemma StepShrinks(c: Config, env: Env)
    requires c.Valid() && Step(c, env).Done?
    ensures |Step(c, env).final.buf| <= |c.buf|
  {
    match c.ctx.state {
      case Content => ContentShrinks(c, env);
      case Headers => HeaderShrinks(c, env);
      case _ => StatusShrinks(c);
    }
  }

  lemma {:induction false} ParseShrinks(c: Config, env: Env)
    requires c.Valid()
    ensures |Parse(c, env).1.buf| <= |c.buf|
    decreases |c.buf|, 3 - Rank(c.ctx)
  {
    if Step(c, env).Continue? {
      StepProgress(c, env);
      ParseShrinks(Step(c, env).next, env);
    } else {
      StepShrinks(c, env);
    }
  }

  /** The ring never holds more than its capacity. */
  lemma {:induction false} ReceiveInRing(c: Config, left: string, arrivals: seq<string>, env: Env)
    requires c.Valid() && |c.buf| <= env.capacity
    ensures |Receive(c, left, arrivals, env).config.buf| <= env.capacity
    decreases |arrivals|, |left|
  {
    if (left != [] || arrivals != []) && |c.buf| < env.capacity {
      var waiting, later := Waiting(left, arrivals), Later(arrivals);
      var n := Fitting(c, waiting, env);
      var d := c.Plus(waiting[..n]);
      ParseShrinks(d, env);
      if Parse(d, env).0 == NeedMoreData {
        ReceiveInRing(Parse(d, env).1, waiting[n..], later, env);
      }
    }
  }
}
