/** The receiving loop around the parser, in memory. */
module HttpClient {
  import opened HttpResponse
  import opened HttpReception
  import opened HttpParser
  import opened RingBuffers

  /** Reads what the ring has room for and runs the parser. */
  method ReadAndParse(parser: Parser, buf: RingBuffer, waiting: string, env: Env) returns (rc: Rc, left: string)
    requires parser.WellFormed(buf) && parser.At(buf).Valid() && env.capacity == buf.Capacity()
    requires |buf.contents| < env.capacity
    modifies parser, parser.response, buf, buf.data
    ensures parser.WellFormed(buf) && (parser.response == old(parser.response) || fresh(parser.response))
    ensures var n := Fitting(old(parser.At(buf)), waiting, env);
      left == waiting[n..] && (rc, parser.At(buf)) == Parse(old(parser.At(buf)).Plus(waiting[..n]), env)
  {
    ghost var c := parser.At(buf);
    var n := buf.Push(waiting);
    assert n == Fitting(c, waiting, env);
    assert parser.At(buf) == c.Plus(waiting[..n]);
    left := waiting[n..];
    rc := parser.ParseHttpResponse(buf, env);
  }

  /**
   `read_parse_response`. `arrivals` are the bytes that reach the socket between one poll and the next; after `polls`
   of them `left` still waits in the socket.
   */
  method ReadParseResponse(parser: Parser, buf: RingBuffer, arrivals: seq<string>, env: Env)
    returns (answer: Answer, left: string, polls: nat)
    requires parser.WellFormed(buf) && parser.At(buf).Valid() && env.capacity == buf.Capacity()
    modifies parser, parser.response, buf, buf.data
    ensures parser.WellFormed(buf) && polls <= |arrivals|
    ensures Reception(answer, parser.At(buf), left, arrivals[polls..]) == Receive(old(parser.At(buf)), [], arrivals, env)
  {
    polls, left := 0, [];
    while left != [] || polls < |arrivals|
      invariant polls <= |arrivals| && parser.WellFormed(buf) && parser.At(buf).Valid()
      invariant parser.response == old(parser.response) || fresh(parser.response)
      invariant Receive(parser.At(buf), left, arrivals[polls..], env) == Receive(old(parser.At(buf)), [], arrivals, env)
      decreases |arrivals| - polls, |left|
    {
      ghost var c, left0, arrivals0 := parser.At(buf), left, arrivals[polls..];
      if polls < |arrivals| {
        left, polls := left + arrivals[polls], polls + 1;
      }
      assert left == Waiting(left0, arrivals0) && arrivals[polls..] == Later(arrivals0);
      if buf.BytesFree() == 0 {
        return ReadError, left, polls;
      }
      var rc;
      rc, left := ReadAndParse(parser, buf, left, env);
      ReceiveStep(c, left0, arrivals0, env);
      if rc != NeedMoreData {
        return Parsed(rc), left, polls;
      }
    }
    answer := TimedOut;
  }

  lemma ReceiveStep(c: Config, left: string, arrivals: seq<string>, env: Env)
    requires c.Valid() && (left != [] || arrivals != []) && |c.buf| < env.capacity
    ensures var waiting, later := Waiting(left, arrivals), Later(arrivals);
      var n := Fitting(c, waiting, env);
      var r := Parse(c.Plus(waiting[..n]), env);
      Receive(c, left, arrivals, env) ==
        if r.0 != NeedMoreData then Reception(Parsed(r.0), r.1, waiting[n..], later)
        else Receive(r.1, waiting[n..], later, env)
  {
  }
}
