/**
 The parser of src/aclk/https_client.c in its own form: a context object updated in place, reading from the
 ring buffer and copying chunks into a heap buffer that grows with every chunk. Each method is proved to
 perform the corresponding transition of `HttpResponse`.
 */
module HttpParser {
  import opened Bytes
  import opened CLib
  import opened RingBuffers
  import opened HttpResponse

  /** Whether a switch case went on with the loop or returned. */
  datatype Progress = Running | Returned(rc: Rc)

  /** The status was taken over: a code is stored even if it is out of range. */
  predicate Judged(s: Status, valid: bool, before: int, after: int, rest: string) {
    && valid == s.Code?
    && after == (if s.NoStatus? then before else s.code)
    && rest == s.rest
  }

  datatype LineKind = Missing | Blank | Long | Sized

  /** The transition `o` was taken, ending in configuration `c`. */
  predicate Did(o: Outcome, p: Progress, c: Config) {
    o == match p case Running => Continue(c) case Returned(rc) => Done(rc, c)
  }

  class Parser {
    var state: State
    var contentLength: int
    var httpCode: int
    var headers: map<string, string>
    var dontWaitForContent: bool
    var chunkState: ChunkState
    /** The heap buffer for the decoded body; its length is `chunked_response_size`. */
    var response: array<char>
    var written: nat
    var chunkSize: nat
    var chunkGot: nat

    ghost predicate WellFormed(buf: RingBuffer)
      reads this, buf, buf.data
    {
      buf.Valid() && written <= response.Length && response != buf.data
    }

    ghost function Ctx(): Context
      requires written <= response.Length
      reads this, response
    {
      Context(state, contentLength, httpCode, headers, dontWaitForContent,
              chunkState, response[..written], response.Length, chunkSize, chunkGot)
    }

    ghost function At(buf: RingBuffer): (c: Config)
      requires WellFormed(buf)
      reads this, response, buf, buf.data
    {
      Config(buf.contents, Ctx())
    }

    /** A context in zeroed memory, as `https_request` allocates it. */
    constructor (state: State)
      ensures written <= response.Length && Ctx() == Fresh(state)
      ensures fresh(response)
    {
      this.state := state;
      contentLength := NO_CONTENT_LENGTH;
      httpCode := 0;
      headers := map[];
      dontWaitForContent := false;
      chunkState := ChunkSize;
      response := new char[0];
      written := 0;
      chunkSize := 0;
      chunkGot := 0;
    }

    /** `process_http_hdr`; true means the field was refused. */
    method ProcessHttpHdr(key: string, val: string) returns (refused: bool)
      requires written <= response.Length
      modifies this`contentLength, this`headers
      ensures ProcessHeader(old(Ctx()), key, val) == if refused then Rejected(Ctx()) else Accepted(Ctx())
    {
      if contentLength < 0 && key == "content-length" {
        if contentLength == TRANSFER_ENCODING_CHUNKED {
          return true;
        }
        if contentLength != NO_CONTENT_LENGTH {
          return true;
        }
        contentLength := ToInt32(Str2u(val));
        return contentLength < 0;
      }
      if key == "transfer-encoding" {
        if val == "chunked" {
          if contentLength != NO_CONTENT_LENGTH {
            return true;
          }
          contentLength := TRANSFER_ENCODING_CHUNKED;
        }
        return false;
      }
      headers := headers[key := val];
      return false;
    }

    /** The part of `parse_http_hdr` that cuts the line apart; the caller has found its end at `lineEnd`. */
    method SplitHttpHdr(buf: RingBuffer, lineEnd: nat) returns (rc: Rc, key: string, val: string)
      requires buf.Valid() && lineEnd <= |buf.contents|
      modifies buf
      ensures buf.Valid()
      ensures match SplitField(old(buf.contents), lineEnd, buf.Capacity())
        case BadField(rest) => rc == Error && buf.contents == rest
        case Overrun(rest) => rc == Undefined && buf.contents == rest
        case Field(k, v, rest) => rc == Success && key == k && val == v && buf.contents == rest
    {
      key, val := "", "";
      var found, sep := buf.FindBytes(KEYVAL_SEPARATOR);
      if !found || sep >= HDR_BUFFER_SIZE {
        return Error, key, val;
      }
      var full := buf.BytesAvailable() == buf.Capacity();
      key := PopName(buf, sep);
      if sep == 0 && full {
        return Undefined, key, val;
      }
      var n := lineEnd - |KEYVAL_SEPARATOR| - sep;
      if n >= HDR_BUFFER_SIZE {
        return Error, key, val;
      }
      if n < 0 {
        return Undefined, key, val;
      }
      CutField(old(buf.contents), buf.contents, sep, lineEnd);
      val := buf.Pop(n);
      return Success, key, val;
    }

    /** Takes the name off the ring and moves behind the separator. */
    method PopName(buf: RingBuffer, sep: nat) returns (key: string)
      requires buf.Valid() && sep < |buf.contents|
      modifies buf
      ensures buf.Valid()
      ensures key == old(buf.contents)[..sep]
      ensures buf.contents == Skip(Bumped(old(buf.contents), sep, buf.Capacity()), |KEYVAL_SEPARATOR|)
    {
      key := buf.Pop(sep);
      var _, _ := buf.BumpTail(|KEYVAL_SEPARATOR|);
    }

    /** `parse_http_hdr`, and the move behind the line terminator that follows it. */
    method ParseHttpHdr(buf: RingBuffer, env: Env) returns (p: Progress)
      requires WellFormed(buf) && env.capacity == buf.Capacity()
      modifies this`contentLength, this`headers, buf
      ensures WellFormed(buf)
      ensures Did(HeaderLine(old(At(buf)), env), p, At(buf))
    {
      var _, lineEnd := buf.FindBytes(CRLF);
      var rc, key, val := SplitHttpHdr(buf, lineEnd);
      if rc != Success {
        return Returned(rc);
      }
      p := TakeHttpHdr(buf, key, val);
    }

    method TakeHttpHdr(buf: RingBuffer, key: string, val: string) returns (p: Progress)
      requires WellFormed(buf)
      modifies this`contentLength, this`headers, buf
      ensures WellFormed(buf)
      ensures Did(TakeField(Field(key, val, old(buf.contents)), old(Ctx())), p, At(buf))
    {
      var refused := ProcessHttpHdr(LowerCase(CString(key)), CString(val));
      if refused {
        return Returned(Error);
      }
      SkipLine(buf);
      return Running;
    }

    /** Moves behind the next line terminator, or nowhere if it is cut short. */
    method SkipLine(buf: RingBuffer)
      requires buf.Valid()
      modifies buf
      ensures buf.Valid()
      ensures var s := old(buf.contents); buf.contents == Skip(s, Find(s, CRLF) + |CRLF|)
    {
      var _, idx := buf.FindBytes(CRLF);
      var _, _ := buf.BumpTail(idx + |CRLF|);
    }

    method CheckProto(buf: RingBuffer) returns (ok: bool)
      requires buf.Valid()
      ensures ok == ProtoAccepted(buf.contents, state.ProxyConnect?)
    {
      ok := buf.MemcmpN(RESP_PROTO);
      if !ok && state == ProxyConnect {
        ok := buf.MemcmpN(RESP_PROTO10);
      }
    }

    /** The verdict on the four bytes read for the status code, and the move to the next line. */
    method JudgeStatus(buf: RingBuffer, rc: string) returns (valid: bool)
      requires buf.Valid()
      modifies this`httpCode, buf
      ensures buf.Valid()
      ensures Judged(JudgeCode(rc, old(buf.contents)), valid, old(httpCode), httpCode, buf.contents)
    {
      if |rc| != 4 {
        return false;
      }
      if rc[3] != ' ' {
        return false;
      }
      httpCode := StatusCode(rc);
      if httpCode < 100 || httpCode >= 600 {
        return false;
      }
      SkipLine(buf);
      return true;
    }

    /** The status code behind the protocol */
    method ReadStatusCode(buf: RingBuffer) returns (valid: bool)
      requires buf.Valid()
      modifies this`httpCode, buf
      ensures buf.Valid()
      ensures Judged(ReadCode(old(buf.contents)), valid, old(httpCode), httpCode, buf.contents)
    {
      var rc := buf.Pop(4);
      assert ReadCode(old(buf.contents)) == JudgeCode(rc, buf.contents);
      valid := JudgeStatus(buf, rc);
    }

    method ReadStatusLine(buf: RingBuffer) returns (valid: bool)
      requires buf.Valid()
      modifies this`httpCode, buf
      ensures buf.Valid()
      ensures Judged(ReadStatus(old(buf.contents), state.ProxyConnect?), valid, old(httpCode), httpCode, buf.contents)
    {
      var ok := CheckProto(buf);
      if !ok {
        return false;
      }
      var _, _ := buf.BumpTail(|RESP_PROTO|);
      valid := ReadStatusCode(buf);
    }

    /** The status line case of `parse_http_response`. */
    method ParseStatus(buf: RingBuffer) returns (p: Progress)
      requires WellFormed(buf)
      modifies this`httpCode, this`state, buf
      ensures WellFormed(buf)
      ensures Did(StatusLine(old(At(buf))), p, At(buf))
    {
      ghost var s := ReadStatus(buf.contents, state.ProxyConnect?);
      var valid := ReadStatusLine(buf);
      assert StatusLine(old(At(buf))) == TakeStatus(s, old(Ctx()));
      if !valid {
        return Returned(Error);
      }
      state := Headers;
      return Running;
    }

    /** `chunked_response_buffer_grow_by`: the bytes already copied keep their place. */
    method GrowBy(size: nat)
      requires written <= response.Length
      modifies this`response
      ensures written <= response.Length && fresh(response)
      ensures response.Length == old(response.Length) + size
      ensures response[..written] == old(response[..written])
    {
      var bigger := new char[response.Length + size](_ => NUL);
      forall i | 0 <= i < response.Length {
        bigger[i] := response[i];
      }
      assert bigger[..written] == response[..written];
      response := bigger;
    }

    /** Reads the chunk size line; `size` is meaningful for a sized line only. */
    method ReadSizeLine(buf: RingBuffer) returns (kind: LineKind, size: int)
      requires buf.Valid()
      modifies buf
      ensures buf.Valid()
      ensures match ReadSize(old(buf.contents))
        case NoLine => kind == Missing && buf.contents == old(buf.contents)
        case BlankLine => kind == Blank && buf.contents == old(buf.contents)
        case TooLong => kind == Long && buf.contents == old(buf.contents)
        case Size(n, rest) => kind == Sized && size == n && buf.contents == rest
    {
      var found, idx := buf.FindBytes(CRLF);
      if !found {
        return Missing, 0;
      }
      if idx == 0 {
        return Blank, 0;
      }
      if idx >= HDR_BUFFER_SIZE {
        return Long, 0;
      }
      var line := buf.Pop(idx);
      return Sized, Strtol16(CString(line));
    }

    /** The chunk size case of `process_chunked_content`. */
    method ReadChunkSize(buf: RingBuffer, env: Env) returns (p: Progress)
      requires WellFormed(buf) && At(buf).Valid() && chunkState == ChunkSize && env.capacity == buf.Capacity()
      modifies this, buf
      ensures WellFormed(buf) && (response == old(response) || fresh(response))
      ensures Did(ChunkSizeLine(old(At(buf)), env), p, At(buf))
    {
      var full := buf.BytesAvailable() >= buf.Capacity();
      var kind, size := ReadSizeLine(buf);
      match kind {
        case Missing => return Returned(if full then Error else NeedMoreData);
        case Blank =>
          chunkState := FinalCrlf;
          return Running;
        case Long => return Returned(Error);
        case Sized => p := StartChunk(buf, size, env, old(buf.contents));
      }
    }

    /** What follows once the size is known; the ring stands at the end of the size line. */
    method StartChunk(buf: RingBuffer, size: int, env: Env, ghost before: string) returns (p: Progress)
      requires WellFormed(buf)
      modifies this, buf
      ensures WellFormed(buf) && (response == old(response) || fresh(response))
      ensures Did(TakeSize(Size(size, old(buf.contents)), Config(before, old(Ctx())), env), p, At(buf))
    {
      if size < 0 || size == LONG_MAX {
        return Returned(Error);
      }
      chunkSize := size;
      if chunkSize == 0 {
        if env.errnoInvalid {
          return Returned(Error);
        }
        chunkState := ChunkEndCrlf;
        return Running;
      }
      chunkGot := 0;
      GrowBy(chunkSize);
      var _, _ := buf.BumpTail(|CRLF|);
      chunkState := ChunkData;
      return Running;
    }

    /** The copy into the response buffer. */
    method Store(bytes: string)
      requires written + |bytes| <= response.Length
      modifies this`written, response
      ensures written == old(written) + |bytes| && written <= response.Length
      ensures response[..written] == old(response[..written]) + bytes
    {
      forall i | 0 <= i < |bytes| {
        response[written + i] := bytes[i];
      }
      written := written + |bytes|;
    }

    /** The chunk data case: the copy stays within the buffer because of the accounting in `Context.Valid`. */
    method CopyChunkData(buf: RingBuffer) returns (p: Progress)
      requires WellFormed(buf) && At(buf).Valid() && chunkState == ChunkData
      modifies this`chunkGot, this`written, this`chunkState, response, buf
      ensures WellFormed(buf)
      ensures Did(ChunkBytes(old(At(buf))), p, At(buf))
    {
      var bytesToCopy := buf.BytesAvailable();
      if bytesToCopy == 0 {
        return Returned(NeedMoreData);
      }
      if bytesToCopy > chunkSize - chunkGot {
        bytesToCopy := chunkSize - chunkGot;
      }
      ghost var c := At(buf);
      var bytes := buf.Pop(bytesToCopy);
      assert bytes == c.buf[..bytesToCopy] && buf.contents == c.buf[bytesToCopy..];
      CountChunkData(bytes);
      assert At(buf) == Config(c.buf[bytesToCopy..], Copied(c.ctx, c.buf[..bytesToCopy]));
      return Running;
    }

    /** Stores bytes of the current chunk and counts them. */
    method CountChunkData(bytes: string)
      requires written + |bytes| <= response.Length
      modifies this`chunkGot, this`written, this`chunkState, response
      ensures written <= response.Length && Ctx() == Copied(old(Ctx()), bytes)
    {
      Store(bytes);
      chunkGot := chunkGot + |bytes|;
      if chunkGot == chunkSize {
        chunkState := ChunkEndCrlf;
      }
    }

    /** The line terminator case; at the very end a NUL is stored behind the body. */
    method ReadChunkCrlf(buf: RingBuffer) returns (p: Progress)
      requires WellFormed(buf) && At(buf).Valid() && (chunkState == ChunkEndCrlf || chunkState == FinalCrlf)
      modifies this, buf
      ensures WellFormed(buf) && (response == old(response) || fresh(response))
      ensures Did(ChunkCrlf(old(At(buf))), p, At(buf))
      ensures p == Returned(Success) ==> response[written] == NUL
    {
      if buf.BytesAvailable() < |CRLF| {
        return Returned(NeedMoreData);
      }
      var crlf := buf.Pop(|CRLF|);
      if crlf != CRLF {
        return Returned(Error);
      }
      if chunkState == FinalCrlf {
        GrowBy(1);
        ghost var body := response[..written];
        response[written] := NUL;
        assert response[..written] == body;
        return Returned(Success);
      }
      if chunkSize == 0 {
        chunkState := FinalCrlf;
        return Running;
      }
      chunkState := ChunkSize;
      return Running;
    }

    /** One iteration of the loop in `process_chunked_content`. */
    method ChunkStep(buf: RingBuffer, env: Env) returns (p: Progress)
      requires WellFormed(buf) && At(buf).Valid() && env.capacity == buf.Capacity()
      requires state == Content && contentLength == TRANSFER_ENCODING_CHUNKED
      modifies this, response, buf
      ensures WellFormed(buf) && (response == old(response) || fresh(response))
      ensures Did(Step(old(At(buf)), env), p, At(buf))
    {
      match chunkState {
        case ChunkSize => p := ReadChunkSize(buf, env);
        case ChunkData => p := CopyChunkData(buf);
        case ChunkEndCrlf => p := ReadChunkCrlf(buf);
        case FinalCrlf => p := ReadChunkCrlf(buf);
      }
    }

    /** `process_chunked_content`. */
    method ProcessChunkedContent(buf: RingBuffer, env: Env) returns (rc: Rc)
      requires WellFormed(buf) && At(buf).Valid() && env.capacity == buf.Capacity()
      requires state == Content && contentLength == TRANSFER_ENCODING_CHUNKED
      modifies this, response, buf
      ensures WellFormed(buf) && (response == old(response) || fresh(response))
      ensures (rc, At(buf)) == Parse(old(At(buf)), env)
    {
      ghost var start := At(buf);
      while true
        invariant WellFormed(buf) && At(buf).Valid() && (response == old(response) || fresh(response))
        invariant state == Content && contentLength == TRANSFER_ENCODING_CHUNKED
        invariant Parse(At(buf), env) == Parse(start, env)
        decreases |buf.contents|, 3 - Rank(Ctx())
      {
        ghost var c := At(buf);
        var p := ChunkStep(buf, env);
        if p.Returned? {
          return p.rc;
        }
        ChunkedStaysChunked(c, env);
      }
    }

    /** `parse_http_response`: the code and the configuration it ends with are those of `Parse`. */
    method ParseHttpResponse(buf: RingBuffer, env: Env) returns (rc: Rc)
      requires WellFormed(buf) && At(buf).Valid() && env.capacity == buf.Capacity()
      modifies this, response, buf
      ensures WellFormed(buf) && (response == old(response) || fresh(response))
      ensures (rc, At(buf)) == Parse(old(At(buf)), env)
    {
      ghost var start := At(buf);
      while true
        invariant WellFormed(buf) && At(buf).Valid() && response == old(response)
        invariant Parse(At(buf), env) == Parse(start, env)
        decreases |buf.contents|, 3 - Rank(Ctx())
      {
        ghost var c := At(buf);
        if state == Content {
          rc := ParseContent(buf, env);
          return;
        }
        var p := ParseHead(buf, env);
        if p.Returned? {
          return p.rc;
        }
        StepProgress(c, env);
      }
    }

    /** One iteration before the content is reached. */
    method ParseHead(buf: RingBuffer, env: Env) returns (p: Progress)
      requires WellFormed(buf) && At(buf).Valid() && state != Content && env.capacity == buf.Capacity()
      modifies this`contentLength, this`headers, this`httpCode, this`state, buf
      ensures WellFormed(buf)
      ensures Did(Step(old(At(buf)), env), p, At(buf))
    {
      var found, idx := buf.FindBytes(CRLF);
      if !found {
        return Returned(NeedMoreData);
      }
      if state != Headers {
        p := ParseStatus(buf);
      } else if idx == 0 {
        state := Content;
        var _, _ := buf.BumpTail(|CRLF|);
        p := Running;
      } else {
        p := ParseHttpHdr(buf, env);
      }
    }

    /** The content case. */
    method ParseContent(buf: RingBuffer, env: Env) returns (rc: Rc)
      requires WellFormed(buf) && At(buf).Valid() && env.capacity == buf.Capacity() && state == Content
      modifies this, response, buf
      ensures WellFormed(buf) && (response == old(response) || fresh(response))
      ensures (rc, At(buf)) == Parse(old(At(buf)), env)
    {
      if contentLength == TRANSFER_ENCODING_CHUNKED {
        rc := ProcessChunkedContent(buf, env);
      } else if contentLength < 0 {
        return Success;
      } else if dontWaitForContent {
        return Success;
      } else if buf.BytesAvailable() >= contentLength {
        return Success;
      } else {
        return NeedMoreData;
      }
    }
  }

  lemma ChunkedStaysChunked(c: Config, env: Env)
    requires c.Valid() && c.ctx.state.Content? && c.ctx.Chunked() && Step(c, env).Continue?
    ensures var d := Step(c, env).next;
      && d.ctx.state.Content? && d.ctx.Chunked()
      && (|d.buf| < |c.buf| || (d.buf == c.buf && Rank(d.ctx) > Rank(c.ctx)))
  {
    StepProgress(c, env);
  }

  lemma CutField(all: string, rest: string, sep: nat, lineEnd: nat)
    requires sep + 2 <= lineEnd <= |all| && rest == Skip(all[sep..], 2)
    ensures var n := lineEnd - 2 - sep;
      n <= |rest| && rest[..n] == all[sep + 2..lineEnd] && rest[n..] == all[lineEnd..]
  {
    assert rest == all[sep + 2..];
  }
}
