/**
 The reply of the daemon to a command (src/daemon/commands.c) and its interpretation by the command line tool
 (src/cli/cli.c).
 */
module CommandReply {
  import opened Bytes
  import opened CLib
  import opened Options

  datatype Stream = Stdout | Stderr

  const PREFIX_INFO := 'O'
  const PREFIX_ERROR := 'E'
  const PREFIX_EXIT_CODE := 'X'

  const SUCCESS: nat := 0
  const FAILURE: nat := 1
  const BUSY: nat := 2

  predicate IsStatus(status: nat) {
    status in {SUCCESS, FAILURE, BUSY}
  }

  /** `cmd_prefix_by_status` */
  function Prefix(status: nat): char
    requires IsStatus(status)
  {
    if status == SUCCESS then PREFIX_INFO else PREFIX_ERROR
  }

  // ---- the daemon ------------------------------------------------------------------------------------

  function Reply(status: nat, message: Option<string>): string
    requires IsStatus(status)
  {
    [PREFIX_EXIT_CODE] + Decimal(status) + [NUL] +
    match message case None => [] case Some(text) => [Prefix(status)] + text
  }

  /** The bytes on the wire: X, the status, a NUL, and a message behind O for a success and E for a failure. */
  lemma ReplyBytes(status: nat, text: string)
    requires IsStatus(status)
    ensures Reply(status, None) == "X" + Decimal(status) + "\0"
    ensures Reply(status, Some(text)) == "X" + Decimal(status) + "\0" + (if status == 0 then "O" else "E") + text
  {
  }

  /** `send_command_reply` up to the write, which sends `size` bytes of `reply` */
  method SendCommandReply(status: nat, message: Option<string>) returns (reply: string, size: nat)
    requires IsStatus(status)
    ensures reply == Reply(status, message) && size == |reply|
  {
    reply, size := [], 0;
    var exitStatusString := Decimal(status);
    reply, size := reply + [PREFIX_EXIT_CODE], size + 1;
    reply, size := reply + exitStatusString, size + |exitStatusString|;
    reply, size := reply + [NUL], size + 1;
    if message.Some? {
      reply, size := reply + [Prefix(status)], size + 1;
      reply, size := reply + message.value, size + |message.value|;
    }
  }

  // ---- the command line tool -------------------------------------------------------------------------

  /** What the user gets to see: the exit status, the texts printed, and whether the reply was refused. */
  datatype Screen = Screen(exitStatus: int, printed: seq<(Stream, string)>, syntaxError: bool)

  function Next(s: string): string {
    if s == [] then [] else s[1..]
  }

  /** One turn of `parse_command_reply` after the white space: what is left to read, and what is shown by then. */
  function Dispatch(t: string, screen: Screen): (r: (string, Screen))
    ensures |r.0| <= |t| && (t != [] ==> |r.0| < |t|)
  {
    if t == [] || t[0] == NUL then (Next(t), screen)
    else if t[0] == PREFIX_EXIT_CODE then (Next(t[1..]), screen.(exitStatus := Atoi(CString(t[1..]))))
    else if t[0] == PREFIX_INFO || t[0] == PREFIX_ERROR then
      var text := CString(t[1..]);
      var stream := if t[0] == PREFIX_INFO then Stdout else Stderr;
      (Next(t[1..][|text|..]), screen.(printed := screen.printed + [(stream, text)]))
    else (Next(t), screen.(syntaxError := true))
  }

  /** `parse_command_reply` on the rest `s` of the reply */
  function Parse(s: string, screen: Screen): Screen
    decreases |s|
  {
    if s == [] || screen.syntaxError then screen
    else
      var (rest, shown) := Dispatch(SkipSpaces(s), screen);
      Parse(rest, shown)
  }

  class Cli {
    var exitStatus: int
    var printed: seq<(Stream, string)>
    var syntaxError: bool

    ghost function Shown(): Screen
      reads this
    {
      Screen(exitStatus, printed, syntaxError)
    }

    /** The buffer ends with a terminator. */
    ghost predicate Terminated(buf: array<char>)
      reads buf
    {
      0 < buf.Length && buf[buf.Length - 1] == NUL
    }

    /** The part of the reply from `pos` on; `pos` may have passed the terminator. */
    ghost function Rest(buf: array<char>, pos: nat): string
      requires 0 < buf.Length
      reads buf
    {
      if pos < buf.Length then buf[pos..buf.Length - 1] else []
    }

    lemma RestAt(buf: array<char>, pos: nat)
      requires Terminated(buf) && pos < buf.Length
      ensures Next(Rest(buf, pos)) == Rest(buf, pos + 1)
      ensures Rest(buf, pos) != [] ==> Rest(buf, pos)[0] == buf[pos]
      ensures Rest(buf, pos) == [] ==> buf[pos] == NUL
    {
    }

    lemma RestSkip(buf: array<char>, pos: nat, n: nat)
      requires Terminated(buf) && pos + n < buf.Length
      ensures Rest(buf, pos)[n..] == Rest(buf, pos + n)
    {
    }

    /** The C string at `pos` */
    method StringAt(buf: array<char>, pos: nat) returns (text: string)
      requires Terminated(buf) && pos < buf.Length
      ensures text == CString(Rest(buf, pos))
    {
      var end := pos;
      while buf[end] != NUL
        invariant pos <= end < buf.Length
        invariant NUL !in buf[pos..end]
        decreases buf.Length - end
      {
        end := end + 1;
      }
      CStringIs(buf[pos..end], buf[end..buf.Length - 1]);
      assert Rest(buf, pos) == buf[pos..end] + buf[end..buf.Length - 1];
      text := buf[pos..end];
    }

    method SkipSpacesAt(buf: array<char>, start: nat) returns (pos: nat)
      requires Terminated(buf) && start < buf.Length
      ensures start <= pos < buf.Length && Rest(buf, pos) == SkipSpaces(Rest(buf, start))
    {
      pos := start;
      while IsSpace(buf[pos])
        invariant start <= pos < buf.Length
        invariant SkipSpaces(Rest(buf, pos)) == SkipSpaces(Rest(buf, start))
        decreases buf.Length - pos
      {
        RestAt(buf, pos);
        pos := pos + 1;
      }
      RestAt(buf, pos);
    }

    /** Prints the C string at `start` and moves on to its terminator. */
    method PrintAt(buf: array<char>, start: nat, stream: Stream) returns (pos: nat)
      requires Terminated(buf) && start < buf.Length
      modifies this`printed
      ensures start <= pos < buf.Length
      ensures var text := CString(Rest(buf, start));
        printed == old(printed) + [(stream, text)] && Rest(buf, pos) == Rest(buf, start)[|text|..]
    {
      var text := StringAt(buf, start);
      printed := printed + [(stream, text)];
      pos := start + |text|;
      RestSkip(buf, start, |text|);
    }

    /** The body of the loop after the white space, with the step of the loop */
    method DispatchAt(buf: array<char>, start: nat) returns (pos: nat)
      requires Terminated(buf) && start < buf.Length
      modifies this
      ensures (Rest(buf, pos), Shown()) == Dispatch(Rest(buf, start), old(Shown()))
      ensures start < pos <= buf.Length
    {
      pos := start;
      RestAt(buf, start);
      ghost var t := Rest(buf, start);
      if buf[pos] != NUL {
        assert t[1..] == Rest(buf, start + 1);
        if buf[pos] == PREFIX_EXIT_CODE {
          pos := pos + 1;
          var text := StringAt(buf, pos);
          exitStatus := Atoi(text);
        } else if buf[pos] == PREFIX_INFO || buf[pos] == PREFIX_ERROR {
          var stream := if buf[pos] == PREFIX_INFO then Stdout else Stderr;
          pos := PrintAt(buf, pos + 1, stream);
        } else {
          syntaxError := true;
        }
      }
      RestAt(buf, pos);
      pos := pos + 1;
    }

    /** `parse_command_reply`; `buf` holds the reply and its terminator, and nothing outside it is read. */
    method ParseCommandReply(buf: array<char>)
      requires Terminated(buf)
      modifies this
      ensures Shown() == Parse(buf[..buf.Length - 1], old(Shown()).(syntaxError := false))
    {
      var size := buf.Length - 1;
      var pos := 0;
      syntaxError := false;
      ghost var start := Shown();
      assert Rest(buf, 0) == buf[..size];
      while pos < size && !syntaxError
        invariant Parse(Rest(buf, 0), start) == Parse(Rest(buf, pos), Shown())
        decreases size - pos, !syntaxError
      {
        ghost var before := Shown();
        ghost var rest := Rest(buf, pos);
        pos := SkipSpacesAt(buf, pos);
        pos := DispatchAt(buf, pos);
        assert Parse(rest, before) == Parse(Rest(buf, pos), Shown());
      }
    }
  }

  lemma {:induction false} CStringIs(text: string, rest: string)
    requires NUL !in text && (rest == [] || rest[0] == NUL)
    ensures CString(text + rest) == text
  {
    if text == [] {
      assert text + rest == rest;
    } else {
      assert text[0] in text;
      assert (text + rest)[1..] == text[1..] + rest;
      CStringIs(text[1..], rest);
    }
  }

  // ---- the two together ------------------------------------------------------------------------------

  /** A part of a reply as the command line tool understands it. */
  datatype Part = ExitPart(digit: nat) | TextPart(stream: Stream, text: string)

  predicate ValidPart(p: Part) {
    if p.ExitPart? then p.digit < 10 else NUL !in p.text
  }

  function EncodePart(p: Part): string
    requires ValidPart(p)
  {
    match p
    case ExitPart(digit) => [PREFIX_EXIT_CODE] + Decimal(digit)
    case TextPart(stream, text) => [if stream == Stdout then PREFIX_INFO else PREFIX_ERROR] + text
  }

  /** Parts are separated by NUL. */
  function EncodeParts(parts: seq<Part>): string
    requires forall i | 0 <= i < |parts| :: ValidPart(parts[i])
  {
    if parts == [] then []
    else if |parts| == 1 then EncodePart(parts[0])
    else EncodePart(parts[0]) + [NUL] + EncodeParts(parts[1..])
  }

  function Show(screen: Screen, p: Part): Screen {
    match p
    case ExitPart(digit) => screen.(exitStatus := digit)
    case TextPart(stream, text) => screen.(printed := screen.printed + [(stream, text)])
  }

  function ShowAll(screen: Screen, parts: seq<Part>): Screen
    decreases |parts|
  {
    if parts == [] then screen else ShowAll(Show(screen, parts[0]), parts[1..])
  }

  lemma DispatchExit(digit: nat, rest: string, screen: Screen)
    requires digit < 10 && (rest == [] || rest[0] == NUL)
    ensures Dispatch(EncodePart(ExitPart(digit)) + rest, screen) == (rest, Show(screen, ExitPart(digit)))
  {
    var s := EncodePart(ExitPart(digit)) + rest;
    assert s[1..] == Decimal(digit) + rest;
    CStringIs(Decimal(digit), rest);
    AtoiReadsDecimal(digit, []);
    assert Decimal(digit) + [] == Decimal(digit);
    assert Next(s[1..]) == rest;
  }

  lemma DispatchText(stream: Stream, text: string, rest: string, screen: Screen)
    requires NUL !in text && (rest == [] || rest[0] == NUL)
    ensures Dispatch(EncodePart(TextPart(stream, text)) + rest, screen) ==
      (Next(rest), Show(screen, TextPart(stream, text)))
  {
    var s := EncodePart(TextPart(stream, text)) + rest;
    assert s[1..] == text + rest;
    CStringIs(text, rest);
    assert s[1..][|text|..] == rest;
  }

  /** One part is read, and the reading goes on after its terminator. */
  lemma ParsePart(p: Part, rest: string, screen: Screen)
    requires ValidPart(p) && !screen.syntaxError && (rest == [] || rest[0] == NUL)
    ensures Parse(EncodePart(p) + rest, screen) == Parse(Next(rest), Show(screen, p))
  {
    var s := EncodePart(p) + rest;
    assert SkipSpaces(s) == s;
    if p.ExitPart? {
      DispatchExit(p.digit, rest, screen);
      SkipNul(rest, Show(screen, p));
    } else {
      DispatchText(p.stream, p.text, rest, screen);
    }
  }

  lemma SkipNul(rest: string, screen: Screen)
    requires !screen.syntaxError && (rest == [] || rest[0] == NUL)
    ensures Parse(rest, screen) == Parse(Next(rest), screen)
  {
    if rest != [] {
      assert SkipSpaces(rest) == rest;
    }
  }

  /** Every sequence of parts is shown in full and in order. */
  lemma {:induction false} PartsRoundTrip(parts: seq<Part>, screen: Screen)
    requires forall i | 0 <= i < |parts| :: ValidPart(parts[i])
    requires !screen.syntaxError
    ensures Parse(EncodeParts(parts), screen) == ShowAll(screen, parts)
    decreases |parts|
  {
    if |parts| == 1 {
      assert EncodePart(parts[0]) + [] == EncodePart(parts[0]);
      ParsePart(parts[0], [], screen);
      assert parts[1..] == [];
    } else if |parts| > 1 {
      var rest := EncodeParts(parts[1..]);
      assert EncodePart(parts[0]) + [NUL] + rest == EncodePart(parts[0]) + ([NUL] + rest);
      ParsePart(parts[0], [NUL] + rest, screen);
      assert Next([NUL] + rest) == rest;
      PartsRoundTrip(parts[1..], Show(screen, parts[0]));
    }
  }

  /**
   The tool exits with the status of the daemon and prints exactly its message, on standard output for a success
   and on standard error otherwise.
   */
  lemma ReplyRoundTrip(status: nat, message: Option<string>, initial: int)
    requires IsStatus(status) && (message.Some? ==> NUL !in message.value)
    ensures Parse(Reply(status, message), Screen(initial, [], false)) ==
      Screen(status, if message.Some? then [(if status == SUCCESS then Stdout else Stderr, message.value)] else [], false)
  {
    var screen := Screen(initial, [], false);
    var exit := ExitPart(status);
    if message.Some? {
      var text := TextPart(if status == SUCCESS then Stdout else Stderr, message.value);
      var rest := [NUL] + EncodePart(text);
      assert Reply(status, message) == EncodePart(exit) + rest;
      ParsePart(exit, rest, screen);
      assert Next(rest) == EncodePart(text) + [];
      ParsePart(text, [], Show(screen, exit));
    } else {
      assert Reply(status, message) == EncodePart(exit) + [NUL];
      ParsePart(exit, [NUL], screen);
    }
  }

  /** The tool steps over one digit only: a status is understood exactly if it has a single digit. */
  lemma OnlyOneDigit(status: nat, initial: int)
    ensures Parse([PREFIX_EXIT_CODE] + Decimal(status) + [NUL], Screen(initial, [], false)).syntaxError <==> status >= 10
  {
    var digits := Decimal(status);
    var s := [PREFIX_EXIT_CODE] + digits + [NUL];
    if status < 10 {
      assert s == EncodePart(ExitPart(status)) + [NUL];
      ParsePart(ExitPart(status), [NUL], Screen(initial, [], false));
    } else {
      var screen := Screen(initial, [], false);
      assert SkipSpaces(s) == s;
      var (rest, shown) := Dispatch(s, screen);
      assert rest == digits[1..] + [NUL];
      DigitIsNoPart(rest, shown);
      assert Parse(s, screen) == Parse(rest, shown);
    }
  }

  lemma DigitIsNoPart(s: string, screen: Screen)
    requires s != [] && IsDigit(s[0]) && !screen.syntaxError
    ensures Parse(s, screen).syntaxError
  {
    assert SkipSpaces(s) == s;
    assert Dispatch(s, screen).1.syntaxError;
  }
}
