/**
 The agent-cloud link thread of src/aclk/aclk.c: connect, serve, disconnect, wait, and start over. The globals of
 the source are fields, its functions are methods. Everything foreign (the clock, `service_running`, the MQTT
 library with its callbacks, the cloud's answers) is read from a script, one entry per call; when the script ends
 the agent is shutting down.
 */
module Link {
  import opened Backoff
  import opened Options

  // ---- the outside world ----------------------------------------------------------------------------

  datatype BackoffConf = BackoffConf(base: nat, min: nat, max: nat)

  /** MQTT packet identifiers are never zero. */
  type PacketId = n: nat | n > 0 witness 1

  /** What the MQTT library does during one call of `mqtt_wss_service`. */
  datatype Callback =
    | Puback(packetId: PacketId)
    | DisconnectReq(permaban: bool, reconnectAfter: nat)
    | OtherMessage
    | PingTimeout
    | Reclaim

  /** How far one pass through `aclk_attempt_to_connect` gets, once the delay is over. */
  datatype Attempt =
    | BadUrl
    | EnvFailed
    | Stops(conf: BackoffConf)
    | OtpFailed(conf: BackoffConf, nonRetryable: bool, delay: int)
    | ConnectFailed(conf: BackoffConf)
    | Connects(conf: BackoffConf)

  /** One answer of the outside world; every call uses the parts that concern it. */
  datatype Answer = Answer(elapsed: nat, running: bool, ok: bool, callbacks: seq<Callback>,
                           attempt: Attempt, packetId: nat, rnd: nat, cloudUrl: bool)

  const SHUTDOWN: Answer := Answer(0, false, false, [], BadUrl, 0, 0, true)

  datatype DisconnectAction = NoDisconnect | CloudDisconnect | PingTimedOut | ReloadConf

  /** The answer at a position of the script, which goes on with the shutdown. */
  function AnswerAt(script: seq<Answer>, k: nat): Answer {
    if k < |script| then script[k] else SHUTDOWN
  }

  // ---- what is remembered of a run --------------------------------------------------------------------

  /** What the thread did, with the positions of the answers it was given and the times it got them. */
  datatype Entry =
    | AttemptStart(at: nat)
    | Tried(k: nat, at: nat)
    | Online
    | Served(k: nat, at: nat)
    | Shutdown(k: nat, at: nat)
    | Offline

  predicate HasPuback(callbacks: seq<Callback>, id: int) {
    exists i | 0 <= i < |callbacks| :: callbacks[i].Puback? && callbacks[i].packetId == id
  }

  function CountPubacks(callbacks: seq<Callback>): nat {
    if callbacks == [] then 0
    else CountPubacks(callbacks[..|callbacks| - 1]) + if callbacks[|callbacks| - 1].Puback? then 1 else 0
  }

  /** Something the cloud said at a moment: a ban, and seconds to stay away if there are any. */
  datatype Ask = Ask(ban: bool, seconds: int, at: nat) {
    function Until(): int {
      at / MSEC_PER_SEC + seconds
    }
  }

  function AskOf(cb: Callback, at: nat): Ask {
    if cb.DisconnectReq? then Ask(cb.permaban, cb.reconnectAfter, at) else Ask(false, 0, at)
  }

  function AsksOf(callbacks: seq<Callback>, at: nat): (asks: seq<Ask>)
    ensures |asks| == |callbacks|
  {
    seq(|callbacks|, i requires 0 <= i < |callbacks| => AskOf(callbacks[i], at))
  }

  /** The answer to a login that fails may hold a request. */
  function LoginAsks(attempt: Attempt, at: nat): seq<Ask> {
    match attempt
    case OtpFailed(_, nonRetryable, delay) => [Ask(nonRetryable, delay, at)]
    case _ => []
  }

  /** What the agent is asked by an answer; a link that is shutting down does not listen. */
  function Asks(script: seq<Answer>, deaf: bool, e: Entry): seq<Ask> {
    match e
    case Served(k, at) => if deaf then [] else AsksOf(AnswerAt(script, k).callbacks, at)
    case Tried(k, at) => LoginAsks(AnswerAt(script, k).attempt, at)
    case _ => []
  }

  predicate AnyBan(asks: seq<Ask>) {
    exists i | 0 <= i < |asks| :: asks[i].ban
  }

  /** The end of the last hold-off asked for, or `none`. */
  function LastUntil(asks: seq<Ask>, none: int): int {
    if asks == [] then none
    else if asks[|asks| - 1].seconds > 0 then asks[|asks| - 1].Until()
    else LastUntil(asks[..|asks| - 1], none)
  }

  /** The last reason to restart the connection among the callbacks. */
  function LastCause(callbacks: seq<Callback>, deaf: bool, none: DisconnectAction): DisconnectAction {
    if callbacks == [] then none
    else
      match callbacks[|callbacks| - 1]
      case DisconnectReq(_, _) => if deaf then LastCause(callbacks[..|callbacks| - 1], deaf, none) else CloudDisconnect
      case PingTimeout => PingTimedOut
      case Reclaim => ReloadConf
      case _ => LastCause(callbacks[..|callbacks| - 1], deaf, none)
  }

  // ---- what the first entries of a trace come to -----------------------------------------------------------

  /** The link is online: the last change was to online. */
  predicate IsOnline(trace: seq<Entry>, n: nat)
    requires n <= |trace|
  {
    n > 0 && (trace[n - 1].Online? || (!trace[n - 1].Offline? && IsOnline(trace, n - 1)))
  }

  function Connections(trace: seq<Entry>, n: nat): nat
    requires n <= |trace|
  {
    if n == 0 then 0 else Connections(trace, n - 1) + if trace[n - 1].Online? then 1 else 0
  }

  /** The shutdown of the session has been announced, whether or not the message could be sent. */
  predicate Announced(trace: seq<Entry>, n: nat)
    requires n <= |trace|
  {
    n > 0 && (trace[n - 1].Shutdown? || (!trace[n - 1].Offline? && Announced(trace, n - 1)))
  }

  /** The id of the shutdown message of the session: zero if it could not be sent, -1 if there is none. */
  function ShutdownId(script: seq<Answer>, trace: seq<Entry>, n: nat): int
    requires n <= |trace|
  {
    if n == 0 || trace[n - 1].Offline? then -1
    else if trace[n - 1].Shutdown? then AnswerAt(script, trace[n - 1].k).packetId
    else ShutdownId(script, trace, n - 1)
  }

  /** When the shutdown was last announced. */
  function AnnouncedAt(trace: seq<Entry>, n: nat): nat
    requires n <= |trace|
  {
    if n == 0 then 0 else if trace[n - 1].Shutdown? then trace[n - 1].at else AnnouncedAt(trace, n - 1)
  }

  /** The callbacks that an entry brings. */
  function Callbacks(script: seq<Answer>, e: Entry): seq<Callback> {
    if e.Served? then AnswerAt(script, e.k).callbacks else []
  }

  /** The shutdown message of the session has been acknowledged. */
  predicate Acked(script: seq<Answer>, trace: seq<Entry>, n: nat)
    requires n <= |trace|
  {
    && n > 0 && !trace[n - 1].Offline?
    && (|| Acked(script, trace, n - 1)
        || HasPuback(Callbacks(script, trace[n - 1]), ShutdownId(script, trace, n - 1)))
  }

  /** Acknowledgements of any message since the link last went online. */
  function Pubacks(script: seq<Answer>, trace: seq<Entry>, n: nat): nat
    requires n <= |trace|
  {
    if n == 0 || trace[n - 1].Online? then 0
    else Pubacks(script, trace, n - 1) + CountPubacks(Callbacks(script, trace[n - 1]))
  }

  /** What the agent was asked at entry `i`. */
  function AsksAt(script: seq<Answer>, trace: seq<Entry>, i: nat): seq<Ask>
    requires i < |trace|
  {
    Asks(script, ShutdownId(script, trace, i) > 0, trace[i])
  }

  predicate Banned(script: seq<Answer>, trace: seq<Entry>, n: nat)
    requires n <= |trace|
  {
    n > 0 && (Banned(script, trace, n - 1) || AnyBan(AsksAt(script, trace, n - 1)))
  }

  /** The second before which the cloud does not want the agent back: the latest it has asked for. */
  function LatestHold(script: seq<Answer>, trace: seq<Entry>, n: nat): int
    requires n <= |trace|
  {
    if n == 0 then 0 else LastUntil(AsksAt(script, trace, n - 1), LatestHold(script, trace, n - 1))
  }

  /** The latest reason to restart the connection since a shutdown was last announced. */
  function Cause(script: seq<Answer>, trace: seq<Entry>, n: nat): DisconnectAction
    requires n <= |trace|
  {
    if n == 0 || trace[n - 1].Shutdown? then NoDisconnect
    else LastCause(Callbacks(script, trace[n - 1]), ShutdownId(script, trace, n - 1) > 0, Cause(script, trace, n - 1))
  }

  /** The entry rests on an answer of the outside world. */
  predicate UsesAnswer(e: Entry) {
    e.Tried? || e.Served? || e.Shutdown?
  }

  /** The first position of the script that has not been used. */
  function Unused(trace: seq<Entry>, n: nat): nat
    requires n <= |trace|
  {
    if n == 0 then 0 else if UsesAnswer(trace[n - 1]) then trace[n - 1].k + 1 else Unused(trace, n - 1)
  }

  /** All of this together. */
  datatype Reading = Reading(
    online: bool,
    connections: nat,
    announced: bool,
    announcedAt: nat,
    shutdownId: int,
    acked: bool,
    pubacks: nat,
    banned: bool,
    hold: int,
    cause: DisconnectAction,
    unused: nat,
    last: Option<Entry>)

  const START: Reading := Reading(false, 0, false, 0, -1, false, 0, false, 0, NoDisconnect, 0, None)

  function Read(script: seq<Answer>, trace: seq<Entry>, n: nat): Reading
    requires n <= |trace|
  {
    Reading(
      IsOnline(trace, n), Connections(trace, n), Announced(trace, n), AnnouncedAt(trace, n), ShutdownId(script, trace, n),
      Acked(script, trace, n), Pubacks(script, trace, n), Banned(script, trace, n), LatestHold(script, trace, n),
      Cause(script, trace, n), Unused(trace, n), if n == 0 then None else Some(trace[n - 1]))
  }

  /** How a reading changes with one more entry. */
  function After(script: seq<Answer>, r: Reading, e: Entry): Reading {
    var asks, callbacks := Asks(script, r.shutdownId > 0, e), Callbacks(script, e);
    Reading(
      e.Online? || (!e.Offline? && r.online),
      r.connections + if e.Online? then 1 else 0,
      e.Shutdown? || (!e.Offline? && r.announced),
      if e.Shutdown? then e.at else r.announcedAt,
      if e.Offline? then -1 else if e.Shutdown? then AnswerAt(script, e.k).packetId else r.shutdownId,
      !e.Offline? && (r.acked || HasPuback(callbacks, r.shutdownId)),
      if e.Online? then 0 else r.pubacks + CountPubacks(callbacks),
      r.banned || AnyBan(asks),
      LastUntil(asks, r.hold),
      if e.Shutdown? then NoDisconnect else LastCause(callbacks, r.shutdownId > 0, r.cause),
      if UsesAnswer(e) then e.k + 1 else r.unused,
      Some(e))
  }

  lemma ReadNext(script: seq<Answer>, trace: seq<Entry>, n: nat)
    requires n < |trace|
    ensures Read(script, trace, n + 1) == After(script, Read(script, trace, n), trace[n])
  {
  }

  lemma {:induction false} ReadMore(script: seq<Answer>, trace: seq<Entry>, e: Entry, n: nat)
    requires n <= |trace|
    ensures Read(script, trace + [e], n) == Read(script, trace, n)
  {
    if n > 0 {
      ReadMore(script, trace, e, n - 1);
      ReadNext(script, trace, n - 1);
      ReadNext(script, trace + [e], n - 1);
    }
  }

  lemma ReadLonger(script: seq<Answer>, trace: seq<Entry>, e: Entry)
    ensures Read(script, trace + [e], |trace| + 1) == After(script, Read(script, trace, |trace|), e)
  {
    ReadMore(script, trace, e, |trace|);
    ReadNext(script, trace + [e], |trace|);
  }

  // ---- the order of events -----------------------------------------------------------------------------

  /** By the clock that counts whole seconds. */
  predicate TwoSecondsLater(since: nat, at: nat) {
    at / 1000 - since / 1000 >= 2
  }

  /** What can come next, given the answers so far. */
  predicate MayFollow(script: seq<Answer>, r: Reading, e: Entry) {
    match r.last
    case None => e.AttemptStart?
    case Some(last) =>
      match last
      case AttemptStart(_) => e.Tried?
      case Tried(k, _) => if AnswerAt(script, k).attempt.Connects? then e.Online? else e.AttemptStart?
      case Online => e.Served? || e.Shutdown?
      case Served(k, at) =>
        if !AnswerAt(script, k).ok then e.Offline?
        else if r.announced then (if r.acked || TwoSecondsLater(r.announcedAt, at) then e.Offline? else e.Served?)
        else if r.cause != NoDisconnect then e.Shutdown?
        else e.Served? || e.Shutdown?
      case Shutdown(_, _) => e.Served?
      case Offline => e.AttemptStart? || e.Shutdown? || e.Offline?
  }

  /** The entry may follow, it rests on a new answer, and an attempt starts offline. Past the end the shutdown is repeated. */
  predicate InOrder(script: seq<Answer>, r: Reading, e: Entry) {
    && MayFollow(script, r, e)
    && (UsesAnswer(e) ==> e.k >= r.unused || e.k == |script|)
    && (e.AttemptStart? ==> !r.online)
  }

  predicate OrderlyAt(script: seq<Answer>, trace: seq<Entry>, i: nat)
    requires i < |trace|
  {
    InOrder(script, Read(script, trace, i), trace[i])
  }

  predicate Orderly(script: seq<Answer>, trace: seq<Entry>) {
    forall i | 0 <= i < |trace| :: OrderlyAt(script, trace, i)
  }

  /** An attempt before a ban starts when the latest hold-off is over. */
  predicate Patient(r: Reading, e: Entry) {
    e.AttemptStart? && !r.banned ==> e.at >= r.hold * MSEC_PER_SEC
  }

  predicate HonouredAt(script: seq<Answer>, trace: seq<Entry>, i: nat)
    requires i < |trace|
  {
    Patient(Read(script, trace, i), trace[i])
  }

  predicate HoldsHonoured(script: seq<Answer>, trace: seq<Entry>) {
    forall i | 0 <= i < |trace| :: HonouredAt(script, trace, i)
  }

  // ---- what the two verdicts on a trace say, entry by entry ---------------------------------------------

  predicate NoHold(asks: seq<Ask>) {
    forall d | 0 <= d < |asks| :: asks[d].seconds <= 0
  }

  /** The request `c` at entry `i` is the latest hold-off asked for before entry `j`. */
  predicate LatestAsk(script: seq<Answer>, trace: seq<Entry>, i: nat, c: nat, j: nat) {
    && i < j <= |trace| && c < |AsksAt(script, trace, i)| && AsksAt(script, trace, i)[c].seconds > 0
    && (forall d | c < d < |AsksAt(script, trace, i)| :: AsksAt(script, trace, i)[d].seconds <= 0)
    && (forall k | i < k < j :: NoHold(AsksAt(script, trace, k)))
  }

  lemma {:induction false} LastUntilIs(asks: seq<Ask>, c: nat, none: int)
    requires c < |asks| && asks[c].seconds > 0 && forall d | c < d < |asks| :: asks[d].seconds <= 0
    ensures LastUntil(asks, none) == asks[c].Until()
    decreases |asks|
  {
    if c < |asks| - 1 {
      LastUntilIs(asks[..|asks| - 1], c, none);
    }
  }

  lemma {:induction false} LastUntilNone(asks: seq<Ask>, none: int)
    requires NoHold(asks)
    ensures LastUntil(asks, none) == none
    decreases |asks|
  {
    if asks != [] {
      LastUntilNone(asks[..|asks| - 1], none);
    }
  }

  lemma {:induction false} LatestIs(script: seq<Answer>, trace: seq<Entry>, i: nat, c: nat, j: nat)
    requires LatestAsk(script, trace, i, c, j)
    ensures LatestHold(script, trace, j) == AsksAt(script, trace, i)[c].Until()
    decreases j
  {
    var n := j - 1;
    var before := LatestHold(script, trace, n);
    if i == n {
      LastUntilIs(AsksAt(script, trace, n), c, before);
    } else {
      LatestIs(script, trace, i, c, n);
      assert NoHold(AsksAt(script, trace, n));
      LastUntilNone(AsksAt(script, trace, n), before);
    }
  }

  /** The cloud has not banned the agent before entry `j`. */
  predicate NeverBanned(script: seq<Answer>, trace: seq<Entry>, j: nat)
    requires j <= |trace|
  {
    forall i | 0 <= i < j :: !AnyBan(AsksAt(script, trace, i))
  }

  lemma {:induction false} BannedMeans(script: seq<Answer>, trace: seq<Entry>, j: nat)
    requires j <= |trace|
    ensures Banned(script, trace, j) <==> !NeverBanned(script, trace, j)
    decreases j
  {
    if j > 0 {
      BannedMeans(script, trace, j - 1);
      assert AnyBan(AsksAt(script, trace, j - 1)) ==> !NeverBanned(script, trace, j);
    }
  }

  /**
   An attempt of an agent that has not been banned never starts before the latest moment the cloud has asked for, be it
   in a message or in the answer to a login.
   */
  lemma AttemptsRespectRequests(script: seq<Answer>, trace: seq<Entry>, i: nat, c: nat, j: nat)
    requires HoldsHonoured(script, trace) && j < |trace| && trace[j].AttemptStart?
    requires LatestAsk(script, trace, i, c, j) && NeverBanned(script, trace, j)
    ensures trace[j].at >= AsksAt(script, trace, i)[c].Until() * MSEC_PER_SEC
  {
    assert HonouredAt(script, trace, j);
    LatestIs(script, trace, i, c, j);
    BannedMeans(script, trace, j);
  }

  /** Which requests are heard: all of a session that is not being shut down, and those of a failed login. */
  lemma RequestsHeard(script: seq<Answer>, trace: seq<Entry>, i: nat, c: nat)
    requires i < |trace|
    ensures trace[i].Served? && ShutdownId(script, trace, i) > 0 ==> AsksAt(script, trace, i) == []
    ensures trace[i].Served? && ShutdownId(script, trace, i) <= 0 && c < |AnswerAt(script, trace[i].k).callbacks| ==>
      var cb := AnswerAt(script, trace[i].k).callbacks[c];
      && c < |AsksAt(script, trace, i)|
      && (cb.DisconnectReq? ==> AsksAt(script, trace, i)[c] == Ask(cb.permaban, cb.reconnectAfter, trace[i].at))
    ensures trace[i].Tried? && AnswerAt(script, trace[i].k).attempt.OtpFailed? ==>
      var a := AnswerAt(script, trace[i].k).attempt; AsksAt(script, trace, i) == [Ask(a.nonRetryable, a.delay, trace[i].at)]
  {
  }

  /** An attempt is answered, and the link goes online exactly after an answer that connects. */
  lemma SessionsFollowConnects(script: seq<Answer>, trace: seq<Entry>, i: nat)
    requires Orderly(script, trace) && i < |trace|
    ensures trace[i].AttemptStart? && i + 1 < |trace| ==> trace[i + 1].Tried?
    ensures trace[i].Online? ==> i > 0 && trace[i - 1].Tried? && AnswerAt(script, trace[i - 1].k).attempt.Connects?
    ensures trace[i].Tried? && i + 1 < |trace| ==>
      (trace[i + 1].Online? <==> AnswerAt(script, trace[i].k).attempt.Connects?)
  {
    assert OrderlyAt(script, trace, i);
    if i + 1 < |trace| {
      assert OrderlyAt(script, trace, i + 1);
    }
  }

  /** Why the connection has to be restarted: a request, a ping that timed out, or a new claim. */
  predicate Restarts(cb: Callback) {
    cb.DisconnectReq? || cb.PingTimeout? || cb.Reclaim?
  }

  lemma {:induction false} CauseFound(callbacks: seq<Callback>, i: nat, none: DisconnectAction)
    requires i < |callbacks| && Restarts(callbacks[i])
    ensures LastCause(callbacks, false, none) != NoDisconnect
    decreases |callbacks|
  {
    if i < |callbacks| - 1 {
      CauseFound(callbacks[..|callbacks| - 1], i, none);
    }
  }

  lemma {:induction false} UnannouncedId(script: seq<Answer>, trace: seq<Entry>, i: nat)
    requires i <= |trace| && !Announced(trace, i)
    ensures ShutdownId(script, trace, i) == -1
    decreases i
  {
    if i > 0 && !trace[i - 1].Offline? {
      UnannouncedId(script, trace, i - 1);
    }
  }

  /**
   How a session ends. A lost connection goes offline; one that has to be restarted announces its shutdown at once. Both
   are decided by the answer of the library and its callbacks.
   */
  lemma SessionEnds(script: seq<Answer>, trace: seq<Entry>, i: nat)
    requires Orderly(script, trace) && i + 1 < |trace| && trace[i].Served? && !Announced(trace, i)
    ensures var a := AnswerAt(script, trace[i].k);
      && (!a.ok <==> trace[i + 1].Offline?)
      && (a.ok && (exists c | 0 <= c < |a.callbacks| :: Restarts(a.callbacks[c])) ==> trace[i + 1].Shutdown?)
  {
    var a := AnswerAt(script, trace[i].k);
    assert OrderlyAt(script, trace, i + 1);
    UnannouncedId(script, trace, i);
    if c :| 0 <= c < |a.callbacks| && Restarts(a.callbacks[c]) {
      CauseFound(a.callbacks, c, Cause(script, trace, i));
    }
  }

  /** Nothing else is a reason, and a link that is shutting down does not listen to requests. */
  lemma {:induction false} CauseAbsent(callbacks: seq<Callback>, deaf: bool, none: DisconnectAction)
    requires forall i | 0 <= i < |callbacks| :: Restarts(callbacks[i]) ==> deaf && callbacks[i].DisconnectReq?
    ensures LastCause(callbacks, deaf, none) == none
    decreases |callbacks|
  {
    if callbacks != [] {
      CauseAbsent(callbacks[..|callbacks| - 1], deaf, none);
    }
  }

  /** Nothing is being shut down between sessions and when one begins. */
  lemma {:induction false} UnannouncedBetween(script: seq<Answer>, trace: seq<Entry>, n: nat)
    requires Orderly(script, trace) && n <= |trace|
    requires n > 0 ==> !trace[n - 1].Served? && !trace[n - 1].Shutdown?
    ensures !Announced(trace, n)
    decreases n
  {
    if n > 0 && !trace[n - 1].Offline? {
      assert OrderlyAt(script, trace, n - 1);
      UnannouncedBetween(script, trace, n - 1);
    }
  }

  /** A link whose shutdown has been announced is served until the shutdown is acknowledged, the link lost, or two seconds over. */
  lemma ClosingEnds(script: seq<Answer>, trace: seq<Entry>, i: nat)
    requires Orderly(script, trace) && i + 1 < |trace| && trace[i].Served? && Announced(trace, i + 1)
    ensures trace[i + 1].Offline? <==>
      || !AnswerAt(script, trace[i].k).ok
      || Acked(script, trace, i + 1)
      || trace[i].at / 1000 - AnnouncedAt(trace, i + 1) / 1000 >= 2
    ensures trace[i + 1].Offline? || trace[i + 1].Served?
  {
    assert OrderlyAt(script, trace, i + 1);
  }

  /** A reason that came with the loss of a connection is not forgotten: it ends the next session. */
  lemma StaleCauseEndsSession(script: seq<Answer>, trace: seq<Entry>, i: nat)
    requires Orderly(script, trace) && i + 2 < |trace| && trace[i].Online? && trace[i + 1].Served?
    requires Cause(script, trace, i) != NoDisconnect && AnswerAt(script, trace[i + 1].k).ok
    ensures trace[i + 2].Shutdown?
  {
    assert OrderlyAt(script, trace, i + 2);
    UnannouncedBetween(script, trace, i + 1);
    assert !Announced(trace, i + 2);
    assert Cause(script, trace, i + 1) == Cause(script, trace, i);
    CauseStays(AnswerAt(script, trace[i + 1].k).callbacks, ShutdownId(script, trace, i + 1) > 0, Cause(script, trace, i + 1));
  }

  lemma {:induction false} CauseStays(callbacks: seq<Callback>, deaf: bool, none: DisconnectAction)
    requires none != NoDisconnect
    ensures LastCause(callbacks, deaf, none) != NoDisconnect
    decreases |callbacks|
  {
    if callbacks != [] {
      CauseStays(callbacks[..|callbacks| - 1], deaf, none);
    }
  }

  lemma {:induction false} OnlineSince(script: seq<Answer>, trace: seq<Entry>, i: nat, j: nat)
    requires i < j <= |trace| && trace[i].Online? && forall k | i < k < j :: !trace[k].Offline?
    ensures IsOnline(trace, j)
    decreases j
  {
    if i < j - 1 {
      OnlineSince(script, trace, i, j - 1);
    }
  }

  /** Between going online and the next attempt the link goes offline. */
  lemma SessionsEndBeforeAttempts(script: seq<Answer>, trace: seq<Entry>, i: nat, j: nat)
    requires Orderly(script, trace) && i < j < |trace| && trace[i].Online? && trace[j].AttemptStart?
    ensures exists k | i < k < j :: trace[k].Offline?
  {
    assert OrderlyAt(script, trace, j);
    if forall k | i < k < j :: !trace[k].Offline? {
      OnlineSince(script, trace, i, j);
    }
  }

  /** The shutdown message whose id is current: the last one announced in this session. */
  lemma {:induction false} ShutdownSince(script: seq<Answer>, trace: seq<Entry>, j: nat) returns (i: nat)
    requires j <= |trace| && ShutdownId(script, trace, j) >= 0
    ensures i < j && trace[i].Shutdown? && AnswerAt(script, trace[i].k).packetId == ShutdownId(script, trace, j)
    ensures forall k | i < k < j :: !trace[k].Offline? && !trace[k].Shutdown?
    decreases j
  {
    if trace[j - 1].Shutdown? {
      i := j - 1;
    } else {
      i := ShutdownSince(script, trace, j - 1);
    }
  }

  /** An acknowledged shutdown was sent before, in the same session, and its own id was acknowledged. */
  lemma {:induction false} AcksFollowShutdown(script: seq<Answer>, trace: seq<Entry>, n: nat) returns (i: nat, j: nat)
    requires n <= |trace| && Acked(script, trace, n)
    ensures i < j < n && trace[i].Shutdown? && trace[j].Served?
    ensures AnswerAt(script, trace[i].k).packetId > 0
    ensures HasPuback(AnswerAt(script, trace[j].k).callbacks, AnswerAt(script, trace[i].k).packetId)
    ensures forall k | i < k < n :: !trace[k].Offline?
    decreases n
  {
    if Acked(script, trace, n - 1) {
      i, j := AcksFollowShutdown(script, trace, n - 1);
    } else {
      j := n - 1;
      i := ShutdownSince(script, trace, j);
    }
  }

  /** With entry `i` the acknowledgements of the connection reach the number that counts as stable. */
  predicate Stabilises(script: seq<Answer>, trace: seq<Entry>, i: nat) {
    && i < |trace| && trace[i].Served?
    && Pubacks(script, trace, i) < PUBACKS_CONN_STABLE <= Pubacks(script, trace, i + 1)
  }

  lemma {:induction false} PubacksGrow(script: seq<Answer>, trace: seq<Entry>, i: nat, j: nat)
    requires i <= j <= |trace| && forall k | i <= k < j :: !trace[k].Online?
    ensures Pubacks(script, trace, i) <= Pubacks(script, trace, j)
    decreases j
  {
    if i < j {
      PubacksGrow(script, trace, i, j - 1);
    }
  }

  /** Acknowledgements make a connection stable at most once. */
  lemma OneResetPerConnection(script: seq<Answer>, trace: seq<Entry>, i: nat, j: nat)
    requires i < j && Stabilises(script, trace, i) && Stabilises(script, trace, j)
    ensures exists k | i < k < j :: trace[k].Online?
  {
    if forall k | i < k < j :: !trace[k].Online? {
      PubacksGrow(script, trace, i + 1, j);
    }
  }

  // ---- one more entry ------------------------------------------------------------------------------------

  lemma ExtendOrder(script: seq<Answer>, trace: seq<Entry>, e: Entry)
    requires HoldsHonoured(script, trace) && Orderly(script, trace)
    requires InOrder(script, Read(script, trace, |trace|), e) && Patient(Read(script, trace, |trace|), e)
    ensures HoldsHonoured(script, trace + [e]) && Orderly(script, trace + [e])
  {
    var t := trace + [e];
    forall i | 0 <= i < |t|
      ensures OrderlyAt(script, t, i) && HonouredAt(script, t, i)
    {
      ReadMore(script, trace, e, i);
      assert i < |trace| ==> OrderlyAt(script, trace, i) && HonouredAt(script, trace, i);
    }
  }

  // ---- callbacks one after the other ---------------------------------------------------------------------

  /** What the backoff answers: nothing for the first attempt, then the limited raw delay. */
  function BackoffDelay(attempt: nat, conf: BackoffConf, rnd: nat): nat {
    if attempt == 0 then 0 else Limit(RawDelay(conf.base, attempt, rnd), conf.min, conf.max)
  }

  /** The backoff counter, which starts over when the acknowledgements reach the stable number. */
  function AfterAcks(attempt: int, before: nat, after: nat): int {
    if before < PUBACKS_CONN_STABLE <= after then -1 else attempt
  }

  lemma AsksMore(callbacks: seq<Callback>, cb: Callback, at: nat, none: int)
    ensures var asks, ask := AsksOf(callbacks, at), AskOf(cb, at);
      && AsksOf(callbacks + [cb], at) == asks + [ask]
      && AnyBan(asks + [ask]) == (AnyBan(asks) || ask.ban)
      && LastUntil(asks + [ask], none) == if ask.seconds > 0 then ask.Until() else LastUntil(asks, none)
  {
    var asks, ask := AsksOf(callbacks, at), AskOf(cb, at);
    assert (asks + [ask])[..|asks|] == asks;
    if AnyBan(asks) {
      var i :| 0 <= i < |asks| && asks[i].ban;
      assert (asks + [ask])[i].ban;
    }
    assert (asks + [ask])[|asks|] == ask;
  }

  lemma CallbacksMore(callbacks: seq<Callback>, cb: Callback, id: int, none: DisconnectAction)
    ensures var more := callbacks + [cb];
      && CountPubacks(more) == CountPubacks(callbacks) + (if cb.Puback? then 1 else 0)
      && HasPuback(more, id) == (HasPuback(callbacks, id) || (cb.Puback? && cb.packetId == id))
      && LastCause(more, id > 0, none) ==
           (match cb
            case DisconnectReq(_, _) => if id > 0 then LastCause(callbacks, true, none) else CloudDisconnect
            case PingTimeout => PingTimedOut
            case Reclaim => ReloadConf
            case _ => LastCause(callbacks, id > 0, none))
  {
    var more := callbacks + [cb];
    assert more[..|callbacks|] == callbacks && more[|callbacks|] == cb;
    if HasPuback(callbacks, id) {
      var i :| 0 <= i < |callbacks| && callbacks[i].Puback? && callbacks[i].packetId == id;
      assert more[i] == callbacks[i];
    }
  }

  lemma {:induction false} LastUntilDepends(asks: seq<Ask>, a: int, b: int)
    ensures || LastUntil(asks, a) == LastUntil(asks, b) >= 0
            || (LastUntil(asks, a) == a && LastUntil(asks, b) == b)
    decreases |asks|
  {
    if asks != [] {
      LastUntilDepends(asks[..|asks| - 1], a, b);
    }
  }

  const PUBACKS_CONN_STABLE: nat := 3
  const NETDATA_EXIT_POLL_MS: nat := 250
  const BAN_DELAY_MS: nat := 60_000

  // ---- the globals against the trace ---------------------------------------------------------------------

  datatype Globals = Globals(
    connected: bool,
    disconnectReq: DisconnectAction,
    pubacksPerConn: nat,
    connectionCounter: nat,
    disableRuntime: bool,
    blockUntil: int,
    shutdownMsgId: int,
    shutdownMsgRcvd: bool,
    now: nat,
    pos: nat)

  /** The globals are what the answers so far call for. */
  predicate Matches(g: Globals, r: Reading) {
    && g.connected == r.online && g.connectionCounter == r.connections && g.pubacksPerConn == r.pubacks
    && g.disableRuntime == r.banned && g.blockUntil >= 0
  }

  /** Unless the agent is banned, the latest hold-off is stored, or it has been used up and is over. */
  predicate HoldKept(g: Globals, r: Reading) {
    g.disableRuntime || g.blockUntil == r.hold || (g.blockUntil == 0 && g.now >= r.hold * MSEC_PER_SEC)
  }

  /** So is the shutdown message of the session. */
  predicate SessionKept(g: Globals, r: Reading) {
    g.shutdownMsgId == r.shutdownId && g.shutdownMsgRcvd == r.acked
  }

  /** So is the reason to restart. */
  predicate CauseKept(g: Globals, r: Reading) {
    g.disconnectReq == r.cause
  }

  predicate Kept(g: Globals, r: Reading) {
    Matches(g, r) && HoldKept(g, r) && SessionKept(g, r)
  }

  /** All of the trace comes to `r`. */
  predicate ComesTo(script: seq<Answer>, trace: seq<Entry>, r: Reading) {
    forall n | n == |trace| :: r == Read(script, trace, n)
  }

  /** The trace is in order as far as it goes, and comes to `r`. */
  predicate Logged(script: seq<Answer>, trace: seq<Entry>, r: Reading, pos: nat) {
    && ComesTo(script, trace, r) && HoldsHonoured(script, trace) && Orderly(script, trace)
    && pos <= |script| && (r.unused <= pos || pos == |script|)
  }

  /** One more entry, on the answer at position `pos` if it rests on one. */
  lemma Log(script: seq<Answer>, trace: seq<Entry>, r: Reading, pos: nat, e: Entry, pos': nat)
    requires Logged(script, trace, r, pos) && pos <= pos' <= |script|
    requires MayFollow(script, r, e) && (e.AttemptStart? ==> !r.online) && Patient(r, e)
    requires UsesAnswer(e) ==> e.k == pos && (pos < pos' || pos' == |script|)
    ensures Logged(script, trace + [e], After(script, r, e), pos')
  {
    assert r == Read(script, trace, |trace|);
    ExtendOrder(script, trace, e);
    ReadLonger(script, trace, e);
    assert ComesTo(script, trace + [e], After(script, r, e));
  }

  predicate Idle(g: Globals) {
    g.shutdownMsgId == -1 && !g.shutdownMsgRcvd
  }

  /** Between sessions: offline, and no shutdown in flight. */
  predicate Resting(script: seq<Answer>, g: Globals, r: Reading) {
    && Kept(g, r) && CauseKept(g, r) && Idle(g) && !g.connected && !r.announced
    && MayFollow(script, r, AttemptStart(g.now))
  }

  /** A session that may be served or closed next. */
  predicate InSession(script: seq<Answer>, g: Globals, r: Reading) {
    && Kept(g, r) && CauseKept(g, r) && Idle(g) && !r.announced && r.last.Some?
    && (|| r.last.value.Online?
        || (r.last.value.Served? && AnswerAt(script, r.last.value.k).ok && r.cause == NoDisconnect))
  }

  lemma HearKeeps(g: Globals, g': Globals, r: Reading, asks: seq<Ask>)
    requires Matches(g, r) && HoldKept(g, r) && g'.now >= g.now
    requires g'.disableRuntime == (g.disableRuntime || AnyBan(asks)) && g'.blockUntil == LastUntil(asks, g.blockUntil)
    ensures g'.disableRuntime == (r.banned || AnyBan(asks)) && g'.blockUntil >= 0
    ensures HoldKept(g', r.(banned := g'.disableRuntime, hold := LastUntil(asks, r.hold)))
  {
    LastUntilDepends(asks, g.blockUntil, r.hold);
    LastUntilDepends(asks, g.blockUntil, g.blockUntil);
  }

  /** The globals after the callbacks of one service. */
  predicate Handled(g: Globals, g': Globals, callbacks: seq<Callback>) {
    && g'.now >= g.now
    && g'.disableRuntime == (g.disableRuntime || (g.shutdownMsgId <= 0 && AnyBan(AsksOf(callbacks, g'.now))))
    && g'.blockUntil == LastUntil(if g.shutdownMsgId > 0 then [] else AsksOf(callbacks, g'.now), g.blockUntil)
    && g'.pubacksPerConn == g.pubacksPerConn + CountPubacks(callbacks)
    && g'.shutdownMsgRcvd == (g.shutdownMsgRcvd || HasPuback(callbacks, g.shutdownMsgId))
    && g'.disconnectReq == LastCause(callbacks, g.shutdownMsgId > 0, g.disconnectReq)
    && g'.connected == g.connected && g'.connectionCounter == g.connectionCounter
    && g'.shutdownMsgId == g.shutdownMsgId
  }

  /** The answer at `g.pos` has been read. */
  predicate Used(script: seq<Answer>, g: Globals, g': Globals) {
    && g'.now == g.now + AnswerAt(script, g.pos).elapsed
    && g'.pos == if g.pos < |script| then g.pos + 1 else g.pos
  }

  lemma LogServed(script: seq<Answer>, trace: seq<Entry>, r: Reading, g: Globals, g': Globals) returns (r': Reading)
    requires Logged(script, trace, r, g.pos) && MayFollow(script, r, Served(g.pos, g.now))
    requires Kept(g, r) && Used(script, g, g') && Handled(g, g', AnswerAt(script, g.pos).callbacks)
    ensures Logged(script, trace + [Served(g.pos, g'.now)], r', g'.pos) && Kept(g', r')
    ensures CauseKept(g, r) ==> CauseKept(g', r')
    ensures r'.announced == r.announced && r'.announcedAt == r.announcedAt && r'.last == Some(Served(g.pos, g'.now))
  {
    var e := Served(g.pos, g'.now);
    Log(script, trace, r, g.pos, e, g'.pos);
    HearKeeps(g, g', r, Asks(script, r.shutdownId > 0, e));
    r' := After(script, r, e);
  }

  lemma LogTried(script: seq<Answer>, trace: seq<Entry>, r: Reading, g: Globals, g': Globals) returns (r': Reading)
    requires Logged(script, trace, r, g.pos) && r.last.Some? && r.last.value.AttemptStart?
    requires Kept(g, r) && CauseKept(g, r) && Used(script, g, g')
    requires var asks := LoginAsks(AnswerAt(script, g.pos).attempt, g'.now);
      g' == g.(now := g'.now, pos := g'.pos, disableRuntime := g.disableRuntime || AnyBan(asks),
               blockUntil := LastUntil(asks, g.blockUntil))
    ensures Logged(script, trace + [Tried(g.pos, g'.now)], r', g'.pos) && Kept(g', r') && CauseKept(g', r')
    ensures r'.announced == r.announced && r'.last == Some(Tried(g.pos, g'.now))
  {
    var e := Tried(g.pos, g'.now);
    Log(script, trace, r, g.pos, e, g'.pos);
    HearKeeps(g, g', r, LoginAsks(AnswerAt(script, g.pos).attempt, g'.now));
    r' := After(script, r, e);
  }

  lemma LogAttempt(script: seq<Answer>, trace: seq<Entry>, r: Reading, g: Globals) returns (r': Reading)
    requires Logged(script, trace, r, g.pos) && Resting(script, g, r) && Patient(r, AttemptStart(g.now))
    ensures Logged(script, trace + [AttemptStart(g.now)], r', g.pos) && Kept(g, r') && CauseKept(g, r')
    ensures !r'.announced && r'.last == Some(AttemptStart(g.now))
  {
    Log(script, trace, r, g.pos, AttemptStart(g.now), g.pos);
    r' := After(script, r, AttemptStart(g.now));
  }

  lemma LogOnline(script: seq<Answer>, trace: seq<Entry>, r: Reading, g: Globals) returns (r': Reading)
    requires Logged(script, trace, r, g.pos) && MayFollow(script, r, Online)
    requires Kept(g, r) && CauseKept(g, r) && Idle(g) && !r.announced
    ensures Logged(script, trace + [Online], r', g.pos)
    ensures InSession(script, g.(connected := true, pubacksPerConn := 0, connectionCounter := g.connectionCounter + 1), r')
  {
    Log(script, trace, r, g.pos, Online, g.pos);
    r' := After(script, r, Online);
  }

  lemma LogShutdown(script: seq<Answer>, trace: seq<Entry>, r: Reading, g: Globals, g': Globals) returns (r': Reading)
    requires Logged(script, trace, r, g.pos) && MayFollow(script, r, Shutdown(g.pos, g.now))
    requires Kept(g, r) && !g.shutdownMsgRcvd && Used(script, g, g')
    requires g' == g.(now := g'.now, pos := g'.pos, shutdownMsgId := AnswerAt(script, g.pos).packetId)
    ensures Logged(script, trace + [Shutdown(g.pos, g'.now)], r', g'.pos) && Kept(g', r')
    ensures r'.announced && r'.announcedAt == g'.now && r'.cause == NoDisconnect
    ensures r'.last == Some(Shutdown(g.pos, g'.now))
  {
    var e := Shutdown(g.pos, g'.now);
    Log(script, trace, r, g.pos, e, g'.pos);
    r' := After(script, r, e);
  }

  /** The session is over, though its shutdown message may still be remembered. */
  predicate Over(g: Globals, r: Reading) {
    && Matches(g, r) && HoldKept(g, r) && !g.connected
    && r.shutdownId == -1 && !r.acked && !r.announced && r.last == Some(Offline)
  }

  lemma LogOffline(script: seq<Answer>, trace: seq<Entry>, r: Reading, g: Globals) returns (r': Reading)
    requires Logged(script, trace, r, g.pos) && MayFollow(script, r, Offline) && Matches(g, r) && HoldKept(g, r)
    ensures Logged(script, trace + [Offline], r', g.pos) && Over(g.(connected := false), r') && r'.cause == r.cause
  {
    Log(script, trace, r, g.pos, Offline, g.pos);
    r' := After(script, r, Offline);
  }

  class AclkLink {
    var connected: bool
    var disconnectReq: DisconnectAction
    var pubacksPerConn: nat
    var connectionCounter: nat
    var disableRuntime: bool
    /** Monotonic second before which no connection may be made; 0 for none. */
    var blockUntil: int
    var shutdownMsgId: int
    var shutdownMsgRcvd: bool
    var env: BackoffConf
    const tbeb: Tbeb

    /** Monotonic clock in milliseconds. */
    var now: nat
    var running: bool
    const script: seq<Answer>
    var pos: nat

    /** What the thread has done, and what that comes to. */
    ghost var trace: seq<Entry>
    ghost var reading: Reading

    ghost function G(): Globals
      reads this
    {
      Globals(connected, disconnectReq, pubacksPerConn, connectionCounter, disableRuntime, blockUntil,
              shutdownMsgId, shutdownMsgRcvd, now, pos)
    }

    ghost predicate Valid()
      reads this, tbeb
    {
      tbeb.attempt >= -1 && Logged(script, trace, reading, pos)
    }

    constructor (script: seq<Answer>)
      ensures Valid() && Resting(script, G(), reading) && trace == [] && running && this.script == script
    {
      connected, disconnectReq, pubacksPerConn, connectionCounter := false, NoDisconnect, 0, 0;
      disableRuntime, blockUntil, shutdownMsgId, shutdownMsgRcvd := false, 0, -1, false;
      env := BackoffConf(0, 0, 0);
      tbeb := new Tbeb();
      now, running, pos := 0, true, 0;
      this.script := script;
      trace, reading := [], START;
    }

    /** The next answer of the outside world; time passes. */
    method Next() returns (a: Answer)
      requires pos <= |script|
      modifies this`pos, this`now
      ensures a == AnswerAt(script, old(pos)) && now == old(now) + a.elapsed
      ensures pos == if old(pos) < |script| then old(pos) + 1 else old(pos)
    {
      if pos == |script| {
        return SHUTDOWN;
      }
      a := script[pos];
      pos := pos + 1;
      now := now + a.elapsed;
    }

    /** `service_running`: once the agent is told to stop it stays so. */
    method ServiceRunning() returns (r: bool)
      requires pos <= |script|
      modifies this`pos, this`now, this`running
      ensures r == running == (old(running) && AnswerAt(script, old(pos)).running)
      ensures now >= old(now) && old(pos) <= pos <= |script| && (r ==> pos == old(pos) + 1)
    {
      var a := Next();
      running := running && a.running;
      r := running;
    }

    // ---- callbacks ------------------------------------------------------------------------------------

    /** `puback_callback`: the third acknowledgement of a connection resets the backoff. */
    method PubackCallback(packetId: PacketId)
      modifies this`pubacksPerConn, this`shutdownMsgRcvd, tbeb
      ensures pubacksPerConn == old(pubacksPerConn) + 1
      ensures shutdownMsgRcvd == (old(shutdownMsgRcvd) || shutdownMsgId == packetId)
      ensures tbeb.attempt == if pubacksPerConn == 3 then -1 else old(tbeb.attempt)
    {
      pubacksPerConn := pubacksPerConn + 1;
      if pubacksPerConn == PUBACKS_CONN_STABLE {
        tbeb.Reset();
      }
      if shutdownMsgId == packetId {
        shutdownMsgRcvd := true;
      }
    }

    /** The two ways the cloud bans the agent or asks it to stay away: a message, or the answer to a login. */
    method BanAndHold(ban: bool, seconds: int)
      modifies this`disableRuntime, this`blockUntil
      ensures disableRuntime == (old(disableRuntime) || ban)
      ensures blockUntil == LastUntil([Ask(ban, seconds, now)], old(blockUntil))
      ensures blockUntil == if seconds > 0 then now / MSEC_PER_SEC + seconds else old(blockUntil)
    {
      if ban {
        disableRuntime := true;
      }
      if seconds > 0 {
        blockUntil := now / MSEC_PER_SEC + seconds;
      }
    }

    /** `msg_callback` and `handle_disconnect_req`: a link that is shutting down ignores messages. */
    method MsgCallback(cb: Callback)
      modifies this`disableRuntime, this`blockUntil, this`disconnectReq
      ensures cb.DisconnectReq? && shutdownMsgId <= 0 ==>
        && disconnectReq == CloudDisconnect
        && disableRuntime == (old(disableRuntime) || cb.permaban)
        && blockUntil == if cb.reconnectAfter > 0 then now / MSEC_PER_SEC + cb.reconnectAfter else old(blockUntil)
      ensures !cb.DisconnectReq? || shutdownMsgId > 0 ==>
        && disconnectReq == old(disconnectReq)
        && disableRuntime == old(disableRuntime)
        && blockUntil == old(blockUntil)
    {
      if shutdownMsgId > 0 {
        return;
      }
      if cb.DisconnectReq? {
        BanAndHold(cb.permaban, cb.reconnectAfter);
        disconnectReq := CloudDisconnect;
      }
    }

    method RunCallback(cb: Callback)
      modifies this`pubacksPerConn, this`shutdownMsgRcvd, this`disableRuntime, this`blockUntil, this`disconnectReq, tbeb
      ensures pubacksPerConn == old(pubacksPerConn) + if cb.Puback? then 1 else 0
      ensures shutdownMsgRcvd == (old(shutdownMsgRcvd) || (cb.Puback? && cb.packetId == shutdownMsgId))
      ensures disconnectReq == match cb
        case DisconnectReq(_, _) => if shutdownMsgId > 0 then old(disconnectReq) else CloudDisconnect
        case PingTimeout => PingTimedOut
        case Reclaim => ReloadConf
        case _ => old(disconnectReq)
      ensures shutdownMsgId > 0 ==> disableRuntime == old(disableRuntime) && blockUntil == old(blockUntil)
      ensures shutdownMsgId <= 0 ==>
        && disableRuntime == (old(disableRuntime) || AskOf(cb, now).ban)
        && blockUntil == if AskOf(cb, now).seconds > 0 then AskOf(cb, now).Until() else old(blockUntil)
      ensures tbeb.attempt == AfterAcks(old(tbeb.attempt), old(pubacksPerConn), pubacksPerConn)
    {
      match cb {
        case Puback(packetId) => PubackCallback(packetId);
        case PingTimeout => disconnectReq := PingTimedOut;
        case Reclaim => disconnectReq := ReloadConf;
        case _ => MsgCallback(cb);
      }
    }

    method RunCallbacks(callbacks: seq<Callback>)
      modifies this`pubacksPerConn, this`shutdownMsgRcvd, this`disableRuntime, this`blockUntil, this`disconnectReq, tbeb
      ensures pubacksPerConn == old(pubacksPerConn) + CountPubacks(callbacks)
      ensures shutdownMsgRcvd == (old(shutdownMsgRcvd) || HasPuback(callbacks, shutdownMsgId))
      ensures disconnectReq == LastCause(callbacks, shutdownMsgId > 0, old(disconnectReq))
      ensures shutdownMsgId > 0 ==> disableRuntime == old(disableRuntime) && blockUntil == old(blockUntil)
      ensures shutdownMsgId <= 0 ==>
        && disableRuntime == (old(disableRuntime) || AnyBan(AsksOf(callbacks, now)))
        && blockUntil == LastUntil(AsksOf(callbacks, now), old(blockUntil))
      ensures tbeb.attempt == AfterAcks(old(tbeb.attempt), old(pubacksPerConn), pubacksPerConn)
    {
      for i := 0 to |callbacks|
        invariant pubacksPerConn == old(pubacksPerConn) + CountPubacks(callbacks[..i])
        invariant shutdownMsgRcvd == (old(shutdownMsgRcvd) || HasPuback(callbacks[..i], shutdownMsgId))
        invariant disconnectReq == LastCause(callbacks[..i], shutdownMsgId > 0, old(disconnectReq))
        invariant shutdownMsgId > 0 ==> disableRuntime == old(disableRuntime) && blockUntil == old(blockUntil)
        invariant shutdownMsgId <= 0 ==>
          && disableRuntime == (old(disableRuntime) || AnyBan(AsksOf(callbacks[..i], now)))
          && blockUntil == LastUntil(AsksOf(callbacks[..i], now), old(blockUntil))
        invariant tbeb.attempt == AfterAcks(old(tbeb.attempt), old(pubacksPerConn), pubacksPerConn)
      {
        CallbacksMore(callbacks[..i], callbacks[i], shutdownMsgId, old(disconnectReq));
        AsksMore(callbacks[..i], callbacks[i], now, old(blockUntil));
        assert callbacks[..i + 1] == callbacks[..i] + [callbacks[i]];
        RunCallback(callbacks[i]);
      }
      assert callbacks[..|callbacks|] == callbacks;
    }

    /** The next answer of the library, with its callbacks. */
    method ReceiveCallbacks() returns (ok: bool)
      requires pos <= |script|
      modifies this`pos, this`now, this`pubacksPerConn, this`shutdownMsgRcvd, this`disableRuntime,
               this`blockUntil, this`disconnectReq, tbeb
      ensures Handled(old(G()), G(), AnswerAt(script, old(pos)).callbacks) && ok == AnswerAt(script, old(pos)).ok
      ensures tbeb.attempt == AfterAcks(old(tbeb.attempt), old(pubacksPerConn), pubacksPerConn)
      ensures Used(script, old(G()), G())
    {
      var a := Next();
      RunCallbacks(a.callbacks);
      ok := a.ok;
    }

    /** `mqtt_wss_service`: runs the callbacks and says whether the connection still stands. */
    method Service() returns (ok: bool)
      requires Valid() && Kept(G(), reading) && MayFollow(script, reading, Served(pos, now))
      modifies this`pos, this`now, this`pubacksPerConn, this`shutdownMsgRcvd, this`disableRuntime,
               this`blockUntil, this`disconnectReq, this`trace, this`reading, tbeb
      ensures Valid() && Kept(G(), reading) && (old(CauseKept(G(), reading)) ==> CauseKept(G(), reading))
      ensures Handled(old(G()), G(), AnswerAt(script, old(pos)).callbacks) && ok == AnswerAt(script, old(pos)).ok
      ensures trace == old(trace) + [Served(old(pos), now)] && reading.last == Some(Served(old(pos), now))
      ensures reading.announced == old(reading).announced && reading.announcedAt == old(reading).announcedAt
      ensures tbeb.attempt == AfterAcks(old(tbeb.attempt), old(pubacksPerConn), pubacksPerConn)
      ensures pos >= old(pos) && (ok ==> pos == old(pos) + 1)
    {
      ghost var g := G();
      ok := ReceiveCallbacks();
      ghost var r := LogServed(script, trace, reading, g, G());
      trace, reading := trace + [Served(g.pos, now)], r;
    }

    // ---- waiting --------------------------------------------------------------------------------------

    /**
     `aclk_reconnect_delay`: a ban waits a minute, a hold-off for its end, and then it is used up; otherwise the backoff
     decides, with the limits of the cloud or the default ones.
     */
    method ReconnectDelay(rnd: nat) returns (delay: nat)
      requires blockUntil >= 0 && tbeb.attempt >= -1
      modifies this`blockUntil, tbeb
      ensures tbeb.attempt >= -1
      ensures disableRuntime ==> delay == 60_000 && blockUntil == old(blockUntil) && tbeb.attempt == -1
      ensures !disableRuntime ==> blockUntil == 0 && now + delay >= old(blockUntil) * MSEC_PER_SEC
      ensures !disableRuntime && now / MSEC_PER_SEC < old(blockUntil) ==>
        delay == (old(blockUntil) - now / MSEC_PER_SEC) * MSEC_PER_SEC && tbeb.attempt == -1
      ensures !disableRuntime && now / MSEC_PER_SEC >= old(blockUntil) ==>
        && tbeb.attempt == old(tbeb.attempt) + 1
        && delay == BackoffDelay(tbeb.attempt, if env.base == 0 then BackoffConf(2, 0, 1024) else env, rnd)
    {
      if disableRuntime {
        tbeb.Reset();
        return BAN_DELAY_MS;
      }
      var seconds := now / MSEC_PER_SEC;
      if blockUntil != 0 {
        if seconds < blockUntil {
          delay := (blockUntil - seconds) * MSEC_PER_SEC;
          blockUntil := 0;
          tbeb.Reset();
          return;
        }
        blockUntil := 0;
      }
      if env.base == 0 {
        delay := tbeb.Delay(2, 0, 1024, rnd);
      } else {
        delay := tbeb.Delay(env.base, env.min, env.max, rnd);
      }
    }

    method Sleep(ms: nat)
      requires pos <= |script|
      modifies this`pos, this`now
      ensures now >= old(now) + ms && old(pos) <= pos <= |script|
    {
      now := now + ms;
      var _ := Next();
    }

    /** `aclk_block_till_recon_allowed`: the slices slept add up to the delay unless the agent stops. */
    method BlockTillReconAllowed() returns (stop: bool, ghost delay: nat, ghost slept: nat)
      requires blockUntil >= 0 && tbeb.attempt >= -1 && pos <= |script|
      modifies this`pos, this`now, this`running, this`blockUntil, tbeb
      ensures tbeb.attempt >= -1 && slept <= delay && old(pos) <= pos <= |script|
      ensures stop == !running && (running ==> old(running))
      ensures !stop ==> slept == delay && now >= old(now) + delay
      ensures disableRuntime ==> delay == BAN_DELAY_MS && blockUntil == old(blockUntil)
      ensures !disableRuntime ==> blockUntil == 0 && (!stop ==> now >= old(blockUntil) * MSEC_PER_SEC)
    {
      var a := Next();
      var reconDelay: nat := ReconnectDelay(a.rnd);
      delay, slept := reconDelay, 0;
      ghost var start := now;
      while reconDelay != 0
        invariant slept + reconDelay == delay && now >= start + slept && old(pos) <= pos <= |script|
        invariant running == old(running) && tbeb.attempt >= -1
        invariant blockUntil == if disableRuntime then old(blockUntil) else 0
      {
        var r := ServiceRunning();
        if !r {
          return true, delay, slept;
        }
        if reconDelay > NETDATA_EXIT_POLL_MS {
          Sleep(NETDATA_EXIT_POLL_MS);
          slept := slept + NETDATA_EXIT_POLL_MS;
          reconDelay := reconDelay - NETDATA_EXIT_POLL_MS;
          continue;
        }
        Sleep(reconDelay);
        slept := slept + reconDelay;
        reconDelay := 0;
      }
      var r := ServiceRunning();
      stop := !r;
    }

    // ---- sessions -------------------------------------------------------------------------------------

    /** `mqtt_connected_actions`. */
    method MqttConnectedActions()
      requires Valid() && Kept(G(), reading) && CauseKept(G(), reading) && Idle(G()) && !reading.announced
      requires MayFollow(script, reading, Online)
      modifies this`connected, this`pubacksPerConn, this`connectionCounter, this`pos, this`now, this`trace, this`reading
      ensures Valid() && InSession(script, G(), reading) && pos >= old(pos)
      ensures connected && connectionCounter == old(connectionCounter) + 1 && pubacksPerConn == 0
      ensures trace == old(trace) + [Online]
    {
      ghost var r := LogOnline(script, trace, reading, G());
      connected := true;
      pubacksPerConn := 0;
      connectionCounter := connectionCounter + 1;
      trace, reading := trace + [Online], r;
      var _ := Next();
    }

    /** The moment an attempt begins, after `aclk_block_till_recon_allowed` has let it through. */
    method StartAttempt()
      requires Valid() && Resting(script, G(), reading) && Patient(reading, AttemptStart(now))
      modifies this`trace, this`reading
      ensures Valid() && Kept(G(), reading) && CauseKept(G(), reading) && !reading.announced
      ensures trace == old(trace) + [AttemptStart(now)] && reading.last == Some(AttemptStart(now))
    {
      ghost var r := LogAttempt(script, trace, reading, G());
      trace, reading := trace + [AttemptStart(now)], r;
    }

    /** What an answer changes in the configuration, and a login that fails in the hold-off. */
    method ApplyAnswer(attempt: Attempt)
      modifies this`env, this`disableRuntime, this`blockUntil
      ensures disableRuntime == (old(disableRuntime) || AnyBan(LoginAsks(attempt, now)))
      ensures blockUntil == LastUntil(LoginAsks(attempt, now), old(blockUntil))
      ensures env == match attempt
        case BadUrl => old(env)
        case EnvFailed => BackoffConf(0, 0, 0)
        case _ => attempt.conf
    {
      match attempt {
        case BadUrl =>
        case EnvFailed => env := BackoffConf(0, 0, 0);
        case OtpFailed(conf, nonRetryable, delay) =>
          env := conf;
          BanAndHold(nonRetryable, delay);
          assert [Ask(nonRetryable, delay, now)][0].ban == nonRetryable;
        case Stops(conf) => env := conf;
        case ConnectFailed(conf) => env := conf;
        case Connects(conf) => env := conf;
      }
    }

    /** The answer to an attempt. */
    method TakeAnswer() returns (attempt: Attempt)
      requires Valid() && Kept(G(), reading) && CauseKept(G(), reading) && !reading.announced
      requires reading.last.Some? && reading.last.value.AttemptStart?
      modifies this`pos, this`now, this`env, this`disableRuntime, this`blockUntil, this`trace, this`reading
      ensures Valid() && Kept(G(), reading) && CauseKept(G(), reading) && !reading.announced
      ensures trace == old(trace) + [Tried(old(pos), now)] && reading.last == Some(Tried(old(pos), now))
      ensures attempt == AnswerAt(script, old(pos)).attempt && pos >= old(pos) && now >= old(now)
    {
      ghost var g := G();
      var a := Next();
      attempt := a.attempt;
      ApplyAnswer(attempt);
      ghost var r := LogTried(script, trace, reading, g, G());
      trace, reading := trace + [Tried(g.pos, now)], r;
    }

    /** The rest of one pass; false means that the loop tries again, if the agent still runs. */
    method FinishAttempt() returns (success: bool)
      requires Valid() && Kept(G(), reading) && CauseKept(G(), reading) && Idle(G()) && !reading.announced && !connected
      requires reading.last.Some? && reading.last.value.AttemptStart?
      modifies this`pos, this`now, this`env, this`disableRuntime, this`blockUntil, this`trace, this`reading,
               this`running, this`connected, this`pubacksPerConn, this`connectionCounter
      ensures Valid() && pos >= old(pos)
      ensures success == AnswerAt(script, old(pos)).attempt.Connects?
      ensures running == (old(running) && !AnswerAt(script, old(pos)).attempt.Stops?)
      ensures AnswerAt(script, old(pos)).attempt.BadUrl? ==> now >= old(now) + 30_000
      ensures if success then InSession(script, G(), reading) else Resting(script, G(), reading)
    {
      var attempt := TakeAnswer();
      match attempt {
        case BadUrl => Sleep(30 * MSEC_PER_SEC);
        case Stops(_) => running := false;
        case Connects(_) => MqttConnectedActions();
        case _ =>
      }
      success := attempt.Connects?;
    }

    /** What comes before an attempt: the agent runs, it has a URL, and the delay is over. The code is 0 if so. */
    method Admit() returns (rc: int)
      requires Valid() && Resting(script, G(), reading)
      modifies this`pos, this`now, this`running, this`blockUntil, tbeb
      ensures Valid() && Matches(G(), reading) && !connected && pos >= old(pos) && (running ==> old(running))
      ensures rc == 0 ==> Resting(script, G(), reading) && Patient(reading, AttemptStart(now)) && pos > old(pos)
      ensures rc == 1 ==> !running
      ensures rc != 0 && rc != 1 ==> 0 < pos <= |script| && !script[pos - 1].cloudUrl
    {
      var r := ServiceRunning();
      if !r {
        return 1;
      }
      var a := Next();
      if !a.cloudUrl {
        return -1;
      }
      var stop, _, _ := BlockTillReconAllowed();
      rc := if stop then 1 else 0;
    }

    /** `aclk_attempt_to_connect`; its precondition is the state every call site has to establish. */
    method AttemptToConnect() returns (rc: int)
      requires Valid() && Resting(script, G(), reading)
      modifies this`pos, this`now, this`env, this`disableRuntime, this`blockUntil, this`trace, this`reading,
               this`running, this`connected, this`pubacksPerConn, this`connectionCounter, tbeb
      ensures Valid() && Matches(G(), reading) && pos >= old(pos) && (running ==> old(running))
      ensures rc == 0 ==> InSession(script, G(), reading) && pos > old(pos)
      ensures rc != 0 ==> !connected
      ensures rc == 1 ==> !running
      ensures rc != 0 && rc != 1 ==> 0 < pos <= |script| && !script[pos - 1].cloudUrl
    {
      while true
        invariant Valid() && Resting(script, G(), reading) && pos >= old(pos) && (running ==> old(running))
        decreases |script| - pos
      {
        rc := Admit();
        if rc != 0 {
          return;
        }
        StartAttempt();
        var success := FinishAttempt();
        if success {
          return 0;
        }
      }
    }

    /** `aclk_send_agent_connection_update` for a shutdown; a message that cannot be sent has the id zero. */
    method SendShutdown()
      requires Valid() && Kept(G(), reading) && !shutdownMsgRcvd && MayFollow(script, reading, Shutdown(pos, now))
      modifies this`shutdownMsgId, this`trace, this`reading, this`pos, this`now
      ensures Valid() && Kept(G(), reading) && reading.cause == NoDisconnect && pos >= old(pos)
      ensures reading.announced && reading.announcedAt == now
      ensures trace == old(trace) + [Shutdown(old(pos), now)] && reading.last == Some(Shutdown(old(pos), now))
      ensures shutdownMsgId == AnswerAt(script, old(pos)).packetId
    {
      ghost var g := G();
      var a := Next();
      shutdownMsgId := a.packetId;
      ghost var r := LogShutdown(script, trace, reading, g, G());
      trace, reading := trace + [Shutdown(g.pos, now)], r;
    }

    /** `aclk_graceful_disconnect`: one more service at least, until it is acknowledged, lost or late. */
    method GracefulDisconnect()
      requires Valid() && Kept(G(), reading) && !shutdownMsgRcvd && MayFollow(script, reading, Shutdown(pos, now))
      modifies this`pos, this`now, this`pubacksPerConn, this`shutdownMsgId, this`shutdownMsgRcvd, this`disableRuntime,
               this`blockUntil, this`disconnectReq, this`connected, this`trace, this`reading, tbeb
      ensures Valid() && Over(G(), reading) && pos >= old(pos)
      ensures |trace| > |old(trace)| && old(trace) <= trace && trace[|old(trace)|].Shutdown?
      ensures trace[|old(trace)|].k == old(pos)
      ensures old(disconnectReq) == NoDisconnect ==> CauseKept(G(), reading)
    {
      SendShutdown();
      ghost var sent := trace;
      var t := now / MSEC_PER_SEC;
      var ok := Service();
      while ok
        invariant Valid() && Kept(G(), reading) && pos >= old(pos) && sent <= trace
        invariant reading.announced && reading.announcedAt / MSEC_PER_SEC == t
        invariant reading.last.Some? && reading.last.value.Served? && reading.last.value.at == now
        invariant ok == AnswerAt(script, reading.last.value.k).ok
        invariant old(disconnectReq) == NoDisconnect ==> CauseKept(G(), reading)
        decreases |script| - pos, ok
      {
        if now / MSEC_PER_SEC - t >= 2 {
          break;
        }
        if shutdownMsgRcvd {
          break;
        }
        ok := Service();
      }
      GoOffline();
    }

    /** `aclk_set_disconnected` */
    method GoOffline()
      requires Valid() && Matches(G(), reading) && HoldKept(G(), reading) && MayFollow(script, reading, Offline)
      modifies this`connected, this`trace, this`reading
      ensures Valid() && Over(G(), reading)
      ensures trace == old(trace) + [Offline]
      ensures old(CauseKept(G(), reading)) ==> CauseKept(G(), reading)
    {
      ghost var r := LogOffline(script, trace, reading, G());
      trace, reading := trace + [Offline], r;
      connected := false;
    }

    /** The connection is restarted: its shutdown is announced, and what belonged to it is forgotten. */
    method Restart()
      requires Valid() && Kept(G(), reading) && Idle(G()) && MayFollow(script, reading, Shutdown(pos, now))
      modifies this`pos, this`now, this`pubacksPerConn, this`shutdownMsgId, this`shutdownMsgRcvd, this`disableRuntime,
               this`blockUntil, this`disconnectReq, this`connected, this`trace, this`reading, tbeb
      ensures Valid() && Kept(G(), reading) && CauseKept(G(), reading) && Idle(G()) && Over(G(), reading)
      ensures |trace| > |old(trace)| && old(trace) <= trace && trace[|old(trace)|].Shutdown? && pos >= old(pos)
    {
      disconnectReq := NoDisconnect;
      GracefulDisconnect();
      shutdownMsgId := -1;
      shutdownMsgRcvd := false;
    }

    /** One round of `handle_connection`; `again` means that the connection is gone. */
    method Serve() returns (again: bool)
      requires Valid() && InSession(script, G(), reading)
      modifies this`pos, this`now, this`pubacksPerConn, this`shutdownMsgId, this`shutdownMsgRcvd, this`disableRuntime,
               this`blockUntil, this`disconnectReq, this`connected, this`trace, this`reading, tbeb
      ensures Valid() && pos >= old(pos) && (!again ==> InSession(script, G(), reading) && pos > old(pos))
      ensures again ==>
        && Kept(G(), reading) && CauseKept(G(), reading) && Idle(G()) && !reading.announced
        && MayFollow(script, reading, Offline)
    {
      var ok := Service();
      assert Idle(G());
      if !ok {
        return true;
      }
      again := disconnectReq != NoDisconnect;
      if again {
        Restart();
      }
    }

    /** `handle_connection`: true means that the connection is gone and has to be made again. */
    method HandleConnection() returns (again: bool)
      requires Valid() && InSession(script, G(), reading)
      modifies this`pos, this`now, this`pubacksPerConn, this`shutdownMsgId, this`shutdownMsgRcvd, this`disableRuntime,
               this`blockUntil, this`disconnectReq, this`connected, this`trace, this`reading, this`running, tbeb
      ensures Valid() && Kept(G(), reading) && CauseKept(G(), reading) && Idle(G()) && !reading.announced && pos >= old(pos)
      ensures MayFollow(script, reading, if again then Offline else Shutdown(pos, now))
      ensures !again ==> !running
      ensures running ==> old(running)
    {
      while true
        invariant Valid() && InSession(script, G(), reading) && pos >= old(pos) && (running ==> old(running))
        decreases |script| - pos
      {
        var r := ServiceRunning();
        if !r {
          return false;
        }
        again := Serve();
        if again {
          return;
        }
      }
    }

    /** After a session: the link goes offline if it has to be made again, and the agent may be told to stop. */
    method AfterSession(again: bool) returns (stop: bool)
      requires Valid() && Kept(G(), reading) && CauseKept(G(), reading) && Idle(G()) && !reading.announced
      requires MayFollow(script, reading, if again then Offline else Shutdown(pos, now)) && (!again ==> !running)
      modifies this`pos, this`now, this`running, this`connected, this`trace, this`reading
      ensures Valid() && Kept(G(), reading) && !shutdownMsgRcvd && stop == !running && pos >= old(pos)
      ensures if stop then MayFollow(script, reading, Shutdown(pos, now)) else Resting(script, G(), reading)
    {
      if again {
        GoOffline();
      }
      var r := ServiceRunning();
      stop := !r;
    }

    /**
     `aclk_main` from its loop on. Whatever the outside world answers, the run keeps to what the cloud asks for and to the
     order of events that the answers call for; it ends offline, and only if the agent is told to stop or has no URL.
     */
    method Run()
      requires Valid() && Resting(script, G(), reading)
      modifies this, tbeb
      ensures HoldsHonoured(script, trace) && Orderly(script, trace) && reading == Read(script, trace, |trace|)
      ensures connectionCounter == reading.connections
      ensures !connected && !reading.online
      ensures !running || (0 < pos <= |script| && !script[pos - 1].cloudUrl)
    {
      while true
        invariant Valid() && Resting(script, G(), reading)
        decreases |script| - pos
      {
        var rc := AttemptToConnect();
        if rc != 0 {
          return;
        }
        var again := HandleConnection();
        var stop := AfterSession(again);
        if stop {
          break;
        }
      }
      GracefulDisconnect();
    }
  }
}
