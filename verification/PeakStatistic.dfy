/**
 The lock-free maximum `web_usec_max` of src/daemon/global_statistics.c. Any number of requests raise it with a
 compare-and-exchange loop while any number of readers copy it and, if asked to, reset it to zero. Every step is
 one atomic access; a weak compare-and-exchange may also fail for no reason.
 */
module PeakStatistic {

  /** `seen` is the local copy the loop compares against. */
  datatype RequestPc = Loading | Looping(seen: nat) | Completed

  datatype Request = Request(dt: nat, pc: RequestPc)

  /** A reader with the value it has loaded, and finally the value it reports and whether it did reset. */
  datatype Reader = Fresh(reset: bool) | Loaded(value: nat) | Reported(value: nat, didReset: bool)

  datatype Sys = Sys(max: nat, requests: seq<Request>, readers: seq<Reader>)

  const INIT: Sys := Sys(0, [], [])

  datatype Event =
    | BeginRequest(dt: nat)
    | BeginRead(reset: bool)
    | RequestStep(i: nat, spurious: bool)
    | ReaderStep(i: nat, spurious: bool)

  predicate CanHappen(s: Sys, e: Event) {
    match e
    case RequestStep(i, _) => i < |s.requests| && s.requests[i].pc != Completed
    case ReaderStep(i, _) => i < |s.readers| && !s.readers[i].Reported?
    case _ => true
  }

  /** The loop does not update its copy when the exchange succeeds, so it goes round once more. */
  function StepRequest(s: Sys, i: nat, spurious: bool): Sys
    requires i < |s.requests|
  {
    var r := s.requests[i];
    match r.pc
    case Loading => s.(requests := s.requests[i := r.(pc := Looping(s.max))])
    case Looping(seen) =>
      if r.dt <= seen then s.(requests := s.requests[i := r.(pc := Completed)])
      else if s.max == seen && !spurious then s.(max := r.dt)
      else s.(requests := s.requests[i := r.(pc := Looping(s.max))])
    case Completed => s
  }

  /** A failed exchange overwrites the reader's copy with the current value. */
  function StepReader(s: Sys, i: nat, spurious: bool): Sys
    requires i < |s.readers|
  {
    match s.readers[i]
    case Fresh(reset) => s.(readers := s.readers[i := if reset then Loaded(s.max) else Reported(s.max, false)])
    case Loaded(value) =>
      if s.max == value && !spurious then Sys(0, s.requests, s.readers[i := Reported(value, true)])
      else s.(readers := s.readers[i := Reported(s.max, false)])
    case Reported(_, _) => s
  }

  function Happen(s: Sys, e: Event): Sys
    requires CanHappen(s, e)
  {
    match e
    case BeginRequest(dt) => s.(requests := s.requests + [Request(dt, Loading)])
    case BeginRead(reset) => s.(readers := s.readers + [Fresh(reset)])
    case RequestStep(i, spurious) => StepRequest(s, i, spurious)
    case ReaderStep(i, spurious) => StepReader(s, i, spurious)
  }

  predicate IsRun(s: Sys, run: seq<Event>)
    decreases |run|
  {
    run == [] || (CanHappen(s, run[0]) && IsRun(Happen(s, run[0]), run[1..]))
  }

  function Last(s: Sys, run: seq<Event>): Sys
    requires IsRun(s, run)
    decreases |run|
  {
    if run == [] then s else Last(Happen(s, run[0]), run[1..])
  }

  // ---- what every step keeps ------------------------------------------------------------------------

  predicate DidReset(r: Reader) {
    r.Reported? && r.didReset
  }

  /** The value is still in the statistic, or a reader that reset it has reported at least as much. */
  predicate Covered(s: Sys, v: nat) {
    v <= s.max || exists i | 0 <= i < |s.readers| :: DidReset(s.readers[i]) && v <= s.readers[i].value
  }

  /** The value is zero or the duration of a request. */
  predicate Known(s: Sys, v: nat) {
    v == 0 || exists i | 0 <= i < |s.requests| :: s.requests[i].dt == v
  }

  /** A request has only seen covered values, and it is covered itself once completed. */
  predicate RequestOk(s: Sys, r: Request) {
    match r.pc
    case Loading => true
    case Looping(seen) => Covered(s, seen) && Known(s, seen)
    case Completed => Covered(s, r.dt)
  }

  predicate ReaderOk(s: Sys, r: Reader) {
    r.Fresh? || Known(s, r.value)
  }

  ghost predicate Inv(s: Sys) {
    && Known(s, s.max)
    && (forall i | 0 <= i < |s.requests| :: RequestOk(s, s.requests[i]))
    && (forall i | 0 <= i < |s.readers| :: ReaderOk(s, s.readers[i]))
  }

  /** No step uncovers a value or forgets a request. */
  lemma StepKeepsCover(s: Sys, e: Event, v: nat)
    requires CanHappen(s, e)
    ensures Covered(s, v) ==> Covered(Happen(s, e), v)
    ensures Known(s, v) ==> Known(Happen(s, e), v)
  {
    var s' := Happen(s, e);
    if Covered(s, v) && s.max < v {
      var i :| 0 <= i < |s.readers| && DidReset(s.readers[i]) && v <= s.readers[i].value;
      assert s'.readers[i] == s.readers[i];
    }
    if e.ReaderStep? && s'.readers[e.i].Reported? && s'.readers[e.i].didReset {
      assert DidReset(s'.readers[e.i]) && s'.readers[e.i].value == s.max;
    }
    if Known(s, v) && v != 0 {
      var i :| 0 <= i < |s.requests| && s.requests[i].dt == v;
      assert s'.requests[i].dt == v;
    }
  }

  lemma StepKeepsOk(s: Sys, e: Event, r: Request, d: Reader)
    requires CanHappen(s, e)
    ensures RequestOk(s, r) ==> RequestOk(Happen(s, e), r)
    ensures ReaderOk(s, d) ==> ReaderOk(Happen(s, e), d)
  {
    match r.pc {
      case Loading =>
      case Looping(seen) => StepKeepsCover(s, e, seen);
      case Completed => StepKeepsCover(s, e, r.dt);
    }
    if !d.Fresh? {
      StepKeepsCover(s, e, d.value);
    }
  }

  /** The request that stepped is in order again. */
  lemma SteppedRequestOk(s: Sys, i: nat, spurious: bool)
    requires Inv(s) && CanHappen(s, RequestStep(i, spurious))
    ensures var s' := StepRequest(s, i, spurious); RequestOk(s', s'.requests[i]) && Known(s', s'.max)
  {
    var e := RequestStep(i, spurious);
    var r := s.requests[i];
    var s' := Happen(s, e);
    assert RequestOk(s, r);
    assert s'.requests[i].dt == r.dt;
    StepKeepsCover(s, e, s.max);
    if r.pc.Looping? {
      StepKeepsCover(s, e, r.pc.seen);
      if r.dt <= r.pc.seen {
        CoverDownward(s', r.pc.seen, r.dt);
      }
    }
  }

  lemma SteppedReaderOk(s: Sys, i: nat, spurious: bool)
    requires Inv(s) && CanHappen(s, ReaderStep(i, spurious))
    ensures var s' := StepReader(s, i, spurious); ReaderOk(s', s'.readers[i]) && Known(s', s'.max)
  {
    var e := ReaderStep(i, spurious);
    StepKeepsCover(s, e, s.max);
    if !s.readers[i].Fresh? {
      StepKeepsCover(s, e, s.readers[i].value);
    }
  }

  lemma StepKeepsInv(s: Sys, e: Event)
    requires Inv(s) && CanHappen(s, e)
    ensures Inv(Happen(s, e))
  {
    var s' := Happen(s, e);
    StepKeepsCover(s, e, s.max);
    match e {
      case RequestStep(i, spurious) => SteppedRequestOk(s, i, spurious);
      case ReaderStep(i, spurious) => SteppedReaderOk(s, i, spurious);
      case _ =>
    }
    forall i | 0 <= i < |s'.requests| ensures RequestOk(s', s'.requests[i]) {
      if i < |s.requests| {
        StepKeepsOk(s, e, s.requests[i], Fresh(true));
      }
    }
    forall i | 0 <= i < |s'.readers| ensures ReaderOk(s', s'.readers[i]) {
      if i < |s.readers| {
        StepKeepsOk(s, e, Request(0, Loading), s.readers[i]);
      }
    }
  }

  lemma CoverDownward(s: Sys, v: nat, w: nat)
    requires Covered(s, v) && w <= v
    ensures Covered(s, w)
  {
  }

  lemma {:induction false} RunKeepsInv(s: Sys, run: seq<Event>)
    requires Inv(s) && IsRun(s, run)
    ensures Inv(Last(s, run))
    decreases |run|
  {
    if run != [] {
      StepKeepsInv(s, run[0]);
      RunKeepsInv(Happen(s, run[0]), run[1..]);
    }
  }

  // ---- main results -----------------------------------------------------------------------------------

  /** No peak is lost: a completed request is at most the statistic or at most some report that reset it. */
  lemma NoPeakLost(run: seq<Event>, i: nat)
    requires IsRun(INIT, run) && i < |Last(INIT, run).requests| && Last(INIT, run).requests[i].pc.Completed?
    ensures Covered(Last(INIT, run), Last(INIT, run).requests[i].dt)
  {
    RunKeepsInv(INIT, run);
  }

  /** No peak is invented: whatever the statistic shows or a reader reports belongs to a request. */
  lemma NoPeakInvented(run: seq<Event>)
    requires IsRun(INIT, run)
    ensures var s := Last(INIT, run);
      Known(s, s.max) && forall i | 0 <= i < |s.readers| && s.readers[i].Reported? :: Known(s, s.readers[i].value)
  {
    RunKeepsInv(INIT, run);
  }

  /** The greatest value the statistic shows or a resetting reader has reported. */
  function Peak(max: nat, readers: seq<Reader>): nat {
    if readers == [] then max
    else
      var p := Peak(max, readers[1..]);
      if DidReset(readers[0]) && readers[0].value > p then readers[0].value else p
  }

  lemma {:induction false} PeakIsGreatest(max: nat, readers: seq<Reader>)
    ensures max <= Peak(max, readers)
    ensures forall i | 0 <= i < |readers| && DidReset(readers[i]) :: readers[i].value <= Peak(max, readers)
    ensures Peak(max, readers) == max
         || exists i | 0 <= i < |readers| :: DidReset(readers[i]) && readers[i].value == Peak(max, readers)
    decreases |readers|
  {
    if readers != [] {
      PeakIsGreatest(max, readers[1..]);
      assert forall i | 0 < i < |readers| :: readers[i] == readers[1..][i - 1];
    }
  }

  /**
   Once every request has completed, the statistic and the resetting reports together show exactly the
   longest request: no request is longer, and one is as long unless all took no time.
   */
  lemma QuiescentPeakExact(run: seq<Event>)
    requires IsRun(INIT, run)
    requires forall i | 0 <= i < |Last(INIT, run).requests| :: Last(INIT, run).requests[i].pc.Completed?
    ensures var s := Last(INIT, run);
      var p := Peak(s.max, s.readers);
      (forall i | 0 <= i < |s.requests| :: s.requests[i].dt <= p) && Known(s, p)
  {
    RunKeepsInv(INIT, run);
    var s := Last(INIT, run);
    PeakIsGreatest(s.max, s.readers);
    var p := Peak(s.max, s.readers);
    forall i | 0 <= i < |s.requests| ensures s.requests[i].dt <= p {
      assert RequestOk(s, s.requests[i]);
    }
  }

  // ---- the loop ends when left alone ----------------------------------------------------------------------

  function StepTimes(s: Sys, i: nat, n: nat): (s': Sys)
    requires i < |s.requests|
    ensures |s'.requests| == |s.requests|
    decreases n
  {
    if n == 0 then s else StepTimes(StepRequest(s, i, false), i, n - 1)
  }

  /** A request that nobody interferes with completes within five steps, and the statistic then covers it. */
  lemma SoloCompletes(s: Sys, i: nat)
    requires i < |s.requests|
    ensures StepTimes(s, i, 5).requests[i].pc.Completed?
    ensures !s.requests[i].pc.Completed? && (s.requests[i].pc.Looping? ==> s.requests[i].pc.seen <= s.max)
            ==> s.requests[i].dt <= StepTimes(s, i, 5).max
  {
    FiveSteps(s, i);
  }

  lemma FiveSteps(s: Sys, i: nat)
    requires i < |s.requests|
    ensures var s1 := StepRequest(s, i, false);
      var s2 := StepRequest(s1, i, false);
      var s3 := StepRequest(s2, i, false);
      var s4 := StepRequest(s3, i, false);
      StepTimes(s, i, 5) == StepRequest(s4, i, false)
  {
    var s1 := StepRequest(s, i, false);
    var s2 := StepRequest(s1, i, false);
    var s3 := StepRequest(s2, i, false);
    assert StepTimes(s, i, 5) == StepTimes(s1, i, 4) == StepTimes(s2, i, 3);
    assert StepTimes(s3, i, 2) == StepTimes(StepRequest(s3, i, false), i, 1);
  }

  // ---- a peak may be reported more than once -----------------------------------------------------------

  ghost predicate Reachable(s: Sys) {
    exists run :: IsRun(INIT, run) && Last(INIT, run) == s
  }

  lemma {:induction false} RunAppend(s: Sys, run: seq<Event>, e: Event)
    requires IsRun(s, run) && CanHappen(Last(s, run), e)
    ensures IsRun(s, run + [e]) && Last(s, run + [e]) == Happen(Last(s, run), e)
    decreases |run|
  {
    if run == [] {
      assert run + [e] == [e] && [e][1..] == [];
    } else {
      assert (run + [e])[0] == run[0] && (run + [e])[1..] == run[1..] + [e];
      RunAppend(Happen(s, run[0]), run[1..], e);
    }
  }

  lemma ReachableNext(s: Sys, e: Event) returns (s': Sys)
    requires Reachable(s) && CanHappen(s, e)
    ensures s' == Happen(s, e) && Reachable(s')
  {
    var run :| IsRun(INIT, run) && Last(INIT, run) == s;
    RunAppend(INIT, run, e);
    s' := Happen(s, e);
  }

  // ---- how often a peak is published and reported -------------------------------------------------

  /** The event stores the time of request `i` as the maximum. */
  predicate Publishes(s: Sys, e: Event, i: nat)
    requires CanHappen(s, e)
  {
    e.RequestStep? && e.i == i && !e.spurious &&
    match s.requests[i].pc
    case Looping(seen) => s.requests[i].dt > seen && s.max == seen
    case _ => false
  }

  /** The event is a successful exchange of a reader, which sets the maximum to zero. */
  predicate Resets(s: Sys, e: Event)
    requires CanHappen(s, e)
  {
    e.ReaderStep? && !e.spurious && s.readers[e.i].Loaded? && s.max == s.readers[e.i].value
  }

  function Publications(s: Sys, run: seq<Event>, i: nat): nat
    requires IsRun(s, run)
    decreases |run|
  {
    if run == [] then 0
    else (if Publishes(s, run[0], i) then 1 else 0) + Publications(Happen(s, run[0]), run[1..], i)
  }

  function ResetCount(s: Sys, run: seq<Event>): nat
    requires IsRun(s, run)
    decreases |run|
  {
    if run == [] then 0 else (if Resets(s, run[0]) then 1 else 0) + ResetCount(Happen(s, run[0]), run[1..])
  }

  /** The maximum falls only by a reset. */
  lemma OnlyResetsLower(s: Sys, e: Event)
    requires CanHappen(s, e)
    ensures Happen(s, e).max < s.max ==> Resets(s, e)
    ensures Resets(s, e) ==> Happen(s, e).max == 0
  {
  }

  /** Whatever a reader reports, with or without a reset, is the maximum at the moment it reports. */
  lemma ReportsTheMaximum(s: Sys, i: nat, spurious: bool)
    requires CanHappen(s, ReaderStep(i, spurious))
    ensures var r := Happen(s, ReaderStep(i, spurious)).readers[i];
      && (r.Reported? ==> r.value == s.max && r.didReset == Resets(s, ReaderStep(i, spurious)))
      && (!r.Reported? ==> s.readers[i] == Fresh(true) && r == Loaded(s.max))
    ensures s.readers[i] == Fresh(false) || s.readers[i].Loaded? ==>
      Happen(s, ReaderStep(i, spurious)).readers[i].Reported?
  {
  }

  /** Over a whole run: a maximum that is lower at the end was reset in between. */
  lemma {:induction false} LowerMeansReset(s: Sys, run: seq<Event>)
    requires IsRun(s, run) && Last(s, run).max < s.max
    ensures ResetCount(s, run) > 0
    decreases |run|
  {
    OnlyResetsLower(s, run[0]);
    if !Resets(s, run[0]) {
      LowerMeansReset(Happen(s, run[0]), run[1..]);
    }
  }

  /** Nothing is left for the request to publish, as long as nobody resets the maximum. */
  predicate Settled(s: Sys, i: nat)
    requires i < |s.requests|
  {
    var r := s.requests[i];
    r.pc.Completed? || s.max >= r.dt || (r.pc.Looping? && r.pc.seen >= r.dt)
  }

  lemma SettledStays(s: Sys, e: Event, i: nat)
    requires CanHappen(s, e) && i < |s.requests|
    ensures i < |Happen(s, e).requests| && Happen(s, e).requests[i].dt == s.requests[i].dt
    ensures Settled(s, i) && !Resets(s, e) ==> Settled(Happen(s, e), i)
    ensures Settled(s, i) && (s.requests[i].pc.Looping? ==> s.max > s.requests[i].pc.seen) ==> !Publishes(s, e, i)
    ensures Publishes(s, e, i) ==> !Settled(s, i) && Settled(Happen(s, e), i)
  {
    OnlyResetsLower(s, e);
    if e.RequestStep? && e.i == i {
      assert Happen(s, e) == StepRequest(s, i, e.spurious);
    }
  }

  /** A request publishes its time at most once more often than the maximum is reset meanwhile. */
  lemma {:induction false} PublishedOncePerReset(s: Sys, run: seq<Event>, i: nat)
    requires IsRun(s, run) && i < |s.requests|
    ensures Publications(s, run, i) <= ResetCount(s, run) + (if Settled(s, i) then 0 else 1)
    decreases |run|
  {
    if run != [] {
      SettledStays(s, run[0], i);
      PublishedOncePerReset(Happen(s, run[0]), run[1..], i);
    }
  }

  /** No event of the run is a step of request `i`. */
  predicate Idle(run: seq<Event>, i: nat) {
    forall k | 0 <= k < |run| :: !(run[k].RequestStep? && run[k].i == i)
  }

  lemma {:induction false} IdleKeeps(s: Sys, run: seq<Event>, i: nat)
    requires IsRun(s, run) && Idle(run, i) && i < |s.requests|
    ensures i < |Last(s, run).requests| && Last(s, run).requests[i] == s.requests[i]
    decreases |run|
  {
    if run != [] {
      var s' := Happen(s, run[0]);
      assert s'.requests[i] == s.requests[i];
      IdleKeeps(s', run[1..], i);
    }
  }

  /**
   A request that has published its time publishes it again with its next exchange exactly if the maximum is back at
   what it was before the first exchange and the exchange does not fail; the maximum has then been reset in between.
   */
  lemma PublishesAgainExactly(s: Sys, first: Event, between: seq<Event>, again: Event, i: nat)
    requires CanHappen(s, first) && Publishes(s, first, i)
    requires IsRun(Happen(s, first), between) && Idle(between, i)
    requires CanHappen(Last(Happen(s, first), between), again) && again.RequestStep? && again.i == i
    ensures var t := Last(Happen(s, first), between);
      && (Publishes(t, again, i) <==> t.max == s.max && !again.spurious)
      && (Publishes(t, again, i) ==> ResetCount(Happen(s, first), between) > 0)
  {
    var u := Happen(s, first);
    IdleKeeps(u, between, i);
    if Publishes(Last(u, between), again, i) {
      LowerMeansReset(u, between);
    }
  }

  lemma {:induction false} SettledRun(s: Sys, run: seq<Event>, i: nat)
    requires IsRun(s, run) && i < |s.requests| && Settled(s, i)
    ensures i < |Last(s, run).requests|
    ensures ResetCount(s, run) == 0 ==> Settled(Last(s, run), i)
    decreases |run|
  {
    if run != [] {
      SettledStays(s, run[0], i);
      if Resets(s, run[0]) {
        RequestsStay(Happen(s, run[0]), run[1..], i);
      } else {
        SettledRun(Happen(s, run[0]), run[1..], i);
      }
    }
  }

  lemma {:induction false} RequestsStay(s: Sys, run: seq<Event>, i: nat)
    requires IsRun(s, run) && i < |s.requests|
    ensures i < |Last(s, run).requests| && Last(s, run).requests[i].dt == s.requests[i].dt
    decreases |run|
  {
    if run != [] {
      SettledStays(s, run[0], i);
      RequestsStay(Happen(s, run[0]), run[1..], i);
    }
  }

  /** However many exchanges fail in between, a request publishes again only after a reset. */
  lemma PublishesAgainMeansReset(s: Sys, first: Event, between: seq<Event>, again: Event, i: nat)
    requires CanHappen(s, first) && Publishes(s, first, i)
    requires IsRun(Happen(s, first), between)
    requires CanHappen(Last(Happen(s, first), between), again) && Publishes(Last(Happen(s, first), between), again, i)
    ensures ResetCount(Happen(s, first), between) > 0
  {
    SettledStays(s, first, i);
    SettledRun(Happen(s, first), between, i);
    SettledStays(Last(Happen(s, first), between), again, i);
  }

  /** Events of a run that store `v` as the maximum, and resets that report `v`. */
  function Stores(s: Sys, run: seq<Event>, v: nat): nat
    requires IsRun(s, run)
    decreases |run|
  {
    if run == [] then 0
    else
      (if run[0].RequestStep? && Publishes(s, run[0], run[0].i) && s.requests[run[0].i].dt == v then 1 else 0)
      + Stores(Happen(s, run[0]), run[1..], v)
  }

  function Reports(s: Sys, run: seq<Event>, v: nat): nat
    requires IsRun(s, run)
    decreases |run|
  {
    if run == [] then 0
    else (if Resets(s, run[0]) && s.max == v then 1 else 0) + Reports(Happen(s, run[0]), run[1..], v)
  }

  /** A value that was stored once is reported at most once by the readers that reset it. */
  lemma {:induction false} ReportedOncePerStore(s: Sys, run: seq<Event>, v: nat)
    requires IsRun(s, run) && v > 0
    ensures Reports(s, run, v) + (if Last(s, run).max == v then 1 else 0)
         <= Stores(s, run, v) + (if s.max == v then 1 else 0)
    decreases |run|
  {
    if run != [] {
      ReportedOncePerStore(Happen(s, run[0]), run[1..], v);
    }
  }

  lemma {:induction false} NoResetNoReport(s: Sys, run: seq<Event>, v: nat)
    requires IsRun(s, run) && ResetCount(s, run) == 0
    ensures Reports(s, run, v) == 0
    decreases |run|
  {
    if run != [] {
      NoResetNoReport(Happen(s, run[0]), run[1..], v);
    }
  }

  /** Request `i` is the only one that takes the time `v`, up to the end of the run. */
  predicate OnlyRequest(s: Sys, run: seq<Event>, i: nat, v: nat)
    requires IsRun(s, run)
  {
    forall j | 0 <= j < |Last(s, run).requests| :: Last(s, run).requests[j].dt == v ==> j == i
  }

  lemma StaysCompleted(s: Sys, e: Event, i: nat)
    requires CanHappen(s, e) && i < |s.requests| && s.requests[i].pc.Completed?
    ensures i < |Happen(s, e).requests| && Happen(s, e).requests[i] == s.requests[i]
  {
  }

  lemma {:induction false} CompletedStoresNoMore(s: Sys, run: seq<Event>, i: nat, v: nat)
    requires IsRun(s, run) && i < |s.requests| && s.requests[i].pc.Completed? && OnlyRequest(s, run, i, v)
    ensures Stores(s, run, v) == 0
    decreases |run|
  {
    if run != [] {
      if run[0].RequestStep? && s.requests[run[0].i].dt == v {
        RequestsStay(s, run, run[0].i);
      }
      assert Last(s, run) == Last(Happen(s, run[0]), run[1..]);
      StaysCompleted(s, run[0], i);
      CompletedStoresNoMore(Happen(s, run[0]), run[1..], i, v);
    }
  }

  /** A peak is reported at most once, unless a reader resets the maximum while the request is in its loop. */
  lemma ReportedOnce(s: Sys, loop: seq<Event>, later: seq<Event>, i: nat, v: nat)
    requires IsRun(s, loop) && ResetCount(s, loop) == 0 && IsRun(Last(s, loop), later)
    requires v > 0 && OnlyRequest(Last(s, loop), later, i, v)
    requires i < |Last(s, loop).requests| && Last(s, loop).requests[i].pc.Completed?
    ensures Reports(s, loop, v) + Reports(Last(s, loop), later, v) <= 1
  {
    NoResetNoReport(s, loop, v);
    ReportedOncePerStore(Last(s, loop), later, v);
    CompletedStoresNoMore(Last(s, loop), later, i, v);
  }

  /** With such a reset it can happen: the extra round of the loop publishes the peak again, and it is reported twice. */
  lemma PeakReportedTwice(dt: nat) returns (s: Sys)
    requires dt > 0
    ensures Reachable(s) && |s.requests| == 1 && s.requests[0].dt == dt
    ensures s.readers == [Reported(dt, true), Reported(dt, true)]
  {
    assert IsRun(INIT, []) && Last(INIT, []) == INIT;
    s := ReachableNext(INIT, BeginRequest(dt));
    s := ReachableNext(s, RequestStep(0, false));
    s := ReachableNext(s, RequestStep(0, false));
    s := ReachableNext(s, BeginRead(true));
    s := ReachableNext(s, ReaderStep(0, false));
    s := ReachableNext(s, ReaderStep(0, false));
    assert s == Sys(0, [Request(dt, Looping(0))], [Reported(dt, true)]);
    s := ReachableNext(s, RequestStep(0, false));
    s := ReachableNext(s, BeginRead(true));
    s := ReachableNext(s, ReaderStep(1, false));
    s := ReachableNext(s, ReaderStep(1, false));
  }
}
