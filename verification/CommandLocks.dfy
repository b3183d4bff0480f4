/**
 The locking of commands in src/daemon/commands.c: one reader-writer lock, one mutex per command, and any
 number of threads inside `execute_command`. A thread is a program counter; a step is one lock operation,
 the end of a body included, and threads step in any order.
 */
module CommandLocks {
  import opened Options

  datatype CmdType = Exclusive | Orthogonal | Concurrent | HighPriority

  datatype Cmd =
    | Help | ReloadHealth | ReopenLogs | Exit | Fatal | ReloadClaimingState | ReloadLabels
    | ReadConfig | WriteConfig | Ping | AclkState | Version | DumpConfig | RemoveNode

  /** `command_info_array`. */
  function TypeOf(cmd: Cmd): CmdType {
    match cmd
    case Help => HighPriority
    case Exit => Exclusive
    case Fatal => HighPriority
    case ReadConfig => Concurrent
    case _ => Orthogonal
  }

  /** Where a thread is in `execute_command`: `HasRead` waits for the mutex, `ReadDropped` still holds it. */
  datatype Pc = Start | HasRead | Body | ReadDropped | Finished

  datatype Thread = Thread(cmd: Cmd, pc: Pc) {
    function Type(): CmdType {
      TypeOf(cmd)
    }
  }

  /** Threads are named by their position; `readers` and `writer` hold the rwlock, `owner` the mutexes. */
  datatype Sys = Sys(threads: seq<Thread>, writer: Option<nat>, readers: set<nat>, owner: map<Cmd, nat>)

  const INIT: Sys := Sys([], None, {}, map[])

  /** How the rwlock treats a reader while a writer waits is up to the platform. */
  datatype Policy = ReadersFirst | WritersFirst

  predicate WriterWaits(s: Sys) {
    exists i | 0 <= i < |s.threads| :: s.threads[i].pc == Start && s.threads[i].Type() == Exclusive
  }

  predicate ReadLockFree(s: Sys, policy: Policy) {
    s.writer.None? && (policy == WritersFirst ==> !WriterWaits(s))
  }

  /** The thread's next operation does not block. */
  predicate Enabled(s: Sys, t: nat, policy: Policy)
    requires t < |s.threads|
  {
    var th := s.threads[t];
    match th.pc
    case Start =>
      (match th.Type()
       case Exclusive => s.writer.None? && s.readers == {}
       case Orthogonal => ReadLockFree(s, policy)
       case Concurrent => ReadLockFree(s, policy)
       case HighPriority => true)
    case HasRead => th.cmd !in s.owner
    case Body => true
    case ReadDropped => true
    case Finished => false
  }

  function Goto(s: Sys, t: nat, pc: Pc): (s': Sys)
    requires t < |s.threads|
  {
    s.(threads := s.threads[t := s.threads[t].(pc := pc)])
  }

  /** The lock operation itself. An unlock does not look at who holds the lock. */
  function Advance(s: Sys, t: nat): (s': Sys)
    requires t < |s.threads|
  {
    var th := s.threads[t];
    match th.pc
    case Start =>
      (match th.Type()
       case Exclusive => Goto(s, t, Body).(writer := Some(t))
       case Orthogonal => Goto(s, t, HasRead).(readers := s.readers + {t})
       case Concurrent => Goto(s, t, Body).(readers := s.readers + {t})
       case HighPriority => Goto(s, t, Body))
    case HasRead => Goto(s, t, Body).(owner := s.owner[th.cmd := t])
    case Body =>
      (match th.Type()
       case Exclusive => Goto(s, t, Finished).(writer := None)
       case Orthogonal => Goto(s, t, ReadDropped).(readers := s.readers - {t})
       case Concurrent => Goto(s, t, Finished).(readers := s.readers - {t})
       case HighPriority => Goto(s, t, Finished))
    case ReadDropped => Goto(s, t, Finished).(owner := s.owner - {th.cmd})
    case Finished => s
  }

  datatype Event = Arrive(cmd: Cmd) | Go(t: nat)

  predicate CanHappen(s: Sys, e: Event, policy: Policy) {
    e.Go? ==> e.t < |s.threads| && Enabled(s, e.t, policy)
  }

  function Happen(s: Sys, e: Event, policy: Policy): Sys
    requires CanHappen(s, e, policy)
  {
    match e
    case Arrive(cmd) => s.(threads := s.threads + [Thread(cmd, Start)])
    case Go(t) => Advance(s, t)
  }

  predicate IsRun(s: Sys, run: seq<Event>, policy: Policy)
    decreases |run|
  {
    run == [] || (CanHappen(s, run[0], policy) && IsRun(Happen(s, run[0], policy), run[1..], policy))
  }

  function Last(s: Sys, run: seq<Event>, policy: Policy): Sys
    requires IsRun(s, run, policy)
    decreases |run|
  {
    if run == [] then s else Last(Happen(s, run[0], policy), run[1..], policy)
  }

  ghost predicate Reachable(s: Sys, policy: Policy) {
    exists run :: IsRun(INIT, run, policy) && Last(INIT, run, policy) == s
  }

  // ---- the invariant ------------------------------------------------------------------------------

  predicate HoldsWrite(th: Thread) {
    th.Type() == Exclusive && th.pc == Body
  }

  predicate HoldsRead(th: Thread) {
    || (th.Type() == Orthogonal && (th.pc == HasRead || th.pc == Body))
    || (th.Type() == Concurrent && th.pc == Body)
  }

  predicate HoldsMutex(th: Thread) {
    th.Type() == Orthogonal && (th.pc == Body || th.pc == ReadDropped)
  }

  predicate LegalPc(th: Thread) {
    (th.pc == HasRead || th.pc == ReadDropped) ==> th.Type() == Orthogonal
  }

  /** Who holds which lock can be read off the program counters, and writers exclude readers. */
  ghost predicate Inv(s: Sys) {
    && (forall i | 0 <= i < |s.threads| :: LegalPc(s.threads[i]))
    && (forall i: nat :: (s.writer == Some(i)) == (i < |s.threads| && HoldsWrite(s.threads[i])))
    && (forall i: nat :: (i in s.readers) == (i < |s.threads| && HoldsRead(s.threads[i])))
    && (forall c | c in s.owner ::
          s.owner[c] < |s.threads| && s.threads[s.owner[c]].cmd == c && HoldsMutex(s.threads[s.owner[c]]))
    && (forall i | 0 <= i < |s.threads| && HoldsMutex(s.threads[i]) ::
          s.threads[i].cmd in s.owner && s.owner[s.threads[i].cmd] == i)
    && (s.writer.Some? ==> s.readers == {})
  }

  /** The invariant read from the locks to the threads. */
  lemma LockHolders(s: Sys)
    requires Inv(s)
    ensures s.writer.Some? ==> s.writer.value < |s.threads| && HoldsWrite(s.threads[s.writer.value])
    ensures forall i | i in s.readers :: i < |s.threads| && HoldsRead(s.threads[i])
  {
  }

  lemma ReadLockKeepsInv(s: Sys, t: nat, policy: Policy)
    requires Inv(s) && t < |s.threads| && Enabled(s, t, policy) && s.threads[t].Type() == Orthogonal
    requires s.threads[t].pc == Start || s.threads[t].pc == Body
    ensures Inv(Advance(s, t))
  {
    var s' := Advance(s, t);
    assert forall i | 0 <= i < |s.threads| :: i != t ==> s'.threads[i] == s.threads[i];
  }

  lemma MutexKeepsInv(s: Sys, t: nat, policy: Policy)
    requires Inv(s) && t < |s.threads| && Enabled(s, t, policy) && s.threads[t].Type() == Orthogonal
    requires s.threads[t].pc == HasRead || s.threads[t].pc == ReadDropped
    ensures Inv(Advance(s, t))
  {
    var s' := Advance(s, t);
    assert forall i | 0 <= i < |s.threads| :: i != t ==> s'.threads[i] == s.threads[i];
  }

  lemma OtherKeepsInv(s: Sys, t: nat, policy: Policy)
    requires Inv(s) && t < |s.threads| && Enabled(s, t, policy) && s.threads[t].Type() != Orthogonal
    ensures Inv(Advance(s, t))
  {
    var s' := Advance(s, t);
    assert forall i | 0 <= i < |s.threads| :: i != t ==> s'.threads[i] == s.threads[i];
  }

  /** Every lock operation keeps the invariant. */
  lemma AdvanceKeepsInv(s: Sys, t: nat, policy: Policy)
    requires Inv(s) && t < |s.threads| && Enabled(s, t, policy)
    ensures Inv(Advance(s, t))
  {
    if s.threads[t].Type() != Orthogonal {
      OtherKeepsInv(s, t, policy);
    } else if s.threads[t].pc == Start || s.threads[t].pc == Body {
      ReadLockKeepsInv(s, t, policy);
    } else {
      MutexKeepsInv(s, t, policy);
    }
  }

  lemma {:induction false} RunKeepsInv(s: Sys, run: seq<Event>, policy: Policy)
    requires Inv(s) && IsRun(s, run, policy)
    ensures Inv(Last(s, run, policy))
    decreases |run|
  {
    if run != [] {
      match run[0] {
        case Arrive(cmd) =>
        case Go(t) => AdvanceKeepsInv(s, t, policy);
      }
      RunKeepsInv(Happen(s, run[0], policy), run[1..], policy);
    }
  }

  lemma ReachableInv(s: Sys, policy: Policy)
    requires Reachable(s, policy)
    ensures Inv(s)
  {
    var run :| IsRun(INIT, run, policy) && Last(INIT, run, policy) == s;
    RunKeepsInv(INIT, run, policy);
  }

  // ---- exclusion ------------------------------------------------------------------------------------

  /** What the comments in commands.h allow two commands to do at the same time. */
  predicate Compatible(a: Cmd, b: Cmd) {
    || TypeOf(a) == HighPriority || TypeOf(b) == HighPriority
    || (TypeOf(a) != Exclusive && TypeOf(b) != Exclusive && (TypeOf(a) == Orthogonal ==> a != b))
  }

  predicate InBody(s: Sys, t: nat) {
    t < |s.threads| && s.threads[t].pc == Body
  }

  /** Two bodies that overlap in any reachable state are compatible. */
  lemma BodiesCompatible(s: Sys, t: nat, u: nat, policy: Policy)
    requires Reachable(s, policy) && t != u && InBody(s, t) && InBody(s, u)
    ensures Compatible(s.threads[t].cmd, s.threads[u].cmd)
  {
    ReachableInv(s, policy);
    var a, b := s.threads[t], s.threads[u];
    if a.Type() == Exclusive || b.Type() == Exclusive {
      assert (s.writer == Some(t)) == HoldsWrite(a) && (s.writer == Some(u)) == HoldsWrite(b);
      assert (t in s.readers) == HoldsRead(a) && (u in s.readers) == HoldsRead(b);
    } else {
      assert HoldsMutex(a) ==> s.owner[a.cmd] == t;
      assert HoldsMutex(b) ==> s.owner[b.cmd] == u;
    }
  }

  /** Every unlock releases a lock that its thread holds. */
  lemma UnlocksOwnLocks(s: Sys, t: nat, policy: Policy)
    requires Reachable(s, policy) && t < |s.threads|
    ensures var th := s.threads[t];
      && (th.pc == Body && th.Type() == Exclusive ==> s.writer == Some(t))
      && (th.pc == Body && (th.Type() == Orthogonal || th.Type() == Concurrent) ==> t in s.readers)
      && (th.pc == ReadDropped ==> th.cmd in s.owner && s.owner[th.cmd] == t)
  {
    ReachableInv(s, policy);
    var th := s.threads[t];
    assert HoldsMutex(th) ==> s.owner[th.cmd] == t;
  }

  // ---- progress ---------------------------------------------------------------------------------------

  /** In every reachable state with an unfinished thread some thread can step, under either policy. */
  lemma NoDeadlock(s: Sys, t: nat, policy: Policy) returns (u: nat)
    requires Reachable(s, policy) && t < |s.threads| && s.threads[t].pc != Finished
    ensures u < |s.threads| && Enabled(s, u, policy)
  {
    ReachableInv(s, policy);
    if !Enabled(s, t, policy) {
      u := Blocker(s, t, policy);
    } else {
      u := t;
    }
  }

  /** Whom a blocked thread waits for: a holder that is not blocked itself, or a waiting writer. */
  lemma Blocker(s: Sys, t: nat, policy: Policy) returns (u: nat)
    requires Inv(s) && t < |s.threads| && s.threads[t].pc != Finished && !Enabled(s, t, policy)
    ensures u < |s.threads| && Enabled(s, u, policy)
  {
    var th := s.threads[t];
    LockHolders(s);
    if th.pc == HasRead {
      u := s.owner[th.cmd];
    } else if s.writer.Some? {
      u := s.writer.value;
    } else if s.readers != {} {
      var r :| r in s.readers;
      u := r;
      if s.threads[r].pc == HasRead && s.threads[r].cmd in s.owner {
        u := s.owner[s.threads[r].cmd];
      }
    } else {
      u :| 0 <= u < |s.threads| && s.threads[u].pc == Start && s.threads[u].Type() == Exclusive;
    }
  }

  /** Lock operations a thread still has to perform. */
  function Remaining(th: Thread): nat {
    match th.pc
    case Start => if th.Type() == Orthogonal then 4 else 2
    case HasRead => 3
    case Body => if th.Type() == Orthogonal then 2 else 1
    case ReadDropped => 1
    case Finished => 0
  }

  function Work(threads: seq<Thread>): nat {
    if threads == [] then 0 else Work(threads[..|threads| - 1]) + Remaining(threads[|threads| - 1])
  }

  lemma {:induction false} WorkUpdate(threads: seq<Thread>, t: nat, th: Thread)
    requires t < |threads|
    ensures Work(threads[t := th]) == Work(threads) - Remaining(threads[t]) + Remaining(th)
    decreases |threads|
  {
    var n := |threads| - 1;
    if t == n {
      assert threads[t := th][..n] == threads[..n];
    } else {
      assert threads[t := th][..n] == threads[..n][t := th];
      WorkUpdate(threads[..n], t, th);
    }
  }

  lemma AdvanceWorks(s: Sys, t: nat, policy: Policy)
    requires t < |s.threads| && LegalPc(s.threads[t]) && Enabled(s, t, policy)
    ensures Work(Advance(s, t).threads) == Work(s.threads) - 1
    ensures Advance(s, t).threads == s.threads[t := Advance(s, t).threads[t]]
  {
    WorkUpdate(s.threads, t, Advance(s, t).threads[t]);
  }

  predicate NoArrivals(run: seq<Event>) {
    forall i | 0 <= i < |run| :: run[i].Go?
  }

  /** Every step is progress: a run without arrivals is exactly as long as the work it does. */
  lemma {:induction false} RunLength(s: Sys, run: seq<Event>, policy: Policy)
    requires Inv(s) && IsRun(s, run, policy) && NoArrivals(run)
    ensures Work(Last(s, run, policy).threads) == Work(s.threads) - |run|
    decreases |run|
  {
    if run != [] {
      var t := run[0].t;
      AdvanceWorks(s, t, policy);
      AdvanceKeepsInv(s, t, policy);
      RunLength(Advance(s, t), run[1..], policy);
    }
  }

  lemma {:induction false} NoWorkLeft(threads: seq<Thread>)
    requires Work(threads) == 0
    ensures forall i | 0 <= i < |threads| :: threads[i].pc == Finished
    decreases |threads|
  {
    if threads != [] {
      NoWorkLeft(threads[..|threads| - 1]);
      assert forall i | 0 <= i < |threads| - 1 :: threads[i] == threads[..|threads| - 1][i];
    }
  }

  lemma {:induction false} AllFinishedNoWork(threads: seq<Thread>)
    requires forall i | 0 <= i < |threads| :: threads[i].pc == Finished
    ensures Work(threads) == 0
    decreases |threads|
  {
    if threads != [] {
      AllFinishedNoWork(threads[..|threads| - 1]);
    }
  }

  ghost predicate Stuck(s: Sys, policy: Policy) {
    forall t | 0 <= t < |s.threads| :: !Enabled(s, t, policy)
  }

  /**
   No command is lost: whichever enabled thread is picked at every step, after exactly `Work` steps, and not
   before, nothing can step any more; then every thread has finished and every lock is free.
   */
  lemma NoCommandLost(s: Sys, run: seq<Event>, policy: Policy)
    requires Reachable(s, policy) && IsRun(s, run, policy) && NoArrivals(run)
    ensures |run| <= Work(s.threads)
    ensures var e := Last(s, run, policy);
      && Stuck(e, policy) == (|run| == Work(s.threads))
      && (Stuck(e, policy) ==> (forall t | 0 <= t < |e.threads| :: e.threads[t].pc == Finished)
                               && e.writer.None? && e.readers == {} && e.owner == map[])
  {
    ReachableInv(s, policy);
    RunLength(s, run, policy);
    RunKeepsInv(s, run, policy);
    var e := Last(s, run, policy);
    if Work(e.threads) == 0 {
      NoWorkLeft(e.threads);
    }
    if Stuck(e, policy) {
      forall t | 0 <= t < |e.threads| ensures e.threads[t].pc == Finished {
        if e.threads[t].pc != Finished {
          var u := Blocker(e, t, policy);
        }
      }
      AllFinishedNoWork(e.threads);
      AllFinishedLocksFree(e);
    }
  }

  lemma AllFinishedLocksFree(s: Sys)
    requires Inv(s) && forall t | 0 <= t < |s.threads| :: s.threads[t].pc == Finished
    ensures s.writer.None? && s.readers == {} && s.owner == map[]
  {
    LockHolders(s);
  }

  // ---- the contract is exact ----------------------------------------------------------------------------

  predicate PairwiseCompatible(cmds: seq<Cmd>) {
    forall i, j | 0 <= i < j < |cmds| :: Compatible(cmds[i], cmds[j])
  }

  /** Every command of the list is inside its body, and there is no other thread. */
  predicate AllInBody(s: Sys, cmds: seq<Cmd>) {
    |s.threads| == |cmds| && forall i | 0 <= i < |cmds| :: s.threads[i] == Thread(cmds[i], Body)
  }

  lemma {:induction false} RunAppend(s: Sys, run: seq<Event>, e: Event, policy: Policy)
    requires IsRun(s, run, policy) && CanHappen(Last(s, run, policy), e, policy)
    ensures IsRun(s, run + [e], policy)
    ensures Last(s, run + [e], policy) == Happen(Last(s, run, policy), e, policy)
    decreases |run|
  {
    if run == [] {
      assert run + [e] == [e] && [e][1..] == [];
    } else {
      assert (run + [e])[0] == run[0] && (run + [e])[1..] == run[1..] + [e];
      RunAppend(Happen(s, run[0], policy), run[1..], e, policy);
    }
  }

  lemma ReachableNext(s: Sys, e: Event, policy: Policy)
    requires Reachable(s, policy) && CanHappen(s, e, policy)
    ensures Reachable(Happen(s, e, policy), policy)
  {
    var run :| IsRun(INIT, run, policy) && Last(INIT, run, policy) == s;
    RunAppend(INIT, run, e, policy);
  }

  /** Any pairwise compatible commands can run at the same time. */
  lemma {:induction false} CompatibleOverlap(cmds: seq<Cmd>, policy: Policy) returns (s: Sys)
    requires PairwiseCompatible(cmds)
    ensures Reachable(s, policy) && AllInBody(s, cmds)
    decreases |cmds|
  {
    if cmds == [] {
      s := INIT;
      assert IsRun(INIT, [], policy) && Last(INIT, [], policy) == INIT;
    } else {
      var n := |cmds| - 1;
      var before := CompatibleOverlap(cmds[..n], policy);
      assert forall i | 0 <= i < n :: before.threads[i] == Thread(cmds[i], Body);
      s := EnterBody(before, cmds[n], policy);
    }
  }

  /** A command compatible with all bodies gets into its own without waiting. */
  lemma EnterBody(s: Sys, cmd: Cmd, policy: Policy) returns (s': Sys)
    requires Reachable(s, policy)
    requires forall i | 0 <= i < |s.threads| :: s.threads[i].pc == Body && Compatible(s.threads[i].cmd, cmd)
    ensures Reachable(s', policy) && s'.threads == s.threads + [Thread(cmd, Body)]
  {
    var t := |s.threads|;
    var a := Happen(s, Arrive(cmd), policy);
    ReachableNext(s, Arrive(cmd), policy);
    ReachableInv(a, policy);
    assert forall i | 0 <= i < t :: a.threads[i] == s.threads[i];
    assert a.threads[t] == Thread(cmd, Start);
    if TypeOf(cmd) != HighPriority {
      NoWriterInTheWay(a, t);
    }
    assert Enabled(a, t, policy);
    ReachableNext(a, Go(t), policy);
    s' := Advance(a, t);
    if TypeOf(cmd) == Orthogonal {
      ReachableNext(s', Go(t), policy);
      s' := Advance(s', t);
    }
  }

  lemma NoWriterInTheWay(s: Sys, t: nat)
    requires Inv(s) && t == |s.threads| - 1 && s.threads[t].pc == Start && s.threads[t].Type() != HighPriority
    requires forall i | 0 <= i < t :: s.threads[i].pc == Body && Compatible(s.threads[i].cmd, s.threads[t].cmd)
    ensures s.writer.None?
    ensures s.threads[t].Type() == Exclusive ==> s.readers == {}
    ensures s.threads[t].Type() == Orthogonal ==> s.threads[t].cmd !in s.owner
    ensures s.threads[t].Type() != Exclusive ==> !WriterWaits(s)
  {
    LockHolders(s);
  }

  /**
   The concurrency contract of commands.h is exact: commands can be inside their bodies together in some
   reachable state if and only if every two of them are compatible.
   */
  lemma OverlapExactlyWhenCompatible(cmds: seq<Cmd>, policy: Policy)
    ensures (exists s :: Reachable(s, policy) && AllInBody(s, cmds)) <==> PairwiseCompatible(cmds)
  {
    if s :| Reachable(s, policy) && AllInBody(s, cmds) {
      forall i, j | 0 <= i < j < |cmds| ensures Compatible(cmds[i], cmds[j]) {
        BodiesCompatible(s, i, j, policy);
      }
    }
    if PairwiseCompatible(cmds) {
      var s := CompatibleOverlap(cmds, policy);
    }
  }

  /**
   Which commands may overlap, by name: `help` and `fatal-agent` with everything, `shutdown-agent` with nothing else, and
   of the others any two that differ, and `read-config` with itself.
   */
  lemma OverlapByName(a: Cmd, b: Cmd, policy: Policy)
    ensures (exists s :: Reachable(s, policy) && AllInBody(s, [a, b])) <==>
      || a in {Help, Fatal} || b in {Help, Fatal}
      || (a != Exit && b != Exit && (a != b || a == ReadConfig))
  {
    OverlapExactlyWhenCompatible([a, b], policy);
    assert PairwiseCompatible([a, b]) <==> Compatible(a, b) by {
      assert [a, b][0] == a && [a, b][1] == b;
    }
  }

  /** Unlocking the rwlock first means that a mutex may be held while an exclusive body already runs. */
  lemma MutexOutlivesReadLock(policy: Policy) returns (s: Sys)
    ensures Reachable(s, policy) && s.writer == Some(1) && Ping in s.owner
  {
    s := INIT;
    assert IsRun(INIT, [], policy) && Last(INIT, [], policy) == INIT;
    s := EnterBody(INIT, Ping, policy);
    ReachableInv(s, policy);
    assert s.threads[0] == Thread(Ping, Body);
    ReachableNext(s, Go(0), policy);
    s := Advance(s, 0);
    ReachableNext(s, Arrive(Exit), policy);
    s := Happen(s, Arrive(Exit), policy);
    ReachableInv(s, policy);
    assert s.threads == [Thread(Ping, ReadDropped), Thread(Exit, Start)];
    LockHolders(s);
    ReachableNext(s, Go(1), policy);
    s := Advance(s, 1);
    assert HoldsMutex(Thread(Ping, ReadDropped));
  }
}
