/**
 The threads behind the worker utilization charts of src/daemon/global_statistics.c: every worker group lists its
 threads, and one index leads from a thread id to its record. This module gives the table as a value and its laws.
 */
module WorkerIndex {

  type Pid = int

  /** The thread ids each group lists, and for every indexed thread id whether its record is enabled. */
  datatype Table = Table(lists: seq<seq<Pid>>, index: map<Pid, bool>)

  ghost predicate Listed(t: Table, pid: Pid) {
    exists g | 0 <= g < |t.lists| :: pid in t.lists[g]
  }

  predicate Distinct(pids: seq<Pid>) {
    forall i, j | 0 <= i < j < |pids| :: pids[i] != pids[j]
  }

  /** The index holds exactly the listed threads, and every thread is listed once, in one group. */
  ghost predicate Consistent(t: Table) {
    && (forall pid :: pid in t.index <==> Listed(t, pid))
    && (forall g | 0 <= g < |t.lists| :: Distinct(t.lists[g]))
    && (forall g, h, pid | 0 <= g < |t.lists| && 0 <= h < |t.lists| && pid in t.lists[g] && pid in t.lists[h] :: g == h)
  }

  /** `workers_utilization_reset_statistics`: the threads of the group are disabled. */
  function Reset(t: Table, g: nat): Table
    requires g < |t.lists|
  {
    t.(index := map pid | pid in t.index :: pid !in t.lists[g] && t.index[pid])
  }

  /** `worker_utilization_charts_callback`: a known thread is enabled where it is, an unknown one is added here. */
  function Report(t: Table, g: nat, pid: Pid): Table
    requires g < |t.lists|
  {
    Table(
      if pid in t.index then t.lists else t.lists[g := t.lists[g] + [pid]],
      t.index[pid := true])
  }

  function Kept(pids: seq<Pid>, index: map<Pid, bool>): seq<Pid> {
    if pids == [] then []
    else (if pids[0] in index && index[pids[0]] then [pids[0]] else []) + Kept(pids[1..], index)
  }

  predicate Dropped(t: Table, g: nat, pid: Pid)
    requires g < |t.lists| && pid in t.index
  {
    pid in t.lists[g] && !t.index[pid]
  }

  /** `workers_threads_cleanup`: the disabled threads of the group are unlisted and leave the index. */
  function Cleanup(t: Table, g: nat): Table
    requires g < |t.lists|
  {
    Table(
      t.lists[g := Kept(t.lists[g], t.index)],
      map pid | pid in t.index && !Dropped(t, g, pid) :: t.index[pid])
  }

  // ---- the invariant --------------------------------------------------------------------------------

  datatype Event = ResetEvent(g: nat) | ReportEvent(g: nat, pid: Pid) | CleanupEvent(g: nat)

  function Apply(t: Table, e: Event): Table {
    if e.g >= |t.lists| then t
    else
      match e
      case ResetEvent(g) => Reset(t, g)
      case ReportEvent(g, pid) => Report(t, g, pid)
      case CleanupEvent(g) => Cleanup(t, g)
  }

  function Run(t: Table, events: seq<Event>): Table
    decreases |events|
  {
    if events == [] then t else Run(Apply(t, events[0]), events[1..])
  }

  lemma {:induction false} KeptSpec(pids: seq<Pid>, index: map<Pid, bool>, pid: Pid)
    ensures pid in Kept(pids, index) <==> pid in pids && pid in index && index[pid]
  {
    if pids != [] {
      KeptSpec(pids[1..], index, pid);
      assert pids == [pids[0]] + pids[1..];
    }
  }

  lemma {:induction false} KeptDistinct(pids: seq<Pid>, index: map<Pid, bool>)
    requires Distinct(pids)
    ensures Distinct(Kept(pids, index))
  {
    if pids != [] {
      KeptDistinct(pids[1..], index);
      KeptSpec(pids[1..], index, pids[0]);
    }
  }

  lemma ResetConsistent(t: Table, g: nat)
    requires Consistent(t) && g < |t.lists|
    ensures Consistent(Reset(t, g))
  {
    var n := Reset(t, g);
    forall pid
      ensures pid in n.index <==> Listed(n, pid)
    {
      assert Listed(n, pid) <==> Listed(t, pid);
    }
  }

  lemma ReportConsistent(t: Table, g: nat, pid: Pid)
    requires Consistent(t) && g < |t.lists|
    ensures Consistent(Report(t, g, pid))
  {
    var n := Report(t, g, pid);
    forall h | 0 <= h < |t.lists|
      ensures pid !in t.index ==> pid !in t.lists[h]
    {
      assert pid in t.lists[h] ==> Listed(t, pid);
    }
    forall p
      ensures p in n.index <==> Listed(n, p)
    {
      ReportListed(t, g, pid, p);
    }
  }

  lemma ReportListed(t: Table, g: nat, pid: Pid, p: Pid)
    requires Consistent(t) && g < |t.lists|
    ensures Listed(Report(t, g, pid), p) <==> Listed(t, p) || p == pid
  {
    var n := Report(t, g, pid);
    if Listed(t, p) {
      var h :| 0 <= h < |t.lists| && p in t.lists[h];
      assert p in n.lists[h];
    }
    if p == pid && pid !in t.index {
      assert n.lists[g][|t.lists[g]|] == pid;
    }
    if Listed(n, p) {
      var h :| 0 <= h < |n.lists| && p in n.lists[h];
      assert p in t.lists[h] || p == pid;
    }
  }

  lemma CleanupListed(t: Table, g: nat, p: Pid)
    requires Consistent(t) && g < |t.lists|
    ensures Listed(Cleanup(t, g), p) <==> p in t.index && !Dropped(t, g, p)
  {
    var n := Cleanup(t, g);
    KeptSpec(t.lists[g], t.index, p);
    if Listed(n, p) {
      var h :| 0 <= h < |n.lists| && p in n.lists[h];
      assert p in t.lists[h];
      assert Listed(t, p);
    }
    if p in t.index && !Dropped(t, g, p) {
      assert Listed(t, p);
      var h :| 0 <= h < |t.lists| && p in t.lists[h];
      assert p in n.lists[h];
    }
  }

  lemma CleanupConsistent(t: Table, g: nat)
    requires Consistent(t) && g < |t.lists|
    ensures Consistent(Cleanup(t, g))
  {
    var n := Cleanup(t, g);
    KeptDistinct(t.lists[g], t.index);
    forall p
      ensures p in n.index <==> Listed(n, p)
    {
      CleanupListed(t, g, p);
    }
    forall a, b, p | 0 <= a < |n.lists| && 0 <= b < |n.lists| && p in n.lists[a] && p in n.lists[b]
      ensures a == b
    {
      KeptSpec(t.lists[g], t.index, p);
      assert p in t.lists[a] && p in t.lists[b];
    }
  }

  /** Whatever the order of resets, reports and cleanups over all groups, the index and the lists agree. */
  lemma {:induction false} RunConsistent(t: Table, events: seq<Event>)
    requires Consistent(t)
    ensures Consistent(Run(t, events))
    decreases |events|
  {
    if events != [] {
      var e := events[0];
      if e.g < |t.lists| {
        match e {
          case ResetEvent(g) => ResetConsistent(t, g);
          case ReportEvent(g, pid) => ReportConsistent(t, g, pid);
          case CleanupEvent(g) => CleanupConsistent(t, g);
        }
      }
      RunConsistent(Apply(t, e), events[1..]);
    }
  }

  /** A cleanup leaves exactly the enabled threads in the group, and the other groups as they are. */
  lemma CleanupLeavesEnabled(t: Table, g: nat, pid: Pid)
    requires Consistent(t) && g < |t.lists|
    ensures var n := Cleanup(t, g);
      && (pid in n.lists[g] <==> pid in t.lists[g] && t.index[pid])
      && (pid in n.lists[g] ==> n.index[pid])
      && (forall h | 0 <= h < |t.lists| && h != g :: n.lists[h] == t.lists[h])
  {
    KeptSpec(t.lists[g], t.index, pid);
    assert pid in t.lists[g] ==> Listed(t, pid);
  }

  // ---- removing one thread at a time ----------------------------------------------------------------

  function Unlist(t: Table, g: nat, k: nat): Table
    requires g < |t.lists| && k < |t.lists[g]|
  {
    Table(
      t.lists[g := t.lists[g][..k] + t.lists[g][k + 1..]],
      t.index - {t.lists[g][k]})
  }

  lemma UnlistMembers(pids: seq<Pid>, k: nat, pid: Pid)
    requires Distinct(pids) && k < |pids|
    ensures Distinct(pids[..k] + pids[k + 1..])
    ensures pid in pids[..k] + pids[k + 1..] <==> pid in pids && pid != pids[k]
  {
    assert pids == pids[..k] + [pids[k]] + pids[k + 1..];
  }

  lemma UnlistListed(t: Table, g: nat, k: nat, pid: Pid)
    requires Consistent(t) && g < |t.lists| && k < |t.lists[g]|
    ensures Listed(Unlist(t, g, k), pid) <==> Listed(t, pid) && pid != t.lists[g][k]
  {
    var n := Unlist(t, g, k);
    UnlistMembers(t.lists[g], k, pid);
    if Listed(n, pid) {
      var h :| 0 <= h < |n.lists| && pid in n.lists[h];
      assert pid in t.lists[h];
    }
    if Listed(t, pid) && pid != t.lists[g][k] {
      var h :| 0 <= h < |t.lists| && pid in t.lists[h];
      assert pid in n.lists[h];
    }
  }

  lemma UnlistConsistent(t: Table, g: nat, k: nat)
    requires Consistent(t) && g < |t.lists| && k < |t.lists[g]|
    ensures Consistent(Unlist(t, g, k))
  {
    var n := Unlist(t, g, k);
    forall pid
      ensures pid in n.index <==> Listed(n, pid)
    {
      UnlistListed(t, g, k, pid);
    }
    forall h, pid | 0 <= h < |n.lists| && pid in n.lists[h]
      ensures pid in t.lists[h]
    {
      UnlistMembers(t.lists[g], k, pid);
    }
    UnlistMembers(t.lists[g], k, 0);
  }

  lemma Regroup(a: seq<Pid>, b: seq<Pid>, c: seq<Pid>)
    ensures a + (b + c) == (a + b) + c
  {
  }

  lemma {:induction false} KeptConcat(a: seq<Pid>, b: seq<Pid>, index: map<Pid, bool>)
    ensures Kept(a + b, index) == Kept(a, index) + Kept(b, index)
  {
    if a == [] {
      assert a + b == b;
    } else {
      KeptConcat(a[1..], b, index);
      var first := if a[0] in index && index[a[0]] then [a[0]] else [];
      assert (a + b)[0] == a[0] && (a + b)[1..] == a[1..] + b;
      Regroup(first, Kept(a[1..], index), Kept(b, index));
    }
  }

  lemma {:induction false} KeptWithout(pids: seq<Pid>, index: map<Pid, bool>, pid: Pid)
    requires pid !in pids
    ensures Kept(pids, index - {pid}) == Kept(pids, index)
  {
    if pids != [] {
      KeptWithout(pids[1..], index, pid);
      assert pids[0] in pids;
    }
  }

  lemma {:induction false} KeptAll(pids: seq<Pid>, index: map<Pid, bool>)
    requires forall pid | pid in pids :: pid in index && index[pid]
    ensures Kept(pids, index) == pids
  {
    if pids != [] {
      KeptAll(pids[1..], index);
      var pid := pids[0];
      assert pid in pids;
      assert pids == [pid] + pids[1..];
    }
  }

  lemma KeptUnlisted(pids: seq<Pid>, index: map<Pid, bool>, k: nat)
    requires Distinct(pids) && k < |pids| && pids[k] in index && !index[pids[k]]
    ensures Kept(pids[..k] + pids[k + 1..], index - {pids[k]}) == Kept(pids, index)
  {
    var a, pid, b := pids[..k], pids[k], pids[k + 1..];
    assert pids == a + ([pid] + b);
    KeptConcat(a, [pid] + b, index);
    assert ([pid] + b)[1..] == b;
    assert Kept([pid] + b, index) == Kept(b, index);
    KeptConcat(a, b, index);
    KeptWithout(a + b, index, pid);
  }

  lemma DroppedUnlisted(t: Table, g: nat, k: nat, p: Pid)
    requires Consistent(t) && g < |t.lists| && k < |t.lists[g]|
    requires t.lists[g][k] in t.index && !t.index[t.lists[g][k]]
    ensures p in Cleanup(Unlist(t, g, k), g).index <==> p in Cleanup(t, g).index
  {
    UnlistMembers(t.lists[g], k, p);
  }

  /** Removing a disabled thread first does not change what a cleanup leaves. */
  lemma UnlistThenCleanup(t: Table, g: nat, k: nat)
    requires Consistent(t) && g < |t.lists| && k < |t.lists[g]|
    requires t.lists[g][k] in t.index && !t.index[t.lists[g][k]]
    ensures Cleanup(Unlist(t, g, k), g) == Cleanup(t, g)
  {
    KeptUnlisted(t.lists[g], t.index, k);
    var m, n := Cleanup(Unlist(t, g, k), g), Cleanup(t, g);
    assert m.lists == n.lists;
    forall p
      ensures p in m.index <==> p in n.index
    {
      DroppedUnlisted(t, g, k, p);
    }
    assert m.index == n.index;
  }

  lemma CleanAlready(t: Table, g: nat)
    requires Consistent(t) && g < |t.lists|
    requires forall pid | pid in t.lists[g] :: pid in t.index && t.index[pid]
    ensures Cleanup(t, g) == t
  {
    KeptAll(t.lists[g], t.index);
  }

  /** Consistency does not depend on which threads are enabled. */
  lemma FlagsDoNotMatter(t: Table, n: Table)
    requires Consistent(t) && n.lists == t.lists && n.index.Keys == t.index.Keys
    ensures Consistent(n)
  {
    forall pid
      ensures pid in n.index <==> Listed(n, pid)
    {
      assert Listed(n, pid) <==> Listed(t, pid);
      assert pid in n.index <==> pid in t.index;
    }
  }

  lemma EnabledConsistent(t: Table, pid: Pid)
    requires Consistent(t) && pid in t.index
    ensures Consistent(t.(index := t.index[pid := true]))
  {
    FlagsDoNotMatter(t, t.(index := t.index[pid := true]));
  }

  /** A new thread is listed in one group, disabled. */
  lemma CreatedConsistent(t: Table, g: nat, pid: Pid)
    requires Consistent(t) && g < |t.lists| && pid !in t.index
    ensures Consistent(Table(t.lists[g := t.lists[g] + [pid]], t.index[pid := false]))
  {
    ReportConsistent(t, g, pid);
    FlagsDoNotMatter(Report(t, g, pid), Table(t.lists[g := t.lists[g] + [pid]], t.index[pid := false]));
  }

  // ---- one group's round, and a whole pass ----------------------------------------------------------

  function ReportAll(t: Table, g: nat, pids: seq<Pid>): (n: Table)
    requires g < |t.lists|
    ensures |n.lists| == |t.lists|
    decreases |pids|
  {
    if pids == [] then t
    else Report(ReportAll(t, g, pids[..|pids| - 1]), g, pids[|pids| - 1])
  }

  function Round(t: Table, g: nat, pids: seq<Pid>): Table
    requires g < |t.lists|
  {
    Cleanup(ReportAll(Reset(t, g), g, pids), g)
  }

  /** `worker_utilization_charts` up to the first `k` groups; `reports[g]` are the threads registered in group `g`. */
  function Pass(t: Table, reports: seq<seq<Pid>>, k: nat): (n: Table)
    requires k <= |t.lists| == |reports|
    ensures |n.lists| == |t.lists|
  {
    if k == 0 then t else Round(Pass(t, reports, k - 1), k - 1, reports[k - 1])
  }

  /** The threads listed in the group after its reports: those listed before, and the reported ones new to the index. */
  lemma {:induction false} ReportAllSpec(t: Table, g: nat, pids: seq<Pid>, pid: Pid)
    requires Consistent(t) && g < |t.lists|
    ensures var n := ReportAll(t, g, pids);
      && Consistent(n)
      && (pid in n.lists[g] <==> pid in t.lists[g] || (pid in pids && pid !in t.index))
      && (pid in n.index <==> pid in t.index || pid in pids)
      && (pid in n.index ==> (n.index[pid] <==> pid in pids || (pid in t.index && t.index[pid])))
      && (forall h | 0 <= h < |t.lists| && h != g :: n.lists[h] == t.lists[h])
    decreases |pids|
  {
    if pids != [] {
      var last := |pids| - 1;
      ReportAllSpec(t, g, pids[..last], pid);
      ReportAllSpec(t, g, pids[..last], pids[last]);
      var m := ReportAll(t, g, pids[..last]);
      ReportConsistent(m, g, pids[last]);
      assert pids == pids[..last] + [pids[last]];
      ReportOne(m, g, pids[last], pid);
    }
  }

  lemma ReportOne(t: Table, g: nat, reported: Pid, pid: Pid)
    requires g < |t.lists|
    ensures var n := Report(t, g, reported);
      && (pid in n.lists[g] <==> pid in t.lists[g] || (pid == reported && pid !in t.index))
      && (forall h | 0 <= h < |t.lists| && h != g :: n.lists[h] == t.lists[h])
  {
    var n := Report(t, g, reported);
    if reported !in t.index {
      assert n.lists[g] == t.lists[g] + [reported];
    }
  }

  /** After its round a group lists exactly the threads reported in it that no other group listed. */
  lemma RoundSpec(t: Table, g: nat, pids: seq<Pid>, pid: Pid)
    requires Consistent(t) && g < |t.lists|
    ensures var n := Round(t, g, pids);
      && Consistent(n)
      && (pid in n.lists[g] <==> pid in pids && (pid in t.lists[g] || pid !in t.index))
      && (forall h | 0 <= h < |t.lists| && h != g :: n.lists[h] == t.lists[h])
  {
    var a := Reset(t, g);
    ResetConsistent(t, g);
    ReportAllSpec(a, g, pids, pid);
    var b := ReportAll(a, g, pids);
    CleanupConsistent(b, g);
    CleanupLeavesEnabled(b, g, pid);
    assert pid in t.lists[g] ==> Listed(t, pid);
    assert pid in b.lists[g] ==> Listed(b, pid);
  }

  predicate ListedFrom(t: Table, k: nat, pid: Pid) {
    exists h | k <= h < |t.lists| :: pid in t.lists[h]
  }

  /** Group `g` reports the thread, and no group later in the order listed it before the pass. */
  predicate Admits(t: Table, reports: seq<seq<Pid>>, g: nat, pid: Pid)
    requires g < |reports|
  {
    pid in reports[g] && !ListedFrom(t, g + 1, pid)
  }

  ghost predicate AdmitsBefore(t: Table, reports: seq<seq<Pid>>, k: nat, pid: Pid)
    requires k <= |reports|
  {
    exists g | 0 <= g < k :: Admits(t, reports, g, pid)
  }

  /** Of all groups `g` is the first to admit the thread. */
  ghost predicate FirstAdmits(t: Table, reports: seq<seq<Pid>>, g: nat, pid: Pid)
    requires g < |reports|
  {
    Admits(t, reports, g, pid) && !AdmitsBefore(t, reports, g, pid)
  }

  /** What the first `k` rounds of a pass make of each list. */
  ghost predicate Passed(t: Table, reports: seq<seq<Pid>>, n: Table, k: nat, g: nat, pid: Pid)
    requires g < |t.lists| == |n.lists| == |reports|
  {
    pid in n.lists[g] <==> if g < k then FirstAdmits(t, reports, g, pid) else pid in t.lists[g]
  }

  ghost predicate AllPassed(t: Table, reports: seq<seq<Pid>>, n: Table, k: nat, pid: Pid)
    requires |t.lists| == |n.lists| == |reports|
  {
    forall g | 0 <= g < |t.lists| :: Passed(t, reports, n, k, g, pid)
  }

  lemma {:induction false} PassSteps(t: Table, reports: seq<seq<Pid>>, k: nat, pid: Pid)
    requires Consistent(t) && k <= |t.lists| == |reports|
    ensures Consistent(Pass(t, reports, k)) && AllPassed(t, reports, Pass(t, reports, k), k, pid)
  {
    if k > 0 {
      PassSteps(t, reports, k - 1, pid);
      PassOn(t, reports, Pass(t, reports, k - 1), k, pid);
    }
  }

  /** One more round of the pass. */
  lemma PassOn(t: Table, reports: seq<seq<Pid>>, m: Table, k: nat, pid: Pid)
    requires Consistent(t) && Consistent(m) && 0 < k <= |t.lists| == |m.lists| == |reports|
    requires AllPassed(t, reports, m, k - 1, pid)
    ensures var n := Round(m, k - 1, reports[k - 1]);
      |n.lists| == |t.lists| && Consistent(n) && AllPassed(t, reports, n, k, pid)
  {
    RoundSpec(m, k - 1, reports[k - 1], pid);
    NewcomerOrMember(t, reports, m, k - 1, pid);
    var n := Round(m, k - 1, reports[k - 1]);
    forall g | 0 <= g < |t.lists|
      ensures Passed(t, reports, n, k, g, pid)
    {
      assert Passed(t, reports, m, k - 1, g, pid);
    }
  }

  /** Some group was the first to admit the thread. */
  lemma {:induction false} FirstOf(t: Table, reports: seq<seq<Pid>>, k: nat, pid: Pid) returns (g: nat)
    requires k <= |reports| && AdmitsBefore(t, reports, k, pid)
    ensures g < k && FirstAdmits(t, reports, g, pid)
  {
    g :| 0 <= g < k && Admits(t, reports, g, pid);
    if AdmitsBefore(t, reports, g, pid) {
      g := FirstOf(t, reports, g, pid);
    }
  }

  /** Before its round a group can take the thread in exactly if no other group has it. */
  lemma NewcomerOrMember(t: Table, reports: seq<seq<Pid>>, m: Table, g: nat, pid: Pid)
    requires Consistent(t) && Consistent(m) && g < |t.lists| == |m.lists| == |reports|
    requires AllPassed(t, reports, m, g, pid)
    ensures pid in m.lists[g] || pid !in m.index <==> !ListedFrom(t, g + 1, pid) && !AdmitsBefore(t, reports, g, pid)
  {
    assert Passed(t, reports, m, g, g, pid);
    if ListedFrom(t, g + 1, pid) {
      var h :| g + 1 <= h < |t.lists| && pid in t.lists[h];
      assert Passed(t, reports, m, g, h, pid);
      assert Listed(m, pid);
    } else if AdmitsBefore(t, reports, g, pid) {
      var h := FirstOf(t, reports, g, pid);
      assert Passed(t, reports, m, g, h, pid);
      assert Listed(m, pid);
    } else if pid in m.index {
      OnlyHere(t, reports, m, g, pid);
    }
  }

  lemma OnlyHere(t: Table, reports: seq<seq<Pid>>, m: Table, g: nat, pid: Pid)
    requires Consistent(m) && g < |t.lists| == |m.lists| == |reports| && pid in m.index
    requires AllPassed(t, reports, m, g, pid)
    requires !ListedFrom(t, g + 1, pid) && !AdmitsBefore(t, reports, g, pid)
    ensures pid in m.lists[g]
  {
    assert Listed(m, pid);
    var h :| 0 <= h < |m.lists| && pid in m.lists[h];
    assert Passed(t, reports, m, g, h, pid);
  }

  /**
   After a whole pass the index agrees with the lists, and a group lists a thread exactly if it is the first group that
   reports the thread and has no group behind it that listed the thread before the pass.
   */
  lemma PassExact(t: Table, reports: seq<seq<Pid>>, g: nat, pid: Pid)
    requires Consistent(t) && g < |t.lists| == |reports|
    ensures var n := Pass(t, reports, |t.lists|);
      Consistent(n) && (pid in n.lists[g] <==> FirstAdmits(t, reports, g, pid))
  {
    PassSteps(t, reports, |t.lists|, pid);
    assert Passed(t, reports, Pass(t, reports, |t.lists|), |t.lists|, g, pid);
  }

  /**
   A thread is indexed after a pass exactly if some group reports it behind which no group listed it before. So a
   reported thread is missing if and only if all its reports came before the group that listed it.
   */
  lemma IndexedAfterPass(t: Table, reports: seq<seq<Pid>>, pid: Pid)
    requires Consistent(t) && |t.lists| == |reports|
    ensures pid in Pass(t, reports, |t.lists|).index <==> exists g | 0 <= g < |reports| :: Admits(t, reports, g, pid)
  {
    var n := Pass(t, reports, |t.lists|);
    PassSteps(t, reports, |t.lists|, pid);
    if pid in n.index {
      assert Listed(n, pid);
      var h :| 0 <= h < |n.lists| && pid in n.lists[h];
      assert Passed(t, reports, n, |t.lists|, h, pid);
      assert Admits(t, reports, h, pid);
    }
    if AdmitsBefore(t, reports, |reports|, pid) {
      var h := FirstOf(t, reports, |reports|, pid);
      assert Passed(t, reports, n, |t.lists|, h, pid);
      assert Listed(n, pid);
    }
  }

  ghost predicate Reported(reports: seq<seq<Pid>>, pid: Pid) {
    exists g | 0 <= g < |reports| :: pid in reports[g]
  }

  /** After a first pass some group admits every reported thread: the one that lists it, or any that reports it. */
  lemma AdmittedAgain(t: Table, reports: seq<seq<Pid>>, pid: Pid) returns (g: nat)
    requires Consistent(t) && |t.lists| == |reports| && Reported(reports, pid)
    ensures g < |reports| && Admits(Pass(t, reports, |t.lists|), reports, g, pid)
  {
    var m := Pass(t, reports, |t.lists|);
    PassSteps(t, reports, |t.lists|, pid);
    if Listed(m, pid) {
      g :| 0 <= g < |m.lists| && pid in m.lists[g];
      assert Passed(t, reports, m, |t.lists|, g, pid);
    } else {
      g :| 0 <= g < |reports| && pid in reports[g];
    }
  }

  /** No thread is registered in two groups at once. */
  predicate OneGroupEach(reports: seq<seq<Pid>>) {
    forall g, h, pid | 0 <= g < |reports| && 0 <= h < |reports| && pid in reports[g] && pid in reports[h] :: g == h
  }

  /**
   Two passes over the same registrations always settle: the index holds exactly the reported threads, each listed in
   a group that reports it.
   */
  lemma SecondPassSettles(t: Table, reports: seq<seq<Pid>>, g: nat, pid: Pid)
    requires Consistent(t) && g < |t.lists| == |reports|
    ensures var n := Pass(Pass(t, reports, |t.lists|), reports, |t.lists|);
      && Consistent(n)
      && (pid in n.index <==> Reported(reports, pid))
      && (pid in n.lists[g] ==> pid in reports[g])
      && (OneGroupEach(reports) ==> (pid in n.lists[g] <==> pid in reports[g]))
  {
    var m := Pass(t, reports, |t.lists|);
    PassSteps(t, reports, |t.lists|, pid);
    var n := Pass(m, reports, |t.lists|);
    PassExact(m, reports, g, pid);
    IndexedAfterPass(m, reports, pid);
    if Reported(reports, pid) {
      var admitting := AdmittedAgain(t, reports, pid);
      assert Listed(n, pid);
      var h :| 0 <= h < |n.lists| && pid in n.lists[h];
      PassExact(m, reports, h, pid);
    }
  }

  /** A thread that moves to an earlier group, after a pass that listed it, drops out of the index for one pass. */
  lemma MoverMissesOnePass()
    ensures var first := Pass(Table([[], []], map[]), [[], [7]], 2);
      7 in first.index && 7 !in Pass(first, [[7], []], 2).index
  {
    var t, before, after := Table([[], []], map[]), [[], [7]], [[7], []];
    assert Consistent(t);
    IndexedAfterPass(t, before, 7);
    assert Admits(t, before, 1, 7);
    PassExact(t, before, 1, 7);
    var first := Pass(t, before, 2);
    assert FirstAdmits(t, before, 1, 7) && 7 in first.lists[1];
    IndexedAfterPass(first, after, 7);
    assert ListedFrom(first, 1, 7);
  }
}
