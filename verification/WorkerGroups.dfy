/** The worker groups, their thread lists and the thread index of src/daemon/global_statistics.c, updated in place. */
module WorkerGroups {
  import opened ThreadLists
  import opened WorkerIndex

  /** The threads, in order, are the records the index holds under these thread ids. */
  ghost predicate Match(nodes: seq<WorkerThread>, pids: seq<Pid>, index: map<Pid, WorkerThread>) {
    |nodes| == |pids| && forall k | 0 <= k < |nodes| :: pids[k] in index && nodes[k] == index[pids[k]]
  }

  lemma MatchAppend(nodes: seq<WorkerThread>, pids: seq<Pid>, index: map<Pid, WorkerThread>, pid: Pid, t: WorkerThread)
    requires Match(nodes, pids, index) && pid !in index
    ensures Match(nodes, pids, index[pid := t]) && Match(nodes + [t], pids + [pid], index[pid := t])
  {
  }

  lemma MatchOthers(nodes: seq<WorkerThread>, pids: seq<Pid>, index: map<Pid, WorkerThread>, pid: Pid)
    requires Match(nodes, pids, index) && pid !in pids
    ensures Match(nodes, pids, index - {pid})
  {
  }

  lemma MatchRemove(nodes: seq<WorkerThread>, pids: seq<Pid>, index: map<Pid, WorkerThread>, k: nat)
    requires Match(nodes, pids, index) && k < |nodes| && Distinct(pids)
    ensures Match(nodes[..k] + nodes[k + 1..], pids[..k] + pids[k + 1..], index - {pids[k]})
  {
    MatchOthers(nodes[..k], pids[..k], index, pids[k]);
    MatchOthers(nodes[k + 1..], pids[k + 1..], index, pids[k]);
  }

  /** The same for the lists of all groups. */
  ghost predicate MatchAll(shape: seq<seq<WorkerThread>>, lists: seq<seq<Pid>>, index: map<Pid, WorkerThread>) {
    |lists| == |shape| && forall g | 0 <= g < |shape| :: Match(shape[g], lists[g], index)
  }

  lemma MatchAllAppend(shape: seq<seq<WorkerThread>>, lists: seq<seq<Pid>>, index: map<Pid, WorkerThread>,
                       g: nat, pid: Pid, t: WorkerThread)
    requires MatchAll(shape, lists, index) && g < |shape| && pid !in index
    ensures MatchAll(shape[g := shape[g] + [t]], lists[g := lists[g] + [pid]], index[pid := t])
  {
    var shape', lists' := shape[g := shape[g] + [t]], lists[g := lists[g] + [pid]];
    forall h | 0 <= h < |shape'|
      ensures Match(shape'[h], lists'[h], index[pid := t])
    {
      MatchAppend(shape[h], lists[h], index, pid, t);
    }
  }

  lemma MatchAllRemove(shape: seq<seq<WorkerThread>>, t: Table, index: map<Pid, WorkerThread>, g: nat, k: nat)
    requires MatchAll(shape, t.lists, index) && Consistent(t) && g < |shape| && k < |shape[g]|
    ensures MatchAll(shape[g := shape[g][..k] + shape[g][k + 1..]], Unlist(t, g, k).lists, index - {t.lists[g][k]})
  {
    var pid := t.lists[g][k];
    var shape', lists' := shape[g := shape[g][..k] + shape[g][k + 1..]], Unlist(t, g, k).lists;
    forall h | 0 <= h < |shape'|
      ensures Match(shape'[h], lists'[h], index - {pid})
    {
      if h == g {
        MatchRemove(shape[g], t.lists[g], index, k);
      } else {
        assert pid in t.lists[g];
        MatchOthers(shape[h], t.lists[h], index, pid);
      }
    }
  }

  /** No record is in two lists. */
  ghost predicate Apart(shape: seq<seq<WorkerThread>>) {
    forall g, h, n | 0 <= g < |shape| && 0 <= h < |shape| && n in shape[g] && n in shape[h] :: g == h
  }

  class Workers {
    /** The thread list of each worker group. */
    const lists: seq<ThreadList>
    /** The index by thread id; lists and index share the thread records. */
    var index: map<Pid, WorkerThread>
    /** The records in the lists, in order, and all records together. */
    ghost var shape: seq<seq<WorkerThread>>
    ghost var threads: set<WorkerThread>
    /** What lists and index stand for. */
    ghost var table: Table

    /** The links of every list hold. */
    ghost predicate Linked()
      reads this`shape, this`threads, lists, threads`prev, threads`next
    {
      && |shape| == |lists|
      && (forall g, h | 0 <= g < h < |lists| :: lists[g] != lists[h])
      && (forall g | 0 <= g < |lists| :: lists[g].nodes == shape[g])
      && (forall g, n | 0 <= g < |shape| && n in shape[g] :: n in threads)
      && (forall g | 0 <= g < |lists| :: lists[g].Valid())
    }

    /** Nothing but the links and the order matters. */
    twostate lemma LinkedStays()
      requires old(Linked()) && shape == old(shape) && threads == old(threads)
      requires forall g | 0 <= g < |lists| :: unchanged(lists[g])
      requires forall n | n in threads :: n.prev == old(n.prev) && n.next == old(n.next)
      ensures Linked()
    {
      forall g | 0 <= g < |lists|
        ensures lists[g].Valid()
      {
        lists[g].StillValid();
      }
    }

    /** Append to one list; the others keep their links. */
    method Link(g: nat, t: WorkerThread)
      requires Linked() && Apart(shape) && g < |lists| && t !in threads
      modifies this`shape, this`threads, lists[g], lists[g].nodes`prev, lists[g].nodes`next, t`prev, t`next
      ensures Linked() && shape == old(shape)[g := old(shape)[g] + [t]] && threads == old(threads) + {t}
    {
      lists[g].Append(t);
      shape := shape[g := shape[g] + [t]];
      threads := threads + {t};
      forall h | 0 <= h < |lists|
        ensures lists[h].Valid() && lists[h].nodes == shape[h]
      {
        if h != g {
          lists[h].StillValid();
        }
      }
    }

    /** Removal from one list; the others keep their links. */
    method Unlink(g: nat, t: WorkerThread, ghost k: nat)
      requires Linked() && Apart(shape) && g < |lists| && k < |shape[g]| && shape[g][k] == t
      modifies this`shape, lists[g], lists[g].nodes`prev, lists[g].nodes`next
      ensures Linked() && shape == old(shape)[g := old(shape)[g][..k] + old(shape)[g][k + 1..]]
    {
      lists[g].Remove(t, k);
      shape := shape[g := shape[g][..k] + shape[g][k + 1..]];
      forall h | 0 <= h < |lists|
        ensures lists[h].Valid() && lists[h].nodes == shape[h]
      {
        if h != g {
          lists[h].StillValid();
        }
      }
    }

    // ---- lists and index together -------------------------------------------------------------------

    ghost predicate Matched()
      reads this`shape, this`table, this`index
    {
      MatchAll(shape, table.lists, index)
    }

    ghost predicate RecordOk(pid: Pid)
      requires pid in index
      reads this`table, this`index, this`threads, threads`enabled
    {
      && index[pid] in threads && index[pid].pid == pid
      && pid in table.index && index[pid].enabled == table.index[pid]
    }

    ghost predicate Records()
      reads this`table, this`index, this`threads, threads`enabled
    {
      index.Keys == table.index.Keys && forall pid | pid in index :: RecordOk(pid)
    }

    ghost predicate Valid()
      reads this, lists, threads
    {
      Linked() && Matched() && Records() && Consistent(table)
    }

    constructor (lists: seq<ThreadList>)
      requires forall g | 0 <= g < |lists| :: lists[g].Valid() && lists[g].nodes == []
      requires forall g, h | 0 <= g < h < |lists| :: lists[g] != lists[h]
      ensures this.lists == lists && Valid() && table == Table(seq(|lists|, _ => []), map[])
    {
      this.lists := lists;
      index, threads := map[], {};
      shape := seq(|lists|, _ => []);
      table := Table(seq(|lists|, _ => []), map[]);
    }

    lemma PidOf(g: nat, n: WorkerThread)
      requires Matched() && Records() && g < |shape| && n in shape[g]
      ensures n.pid in table.lists[g] && n.pid in index && index[n.pid] == n
    {
      var k :| 0 <= k < |shape[g]| && shape[g][k] == n;
      assert RecordOk(table.lists[g][k]);
    }

    lemma ListsApart()
      requires Valid()
      ensures Apart(shape)
    {
      forall g, h, n | 0 <= g < |shape| && 0 <= h < |shape| && n in shape[g] && n in shape[h]
        ensures g == h
      {
        PidOf(g, n);
        PidOf(h, n);
      }
    }

    /** The records stay right when one is forgotten. */
    twostate lemma RecordsForget(pid: Pid)
      requires old(Records()) && index == old(index) - {pid} && table.index == old(table).index - {pid}
      requires threads == old(threads) && forall n | n in threads :: n.enabled == old(n.enabled)
      ensures Records()
    {
      forall p | p in index
        ensures RecordOk(p)
      {
        assert old(RecordOk(p));
      }
    }

    /** The records stay right when a new one is added. */
    twostate lemma RecordsAdd(pid: Pid, new t: WorkerThread)
      requires old(Records()) && index == old(index)[pid := t] && table.index == old(table).index[pid := t.enabled]
      requires t.pid == pid && threads == old(threads) + {t}
      requires forall n | n in old(threads) :: n.enabled == old(n.enabled)
      requires t !in old(threads) && pid !in old(index)
      ensures Records()
    {
      forall p | p in index
        ensures RecordOk(p)
      {
        assert p != pid ==> old(RecordOk(p));
      }
    }

    /** The records stay right when one is enabled. */
    twostate lemma RecordsEnable(t: WorkerThread)
      requires old(Records()) && index == old(index) && threads == old(threads) && t.enabled
      requires t.pid in index && index[t.pid] == t && table.index == old(table).index[t.pid := true]
      requires forall n | n in threads && n != t :: n.enabled == old(n.enabled)
      ensures Records()
    {
      forall p | p in index
        ensures RecordOk(p)
      {
        assert old(RecordOk(p));
      }
    }

    /** The records stay right when those of one group are disabled. */
    twostate lemma RecordsReset(g: nat)
      requires old(Records()) && Matched() && g < |shape| == |old(table).lists| && old(table).lists == table.lists
      requires index == old(index) && shape == old(shape) && threads == old(threads) && table == Reset(old(table), g)
      requires forall n | n in threads :: n.enabled == (n !in shape[g] && old(n.enabled))
      ensures Records()
    {
      forall pid | pid in index
        ensures RecordOk(pid)
      {
        assert old(RecordOk(pid));
        if pid in table.lists[g] {
          var k :| 0 <= k < |table.lists[g]| && table.lists[g][k] == pid;
          assert index[pid] == shape[g][k];
        } else if index[pid] in shape[g] {
          var k :| 0 <= k < |shape[g]| && shape[g][k] == index[pid];
          assert old(RecordOk(table.lists[g][k]));
        }
      }
    }

    /** `workers_utilization_reset_statistics`, its last loop */
    method ResetThreads(g: nat)
      requires Valid() && g < |lists|
      modifies this`table, threads`enabled
      ensures Valid() && table == Reset(old(table), g)
    {
      ResetConsistent(table, g);
      lists[g].DisableAll();
      table := Reset(table, g);
      RecordsReset(g);
    }

    /** `worker_thread_find`: the record of a listed thread, or none */
    method Find(pid: Pid) returns (t: WorkerThread?)
      requires Valid()
      ensures t != null <==> Listed(table, pid)
      ensures t != null ==>
        && t.pid == pid && pid in index && index[pid] == t
        && exists g | 0 <= g < |shape| :: t in shape[g]
      ensures t == null <==> pid !in index
    {
      t := if pid in index then index[pid] else null;
      if t != null {
        RecordListed(pid);
      } else {
        assert pid !in table.index;
      }
    }

    lemma RecordListed(pid: Pid)
      requires Valid() && pid in index
      ensures Listed(table, pid) && index[pid].pid == pid && exists g | 0 <= g < |shape| :: index[pid] in shape[g]
    {
      assert RecordOk(pid) && Listed(table, pid);
      var g :| 0 <= g < |table.lists| && pid in table.lists[g];
      var k :| 0 <= k < |table.lists[g]| && table.lists[g][k] == pid;
      assert Match(shape[g], table.lists[g], index);
      assert shape[g][k] == index[pid];
    }

    /** A zeroed record, indexed and appended to the list of the group. */
    method Enlist(g: nat, pid: Pid) returns (t: WorkerThread)
      requires Linked() && Apart(shape) && Records() && g < |lists| == |table.lists| && pid !in index
      modifies this, lists[g], lists[g].nodes`prev, lists[g].nodes`next
      ensures Linked() && Records() && fresh(t) && t.pid == pid && threads == old(threads) + {t}
      ensures index == old(index)[pid := t] && shape == old(shape)[g := old(shape)[g] + [t]]
      ensures table == Table(old(table).lists[g := old(table).lists[g] + [pid]], old(table).index[pid := false])
    {
      t := new WorkerThread(pid);
      Link(g, t);
      index := index[pid := t];
      table := Table(table.lists[g := table.lists[g] + [pid]], table.index[pid := false]);
      RecordsAdd(pid, t);
    }

    /** `worker_thread_create`: index and lists agree afterwards as before */
    method Create(g: nat, pid: Pid) returns (t: WorkerThread)
      requires Valid() && g < |lists| && pid !in index
      modifies this, lists[g], lists[g].nodes`prev, lists[g].nodes`next
      ensures Valid() && fresh(t) && threads == old(threads) + {t}
      ensures index == old(index)[pid := t] && t.pid == pid
      ensures table == Table(old(table).lists[g := old(table).lists[g] + [pid]], old(table).index[pid := false])
    {
      ListsApart();
      CreatedConsistent(table, g, pid);
      t := Enlist(g, pid);
      MatchAllAppend(old(shape), old(table).lists, old(index), g, pid, t);
    }

    method Enable(t: WorkerThread)
      requires Valid() && t.pid in index && index[t.pid] == t
      modifies this`table, t`enabled
      ensures Valid() && table == old(table).(index := old(table).index[t.pid := true])
    {
      ghost var was := table;
      assert RecordOk(t.pid);
      t.enabled := true;
      table := was.(index := was.index[t.pid := true]);
      EnabledConsistent(was, t.pid);
      RecordsEnable(t);
      assert Linked() by {
        LinkedStays();
      }
    }

    /** `worker_thread_find_or_create` */
    method FindOrCreate(g: nat, pid: Pid) returns (t: WorkerThread)
      requires Valid() && g < |lists|
      modifies this, lists[g], lists[g].nodes`prev, lists[g].nodes`next
      ensures Valid() && fresh(threads - old(threads)) && pid in index && index[pid] == t && t.pid == pid
      ensures if pid in old(index) then table == old(table) && index == old(index) && threads == old(threads)
        else table == Table(old(table).lists[g := old(table).lists[g] + [pid]], old(table).index[pid := false]) && fresh(t)
    {
      var found := Find(pid);
      if found == null {
        t := Create(g, pid);
      } else {
        t := found;
      }
    }

    /** `worker_utilization_charts_callback`, its work on the thread record */
    method Callback(g: nat, pid: Pid)
      requires Valid() && g < |lists|
      modifies this, lists, threads
      ensures Valid() && fresh(threads - old(threads)) && table == Report(old(table), g, pid)
    {
      assert pid in index <==> pid in table.index;
      assert pid in index ==> RecordOk(pid);
      var t := FindOrCreate(g, pid);
      Enable(t);
    }

    /** What is known of the thread at position `k` of a list. */
    lemma ItemFacts(g: nat, k: nat)
      requires Valid() && g < |shape| && k < |shape[g]|
      ensures |table.lists| == |shape| && k < |table.lists[g]| && shape[g][k].pid == table.lists[g][k]
      ensures shape[g][k].pid in table.index && table.index[shape[g][k].pid] == shape[g][k].enabled
      ensures Apart(shape)
    {
      ListsApart();
      assert Match(shape[g], table.lists[g], index) && RecordOk(table.lists[g][k]);
    }

    /** A thread leaves the index and the list of its group. */
    method Forget(g: nat, t: WorkerThread, ghost k: nat)
      requires Linked() && Apart(shape) && Records() && g < |lists| && k < |shape[g]| && shape[g][k] == t
      requires |table.lists| == |lists| && k < |table.lists[g]| && table.lists[g][k] == t.pid
      modifies this`index, this`table, this`shape, lists[g], lists[g].nodes`prev, lists[g].nodes`next
      ensures Linked() && Records() && index == old(index) - {t.pid}
      ensures shape == old(shape)[g := old(shape)[g][..k] + old(shape)[g][k + 1..]] && table == Unlist(old(table), g, k)
    {
      index := index - {t.pid};
      Unlink(g, t, k);
      table := Unlist(table, g, k);
      RecordsForget(t.pid);
    }

    /** The index and the lists agree afterwards as before. */
    method Drop(g: nat, t: WorkerThread, ghost k: nat)
      requires Valid() && g < |lists| && k < |shape[g]| && shape[g][k] == t
      modifies this`index, this`table, this`shape, lists[g], lists[g].nodes`prev, lists[g].nodes`next
      ensures Valid() && shape == old(shape)[g := old(shape)[g][..k] + old(shape)[g][k + 1..]]
      ensures |table.lists| == |old(table).lists| && k < |old(table).lists[g]| && table == Unlist(old(table), g, k)
    {
      ItemFacts(g, k);
      UnlistConsistent(table, g, k);
      MatchAllRemove(shape, table, index, g, k);
      Forget(g, t, k);
    }

    lemma NothingToClean(g: nat)
      requires Valid() && g < |shape|
      requires forall k | 0 <= k < |shape[g]| :: shape[g][k].enabled
      ensures |table.lists| == |shape| && WorkerIndex.Cleanup(table, g) == table
    {
      forall pid | pid in table.lists[g]
        ensures pid in table.index && table.index[pid]
      {
        var k :| 0 <= k < |table.lists[g]| && table.lists[g][k] == pid;
        assert Match(shape[g], table.lists[g], index) && RecordOk(pid) && shape[g][k].enabled;
      }
      CleanAlready(table, g);
    }

    /** The thread at position `i` of a list, or null behind its end. */
    ghost function At(g: nat, i: nat): WorkerThread?
      requires g < |shape|
      reads this`shape
    {
      if i < |shape[g]| then shape[g][i] else null
    }

    /** The successor in the list of a group. */
    lemma NextOf(g: nat, i: nat)
      requires Linked() && g < |lists| && i < |shape[g]|
      ensures shape[g][i].next == At(g, i + 1)
    {
      assert lists[g].Linked(i);
    }

    /** Dropping a disabled thread does not change what the cleanup leaves. */
    method DropDisabled(g: nat, t: WorkerThread, ghost i: nat)
      requires Valid() && g < |lists| && i < |shape[g]| && shape[g][i] == t && !t.enabled
      modifies this`index, this`table, this`shape, lists[g], threads`prev, threads`next
      ensures Valid() && |shape[g]| == |old(shape)[g]| - 1 && At(g, i) == old(At(g, i + 1))
      ensures forall k | 0 <= k < i :: shape[g][k] == old(shape)[g][k]
      ensures |table.lists| == |old(table).lists| && WorkerIndex.Cleanup(table, g) == WorkerIndex.Cleanup(old(table), g)
    {
      ItemFacts(g, i);
      UnlistThenCleanup(table, g, i);
      Drop(g, t, i);
    }

    /** The first `i` threads of the list are enabled. */
    ghost predicate EnabledTo(g: nat, i: nat)
      requires g < |shape| && i <= |shape[g]|
      reads this`shape, set k | 0 <= k < i :: shape[g][k]
    {
      forall k | 0 <= k < i :: shape[g][k].enabled
    }

    /** One round of the cleanup: the next thread is remembered before the current one is unlinked. */
    method CleanupStep(g: nat, t: WorkerThread, ghost i: nat) returns (next: WorkerThread?, ghost j: nat)
      requires Valid() && g < |lists| && i < |shape[g]| && shape[g][i] == t && EnabledTo(g, i)
      modifies this`index, this`table, this`shape, lists[g], threads`prev, threads`next
      ensures Valid() && j <= |shape[g]| && next == At(g, j) && EnabledTo(g, j)
      ensures |shape[g]| - j < |old(shape)[g]| - i
      ensures |table.lists| == |old(table).lists| && WorkerIndex.Cleanup(table, g) == WorkerIndex.Cleanup(old(table), g)
    {
      NextOf(g, i);
      next := t.next;
      if !t.enabled {
        DropDisabled(g, t, i);
        j := i;
      } else {
        j := i + 1;
      }
    }

    /** `workers_threads_cleanup` */
    method Cleanup(g: nat)
      requires Valid() && g < |lists|
      modifies this`index, this`table, this`shape, lists[g], threads`prev, threads`next
      ensures Valid() && table == WorkerIndex.Cleanup(old(table), g)
    {
      ghost var i: nat := 0;
      var t := lists[g].head;
      while t != null
        invariant Valid() && i <= |shape[g]| && t == At(g, i) && EnabledTo(g, i)
        invariant |table.lists| == |old(table).lists|
        invariant WorkerIndex.Cleanup(table, g) == WorkerIndex.Cleanup(old(table), g)
        decreases |shape[g]| - i
      {
        t, i := CleanupStep(g, t, i);
      }
      NothingToClean(g);
    }

    // ---- a pass -------------------------------------------------------------------------------------

    method Callbacks(g: nat, pids: seq<Pid>)
      requires Valid() && g < |lists|
      modifies this, lists, threads
      ensures Valid() && fresh(threads - old(threads)) && table == ReportAll(old(table), g, pids)
    {
      for i := 0 to |pids|
        invariant Valid() && fresh(threads - old(threads))
        invariant table == ReportAll(old(table), g, pids[..i])
      {
        assert pids[..i + 1][..i] == pids[..i];
        Callback(g, pids[i]);
      }
      assert pids[..|pids|] == pids;
    }

    /** Reset, callbacks and cleanup for one group */
    method ChartGroup(g: nat, pids: seq<Pid>)
      requires Valid() && g < |lists|
      modifies this, lists, threads
      ensures Valid() && fresh(threads - old(threads)) && table == Round(old(table), g, pids)
    {
      ghost var was := table;
      assert |was.lists| == |lists|;
      ResetThreads(g);
      ghost var disabled := table;
      Callbacks(g, pids);
      assert table == ReportAll(disabled, g, pids);
      Cleanup(g);
    }

    /** `worker_utilization_charts`; `reports[g]` are the threads `workers_foreach` finds registered in group `g` */
    method Charts(reports: seq<seq<Pid>>)
      requires Valid() && |reports| == |lists|
      modifies this, lists, threads
      ensures Valid() && |old(table).lists| == |reports| && table == Pass(old(table), reports, |reports|)
    {
      for g := 0 to |lists|
        invariant Valid() && fresh(threads - old(threads)) && |old(table).lists| == |reports|
        invariant table == Pass(old(table), reports, g)
      {
        ChartGroup(g, reports[g]);
      }
    }
  }
}
