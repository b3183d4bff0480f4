/** The intrusive doubly linked list of src/libnetdata/linked-lists.h, as worker groups use it for their threads. */
module ThreadLists {

  class WorkerThread {
    const pid: int
    var enabled: bool
    var prev: WorkerThread?
    var next: WorkerThread?

    /** A zeroed record with its thread id. */
    constructor (pid: int)
      ensures this.pid == pid && !enabled && prev == null && next == null
    {
      this.pid := pid;
      enabled, prev, next := false, null, null;
    }
  }

  /** The list: `next` ends in null, while `prev` of the first thread is the last thread. */
  class ThreadList {
    var head: WorkerThread?
    /** The threads in list order. */
    ghost var nodes: seq<WorkerThread>

    ghost predicate Linked(i: nat)
      requires i < |nodes|
      reads this, nodes`prev, nodes`next
    {
      && nodes[i].next == (if i + 1 < |nodes| then nodes[i + 1] else null)
      && nodes[i].prev == (if i > 0 then nodes[i - 1] else nodes[|nodes| - 1])
    }

    ghost predicate Valid()
      reads this, nodes`prev, nodes`next
    {
      && head == (if nodes == [] then null else nodes[0])
      && (forall i, j | 0 <= i < j < |nodes| :: nodes[i] != nodes[j])
      && (forall i | 0 <= i < |nodes| :: Linked(i))
    }

    constructor ()
      ensures Valid() && nodes == []
    {
      head, nodes := null, [];
    }

    /** A list whose links have not been written to is as valid as before. */
    twostate lemma StillValid()
      requires old(Valid()) && unchanged(this)
      requires forall n | n in nodes :: old(allocated(n)) && n.prev == old(n.prev) && n.next == old(n.next)
      ensures Valid()
    {
      forall i | 0 <= i < |nodes|
        ensures Linked(i)
      {
        assert old(Linked(i));
      }
    }

    /** The loop at the end of `workers_utilization_reset_statistics` */
    method DisableAll()
      requires Valid()
      modifies nodes`enabled
      ensures Valid() && forall n | n in nodes :: !n.enabled
    {
      ghost var i := 0;
      var t := head;
      while t != null
        invariant i <= |nodes| && t == if i < |nodes| then nodes[i] else null
        invariant forall j | 0 <= j < i :: !nodes[j].enabled
        decreases |nodes| - i
      {
        assert Linked(i);
        t.enabled := false;
        t := t.next;
        i := i + 1;
      }
    }

    /** `DOUBLE_LINKED_LIST_APPEND_ITEM_UNSAFE` */
    method Append(item: WorkerThread)
      requires Valid() && item !in nodes
      modifies this, nodes`prev, nodes`next, item`prev, item`next
      ensures Valid() && nodes == old(nodes) + [item]
    {
      item.next := null;
      if head != null {
        assert Linked(0) && Linked(|nodes| - 1);
        item.prev := head.prev;
        head.prev.next := item;
        head.prev := item;
      } else {
        item.prev := item;
        head := item;
      }
      nodes := nodes + [item];
      forall i | 0 <= i < |nodes|
        ensures Linked(i)
      {
        assert i < |old(nodes)| ==> old(Linked(i)) && nodes[i] == old(nodes)[i];
      }
    }

    /** `DOUBLE_LINKED_LIST_REMOVE_ITEM_UNSAFE`; the list is taken to hold the item, at position `k`. */
    method Remove(item: WorkerThread, ghost k: nat)
      requires Valid() && k < |nodes| && nodes[k] == item
      modifies this, nodes`prev, nodes`next
      ensures Valid() && nodes == old(nodes[..k] + nodes[k + 1..])
      ensures item.prev == null && item.next == null
    {
      assert Linked(k) && Linked(0) && Linked(|nodes| - 1);
      if item.prev == item {
        head := null;
      } else if item == head {
        item.next.prev := item.prev;
        head := item.next;
      } else {
        item.prev.next := item.next;
        if item.next != null {
          item.next.prev := item.prev;
        } else {
          head.prev := item.prev;
        }
      }
      item.next, item.prev := null, null;
      nodes := nodes[..k] + nodes[k + 1..];
      forall i | 0 <= i < |nodes|
        ensures Linked(i)
      {
        ghost var j := if i < k then i else i + 1;
        assert old(Linked(j)) && nodes[i] == old(nodes)[j];
      }
    }
  }
}
