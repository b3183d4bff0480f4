/**
 The list of pending cloud requests of src/aclk/aclk_query.c: a singly linked list under a spinlock. Every operation
 holds the lock from its first to its last access, so an interleaving is a sequence of whole operations.
 */
module PendingRequests {

  /** One pending request as the rest of the program sees it. */
  datatype Pending = Pending(msgId: string, canceled: bool)

  // ---- the list as a value --------------------------------------------------------------------------

  /** Position of the first request with this id, or the length of the list. */
  function IndexOf(list: seq<Pending>, msgId: string): (i: nat)
    ensures i <= |list|
    ensures i < |list| ==> list[i].msgId == msgId
    ensures forall j | 0 <= j < i :: list[j].msgId != msgId
  {
    if list == [] || list[0].msgId == msgId then 0
    else
      var i := IndexOf(list[1..], msgId);
      assert forall j | 0 < j < |list| :: list[j] == list[1..][j - 1];
      i + 1
  }

  function Add(list: seq<Pending>, msgId: string): seq<Pending> {
    [Pending(msgId, false)] + list
  }

  function Remove(list: seq<Pending>, msgId: string): seq<Pending> {
    var i := IndexOf(list, msgId);
    if i == |list| then list else list[..i] + list[i + 1..]
  }

  function Cancel(list: seq<Pending>, msgId: string): seq<Pending> {
    var i := IndexOf(list, msgId);
    if i == |list| then list else list[i := Pending(msgId, true)]
  }

  // ---- the list on the heap -------------------------------------------------------------------------

  class Node {
    const msgId: string
    const hash: nat
    var canceled: bool
    var next: Node?

    constructor (msgId: string, hash: nat, next: Node?)
      ensures this.msgId == msgId && this.hash == hash && !canceled && this.next == next
    {
      this.msgId := msgId;
      this.hash := hash;
      this.next := next;
      canceled := false;
    }
  }

  lemma WithoutOne(nodes: seq<Node>, i: nat)
    requires i < |nodes| && forall j, k | 0 <= j < k < |nodes| :: nodes[j] != nodes[k]
    ensures var rest := nodes[..i] + nodes[i + 1..];
      && (forall j, k | 0 <= j < k < |rest| :: rest[j] != rest[k])
      && (forall j | 0 <= j < |rest| :: rest[j] == nodes[if j < i then j else j + 1])
  {
  }

  class PendingList {
    /** `simple_hash`; nothing is assumed about it. */
    const simpleHash: string -> nat
    var head: Node?
    /** The nodes in list order, and the list they stand for. */
    ghost var nodes: seq<Node>
    ghost var list: seq<Pending>

    ghost function At(i: nat): Node?
      reads this
    {
      if i < |nodes| then nodes[i] else null
    }

    ghost predicate NodeOk(i: nat)
      requires i < |nodes| && |list| == |nodes|
      reads this, nodes[i]
    {
      && nodes[i].next == At(i + 1)
      && nodes[i].hash == simpleHash(nodes[i].msgId)
      && list[i] == Pending(nodes[i].msgId, nodes[i].canceled)
    }

    ghost predicate Valid()
      reads this, nodes
    {
      && |list| == |nodes|
      && (forall i, j | 0 <= i < j < |nodes| :: nodes[i] != nodes[j])
      && (forall i | 0 <= i < |nodes| :: NodeOk(i))
      && head == At(0)
    }

    constructor (simpleHash: string -> nat)
      ensures Valid() && list == [] && this.simpleHash == simpleHash
    {
      this.simpleHash := simpleHash;
      head := null;
      nodes := [];
      list := [];
    }

    /** `pending_req_list_add`. */
    method AddRequest(msgId: string) returns (node: Node)
      requires Valid()
      modifies this
      ensures Valid() && fresh(node)
      ensures nodes == [node] + old(nodes) && list == Add(old(list), msgId)
    {
      node := new Node(msgId, simpleHash(msgId), head);
      head := node;
      nodes := [node] + nodes;
      list := Add(list, msgId);
      assert NodeOk(0);
      forall i | 0 < i < |nodes| ensures NodeOk(i) {
        assert nodes[i] == old(nodes)[i - 1];
        assert old(NodeOk(i - 1));
      }
    }

    /** `aclk_web_client_interrupt_cb`: the flag read through a node is the flag of its entry. */
    method IsCancelled(node: Node, ghost i: nat) returns (canceled: bool)
      requires Valid() && i < |nodes| && node == nodes[i]
      ensures canceled == list[i].canceled
    {
      assert NodeOk(i);
      canceled := node.canceled;
    }

    /** The search loop both other operations share: the first node with this id, and its predecessor. */
    method FindRequest(msgId: string) returns (prev: Node?, curr: Node?)
      requires Valid()
      ensures var i := IndexOf(list, msgId);
        curr == At(i) && prev == if i == 0 then null else At(i - 1)
    {
      var hash := simpleHash(msgId);
      ghost var i := 0;
      prev := null;
      curr := head;
      while curr != null
        invariant i <= |nodes| && curr == At(i)
        invariant prev == if i == 0 then null else At(i - 1)
        invariant forall j | 0 <= j < i :: list[j].msgId != msgId
        decreases |nodes| - i
      {
        assert NodeOk(i);
        if curr.hash == hash && curr.msgId == msgId {
          break;
        }
        prev := curr;
        curr := curr.next;
        i := i + 1;
      }
      FoundAt(list, msgId, i);
    }

    /** `mark_pending_req_cancelled`: true means that no such request is pending. */
    method MarkCancelled(msgId: string) returns (missing: bool)
      requires Valid()
      modifies this`list, nodes
      ensures Valid() && nodes == old(nodes) && list == Cancel(old(list), msgId)
      ensures missing == forall i | 0 <= i < |old(list)| :: old(list)[i].msgId != msgId
    {
      var _, curr := FindRequest(msgId);
      ghost var i := IndexOf(list, msgId);
      if curr == null {
        return true;
      }
      list := Cancel(list, msgId);
      curr.canceled := true;
      forall j | 0 <= j < |nodes| ensures NodeOk(j) {
        assert old(NodeOk(j));
      }
      return false;
    }

    /** `pending_req_list_rm`: unlinks the first node with this id, if there is one, and no other. */
    method RemoveRequest(msgId: string)
      requires Valid()
      modifies this`head, this`nodes, this`list, nodes
      ensures Valid() && list == Remove(old(list), msgId)
      ensures var i := IndexOf(old(list), msgId);
        nodes == if i == |old(nodes)| then old(nodes) else old(nodes)[..i] + old(nodes)[i + 1..]
    {
      var prev, curr := FindRequest(msgId);
      if curr != null {
        Unlink(prev, curr, IndexOf(list, msgId), msgId);
      }
    }

    method Unlink(prev: Node?, curr: Node, ghost i: nat, ghost msgId: string)
      requires Valid() && i == IndexOf(list, msgId) && i < |nodes| && curr == nodes[i]
      requires prev == if i == 0 then null else At(i - 1)
      modifies this`head, this`nodes, this`list, nodes
      ensures Valid() && list == Remove(old(list), msgId)
      ensures nodes == old(nodes)[..i] + old(nodes)[i + 1..]
    {
      assert NodeOk(i);
      if prev != null {
        prev.next := curr.next;
      } else {
        head := curr.next;
      }
      WithoutOne(nodes, i);
      nodes := nodes[..i] + nodes[i + 1..];
      list := list[..i] + list[i + 1..];
      forall j | 0 <= j < |nodes| ensures NodeOk(j) {
        assert old(NodeOk(if j < i then j else j + 1));
      }
    }
  }

  lemma FoundAt(list: seq<Pending>, msgId: string, i: nat)
    requires i <= |list| && (i < |list| ==> list[i].msgId == msgId)
    requires forall j | 0 <= j < i :: list[j].msgId != msgId
    ensures IndexOf(list, msgId) == i
  {
  }

  // ---- histories ----------------------------------------------------------------------------------------

  datatype Op = AddOp(msgId: string) | RemoveOp(msgId: string) | CancelOp(msgId: string)

  function Apply(list: seq<Pending>, op: Op): seq<Pending> {
    match op
    case AddOp(msgId) => Add(list, msgId)
    case RemoveOp(msgId) => Remove(list, msgId)
    case CancelOp(msgId) => Cancel(list, msgId)
  }

  /** The list after a sequence of operations. */
  function Run(ops: seq<Op>): seq<Pending> {
    if ops == [] then [] else Apply(Run(ops[..|ops| - 1]), ops[|ops| - 1])
  }

  /** The flags of the requests with this id, newest first. */
  function Flags(list: seq<Pending>, msgId: string): seq<bool> {
    if list == [] then []
    else (if list[0].msgId == msgId then [list[0].canceled] else []) + Flags(list[1..], msgId)
  }

  /** The requests with any other id. */
  function Others(list: seq<Pending>, msgId: string): seq<Pending> {
    if list == [] then []
    else (if list[0].msgId != msgId then [list[0]] else []) + Others(list[1..], msgId)
  }

  /** What one operation does to the flags of one id, without a list: a stack of flags. */
  function Effect(flags: seq<bool>, op: Op, msgId: string): seq<bool> {
    if op.msgId != msgId then flags
    else
      match op
      case AddOp(_) => [false] + flags
      case RemoveOp(_) => if flags == [] then [] else flags[1..]
      case CancelOp(_) => if flags == [] then [] else flags[0 := true]
  }

  function History(ops: seq<Op>, msgId: string): seq<bool> {
    if ops == [] then [] else Effect(History(ops[..|ops| - 1], msgId), ops[|ops| - 1], msgId)
  }

  lemma RemoveCons(p: Pending, rest: seq<Pending>, i: nat)
    requires i < |rest|
    ensures ([p] + rest)[..i + 1] + ([p] + rest)[i + 2..] == [p] + (rest[..i] + rest[i + 1..])
  {
    assert ([p] + rest)[..i + 1] == [p] + rest[..i];
    assert ([p] + rest)[i + 2..] == rest[i + 1..];
  }

  lemma UpdateCons(p: Pending, rest: seq<Pending>, i: nat, q: Pending)
    requires i < |rest|
    ensures ([p] + rest)[i + 1 := q] == [p] + rest[i := q]
  {
  }

  lemma SkipsHead(list: seq<Pending>, op: Op)
    requires list != [] && !op.AddOp? && list[0].msgId != op.msgId
    ensures Apply(list, op) == [list[0]] + Apply(list[1..], op)
  {
    var i := IndexOf(list[1..], op.msgId);
    assert list == [list[0]] + list[1..] && IndexOf(list, op.msgId) == i + 1;
    if i < |list[1..]| {
      if op.RemoveOp? {
        RemoveCons(list[0], list[1..], i);
      } else {
        UpdateCons(list[0], list[1..], i, Pending(op.msgId, true));
      }
    }
  }

  lemma ApplyCons(list: seq<Pending>, op: Op)
    requires list != [] && !op.AddOp?
    ensures list[0].msgId == op.msgId && op.RemoveOp? ==> Apply(list, op) == list[1..]
    ensures list[0].msgId == op.msgId && op.CancelOp? ==> Apply(list, op) == [Pending(op.msgId, true)] + list[1..]
    ensures list[0].msgId != op.msgId ==> Apply(list, op) == [list[0]] + Apply(list[1..], op)
  {
    if list[0].msgId != op.msgId {
      SkipsHead(list, op);
    }
  }

  lemma ConsReadings(p: Pending, list: seq<Pending>, msgId: string)
    ensures Flags([p] + list, msgId) == (if p.msgId == msgId then [p.canceled] else []) + Flags(list, msgId)
    ensures Others([p] + list, msgId) == (if p.msgId != msgId then [p] else []) + Others(list, msgId)
  {
    assert ([p] + list)[1..] == list;
  }

  lemma HeadEffect(list: seq<Pending>, op: Op, msgId: string)
    requires list != [] && !op.AddOp? && list[0].msgId == op.msgId
    ensures Flags(Apply(list, op), msgId) == Effect(Flags(list, msgId), op, msgId)
  {
    ApplyCons(list, op);
    var rest := Flags(list[1..], msgId);
    if op.CancelOp? {
      ConsReadings(Pending(op.msgId, true), list[1..], msgId);
      assert ([list[0].canceled] + rest)[0 := true] == [true] + rest;
    } else {
      assert ([list[0].canceled] + rest)[1..] == rest;
    }
  }

  lemma TailEffect(list: seq<Pending>, op: Op, msgId: string)
    requires list != [] && !op.AddOp? && list[0].msgId != op.msgId
    requires Flags(Apply(list[1..], op), msgId) == Effect(Flags(list[1..], msgId), op, msgId)
    ensures Flags(Apply(list, op), msgId) == Effect(Flags(list, msgId), op, msgId)
  {
    ApplyCons(list, op);
    ConsReadings(list[0], Apply(list[1..], op), msgId);
    if list[0].msgId != msgId {
      assert Flags(Apply(list, op), msgId) == Flags(Apply(list[1..], op), msgId);
      assert Flags(list, msgId) == Flags(list[1..], msgId);
    }
  }

  /** An operation changes the flags of its own id as the stack does, and no other flag. */
  lemma {:induction false} ApplyEffect(list: seq<Pending>, op: Op, msgId: string)
    ensures Flags(Apply(list, op), msgId) == Effect(Flags(list, msgId), op, msgId)
    decreases |list|
  {
    if op.AddOp? {
      ConsReadings(Pending(op.msgId, false), list, msgId);
    } else if list != [] {
      if list[0].msgId == op.msgId {
        HeadEffect(list, op, msgId);
      } else {
        ApplyEffect(list[1..], op, msgId);
        TailEffect(list, op, msgId);
      }
    }
  }

  /** Removing or cancelling one id leaves every request with another id in place, in order and as it was. */
  lemma {:induction false} OthersUntouched(list: seq<Pending>, op: Op)
    requires !op.AddOp?
    ensures Others(Apply(list, op), op.msgId) == Others(list, op.msgId)
    decreases |list|
  {
    if list != [] {
      ApplyCons(list, op);
      if list[0].msgId == op.msgId {
        ConsReadings(Pending(op.msgId, true), list[1..], op.msgId);
      } else {
        OthersUntouched(list[1..], op);
        ConsReadings(list[0], Apply(list[1..], op), op.msgId);
      }
    }
  }

  /** After any history the list shows, for every id, exactly the stack of flags of that id. */
  lemma {:induction false} ListRefinesHistory(ops: seq<Op>, msgId: string)
    ensures Flags(Run(ops), msgId) == History(ops, msgId)
    decreases |ops|
  {
    if ops != [] {
      var n := |ops| - 1;
      ListRefinesHistory(ops[..n], msgId);
      ApplyEffect(Run(ops[..n]), ops[n], msgId);
    }
  }

  predicate LeavesPending(ops: seq<Op>, msgId: string) {
    forall i | 0 <= i < |ops| :: ops[i].msgId == msgId ==> ops[i].CancelOp?
  }

  lemma {:induction false} HistoryAfterAdd(before: seq<Op>, msgId: string, after: seq<Op>)
    requires LeavesPending(after, msgId)
    ensures History(before + [AddOp(msgId)] + after, msgId) == [CancelOp(msgId) in after] + History(before, msgId)
    decreases |after|
  {
    var start := before + [AddOp(msgId)];
    if after == [] {
      assert start + after == start && start[..|before|] == before;
    } else {
      var n := |after| - 1;
      var ops := start + after;
      assert ops[..|ops| - 1] == start + after[..n] && ops[|ops| - 1] == after[n];
      HistoryAfterAdd(before, msgId, after[..n]);
      assert after == after[..n] + [after[n]];
    }
  }

  /**
   A request that has been added and not removed since is in the list, and it reads as cancelled exactly if a
   cancellation of its id ran after it was added; whatever happened before and to other ids does not matter.
   */
  lemma CancelledExactlyIfCancelRan(before: seq<Op>, msgId: string, after: seq<Op>)
    requires LeavesPending(after, msgId)
    ensures var list := Run(before + [AddOp(msgId)] + after);
      var i := IndexOf(list, msgId);
      i < |list| && (list[i].canceled <==> CancelOp(msgId) in after)
  {
    var ops := before + [AddOp(msgId)] + after;
    ListRefinesHistory(ops, msgId);
    HistoryAfterAdd(before, msgId, after);
    FirstFlag(Run(ops), msgId);
  }

  lemma {:induction false} FirstFlag(list: seq<Pending>, msgId: string)
    ensures var i := IndexOf(list, msgId);
      if i < |list| then Flags(list, msgId) != [] && Flags(list, msgId)[0] == list[i].canceled
      else Flags(list, msgId) == []
    decreases |list|
  {
    if list != [] && list[0].msgId != msgId {
      FirstFlag(list[1..], msgId);
    }
  }
}
