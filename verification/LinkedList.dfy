/**
 The intrusive doubly linked list that holds packets, channels, listeners and
 known hosts.  A node records the head it hangs from, so it can be removed
 without naming the list.
 */
module LinkedList {

  class ListNode {
    var next: ListNode?
    var prev: ListNode?
    var head: ListHead?

    constructor () {
      next, prev, head := null, null, null;
    }
  }

  class ListHead {
    var first: ListNode?
    var last: ListNode?
    ghost var nodes: seq<ListNode>

    /** The pointers spell `nodes`: forwards, backwards, at both ends, no node twice. */
    ghost predicate Valid()
      reads this, nodes
    {
      && first == (if nodes == [] then null else nodes[0])
      && last == (if nodes == [] then null else nodes[|nodes| - 1])
      && (forall i :: 0 <= i < |nodes| ==> nodes[i].head == this)
      && Backwards() && Forwards() && NoRepeats(nodes)
    }

    ghost predicate Backwards()
      reads `nodes, nodes`prev
    {
      forall i {:trigger nodes[i].prev} :: 0 <= i < |nodes| ==> nodes[i].prev == if i == 0 then null else nodes[i - 1]
    }

    ghost predicate Forwards()
      reads `nodes, nodes`next
    {
      forall i {:trigger nodes[i].next} :: 0 <= i < |nodes| ==>
        nodes[i].next == if i == |nodes| - 1 then null else nodes[i + 1]
    }

    constructor ()
      ensures Valid() && nodes == []
    {
      first, last := null, null;
      nodes := [];
    }

    method Add(entry: ListNode)
      requires Valid() && entry !in nodes
      modifies this, entry, nodes
      ensures Valid() && nodes == old(nodes) + [entry]
    {
      entry.head := this;
      entry.next := null;
      entry.prev := last;
      last := entry;
      if entry.prev != null {
        entry.prev.next := entry;
      } else {
        first := entry;
      }
      nodes := nodes + [entry];
    }
  }

  ghost predicate NoRepeats(nodes: seq<ListNode>) {
    forall i, j :: 0 <= i < j < |nodes| ==> nodes[i] != nodes[j]
  }

  /** Where a node stands in a list without repetitions. */
  ghost function IndexOf(nodes: seq<ListNode>, entry: ListNode): (i: nat)
    requires entry in nodes
    ensures i < |nodes| && nodes[i] == entry
  {
    if nodes[0] == entry then 0 else IndexOf(nodes[1..], entry) + 1
  }

  ghost function Without(nodes: seq<ListNode>, entry: ListNode): (r: seq<ListNode>)
    requires entry in nodes
    ensures |r| == |nodes| - 1
  {
    var i := IndexOf(nodes, entry);
    nodes[..i] + nodes[i + 1..]
  }

  method Remove(entry: ListNode)
    requires entry.head != null && entry.head.Valid() && entry in entry.head.nodes
    modifies entry.head, entry.head.nodes
    ensures entry.head == old(entry.head) && entry.head.Valid()
    ensures entry.head.nodes == Without(old(entry.head.nodes), entry)
  {
    var head := entry.head;
    ghost var i := IndexOf(head.nodes, entry);
    ghost var before, after := head.nodes, Without(head.nodes, entry);
    assert forall k :: 0 <= k < |after| ==> after[k] == before[if k < i then k else k + 1];
    assert before[i].prev == entry.prev && before[i].next == entry.next;
    if entry.prev != null {
      entry.prev.next := entry.next;
    } else {
      entry.head.first := entry.next;
    }
    if entry.next != null {
      entry.next.prev := entry.prev;
    } else {
      entry.head.last := entry.prev;
    }
    head.nodes := after;
    assert head.Backwards() by {
      hide ListHead.Forwards;
    }
    assert head.Forwards() by {
      hide ListHead.Backwards;
    }
  }

  /** A step of a run over several lists, which are named by their position. */
  datatype Op = Append(list: nat, node: ListNode) | Unlink(list: nat, node: ListNode)

  /** What the lists hold, one sequence for each head. */
  ghost function Contents(heads: seq<ListHead>): (c: seq<seq<ListNode>>)
    reads heads
    ensures |c| == |heads|
  {
    seq(|heads|, i requires 0 <= i < |heads| reads heads => heads[i].nodes)
  }

  /** A node is in at most one list at a time, and only a member can leave. */
  ghost predicate Applicable(c: seq<seq<ListNode>>, op: Op) {
    && op.list < |c|
    && match op
       case Append(_, n) => forall i :: 0 <= i < |c| ==> n !in c[i]
       case Unlink(l, n) => n in c[l]
  }

  ghost function Apply(c: seq<seq<ListNode>>, op: Op): (r: seq<seq<ListNode>>)
    requires Applicable(c, op)
    ensures |r| == |c|
  {
    match op
    case Append(l, n) => c[l := c[l] + [n]]
    case Unlink(l, n) => c[l := Without(c[l], n)]
  }

  ghost predicate Runnable(c: seq<seq<ListNode>>, ops: seq<Op>)
    decreases |ops|
  {
    ops == [] || (Applicable(c, ops[0]) && Runnable(Apply(c, ops[0]), ops[1..]))
  }

  ghost function ApplyAll(c: seq<seq<ListNode>>, ops: seq<Op>): seq<seq<ListNode>>
    requires Runnable(c, ops)
    decreases |ops|
  {
    if ops == [] then c else ApplyAll(Apply(c, ops[0]), ops[1..])
  }

  ghost predicate AllValid(heads: seq<ListHead>, pool: set<ListNode>)
    reads heads, pool
  {
    && (forall i, j :: 0 <= i < j < |heads| ==> heads[i] != heads[j])
    && (forall i :: 0 <= i < |heads| ==> (forall n :: n in heads[i].nodes ==> n in pool) && heads[i].Valid())
  }

  /** A node hangs from the head whose list it is in. */
  lemma {:induction false} HeadOf(h: ListHead, n: ListNode)
    requires h.Valid() && n in h.nodes
    ensures n.head == h
  {
  }

  /** No node is in two lists. */
  lemma {:induction false} ListsDisjoint(heads: seq<ListHead>, l: nat, pool: set<ListNode>)
    requires AllValid(heads, pool) && l < |heads|
    ensures forall i, n :: 0 <= i < |heads| && i != l && n in heads[i].nodes ==> n !in heads[l].nodes
  {
    hide ListHead.Valid;
    forall i, n | 0 <= i < |heads| && i != l && n in heads[i].nodes
      ensures n !in heads[l].nodes
    {
      if n in heads[l].nodes {
        HeadOf(heads[i], n);
        HeadOf(heads[l], n);
      }
    }
  }

  method AppendTo(heads: seq<ListHead>, l: nat, n: ListNode, ghost pool: set<ListNode>)
    requires AllValid(heads, pool) && l < |heads| && n in pool
    requires forall i :: 0 <= i < |heads| ==> n !in heads[i].nodes
    modifies heads, pool
    ensures AllValid(heads, pool)
    ensures heads[l].nodes == old(heads[l].nodes) + [n]
    ensures forall i :: 0 <= i < |heads| && i != l ==> heads[i].nodes == old(heads[i].nodes)
  {
    ListsDisjoint(heads, l, pool);
    heads[l].Add(n);
  }

  method UnlinkFrom(heads: seq<ListHead>, l: nat, n: ListNode, ghost pool: set<ListNode>)
    requires AllValid(heads, pool) && l < |heads| && n in heads[l].nodes
    modifies heads, pool
    ensures AllValid(heads, pool)
    ensures heads[l].nodes == old(Without(heads[l].nodes, n))
    ensures forall i :: 0 <= i < |heads| && i != l ==> heads[i].nodes == old(heads[i].nodes)
  {
    hide IndexOf;
    ListsDisjoint(heads, l, pool);
    HeadOf(heads[l], n);
    Remove(n);
  }

  method Step(heads: seq<ListHead>, op: Op, ghost pool: set<ListNode>)
    requires AllValid(heads, pool) && Applicable(Contents(heads), op) && op.node in pool
    modifies heads, pool
    ensures AllValid(heads, pool)
    ensures Contents(heads) == old(Apply(Contents(heads), op))
  {
    hide AllValid, Without;
    ghost var c := Contents(heads);
    match op {
      case Append(l, n) =>
        assert forall i :: 0 <= i < |heads| ==> heads[i].nodes == c[i];
        AppendTo(heads, l, n, pool);
      case Unlink(l, n) =>
        UnlinkFrom(heads, l, n, pool);
    }
  }

  /**
   Every run of additions and removals over any number of lists keeps every
   list well formed, and does to the lists what the run says on sequences.
   */
  method Run(heads: seq<ListHead>, ops: seq<Op>, ghost pool: set<ListNode>)
    requires AllValid(heads, pool) && Runnable(Contents(heads), ops)
    requires forall i :: 0 <= i < |ops| ==> ops[i].node in pool
    modifies heads, pool
    ensures AllValid(heads, pool)
    ensures Contents(heads) == old(ApplyAll(Contents(heads), ops))
  {
    ghost var goal := ApplyAll(Contents(heads), ops);
    for k := 0 to |ops|
      invariant AllValid(heads, pool) && Runnable(Contents(heads), ops[k..])
      invariant ApplyAll(Contents(heads), ops[k..]) == goal
    {
      assert ops[k..][1..] == ops[k + 1..];
      Step(heads, ops[k], pool);
    }
  }
}
