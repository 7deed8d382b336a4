/** The linked queue with its statistics, and the loops that fill and drain it. */
module LinkedQueue {

  class Node {
    const val: int
    var next: Node?

    constructor (val: int)
      ensures this.val == val && next == null
    {
      this.val, this.next := val, null;
    }
  }

  ghost function Values(c: seq<Node>): (s: seq<int>)
    ensures |s| == |c|
  {
    seq(|c|, i requires 0 <= i < |c| => c[i].val)
  }

  ghost function Next(c: seq<Node>, i: nat): Node? {
    if i + 1 < |c| then c[i + 1] else null
  }

  class Queue {
    var first: Node?
    var last: Node?
    const maxCount: int
    var count: int
    var addAttempts: int
    var getAttempts: int
    var addCount: int
    var getCount: int
    ghost var nodes: seq<Node>
    ghost var freed: set<Node>

    /** The nodes are linked from `first`, `last` is the last of them, and none is freed.  Of an empty queue that had
        a node before, `last` is freed. */
    ghost predicate Linked()
      reads `first, `last, `nodes, `freed, nodes`next
    {
      && first == (if |nodes| > 0 then nodes[0] else null)
      && (if |nodes| > 0 then last == nodes[|nodes| - 1] else last == null || last in freed)
      && (forall i :: 0 <= i < |nodes| ==> nodes[i].next == Next(nodes, i))
      && (forall i :: 0 <= i < |nodes| ==> nodes[i] !in freed)
      && (forall i, j :: 0 <= i < j < |nodes| ==> nodes[i] != nodes[j])
    }

    ghost predicate Valid()
      reads this, nodes`next
    {
      count == |nodes| <= maxCount && addCount - getCount == count && Linked()
    }

    ghost function Contents(): (s: seq<int>)
      reads `nodes
      ensures |s| == |nodes|
    {
      Values(nodes)
    }

    /** queue_init. */
    constructor (maxCount: int)
      requires maxCount >= 0
      ensures Valid() && this.maxCount == maxCount && Contents() == [] && nodes == []
      ensures addAttempts == getAttempts == addCount == getCount == 0
    {
      first, last := null, null;
      this.maxCount := maxCount;
      count, addAttempts, getAttempts, addCount, getCount := 0, 0, 0, 0, 0;
      nodes, freed := [], {};
    }

    /** queue_add; the count goes up only if nothing follows the last node, which is always so. */
    method Add(val: int) returns (ok: bool)
      requires Valid()
      modifies this, nodes
      ensures Valid() && ok == (old(count) < maxCount) && count == |Contents()| <= maxCount
      ensures Contents() == if ok then old(Contents()) + [val] else old(Contents())
      ensures addAttempts == old(addAttempts) + 1 && addCount == old(addCount) + if ok then 1 else 0
      ensures getAttempts == old(getAttempts) && getCount == old(getCount)
      ensures freed == old(freed)
      ensures forall k :: 0 <= k < |nodes| ==> nodes[k] in old(nodes) || fresh(nodes[k])
    {
      addAttempts := addAttempts + 1;
      if count == maxCount {
        return false;
      }
      hide Linked, Values;
      var node := new Node(val);
      Link(node);
      if last.next == null {
        count := count + 1;
      }
      addCount := addCount + 1;
      return true;
    }

    /** Puts a new node behind the last one, which is not freed; of an empty queue it may be, and nothing of it is
        written, since only nodes of the queue may be. */
    method Link(node: Node)
      requires Linked() && node !in nodes && node.next == null
      modifies `first, `last, `nodes, `freed, nodes`next
      ensures old(nodes) != [] ==> old(last) !in old(freed)
      ensures Linked() && nodes == old(nodes) + [node] && last == node && node.next == null
      ensures freed == old(freed) - {node}
      ensures Contents() == old(Contents()) + [node.val]
    {
      if first == null {
        first, last := node, node;
      } else {
        assert last !in freed;
        last.next := node;
        last := last.next;
      }
      nodes := nodes + [node];
      freed := freed - {node};
    }

    /** Takes the first node out and frees it. */
    method Unlink() returns (val: int)
      requires Linked() && |nodes| > 0
      modifies `first, `nodes, `freed
      ensures Linked() && nodes == old(nodes)[1..] && old(Contents()) == [val] + Contents()
      ensures freed == old(freed) + {old(nodes)[0]}
      ensures nodes == [] ==> last in freed
    {
      assert first !in freed;
      val := first.val;
      freed := freed + {first};
      first := first.next;
      nodes := nodes[1..];
    }

    /** queue_get. */
    method Get() returns (ok: bool, val: int)
      requires Valid()
      modifies this
      ensures Valid() && ok == (old(count) > 0) && count == |Contents()|
      ensures ok ==> old(Contents()) == [val] + Contents() && nodes == old(nodes)[1..]
      ensures ok ==> freed == old(freed) + {old(nodes)[0]} && (nodes == [] ==> last in freed)
      ensures !ok ==> Contents() == old(Contents()) && nodes == old(nodes) && freed == old(freed)
      ensures getAttempts == old(getAttempts) + 1 && getCount == old(getCount) + if ok then 1 else 0
      ensures addAttempts == old(addAttempts) && addCount == old(addCount)
    {
      getAttempts := getAttempts + 1;
      if count == 0 {
        return false, 0;
      }
      hide Linked, Values;
      val := Unlink();
      count := count - 1;
      getCount := getCount + 1;
      return true, val;
    }
  }

  /** Emptying a queue leaves `last` at a freed node, and the queue goes on from there. */
  method LastMayDangle() returns (q: Queue)
    ensures fresh(q) && q.Valid() && q.Contents() == [] && q.last in q.freed
  {
    q := new Queue(1);
    var ok := q.Add(0);
    var val;
    ok, val := q.Get();
  }
}
