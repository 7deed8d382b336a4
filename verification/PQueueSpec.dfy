/** The priority queue on values, with the index macros as written: children of i are 2i+1 and 2i+2, but its parent,
    when sifting up, is i/2.  What holds in spite of the mismatch, and exactly for which capacities the queue is
    right. */
module PQueueSpec {

  /** A queued page and its priority; the comparison function is the difference of priorities. */
  datatype Elem = Elem(priority: int, page: nat)

  function Cmp(a: Elem, b: Elem): int {
    a.priority - b.priority
  }

  function Left(i: nat): nat { 2 * i + 1 }
  function Right(i: nat): nat { 2 * i + 2 }

  function Parent(i: nat): (p: nat)
    ensures 2 * p <= i <= 2 * p + 1
  {
    i / 2
  }

  function Swap(q: seq<Elem>, i: nat, j: nat): (r: seq<Elem>)
    requires i < |q| && j < |q|
    ensures |r| == |q|
  {
    q[i := q[j]][j := q[i]]
  }

  /** The loop of pqueue_enqueue. */
  function SiftUp(q: seq<Elem>, i: nat): (r: seq<Elem>)
    requires i < |q|
    ensures |r| == |q|
    decreases i
  {
    if i > 0 && Cmp(q[i], q[Parent(i)]) > 0 then SiftUp(Swap(q, i, Parent(i)), Parent(i)) else q
  }

  /** The child or the node itself that pqueue_heapify finds largest. */
  function Largest(q: seq<Elem>, i: nat): (r: nat)
    requires i < |q|
    ensures r < |q| && (r == i || r == Left(i) || r == Right(i))
  {
    var l, r := Left(i), Right(i);
    var lrg := if l < |q| && Cmp(q[l], q[i]) > 0 then l else i;
    if r < |q| && Cmp(q[r], q[lrg]) > 0 then r else lrg
  }

  /** pqueue_heapify. */
  function Heapify(q: seq<Elem>, i: nat): (r: seq<Elem>)
    requires i < |q|
    ensures |r| == |q|
    decreases |q| - i
  {
    var lrg := Largest(q, i);
    if lrg != i then Heapify(Swap(q, lrg, i), lrg) else q
  }

  /** pqueue_enqueue: a full queue is left as it is. */
  function Enqueue(q: seq<Elem>, capacity: nat, x: Elem): seq<Elem> {
    if |q| >= capacity then q else SiftUp(q + [x], |q|)
  }

  /** The queue behind pqueue_dequeue, which hands out slot 0. */
  function Rest(q: seq<Elem>): (r: seq<Elem>)
    requires |q| > 0
    ensures |r| == |q| - 1
  {
    var moved := q[0 := q[|q| - 1]][..|q| - 1];
    if |moved| == 0 then [] else Heapify(moved, 0)
  }

  // ---------- Contents ----------

  lemma SwapContents(q: seq<Elem>, i: nat, j: nat)
    requires i < |q| && j < |q|
    ensures multiset(Swap(q, i, j)) == multiset(q)
  {
  }

  lemma {:induction false} SiftUpContents(q: seq<Elem>, i: nat)
    requires i < |q|
    ensures multiset(SiftUp(q, i)) == multiset(q)
    decreases i
  {
    if i > 0 && Cmp(q[i], q[Parent(i)]) > 0 {
      SwapContents(q, i, Parent(i));
      SiftUpContents(Swap(q, i, Parent(i)), Parent(i));
    }
  }

  lemma {:induction false} HeapifyContents(q: seq<Elem>, i: nat)
    requires i < |q|
    ensures multiset(Heapify(q, i)) == multiset(q)
    decreases |q| - i
  {
    var lrg := Largest(q, i);
    if lrg != i {
      SwapContents(q, lrg, i);
      HeapifyContents(Swap(q, lrg, i), lrg);
    }
  }

  /** A queue that is not full gains exactly the new element. */
  lemma EnqueueContents(q: seq<Elem>, capacity: nat, x: Elem)
    ensures multiset(Enqueue(q, capacity, x)) == if |q| < capacity then multiset(q) + multiset{x} else multiset(q)
  {
    if |q| < capacity {
      SiftUpContents(q + [x], |q|);
    }
  }

  /** Dequeuing takes out exactly the element it hands out. */
  lemma RestContents(q: seq<Elem>)
    requires |q| > 0
    ensures multiset(Rest(q)) == multiset(q) - multiset{q[0]}
  {
    var n := |q|;
    var moved := q[0 := q[n - 1]][..n - 1];
    assert q == [q[0]] + q[1..];
    if n > 1 {
      HeapifyContents(moved, 0);
      assert moved == [q[n - 1]] + q[1..n - 1];
      assert q[1..] == q[1..n - 1] + [q[n - 1]];
    }
  }

  // ---------- The two orders ----------

  /** No element above the one at i/2: the order that enqueueing maintains. */
  ghost predicate HalvingOrder(q: seq<Elem>) {
    forall i :: 0 < i < |q| ==> q[i].priority <= q[Parent(i)].priority
  }

  ghost predicate HalvingOrderBut(q: seq<Elem>, k: nat) {
    && (forall i :: 0 < i < |q| && i != k ==> q[i].priority <= q[Parent(i)].priority)
    && (forall i :: 0 < i < |q| && Parent(i) == k && i != k && k > 0 ==> q[i].priority <= q[Parent(k)].priority)
  }

  lemma SwapOrders(q: seq<Elem>, i: nat)
    requires 0 < i < |q| && HalvingOrderBut(q, i) && Cmp(q[i], q[Parent(i)]) > 0
    ensures HalvingOrderBut(Swap(q, i, Parent(i)), Parent(i))
  {
  }

  lemma {:induction false} SiftUpOrders(q: seq<Elem>, i: nat)
    requires i < |q| && HalvingOrderBut(q, i)
    ensures HalvingOrder(SiftUp(q, i))
    decreases i
  {
    if i > 0 && Cmp(q[i], q[Parent(i)]) > 0 {
      SwapOrders(q, i);
      hide HalvingOrder, HalvingOrderBut, Swap, Cmp;
      SiftUpOrders(Swap(q, i, Parent(i)), Parent(i));
    }
  }

  /** Enqueueing keeps every element below the one at half its index. */
  lemma EnqueueKeepsHalvingOrder(q: seq<Elem>, capacity: nat, x: Elem)
    requires HalvingOrder(q)
    ensures HalvingOrder(Enqueue(q, capacity, x))
  {
    if |q| < capacity {
      var r := q + [x];
      assert forall i :: 0 < i < |q| ==> r[i] == q[i] && r[Parent(i)] == q[Parent(i)];
      SiftUpOrders(r, |q|);
    }
  }

  /** No element above its heap parent, for the children of the nodes from `k` on. */
  ghost predicate Below(q: seq<Elem>, i: nat)
    requires i < |q|
  {
    && (Left(i) < |q| ==> q[Left(i)].priority <= q[i].priority)
    && (Right(i) < |q| ==> q[Right(i)].priority <= q[i].priority)
  }

  /** The heap order of 2i+1 and 2i+2. */
  ghost predicate HeapOrder(q: seq<Elem>) {
    forall i :: 0 <= i < |q| ==> Below(q, i)
  }

  function HeapParent(i: nat): (p: nat)
    requires i > 0
    ensures i == Left(p) || i == Right(p)
  {
    (i - 1) / 2
  }

  /** Heap order except that `k` may be too small for its children, which still fit below its parent. */
  ghost predicate HeapOrderBut(q: seq<Elem>, k: nat) {
    && (forall i :: 0 <= i < |q| && i != k ==> Below(q, i))
    && (k > 0 && k < |q| ==>
          forall j :: j < |q| && (j == Left(k) || j == Right(k)) ==> q[j].priority <= q[HeapParent(k)].priority)
  }

  /** pqueue_heapify repairs a heap with one element out of place. */
  lemma {:induction false} HeapifyRestores(q: seq<Elem>, i: nat)
    requires i < |q| && HeapOrderBut(q, i)
    ensures HeapOrder(Heapify(q, i))
    decreases |q| - i
  {
    var lrg := Largest(q, i);
    if lrg != i {
      var r := Swap(q, lrg, i);
      forall j | 0 <= j < |r| && j != lrg ensures Below(r, j) {
        assert j != i ==> Below(q, j);
      }
      assert Below(q, lrg);
      HeapifyRestores(r, lrg);
    } else {
      assert Below(q, i);
    }
  }

  /** From a heap, dequeuing leaves a heap. */
  lemma RestKeepsHeapOrder(q: seq<Elem>)
    requires |q| > 0 && HeapOrder(q)
    ensures HeapOrder(Rest(q))
  {
    var n := |q|;
    var moved := q[0 := q[n - 1]][..n - 1];
    if n > 1 {
      forall i | 0 < i < n - 1 ensures Below(moved, i) {
        assert Below(q, i);
      }
      HeapifyRestores(moved, 0);
    }
  }

  // ---------- Maxima ----------

  /** What pqueue_dequeue would hand out has the biggest priority in the queue. */
  ghost predicate TopIsMax(q: seq<Elem>) {
    forall j :: 0 <= j < |q| ==> q[j].priority <= q[0].priority
  }

  lemma {:induction false} SiftUpKeepsTop(q: seq<Elem>, i: nat)
    requires i < |q| && forall j :: 0 <= j < |q| && j != i ==> q[j].priority <= q[0].priority
    ensures TopIsMax(SiftUp(q, i))
    decreases i
  {
    if i > 0 && Cmp(q[i], q[Parent(i)]) > 0 {
      var r := Swap(q, i, Parent(i));
      forall j | 0 <= j < |r| && j != Parent(i) ensures r[j].priority <= r[0].priority {
        assert j != i ==> r[j] == q[j];
      }
      SiftUpKeepsTop(r, Parent(i));
    }
  }

  /** Enqueueing keeps slot 0 a maximum, whatever the order of the rest. */
  lemma EnqueueKeepsTop(q: seq<Elem>, capacity: nat, x: Elem)
    requires TopIsMax(q)
    ensures TopIsMax(Enqueue(q, capacity, x))
  {
    if |q| < capacity {
      var r := q + [x];
      assert forall j :: 0 <= j < |q| ==> r[j] == q[j];
      SiftUpKeepsTop(r, |q|);
    }
  }

  lemma {:induction false} HeapifyLeavesBefore(q: seq<Elem>, i: nat, j: nat)
    requires j < i < |q|
    ensures Heapify(q, i)[j] == q[j]
    decreases |q| - i
  {
    var lrg := Largest(q, i);
    if lrg != i {
      HeapifyLeavesBefore(Swap(q, lrg, i), lrg, j);
    }
  }

  /** A maximum of the queue behind slot 0 stands at `j`. */
  ghost predicate SecondAt(q: seq<Elem>, j: nat) {
    0 < j < |q| && forall k :: 0 < k < |q| ==> q[k].priority <= q[j].priority
  }

  /** After a dequeue slot 0 is a maximum again exactly when a maximum of the rest was in slot 1, in slot 2 or in the
      last slot: no other element can get to the top. */
  lemma DequeueKeepsTopIff(q: seq<Elem>)
    requires |q| > 1
    ensures TopIsMax(Rest(q)) <==> SecondAt(q, 1) || SecondAt(q, 2) || SecondAt(q, |q| - 1)
  {
    var n := |q|;
    var moved := q[0 := q[n - 1]][..n - 1];
    var lrg, r := Largest(moved, 0), Rest(q);
    if lrg != 0 {
      HeapifyLeavesBefore(Swap(moved, lrg, 0), lrg, 0);
    }
    assert r[0] == moved[lrg];
    HeapifyContents(moved, 0);
    LargestOfThree(q, moved);
    hide Largest, Heapify, Rest;
    TopIsSource(q, moved, r, if lrg == 0 then n - 1 else lrg);
  }

  /** `r` has the elements behind slot 0 of `q`, and its first is from slot `src`. */
  lemma TopIsSource(q: seq<Elem>, moved: seq<Elem>, r: seq<Elem>, src: nat)
    requires |q| > 1 && moved == q[0 := q[|q| - 1]][..|q| - 1] && multiset(r) == multiset(moved)
    requires 0 < src < |q| && |r| > 0 && q[src] == r[0]
    ensures SecondAt(q, src) <==> TopIsMax(r)
  {
    var n := |q|;
    if TopIsMax(r) {
      forall k | 0 < k < n ensures q[k].priority <= q[src].priority {
        assert q[k] == moved[if k == n - 1 then 0 else k];
        assert q[k] in multiset(moved);
        assert q[k] in multiset(r);
        var m :| 0 <= m < |r| && r[m] == q[k];
      }
    }
    if SecondAt(q, src) {
      forall m | 0 <= m < |r| ensures r[m].priority <= r[0].priority {
        assert r[m] in multiset(r);
        assert r[m] in multiset(moved);
        var k :| 0 <= k < |moved| && moved[k] == r[m];
        assert moved[k] == q[if k == 0 then n - 1 else k];
      }
    }
  }

  lemma LargestOfThree(q: seq<Elem>, moved: seq<Elem>)
    requires |q| > 1 && moved == q[0 := q[|q| - 1]][..|q| - 1]
    ensures var lrg := Largest(moved, 0); var src := if lrg == 0 then |q| - 1 else lrg;
      && (src == 1 || src == 2 || src == |q| - 1)
      && q[1].priority <= q[src].priority && q[|q| - 1].priority <= q[src].priority
      && (|q| > 2 ==> q[2].priority <= q[src].priority)
  {
  }

  // ---------- Runs ----------

  datatype Op = Put(elem: Elem) | Take

  /** The queue after a run of operations, from an empty queue; taking from an empty queue does nothing. */
  function After(capacity: nat, ops: seq<Op>): (q: seq<Elem>)
    ensures |q| <= capacity
  {
    if |ops| == 0 then []
    else
      var q := After(capacity, ops[..|ops| - 1]);
      match ops[|ops| - 1]
      case Put(x) => Enqueue(q, capacity, x)
      case Take => if |q| > 0 then Rest(q) else q
  }

  /** Elements come out in the order of their priorities: each dequeue of each run hands out a maximum. */
  ghost predicate AlwaysRight(capacity: nat) {
    forall ops :: TopIsMax(After(capacity, ops))
  }

  /** The first dequeue after any enqueues hands out a maximum, for every capacity. */
  lemma {:induction false} FirstDequeueIsRight(capacity: nat, ops: seq<Op>)
    requires forall k :: 0 <= k < |ops| ==> ops[k].Put?
    ensures TopIsMax(After(capacity, ops)) && HalvingOrder(After(capacity, ops))
  {
    if |ops| > 0 {
      var front, x := ops[..|ops| - 1], ops[|ops| - 1].elem;
      FirstDequeueIsRight(capacity, front);
      EnqueueKeepsTop(After(capacity, front), capacity, x);
      EnqueueKeepsHalvingOrder(After(capacity, front), capacity, x);
    }
  }

  /** What keeps a queue of up to five elements right. */
  ghost predicate Small(q: seq<Elem>) {
    |q| <= 5 && TopIsMax(q) && (|q| >= 4 ==> q[3].priority <= q[1].priority)
  }

  lemma PutKeepsSmall(q: seq<Elem>, x: Elem)
    requires Small(q) && |q| < 5
    ensures Small(SiftUp(q + [x], |q|))
  {
    var r := q + [x];
    assert forall j :: 0 <= j < |q| ==> r[j] == q[j];
    SiftUpKeepsTop(r, |q|);
    if |q| == 3 {
      assert Parent(3) == 1 && Parent(1) == 0;
    } else if |q| == 4 {
      assert r[3].priority <= r[1].priority && r[3].priority <= r[0].priority;
      hide SiftUp, TopIsMax;
      FifthStaysBelow(r);
    }
  }

  /** A fifth element is sifted up without coming above the second from below. */
  lemma FifthStaysBelow(r: seq<Elem>)
    requires |r| == 5 && r[3].priority <= r[1].priority && r[3].priority <= r[0].priority
    ensures var t := SiftUp(r, 4); t[3].priority <= t[1].priority
  {
    assert Parent(4) == 2 && Parent(2) == 1 && Parent(1) == 0;
    if Cmp(r[4], r[2]) > 0 {
      var r2 := Swap(r, 4, 2);
      assert SiftUp(r, 4) == SiftUp(r2, 2);
      if Cmp(r2[2], r2[1]) > 0 {
        var r3 := Swap(r2, 2, 1);
        assert SiftUp(r2, 2) == SiftUp(r3, 1);
      }
    }
  }

  lemma TakeKeepsSmall(q: seq<Elem>)
    requires Small(q) && |q| > 0
    ensures Small(Rest(q))
  {
    if |q| > 1 {
      SmallHasSecond(q);
      DequeueKeepsTopIff(q);
    }
    if |q| == 5 {
      var moved := q[0 := q[4]][..4];
      assert moved == [q[4], q[1], q[2], q[3]];
      var lrg := Largest(moved, 0);
      if lrg != 0 {
        var r := Swap(moved, lrg, 0);
        assert Heapify(moved, 0) == Heapify(r, lrg);
        if Largest(r, lrg) != lrg {
          assert lrg == 1 && Largest(r, 1) == 3;
          var r2 := Swap(r, 3, 1);
          assert Heapify(r, 1) == Heapify(r2, 3) == r2;
        }
      }
    }
  }

  lemma SmallHasSecond(q: seq<Elem>)
    requires Small(q) && |q| > 1
    ensures SecondAt(q, 1) || SecondAt(q, 2) || SecondAt(q, |q| - 1)
  {
    var a := if |q| > 2 && Cmp(q[2], q[1]) > 0 then 2 else 1;
    var b := if Cmp(q[|q| - 1], q[a]) > 0 then |q| - 1 else a;
    assert SecondAt(q, b);
  }

  lemma {:induction false} SmallRuns(capacity: nat, ops: seq<Op>)
    requires capacity <= 5
    ensures Small(After(capacity, ops))
  {
    if |ops| > 0 {
      var q := After(capacity, ops[..|ops| - 1]);
      SmallRuns(capacity, ops[..|ops| - 1]);
      match ops[|ops| - 1] {
        case Put(x) =>
          if |q| < capacity {
            PutKeepsSmall(q, x);
          }
        case Take =>
          if |q| > 0 {
            TakeKeepsSmall(q);
          }
      }
    }
  }

  function E(priority: int): Elem {
    Elem(priority, 0)
  }

  /** Eleven operations on at most six elements after which slot 0 holds 3 while 4 is still queued. */
  const MIXED_RUN: seq<Op> :=
    [Put(E(7)), Put(E(6)), Put(E(5)), Put(E(3)), Put(E(2)), Take, Put(E(4)), Put(E(1)), Take, Put(E(0)), Take]

  /** An element that is not above its parent stays where it was put. */
  lemma PutAtEnd(capacity: nat, n: nat, q: seq<Elem>)
    requires n < |MIXED_RUN| && MIXED_RUN[n].Put? && |q| < capacity
    requires After(capacity, MIXED_RUN[..n]) == q
    requires |q| > 0 ==> MIXED_RUN[n].elem.priority <= q[Parent(|q|)].priority
    ensures After(capacity, MIXED_RUN[..n + 1]) == q + [MIXED_RUN[n].elem]
  {
    assert MIXED_RUN[..n + 1][..n] == MIXED_RUN[..n];
    if |q| > 0 {
      assert Parent(|q|) < |q|;
    }
  }

  lemma TakeTop(capacity: nat, n: nat, q: seq<Elem>)
    requires n < |MIXED_RUN| && MIXED_RUN[n].Take? && |q| > 0
    requires After(capacity, MIXED_RUN[..n]) == q
    ensures After(capacity, MIXED_RUN[..n + 1]) == Rest(q)
  {
    assert MIXED_RUN[..n + 1][..n] == MIXED_RUN[..n];
  }

  lemma FirstTake()
    ensures Rest([E(7), E(6), E(5), E(3), E(2)]) == [E(6), E(3), E(5), E(2)]
  {
    var moved := [E(2), E(6), E(5), E(3)];
    assert [E(7), E(6), E(5), E(3), E(2)][0 := E(2)][..4] == moved;
    var r := [E(6), E(2), E(5), E(3)];
    assert Largest(moved, 0) == 1 && Swap(moved, 1, 0) == r;
    var r2 := [E(6), E(3), E(5), E(2)];
    assert Largest(r, 1) == 3 && Swap(r, 3, 1) == r2;
    assert Largest(r2, 3) == 3;
    assert Heapify(r, 1) == Heapify(r2, 3);
  }

  lemma SecondTake()
    ensures Rest([E(6), E(3), E(5), E(2), E(4), E(1)]) == [E(5), E(3), E(1), E(2), E(4)]
  {
    var moved := [E(1), E(3), E(5), E(2), E(4)];
    assert [E(6), E(3), E(5), E(2), E(4), E(1)][0 := E(1)][..5] == moved;
    var r := [E(5), E(3), E(1), E(2), E(4)];
    assert Largest(moved, 0) == 2 && Swap(moved, 2, 0) == r;
    assert Largest(r, 2) == 2;
  }

  lemma ThirdTake()
    ensures Rest([E(5), E(3), E(1), E(2), E(4), E(0)]) == [E(3), E(4), E(1), E(2), E(0)]
  {
    var moved := [E(0), E(3), E(1), E(2), E(4)];
    assert [E(5), E(3), E(1), E(2), E(4), E(0)][0 := E(0)][..5] == moved;
    var r := [E(3), E(0), E(1), E(2), E(4)];
    assert Largest(moved, 0) == 1 && Swap(moved, 1, 0) == r;
    var r2 := [E(3), E(4), E(1), E(2), E(0)];
    assert Largest(r, 1) == 4 && Swap(r, 4, 1) == r2;
    assert Largest(r2, 4) == 4;
    assert Heapify(r, 1) == Heapify(r2, 4);
  }

  /** The sixth slot is one too many. */
  lemma MixedRunGoesWrong(capacity: nat)
    requires capacity >= 6
    ensures !TopIsMax(After(capacity, MIXED_RUN))
  {
    hide After, Rest, Swap;
    assert MIXED_RUN[..0] == [];
    AfterNothing(capacity);
    PutAtEnd(capacity, 0, []);
    PutAtEnd(capacity, 1, [E(7)]);
    PutAtEnd(capacity, 2, [E(7), E(6)]);
    PutAtEnd(capacity, 3, [E(7), E(6), E(5)]);
    PutAtEnd(capacity, 4, [E(7), E(6), E(5), E(3)]);
    TakeTop(capacity, 5, [E(7), E(6), E(5), E(3), E(2)]);
    FirstTake();
    PutAtEnd(capacity, 6, [E(6), E(3), E(5), E(2)]);
    PutAtEnd(capacity, 7, [E(6), E(3), E(5), E(2), E(4)]);
    TakeTop(capacity, 8, [E(6), E(3), E(5), E(2), E(4), E(1)]);
    SecondTake();
    PutAtEnd(capacity, 9, [E(5), E(3), E(1), E(2), E(4)]);
    TakeTop(capacity, 10, [E(5), E(3), E(1), E(2), E(4), E(0)]);
    ThirdTake();
    assert MIXED_RUN[..11] == MIXED_RUN;
    var q := After(capacity, MIXED_RUN);
    assert Cmp(q[1], q[0]) > 0;
  }

  lemma AfterNothing(capacity: nat)
    ensures After(capacity, []) == []
  {
  }

  /** The queue hands out a maximum at every dequeue of every run exactly when its capacity is at most five.
      The proxy's cache has thirty. */
  lemma RightExactlyUpToFive(capacity: nat)
    ensures AlwaysRight(capacity) <==> capacity <= 5
  {
    if capacity <= 5 {
      forall ops ensures TopIsMax(After(capacity, ops)) {
        SmallRuns(capacity, ops);
      }
    } else {
      MixedRunGoesWrong(capacity);
    }
  }
}
