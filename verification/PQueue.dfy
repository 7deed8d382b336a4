/** The priority queue in its array, against the functions of PQueueSpec.dfy. */
module PQueue {
  import opened PQueueSpec

  class PriorityQueue {
    var size: nat
    const capacity: nat
    const data: array<Elem>

    ghost predicate Valid()
      reads this
    {
      size <= capacity == data.Length
    }

    ghost function Contents(): (q: seq<Elem>)
      requires Valid()
      reads this, data
    {
      data[..size]
    }

    constructor (capacity: nat)
      ensures Valid() && fresh(data) && this.capacity == capacity && Contents() == []
    {
      this.capacity := capacity;
      size := 0;
      data := new Elem[capacity](_ => Elem(0, 0));
    }

    /** pqueue_enqueue. */
    method Enqueue(x: Elem)
      requires Valid()
      modifies this`size, data
      ensures Valid() && Contents() == PQueueSpec.Enqueue(old(Contents()), capacity, x)
    {
      if size >= capacity {
        return;
      }
      data[size] := x;
      var i: nat := size;
      size := size + 1;
      ghost var q := Contents();
      assert q == old(Contents()) + [x];
      while i > 0 && Cmp(data[i], data[Parent(i)]) > 0
        invariant Valid() && i < size == |q|
        invariant SiftUp(q, |q| - 1) == SiftUp(Contents(), i)
      {
        ghost var r := Contents();
        var tmp := data[i];
        data[i] := data[Parent(i)];
        data[Parent(i)] := tmp;
        assert Contents() == Swap(r, i, Parent(i));
        i := Parent(i);
      }
    }

    /** pqueue_dequeue: an empty queue has nothing to hand out. */
    method Dequeue() returns (found: bool, x: Elem)
      requires Valid()
      modifies this`size, data
      ensures Valid() && found == (old(size) > 0)
      ensures found ==> x == old(Contents()[0]) && Contents() == Rest(old(Contents()))
      ensures !found ==> Contents() == old(Contents())
    {
      if size < 1 {
        return false, Elem(0, 0);
      }
      ghost var q := Contents();
      found, x := true, data[0];
      data[0] := data[size - 1];
      size := size - 1;
      assert Contents() == q[0 := q[|q| - 1]][..|q| - 1];
      HeapifyInPlace(0);
    }

    /** pqueue_heapify; on an empty queue it does nothing. */
    method HeapifyInPlace(i: nat)
      requires Valid() && (i < size || i == size == 0)
      modifies data
      ensures Valid() && Contents() == if size == 0 then [] else PQueueSpec.Heapify(old(Contents()), i)
      decreases size - i
    {
      ghost var q := Contents();
      var l, r := Left(i), Right(i);
      var lrg := i;
      if l < size && Cmp(data[l], data[i]) > 0 {
        lrg := l;
      }
      if r < size && Cmp(data[r], data[lrg]) > 0 {
        lrg := r;
      }
      assert size > 0 ==> lrg == Largest(q, i);
      if lrg != i {
        var tmp := data[lrg];
        data[lrg] := data[i];
        data[i] := tmp;
        assert Contents() == Swap(q, lrg, i);
        HeapifyInPlace(lrg);
      }
    }
  }
}
