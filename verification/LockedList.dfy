/** The hand-over-hand locked list: any number of readers and swappers walk one chain of nodes, each holding the locks
    of a sliding window, and swappers rewire `next` pointers inside their windows.  One step is one access that other
    threads can see: reading the pointer to lock, acquiring it, releasing a lock, or the work done under the locks. */
module LockedList {
  import opened Wrappers

  type NodeId = nat

  /** Where a thread is.  `reader` tells the programs apart where they share code. */
  datatype Pc =
    | LockFirst(reader: bool)
    | ReadSecond(reader: bool)
    | LockSecond(reader: bool, target: NodeId)
    | ReaderLoop(rprev: Option<NodeId>, curr: NodeId, rnext: Option<NodeId>)
    | ReaderCompared(rprev: Option<NodeId>, curr: NodeId, next: NodeId)
    | ReaderAdvance(curr: NodeId, next: NodeId)
    | ReaderLock(curr: NodeId, next: NodeId, target: NodeId)
    | SwapperLoop(prev: NodeId, curr: NodeId)
    | SwapperLock(prev: NodeId, curr: NodeId, target: NodeId)
    | SwapperChoose(prev: NodeId, curr: NodeId, next: NodeId)
    | SwapperSwapped(prev: NodeId, curr: NodeId, next: NodeId)
    | SwapperKept(prev: NodeId, curr: NodeId, next: NodeId)
    | UnlockPrev(reader: bool, prev: NodeId, curr: NodeId)
    | UnlockCurr(reader: bool, curr: NodeId)

  /** A thread, with the history of its current pass: the nodes that have been `curr_node`, and the pairs compared. */
  datatype Thread = Thread(pc: Pc, visited: seq<NodeId>, compared: seq<(NodeId, NodeId)>)

  datatype State =
    State(first: NodeId, next: map<NodeId, Option<NodeId>>, owner: map<NodeId, nat>, threads: seq<Thread>)

  function Next(s: State, x: NodeId): Option<NodeId> {
    if x in s.next then s.next[x] else None
  }

  /** The nodes a thread has locked, in the order it expects them in the list. */
  function Window(pc: Pc, first: NodeId): seq<NodeId> {
    match pc
    case LockFirst(_) => []
    case ReadSecond(_) => [first]
    case LockSecond(_, _) => [first]
    case ReaderLoop(p, c, n) => (if p.Some? then [p.value] else []) + [c] + if n.Some? then [n.value] else []
    case ReaderCompared(p, c, n) => (if p.Some? then [p.value] else []) + [c] + [n]
    case ReaderAdvance(c, n) => [c, n]
    case ReaderLock(c, n, _) => [c, n]
    case SwapperLoop(p, c) => [p, c]
    case SwapperLock(p, c, _) => [p, c]
    case SwapperChoose(p, c, n) => [p, c, n]
    case SwapperSwapped(p, c, n) => [p, n, c]
    case SwapperKept(p, c, n) => [p, c, n]
    case UnlockPrev(_, p, c) => [p, c]
    case UnlockCurr(_, c) => [c]
  }

  /** The node a thread is waiting to lock. */
  function Target(pc: Pc, first: NodeId): Option<NodeId> {
    match pc
    case LockFirst(_) => Some(first)
    case LockSecond(_, t) => Some(t)
    case ReaderLock(_, _, t) => Some(t)
    case SwapperLock(_, _, t) => Some(t)
    case _ => None
  }

  /** A thread can step unless it waits for a lock that is taken. */
  predicate Enabled(s: State, t: nat) {
    t < |s.threads| && var target := Target(s.threads[t].pc, s.first); target.Some? ==> target.value !in s.owner
  }

  // ---------- list.c ----------

  /** list_swap_elements, for a node that is not NULL: a and b behind `node` change places. */
  function SwapElements(next: map<NodeId, Option<NodeId>>, node: NodeId, a: NodeId, b: NodeId):
    map<NodeId, Option<NodeId>>
  {
    next[a := if b in next then next[b] else None][b := Some(a)][node := Some(b)]
  }

  /** list_compare_values: the two nodes whose values it compares. */
  function ComparedNodes(s: State, node: Option<NodeId>): (Option<NodeId>, Option<NodeId>) {
    var a := if node.None? then Some(s.first) else Next(s, node.value);
    (a, if a.Some? then Next(s, a.value) else None)
  }

  // ---------- One step of one thread ----------

  function Put(s: State, t: nat, pc: Pc): State
    requires t < |s.threads|
  {
    s.(threads := s.threads[t := s.threads[t].(pc := pc)])
  }

  function Acquire(s: State, t: nat, x: NodeId): State {
    s.(owner := s.owner[x := t])
  }

  function Release(s: State, x: NodeId): State {
    s.(owner := s.owner - {x})
  }

  /** `curr` becomes the current node of a reader. */
  function Visit(s: State, t: nat, curr: NodeId): State
    requires t < |s.threads|
  {
    s.(threads := s.threads[t := s.threads[t].(visited := s.threads[t].visited + [curr])])
  }

  function StepStart(s: State, t: nat): State
    requires Enabled(s, t)
  {
    match s.threads[t].pc
    case LockFirst(reader) => Acquire(s, t, s.first).(threads := s.threads[t := Thread(ReadSecond(reader), [], [])])
    case ReadSecond(reader) =>
      var second := Next(s, s.first);
      if second.Some? then Put(s, t, LockSecond(reader, second.value)) else s
    case LockSecond(reader, target) =>
      if reader then Put(Visit(Acquire(s, t, target), t, s.first), t, ReaderLoop(None, s.first, Some(target)))
      else Put(Acquire(s, t, target), t, SwapperLoop(s.first, target))
    case _ => s
  }

  function StepReader(s: State, t: nat): State
    requires Enabled(s, t)
  {
    match s.threads[t].pc
    case ReaderLoop(prev, curr, next) =>
      if next.None? then Put(s, t, if prev.Some? then UnlockPrev(true, prev.value, curr) else UnlockCurr(true, curr))
      else
        var pair := ComparedNodes(s, prev);
        var th := s.threads[t];
        var compared :=
          if pair.0.Some? && pair.1.Some? then th.compared + [(pair.0.value, pair.1.value)] else th.compared;
        s.(threads := s.threads[t := th.(pc := ReaderCompared(prev, curr, next.value), compared := compared)])
    case ReaderCompared(prev, curr, next) =>
      Put(if prev.Some? then Release(s, prev.value) else s, t, ReaderAdvance(curr, next))
    case ReaderAdvance(curr, next) =>
      var ahead := Next(s, next);
      if ahead.Some? then Put(s, t, ReaderLock(curr, next, ahead.value))
      else Put(Visit(s, t, next), t, ReaderLoop(Some(curr), next, None))
    case ReaderLock(curr, next, target) =>
      Put(Visit(Acquire(s, t, target), t, next), t, ReaderLoop(Some(curr), next, Next(s, next)))
    case _ => s
  }

  /** `coin` is `rand() % 4 == 0`. */
  function StepSwapper(s: State, t: nat, coin: bool): State
    requires Enabled(s, t)
  {
    match s.threads[t].pc
    case SwapperLoop(prev, curr) =>
      var ahead := Next(s, curr);
      Put(s, t, if ahead.Some? then SwapperLock(prev, curr, ahead.value) else UnlockPrev(false, prev, curr))
    case SwapperLock(prev, curr, target) =>
      var next := Next(s, curr);
      Put(Acquire(s, t, target), t,
          if next.Some? then SwapperChoose(prev, curr, next.value) else SwapperLoop(prev, curr))
    case SwapperChoose(prev, curr, next) =>
      var a := Next(s, prev);
      var b := if a.Some? then Next(s, a.value) else None;
      if coin && b.Some?
      then Put(s.(next := SwapElements(s.next, prev, a.value, b.value)), t, SwapperSwapped(prev, curr, next))
      else Put(s, t, SwapperKept(prev, curr, next))
    case SwapperSwapped(prev, curr, next) => Put(Release(s, prev), t, SwapperLoop(next, curr))
    case SwapperKept(prev, curr, next) => Put(Release(s, prev), t, SwapperLoop(curr, next))
    case _ => s
  }

  function StepEnd(s: State, t: nat): State
    requires Enabled(s, t)
  {
    match s.threads[t].pc
    case UnlockPrev(reader, prev, curr) => Put(Release(s, prev), t, UnlockCurr(reader, curr))
    case UnlockCurr(reader, curr) => Put(Release(s, curr), t, LockFirst(reader))
    case _ => s
  }

  function Step(s: State, t: nat, coin: bool): State
    requires Enabled(s, t)
  {
    match s.threads[t].pc
    case LockFirst(_) => StepStart(s, t)
    case ReadSecond(_) => StepStart(s, t)
    case LockSecond(_, _) => StepStart(s, t)
    case UnlockPrev(_, _, _) => StepEnd(s, t)
    case UnlockCurr(_, _) => StepEnd(s, t)
    case ReaderLoop(_, _, _) => StepReader(s, t)
    case ReaderCompared(_, _, _) => StepReader(s, t)
    case ReaderAdvance(_, _) => StepReader(s, t)
    case ReaderLock(_, _, _) => StepReader(s, t)
    case _ => StepSwapper(s, t, coin)
  }

  // ---------- The invariant ----------

  ghost predicate Distinct(c: seq<NodeId>) {
    forall i, j :: 0 <= i < j < |c| ==> c[i] != c[j]
  }

  /** The node at `i` points to the one behind it. */
  ghost predicate Links(next: map<NodeId, Option<NodeId>>, c: seq<NodeId>, i: nat)
    requires i < |c|
  {
    c[i] in next && next[c[i]] == if i + 1 < |c| then Some(c[i + 1]) else None
  }

  /** `c` is the list from `first`, over exactly the nodes there are; without a first node it is empty. */
  ghost predicate Linked(first: Option<NodeId>, next: map<NodeId, Option<NodeId>>, c: seq<NodeId>) {
    && first == (if |c| > 0 then Some(c[0]) else None) && Distinct(c)
    && (forall i :: 0 <= i < |c| ==> Links(next, c, i))
    && (forall x :: x in next ==> x in c)
  }

  /** The thread's window lies in the list at `lo`. */
  ghost predicate InPlace(w: seq<NodeId>, c: seq<NodeId>, lo: nat) {
    lo + |w| <= |c| && c[lo..lo + |w|] == w && (w == [] ==> lo == 0)
  }

  /** What the thread knows of the list around a window of `n` nodes at `lo`: the node it waits for is the one behind
      the window, and it takes the window for the first or the last of the list only when it is. */
  ghost predicate Knows(pc: Pc, c: seq<NodeId>, lo: nat, n: nat)
    requires |c| > 0
  {
    && (Target(pc, c[0]).Some? ==> lo + n < |c| && Target(pc, c[0]).value == c[lo + n])
    && (pc.LockFirst? || pc.ReadSecond? || pc.LockSecond? ==> lo == 0)
    && (pc.ReaderLoop? && pc.rprev.None? ==> lo == 0 && pc.rnext.Some?)
    && (pc.ReaderCompared? && pc.rprev.None? ==> lo == 0)
    && (pc.ReaderLoop? && pc.rnext.None? ==> lo + n == |c|)
    && (pc.UnlockPrev? || pc.UnlockCurr? ==> lo + n == |c|)
  }

  ghost predicate Placed(pc: Pc, c: seq<NodeId>, lo: nat)
    requires |c| > 0
  {
    var w := Window(pc, c[0]);
    InPlace(w, c, lo) && Knows(pc, c, lo, |w|)
  }

  /** How many nodes a reader has had as its current node, given where its window is. */
  ghost function Reached(pc: Pc, lo: nat): nat {
    match pc
    case ReaderLoop(p, _, _) => if p.Some? then lo + 2 else lo + 1
    case ReaderCompared(p, _, _) => if p.Some? then lo + 2 else lo + 1
    case ReaderAdvance(_, _) => lo + 1
    case ReaderLock(_, _, _) => lo + 1
    case UnlockPrev(_, _, _) => lo + 2
    case UnlockCurr(_, _) => lo + 1
    case _ => 0
  }

  ghost predicate IsReading(pc: Pc) {
    (pc.ReadSecond? && pc.reader) || (pc.LockSecond? && pc.reader)
    || pc.ReaderLoop? || pc.ReaderCompared? || pc.ReaderAdvance? || pc.ReaderLock?
    || (pc.UnlockPrev? && pc.reader) || (pc.UnlockCurr? && pc.reader)
  }

  /** A reader has visited each node up to its current one once, and compared it with the next unless that is still to
      do. */
  ghost predicate Accounted(th: Thread, c: seq<NodeId>, lo: nat) {
    IsReading(th.pc) ==>
      var k := Reached(th.pc, lo);
      && k <= |c| && |th.visited| == k && multiset(th.visited) == multiset(c[..k])
      && |th.compared| == if th.pc.ReaderLoop? || th.pc.UnlockPrev? || th.pc.UnlockCurr? then k - 1 else k
  }

  ghost predicate Owns(s: State, t: nat, x: NodeId) {
    x in s.owner && s.owner[x] == t
  }

  /** `c` is the list and `lo` the places of the windows in it; the locks held are exactly the windows. */
  ghost predicate Inv(s: State, c: seq<NodeId>, lo: seq<nat>) {
    && Linked(Some(s.first), s.next, c) && |c| >= 2
    && |lo| == |s.threads|
    && (forall t :: 0 <= t < |s.threads| ==> Placed(s.threads[t].pc, c, lo[t]) && Accounted(s.threads[t], c, lo[t]))
    && (forall t: nat, x :: t < |s.threads| ==> (Owns(s, t, x) <==> x in Window(s.threads[t].pc, s.first)))
    && (forall x :: x in s.owner ==> s.owner[x] < |s.threads|)
  }
}
