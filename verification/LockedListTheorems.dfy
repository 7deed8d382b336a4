/** What holds in every reachable state of the hand-over-hand locked list. */
module LockedListTheorems {
  import opened Wrappers
  import opened LockedList
  import opened LockedListProof

  // ---------- Building the list ----------

  /** list_add at position 0, also of an empty list. */
  function ListAdd(first: Option<NodeId>, next: map<NodeId, Option<NodeId>>, x: NodeId):
    (Option<NodeId>, map<NodeId, Option<NodeId>>)
  {
    (Some(x), next[x := first])
  }

  lemma ListAddLinks(first: Option<NodeId>, next: map<NodeId, Option<NodeId>>, c: seq<NodeId>, x: NodeId)
    requires Linked(first, next, c) && x !in next
    ensures var (first', next') := ListAdd(first, next, x); Linked(first', next', [x] + c)
  {
    var d, next' := [x] + c, next[x := first];
    assert forall i :: 0 <= i < |c| ==> Links(next, c, i);
    forall i | 0 <= i < |d| ensures Links(next', d, i) {
      if i > 0 {
        assert Links(next, c, i - 1);
      }
    }
    forall i, j | 0 <= i < j < |d| ensures d[i] != d[j] {
      if i == 0 {
        assert Links(next, c, j - 1);
      }
    }
  }

  /** main's loop: the nodes `xs`, added one after the other to the list that list_init leaves empty. */
  function BuildList(xs: seq<NodeId>): (Option<NodeId>, map<NodeId, Option<NodeId>>) {
    if |xs| == 0 then (None, map[])
    else
      var (first, next) := BuildList(xs[..|xs| - 1]);
      ListAdd(first, next, xs[|xs| - 1])
  }

  function Backwards(xs: seq<NodeId>): (c: seq<NodeId>)
    ensures |c| == |xs| && forall i :: 0 <= i < |c| ==> c[i] == xs[|xs| - 1 - i]
  {
    seq(|xs|, i requires 0 <= i < |xs| => xs[|xs| - 1 - i])
  }

  /** main's list is a chain of the nodes it has allocated, the last one first. */
  lemma {:induction false} MainBuildsList(xs: seq<NodeId>)
    requires Distinct(xs)
    ensures var (first, next) := BuildList(xs); Linked(first, next, Backwards(xs))
  {
    if |xs| > 0 {
      var front, x := xs[..|xs| - 1], xs[|xs| - 1];
      MainBuildsList(front);
      var (first, next) := BuildList(front);
      assert x !in Backwards(front);
      assert Backwards(xs) == [x] + Backwards(front);
      ListAddLinks(first, next, Backwards(front), x);
    }
  }

  // ---------- Runs ----------

  /** A scheduling choice: which thread steps, and what its `rand() % 4 == 0` would be. */
  datatype Choice = Choice(thread: nat, coin: bool)

  /** The state after a run, if each chosen thread can step when it is chosen. */
  function Run(s: State, choices: seq<Choice>): Option<State> {
    if |choices| == 0 then Some(s)
    else
      var before := Run(s, choices[..|choices| - 1]);
      var c := choices[|choices| - 1];
      if before.Some? && Enabled(before.value, c.thread) then Some(Step(before.value, c.thread, c.coin)) else None
  }

  /** All threads at the start of their first pass over the list `c`, no lock taken. */
  ghost predicate Initial(s: State, c: seq<NodeId>) {
    && Linked(Some(s.first), s.next, c) && |c| >= 2
    && s.owner == map[]
    && forall t :: 0 <= t < |s.threads| ==> s.threads[t].pc.LockFirst?
  }

  ghost predicate Reachable(s0: State, s: State) {
    exists choices :: Run(s0, choices) == Some(s)
  }

  /** One step of any thread keeps the invariant; the list stays the same or has two inner neighbours exchanged. */
  lemma StepKeeps(s: State, t: nat, coin: bool, c: seq<NodeId>, lo: seq<nat>)
    requires Inv(s, c, lo) && Enabled(s, t)
    ensures Inv(Step(s, t, coin), NextChain(s, t, coin, c, lo), NextPlaces(s, t, lo))
    ensures multiset(NextChain(s, t, coin, c, lo)) == multiset(c)
  {
    assert |lo| == |s.threads|;
    hide Inv, Enabled, Step;
    if Swaps(s, t, coin) {
      SwapStepKeeps(s, t, coin, c, lo);
    } else {
      QuietStepKeeps(s, t, coin, c, lo);
    }
  }

  lemma SwapStepKeeps(s: State, t: nat, coin: bool, c: seq<NodeId>, lo: seq<nat>)
    requires Inv(s, c, lo) && Enabled(s, t) && Swaps(s, t, coin)
    ensures |lo| == |s.threads| && NextPlaces(s, t, lo) == lo
    ensures Inv(Step(s, t, coin), NextChain(s, t, coin, c, lo), lo)
    ensures multiset(NextChain(s, t, coin, c, lo)) == multiset(c)
  {
    assert |lo| == |s.threads|;
    hide Inv, Enabled, Step, StepSwapper, Swapped, NextPlaces;
    SwapIsStep(s, t, coin, lo);
    SwapKeeps(s, t, coin, c, lo);
    SwappedContents(c, lo[t] + 1);
  }

  lemma SwapIsStep(s: State, t: nat, coin: bool, lo: seq<nat>)
    requires Enabled(s, t) && Swaps(s, t, coin) && |lo| == |s.threads|
    ensures Step(s, t, coin) == StepSwapper(s, t, coin) && NextPlaces(s, t, lo) == lo
  {
    hide StepSwapper;
  }

  lemma SwappedContents(c: seq<NodeId>, i: nat)
    requires i + 1 < |c|
    ensures multiset(Swapped(c, i)) == multiset(c)
  {
    SwappedPrefix(c, i, |c|);
    assert Swapped(c, i)[..|c|] == Swapped(c, i) && c[..|c|] == c;
  }

  /** A step that swaps nothing leaves the list as it is. */
  lemma QuietStepKeeps(s: State, t: nat, coin: bool, c: seq<NodeId>, lo: seq<nat>)
    requires Inv(s, c, lo) && Enabled(s, t) && !Swaps(s, t, coin)
    ensures Inv(Step(s, t, coin), c, NextPlaces(s, t, lo))
  {
    assert |lo| == |s.threads|;
    hide Inv, Enabled, StepStart, StepReader, StepSwapper, StepEnd;
    match s.threads[t].pc {
      case LockFirst(_) => StepStartKeeps(s, t, c, lo);
      case ReadSecond(_) => StepStartKeeps(s, t, c, lo);
      case LockSecond(_, _) => StepStartKeeps(s, t, c, lo);
      case ReaderLoop(_, _, _) => StepReaderLoopKeeps(s, t, c, lo);
      case ReaderCompared(_, _, _) => StepReaderComparedKeeps(s, t, c, lo);
      case ReaderAdvance(_, _) => StepReaderAdvanceKeeps(s, t, c, lo);
      case ReaderLock(_, _, _) => StepReaderLockKeeps(s, t, c, lo);
      case SwapperLock(_, _, _) => StepSwapperLockKeeps(s, t, coin, c, lo);
      case UnlockPrev(_, _, _) => StepEndKeeps(s, t, c, lo);
      case UnlockCurr(_, _) => StepEndKeeps(s, t, c, lo);
      case _ => StepSwapperKeeps(s, t, coin, c, lo);
    }
  }

  lemma InitialInv(s: State, c: seq<NodeId>)
    requires Initial(s, c)
    ensures Inv(s, c, seq(|s.threads|, _ => 0))
  {
    var lo := seq(|s.threads|, _ => 0);
    forall t | 0 <= t < |s.threads| ensures Placed(s.threads[t].pc, c, lo[t]) && Accounted(s.threads[t], c, lo[t]) {
    }
  }

  /** A place for everything: the list `c` has the nodes of `c0` and still starts with its head. */
  ghost predicate InvFrom(c0: seq<NodeId>, s: State, c: seq<NodeId>, lo: seq<nat>) {
    Inv(s, c, lo) && multiset(c) == multiset(c0) && c[0] == c0[0]
  }

  /** In every reachable state the list is a chain over the same nodes from the same head, and the locks held are
      exactly the threads' windows, each of which is a stretch of the list. */
  lemma {:induction false} ReachableInv(s0: State, c0: seq<NodeId>, choices: seq<Choice>)
    returns (c: seq<NodeId>, lo: seq<nat>)
    requires Initial(s0, c0) && Run(s0, choices).Some?
    ensures InvFrom(c0, Run(s0, choices).value, c, lo)
  {
    if |choices| == 0 {
      InitialInv(s0, c0);
      c, lo := c0, seq(|s0.threads|, _ => 0);
    } else {
      var front, last := choices[..|choices| - 1], choices[|choices| - 1];
      c, lo := ReachableInv(s0, c0, front);
      var s := Run(s0, front).value;
      StepKeeps(s, last.thread, last.coin, c, lo);
      c, lo := NextChain(s, last.thread, last.coin, c, lo), NextPlaces(s, last.thread, lo);
    }
  }

  /** The list never breaks: it stays a chain without cycles or losses from the head it had, whoever swaps what. */
  lemma ListIsConserved(s0: State, c0: seq<NodeId>, s: State)
    requires Initial(s0, c0) && Reachable(s0, s)
    ensures exists c: seq<NodeId> :: Linked(Some(s.first), s.next, c) && multiset(c) == multiset(c0) && c[0] == c0[0]
  {
    var choices :| Run(s0, choices) == Some(s);
    var c, lo := ReachableInv(s0, c0, choices);
  }

  ghost predicate Apart(s: State, lo: seq<nat>, t: nat, u: nat)
    requires t < |s.threads| == |lo| && u < |s.threads|
  {
    || WindowOf(s, t) == [] || WindowOf(s, u) == []
    || lo[u] + |WindowOf(s, u)| <= lo[t] || lo[t] + |WindowOf(s, t)| <= lo[u]
  }

  /** The locks that a thread holds are its window: at most three nodes, a stretch of the list, apart from the windows
      of others, and the node that the thread waits for is the one directly behind it. */
  lemma WindowsSlide(s0: State, c0: seq<NodeId>, s: State) returns (c: seq<NodeId>, lo: seq<nat>)
    requires Initial(s0, c0) && Reachable(s0, s)
    ensures Linked(Some(s.first), s.next, c) && |lo| == |s.threads|
    ensures forall t :: 0 <= t < |s.threads| ==>
      && |WindowOf(s, t)| <= 3 && InPlace(WindowOf(s, t), c, lo[t])
      && var target := Target(s.threads[t].pc, s.first);
         (target.Some? ==> lo[t] + |WindowOf(s, t)| < |c| && target.value == c[lo[t] + |WindowOf(s, t)|])
    ensures forall t: nat, x :: t < |s.threads| ==> (Owns(s, t, x) <==> x in WindowOf(s, t))
    ensures forall t: nat, u: nat :: t < |s.threads| && u < |s.threads| && t != u ==> Apart(s, lo, t, u)
  {
    var choices :| Run(s0, choices) == Some(s);
    c, lo := ReachableInv(s0, c0, choices);
    forall t | 0 <= t < |s.threads|
      ensures |WindowOf(s, t)| <= 3 && InPlace(WindowOf(s, t), c, lo[t])
      ensures Knows(s.threads[t].pc, c, lo[t], |WindowOf(s, t)|)
    {
      assert Placed(s.threads[t].pc, c, lo[t]);
    }
    hide Window, InPlace;
    forall t: nat, u: nat | t < |s.threads| && u < |s.threads| && t != u ensures Apart(s, lo, t, u) {
      if WindowOf(s, t) != [] && WindowOf(s, u) != [] {
        WindowsApart(s, t, u, c, lo);
      }
    }
  }

  // ---------- Deadlock freedom ----------

  /** Where a thread's window ends in the list; 0 for a thread that holds nothing. */
  ghost function End(s: State, lo: seq<nat>, t: nat): nat
    requires t < |s.threads| == |lo|
  {
    lo[t] + |WindowOf(s, t)|
  }

  /** A node that is locked lies in its owner's window. */
  lemma TakenIsInWindow(s: State, c: seq<NodeId>, lo: seq<nat>, i: nat)
    requires Inv(s, c, lo) && i < |c| && c[i] in s.owner
    ensures var u := s.owner[c[i]]; u < |s.threads| && lo[u] <= i < End(s, lo, u)
  {
    hide Knows, Window, Accounted;
    var u := s.owner[c[i]];
    assert Owns(s, u, c[i]);
    var k :| 0 <= k < |WindowOf(s, u)| && WindowOf(s, u)[k] == c[i];
    AtPlace(s, u, c, lo);
    assert c[lo[u] + k] == c[i];
  }

  /** The thread with the rightmost window never waits for a lock that is taken. */
  lemma RightmostCanStep(s: State, c: seq<NodeId>, lo: seq<nat>, r: nat)
    requires Inv(s, c, lo) && r < |s.threads|
    requires forall t :: 0 <= t < |s.threads| ==> End(s, lo, t) <= End(s, lo, r)
    ensures Enabled(s, r)
  {
    var target := Target(s.threads[r].pc, s.first);
    assert Placed(s.threads[r].pc, c, lo[r]);
    if target.Some? && target.value in s.owner {
      TakenIsInWindow(s, c, lo, End(s, lo, r));
    }
  }

  lemma {:induction false} SomeRightmost(s: State, lo: seq<nat>, n: nat) returns (r: nat)
    requires 0 < n <= |s.threads| == |lo|
    ensures r < n && forall t :: 0 <= t < n ==> End(s, lo, t) <= End(s, lo, r)
  {
    hide End;
    r := 0;
    if n > 1 {
      r := SomeRightmost(s, lo, n - 1);
      if End(s, lo, n - 1) > End(s, lo, r) {
        r := n - 1;
      }
    }
  }

  // ---------- Readers ----------

  /** A reader that has left its loop has had every node as its current node exactly once, and has made n - 1
      comparisons, however many swappers ran meanwhile. */
  lemma ReaderMissesNothing(s0: State, c0: seq<NodeId>, s: State, t: nat)
    requires Initial(s0, c0) && Reachable(s0, s) && t < |s.threads|
    requires var pc := s.threads[t].pc; pc.UnlockPrev? && pc.reader
    ensures var th := s.threads[t];
      multiset(th.visited) == multiset(c0) && |th.compared| == |c0| - 1
    ensures Distinct(c0)
  {
    var choices :| Run(s0, choices) == Some(s);
    var c, lo := ReachableInv(s0, c0, choices);
    var th := s.threads[t];
    assert Placed(th.pc, c, lo[t]) && Accounted(th, c, lo[t]);
    assert c[..|c|] == c;
    assert |multiset(c)| == |c| && |multiset(c0)| == |c0|;
  }

  /** What a reader compares are neighbours of the list as it is at that moment. */
  lemma ReaderComparesNeighbours(s0: State, c0: seq<NodeId>, s: State, t: nat)
    requires Initial(s0, c0) && Reachable(s0, s) && Enabled(s, t)
    requires var pc := s.threads[t].pc; pc.ReaderLoop? && pc.rnext.Some?
    ensures var pc, th', th := s.threads[t].pc, Step(s, t, false).threads[t], s.threads[t];
      th'.compared == th.compared + [(pc.curr, pc.rnext.value)] && Next(s, pc.curr) == pc.rnext
  {
    var choices :| Run(s0, choices) == Some(s);
    var c, lo := ReachableInv(s0, c0, choices);
    ComparesCurrentWithNext(s, t, c, lo);
  }

  // ---------- Data races ----------

  /** A step writes `next` only of nodes whose locks its thread holds. */
  lemma WritesOnlyHeld(s: State, t: nat, coin: bool, c: seq<NodeId>, lo: seq<nat>)
    requires Inv(s, c, lo) && Enabled(s, t)
    ensures forall x :: x in s.next && !Owns(s, t, x) ==>
      x in Step(s, t, coin).next && Step(s, t, coin).next[x] == s.next[x]
  {
    if Swaps(s, t, coin) {
      SwapStep(s, t, coin, c, lo);
      assert forall k :: 0 <= k < 3 ==> Owns(s, t, WindowOf(s, t)[k]);
    }
  }

  /** `other` differs from the list's pointers at most outside the window of `t`. */
  ghost predicate AgreesInWindow(s: State, other: map<NodeId, Option<NodeId>>, t: nat)
    requires t < |s.threads|
  {
    forall x :: x in WindowOf(s, t) ==> x in other && x in s.next && other[x] == s.next[x]
  }

  ghost predicate SameEffect(s: State, other: map<NodeId, Option<NodeId>>, t: nat, coin: bool)
    requires Enabled(s, t)
  {
    var s1, s2 := Step(s, t, coin), Step(s.(next := other), t, coin);
    && s1.threads == s2.threads && s1.owner == s2.owner
    && forall x :: x in WindowOf(s, t) ==> Next(s1, x) == Next(s2, x)
  }

  lemma ReaderLoopReadsHeld(s: State, other: map<NodeId, Option<NodeId>>, t: nat, coin: bool,
                            c: seq<NodeId>, lo: seq<nat>)
    requires Inv(s, c, lo) && Enabled(s, t) && AgreesInWindow(s, other, t) && s.threads[t].pc.ReaderLoop?
    ensures SameEffect(s, other, t, coin)
  {
    AtPlace(s, t, c, lo);
    var pc, w := s.threads[t].pc, WindowOf(s, t);
    if pc.rnext.Some? {
      ComparesCurrentWithNext(s, t, c, lo);
      assert Knows(pc, c, lo[t], |w|) && c[0] == s.first;
      hide Inv;
      assert pc.rprev.Some? ==> w[0] == pc.rprev.value && w[1] == pc.curr;
      assert pc.rprev.None? ==> w[0] == pc.curr == s.first;
      assert ComparedNodes(s.(next := other), pc.rprev) == ComparedNodes(s, pc.rprev);
      hide ComparedNodes;
    }
  }

  lemma SwapReadsHeld(s: State, other: map<NodeId, Option<NodeId>>, t: nat, coin: bool, c: seq<NodeId>, lo: seq<nat>)
    requires Inv(s, c, lo) && Enabled(s, t) && AgreesInWindow(s, other, t) && Swaps(s, t, coin)
    ensures SameEffect(s, other, t, coin)
  {
    SwapStep(s, t, coin, c, lo);
    AtPlace(s, t, c, lo);
    var pc, w := s.threads[t].pc, WindowOf(s, t);
    hide Inv;
    assert w[0] == pc.prev && w[1] == pc.curr && w[2] == pc.next;
    assert w[0] in other && w[1] in other && w[2] in other;
  }

  lemma ReaderReadsHeld(s: State, other: map<NodeId, Option<NodeId>>, t: nat, coin: bool)
    requires Enabled(s, t) && AgreesInWindow(s, other, t)
    requires s.threads[t].pc.ReaderCompared? || s.threads[t].pc.ReaderAdvance? || s.threads[t].pc.ReaderLock?
    ensures SameEffect(s, other, t, coin)
  {
    var pc, w := s.threads[t].pc, WindowOf(s, t);
    if !pc.ReaderCompared? {
      assert w[1] == pc.next && w[1] in w;
      assert Next(s.(next := other), pc.next) == Next(s, pc.next);
    }
    hide Window;
  }

  lemma SwapperReadsHeld(s: State, other: map<NodeId, Option<NodeId>>, t: nat, coin: bool)
    requires Enabled(s, t) && AgreesInWindow(s, other, t) && !Swaps(s, t, coin)
    requires var pc := s.threads[t].pc;
      pc.SwapperLoop? || pc.SwapperLock? || pc.SwapperChoose? || pc.SwapperSwapped? || pc.SwapperKept?
    ensures SameEffect(s, other, t, coin)
  {
    var pc, w := s.threads[t].pc, WindowOf(s, t);
    assert |w| >= 2;
    assert w[1] in w;
    hide Window;
  }

  lemma EndsReadHeld(s: State, other: map<NodeId, Option<NodeId>>, t: nat, coin: bool)
    requires Enabled(s, t) && AgreesInWindow(s, other, t)
    requires var pc := s.threads[t].pc;
      pc.LockFirst? || pc.ReadSecond? || pc.LockSecond? || pc.UnlockPrev? || pc.UnlockCurr?
    ensures SameEffect(s, other, t, coin)
  {
    if s.threads[t].pc.ReadSecond? {
      assert WindowOf(s, t) == [s.first];
      assert s.first in WindowOf(s, t);
    }
    hide Window;
  }

  /** What a step does depends only on the `next` of nodes whose locks its thread holds: other threads' writes, which
      go to nodes they hold, are never seen half done. */
  lemma ReadsOnlyHeld(s: State, other: map<NodeId, Option<NodeId>>, t: nat, coin: bool, c: seq<NodeId>, lo: seq<nat>)
    requires Inv(s, c, lo) && Enabled(s, t) && AgreesInWindow(s, other, t)
    ensures SameEffect(s, other, t, coin)
  {
    hide Inv, SameEffect, AgreesInWindow;
    var pc := s.threads[t].pc;
    if Swaps(s, t, coin) {
      SwapReadsHeld(s, other, t, coin, c, lo);
    } else if pc.ReaderLoop? {
      ReaderLoopReadsHeld(s, other, t, coin, c, lo);
    } else if pc.ReaderCompared? || pc.ReaderAdvance? || pc.ReaderLock? {
      ReaderReadsHeld(s, other, t, coin);
    } else if pc.LockFirst? || pc.ReadSecond? || pc.LockSecond? || pc.UnlockPrev? || pc.UnlockCurr? {
      EndsReadHeld(s, other, t, coin);
    } else {
      SwapperReadsHeld(s, other, t, coin);
    }
  }
}
