/** Every step of every thread keeps the invariant of LockedList.dfy; what follows from it is in
    LockedListTheorems.dfy. */
module LockedListProof {
  import opened Wrappers
  import opened LockedList

  // ---------- What a step does to the places ----------

  ghost predicate Swaps(s: State, t: nat, coin: bool)
    requires t < |s.threads|
  {
    s.threads[t].pc.SwapperChoose? && coin
  }

  ghost function Swapped(c: seq<NodeId>, i: nat): (d: seq<NodeId>)
    requires i + 1 < |c|
    ensures |d| == |c|
  {
    c[i := c[i + 1]][i + 1 := c[i]]
  }

  /** The list after a step: a swap exchanges the second and third node of the swapper's window. */
  ghost function NextChain(s: State, t: nat, coin: bool, c: seq<NodeId>, lo: seq<nat>): seq<NodeId>
    requires Inv(s, c, lo) && t < |s.threads|
  {
    if Swaps(s, t, coin) then Swapped(c, lo[t] + 1) else c
  }

  /** The windows' places after a step: giving up the lock of its first node moves a window on by one. */
  ghost function NextPlaces(s: State, t: nat, lo: seq<nat>): seq<nat>
    requires t < |s.threads| == |lo|
  {
    var pc := s.threads[t].pc;
    if pc.SwapperSwapped? || pc.SwapperKept? || pc.UnlockPrev? || (pc.ReaderCompared? && pc.rprev.Some?)
    then lo[t := lo[t] + 1]
    else if pc.UnlockCurr? then lo[t := 0]
    else lo
  }

  // ---------- The locks after a step ----------

  /** `s'` differs from `s` in thread `t` and its locks alone. */
  ghost predicate OnlyThread(s: State, s': State, t: nat) {
    && t < |s.threads| == |s'.threads|
    && s'.first == s.first && s'.next == s.next
    && forall u :: 0 <= u < |s.threads| && u != t ==> s'.threads[u] == s.threads[u]
  }

  ghost function WindowOf(s: State, t: nat): seq<NodeId>
    requires t < |s.threads|
  {
    Window(s.threads[t].pc, s.first)
  }

  /** The locks after a step that takes or gives up none. */
  lemma LocksKept(s: State, s': State, t: nat, c: seq<NodeId>, lo: seq<nat>)
    requires Inv(s, c, lo) && OnlyThread(s, s', t)
    requires s'.owner == s.owner && WindowOf(s', t) == WindowOf(s, t)
    requires Knows(s'.threads[t].pc, c, lo[t], |WindowOf(s', t)|) && Accounted(s'.threads[t], c, lo[t])
    ensures Inv(s', c, lo)
  {
    hide Knows, Accounted, Window;
  }

  /** The locks after a step that takes the node behind the window. */
  lemma LocksTaken(s: State, s': State, t: nat, x: NodeId, c: seq<NodeId>, lo: seq<nat>)
    requires Inv(s, c, lo) && OnlyThread(s, s', t)
    requires Target(s.threads[t].pc, s.first) == Some(x) && x !in s.owner
    requires s'.owner == s.owner[x := t] && WindowOf(s', t) == WindowOf(s, t) + [x]
    requires Knows(s'.threads[t].pc, c, lo[t], |WindowOf(s', t)|) && Accounted(s'.threads[t], c, lo[t])
    ensures Inv(s', c, lo)
  {
    assert Knows(s.threads[t].pc, c, lo[t], |WindowOf(s, t)|);
    assert c[lo[t] + |WindowOf(s, t)|] == x;
    hide Knows, Accounted, Window;
    var w := WindowOf(s, t);
    assert c[lo[t]..lo[t] + |w| + 1] == c[lo[t]..lo[t] + |w|] + [x];
    forall u: nat, y | u < |s.threads| ensures Owns(s', u, y) <==> y in WindowOf(s', u) {
      assert Owns(s, u, y) <==> y in WindowOf(s, u);
      assert !Owns(s, u, x);
    }
  }

  /** The locks after a step that gives up the first node of the window. */
  lemma LocksGivenUp(s: State, s': State, t: nat, c: seq<NodeId>, lo: seq<nat>, at: nat)
    requires Inv(s, c, lo) && OnlyThread(s, s', t) && WindowOf(s, t) != []
    requires s'.owner == s.owner - {WindowOf(s, t)[0]} && WindowOf(s', t) == WindowOf(s, t)[1..]
    requires at == if |WindowOf(s, t)| == 1 then 0 else lo[t] + 1
    requires Knows(s'.threads[t].pc, c, at, |WindowOf(s', t)|) && Accounted(s'.threads[t], c, at)
    ensures Inv(s', c, lo[t := at])
  {
    hide Knows, Accounted, Window;
    var w, l := WindowOf(s, t), lo[t];
    assert InPlace(w, c, l);
    assert forall k :: 0 <= k < |w| ==> w[k] == c[l..l + |w|][k] == c[l + k];
    assert w[0] !in w[1..];
    assert c[l + 1..l + |w|] == w[1..];
    forall u: nat, y | u < |s.threads| ensures Owns(s', u, y) <==> y in WindowOf(s', u) {
      assert Owns(s, u, y) <==> y in WindowOf(s, u);
      assert Owns(s, t, w[0]);
      assert y in w <==> y == w[0] || y in w[1..];
    }
  }

  // ---------- Steps that leave the list as it is ----------

  /** The window's nodes and their successors, read off the list. */
  lemma AtPlace(s: State, t: nat, c: seq<NodeId>, lo: seq<nat>)
    requires Inv(s, c, lo) && t < |s.threads|
    ensures var w := WindowOf(s, t);
      forall k :: 0 <= k < |w| ==>
        && lo[t] + k < |c| && w[k] == c[lo[t] + k] && w[k] in s.next
        && Next(s, w[k]) == if lo[t] + k + 1 < |c| then Some(c[lo[t] + k + 1]) else None
  {
    var w, l := WindowOf(s, t), lo[t];
    assert Placed(s.threads[t].pc, c, l);
    hide Knows, Window;
    assert forall k :: 0 <= k < |w| ==> w[k] == c[l..l + |w|][k] == c[l + k];
    forall k | 0 <= k < |w|
      ensures w[k] in s.next && Next(s, w[k]) == if l + k + 1 < |c| then Some(c[l + k + 1]) else None
    {
      assert Links(s.next, c, l + k);
    }
  }

  lemma StepStartKeeps(s: State, t: nat, c: seq<NodeId>, lo: seq<nat>)
    requires Inv(s, c, lo) && Enabled(s, t)
    requires s.threads[t].pc.LockFirst? || s.threads[t].pc.ReadSecond? || s.threads[t].pc.LockSecond?
    ensures Inv(StepStart(s, t), c, lo)
  {
    AtPlace(s, t, c, lo);
    assert c[0] == s.first && |c| >= 2;
    hide Linked, Owns, InPlace;
    var s', pc := StepStart(s, t), s.threads[t].pc;
    assert Placed(pc, c, lo[t]) && Accounted(s.threads[t], c, lo[t]);
    assert lo[t] == 0;
    if pc.LockFirst? {
      LocksTaken(s, s', t, s.first, c, lo);
    } else if pc.ReadSecond? {
      LocksKept(s, s', t, c, lo);
    } else {
      assert pc.reader ==> s.threads[t].visited == [] && c[..1] == [c[0]];
      LocksTaken(s, s', t, pc.target, c, lo);
    }
  }

  /** list_compare_values, called with the node behind, compares the reader's current node with its next. */
  lemma ComparesCurrentWithNext(s: State, t: nat, c: seq<NodeId>, lo: seq<nat>)
    requires Inv(s, c, lo) && t < |s.threads| && s.threads[t].pc.ReaderLoop? && s.threads[t].pc.rnext.Some?
    ensures var pc := s.threads[t].pc; ComparedNodes(s, pc.rprev) == (Some(pc.curr), pc.rnext)
  {
    AtPlace(s, t, c, lo);
    var pc, w := s.threads[t].pc, WindowOf(s, t);
    assert Knows(pc, c, lo[t], |w|);
    assert c[0] == s.first;
    hide Linked, Owns, InPlace;
    if pc.rprev.Some? {
      assert w[0] == pc.rprev.value && w[1] == pc.curr && w[2] == pc.rnext.value;
    } else {
      assert w[0] == pc.curr && w[1] == pc.rnext.value;
    }
  }

  lemma StepReaderLoopKeeps(s: State, t: nat, c: seq<NodeId>, lo: seq<nat>)
    requires Inv(s, c, lo) && Enabled(s, t) && s.threads[t].pc.ReaderLoop?
    ensures Inv(StepReader(s, t), c, lo)
  {
    if s.threads[t].pc.rnext.Some? {
      ComparesCurrentWithNext(s, t, c, lo);
    }
    assert c[0] == s.first && |c| >= 2;
    hide Linked, Owns, InPlace, ComparedNodes;
    var s' := StepReader(s, t);
    assert WindowOf(s', t) == WindowOf(s, t);
    LocksKept(s, s', t, c, lo);
  }

  lemma StepReaderComparedKeeps(s: State, t: nat, c: seq<NodeId>, lo: seq<nat>)
    requires Inv(s, c, lo) && Enabled(s, t) && s.threads[t].pc.ReaderCompared?
    ensures Inv(StepReader(s, t), c, NextPlaces(s, t, lo))
  {
    AtPlace(s, t, c, lo);
    assert c[0] == s.first && |c| >= 2;
    hide Linked, Owns, InPlace;
    if s.threads[t].pc.rprev.Some? {
      LocksGivenUp(s, StepReader(s, t), t, c, lo, lo[t] + 1);
    } else {
      LocksKept(s, StepReader(s, t), t, c, lo);
    }
  }

  lemma VisitsGrow(visited: seq<NodeId>, c: seq<NodeId>, k: nat)
    requires k < |c| && multiset(visited) == multiset(c[..k])
    ensures multiset(visited + [c[k]]) == multiset(c[..k + 1])
  {
    assert c[..k + 1] == c[..k] + [c[k]];
  }

  lemma MovesOn(th: Thread, c: seq<NodeId>, lo: nat, ahead: Option<NodeId>)
    requires th.pc.ReaderAdvance? || th.pc.ReaderLock?
    requires Accounted(th, c, lo) && lo + 1 < |c| && th.pc.next == c[lo + 1]
    ensures var pc := ReaderLoop(Some(th.pc.curr), th.pc.next, ahead);
      Accounted(Thread(pc, th.visited + [th.pc.next], th.compared), c, lo)
  {
    VisitsGrow(th.visited, c, lo + 1);
  }

  lemma StepReaderAdvanceKeeps(s: State, t: nat, c: seq<NodeId>, lo: seq<nat>)
    requires Inv(s, c, lo) && Enabled(s, t) && s.threads[t].pc.ReaderAdvance?
    ensures Inv(StepReader(s, t), c, lo)
  {
    AtPlace(s, t, c, lo);
    var s', w, pc := StepReader(s, t), WindowOf(s, t), s.threads[t].pc;
    assert c[0] == s.first && w[1] == pc.next;
    MovesOn(s.threads[t], c, lo[t], None);
    hide Linked, Owns, Accounted;
    assert WindowOf(s', t) == w;
    LocksKept(s, s', t, c, lo);
  }

  lemma StepReaderLockKeeps(s: State, t: nat, c: seq<NodeId>, lo: seq<nat>)
    requires Inv(s, c, lo) && Enabled(s, t) && s.threads[t].pc.ReaderLock?
    ensures Inv(StepReader(s, t), c, lo)
  {
    AtPlace(s, t, c, lo);
    var s', w, pc := StepReader(s, t), WindowOf(s, t), s.threads[t].pc;
    assert Knows(pc, c, lo[t], 2) && w[1] == pc.next && Next(s, pc.next) == Some(pc.target);
    MovesOn(s.threads[t], c, lo[t], Some(pc.target));
    hide Linked, Owns, Accounted;
    assert WindowOf(s', t) == w + [pc.target];
    LocksTaken(s, s', t, pc.target, c, lo);
  }

  lemma StepSwapperLockKeeps(s: State, t: nat, coin: bool, c: seq<NodeId>, lo: seq<nat>)
    requires Inv(s, c, lo) && Enabled(s, t) && s.threads[t].pc.SwapperLock?
    ensures Inv(StepSwapper(s, t, coin), c, lo)
  {
    AtPlace(s, t, c, lo);
    var s', w, pc := StepSwapper(s, t, coin), WindowOf(s, t), s.threads[t].pc;
    assert Knows(pc, c, lo[t], 2) && w[1] == pc.curr && Next(s, pc.curr) == Some(pc.target);
    assert WindowOf(s', t) == w + [pc.target];
    assert Knows(s'.threads[t].pc, c, lo[t], 3);
    hide Inv, Knows;
    LocksTaken(s, s', t, pc.target, c, lo);
  }

  lemma StepSwapperKeeps(s: State, t: nat, coin: bool, c: seq<NodeId>, lo: seq<nat>)
    requires Inv(s, c, lo) && Enabled(s, t) && !Swaps(s, t, coin)
    requires s.threads[t].pc.SwapperLoop? || s.threads[t].pc.SwapperChoose?
      || s.threads[t].pc.SwapperSwapped? || s.threads[t].pc.SwapperKept?
    ensures Inv(StepSwapper(s, t, coin), c, NextPlaces(s, t, lo))
  {
    AtPlace(s, t, c, lo);
    assert c[0] == s.first && |c| >= 2;
    hide Linked, Owns, InPlace;
    var s', pc, w := StepSwapper(s, t, coin), s.threads[t].pc, WindowOf(s, t);
    if pc.SwapperSwapped? || pc.SwapperKept? {
      LocksGivenUp(s, s', t, c, lo, lo[t] + 1);
    } else {
      assert w[1] == pc.curr;
      LocksKept(s, s', t, c, lo);
    }
  }

  lemma StepEndKeeps(s: State, t: nat, c: seq<NodeId>, lo: seq<nat>)
    requires Inv(s, c, lo) && Enabled(s, t)
    requires s.threads[t].pc.UnlockPrev? || s.threads[t].pc.UnlockCurr?
    ensures Inv(StepEnd(s, t), c, NextPlaces(s, t, lo))
  {
    var s', th, w := StepEnd(s, t), s.threads[t], WindowOf(s, t);
    assert Placed(th.pc, c, lo[t]) && Accounted(th, c, lo[t]) && |c| >= 2 && c[0] == s.first;
    assert OnlyThread(s, s', t) && s'.owner == s.owner - {w[0]} && WindowOf(s', t) == w[1..];
    hide Inv, InPlace, OnlyThread;
    if th.pc.UnlockPrev? {
      LocksGivenUp(s, s', t, c, lo, lo[t] + 1);
    } else {
      LocksGivenUp(s, s', t, c, lo, 0);
    }
  }

  // ---------- The step that swaps ----------

  lemma WindowIsOwned(s: State, t: nat, c: seq<NodeId>, lo: seq<nat>)
    requires Inv(s, c, lo) && t < |s.threads|
    ensures lo[t] + |WindowOf(s, t)| <= |c|
    ensures forall k :: lo[t] <= k < lo[t] + |WindowOf(s, t)| ==> c[k] in s.owner && s.owner[c[k]] == t
  {
    AtPlace(s, t, c, lo);
    forall k | lo[t] <= k < lo[t] + |WindowOf(s, t)| ensures c[k] in s.owner && s.owner[c[k]] == t {
      assert WindowOf(s, t)[k - lo[t]] == c[k];
      assert Owns(s, t, c[k]);
    }
  }

  /** Windows of different threads do not overlap: one lies wholly before the other. */
  lemma WindowsApart(s: State, t: nat, u: nat, c: seq<NodeId>, lo: seq<nat>)
    requires Inv(s, c, lo) && t < |s.threads| && u < |s.threads| && t != u
    requires WindowOf(s, t) != [] && WindowOf(s, u) != []
    ensures lo[u] + |WindowOf(s, u)| <= lo[t] || lo[t] + |WindowOf(s, t)| <= lo[u]
  {
    WindowIsOwned(s, t, c, lo);
    WindowIsOwned(s, u, c, lo);
    hide Inv, Window;
    var k := if lo[t] < lo[u] then lo[u] else lo[t];
    assert k < lo[t] + |WindowOf(s, t)| ==> s.owner[c[k]] == t;
  }

  lemma SwappedPrefix(c: seq<NodeId>, i: nat, k: nat)
    requires i + 1 < |c| && k <= |c| && (k <= i || i + 2 <= k)
    ensures multiset(Swapped(c, i)[..k]) == multiset(c[..k])
  {
    if k <= i {
      assert Swapped(c, i)[..k] == c[..k];
    } else {
      var d := c[..k];
      assert Swapped(c, i)[..k] == d[i := d[i + 1]][i + 1 := d[i]];
    }
  }

  lemma SwappedDistinct(c: seq<NodeId>, i: nat)
    requires i + 1 < |c| && Distinct(c)
    ensures Distinct(Swapped(c, i))
    ensures forall x :: x in c ==> x in Swapped(c, i)
  {
    forall x | x in c ensures x in Swapped(c, i) {
      var k :| 0 <= k < |c| && c[k] == x;
      assert Swapped(c, i)[if k == i then i + 1 else if k == i + 1 then i else k] == x;
    }
  }

  lemma SwapElementsAt(first: Option<NodeId>, next: map<NodeId, Option<NodeId>>, c: seq<NodeId>, i: nat, k: nat)
    requires Linked(first, next, c) && i + 2 < |c| && k < |c|
    ensures Links(SwapElements(next, c[i], c[i + 1], c[i + 2]), Swapped(c, i + 1), k)
  {
    var p, a, b := c[i], c[i + 1], c[i + 2];
    assert p != a && p != b && a != b;
    assert k < i || k > i + 2 ==> c[k] != p && c[k] != a && c[k] != b;
    assert Links(next, c, k) && Links(next, c, i + 2);
    hide Linked, Distinct;
  }

  /** list_swap_elements exchanges two neighbours of the list and leaves the rest in order. */
  lemma SwapElementsRelinks(first: Option<NodeId>, next: map<NodeId, Option<NodeId>>, c: seq<NodeId>, i: nat)
    requires Linked(first, next, c) && i + 2 < |c|
    ensures Linked(first, SwapElements(next, c[i], c[i + 1], c[i + 2]), Swapped(c, i + 1))
  {
    var d, next' := Swapped(c, i + 1), SwapElements(next, c[i], c[i + 1], c[i + 2]);
    SwappedDistinct(c, i + 1);
    assert forall x :: x in next' ==> x in c by {
      assert Links(next, c, i) && Links(next, c, i + 1) && Links(next, c, i + 2);
    }
    assert d[0] == c[0] && |d| == |c|;
    hide Distinct, SwapElements, Swapped, Links;
    forall k | 0 <= k < |d| ensures Links(next', d, k) {
      SwapElementsAt(first, next, c, i, k);
    }
  }

  lemma KnowsSame(pc: Pc, c: seq<NodeId>, d: seq<NodeId>, lo: nat, n: nat)
    requires 0 < |c| == |d| && d[0] == c[0] && Knows(pc, c, lo, n)
    requires lo + n < |c| && Target(pc, c[0]).Some? ==> d[lo + n] == c[lo + n]
    ensures Knows(pc, d, lo, n)
  {
  }

  lemma SwapOutside(pc: Pc, c: seq<NodeId>, lo: nat, i: nat)
    requires i + 2 < |c| && Placed(pc, c, lo)
    requires var n := |Window(pc, c[0])|; n == 0 || lo + n <= i || i + 3 <= lo
    ensures Placed(pc, Swapped(c, i + 1), lo)
  {
    var n := |Window(pc, c[0])|;
    SwappedStretch(c, lo, n, i);
    hide Window, Target, Knows, Swapped;
    KnowsSame(pc, c, Swapped(c, i + 1), lo, n);
  }

  /** A stretch of the list apart from the swap, and the node behind it, stay where they are. */
  lemma SwappedStretch(c: seq<NodeId>, lo: nat, n: nat, i: nat)
    requires i + 2 < |c| && lo + n <= |c| && (lo + n <= i || i + 3 <= lo)
    ensures var d := Swapped(c, i + 1);
      && d[0] == c[0] && d[lo..lo + n] == c[lo..lo + n]
      && (lo + n < |c| ==> d[lo + n] == c[lo + n])
  {
  }

  lemma VisitsOutside(th: Thread, c: seq<NodeId>, lo: nat, i: nat)
    requires i + 2 < |c| && Accounted(th, c, lo)
    requires var k := Reached(th.pc, lo); IsReading(th.pc) ==> k <= i || i + 3 <= k
    ensures Accounted(th, Swapped(c, i + 1), lo)
  {
    if IsReading(th.pc) {
      SwappedPrefix(c, i + 1, Reached(th.pc, lo));
    }
  }

  /** A thread whose window lies apart from the swap sees nothing of it: the nodes behind its window and the nodes
      ahead of it are only permuted among themselves. */
  lemma SwapUnseen(th: Thread, c: seq<NodeId>, lo: nat, i: nat)
    requires i + 2 < |c| && Placed(th.pc, c, lo) && Accounted(th, c, lo)
    requires var n := |Window(th.pc, c[0])|; n == 0 || lo + n <= i || i + 3 <= lo
    ensures Placed(th.pc, Swapped(c, i + 1), lo) && Accounted(th, Swapped(c, i + 1), lo)
  {
    SwapOutside(th.pc, c, lo, i);
    assert var k := Reached(th.pc, lo); IsReading(th.pc) ==> k <= i || i + 3 <= k;
    hide Placed, Accounted;
    VisitsOutside(th, c, lo, i);
  }

  lemma SwapStep(s: State, t: nat, coin: bool, c: seq<NodeId>, lo: seq<nat>)
    requires Inv(s, c, lo) && Enabled(s, t) && Swaps(s, t, coin)
    ensures var pc, i := s.threads[t].pc, lo[t];
      && i + 2 < |c| && WindowOf(s, t) == [c[i], c[i + 1], c[i + 2]] && c[i + 2] in s.next
      && StepSwapper(s, t, coin) == Put(s.(next := SwapElements(s.next, c[i], c[i + 1], c[i + 2])), t,
           SwapperSwapped(pc.prev, pc.curr, pc.next))
  {
    AtPlace(s, t, c, lo);
    var pc, w := s.threads[t].pc, WindowOf(s, t);
    hide Inv;
    assert w[0] == pc.prev && w[1] == pc.curr && w[2] == pc.next;
  }

  /** The swapper's own window after the swap: its second and third node are exchanged. */
  lemma SwapMovesWindow(s: State, t: nat, coin: bool, c: seq<NodeId>, lo: seq<nat>)
    requires Inv(s, c, lo) && Enabled(s, t) && Swaps(s, t, coin)
    ensures var s' := StepSwapper(s, t, coin);
      && lo[t] + 2 < |c| && t < |s'.threads|
      && Placed(s'.threads[t].pc, Swapped(c, lo[t] + 1), lo[t]) && !IsReading(s'.threads[t].pc)
  {
    SwapStep(s, t, coin, c, lo);
    hide Inv, StepSwapper, SwapElements;
    var i := lo[t];
    assert Swapped(c, i + 1)[i..i + 3] == [c[i], c[i + 2], c[i + 1]];
  }

  lemma SwapKeepsPlaces(s: State, t: nat, coin: bool, c: seq<NodeId>, lo: seq<nat>, u: nat)
    requires Inv(s, c, lo) && Enabled(s, t) && Swaps(s, t, coin) && u < |s.threads|
    ensures var s' := StepSwapper(s, t, coin);
      && lo[t] + 2 < |c| && u < |s'.threads|
      && Placed(s'.threads[u].pc, Swapped(c, lo[t] + 1), lo[u])
      && Accounted(s'.threads[u], Swapped(c, lo[t] + 1), lo[u])
  {
    SwapMovesWindow(s, t, coin, c, lo);
    if u != t {
      SwapStep(s, t, coin, c, lo);
      assert Placed(s.threads[u].pc, c, lo[u]) && Accounted(s.threads[u], c, lo[u]);
      if WindowOf(s, u) != [] {
        WindowsApart(s, t, u, c, lo);
      }
      hide Inv, StepSwapper, SwapElements, Swapped, Placed, Accounted;
      SwapUnseen(s.threads[u], c, lo[u], lo[t]);
    }
  }

  /** A swap takes and gives up no lock, and every window keeps its nodes. */
  lemma SwapKeepsLocks(s: State, t: nat, coin: bool, c: seq<NodeId>, lo: seq<nat>)
    requires Inv(s, c, lo) && Enabled(s, t) && Swaps(s, t, coin)
    ensures var s' := StepSwapper(s, t, coin);
      && s'.owner == s.owner && s'.first == s.first && |s'.threads| == |s.threads|
      && forall u: nat, x :: u < |s'.threads| ==> (Owns(s', u, x) <==> x in WindowOf(s', u))
  {
    SwapStep(s, t, coin, c, lo);
    var s' := StepSwapper(s, t, coin);
    hide StepSwapper, SwapElements, Linked, Placed, Accounted;
    assert forall x :: x in WindowOf(s', t) <==> x in WindowOf(s, t);
    hide Window;
    forall u: nat, x | u < |s'.threads| ensures Owns(s', u, x) <==> x in WindowOf(s', u) {
      assert Owns(s, u, x) <==> x in WindowOf(s, u);
      assert u != t ==> WindowOf(s', u) == WindowOf(s, u);
    }
  }

  lemma SwapKeepsList(s: State, t: nat, coin: bool, c: seq<NodeId>, lo: seq<nat>)
    requires Inv(s, c, lo) && Enabled(s, t) && Swaps(s, t, coin)
    ensures var s' := StepSwapper(s, t, coin);
      lo[t] + 2 < |c| && Linked(Some(s'.first), s'.next, Swapped(c, lo[t] + 1))
  {
    SwapStep(s, t, coin, c, lo);
    hide StepSwapper, SwapElements, Linked, Placed, Accounted, Window, Swapped;
    SwapElementsRelinks(Some(s.first), s.next, c, lo[t]);
  }

  lemma SwapKeeps(s: State, t: nat, coin: bool, c: seq<NodeId>, lo: seq<nat>)
    requires Inv(s, c, lo) && Enabled(s, t) && Swaps(s, t, coin)
    ensures lo[t] + 2 < |c| && Inv(StepSwapper(s, t, coin), Swapped(c, lo[t] + 1), lo)
  {
    SwapKeepsList(s, t, coin, c, lo);
    SwapKeepsLocks(s, t, coin, c, lo);
    hide StepSwapper, Linked, Placed, Accounted, Swapped, Window, Owns, Enabled, Swaps;
    var s', d := StepSwapper(s, t, coin), Swapped(c, lo[t] + 1);
    forall u: nat | u < |s'.threads| ensures Placed(s'.threads[u].pc, d, lo[u]) && Accounted(s'.threads[u], d, lo[u]) {
      SwapKeepsPlaces(s, t, coin, c, lo, u);
    }
  }
}
