/** Every step of the locked list gets its thread on, and every pass over the list can be brought to its end. */
module LockedListProgress {
  import opened Wrappers
  import opened LockedList
  import opened LockedListProof
  import opened LockedListTheorems

  // ---------- A measure of what is left of a pass ----------

  /** A bound on the steps up to the end of a pass, for a thread whose window ends at `end` of `n` nodes. */
  function PassLeft(pc: Pc, end: nat, n: nat): int {
    match pc
    case LockFirst(_) => 0
    case ReadSecond(_) => 8 * (n - end) + 9
    case LockSecond(_, _) => 8 * (n - end) + 8
    case ReaderLoop(_, _, next) => if next.Some? then 8 * (n - end) + 7 else 3
    case ReaderCompared(_, _, _) => 8 * (n - end) + 6
    case ReaderAdvance(_, _) => 8 * (n - end) + 5
    case ReaderLock(_, _, _) => 8 * (n - end) + 4
    case SwapperLoop(_, _) => 8 * (n - end) + 5
    case SwapperLock(_, _, _) => 8 * (n - end) + 4
    case SwapperChoose(_, _, _) => 8 * (n - end) + 7
    case SwapperSwapped(_, _, _) => 8 * (n - end) + 6
    case SwapperKept(_, _, _) => 8 * (n - end) + 6
    case UnlockPrev(_, _, _) => 2
    case UnlockCurr(_, _) => 1
  }

  /** Whether a thread runs the readers' program; it never changes. */
  predicate Reads(pc: Pc) {
    match pc
    case LockFirst(reader) => reader
    case ReadSecond(reader) => reader
    case LockSecond(reader, _) => reader
    case UnlockPrev(reader, _, _) => reader
    case UnlockCurr(reader, _) => reader
    case _ => pc.ReaderLoop? || pc.ReaderCompared? || pc.ReaderAdvance? || pc.ReaderLock?
  }

  ghost function Left(s: State, lo: seq<nat>, n: nat, t: nat): int
    requires t < |s.threads| == |lo|
  {
    PassLeft(s.threads[t].pc, End(s, lo, t), n)
  }

  /** What a step does to the thread that takes it: it is somewhere else, at the start of a pass or nearer to its end.
      */
  ghost predicate GetsOn(s: State, s': State, lo: seq<nat>, lo': seq<nat>, n: nat, t: nat)
    requires t < |s.threads| == |lo| && t < |s'.threads| == |lo'|
  {
    && s'.threads[t].pc != s.threads[t].pc
    && Reads(s'.threads[t].pc) == Reads(s.threads[t].pc)
    && (s.threads[t].pc.LockFirst? ==> s'.threads[t].pc.ReadSecond?)
    && (!s.threads[t].pc.LockFirst? ==> Left(s', lo', n, t) < Left(s, lo, n, t))
    && (s'.threads[t].pc.LockFirst? ==> s.threads[t].pc.UnlockCurr?)
    && (s'.threads[t].pc.UnlockCurr? ==> s.threads[t].pc.UnlockPrev?)
  }

  lemma StartGetsOn(s: State, t: nat, c: seq<NodeId>, lo: seq<nat>)
    requires Inv(s, c, lo) && Enabled(s, t)
    requires s.threads[t].pc.LockFirst? || s.threads[t].pc.ReadSecond? || s.threads[t].pc.LockSecond?
    ensures GetsOn(s, StepStart(s, t), lo, lo, |c|, t)
  {
    AtPlace(s, t, c, lo);
    assert Placed(s.threads[t].pc, c, lo[t]);
    assert s.threads[t].pc.ReadSecond? ==> WindowOf(s, t)[0] == s.first;
    hide Linked, Owns, InPlace, Accounted;
  }

  lemma ReaderGetsOn(s: State, t: nat, c: seq<NodeId>, lo: seq<nat>)
    requires Inv(s, c, lo) && Enabled(s, t)
    requires var pc := s.threads[t].pc; pc.ReaderLoop? || pc.ReaderCompared? || pc.ReaderAdvance? || pc.ReaderLock?
    ensures GetsOn(s, StepReader(s, t), lo, NextPlaces(s, t, lo), |c|, t)
  {
    AtPlace(s, t, c, lo);
    var w, pc := WindowOf(s, t), s.threads[t].pc;
    assert Placed(pc, c, lo[t]);
    assert pc.ReaderAdvance? ==> w[1] == pc.next;
    hide Linked, Owns, InPlace, Accounted, ComparedNodes;
  }

  lemma SwapperGetsOn(s: State, t: nat, coin: bool, c: seq<NodeId>, lo: seq<nat>)
    requires Inv(s, c, lo) && Enabled(s, t)
    requires var pc := s.threads[t].pc;
      pc.SwapperLoop? || pc.SwapperLock? || pc.SwapperChoose? || pc.SwapperSwapped? || pc.SwapperKept?
    ensures GetsOn(s, StepSwapper(s, t, coin), lo, NextPlaces(s, t, lo), |c|, t)
  {
    AtPlace(s, t, c, lo);
    var w, pc := WindowOf(s, t), s.threads[t].pc;
    assert Placed(pc, c, lo[t]);
    assert pc.SwapperLoop? || pc.SwapperLock? ==> w[1] == pc.curr;
    hide Linked, Owns, InPlace, Accounted, SwapElements;
  }

  lemma EndGetsOn(s: State, t: nat, c: seq<NodeId>, lo: seq<nat>)
    requires Inv(s, c, lo) && Enabled(s, t)
    requires s.threads[t].pc.UnlockPrev? || s.threads[t].pc.UnlockCurr?
    ensures GetsOn(s, StepEnd(s, t), lo, NextPlaces(s, t, lo), |c|, t)
  {
    hide Inv;
  }

  /** Every step that a thread can take changes the state: the thread comes nearer to the end of its pass, or starts
      one. */
  lemma StepGetsOn(s: State, t: nat, coin: bool, c: seq<NodeId>, lo: seq<nat>)
    requires Inv(s, c, lo) && Enabled(s, t)
    ensures |Step(s, t, coin).threads| == |s.threads| == |lo|
    ensures GetsOn(s, Step(s, t, coin), lo, NextPlaces(s, t, lo), |c|, t) && Step(s, t, coin) != s
  {
    assert |lo| == |s.threads|;
    hide Inv, Enabled, StepStart, StepReader, StepSwapper, StepEnd;
    var pc := s.threads[t].pc;
    if pc.LockFirst? || pc.ReadSecond? || pc.LockSecond? {
      StartGetsOn(s, t, c, lo);
    } else if pc.ReaderLoop? || pc.ReaderCompared? || pc.ReaderAdvance? || pc.ReaderLock? {
      ReaderGetsOn(s, t, c, lo);
    } else if pc.UnlockPrev? || pc.UnlockCurr? {
      EndGetsOn(s, t, c, lo);
    } else {
      SwapperGetsOn(s, t, coin, c, lo);
    }
  }

  /** The other threads stay where they are. */
  lemma OthersStay(s: State, t: nat, coin: bool, lo: seq<nat>)
    requires Enabled(s, t) && |lo| == |s.threads|
    ensures var s', lo' := Step(s, t, coin), NextPlaces(s, t, lo);
      && s'.first == s.first && |s'.threads| == |lo'| == |s.threads|
      && forall u :: 0 <= u < |s.threads| && u != t ==> s'.threads[u] == s.threads[u] && lo'[u] == lo[u]
  {
    match s.threads[t].pc {
      case LockFirst(_) =>
      case ReadSecond(_) =>
      case LockSecond(_, _) =>
      case UnlockPrev(_, _, _) =>
      case UnlockCurr(_, _) =>
      case _ =>
    }
  }

  /** The thread is not blocked, and gets somewhere whatever its `rand()` is. */
  ghost predicate CanGetOn(s: State, t: nat) {
    Enabled(s, t) && forall coin :: Step(s, t, coin) != s
  }

  /** No deadlock, although swaps change the order in which locks are taken: in every reachable state some thread can
      take a step that gets it on. */
  lemma NoDeadlock(s0: State, c0: seq<NodeId>, s: State)
    requires Initial(s0, c0) && Reachable(s0, s) && |s.threads| > 0
    ensures exists t :: CanGetOn(s, t)
  {
    var choices :| Run(s0, choices) == Some(s);
    var c, lo := ReachableInv(s0, c0, choices);
    var r := SomeRightmost(s, lo, |s.threads|);
    RightmostCanStep(s, c, lo, r);
    StepGetsOn(s, r, false, c, lo);
    StepGetsOn(s, r, true, c, lo);
    hide Step, Enabled, Inv;
    assert CanGetOn(s, r);
  }

  // ---------- Continuations ----------

  /** A run that starts with a choice is a step and the rest of the run. */
  lemma {:induction false} RunCons(s: State, first: Choice, rest: seq<Choice>)
    requires Enabled(s, first.thread)
    ensures Run(s, [first] + rest) == Run(Step(s, first.thread, first.coin), rest)
  {
    hide Step, Enabled;
    var choices := [first] + rest;
    if |rest| == 0 {
      assert choices == [first] && choices[..0] == [];
    } else {
      assert choices[..|choices| - 1] == [first] + rest[..|rest| - 1];
      RunCons(s, first, rest[..|rest| - 1]);
    }
  }

  lemma {:induction false} RunAppend(s: State, a: seq<Choice>, b: seq<Choice>)
    requires Run(s, a).Some?
    ensures Run(s, a + b) == Run(Run(s, a).value, b)
  {
    hide Step, Enabled;
    if |b| == 0 {
      assert a + b == a;
    } else {
      assert (a + b)[..|a + b| - 1] == a + b[..|b| - 1];
      RunAppend(s, a, b[..|b| - 1]);
    }
  }

  lemma ReachesOn(s0: State, s: State, s': State)
    requires Reachable(s0, s) && Reachable(s, s')
    ensures Reachable(s0, s')
  {
    var a :| Run(s0, a) == Some(s);
    var b :| Run(s, b) == Some(s');
    RunAppend(s0, a, b);
    assert Run(s0, a + b) == Some(s');
  }

  lemma ReachesByStep(s: State, t: nat, s': State)
    requires Enabled(s, t) && Reachable(Step(s, t, false), s')
    ensures Reachable(s, s')
  {
    hide Step, Enabled;
    var rest :| Run(Step(s, t, false), rest) == Some(s');
    RunCons(s, Choice(t, false), rest);
    assert Run(s, [Choice(t, false)] + rest) == Some(s');
  }

  lemma ReachesItself(s: State)
    ensures Reachable(s, s)
  {
    assert Run(s, []) == Some(s);
  }

  // ---------- All threads can end their passes ----------

  ghost function TotalLeft(s: State, lo: seq<nat>, n: nat, k: nat): int
    requires k <= |s.threads| == |lo|
  {
    if k == 0 then 0 else TotalLeft(s, lo, n, k - 1) + Left(s, lo, n, k - 1)
  }

  lemma {:induction false} TotalFalls(s: State, s': State, lo: seq<nat>, lo': seq<nat>, n: nat, k: nat, t: nat)
    requires k <= |s.threads| == |lo| == |s'.threads| == |lo'| && t < |s.threads|
    requires s'.first == s.first && Left(s', lo', n, t) < Left(s, lo, n, t)
    requires forall u :: 0 <= u < |s.threads| && u != t ==> s'.threads[u] == s.threads[u] && lo'[u] == lo[u]
    ensures TotalLeft(s', lo', n, k) <= TotalLeft(s, lo, n, k) - if t < k then 1 else 0
  {
    hide PassLeft, Window;
    if k > 0 {
      TotalFalls(s, s', lo, lo', n, k - 1, t);
    }
  }

  lemma {:induction false} TotalIsLeft(s: State, c: seq<NodeId>, lo: seq<nat>, k: nat)
    requires Inv(s, c, lo) && k <= |s.threads|
    ensures TotalLeft(s, lo, |c|, k) >= 0
  {
    if k > 0 {
      TotalIsLeft(s, c, lo, k - 1);
      assert Placed(s.threads[k - 1].pc, c, lo[k - 1]);
      hide Linked, Owns, Knows, Window, Accounted;
    }
  }

  ghost predicate AllAtStart(s: State) {
    forall t :: 0 <= t < |s.threads| ==> s.threads[t].pc.LockFirst?
  }

  /** The same threads with the same programs. */
  ghost predicate SameThreads(s: State, s': State) {
    |s'.threads| == |s.threads|
    && forall t :: 0 <= t < |s.threads| ==> Reads(s'.threads[t].pc) == Reads(s.threads[t].pc)
  }

  lemma AtStartNothingIsHeld(s: State, c: seq<NodeId>, lo: seq<nat>)
    requires Inv(s, c, lo) && AllAtStart(s)
    ensures s.owner == map[]
  {
    hide Linked, Placed, Accounted;
    forall x ensures x !in s.owner {
      var t := if x in s.owner then s.owner[x] else 0;
      if t < |s.threads| {
        assert Owns(s, t, x) <==> x in Window(s.threads[t].pc, s.first);
      }
    }
  }

  /** The thread with the rightmost window, if any thread holds one. */
  lemma SomeoneInside(s: State, c: seq<NodeId>, lo: seq<nat>) returns (r: nat)
    requires Inv(s, c, lo) && !AllAtStart(s)
    ensures r < |s.threads| && !s.threads[r].pc.LockFirst? && Enabled(s, r)
  {
    var x :| 0 <= x < |s.threads| && !s.threads[x].pc.LockFirst?;
    r := SomeRightmost(s, lo, |s.threads|);
    assert End(s, lo, x) > 0;
    assert Placed(s.threads[r].pc, c, lo[r]);
    RightmostCanStep(s, c, lo, r);
  }

  /** From every state, with the threads where they may be: if always the rightmost thread goes on, all passes end and
      all locks are given up. */
  lemma {:induction false} AllPassesCanEnd(s: State, c: seq<NodeId>, lo: seq<nat>)
    returns (s': State, c': seq<NodeId>, lo': seq<nat>)
    requires Inv(s, c, lo)
    ensures Reachable(s, s') && Inv(s', c', lo') && AllAtStart(s') && s'.owner == map[] && SameThreads(s, s')
    decreases TotalLeft(s, lo, |c|, |s.threads|)
  {
    if AllAtStart(s) {
      s', c', lo' := s, c, lo;
      ReachesItself(s);
      AtStartNothingIsHeld(s, c, lo);
    } else {
      var r := SomeoneInside(s, c, lo);
      StepGetsOn(s, r, false, c, lo);
      StepKeeps(s, r, false, c, lo);
      OthersStay(s, r, false, lo);
      var s1, c1, lo1 := Step(s, r, false), NextChain(s, r, false, c, lo), NextPlaces(s, r, lo);
      assert |c1| == |c|;
      TotalIsLeft(s1, c1, lo1, |s.threads|);
      hide Inv, Step, Enabled, NextChain, NextPlaces, Left, AllAtStart, Reachable, TotalLeft;
      TotalFalls(s, s1, lo, lo1, |c|, |s.threads|, r);
      s', c', lo' := AllPassesCanEnd(s1, c1, lo1);
      ReachesByStep(s, r, s');
    }
  }

  // ---------- Every thread can make a pass ----------

  ghost predicate OthersAtStart(s: State, t: nat) {
    forall u :: 0 <= u < |s.threads| && u != t ==> s.threads[u].pc.LockFirst?
  }

  lemma AloneIsRightmost(s: State, c: seq<NodeId>, lo: seq<nat>, t: nat)
    requires Inv(s, c, lo) && t < |s.threads| && OthersAtStart(s, t)
    ensures Enabled(s, t)
  {
    forall u | 0 <= u < |s.threads| ensures End(s, lo, u) <= End(s, lo, t) {
      assert Placed(s.threads[u].pc, c, lo[u]);
    }
    RightmostCanStep(s, c, lo, t);
  }

  /** A thread that is alone in the list gets to the end of it. */
  lemma {:induction false} AloneToTheEnd(s: State, c: seq<NodeId>, lo: seq<nat>, t: nat)
    returns (s': State, c': seq<NodeId>, lo': seq<nat>)
    requires Inv(s, c, lo) && t < |s.threads| && OthersAtStart(s, t)
    requires !s.threads[t].pc.LockFirst? && !s.threads[t].pc.UnlockCurr?
    ensures Reachable(s, s') && Inv(s', c', lo') && SameThreads(s, s') && OthersAtStart(s', t)
    ensures s'.threads[t].pc.UnlockPrev?
    decreases Left(s, lo, |c|, t)
  {
    if s.threads[t].pc.UnlockPrev? {
      s', c', lo' := s, c, lo;
      ReachesItself(s);
    } else {
      AloneIsRightmost(s, c, lo, t);
      StepGetsOn(s, t, false, c, lo);
      StepKeeps(s, t, false, c, lo);
      OthersStay(s, t, false, lo);
      var s1, c1, lo1 := Step(s, t, false), NextChain(s, t, false, c, lo), NextPlaces(s, t, lo);
      assert |c1| == |c|;
      LeftIsLeft(s1, c1, lo1, t);
      hide Inv, Step, Enabled, NextChain, NextPlaces, Left, Reachable;
      s', c', lo' := AloneToTheEnd(s1, c1, lo1, t);
      ReachesByStep(s, t, s');
    }
  }

  lemma LeftIsLeft(s: State, c: seq<NodeId>, lo: seq<nat>, t: nat)
    requires Inv(s, c, lo) && t < |s.threads|
    ensures Left(s, lo, |c|, t) >= 0
  {
    assert Placed(s.threads[t].pc, c, lo[t]);
    hide Linked, Owns, Knows, Window, Accounted;
  }

  /** From every reachable state there is a continuation in which a given thread makes a whole pass: at `end` it has
      left its loop, and at `last` all locks are given up.  A reader has then seen every node. */
  lemma EveryPassCanBeMade(s0: State, c0: seq<NodeId>, s: State, t: nat) returns (end: State, last: State)
    requires Initial(s0, c0) && Reachable(s0, s) && t < |s.threads|
    ensures Reachable(s, end) && SameThreads(s, end) && end.threads[t].pc.UnlockPrev?
    ensures Reachable(end, last) && AllAtStart(last) && last.owner == map[]
    ensures Reads(s.threads[t].pc) ==>
      multiset(end.threads[t].visited) == multiset(c0) && |end.threads[t].compared| == |c0| - 1
  {
    var choices :| Run(s0, choices) == Some(s);
    var c, lo := ReachableInv(s0, c0, choices);
    var s1, c1, lo1 := AllPassesCanEnd(s, c, lo);
    AloneIsRightmost(s1, c1, lo1, t);
    StepGetsOn(s1, t, false, c1, lo1);
    StepKeeps(s1, t, false, c1, lo1);
    OthersStay(s1, t, false, lo1);
    var s2, c2, lo2 := Step(s1, t, false), NextChain(s1, t, false, c1, lo1), NextPlaces(s1, t, lo1);
    assert OthersAtStart(s2, t) && s2.threads[t].pc.ReadSecond? && SameThreads(s1, s2);
    hide Inv, Step, NextChain, NextPlaces, Left, Reachable, Initial;
    var c', lo';
    end, c', lo' := AloneToTheEnd(s2, c2, lo2, t);
    ReachesByStep(s1, t, end);
    ReachesOn(s, s1, end);
    ReachesOn(s0, s, end);
    if Reads(s.threads[t].pc) {
      ReaderMissesNothing(s0, c0, end, t);
    }
    var c'', lo'';
    last, c'', lo'' := AllPassesCanEnd(end, c', lo');
  }
}
