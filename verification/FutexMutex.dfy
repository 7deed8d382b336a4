/** The futex mutex and its clients: any number of threads, each incrementing a shared variable in two steps, some
    number of times, between lock and unlock.  One step is one atomic operation, one access to the variable or one
    system call. */
module FutexMutex {
  import opened Sums

  datatype Pc =
    | Head                 // the client's loop test
    | TryLock              // my_mutex_lock: the compare-exchange from 1 to 0
    | AboutToWait          // ... its FUTEX_WAIT for the value 0
    | Asleep
    | Loading              // val++: the read
    | Storing(read: int)   // val++: the write
    | Unlocking            // my_mutex_unlock: the compare-exchange from 0 to 1
    | AboutToWake          // ... its FUTEX_WAKE of one thread
    | Done

  /** `left` rounds of the client's loop are not finished. */
  datatype Thread = Thread(pc: Pc, left: nat)

  datatype State = State(word: int, val: int, threads: seq<Thread>)

  function Start(n: nat, k: nat): State {
    State(1, 0, seq(n, _ => Thread(Head, k)))
  }

  // ---------- Steps ----------

  function At(s: State, t: nat, pc: Pc): State
    requires t < |s.threads|
  {
    s.(threads := s.threads[t := s.threads[t].(pc := pc)])
  }

  /** The end of a round of the client's loop. */
  function NextRound(s: State, t: nat): State
    requires t < |s.threads|
  {
    s.(threads := s.threads[t := Rounded(s.threads[t])])
  }

  function Rounded(th: Thread): Thread {
    Thread(Head, if th.left > 0 then th.left - 1 else 0)
  }

  predicate Sleeps(s: State, u: nat) {
    u < |s.threads| && s.threads[u].pc == Asleep
  }

  /** Thread `t`, done with its wake, has woken `u`. */
  ghost predicate Wakes(s: State, t: nat, u: nat, s': State)
    requires t < |s.threads|
  {
    Sleeps(s, u) && s' == At(NextRound(s, t), u, TryLock)
  }

  /** Thread `t` takes a step; the kernel wakes any one sleeper, if there is one. */
  ghost predicate Step(s: State, t: nat, s': State) {
    && t < |s.threads|
    && var th := s.threads[t];
      match th.pc
      case Head => s' == At(s, t, if th.left == 0 then Done else TryLock)
      case TryLock => s' == if s.word == 1 then At(s, t, Loading).(word := 0) else At(s, t, AboutToWait)
      case AboutToWait => s' == At(s, t, if s.word == 0 then Asleep else TryLock)
      case Asleep => false
      case Loading => s' == At(s, t, Storing(s.val))
      case Storing(read) => s' == At(s, t, Unlocking).(val := read + 1)
      case Unlocking => s' == if s.word == 0 then At(s, t, AboutToWake).(word := 1) else NextRound(s, t)
      case AboutToWake =>
        || (exists u: nat :: Wakes(s, t, u, s'))
        || (s' == NextRound(s, t) && forall u: nat :: !Sleeps(s, u))
      case Done => false
  }

  /** FUTEX_WAIT may also return for no reason. */
  ghost predicate Spurious(s: State, t: nat, s': State) {
    Sleeps(s, t) && s' == At(s, t, TryLock)
  }

  // ---------- What every step keeps ----------

  predicate Holds(pc: Pc) {
    pc.Loading? || pc.Storing? || pc.Unlocking?
  }

  /** Awake on the way to taking the lock or to waking a thread. */
  predicate Stirs(pc: Pc) {
    pc.TryLock? || pc.AboutToWait? || pc.AboutToWake?
  }

  /** The increments that a thread has still to store. */
  function Todo(th: Thread): int {
    th.left - if th.pc.Unlocking? || th.pc.AboutToWake? then 1 else 0
  }

  ghost predicate ThreadOk(th: Thread, val: int) {
    && (th.left == 0 ==> th.pc.Head? || th.pc.Done?)
    && (th.pc.Done? ==> th.left == 0)
    && (th.pc.Storing? ==> th.pc.read == val)
  }

  ghost predicate OneHolder(s: State) {
    && (s.word == 0 || s.word == 1)
    && (forall t, u :: 0 <= t < u < |s.threads| && Holds(s.threads[t].pc) ==> !Holds(s.threads[u].pc))
    && (s.word == 1 <==> forall t :: 0 <= t < |s.threads| ==> !Holds(s.threads[t].pc))
  }

  ghost predicate SomeStirs(s: State) {
    exists t :: 0 <= t < |s.threads| && Stirs(s.threads[t].pc)
  }

  /** While the lock is free, no thread sleeps without another that is about to lock or to wake. */
  ghost predicate NoLostWakeup(s: State) {
    s.word == 1 && (exists u: nat :: Sleeps(s, u)) ==> SomeStirs(s)
  }

  /** With `total` increments in all. */
  ghost predicate Inv(s: State, total: int) {
    && (forall t :: 0 <= t < |s.threads| ==> ThreadOk(s.threads[t], s.val))
    && OneHolder(s) && NoLostWakeup(s)
    && s.val + Sum(s.threads, Todo) == total
  }

  lemma StartInv(n: nat, k: nat)
    ensures Inv(Start(n, k), n * k)
  {
    SumBounds(Start(n, k).threads, Todo, k, k);
  }

  lemma StepKeepsThreads(s: State, t: nat, s': State, total: int)
    requires Inv(s, total) && (Step(s, t, s') || Spurious(s, t, s'))
    ensures forall u :: 0 <= u < |s'.threads| ==> ThreadOk(s'.threads[u], s'.val)
  {
    hide NoLostWakeup, Sum;
  }

  lemma StepKeepsOneHolder(s: State, t: nat, s': State)
    requires OneHolder(s) && (Step(s, t, s') || Spurious(s, t, s'))
    ensures OneHolder(s')
  {
    var pc := s.threads[t].pc;
    if pc.TryLock? && s.word == 1 {
      assert Holds(s'.threads[t].pc);
      assert forall u :: 0 <= u < |s.threads| && u != t ==> !Holds(s'.threads[u].pc);
    } else if pc.Unlocking? {
      assert forall u :: 0 <= u < |s.threads| ==> !Holds(s'.threads[u].pc);
    } else {
      assert forall u :: 0 <= u < |s.threads| ==> (Holds(s'.threads[u].pc) <==> Holds(s.threads[u].pc));
    }
  }

  lemma StepKeepsWakeup(s: State, t: nat, s': State)
    requires OneHolder(s) && NoLostWakeup(s) && (Step(s, t, s') || Spurious(s, t, s'))
    ensures NoLostWakeup(s')
  {
    if s'.word == 1 && exists u: nat :: Sleeps(s', u) {
      var u: nat :| Sleeps(s', u);
      if s.threads[t].pc.AboutToWake? {
        assert u != t && Sleeps(s, u);
        var woken: nat :| Wakes(s, t, woken, s');
        assert Stirs(s'.threads[woken].pc);
      } else if !Stirs(s'.threads[t].pc) {
        assert Sleeps(s, u);
        var x :| 0 <= x < |s.threads| && Stirs(s.threads[x].pc);
        assert s'.threads[x] == s.threads[x];
      }
    }
  }

  /** What a step does to a sum over the threads: thread `t` changes, and a woken thread if there is one. */
  ghost predicate SumMoves(s: State, t: nat, s': State, f: Thread -> int)
    requires t < |s.threads| == |s'.threads|
  {
    if s.threads[t].pc.AboutToWake?
    then (Sum(s'.threads, f) == Sum(s.threads, f) - f(s.threads[t]) + f(Rounded(s.threads[t]))
          || (exists u: nat :: Sleeps(s, u) && Sum(s'.threads, f) == Sum(s.threads, f)
                - f(s.threads[t]) + f(Rounded(s.threads[t])) - f(s.threads[u]) + f(s.threads[u].(pc := TryLock))))
    else Sum(s'.threads, f) == Sum(s.threads, f) - f(s.threads[t]) + f(s'.threads[t])
  }

  lemma StepMovesSum(s: State, t: nat, s': State, f: Thread -> int)
    requires Step(s, t, s') || Spurious(s, t, s')
    ensures |s'.threads| == |s.threads| && SumMoves(s, t, s', f)
  {
    if s.threads[t].pc.AboutToWake? {
      var r := NextRound(s, t);
      SumUpdate(s.threads, t, Rounded(s.threads[t]), f);
      if s' != r {
        var u: nat :| Wakes(s, t, u, s');
        SumUpdate(r.threads, u, s.threads[u].(pc := TryLock), f);
      }
    } else {
      SumUpdate(s.threads, t, s'.threads[t], f);
    }
  }

  lemma StepKeepsSum(s: State, t: nat, s': State, total: int)
    requires Inv(s, total) && (Step(s, t, s') || Spurious(s, t, s'))
    ensures s'.val + Sum(s'.threads, Todo) == total
  {
    StepMovesSum(s, t, s', Todo);
    hide Sum, NoLostWakeup;
    assert ThreadOk(s.threads[t], s.val);
  }

  /** Every step keeps the invariant, whether or not the kernel wakes threads for no reason. */
  lemma StepKeeps(s: State, t: nat, s': State, total: int)
    requires Inv(s, total) && (Step(s, t, s') || Spurious(s, t, s'))
    ensures Inv(s', total)
  {
    StepKeepsThreads(s, t, s', total);
    StepKeepsOneHolder(s, t, s');
    StepKeepsWakeup(s, t, s');
    StepKeepsSum(s, t, s', total);
    hide Step, Spurious, ThreadOk, OneHolder, NoLostWakeup;
  }

  // ---------- Progress ----------

  ghost predicate AllDone(s: State) {
    forall t :: 0 <= t < |s.threads| ==> s.threads[t].pc.Done?
  }

  /** While a thread is not done, some thread can take a step that is no spurious wake-up. */
  lemma NeverStuck(s: State, total: int)
    requires Inv(s, total) && !AllDone(s)
    ensures exists t, s' :: Step(s, t, s')
  {
    var x :| 0 <= x < |s.threads| && !s.threads[x].pc.Done?;
    if s.threads[x].pc.Asleep? {
      assert Sleeps(s, x);
      if s.word == 1 {
        var y :| 0 <= y < |s.threads| && Stirs(s.threads[y].pc);
        CanStep(s, y);
      } else {
        var y :| 0 <= y < |s.threads| && Holds(s.threads[y].pc);
        CanStep(s, y);
      }
    } else {
      CanStep(s, x);
    }
  }

  lemma CanStep(s: State, t: nat)
    requires t < |s.threads| && !s.threads[t].pc.Asleep? && !s.threads[t].pc.Done?
    ensures exists s' :: Step(s, t, s')
  {
    var th := s.threads[t];
    match th.pc {
      case Head => assert Step(s, t, At(s, t, if th.left == 0 then Done else TryLock));
      case TryLock => assert Step(s, t, if s.word == 1 then At(s, t, Loading).(word := 0) else At(s, t, AboutToWait));
      case AboutToWait => assert Step(s, t, At(s, t, if s.word == 0 then Asleep else TryLock));
      case Loading => assert Step(s, t, At(s, t, Storing(s.val)));
      case Storing(read) => assert Step(s, t, At(s, t, Unlocking).(val := read + 1));
      case Unlocking => assert Step(s, t, if s.word == 0 then At(s, t, AboutToWake).(word := 1) else NextRound(s, t));
      case AboutToWake =>
        if u: nat :| Sleeps(s, u) {
          var s' := At(NextRound(s, t), u, TryLock);
          assert Wakes(s, t, u, s') && Step(s, t, s');
        } else {
          assert Step(s, t, NextRound(s, t));
        }
    }
  }

  // ---------- Termination, under no fairness at all ----------

  /** The steps that a thread has to take before it is done, not counting those that only try again or wait. */
  function Work(th: Thread): int {
    match th.pc
    case Head => 6 * th.left + 1
    case TryLock => 6 * th.left
    case AboutToWait => 6 * th.left
    case Asleep => 6 * th.left
    case Loading => 6 * th.left - 1
    case Storing(_) => 6 * th.left - 2
    case Unlocking => 6 * th.left - 3
    case AboutToWake => 6 * th.left - 4
    case Done => 0
  }

  /** The steps that a thread can take in vain as long as the lock word does not change. */
  function Vain(word: int, pc: Pc): int {
    if word == 0 then (if pc.TryLock? then 2 else if pc.AboutToWait? then 1 else 0)
    else if pc.AboutToWait? then 1 else 0
  }

  function VainAt(word: int): Thread -> int {
    (th: Thread) => Vain(word, th.pc)
  }

  /** A bound on the steps that are still possible. */
  function Cost(s: State): int {
    Sum(s.threads, Work) * (2 * |s.threads| + 1) + Sum(s.threads, VainAt(s.word))
  }

  ghost predicate TakesInVain(s: State, t: nat)
    requires t < |s.threads|
  {
    (s.threads[t].pc.TryLock? && s.word == 0) || s.threads[t].pc.AboutToWait?
  }

  lemma WorkDecreases(s: State, t: nat, s': State, total: int)
    requires Inv(s, total) && Step(s, t, s')
    ensures Sum(s'.threads, Work) <= Sum(s.threads, Work) - if TakesInVain(s, t) then 0 else 1
  {
    StepMovesSum(s, t, s', Work);
    hide Sum, NoLostWakeup, OneHolder;
    assert ThreadOk(s.threads[t], s.val);
  }

  lemma VainDecreases(s: State, t: nat, s': State, total: int)
    requires Inv(s, total) && Step(s, t, s') && TakesInVain(s, t)
    ensures s'.word == s.word
    ensures Sum(s'.threads, VainAt(s'.word)) < Sum(s.threads, VainAt(s.word))
  {
    StepMovesSum(s, t, s', VainAt(s.word));
    hide Sum, NoLostWakeup, ThreadOk;
  }

  lemma StepCosts(s: State, t: nat, s': State, total: int)
    requires Inv(s, total) && Step(s, t, s')
    ensures Cost(s') < Cost(s)
  {
    var n, w, w' := |s.threads|, Sum(s.threads, Work), Sum(s'.threads, Work);
    StepMovesSum(s, t, s', Work);
    WorkDecreases(s, t, s', total);
    SumBounds(s'.threads, VainAt(s'.word), 0, 2);
    SumBounds(s.threads, VainAt(s.word), 0, 2);
    var v, v' := Sum(s.threads, VainAt(s.word)), Sum(s'.threads, VainAt(s'.word));
    if TakesInVain(s, t) {
      VainDecreases(s, t, s', total);
    }
    hide Sum, Inv, Step;
    Drops(w, w', v, v', n);
  }

  lemma Drops(w: int, w': int, v: int, v': int, n: nat)
    requires (w' <= w && v' < v) || (w' < w && v' <= 2 * n && v >= 0)
    ensures w' * (2 * n + 1) + v' < w * (2 * n + 1) + v
  {
    if w' < w {
      AtMostTimes(w' + 1, w, 2 * n + 1);
    } else {
      AtMostTimes(w', w, 2 * n + 1);
    }
  }

  lemma AtMostTimes(a: int, b: int, c: int)
    requires a <= b && c >= 0
    ensures a * c <= b * c
  {
  }

  lemma WorkIsLeft(s: State, total: int)
    requires Inv(s, total)
    ensures Cost(s) >= 0
  {
    forall i | 0 <= i < |s.threads| ensures 0 <= Work(s.threads[i]) {
      assert ThreadOk(s.threads[i], s.val);
    }
    var n, w := |s.threads|, Sum(s.threads, Work);
    AtLeastZero(s.threads, Work);
    SumBounds(s.threads, VainAt(s.word), 0, 2);
    hide Sum, Inv;
    AtMostTimes(0, w, 2 * n + 1);
  }

  lemma {:induction false} AtLeastZero<T>(ts: seq<T>, f: T -> int)
    requires forall i :: 0 <= i < |ts| ==> 0 <= f(ts[i])
    ensures 0 <= Sum(ts, f)
  {
    if |ts| > 0 {
      AtLeastZero(ts[1..], f);
    }
  }

  // ---------- Runs ----------

  /** A run: every state follows by a step of some thread, or, unless `quiet`, by a spurious wake-up. */
  ghost predicate IsRun(run: seq<State>, quiet: bool) {
    |run| > 0 && forall i {:trigger run[i]} :: 0 < i < |run| ==> Follows(run[i - 1], run[i], quiet)
  }

  ghost predicate Follows(s: State, s': State, quiet: bool) {
    exists t: nat :: Step(s, t, s') || (!quiet && Spurious(s, t, s'))
  }

  /** In every state of every run of `n` workers with `k` rounds each. */
  lemma {:induction false} Always(run: seq<State>, i: nat, n: nat, k: nat)
    requires IsRun(run, false) && i < |run| && run[0] == Start(n, k)
    ensures Inv(run[i], n * k)
  {
    if i == 0 {
      StartInv(n, k);
    } else {
      Always(run, i - 1, n, k);
      assert Follows(run[i - 1], run[i], false);
      var t: nat :| Step(run[i - 1], t, run[i]) || Spurious(run[i - 1], t, run[i]);
      hide Inv, Step, Spurious;
      StepKeeps(run[i - 1], t, run[i], n * k);
    }
  }

  /** Two workers are never between their lock and their unlock at once. */
  lemma MutualExclusion(run: seq<State>, i: nat, n: nat, k: nat, t: nat, u: nat)
    requires IsRun(run, false) && i < |run| && run[0] == Start(n, k)
    requires t < |run[i].threads| && u < |run[i].threads| && Holds(run[i].threads[t].pc) && Holds(run[i].threads[u].pc)
    ensures t == u && run[i].word == 0
  {
    Always(run, i, n, k);
    hide ThreadOk, NoLostWakeup;
  }

  /** A spurious wake-up gives the woken thread two more steps in vain, and no more work. */
  lemma WakeCosts(s: State, t: nat, s': State)
    requires Spurious(s, t, s')
    ensures Cost(s') <= Cost(s) + 2
  {
    StepMovesSum(s, t, s', Work);
    StepMovesSum(s, t, s', VainAt(s.word));
    hide Sum;
  }

  /** `s'` follows by a step that is no spurious wake-up. */
  ghost predicate Steps(s: State, s': State) {
    exists t: nat :: Step(s, t, s')
  }

  /** The spurious wake-ups of a run. */
  ghost function Wakeups(run: seq<State>): nat
    decreases |run|
  {
    if |run| <= 1 then 0
    else Wakeups(run[..|run| - 1]) + if Steps(run[|run| - 2], run[|run| - 1]) then 0 else 1
  }

  lemma {:induction false} RunCosts(run: seq<State>, total: int)
    requires IsRun(run, false) && Inv(run[0], total)
    ensures Inv(run[|run| - 1], total)
    ensures |run| - 1 <= Cost(run[0]) - Cost(run[|run| - 1]) + 3 * Wakeups(run)
    decreases |run|
  {
    if |run| > 1 {
      var shorter := run[..|run| - 1];
      forall i {:trigger shorter[i]} | 0 < i < |shorter| ensures Follows(shorter[i - 1], shorter[i], false) {
        assert Follows(run[i - 1], run[i], false);
      }
      RunCosts(shorter, total);
      var s, s' := run[|run| - 2], run[|run| - 1];
      assert Follows(s, s', false);
      hide Inv, Step, Cost, Spurious;
      if t: nat :| Step(s, t, s') {
        StepCosts(s, t, s', total);
        StepKeeps(s, t, s', total);
      } else {
        var t: nat :| Spurious(s, t, s');
        WakeCosts(s, t, s');
        StepKeeps(s, t, s', total);
      }
    }
  }

  /** Workers that are all done have stored every increment. */
  lemma DoneMeansStored(s: State, total: int)
    requires Inv(s, total) && AllDone(s)
    ensures s.val == total
  {
    forall i | 0 <= i < |s.threads| ensures Todo(s.threads[i]) == 0 {
      assert ThreadOk(s.threads[i], s.val);
    }
    SumBounds(s.threads, Todo, 0, 0);
  }

  /** Whenever all workers are done, every increment counts, whatever the kernel woke in between. */
  lemma AllIncrementsCount(run: seq<State>, i: nat, n: nat, k: nat)
    requires IsRun(run, false) && i < |run| && run[0] == Start(n, k) && AllDone(run[i])
    ensures run[i].val == n * k
  {
    Always(run, i, n, k);
    DoneMeansStored(run[i], n * k);
  }

  /** However the threads are scheduled, a run is bounded in length, but for three steps for each spurious wake-up;
      and a run that cannot go on without one has all workers done and every increment counted. */
  lemma RunsEndDone(run: seq<State>, n: nat, k: nat)
    requires IsRun(run, false) && run[0] == Start(n, k)
    ensures |run| <= 1 + Cost(Start(n, k)) + 3 * Wakeups(run)
    ensures var last := run[|run| - 1];
      (forall t, s' :: !Step(last, t, s')) ==> AllDone(last) && last.val == n * k
  {
    StartInv(n, k);
    RunCosts(run, n * k);
    var last := run[|run| - 1];
    WorkIsLeft(last, n * k);
    if forall t, s' :: !Step(last, t, s') {
      if !AllDone(last) {
        NeverStuck(last, n * k);
        assert false;
      }
      DoneMeansStored(last, n * k);
    }
  }

  /** Without spurious wake-ups the bound is a number known from the start. */
  lemma QuietRunsAreBounded(run: seq<State>, n: nat, k: nat)
    requires IsRun(run, true) && run[0] == Start(n, k)
    ensures |run| <= 1 + Cost(Start(n, k))
  {
    forall i {:trigger run[i]} | 0 < i < |run| ensures Follows(run[i - 1], run[i], false) {
      assert Follows(run[i - 1], run[i], true);
    }
    RunsEndDone(run, n, k);
    NoWakeups(run);
  }

  lemma {:induction false} NoWakeups(run: seq<State>)
    requires IsRun(run, true)
    ensures Wakeups(run) == 0
    decreases |run|
  {
    if |run| > 1 {
      var shorter := run[..|run| - 1];
      forall i {:trigger shorter[i]} | 0 < i < |shorter| ensures Follows(shorter[i - 1], shorter[i], true) {
        assert Follows(run[i - 1], run[i], true);
      }
      NoWakeups(shorter);
      assert Follows(run[|run| - 2], run[|run| - 1], true);
    }
  }
}
