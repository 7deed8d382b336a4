/** The bounded queue under a mutex and a condition variable: any number of readers that wait while it is empty, and
    writers that signal on every attempt.  One step is one lock, one action inside, one wait, one signal or one
    unlock. */
module CondQueue {
  import opened Wrappers
  import opened Sums

  datatype Pc =
    | ReaderIdle        // about to lock in queue_get
    | ReaderChecking    // at its loop test, with the mutex
    | ReaderTaking      // about to take the first value
    | ReaderUnlocking
    | ReaderWaiting     // in pthread_cond_wait, not signalled yet
    | ReaderSignalled   // in pthread_cond_wait, about to lock again
    | WriterIdle        // about to lock in queue_add
    | WriterAdding      // at its test for a full queue, with the mutex
    | WriterSignalling
    | WriterUnlocking

  /** `added` and `taken` are the values that went in and came out, in order, and `refused` counts the calls of
      queue_add that found the queue full; the program does not keep them. */
  datatype State = State(holder: Option<nat>, queue: seq<int>, maxCount: nat, addAttempts: nat, getAttempts: nat,
                         addCount: nat, getCount: nat, threads: seq<Pc>, added: seq<int>, taken: seq<int>, refused: nat)

  predicate Inside(pc: Pc) {
    || pc.ReaderChecking? || pc.ReaderTaking? || pc.ReaderUnlocking?
    || pc.WriterAdding? || pc.WriterSignalling? || pc.WriterUnlocking?
  }

  ghost predicate IsStart(s: State) {
    && s.holder == None && s.queue == [] && s.added == [] && s.taken == []
    && s.addAttempts == s.getAttempts == s.addCount == s.getCount == s.refused == 0
    && forall t :: 0 <= t < |s.threads| ==> s.threads[t].ReaderIdle? || s.threads[t].WriterIdle?
  }

  // ---------- Steps ----------

  function At(s: State, t: nat, pc: Pc): State
    requires t < |s.threads|
  {
    s.(threads := s.threads[t := pc])
  }

  function Lock(s: State, t: nat, pc: Pc): State
    requires t < |s.threads|
  {
    At(s, t, pc).(holder := Some(t))
  }

  function Unlock(s: State, t: nat, pc: Pc): State
    requires t < |s.threads|
  {
    At(s, t, pc).(holder := None)
  }

  function Push(s: State, val: int): State {
    s.(queue := s.queue + [val], added := s.added + [val], addCount := s.addCount + 1)
  }

  /** What queue_add does to the queue: a full one refuses the value. */
  function Put(s: State, val: int): State {
    if |s.queue| == s.maxCount then s.(refused := s.refused + 1) else Push(s, val)
  }

  function Pop(s: State): State
    requires |s.queue| > 0
  {
    s.(queue := s.queue[1..], taken := s.taken + [s.queue[0]], getCount := s.getCount + 1)
  }

  predicate Waits(s: State, u: nat) {
    u < |s.threads| && s.threads[u].ReaderWaiting?
  }

  /** The signal of thread `t` reaches the waiting thread `u`. */
  ghost predicate Signals(s: State, t: nat, u: nat, s': State)
    requires t < |s.threads|
  {
    Waits(s, u) && s' == At(At(s, t, WriterUnlocking), u, ReaderSignalled)
  }

  /** Thread `t` takes a step; a writer brings some value `val`. */
  ghost predicate Step(s: State, t: nat, val: int, s': State) {
    && t < |s.threads|
    && match s.threads[t]
      case ReaderIdle => s.holder == None && s' == Lock(s, t, ReaderChecking).(getAttempts := s.getAttempts + 1)
      case ReaderChecking => s' == if |s.queue| == 0 then Unlock(s, t, ReaderWaiting) else At(s, t, ReaderTaking)
      case ReaderTaking => |s.queue| > 0 && s' == At(Pop(s), t, ReaderUnlocking)
      case ReaderUnlocking => s' == Unlock(s, t, ReaderIdle)
      case ReaderWaiting => false
      case ReaderSignalled => s.holder == None && s' == Lock(s, t, ReaderChecking)
      case WriterIdle => s.holder == None && s' == Lock(s, t, WriterAdding).(addAttempts := s.addAttempts + 1)
      case WriterAdding => s' == At(Put(s, val), t, WriterSignalling)
      case WriterSignalling =>
        || (exists u: nat :: Signals(s, t, u, s'))
        || (s' == At(s, t, WriterUnlocking) && forall u: nat :: !Waits(s, u))
      case WriterUnlocking => s' == Unlock(s, t, WriterIdle)
  }

  /** pthread_cond_wait may also return for no reason. */
  ghost predicate Spurious(s: State, t: nat, s': State) {
    Waits(s, t) && s' == At(s, t, ReaderSignalled)
  }

  ghost predicate Moves(s: State, t: nat, val: int, s': State) {
    Step(s, t, val, s') || Spurious(s, t, s')
  }

  // ---------- What every step keeps ----------

  ghost predicate HolderIsInside(s: State) {
    && (s.holder.Some? ==> s.holder.value < |s.threads|)
    && forall t: nat :: t < |s.threads| ==> (Inside(s.threads[t]) <==> s.holder == Some(t))
  }

  ghost predicate Accounted(s: State) {
    && s.added == s.taken + s.queue && |s.queue| <= s.maxCount
    && s.addCount == |s.added| && s.getCount == |s.taken|
    && forall t: nat :: t < |s.threads| && s.threads[t].ReaderTaking? ==> |s.queue| > 0
  }

  function Signalled(pc: Pc): int {
    if pc.ReaderSignalled? then 1 else 0
  }

  /** The thread with the mutex that may still take a value, or has still to signal one. */
  function Underway(s: State): int {
    if s.holder.Some? && s.holder.value < |s.threads|
      && var pc := s.threads[s.holder.value]; pc.ReaderChecking? || pc.ReaderTaking? || pc.WriterSignalling?
    then 1 else 0
  }

  /** As long as a reader waits, every value is covered by a signalled reader or by the thread with the mutex. */
  ghost predicate Covered(s: State) {
    (exists u: nat :: Waits(s, u)) ==> |s.queue| <= Sum(s.threads, Signalled) + Underway(s)
  }

  /** A reader between its call of queue_get and its value. */
  function Getting(pc: Pc): int {
    if pc.ReaderChecking? || pc.ReaderTaking? || pc.ReaderWaiting? || pc.ReaderSignalled? then 1 else 0
  }

  /** A writer between its call of queue_add and its test. */
  function Adding(pc: Pc): int {
    if pc.WriterAdding? then 1 else 0
  }

  /** Every attempt to get a value has got one or is under way; an attempt to add may also have found the queue full. */
  ghost predicate Attempted(s: State) {
    && s.getAttempts == s.getCount + Sum(s.threads, Getting)
    && s.addAttempts == s.addCount + s.refused + Sum(s.threads, Adding)
  }

  ghost predicate Inv(s: State) {
    HolderIsInside(s) && Accounted(s) && Covered(s) && Attempted(s)
  }

  lemma StartInv(s: State)
    requires IsStart(s)
    ensures Inv(s)
  {
    SumBounds(s.threads, Getting, 0, 0);
    SumBounds(s.threads, Adding, 0, 0);
  }

  lemma StepKeepsHolder(s: State, t: nat, val: int, s': State)
    requires HolderIsInside(s) && Moves(s, t, val, s')
    ensures HolderIsInside(s')
  {
    assert |s'.threads| == |s.threads|;
    assert forall u: nat :: u < |s.threads| && u != t ==> (Inside(s'.threads[u]) <==> Inside(s.threads[u]));
    assert Inside(s'.threads[t]) <==> s'.holder == Some(t);
    assert s'.holder == s.holder || s'.holder == None || s'.holder == Some(t);
    hide Moves;
  }

  lemma StepKeepsAccounts(s: State, t: nat, val: int, s': State)
    requires HolderIsInside(s) && Accounted(s) && Moves(s, t, val, s')
    ensures Accounted(s')
  {
  }

  lemma SignalledAtLeastZero(s: State)
    ensures Sum(s.threads, Signalled) >= 0
  {
    SumBounds(s.threads, Signalled, 0, 1);
  }

  lemma NoneSignalled(s: State)
    requires forall t: nat :: t < |s.threads| ==> !s.threads[t].ReaderSignalled?
    ensures Sum(s.threads, Signalled) == 0
  {
    SumBounds(s.threads, Signalled, 0, 0);
  }

  /** A signal reaches a waiting thread if there is one. */
  lemma SignalKeepsCover(s: State, t: nat, s': State)
    requires HolderIsInside(s) && Covered(s) && Step(s, t, 0, s') && s.threads[t].WriterSignalling?
    ensures Covered(s')
  {
    if u: nat :| Signals(s, t, u, s') {
      var r := At(s, t, WriterUnlocking);
      SumUpdate(s.threads, t, WriterUnlocking, Signalled);
      SumUpdate(r.threads, u, ReaderSignalled, Signalled);
    } else {
      assert forall u: nat :: Waits(s', u) ==> Waits(s, u);
    }
  }

  /** A step without a signal changes one thread, and the counters with it. */
  lemma OneThreadMoves(s: State, t: nat, val: int, s': State)
    requires Moves(s, t, val, s') && (!s.threads[t].WriterSignalling? || forall u: nat :: !Signals(s, t, u, s'))
    ensures t < |s.threads| == |s'.threads| && s'.threads == s.threads[t := s'.threads[t]]
    ensures (s'.getAttempts - s'.getCount) - (s.getAttempts - s.getCount)
         == Getting(s'.threads[t]) - Getting(s.threads[t])
    ensures (s'.addAttempts - s'.addCount - s'.refused) - (s.addAttempts - s.addCount - s.refused)
         == Adding(s'.threads[t]) - Adding(s.threads[t])
  {
  }

  lemma StepKeepsCover(s: State, t: nat, val: int, s': State)
    requires Inv(s) && Moves(s, t, val, s')
    ensures Covered(s')
  {
    if s.threads[t].WriterSignalling? {
      SignalKeepsCover(s, t, s');
    } else {
      OneThreadMoves(s, t, val, s');
      SumUpdate(s.threads, t, s'.threads[t], Signalled);
      SignalledAtLeastZero(s');
      hide Sum, Accounted, Attempted, Moves;
      QuietStepCovers(s, t, val, s', Sum(s.threads, Signalled), Sum(s'.threads, Signalled));
    }
  }

  /** The cover after a step without a signal, with the numbers of signalled readers before and after it. */
  lemma QuietStepCovers(s: State, t: nat, val: int, s': State, before: int, after: int)
    requires HolderIsInside(s) && Moves(s, t, val, s') && !s.threads[t].WriterSignalling? && after >= 0
    requires after == before - Signalled(s.threads[t]) + Signalled(s'.threads[t])
    requires (exists u: nat :: Waits(s, u)) ==> |s.queue| <= before + Underway(s)
    ensures (exists u: nat :: Waits(s', u)) ==> |s'.queue| <= after + Underway(s')
  {
    assert forall u: nat :: u != t && Waits(s', u) ==> Waits(s, u);
  }

  lemma SignalKeepsAttempts(s: State, t: nat, u: nat, s': State)
    requires t < |s.threads| && s.threads[t].WriterSignalling? && Attempted(s) && Signals(s, t, u, s')
    ensures Attempted(s')
  {
    var r := At(s, t, WriterUnlocking);
    SumUpdate(s.threads, t, WriterUnlocking, Getting);
    SumUpdate(s.threads, t, WriterUnlocking, Adding);
    SumUpdate(r.threads, u, ReaderSignalled, Getting);
    SumUpdate(r.threads, u, ReaderSignalled, Adding);
  }

  lemma StepKeepsAttempts(s: State, t: nat, val: int, s': State)
    requires Attempted(s) && Moves(s, t, val, s')
    ensures Attempted(s')
  {
    if u: nat :| s.threads[t].WriterSignalling? && Signals(s, t, u, s') {
      SignalKeepsAttempts(s, t, u, s');
    } else {
      OneThreadMoves(s, t, val, s');
      hide Moves, Signals, Sum, Getting, Adding;
      SumUpdate(s.threads, t, s'.threads[t], Getting);
      SumUpdate(s.threads, t, s'.threads[t], Adding);
    }
  }

  /** Every step keeps the invariant, spurious wake-ups among them. */
  lemma StepKeeps(s: State, t: nat, val: int, s': State)
    requires Inv(s) && Moves(s, t, val, s')
    ensures Inv(s')
  {
    StepKeepsHolder(s, t, val, s');
    StepKeepsAccounts(s, t, val, s');
    StepKeepsCover(s, t, val, s');
    StepKeepsAttempts(s, t, val, s');
    hide Moves, HolderIsInside, Accounted, Covered, Attempted;
  }

  // ---------- Runs ----------

  ghost predicate Follows(s: State, s': State) {
    exists t: nat, val :: Moves(s, t, val, s')
  }

  ghost predicate IsRun(run: seq<State>) {
    |run| > 0 && IsStart(run[0]) && forall i {:trigger run[i]} :: 0 < i < |run| ==> Follows(run[i - 1], run[i])
  }

  lemma {:induction false} Always(run: seq<State>, i: nat)
    requires IsRun(run) && i < |run|
    ensures Inv(run[i])
  {
    if i == 0 {
      StartInv(run[0]);
    } else {
      Always(run, i - 1);
      assert Follows(run[i - 1], run[i]);
      var t: nat, val :| Moves(run[i - 1], t, val, run[i]);
      hide Inv, Moves;
      StepKeeps(run[i - 1], t, val, run[i]);
    }
  }

  /** Whatever the threads do, the values come out in the order they went in, none lost and none twice, and the
      statistics say how many are left. */
  lemma FirstInFirstOut(run: seq<State>, i: nat)
    requires IsRun(run) && i < |run|
    ensures var s := run[i];
      s.taken + s.queue == s.added && |s.queue| <= s.maxCount && s.addCount - s.getCount == |s.queue|
  {
    Always(run, i);
    hide HolderIsInside, Covered, Attempted;
  }

  /** A get never gives up: whoever has called and not got a value is still at it; and every call to add has added its
      value, was refused, or is still before its test. */
  lemma AttemptsAreAccountedFor(run: seq<State>, i: nat)
    requires IsRun(run) && i < |run|
    ensures run[i].getAttempts - run[i].getCount == Sum(run[i].threads, Getting)
    ensures run[i].addAttempts - run[i].addCount == run[i].refused + Sum(run[i].threads, Adding)
  {
    Always(run, i);
    hide HolderIsInside, Covered, Accounted, Sum;
  }

  /** No wakeup is lost: a value that is there while a reader waits has a signalled reader coming for it, or the
      thread with the mutex will take one, signal, or look again. */
  lemma NoLostWakeup(run: seq<State>, i: nat, u: nat)
    requires IsRun(run) && i < |run| && Waits(run[i], u) && |run[i].queue| > 0
    ensures var s := run[i];
      (exists t: nat :: t < |s.threads| && s.threads[t].ReaderSignalled?) || Underway(s) == 1
  {
    Always(run, i);
    var s := run[i];
    hide Sum, IsRun, HolderIsInside, Accounted, Attempted;
    if forall t: nat :: t < |s.threads| ==> !s.threads[t].ReaderSignalled? {
      NoneSignalled(s);
    }
  }

  ghost predicate CanStep(s: State, t: nat) {
    exists val, s' :: Step(s, t, val, s')
  }

  lemma Steps(s: State, t: nat)
    requires HolderIsInside(s) && Accounted(s)
    requires t < |s.threads| && !Waits(s, t) && (s.holder == None || s.holder == Some(t))
    ensures CanStep(s, t)
  {
    match s.threads[t] {
      case ReaderIdle => assert Step(s, t, 0, Lock(s, t, ReaderChecking).(getAttempts := s.getAttempts + 1));
      case ReaderChecking =>
        assert Step(s, t, 0, if |s.queue| == 0 then Unlock(s, t, ReaderWaiting) else At(s, t, ReaderTaking));
      case ReaderTaking => assert Step(s, t, 0, At(Pop(s), t, ReaderUnlocking));
      case ReaderUnlocking => assert Step(s, t, 0, Unlock(s, t, ReaderIdle));
      case ReaderSignalled => assert Step(s, t, 0, Lock(s, t, ReaderChecking));
      case WriterIdle => assert Step(s, t, 0, Lock(s, t, WriterAdding).(addAttempts := s.addAttempts + 1));
      case WriterAdding => assert Step(s, t, 0, At(Put(s, 0), t, WriterSignalling));
      case WriterSignalling =>
        if u: nat :| Waits(s, u) {
          assert Signals(s, t, u, At(At(s, t, WriterUnlocking), u, ReaderSignalled));
          assert Step(s, t, 0, At(At(s, t, WriterUnlocking), u, ReaderSignalled));
        } else {
          assert Step(s, t, 0, At(s, t, WriterUnlocking));
        }
      case WriterUnlocking => assert Step(s, t, 0, Unlock(s, t, WriterIdle));
    }
  }

  ghost predicate AllWait(s: State) {
    forall t: nat :: t < |s.threads| ==> Waits(s, t)
  }

  lemma AllWaitOnlyWhenEmpty(s: State)
    requires Inv(s) && |s.threads| > 0 && AllWait(s)
    ensures s.queue == []
  {
    assert Waits(s, 0);
    assert s.holder.Some? ==> Waits(s, s.holder.value);
    forall t: nat | t < |s.threads| ensures !s.threads[t].ReaderSignalled? {
      assert Waits(s, t);
    }
    NoneSignalled(s);
  }

  /** Some thread can step without a spurious wake-up, unless all are readers that wait for a value of an empty queue.
      */
  lemma StuckOnlyWhenEmpty(run: seq<State>, i: nat)
    requires IsRun(run) && i < |run| && |run[i].threads| > 0
    ensures (exists t: nat :: CanStep(run[i], t)) || (run[i].queue == [] && AllWait(run[i]))
  {
    Always(run, i);
    var s := run[i];
    hide IsRun, CanStep, Covered, Attempted;
    if s.holder.Some? {
      Steps(s, s.holder.value);
    } else if t: nat :| t < |s.threads| && !Waits(s, t) {
      Steps(s, t);
    } else {
      AllWaitOnlyWhenEmpty(s);
    }
  }

  // ---------- What the calls do ----------

  /** queue_add puts the value at the end of a queue with room, and only a full one refuses it; it signals either way.
      */
  lemma AddAddsUnlessFull(s: State, t: nat, val: int, s': State)
    requires Step(s, t, val, s') && s.threads[t].WriterAdding?
    ensures |s.queue| != s.maxCount ==>
      && s'.queue == s.queue + [val] && s'.added == s.added + [val]
      && s'.addCount == s.addCount + 1 && s'.refused == s.refused
    ensures |s.queue| == s.maxCount ==>
      s'.queue == s.queue && s'.added == s.added && s'.addCount == s.addCount && s'.refused == s.refused + 1
    ensures s'.taken == s.taken && s'.getCount == s.getCount && s'.threads[t].WriterSignalling?
  {
  }

  /** queue_get takes the value at the front. */
  lemma GetTakesTheFront(s: State, t: nat, val: int, s': State)
    requires Step(s, t, val, s') && s.threads[t].ReaderTaking?
    ensures |s.queue| > 0 && s.queue == [s.queue[0]] + s'.queue && s'.taken == s.taken + [s.queue[0]]
    ensures s'.getCount == s.getCount + 1 && s'.added == s.added && s'.addCount == s.addCount && s'.refused == s.refused
  {
  }

  /** Nothing else that a thread does changes the queue or what has gone in or out. */
  lemma OtherStepsLeaveTheQueue(s: State, t: nat, val: int, s': State)
    requires Moves(s, t, val, s') && !s.threads[t].WriterAdding? && !s.threads[t].ReaderTaking?
    ensures s'.queue == s.queue && s'.added == s.added && s'.taken == s.taken && s'.refused == s.refused
    ensures s'.addCount == s.addCount && s'.getCount == s.getCount
  {
  }

  /** In every run, a refusal happens only while the queue is full. */
  lemma RefusedOnlyWhenFull(run: seq<State>, i: nat)
    requires IsRun(run) && i + 1 < |run| && run[i + 1].refused != run[i].refused
    ensures |run[i].queue| == run[i].maxCount && run[i + 1].refused == run[i].refused + 1
  {
    assert Follows(run[i], run[i + 1]) by {
      assert Follows(run[i + 1 - 1], run[i + 1]);
    }
    var t: nat, val :| Moves(run[i], t, val, run[i + 1]);
    if !run[i].threads[t].WriterAdding? && !run[i].threads[t].ReaderTaking? {
      OtherStepsLeaveTheQueue(run[i], t, val, run[i + 1]);
    }
  }

  // ---------- Every value can be had ----------

  predicate IsReader(pc: Pc) {
    || pc.ReaderIdle? || pc.ReaderChecking? || pc.ReaderTaking?
    || pc.ReaderUnlocking? || pc.ReaderWaiting? || pc.ReaderSignalled?
  }

  /** The steps up to the unlock. */
  function SectionLeft(pc: Pc): nat {
    match pc
    case ReaderChecking => 3
    case ReaderTaking => 2
    case ReaderUnlocking => 1
    case WriterAdding => 3
    case WriterSignalling => 2
    case WriterUnlocking => 1
    case _ => 0
  }

  /** Every step gets its thread on, and brings one with the mutex nearer to giving it up; readers stay readers. */
  lemma StepGetsOn(s: State, t: nat, val: int, s': State)
    requires Step(s, t, val, s')
    ensures t < |s.threads| == |s'.threads| && s'.threads[t] != s.threads[t]
    ensures Inside(s.threads[t]) ==> SectionLeft(s'.threads[t]) < SectionLeft(s.threads[t])
    ensures forall u: nat :: u < |s.threads| ==> (IsReader(s'.threads[u]) <==> IsReader(s.threads[u]))
    ensures s'.maxCount == s.maxCount
  {
  }

  ghost predicate Goes(s: State, s': State) {
    exists t: nat, val :: Step(s, t, val, s')
  }

  /** A continuation without spurious wake-ups. */
  ghost predicate Continues(run: seq<State>) {
    |run| > 0 && forall i {:trigger GoesAt(run, i)} :: 0 <= i && i + 1 < |run| ==> GoesAt(run, i)
  }

  ghost predicate GoesAt(run: seq<State>, i: int)
    requires 0 <= i && i + 1 < |run|
  {
    Goes(run[i], run[i + 1])
  }

  lemma GoesThen(s: State, run: seq<State>)
    requires Continues(run) && Goes(s, run[0])
    ensures Continues([s] + run)
  {
    var longer := [s] + run;
    forall i | 0 <= i && i + 1 < |longer| ensures GoesAt(longer, i) {
      if i > 0 {
        assert GoesAt(run, i - 1);
      }
    }
  }

  /** The thread with the mutex takes a value, or gives the mutex up and leaves the values there. */
  lemma {:induction false} SectionEnds(s: State, t: nat) returns (run: seq<State>)
    requires Inv(s) && s.holder == Some(t) && |s.queue| > 0
    ensures Continues(run) && run[0] == s && Inv(run[|run| - 1])
    ensures var last := run[|run| - 1];
      && |last.threads| == |s.threads|
      && (forall u: nat :: u < |s.threads| ==> (IsReader(last.threads[u]) <==> IsReader(s.threads[u])))
      && (|last.taken| > |s.taken| || (|last.taken| == |s.taken| && last.holder == None && |last.queue| > 0))
    decreases if t < |s.threads| then SectionLeft(s.threads[t]) else 0
  {
    assert t < |s.threads| && Inside(s.threads[t]);
    Steps(s, t);
    var val, s1 :| Step(s, t, val, s1);
    StepKeeps(s, t, val, s1);
    StepGetsOn(s, t, val, s1);
    assert Goes(s, s1);
    if s.threads[t].ReaderTaking? || s.threads[t].ReaderUnlocking? || s.threads[t].WriterUnlocking? {
      run := [s, s1];
      assert GoesAt(run, 0);
    } else {
      hide Inv, Continues, Inside, IsReader;
      run := SectionEnds(s1, t);
      GoesThen(s, run);
      run := [s] + run;
    }
  }

  /** With the mutex free and a value there, some reader is not waiting. */
  lemma SomeReaderComes(s: State, r: nat) returns (x: nat)
    requires Inv(s) && s.holder == None && |s.queue| > 0 && r < |s.threads| && IsReader(s.threads[r])
    ensures x < |s.threads| && (s.threads[x].ReaderIdle? || s.threads[x].ReaderSignalled?)
  {
    assert !Inside(s.threads[r]);
    if s.threads[r].ReaderWaiting? {
      assert Waits(s, r);
      if forall t: nat :: t < |s.threads| ==> !s.threads[t].ReaderSignalled? {
        NoneSignalled(s);
      }
      x :| x < |s.threads| && s.threads[x].ReaderSignalled?;
    } else {
      x := r;
    }
  }

  /** That reader takes the first value: it locks, looks and takes. */
  lemma ReaderGetsValue(s: State, x: nat) returns (run: seq<State>)
    requires HolderIsInside(s) && s.holder == None && |s.queue| > 0
    requires x < |s.threads| && (s.threads[x].ReaderIdle? || s.threads[x].ReaderSignalled?)
    ensures Continues(run) && run[0] == s && run[|run| - 1].taken == s.taken + [s.queue[0]]
  {
    var s1 := if s.threads[x].ReaderIdle? then Lock(s, x, ReaderChecking).(getAttempts := s.getAttempts + 1)
              else Lock(s, x, ReaderChecking);
    var s2 := At(s1, x, ReaderTaking);
    var s3 := At(Pop(s2), x, ReaderUnlocking);
    assert Step(s, x, 0, s1) && Step(s1, x, 0, s2) && Step(s2, x, 0, s3);
    run := [s, s1, s2, s3];
    assert Goes(s, s1) && Goes(s1, s2) && Goes(s2, s3);
    hide Step;
  }

  /** From every reachable state with a value in the queue and a reader somewhere, some continuation without spurious
      wake-ups hands a value out: no state strands what was added. */
  lemma ValuesCanBeHad(run: seq<State>, i: nat, r: nat) returns (on: seq<State>)
    requires IsRun(run) && i < |run| && |run[i].queue| > 0 && r < |run[i].threads| && IsReader(run[i].threads[r])
    ensures Continues(on) && on[0] == run[i] && |on[|on| - 1].taken| > |run[i].taken|
  {
    Always(run, i);
    on := ValueComes(run[i], r);
  }

  lemma ValueComes(s: State, r: nat) returns (on: seq<State>)
    requires Inv(s) && |s.queue| > 0 && r < |s.threads| && IsReader(s.threads[r])
    ensures Continues(on) && on[0] == s && |on[|on| - 1].taken| > |s.taken|
  {
    if s.holder == None {
      on := ValueComesToReader(s, r);
    } else {
      on := SectionEnds(s, s.holder.value);
      hide Inv, Continues, IsReader;
      var mid := on[|on| - 1];
      if |mid.taken| <= |s.taken| {
        var rest := ValueComesToReader(mid, r);
        Joined(on, rest);
        on := on + rest[1..];
      }
    }
  }

  lemma ValueComesToReader(s: State, r: nat) returns (on: seq<State>)
    requires Inv(s) && s.holder == None && |s.queue| > 0 && r < |s.threads| && IsReader(s.threads[r])
    ensures Continues(on) && on[0] == s && |on[|on| - 1].taken| > |s.taken|
  {
    var x := SomeReaderComes(s, r);
    on := ReaderGetsValue(s, x);
    hide Inv, Continues, IsReader;
  }

  lemma Joined(a: seq<State>, b: seq<State>)
    requires Continues(a) && Continues(b) && b[0] == a[|a| - 1]
    ensures Continues(a + b[1..]) && |b| > 0 && (a + b[1..])[0] == a[0] && (a + b[1..])[|a + b[1..]| - 1] == b[|b| - 1]
  {
    var c := a + b[1..];
    forall i | 0 <= i && i + 1 < |c| ensures GoesAt(c, i) {
      if i + 1 < |a| {
        assert GoesAt(a, i);
      } else {
        assert GoesAt(b, i - (|a| - 1));
        assert c[i] == b[i - (|a| - 1)] && c[i + 1] == b[i - (|a| - 1) + 1];
      }
    }
  }
}
