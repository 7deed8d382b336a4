/** The scheduler's variables and functions, against the machine of UThreadSpec.dfy. */
module UThread {
  import opened UThreadSpec

  class Scheduler {
    const uthreads: array<Context>
    var uthreadCount: nat
    var uthreadCurr: nat
    var uthreadFinishedCount: nat
    /** The context the processor is in. */
    var running: Context
    ghost var done: set<nat>
    ghost var calls: nat
    ghost var callsOf: map<nat, nat>

    ghost predicate Valid()
      reads this, uthreads
    {
      0 < uthreadCount <= uthreads.Length && uthreadCurr < uthreadCount
    }

    ghost function Value(): State
      requires Valid()
      reads this, uthreads
    {
      State(uthreads[..uthreadCount], uthreadCurr, uthreadFinishedCount, running, done, calls, callsOf)
    }

    /** main, up to and including the registration of its own slot. */
    constructor (maxThreads: nat)
      requires maxThreads > 0
      ensures Valid() && fresh(uthreads) && uthreads.Length == maxThreads && Value() == Start([])
    {
      uthreads := new Context[maxThreads](_ => Unset);
      uthreadCount, uthreadCurr, uthreadFinishedCount, running := 1, 0, 0, Main;
      done, calls, callsOf := {}, 0, map[];
    }

    /** uthread_create, for a thread that calls the scheduler `turns` times. */
    method Create(turns: nat, ghost before: seq<nat>)
      requires Valid() && uthreadCount < uthreads.Length && Value() == Start(before)
      modifies this, uthreads
      ensures Valid() && Value() == Start(before + [turns])
    {
      ghost var old_ := uthreads[..uthreadCount];
      uthreads[uthreadCount] := Thread(uthreadCount, turns);
      uthreadCount := uthreadCount + 1;
      assert uthreads[..uthreadCount] == old_ + [Thread(|old_|, turns)];
      assert Start(before + [turns]).slots == Start(before).slots + [Thread(|before| + 1, turns)];
    }

    /** uthread_shedule, with `saved` the place where its caller will go on. */
    method Shedule(saved: Context)
      requires Valid()
      modifies this, uthreads
      ensures Valid() && Value() == Schedule(old(Value()), saved)
    {
      ghost var counted := Counted(Value());
      var currCntx := uthreadCurr;
      uthreadCurr := NextSlot(uthreadCurr, uthreadCount);
      uthreads[currCntx] := saved;
      running := uthreads[uthreadCurr];
      calls, callsOf := calls + 1, counted;
      assert uthreads[..uthreadCount] == old(uthreads[..uthreadCount])[currCntx := saved];
    }

    /** The end of a thread's function: it counts itself, and its uc_link, the context of slot 0, goes on. */
    method ReturnFrom(slot: nat)
      requires Valid()
      modifies this
      ensures Valid() && Value() == Return(old(Value()), slot)
    {
      uthreadFinishedCount := uthreadFinishedCount + 1;
      running := uthreads[0];
      done := done + {slot};
    }

    /** What the running context does next: main calls the scheduler, a thread calls it or returns. */
    method GoOn()
      requires Valid() && Inv(Value()) && !Over(Value())
      modifies this, uthreads
      ensures Valid() && Value() == Tick(old(Value())) && uthreadCount == old(uthreadCount)
    {
      match running {
        case Main => Shedule(Main);
        case Thread(slot, k) =>
          if k > 0 {
            Shedule(Thread(slot, k - 1));
          } else {
            ReturnFrom(slot);
          }
      }
    }

    /** The loop of main, together with what the threads do while it waits in the scheduler.  It ends, and when it
        does the main program is running and every thread has returned; no thread that has returned ever runs again. */
    method RunToEnd() returns (ghost steps: nat)
      requires Valid() && Inv(Value())
      modifies this, uthreads
      ensures Valid() && Inv(Value()) && Value() == Ticks(old(Value()), steps)
      ensures running == Main && forall j :: 0 < j < uthreadCount ==> j in done
    {
      hide Inv, Tick, Ticks, NextDistance, TotalWork;
      steps := 0;
      ghost var s0 := Value();
      NoTicks(s0);
      while !(running.Main? && uthreadFinishedCount == uthreadCount - 1)
        invariant Valid() && Inv(Value()) && Value() == Ticks(s0, steps)
        invariant uthreadCount == old(uthreadCount)
        decreases TotalWork(Value(), uthreadCount), if running.Main? then NextDistance(Value()) else 0
      {
        TickKeepsInv(Value());
        TicksSnoc(s0, steps);
        Progress(Value());
        GoOn();
        steps := steps + 1;
      }
      OverMeansAllDone(Value());
    }
  }

  /** The program: main creates one thread for each number in `turns`, and lets them run.  At the end every thread has
      made exactly its calls of the scheduler, and has returned once. */
  method Program(turns: seq<nat>) returns (scheduler: Scheduler)
    ensures fresh(scheduler) && scheduler.Valid() && scheduler.uthreadCount == |turns| + 1
    ensures scheduler.running == Main && scheduler.uthreadFinishedCount == |turns|
    ensures forall j :: 0 < j <= |turns| ==> j in scheduler.done && CallsOf(scheduler.Value(), j) == turns[j - 1]
  {
    scheduler := new Scheduler(|turns| + 1);
    var i: nat := 0;
    assert turns[..i] == [];
    hide Start;
    while i < |turns|
      invariant i <= |turns| && fresh(scheduler) && fresh(scheduler.uthreads)
      invariant scheduler.Valid() && scheduler.uthreads.Length == |turns| + 1
      invariant scheduler.uthreadCount == i + 1 && scheduler.Value() == Start(turns[..i])
    {
      assert turns[..i + 1] == turns[..i] + [turns[i]];
      scheduler.Create(turns[i], turns[..i]);
      i := i + 1;
    }
    assert turns[..i] == turns;
    StartInv(turns);
    ghost var steps := scheduler.RunToEnd();
    OverMeansAllDone(scheduler.Value());
    forall j | 0 < j <= |turns| ensures CallsOf(scheduler.Value(), j) == turns[j - 1] {
      TurnsAreTaken(turns, steps, j);
    }
  }

  lemma NoTicks(s: State)
    requires s.curr < |s.slots|
    ensures Ticks(s, 0) == s
  {
  }

  lemma {:induction false} TicksSnoc(s: State, m: nat)
    requires s.curr < |s.slots|
    ensures Ticks(s, m + 1) == Tick(Ticks(s, m))
    decreases m
  {
    if m > 0 {
      TicksSnoc(Tick(s), m - 1);
    }
  }

  /** How far the first thread that has not returned is ahead. */
  ghost function NextDistance(s: State): nat
    requires s.curr < |s.slots|
  {
    Ahead(s, FirstUnfinished(s, 1))
  }

  ghost function FirstUnfinished(s: State, j: nat): (r: nat)
    requires 0 < j <= |s.slots|
    ensures j <= r <= |s.slots|
    ensures r < |s.slots| ==> Unfinished(s, r)
    ensures forall i :: j <= i < r ==> !Unfinished(s, i)
    decreases |s.slots| - j
  {
    if j == |s.slots| || Unfinished(s, j) then j else FirstUnfinished(s, j + 1)
  }

  /** Every step before the end makes progress. */
  lemma Progress(s: State)
    requires Inv(s) && !Over(s)
    ensures var s', n := Tick(s), |s.slots|;
      && |s'.slots| == n && s'.curr < n && s.running != Unset
      && if s.running.Thread? then TotalWork(s', n) < TotalWork(s, n)
         else TotalWork(s', n) == TotalWork(s, n) && (s'.running.Main? ==> NextDistance(s') < NextDistance(s))
              && NextDistance(s) > 0
  {
    hide NextSlot, TotalWork;
    if s.running.Thread? {
      ThreadProgresses(s);
    } else {
      OverMeansAllDone(s);
      var j := FirstUnfinished(s, 1);
      var k :| 0 < k < |s.slots| && k !in s.done;
      assert Unfinished(s, k);
      MainProgresses(s, j);
      var s' := Tick(s);
      assert s'.done == s.done;
      var j' := FirstUnfinished(s', 1);
      assert Unfinished(s', j) && (j' < |s.slots| ==> Unfinished(s, j'));
      assert j' == j;
    }
  }
}
