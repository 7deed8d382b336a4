/** The user-level round-robin scheduler as a machine on values: contexts saved in slots, one of them running. */
module UThreadSpec {

  /** A saved or running context: the main program at its loop, or thread `slot` with some calls of the scheduler still
      to make before it returns.  A slot that was never saved to is unset. */
  datatype Context = Unset | Main | Thread(slot: nat, yieldsLeft: nat)

  /** `slots`, `curr` and `finished` are the program's variables, `running` is the processor.  `done` are the threads
      that have returned `calls` counts the calls of the scheduler and `callsOf` those of each slot's context;
      the program does not keep them. */
  datatype State = State(slots: seq<Context>, curr: nat, finished: nat, running: Context,
                         done: set<nat>, calls: nat, callsOf: map<nat, nat>)

  /** The number of threads; slot 0 is the main program's. */
  function Threads(s: State): nat
    requires |s.slots| > 0
  {
    |s.slots| - 1
  }

  /** main's state before its loop: every thread created, none started. */
  function Start(turns: seq<nat>): State {
    State([Unset] + seq(|turns|, i requires 0 <= i < |turns| => Thread(i + 1, turns[i])), 0, 0, Main, {}, 0,
          map[])
  }

  function NextSlot(curr: nat, count: nat): (next: nat)
    requires curr < count
    ensures next == if curr + 1 == count then 0 else curr + 1
  {
    (curr + 1) % count
  }

  /** uthread_shedule, called by the running context: `saved` is where it will go on. */
  function Schedule(s: State, saved: Context): State
    requires s.curr < |s.slots|
  {
    var slots := s.slots[s.curr := saved];
    var next := NextSlot(s.curr, |s.slots|);
    s.(slots := slots, curr := next, running := slots[next], calls := s.calls + 1, callsOf := Counted(s))
  }

  /** How often thread `j`, or main for 0, has called the scheduler. */
  function CallsOf(s: State, j: nat): nat {
    if j in s.callsOf then s.callsOf[j] else 0
  }

  /** The running context's call is counted. */
  function Counted(s: State): map<nat, nat> {
    var j := if s.running.Thread? then s.running.slot else 0;
    s.callsOf[j := CallsOf(s, j) + 1]
  }

  /** A thread returns: the context in slot 0 goes on, and `curr` stays. */
  function Return(s: State, slot: nat): State
    requires |s.slots| > 0
  {
    s.(finished := s.finished + 1, running := s.slots[0], done := s.done + {slot})
  }

  predicate Over(s: State)
    requires |s.slots| > 0
  {
    s.running.Main? && s.finished == Threads(s)
  }

  /** What the running context does next. */
  function Tick(s: State): State
    requires s.curr < |s.slots|
  {
    match s.running
    case Main => if s.finished == Threads(s) then s else Schedule(s, Main)
    case Thread(slot, k) => if k > 0 then Schedule(s, Thread(slot, k - 1)) else Return(s, slot)
    case Unset => s
  }

  // ---------- The invariant ----------

  ghost predicate Unfinished(s: State, j: nat) {
    0 < j < |s.slots| && j !in s.done
  }

  /** Slot 0 and the slots of finished threads hold the main program, the others their own thread; only the slot of
      the running context is out of date.  The main program runs in slot 0 or in the slot of a finished thread. */
  ghost predicate Inv(s: State) {
    && s.curr < |s.slots|
    && (forall j :: j in s.done ==> 0 < j < |s.slots|) && |s.done| == s.finished
    && (forall j :: 0 <= j < |s.slots| && j != s.curr ==>
          if Unfinished(s, j) then s.slots[j].Thread? && s.slots[j].slot == j else s.slots[j] == Main)
    && (match s.running
        case Main => !Unfinished(s, s.curr)
        case Thread(slot, _) => slot == s.curr && Unfinished(s, slot)
        case Unset => false)
  }

  lemma StartInv(turns: seq<nat>)
    ensures Inv(Start(turns))
  {
  }

  lemma TickKeepsInv(s: State)
    requires Inv(s)
    ensures Inv(Tick(s))
  {
    if s.running.Thread? && s.running.yieldsLeft == 0 {
      assert s.curr != 0 && !Unfinished(s, 0);
    }
  }

  // ---------- Termination ----------

  /** The calls and the return that thread `j` still has to make. */
  ghost function Work(s: State, j: nat): nat
    requires j < |s.slots|
  {
    if !Unfinished(s, j) then 0
    else
      var c := if j == s.curr then s.running else s.slots[j];
      if c.Thread? then c.yieldsLeft + 1 else 0
  }

  ghost function TotalWork(s: State, n: nat): nat
    requires n <= |s.slots|
  {
    if n == 0 then 0 else TotalWork(s, n - 1) + Work(s, n - 1)
  }

  /** Two states that differ in the work of `j` alone. */
  lemma {:induction false} WorkChanges(s: State, s': State, n: nat, j: nat)
    requires j < |s.slots| == |s'.slots| && n <= |s.slots|
    requires forall i :: 0 <= i < |s.slots| && i != j ==> Work(s, i) == Work(s', i)
    ensures TotalWork(s', n) - TotalWork(s, n) == if n <= j then 0 else Work(s', j) - Work(s, j)
  {
    if n > 0 {
      WorkChanges(s, s', n - 1, j);
    }
  }

  /** How many calls of the scheduler until slot `j` is current again. */
  function Ahead(s: State, j: nat): nat
    requires s.curr < |s.slots|
  {
    if j > s.curr then j - s.curr else j + |s.slots| - s.curr
  }

  lemma {:induction false} AtMost(a: set<nat>, n: nat)
    requires 0 < n && forall j :: j in a ==> 0 < j < n
    ensures |a| < n
  {
    if n > 1 {
      var rest := a - {n - 1};
      AtMost(rest, n - 1);
      assert n - 1 in a ==> a == rest + {n - 1};
      assert n - 1 !in a ==> a == rest;
    } else {
      assert a == {};
    }
  }

  /** While a thread has not returned, the count of finished threads is short of their number. */
  lemma UnfinishedIsMissed(s: State, goal: nat)
    requires Inv(s) && Unfinished(s, goal)
    ensures s.finished < Threads(s)
  {
    AtMost(s.done + {goal}, |s.slots|);
  }

  /** A step of a thread uses up one unit of work. */
  lemma ThreadProgresses(s: State)
    requires Inv(s) && s.running.Thread?
    ensures TotalWork(Tick(s), |s.slots|) == TotalWork(s, |s.slots|) - 1
  {
    var s', j := Tick(s), s.curr;
    if s.running.yieldsLeft > 0 {
      assert Work(s', j) == Work(s, j) - 1;
    } else {
      assert Work(s', j) == 0 && Work(s, j) == 1;
    }
    WorkChanges(s, s', |s.slots|, j);
  }

  /** A step of the main program does no work of the threads', and brings each of them one slot nearer. */
  lemma MainProgresses(s: State, goal: nat)
    requires Inv(s) && s.running.Main? && Unfinished(s, goal)
    ensures var s' := Tick(s);
      && TotalWork(s', |s.slots|) == TotalWork(s, |s.slots|)
      && (s'.running.Main? ==> Ahead(s', goal) == Ahead(s, goal) - 1)
  {
    UnfinishedIsMissed(s, goal);
    hide NextSlot;
    var s' := Tick(s);
    assert forall i :: 0 <= i < |s.slots| && i != s.curr ==> s'.slots[i] == s.slots[i];
    forall i | 0 <= i < |s.slots| ensures Work(s, i) == Work(s', i) {
    }
    WorkChanges(s, s', |s.slots|, s.curr);
  }

  /** All threads have returned exactly when as many have as there are. */
  lemma OverMeansAllDone(s: State)
    requires Inv(s)
    ensures s.finished == Threads(s) <==> forall j :: 0 < j < |s.slots| ==> j in s.done
  {
    if j :| 0 < j < |s.slots| && j !in s.done {
      UnfinishedIsMissed(s, j);
    } else {
      AtLeast(s.done, |s.slots|);
      AtMost(s.done, |s.slots|);
    }
  }

  lemma {:induction false} AtLeast(a: set<nat>, n: nat)
    requires 0 < n && forall j :: 0 < j < n ==> j in a
    ensures |a| >= n - 1
  {
    if n > 1 {
      AtLeast(a - {n - 1}, n - 1);
    }
  }

  // ---------- The calls that threads were created for ----------

  function SumOf(turns: seq<nat>): nat {
    if |turns| == 0 then 0 else SumOf(turns[..|turns| - 1]) + turns[|turns| - 1]
  }

  /** At the start each thread has all its calls and its return before it. */
  lemma StartWork(turns: seq<nat>, j: nat)
    requires 0 < j <= |turns|
    ensures Work(Start(turns), j) == turns[j - 1] + 1
  {
  }

  lemma {:induction false} StartTotal(turns: seq<nat>, n: nat)
    requires n <= |turns|
    ensures TotalWork(Start(turns), n + 1) == SumOf(turns[..n]) + n
  {
    if n == 0 {
      assert TotalWork(Start(turns), 0) == 0 && Work(Start(turns), 0) == 0;
    } else {
      StartTotal(turns, n - 1);
      StartWork(turns, n);
      assert turns[..n][..n - 1] == turns[..n - 1];
    }
  }

  /** Every thread has made the calls it was created for, but those that it still has to make. */
  ghost predicate OnAccount(s: State, turns: seq<nat>) {
    && |s.slots| == |turns| + 1
    && forall j :: 0 < j <= |turns| ==>
         CallsOf(s, j) + Work(s, j) == turns[j - 1] + if j in s.done then 0 else 1
  }

  lemma StartOnAccount(turns: seq<nat>)
    ensures OnAccount(Start(turns), turns)
  {
    forall j | 0 < j <= |turns| ensures CallsOf(Start(turns), j) + Work(Start(turns), j) == turns[j - 1] + 1 {
      StartWork(turns, j);
    }
  }

  lemma TickKeepsAccount(s: State, turns: seq<nat>)
    requires Inv(s) && OnAccount(s, turns)
    ensures OnAccount(Tick(s), turns)
  {
    var s' := Tick(s);
    forall j | 0 < j <= |turns|
      ensures CallsOf(s', j) + Work(s', j) == turns[j - 1] + if j in s'.done then 0 else 1
    {
      assert CallsOf(s, j) + Work(s, j) == turns[j - 1] + if j in s.done then 0 else 1;
    }
  }

  lemma {:induction false} TicksKeepAccount(s: State, m: nat, turns: seq<nat>)
    requires Inv(s) && OnAccount(s, turns)
    ensures OnAccount(Ticks(s, m), turns)
    decreases m
  {
    assert s.curr < |s.slots|;
    hide Inv, OnAccount, Tick;
    if m > 0 {
      TickKeepsInv(s);
      TickKeepsAccount(s, turns);
      TicksKeepAccount(Tick(s), m - 1, turns);
    }
  }

  /** In every state of every run, a thread that has returned has made exactly the calls it was created for, and one
      that has not makes exactly the rest before it returns. */
  lemma TurnsAreTaken(turns: seq<nat>, m: nat, j: nat)
    requires 0 < j <= |turns|
    ensures var s := Ticks(Start(turns), m);
      && |s.slots| == |turns| + 1
      && (j in s.done ==> CallsOf(s, j) == turns[j - 1])
      && (j !in s.done ==> CallsOf(s, j) + Work(s, j) == turns[j - 1] + 1)
  {
    StartInv(turns);
    StartOnAccount(turns);
    TicksKeepAccount(Start(turns), m, turns);
  }

  // ---------- Turns ----------

  function Ticks(s: State, m: nat): (r: State)
    requires s.curr < |s.slots|
    ensures |r.slots| == |s.slots| && r.curr < |r.slots|
    decreases m
  {
    if m == 0 then s else Ticks(Tick(s), m - 1)
  }

  lemma {:induction false} TicksKeepInv(s: State, m: nat)
    requires Inv(s)
    ensures Inv(Ticks(s, m))
    decreases m
  {
    if m > 0 {
      TickKeepsInv(s);
      TicksKeepInv(Tick(s), m - 1);
    }
  }

  /** In every state of every run: a thread that runs is in its own slot and has not returned; the slot of every other
      thread that has not returned holds that thread, and all other slots but the current one hold the main program. */
  lemma EveryState(turns: seq<nat>, m: nat)
    ensures var s := Ticks(Start(turns), m);
      && (s.running.Thread? ==> s.curr == s.running.slot && s.running.slot !in s.done)
      && s.running != Unset
      && forall j :: 0 <= j < |s.slots| && j != s.curr ==>
           if 0 < j && j !in s.done then s.slots[j].Thread? && s.slots[j].slot == j else s.slots[j] == Main
  {
    StartInv(turns);
    TicksKeepInv(Start(turns), m);
  }

  /** Until the turn of `j` comes, its slot is left alone and each call brings it one slot nearer. */
  lemma NotYet(s: State, j: nat)
    requires Inv(s) && Unfinished(s, j) && j != s.curr
    requires Tick(s).calls == s.calls || Tick(s).curr != j
    ensures var s' := Tick(s);
      && Unfinished(s', j) && j != s'.curr && s'.slots[j] == s.slots[j] && |s'.slots| == |s.slots|
      && s'.calls - s.calls == Ahead(s, j) - Ahead(s', j)
      && (s'.calls == s.calls || s'.calls == s.calls + 1)
      && (s'.calls == s.calls ==> s.running.Thread? && s.running.yieldsLeft == 0 && s'.running.Main?)
  {
    hide NextSlot;
    UnfinishedIsMissed(s, j);
    TickKeepsInv(s);
  }

  /** Every thread that has not returned, from any state of any run, gets the processor again in its own saved
      context after at most as many calls of the scheduler as there are slots: exactly when its slot comes round. */
  lemma {:induction false} TurnComes(s: State, j: nat) returns (m: nat)
    requires Inv(s) && Unfinished(s, j) && j != s.curr
    ensures var r := Ticks(s, m);
      r.running == s.slots[j] && r.curr == j && r.calls - s.calls == Ahead(s, j) <= |s.slots|
    decreases Ahead(s, j), s.running.Thread? && s.running.yieldsLeft == 0
  {
    TickKeepsInv(s);
    assert s.curr < |s.slots|;
    hide Inv, Tick, Unfinished, Ahead, NextSlot;
    var s' := Tick(s);
    if s'.calls > s.calls && s'.curr == j {
      m := 1;
      TurnIsHere(s, j);
      assert Ticks(s, 1) == Ticks(s', 0);
    } else {
      CallsOnly(s, j);
      NotYet(s, j);
      m := TurnComes(s', j);
      m := m + 1;
    }
  }

  lemma CallsOnly(s: State, j: nat)
    requires Inv(s) && Unfinished(s, j) && j != s.curr
    ensures Tick(s).calls == s.calls || Tick(s).calls == s.calls + 1
    ensures Ahead(s, j) <= |s.slots|
  {
  }

  lemma TurnIsHere(s: State, j: nat)
    requires Inv(s) && Unfinished(s, j) && j != s.curr
    requires Tick(s).calls > s.calls && Tick(s).curr == j
    ensures Tick(s).running == s.slots[j] && Tick(s).calls == s.calls + 1
    ensures Ahead(s, j) == 1 <= |s.slots|
  {
  }
}
