/** One writer that fills the queue and one reader that drains it, taking turns on two semaphores. */
module PingPong {
  import opened LinkedQueue

  /** `n` numbers from `i` on. */
  function Range(i: int, n: nat): (s: seq<int>)
    ensures |s| == n && forall k :: 0 <= k < n ==> s[k] == i + k
  {
    seq(n, k => i + k)
  }

  // ---------- What the threads do on their turns ----------

  /** `now` is `before` with the numbers from `i0` up to `i` behind it. */
  ghost predicate Filled(before: seq<int>, i0: int, now: seq<int>, i: int) {
    i0 <= i && now == before + Range(i0, i - i0)
  }

  lemma FilledNext(before: seq<int>, i0: int, now: seq<int>, i: int)
    requires Filled(before, i0, now, i)
    ensures Filled(before, i0, now + [i], i + 1)
  {
    assert Range(i0, i + 1 - i0) == Range(i0, i - i0) + [i];
  }

  /** The writer's loop: fills the queue with the numbers from `i0` on, and ends up at the next one. */
  method Fill(q: Queue, i0: int) returns (i: int)
    requires q.Valid()
    modifies q, q.nodes
    ensures q.Valid() && |q.Contents()| == q.count == q.maxCount
    ensures Filled(old(q.Contents()), i0, q.Contents(), i)
    ensures q.getCount == old(q.getCount) && q.addAttempts - old(q.addAttempts) == i - i0
  {
    i := i0;
    assert q.count == |q.Contents()| <= q.maxCount;
    assert Filled(q.Contents(), i0, q.Contents(), i0);
    hide Queue.Valid, Queue.Contents, Filled;
    while q.count < q.maxCount
      invariant q.Valid() && q.count == |q.Contents()| <= q.maxCount
      invariant Filled(old(q.Contents()), i0, q.Contents(), i)
      invariant q.getCount == old(q.getCount) && q.addAttempts - old(q.addAttempts) == i - i0
      invariant forall k :: 0 <= k < |q.nodes| ==> q.nodes[k] in old(q.nodes) || fresh(q.nodes[k])
      decreases q.maxCount - q.count
    {
      FilledNext(old(q.Contents()), i0, q.Contents(), i);
      var ok := q.Add(i);
      i := i + 1;
    }
  }

  /** How many values of `s` are not the one that follows the value before them, starting from `expected`. */
  function Surprises(s: seq<int>, expected: int): nat
    decreases |s|
  {
    if |s| == 0 then 0 else (if s[0] == expected then 0 else 1) + Surprises(s[1..], s[0] + 1)
  }

  /** The value that is expected after `seen`. */
  function ExpectedAfter(seen: seq<int>, expected0: int): int {
    if |seen| == 0 then expected0 else seen[|seen| - 1] + 1
  }

  /** Of the values `all`, `seen` are read and `rest` are left. */
  ghost predicate Drained(all: seq<int>, expected0: int, seen: seq<int>, rest: seq<int>, expected: int, errors: nat) {
    && all == seen + rest && expected == ExpectedAfter(seen, expected0)
    && Surprises(all, expected0) == errors + Surprises(rest, expected)
  }

  lemma DrainedNext(all: seq<int>, expected0: int, seen: seq<int>, val: int, rest: seq<int>, expected: int, errors: nat)
    requires Drained(all, expected0, seen, [val] + rest, expected, errors)
    ensures Drained(all, expected0, seen + [val], rest, val + 1, errors + if expected != val then 1 else 0)
  {
    assert ([val] + rest)[1..] == rest;
  }

  /** The reader's loop: takes everything out, and counts the values it reports as errors. */
  method Drain(q: Queue, expected0: int) returns (expected: int, errors: nat, ghost seen: seq<int>)
    requires q.Valid()
    modifies q
    ensures q.Valid() && q.Contents() == [] && seen == old(q.Contents())
    ensures errors == Surprises(seen, expected0) && expected == ExpectedAfter(seen, expected0)
  {
    expected, errors, seen := expected0, 0, [];
    assert q.count == |q.Contents()|;
    assert Drained(q.Contents(), expected0, [], q.Contents(), expected0, 0);
    hide Queue.Valid, Queue.Contents, Surprises, ExpectedAfter;
    while q.count > 0
      invariant q.Valid() && q.count == |q.Contents()|
      invariant Drained(old(q.Contents()), expected0, seen, q.Contents(), expected, errors)
      decreases q.count
    {
      hide Drained;
      var ok, val := q.Get();
      DrainedNext(old(q.Contents()), expected0, seen, val, q.Contents(), expected, errors);
      if expected != val {
        errors := errors + 1;
      }
      expected := val + 1;
      seen := seen + [val];
    }
    assert seen == seen + q.Contents() && Surprises([], expected) == 0;
  }

  /** The reader reports nothing exactly when it reads consecutive numbers from the one it expects. */
  lemma {:induction false} NoSurprises(s: seq<int>, expected: int)
    ensures Surprises(s, expected) == 0 <==> s == Range(expected, |s|)
  {
    if |s| > 0 {
      NoSurprises(s[1..], s[0] + 1);
      if s[0] == expected {
        assert Range(expected, |s|)[1..] == Range(expected + 1, |s| - 1);
        assert s == [s[0]] + s[1..];
        assert Range(expected, |s|) == [expected] + Range(expected + 1, |s| - 1);
      } else {
        assert Range(expected, |s|)[0] == expected;
      }
    }
  }

  // ---------- The protocol ----------

  datatype Pc = Waiting | Inside | Posting

  /** `seen` are the values the reader has read. */
  datatype State = State(semRead: nat, semWrite: nat, queue: seq<int>, maxCount: nat,
                         writer: Pc, i: int, reader: Pc, expected: int, errors: nat, seen: seq<int>)

  function Start(maxCount: nat): State {
    State(0, 1, [], maxCount, Waiting, 0, Waiting, 0, 0, [])
  }

  ghost predicate WriterStep(s: State, s': State) {
    match s.writer
    case Waiting => s.semWrite > 0 && s' == s.(semWrite := s.semWrite - 1, writer := Inside)
    case Inside =>
      s' == if |s.queue| < s.maxCount then s.(queue := s.queue + [s.i], i := s.i + 1) else s.(writer := Posting)
    case Posting => s' == s.(semRead := s.semRead + 1, writer := Waiting)
  }

  ghost predicate ReaderStep(s: State, s': State) {
    match s.reader
    case Waiting => s.semRead > 0 && s' == s.(semRead := s.semRead - 1, reader := Inside)
    case Inside =>
      s' == if |s.queue| == 0 then s.(reader := Posting)
            else var val := s.queue[0];
              s.(queue := s.queue[1..], seen := s.seen + [val], expected := val + 1,
                 errors := s.errors + if val == s.expected then 0 else 1)
    case Posting => s' == s.(semWrite := s.semWrite + 1, reader := Waiting)
  }

  function Count(pc: Pc): nat {
    if pc.Waiting? then 0 else 1
  }

  /** There is one turn to have: the writer has it, or the reader, or one of the semaphores offers it. */
  ghost predicate Inv(s: State) {
    && s.semRead + s.semWrite + Count(s.writer) + Count(s.reader) == 1
    && |s.queue| <= s.maxCount && s.errors == 0
    && (s.semWrite == 1 || s.reader.Posting? ==> s.queue == [])
    && (s.semRead == 1 || s.writer.Posting? ==> |s.queue| == s.maxCount)
    && s.seen == Range(0, |s.seen|) && s.expected == |s.seen|
    && s.queue == Range(s.expected, |s.queue|) && s.i == s.expected + |s.queue|
  }

  lemma WriterKeeps(s: State, s': State)
    requires Inv(s) && WriterStep(s, s')
    ensures Inv(s')
  {
  }

  lemma ReaderKeeps(s: State, s': State)
    requires Inv(s) && ReaderStep(s, s')
    ensures Inv(s')
  {
  }

  ghost predicate IsRun(run: seq<State>, maxCount: nat) {
    && |run| > 0 && run[0] == Start(maxCount)
    && forall k {:trigger run[k]} :: 0 < k < |run| ==> WriterStep(run[k - 1], run[k]) || ReaderStep(run[k - 1], run[k])
  }

  lemma {:induction false} Always(run: seq<State>, k: nat, maxCount: nat)
    requires IsRun(run, maxCount) && k < |run|
    ensures Inv(run[k])
  {
    if k > 0 {
      Always(run, k - 1, maxCount);
      if WriterStep(run[k - 1], run[k]) {
        WriterKeeps(run[k - 1], run[k]);
      } else {
        ReaderKeeps(run[k - 1], run[k]);
      }
    }
  }

  /** The threads are never inside together, the writer comes in to an empty queue and the reader to a full one. */
  lemma TurnsAlternate(run: seq<State>, k: nat, maxCount: nat)
    requires IsRun(run, maxCount) && 0 < k < |run|
    ensures run[k].writer.Waiting? || run[k].reader.Waiting?
    ensures run[k - 1].writer.Waiting? && !run[k].writer.Waiting? ==> run[k].queue == []
    ensures run[k - 1].reader.Waiting? && !run[k].reader.Waiting? ==> |run[k].queue| == maxCount
  {
    Always(run, k - 1, maxCount);
    Always(run, k, maxCount);
    var rounds := RunsOnSchedule(run, k, maxCount);
  }

  /** The reader reads 0, 1, 2 and so on, and never reports an error. */
  lemma ReadsInOrder(run: seq<State>, k: nat, maxCount: nat)
    requires IsRun(run, maxCount) && k < |run|
    ensures run[k].errors == 0 && forall j :: 0 <= j < |run[k].seen| ==> run[k].seen[j] == j
  {
    Always(run, k, maxCount);
  }

  // ---------- The schedule ----------

  /** The steps of one round: each of the two takes its semaphore, moves `maxCount` values, sees that it is done, and
      posts. */
  function RoundLength(maxCount: nat): nat {
    2 * (maxCount + 3)
  }

  /** How many steps of its round the system has made. */
  function StepsIntoRound(s: State): int {
    if s.writer.Inside? then 1 + |s.queue|
    else if s.writer.Posting? then s.maxCount + 2
    else if s.reader.Inside? then s.maxCount + 4 + s.maxCount - |s.queue|
    else if s.reader.Posting? then 2 * s.maxCount + 5
    else if s.semRead == 1 then s.maxCount + 3
    else 0
  }

  /** How many values have been read in this round. */
  function SeenInRound(s: State): int {
    if s.reader.Inside? then s.maxCount - |s.queue| else if s.reader.Posting? then s.maxCount else 0
  }

  /** After `k` steps and `rounds` whole rounds. */
  ghost predicate OnSchedule(s: State, k: nat, rounds: nat, maxCount: nat) {
    && s.maxCount == maxCount && 0 <= StepsIntoRound(s) < RoundLength(maxCount)
    && k == rounds * RoundLength(maxCount) + StepsIntoRound(s)
    && |s.seen| == rounds * maxCount + SeenInRound(s)
  }

  /** A step brings the round one step further, or ends it with all its values read. */
  lemma StepAdvances(s: State, s': State)
    requires Inv(s) && (WriterStep(s, s') || ReaderStep(s, s'))
    ensures s'.maxCount == s.maxCount && 0 <= StepsIntoRound(s') < RoundLength(s.maxCount)
    ensures
      || (StepsIntoRound(s') == StepsIntoRound(s) + 1
          && |s'.seen| - |s.seen| == SeenInRound(s') - SeenInRound(s))
      || (StepsIntoRound(s) + 1 == RoundLength(s.maxCount) && StepsIntoRound(s') == 0
          && s'.seen == s.seen && SeenInRound(s) == s.maxCount && SeenInRound(s') == 0)
  {
  }

  lemma OneMoreRound(rounds: nat, n: nat)
    ensures (rounds + 1) * n == rounds * n + n
  {
  }

  /** Every run keeps to the schedule: the number of steps alone says where it is, and after `rounds` rounds the
      reader has read `rounds` times `maxCount` values. */
  lemma {:induction false} RunsOnSchedule(run: seq<State>, k: nat, maxCount: nat) returns (rounds: nat)
    requires IsRun(run, maxCount) && k < |run|
    ensures OnSchedule(run[k], k, rounds, maxCount)
  {
    if k == 0 {
      rounds := 0;
    } else {
      rounds := RunsOnSchedule(run, k - 1, maxCount);
      Always(run, k - 1, maxCount);
      var s, s' := run[k - 1], run[k];
      assert WriterStep(s, s') || ReaderStep(s, s');
      hide IsRun;
      StepAdvances(s, s');
      hide Inv, WriterStep, ReaderStep, StepsIntoRound, SeenInRound;
      if StepsIntoRound(s) + 1 == RoundLength(maxCount) {
        OneMoreRound(rounds, RoundLength(maxCount));
        OneMoreRound(rounds, maxCount);
        rounds := rounds + 1;
      }
    }
  }

  ghost predicate WriterCanStep(s: State) {
    exists s' :: WriterStep(s, s')
  }

  ghost predicate ReaderCanStep(s: State) {
    exists s' :: ReaderStep(s, s')
  }

  lemma WriterSteps(s: State)
    ensures WriterCanStep(s) <==> !s.writer.Waiting? || s.semWrite > 0
  {
    match s.writer {
      case Waiting =>
        if s.semWrite > 0 {
          assert WriterStep(s, s.(semWrite := s.semWrite - 1, writer := Inside));
        }
      case Inside =>
        assert WriterStep(s, if |s.queue| < s.maxCount then s.(queue := s.queue + [s.i], i := s.i + 1)
                             else s.(writer := Posting));
      case Posting => assert WriterStep(s, s.(semRead := s.semRead + 1, writer := Waiting));
    }
  }

  lemma ReaderSteps(s: State)
    ensures ReaderCanStep(s) <==> !s.reader.Waiting? || s.semRead > 0
  {
    match s.reader {
      case Waiting =>
        if s.semRead > 0 {
          assert ReaderStep(s, s.(semRead := s.semRead - 1, reader := Inside));
        }
      case Inside =>
        if |s.queue| == 0 {
          assert ReaderStep(s, s.(reader := Posting));
        } else {
          assert ReaderStep(s, s.(queue := s.queue[1..], seen := s.seen + [s.queue[0]], expected := s.queue[0] + 1,
                                  errors := s.errors + if s.queue[0] == s.expected then 0 else 1));
        }
      case Posting => assert ReaderStep(s, s.(semWrite := s.semWrite + 1, reader := Waiting));
    }
  }

  /** One of the two can always go on, and never both. */
  lemma ExactlyOneCanStep(run: seq<State>, k: nat, maxCount: nat)
    requires IsRun(run, maxCount) && k < |run|
    ensures WriterCanStep(run[k]) <==> !ReaderCanStep(run[k])
  {
    Always(run, k, maxCount);
    WriterSteps(run[k]);
    ReaderSteps(run[k]);
    hide WriterCanStep, ReaderCanStep, IsRun;
  }

  // ---------- A turn of the protocol is a run of the loop ----------

  ghost predicate WriterGoesOn(run: seq<State>, k: nat)
    requires k + 1 < |run|
  {
    run[k].writer.Inside? && WriterStep(run[k], run[k + 1])
  }

  /** The writer's steps inside, from its loop test to the end of the loop. */
  ghost predicate IsWriterTurn(run: seq<State>) {
    |run| > 0 && run[|run| - 1].writer.Posting? && forall k: nat :: k + 1 < |run| ==> WriterGoesOn(run, k)
  }

  ghost predicate ReaderGoesOn(run: seq<State>, k: nat)
    requires k + 1 < |run|
  {
    run[k].reader.Inside? && ReaderStep(run[k], run[k + 1])
  }

  ghost predicate IsReaderTurn(run: seq<State>) {
    |run| > 0 && run[|run| - 1].reader.Posting? && forall k: nat :: k + 1 < |run| ==> ReaderGoesOn(run, k)
  }

  lemma WriterTurnTail(run: seq<State>)
    requires IsWriterTurn(run) && |run| > 1
    ensures WriterGoesOn(run, 0) && IsWriterTurn(run[1..])
  {
    assert WriterGoesOn(run, 0);
    forall k: nat | k + 1 < |run[1..]| ensures WriterGoesOn(run[1..], k) {
      assert WriterGoesOn(run, k + 1);
    }
  }

  lemma ReaderTurnTail(run: seq<State>)
    requires IsReaderTurn(run) && |run| > 1
    ensures ReaderGoesOn(run, 0) && IsReaderTurn(run[1..])
  {
    assert ReaderGoesOn(run, 0);
    forall k: nat | k + 1 < |run[1..]| ensures ReaderGoesOn(run[1..], k) {
      assert ReaderGoesOn(run, k + 1);
    }
  }

  lemma FilledBehind(before: seq<int>, i0: int, now: seq<int>, i: int)
    requires Filled(before, i0, now, i) && |now| > |before|
    ensures Filled(before + [i0], i0 + 1, now, i)
  {
    assert Range(i0, i - i0) == [i0] + Range(i0 + 1, i - (i0 + 1));
  }

  /** What `Fill` ensures of the linked queue is what the turn does to the sequence. */
  lemma {:induction false} WriterTurnIsFill(run: seq<State>, now: seq<int>, i: int)
    requires IsWriterTurn(run) && run[0].writer.Inside? && |run[0].queue| <= run[0].maxCount
    requires Filled(run[0].queue, run[0].i, now, i) && |now| == run[0].maxCount
    ensures run[|run| - 1] == run[0].(writer := Posting, queue := now, i := i)
    decreases |run|
  {
    var s, rest := run[0], run[1..];
    WriterTurnTail(run);
    hide IsWriterTurn;
    if |s.queue| < s.maxCount {
      FilledBehind(s.queue, s.i, now, i);
      hide Filled;
      WriterTurnIsFill(rest, now, i);
    } else {
      AfterWriterTurn(rest);
    }
  }

  lemma AfterWriterTurn(run: seq<State>)
    requires IsWriterTurn(run) && run[0].writer.Posting?
    ensures |run| == 1
  {
    if |run| > 1 {
      WriterTurnTail(run);
    }
  }

  lemma AfterReaderTurn(run: seq<State>)
    requires IsReaderTurn(run) && run[0].reader.Posting?
    ensures |run| == 1
  {
    if |run| > 1 {
      ReaderTurnTail(run);
    }
  }

  /** What `Drain` ensures of the linked queue and of its report is what the turn does. */
  lemma {:induction false} ReaderTurnIsDrain(run: seq<State>)
    requires IsReaderTurn(run) && run[0].reader.Inside?
    ensures var s := run[0];
      run[|run| - 1] ==
        s.(reader := Posting, queue := [], seen := s.seen + s.queue, expected := ExpectedAfter(s.queue, s.expected),
           errors := s.errors + Surprises(s.queue, s.expected))
    decreases |run|
  {
    var s, rest := run[0], run[1..];
    ReaderTurnTail(run);
    hide IsReaderTurn;
    if |s.queue| > 0 {
      ReaderTurnIsDrain(rest);
      assert s.seen + [s.queue[0]] + s.queue[1..] == s.seen + s.queue;
    } else {
      AfterReaderTurn(rest);
      assert s.seen + s.queue == s.seen;
    }
  }
}
