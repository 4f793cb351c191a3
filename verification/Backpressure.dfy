/**
 * Pausing and resuming one connection bound to one ring, with the consumer running between any
 * two loads. Only the counters matter here; every load the engine makes is a step of its own.
 */
module Backpressure {
  import opened RingGeometry
  import opened BodyRing
  import opened Modular
  import Protocol = RingProtocol
  import Words = RingWrap

  /** Where the engine thread stands, with what it has loaded. */
  datatype Engine =
    | Outside
    | Filling(t: nat)          // net_read: tail loaded, slices computed
    | Committed                // net_read: head advanced
    | Deciding(occupied: int)  // net_read: occupancy loaded again
    | Polling(occupied: int)   // poll: occupancy of a paused connection loaded

  datatype State = State(head: nat, tail: nat, paused: bool, registered: bool, pauses: nat, engine: Engine)

  datatype Step =
    | BeginRead
    | FinishRead(n: nat)       // the vectored read returned n > 0 and was committed
    | FailRead                 // it returned nothing or an error
    | LoadAfterRead
    | PauseIfHigh
    | LoadInPoll
    | ResumeIfLow
    | Consume(n: nat)

  function Init(): State {
    State(0, 0, false, true, 0, Outside)
  }

  predicate Enabled(c: nat, s: State, step: Step) {
    match step
    case BeginRead => s.engine.Outside?
    case FinishRead(n) => s.engine.Filling? && 0 < n <= c - (s.head - s.engine.t)
    case FailRead => s.engine.Filling?
    case LoadAfterRead => s.engine.Committed?
    case PauseIfHigh => s.engine.Deciding?
    case LoadInPoll => s.engine.Outside? && s.paused
    case ResumeIfLow => s.engine.Polling?
    case Consume(n) => n <= s.head - s.tail
  }

  function Do(c: nat, s: State, step: Step): State
    requires Enabled(c, s, step)
  {
    match step
    case BeginRead => if s.head - s.tail >= c then s else s.(engine := Filling(s.tail))
    case FinishRead(n) => s.(head := s.head + n, engine := Committed)
    case FailRead => s.(engine := Outside)
    case LoadAfterRead => s.(engine := Deciding(s.head - s.tail))
    case PauseIfHigh =>
      if ShouldStop(s.engine.occupied, c) then
        s.(paused := true, registered := false, pauses := if s.paused then s.pauses else s.pauses + 1,
           engine := Outside)
      else s.(engine := Outside)
    case LoadInPoll => s.(engine := Polling(s.head - s.tail))
    case ResumeIfLow =>
      if ShouldResume(s.engine.occupied, c) then s.(paused := false, registered := true, engine := Outside)
      else s.(engine := Outside)
    case Consume(n) => s.(tail := s.tail + n)
  }

  predicate IsRun(c: nat, s: State, steps: seq<Step>)
    decreases |steps|
  {
    steps == [] || (Enabled(c, s, steps[0]) && IsRun(c, Do(c, s, steps[0]), steps[1..]))
  }

  function Final(c: nat, s: State, steps: seq<Step>): State
    requires IsRun(c, s, steps)
    decreases |steps|
  {
    if steps == [] then s else Final(c, Do(c, s, steps[0]), steps[1..])
  }

  /** Bytes the consumer must take between a pause and the resume after it. */
  function Gap(c: nat): nat {
    HighMark(c) - LowMark(c) + 2
  }

  ghost predicate Inv(c: nat, s: State) {
    && Occupancy(s.head, s.tail, c)
    && (s.registered <==> !s.paused)
    // what the pauses so far have cost
    && (s.pauses > 0 ==> (s.pauses - 1) * Gap(c) <= s.tail)
    && (s.paused ==> s.pauses > 0 && (s.pauses - 1) * Gap(c) + HighMark(c) + 1 <= s.head)
    && (!s.paused ==> s.pauses * Gap(c) <= s.tail)
    // what has been loaded may be out of date, but only in one direction
    && (s.engine.Filling? ==> s.engine.t <= s.tail)
    && (s.engine.Deciding? ==>
          && s.head - s.tail <= s.engine.occupied <= s.head
          && (!s.paused ==> s.pauses * Gap(c) <= s.head - s.engine.occupied))
    && (s.engine.Polling? ==> s.paused && s.head - s.tail <= s.engine.occupied <= s.head)
  }

  lemma StepKeeps(c: nat, s: State, step: Step)
    requires Inv(c, s) && Enabled(c, s, step)
    ensures Inv(c, Do(c, s, step))
    ensures s.tail <= Do(c, s, step).tail && s.pauses <= Do(c, s, step).pauses
    ensures step.BeginRead? ==> (Do(c, s, step).engine.Filling? <==> s.head < s.tail + c)
  {
    assert s.pauses > 0 ==> s.pauses * Gap(c) == (s.pauses - 1) * Gap(c) + Gap(c);
  }

  /**
   * Over every run: registered exactly when not paused, and each pause after the first has
   * been paid for with at least a gap's worth of consumed bytes (tail counts those).
   */
  lemma {:induction false} PausesArePaidFor(c: nat, s: State, steps: seq<Step>)
    requires Inv(c, s) && IsRun(c, s, steps)
    ensures Inv(c, Final(c, s, steps))
    ensures s.tail <= Final(c, s, steps).tail && s.pauses <= Final(c, s, steps).pauses
    decreases |steps|
  {
    hide Inv, Do, Enabled;
    if steps != [] {
      StepKeeps(c, s, steps[0]);
      PausesArePaidFor(c, Do(c, s, steps[0]), steps[1..]);
    }
  }

  lemma PauseBound(c: nat, steps: seq<Step>)
    requires c > 0 && IsRun(c, Init(), steps)
    ensures var s := Final(c, Init(), steps);
            && (s.registered <==> !s.paused)
            && s.head <= s.tail + c
            && (s.pauses as int - 1) * (c * 95 / 100 - c * 50 / 100 + 2) <= s.tail
  {
    PausesArePaidFor(c, Init(), steps);
    var s := Final(c, Init(), steps);
    if s.pauses == 0 {
      assert -1 * Gap(c) <= 0;
    }
  }

  /** With 64-bit wrapping counters the watermark tests give the same answers. */
  lemma WatermarksSurviveWrapping(c: nat, head: nat, tail: nat)
    requires Occupancy(head, tail, c) && c < WORD
    ensures var occupied := Protocol.Minus(Protocol.Wrapping, head % WORD, tail % WORD);
            && (ShouldStop(occupied, c) <==> ShouldStop(head - tail, c))
            && (ShouldResume(occupied, c) <==> ShouldResume(head - tail, c))
  {
    Words.WordDifference(head, tail);
  }

  /** The two steps of a poll, as far as this connection is concerned. */
  function Poll(c: nat, s: State): State
    requires s.engine.Outside?
  {
    if s.paused then Do(c, Do(c, s, LoadInPoll), ResumeIfLow) else s
  }

  /** A poll that finds the ring empty ends the pause, unless the ring is a single byte. */
  lemma EmptyRingResumes(c: nat, s: State)
    requires Inv(c, s) && s.engine.Outside? && s.paused && s.head == s.tail
    ensures Poll(c, s).registered <==> c >= 2
  {
  }

  /**
   * A capacity is live when no run gets stuck: a paused connection can always be resumed by
   * consuming what is there and polling. Exactly the capacities of two or more are live.
   */
  ghost predicate Live(c: nat) {
    forall steps :: IsRun(c, Init(), steps) && Final(c, Init(), steps).paused ==>
                      exists more :: CanResume(c, Final(c, Init(), steps), more)
  }

  ghost predicate CanResume(c: nat, s: State, more: seq<Step>) {
    IsRun(c, s, more) && !Final(c, s, more).paused
  }

  lemma NoSteps(c: nat, s: State)
    ensures IsRun(c, s, []) && Final(c, s, []) == s
  {
  }

  lemma OneStep(c: nat, s: State, step: Step, rest: seq<Step>) returns (steps: seq<Step>)
    requires Enabled(c, s, step) && IsRun(c, Do(c, s, step), rest)
    ensures steps == [step] + rest && IsRun(c, s, steps) && Final(c, s, steps) == Final(c, Do(c, s, step), rest)
  {
    steps := [step] + rest;
    assert steps[1..] == rest;
  }

  /** From any reachable paused state: finish the operation under way, drain the ring, poll. */
  lemma DrainAndPoll(c: nat, s: State) returns (more: seq<Step>)
    requires c >= 2 && Inv(c, s) && s.paused
    ensures CanResume(c, s, more)
    decreases Distance(s.engine), 1
  {
    hide IsRun, Final;
    match s.engine
    case Outside =>
      var s1 := Do(c, s, Consume(s.head - s.tail));
      var s2 := Do(c, s1, LoadInPoll);
      NoSteps(c, Do(c, s2, ResumeIfLow));
      more := OneStep(c, s2, ResumeIfLow, []);
      more := OneStep(c, s1, LoadInPoll, more);
      more := OneStep(c, s, Consume(s.head - s.tail), more);
    case Filling(_) => more := Then(c, s, FailRead);
    case Committed => more := Then(c, s, LoadAfterRead);
    case Deciding(_) => more := Then(c, s, PauseIfHigh);
    case Polling(_) =>
      if ShouldResume(s.engine.occupied, c) {
        NoSteps(c, Do(c, s, ResumeIfLow));
        more := OneStep(c, s, ResumeIfLow, []);
      } else {
        more := Then(c, s, ResumeIfLow);
      }
  }

  function Distance(e: Engine): nat {
    match e
    case Outside => 0
    case Filling(_) => 1
    case Committed => 2
    case Deciding(_) => 1
    case Polling(_) => 1
  }

  lemma Then(c: nat, s: State, step: Step) returns (more: seq<Step>)
    requires c >= 2 && Inv(c, s) && Enabled(c, s, step) && Do(c, s, step).paused
    requires Distance(Do(c, s, step).engine) < Distance(s.engine)
    ensures CanResume(c, s, more)
    decreases Distance(s.engine), 0
  {
    StepKeeps(c, s, step);
    more := DrainAndPoll(c, Do(c, s, step));
    more := OneStep(c, s, step, more);
  }

  /** In a one-byte ring the low watermark is zero: once paused, paused for good. */
  lemma {:induction false} OneByteRingStaysPaused(s: State, steps: seq<Step>)
    requires Inv(1, s) && IsRun(1, s, steps) && s.paused
    ensures Final(1, s, steps).paused
    decreases |steps|
  {
    if steps != [] {
      StepKeeps(1, s, steps[0]);
      OneByteRingStaysPaused(Do(1, s, steps[0]), steps[1..]);
    }
  }

  /** One byte arrives in a one-byte ring, and the connection is paused. */
  lemma OneByteRingPauses() returns (steps: seq<Step>)
    ensures IsRun(1, Init(), steps) && Final(1, Init(), steps).paused
  {
    hide IsRun, Final;
    var s1 := State(0, 0, false, true, 0, Filling(0));
    var s2 := State(1, 0, false, true, 0, Committed);
    var s3 := State(1, 0, false, true, 0, Deciding(1));
    var s4 := State(1, 0, true, false, 1, Outside);
    NoSteps(1, s4);
    assert Do(1, s3, PauseIfHigh) == s4;
    assert Do(1, s2, LoadAfterRead) == s3;
    assert Do(1, s1, FinishRead(1)) == s2;
    assert Do(1, Init(), BeginRead) == s1;
    hide Do;
    steps := OneStep(1, s3, PauseIfHigh, []);
    steps := OneStep(1, s2, LoadAfterRead, steps);
    steps := OneStep(1, s1, FinishRead(1), steps);
    steps := OneStep(1, Init(), BeginRead, steps);
  }

  lemma LiveCapacities(c: nat)
    requires c > 0
    ensures Live(c) <==> c >= 2
  {
    if c >= 2 {
      forall steps | IsRun(c, Init(), steps) && Final(c, Init(), steps).paused
        ensures exists more :: CanResume(c, Final(c, Init(), steps), more)
      {
        PausesArePaidFor(c, Init(), steps);
        var more := DrainAndPoll(c, Final(c, Init(), steps));
      }
    } else {
      NotLive();
    }
  }

  lemma NotLive()
    ensures !Live(1)
  {
    var steps := OneByteRingPauses();
    var s := Final(1, Init(), steps);
    PausesArePaidFor(1, Init(), steps);
    forall more | IsRun(1, s, more)
      ensures !CanResume(1, s, more)
    {
      OneByteRingStaysPaused(s, more);
    }
  }

  // The bound on pauses is met.

  /** Paused for the n-th time, with exactly the bytes consumed that the bound asks for. */
  function PausedState(c: nat, n: nat): State
    requires n > 0
  {
    var tail := (n - 1) * Gap(c);
    State(tail + HighMark(c) + 1, tail, true, false, n, Outside)
  }

  lemma FirstCycle(c: nat)
    requires c >= 2
    ensures var n := HighMark(c) + 1;
            var s1 := Init().(engine := Filling(0));
            var s2 := s1.(head := n, engine := Committed);
            var s3 := s2.(engine := Deciding(n));
            && Enabled(c, Init(), BeginRead) && Do(c, Init(), BeginRead) == s1
            && Enabled(c, s1, FinishRead(n)) && Do(c, s1, FinishRead(n)) == s2
            && Enabled(c, s2, LoadAfterRead) && Do(c, s2, LoadAfterRead) == s3
            && Enabled(c, s3, PauseIfHigh) && Do(c, s3, PauseIfHigh) == PausedState(c, 1)
  {
  }

  lemma FirstPause(c: nat, rest: seq<Step>) returns (steps: seq<Step>)
    requires c >= 2 && IsRun(c, PausedState(c, 1), rest)
    ensures IsRun(c, Init(), steps) && Final(c, Init(), steps) == Final(c, PausedState(c, 1), rest)
  {
    hide IsRun, Final;
    var n := HighMark(c) + 1;
    var s1 := Init().(engine := Filling(0));
    var s2 := s1.(head := n, engine := Committed);
    var s3 := s2.(engine := Deciding(n));
    FirstCycle(c);
    hide Do, PausedState, HighMark, Enabled;
    steps := OneStep(c, s3, PauseIfHigh, rest);
    steps := OneStep(c, s2, LoadAfterRead, steps);
    steps := OneStep(c, s1, FinishRead(n), steps);
    steps := OneStep(c, Init(), BeginRead, steps);
  }

  /** Drain to just below the low mark, resume, refill to just above the high mark, pause. */
  lemma NextPause(c: nat, n: nat, rest: seq<Step>) returns (steps: seq<Step>)
    requires c >= 2 && n > 0 && IsRun(c, PausedState(c, n + 1), rest)
    ensures IsRun(c, PausedState(c, n), steps)
    ensures Final(c, PausedState(c, n), steps) == Final(c, PausedState(c, n + 1), rest)
  {
    hide IsRun, Final;
    var s, gap := PausedState(c, n), Gap(c);
    assert n * gap == (n - 1) * gap + gap;
    hide PausedState;
    var low := LowMark(c) - 1;
    var s1 := s.(tail := s.tail + gap);
    var s2 := s1.(engine := Polling(low));
    var s3 := s1.(paused := false, registered := true);
    var s4 := s3.(engine := Filling(s1.tail));
    var s5 := s3.(head := s.head + gap, engine := Committed);
    var s6 := s5.(engine := Deciding(HighMark(c) + 1));
    var s7 := PausedState(c, n + 1);
    AfterCycle(c, n);
    steps := OneStep(c, s6, PauseIfHigh, rest);
    steps := OneStep(c, s5, LoadAfterRead, steps);
    steps := OneStep(c, s4, FinishRead(gap), steps);
    steps := OneStep(c, s3, BeginRead, steps);
    steps := OneStep(c, s2, ResumeIfLow, steps);
    steps := OneStep(c, s1, LoadInPoll, steps);
    steps := OneStep(c, s, Consume(gap), steps);
  }

  lemma AfterCycle(c: nat, n: nat)
    requires n > 0
    ensures var s := PausedState(c, n);
            && s.head == s.tail + HighMark(c) + 1 && s.paused && !s.registered && s.pauses == n && s.engine == Outside
            && PausedState(c, n + 1) == State(s.head + Gap(c), s.tail + Gap(c), true, false, n + 1, Outside)
  {
    assert n * Gap(c) == (n - 1) * Gap(c) + Gap(c);
  }

  lemma {:induction false} PauseAgain(c: nat, n: nat, m: nat) returns (steps: seq<Step>)
    requires c >= 2 && 0 < n <= m
    ensures IsRun(c, PausedState(c, n), steps) && Final(c, PausedState(c, n), steps) == PausedState(c, m)
    decreases m - n
  {
    if n == m {
      NoSteps(c, PausedState(c, n));
      steps := [];
    } else {
      steps := PauseAgain(c, n + 1, m);
      steps := NextPause(c, n, steps);
    }
  }

  /** For every number of pauses there is a run on which the consumer takes no byte more than the bound. */
  lemma PauseBoundIsMet(c: nat, n: nat) returns (steps: seq<Step>)
    requires c >= 2 && n > 0
    ensures IsRun(c, Init(), steps)
    ensures var s := Final(c, Init(), steps);
            s.paused && s.pauses == n && s.tail == (n - 1) * (c * 95 / 100 - c * 50 / 100 + 2)
  {
    steps := PauseAgain(c, 1, n);
    steps := FirstPause(c, steps);
  }
}
