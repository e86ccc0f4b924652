/**
  An inbox's life: its accept loop with backoff, and any number of `Close` callers,
  interleaved one atomic step at a time.
 */
module Lifecycle {
  import opened Text

  // -------------------------------------------------------------------- backoff

  /** Milliseconds: the first delay and the longest. */
  const FIRST_DELAY: nat := 5
  const MAX_DELAY: nat := 1000

  /** The delay before the limit is applied. */
  function RawDelay(delay: nat): nat { if delay == 0 then FIRST_DELAY else delay * 2 }

  /** The loop's update of its retry delay. */
  function NextDelay(delay: nat): nat { if RawDelay(delay) > MAX_DELAY then MAX_DELAY else RawDelay(delay) }

  function Pow2(k: nat): (p: nat)
    ensures p >= 1
  {
    if k == 0 then 1 else 2 * Pow2(k - 1)
  }

  /** The delay after `k` errors in a row. */
  function Backoff(k: nat): nat {
    if k == 0 then 0
    else if FIRST_DELAY * Pow2(k - 1) > MAX_DELAY then MAX_DELAY
    else FIRST_DELAY * Pow2(k - 1)
  }

  lemma NextDelayIsBackoff(k: nat)
    ensures NextDelay(Backoff(k)) == Backoff(k + 1)
    ensures RawDelay(Backoff(k)) <= 2000
  {
  }

  // ---------------------------------------------------------------------- state

  /** Where a `Close` call is. */
  datatype CloserPc =
    | Entering          // waits for the mutex
    | Checking          // holds it, about to look at the flag
    | Losing            // found the flag set, still holds the mutex
    | Winning           // has set the flag, still holds the mutex
    | Closing           // about to close the listener
    | Removing          // about to remove the socket file
    | Done

  /** Where the accept loop is. */
  datatype LoopPc =
    | Accepting
    | Failed                 // Accept returned an error; waits for the mutex
    | Reading                // holds the mutex
    | Holding(seen: bool)    // has read the flag, still holds the mutex
    | Deciding(seen: bool)
    | Sleeping
    | Exited

  datatype Holder = Free | ByCloser(i: nat) | ByLoop

  datatype State = State(
    closed: bool,
    mutex: Holder,
    listenerOpen: bool,
    closers: map<nat, CloserPc>,
    loop: LoopPc,
    delay: nat,
    // What has happened so far.
    winner: Option<nat>,
    listenerCloses: nat,
    removals: nat,
    errors: nat,
    lateSleeps: nat)

  const START: State := State(false, Free, true, map[], Accepting, 0, None, 0, 0, 0, 0)

  function PcOf(s: State, i: nat): CloserPc { if i in s.closers then s.closers[i] else Entering }

  function Move(s: State, i: nat, pc: CloserPc): State { s.(closers := s.closers[i := pc]) }

  /** Who takes the next step; for the loop, also whether Accept yields a connection. */
  datatype Actor = Closer(i: nat) | Loop(accepts: bool)

  function CloserNext(s: State, i: nat): Option<State> {
    match PcOf(s, i)
    case Entering => if s.mutex.Free? then Some(Move(s.(mutex := ByCloser(i)), i, Checking)) else None
    case Checking =>
      if s.closed then Some(Move(s, i, Losing))
      else Some(Move(s.(closed := true, winner := Some(i)), i, Winning))
    case Losing => Some(Move(s.(mutex := Free), i, Done))
    case Winning => Some(Move(s.(mutex := Free), i, Closing))
    case Closing =>
      Some(Move(s.(listenerOpen := false, listenerCloses := s.listenerCloses + 1), i, Removing))
    case Removing => Some(Move(s.(removals := s.removals + 1), i, Done))
    case Done => None
  }

  function LoopNext(s: State, accepts: bool): Option<State> {
    match s.loop
    case Accepting =>
      if accepts then
        // A closed listener accepts nothing.
        if s.listenerOpen then Some(s.(delay := 0, errors := 0)) else None
      else Some(s.(loop := Failed))
    case Failed => if s.mutex.Free? then Some(s.(mutex := ByLoop, loop := Reading)) else None
    case Reading => Some(s.(loop := Holding(s.closed)))
    case Holding(seen) => Some(s.(mutex := Free, loop := Deciding(seen)))
    case Deciding(seen) =>
      if seen then Some(s.(loop := Exited))
      else Some(s.(delay := NextDelay(s.delay), errors := s.errors + 1, loop := Sleeping,
                   lateSleeps := if s.listenerOpen then s.lateSleeps else s.lateSleeps + 1))
    case Sleeping => Some(s.(loop := Accepting))
    case Exited => None
  }

  function Next(s: State, a: Actor): Option<State> {
    match a
    case Closer(i) => CloserNext(s, i)
    case Loop(accepts) => LoopNext(s, accepts)
  }

  function Run(s: State, schedule: seq<Actor>): Option<State>
    decreases schedule
  {
    if schedule == [] then Some(s)
    else
      match Next(s, schedule[0])
      case None => None
      case Some(t) => Run(t, schedule[1..])
  }

  // ------------------------------------------------------------------- invariant

  predicate HoldsMutex(pc: CloserPc) { pc.Checking? || pc.Losing? || pc.Winning? }

  predicate InWinnersPart(pc: CloserPc) { pc.Winning? || pc.Closing? || pc.Removing? }

  /** How many loop steps are left once the listener is closed. */
  function Distance(pc: LoopPc): nat {
    match pc
    case Holding(seen) => if seen then 2 else 8
    case Deciding(seen) => if seen then 1 else 7
    case Sleeping => 6
    case Accepting => 5
    case Failed => 4
    case Reading => 3
    case Exited => 0
  }

  ghost predicate MutexInv(s: State) {
    && (forall i: nat :: HoldsMutex(PcOf(s, i)) <==> s.mutex == ByCloser(i))
    && (s.loop.Reading? || s.loop.Holding? <==> s.mutex == ByLoop)
  }

  ghost predicate WinnerInv(s: State) {
    && (s.closed <==> s.winner.Some?)
    && (forall i: nat :: InWinnersPart(PcOf(s, i)) ==> s.winner == Some(i))
    && (forall i: nat :: s.winner == Some(i) ==> InWinnersPart(PcOf(s, i)) || PcOf(s, i).Done?)
    && (s.listenerOpen <==> s.listenerCloses == 0)
    && s.listenerCloses == (if s.winner.Some? && (PcOf(s, s.winner.value).Removing? || PcOf(s, s.winner.value).Done?)
                            then 1 else 0)
    && s.removals == (if s.winner.Some? && PcOf(s, s.winner.value).Done? then 1 else 0)
  }

  predicate LoopInv(s: State) {
    && s.delay == Backoff(s.errors)
    && (s.loop == Holding(true) || s.loop == Deciding(true) || s.loop.Exited? ==> s.closed)
    && (s.loop == Holding(false) ==> s.listenerOpen && !s.closed)
    && (s.lateSleeps > 0 ==> !s.listenerOpen && s.lateSleeps == 1 && Distance(s.loop) <= 6)
  }

  ghost predicate Inv(s: State) { MutexInv(s) && WinnerInv(s) && LoopInv(s) }

  lemma CloserKeepsMutexInv(s: State, i: nat)
    requires MutexInv(s) && CloserNext(s, i).Some?
    ensures MutexInv(CloserNext(s, i).value)
  {
    var t := CloserNext(s, i).value;
    assert forall j: nat | j != i :: PcOf(t, j) == PcOf(s, j);
    assert HoldsMutex(PcOf(s, i)) <==> s.mutex == ByCloser(i);
  }

  lemma CloserKeepsWinnerInv(s: State, i: nat)
    requires WinnerInv(s) && CloserNext(s, i).Some?
    ensures WinnerInv(CloserNext(s, i).value)
  {
    var t := CloserNext(s, i).value;
    assert forall j: nat | j != i :: PcOf(t, j) == PcOf(s, j);
    assert InWinnersPart(PcOf(s, i)) ==> s.winner == Some(i);
    assert s.winner == Some(i) ==> InWinnersPart(PcOf(s, i)) || PcOf(s, i).Done?;
  }

  lemma CloserKeepsLoopInv(s: State, i: nat)
    requires Inv(s) && CloserNext(s, i).Some?
    ensures LoopInv(CloserNext(s, i).value)
  {
    assert HoldsMutex(PcOf(s, i)) <==> s.mutex == ByCloser(i);
    assert InWinnersPart(PcOf(s, i)) ==> s.winner == Some(i);
  }

  lemma LoopKeepsMutexInv(s: State, accepts: bool)
    requires MutexInv(s) && LoopNext(s, accepts).Some?
    ensures MutexInv(LoopNext(s, accepts).value)
  {
    var t := LoopNext(s, accepts).value;
    assert forall j: nat :: PcOf(t, j) == PcOf(s, j);
    hide PcOf;
  }

  lemma LoopKeepsWinnerInv(s: State, accepts: bool)
    requires WinnerInv(s) && LoopNext(s, accepts).Some?
    ensures WinnerInv(LoopNext(s, accepts).value)
  {
    var t := LoopNext(s, accepts).value;
    assert forall j: nat :: PcOf(t, j) == PcOf(s, j);
    hide PcOf;
  }

  lemma LoopKeepsLoopInv(s: State, accepts: bool)
    requires WinnerInv(s) && LoopInv(s) && LoopNext(s, accepts).Some?
    ensures LoopInv(LoopNext(s, accepts).value)
  {
    NextDelayIsBackoff(s.errors);
    assert Backoff(0) == 0;
    assert s.closed || s.listenerOpen;
    hide Backoff;
    hide NextDelay;
    hide WinnerInv;
  }

  lemma StartKeepsInv()
    ensures Inv(START)
  {
  }

  lemma NextKeepsInv(s: State, a: Actor)
    requires Inv(s) && Next(s, a).Some?
    ensures Inv(Next(s, a).value)
  {
    hide MutexInv;
    hide WinnerInv;
    hide LoopInv;
    hide CloserNext;
    hide LoopNext;
    match a
    case Closer(i) =>
      CloserKeepsMutexInv(s, i);
      CloserKeepsWinnerInv(s, i);
      CloserKeepsLoopInv(s, i);
    case Loop(accepts) =>
      LoopKeepsMutexInv(s, accepts);
      LoopKeepsWinnerInv(s, accepts);
      LoopKeepsLoopInv(s, accepts);
  }

  lemma {:induction false} RunKeepsInv(s: State, schedule: seq<Actor>)
    requires Inv(s) && Run(s, schedule).Some?
    ensures Inv(Run(s, schedule).value)
    decreases schedule
  {
    hide Inv;
    hide Next;
    if schedule != [] {
      NextKeepsInv(s, schedule[0]);
      RunKeepsInv(Next(s, schedule[0]).value, schedule[1..]);
    }
  }

  // ---------------------------------------------------------------- what is promised

  lemma {:induction false} RunStep(s: State, schedule: seq<Actor>)
    requires Run(s, schedule).Some? && schedule != []
    ensures var before, last := schedule[..|schedule| - 1], schedule[|schedule| - 1];
            Run(s, before).Some? && Next(Run(s, before).value, last) == Run(s, schedule)
    decreases schedule
  {
    hide Next;
    var n := |schedule| - 1;
    var t := Next(s, schedule[0]).value;
    if n == 0 {
      assert schedule[..0] == [] && schedule[1..] == [];
    } else {
      RunStep(t, schedule[1..]);
      assert schedule[1..][..n - 1] == schedule[..n][1..];
    }
  }

  /**
    Errors in a row: how often the loop has decided, since it last accepted a connection,
    to try again after an error.
   */
  function ErrorsInRow(schedule: seq<Actor>): nat
    requires Run(START, schedule).Some?
  {
    if schedule == [] then 0
    else
      RunStep(START, schedule);
      var before, last := schedule[..|schedule| - 1], schedule[|schedule| - 1];
      var loop := Run(START, before).value.loop;
      if last.Loop? && loop == Accepting && last.accepts then 0
      else if last.Loop? && loop == Deciding(false) then ErrorsInRow(before) + 1
      else ErrorsInRow(before)
  }

  lemma CloserKeepsErrors(s: State, i: nat)
    requires CloserNext(s, i).Some?
    ensures CloserNext(s, i).value.errors == s.errors
  {
  }

  lemma {:induction false} ErrorsAreInRow(schedule: seq<Actor>)
    requires Run(START, schedule).Some?
    ensures Run(START, schedule).value.errors == ErrorsInRow(schedule)
  {
    if schedule != [] {
      RunStep(START, schedule);
      var before, last := schedule[..|schedule| - 1], schedule[|schedule| - 1];
      ErrorsAreInRow(before);
      hide CloserNext;
      hide Run;
      if last.Closer? {
        CloserKeepsErrors(Run(START, before).value, last.i);
      }
    }
  }

  /** Milliseconds: 5 after one error, twice as many after each further one, never more than 1000. */
  lemma BackoffIs(k: nat)
    ensures Backoff(k) == if k == 0 then 0 else if 5 * Pow2(k - 1) > 1000 then 1000 else 5 * Pow2(k - 1)
    ensures Backoff(1) == 5 && Backoff(2) == 10 && Backoff(8) == 640 && Backoff(9) == 1000
  {
    assert Pow2(4) == 16;
    assert Pow2(8) == 256;
  }

  /**
    After any schedule: the listener has been closed at most once, and only by the one
    caller that set the flag; that caller has removed the socket file if it has returned,
    and nobody else removes it; the loop has exited only if the inbox is closed; and the
    retry delay is 5 ms doubled with every further error in a row, up to a second.
   */
  lemma Lifecycle(schedule: seq<Actor>, i: nat)
    requires Run(START, schedule).Some?
    ensures var s := Run(START, schedule).value;
            && s.listenerCloses <= 1 && s.removals <= s.listenerCloses
            && (s.listenerCloses == 1 ==> s.closed)
            && (s.loop.Exited? ==> s.closed)
            && (s.winner == Some(i) && PcOf(s, i).Done? ==> s.removals == 1 && !s.listenerOpen)
            && (PcOf(s, i).Removing? ==> s.winner == Some(i))
            && var k := ErrorsInRow(schedule);
               s.delay == if k == 0 then 0 else if 5 * Pow2(k - 1) > 1000 then 1000 else 5 * Pow2(k - 1)
  {
    StartKeepsInv();
    RunKeepsInv(START, schedule);
    ErrorsAreInRow(schedule);
    BackoffIs(ErrorsInRow(schedule));
    hide ErrorsInRow;
    hide Run;
    hide Backoff;
    hide Pow2;
  }

  /**
    Once the listener is closed every loop step brings the loop closer to its exit, no
    other step moves it away, and it sleeps at most once more on the way.
   */
  lemma LoopWindsDown(schedule: seq<Actor>, a: Actor)
    requires Run(START, schedule).Some?
    requires var s := Run(START, schedule).value; !s.listenerOpen && Next(s, a).Some?
    ensures var s := Run(START, schedule).value;
            var t := Next(s, a).value;
            && !t.listenerOpen
            && (a.Loop? ==> Distance(t.loop) < Distance(s.loop))
            && (a.Closer? ==> t.loop == s.loop)
            && t.lateSleeps <= 1
  {
    hide Backoff;
    hide NextDelay;
    StartKeepsInv();
    RunKeepsInv(START, schedule);
    StepWindsDown(Run(START, schedule).value, a);
    hide *;
  }

  lemma StepWindsDown(s: State, a: Actor)
    requires Inv(s) && !s.listenerOpen && Next(s, a).Some?
    ensures var t := Next(s, a).value;
            && !t.listenerOpen
            && (a.Loop? ==> Distance(t.loop) < Distance(s.loop))
            && (a.Closer? ==> t.loop == s.loop)
            && t.lateSleeps <= 1
  {
    hide Backoff;
    hide NextDelay;
    NextKeepsInv(s, a);
  }

  /**
    The loop is never stuck: short of its exit it can step, unless a closer holds the mutex,
    and then that closer can.
   */
  lemma LoopIsNeverStuck(schedule: seq<Actor>)
    requires Run(START, schedule).Some?
    ensures var s := Run(START, schedule).value;
            || s.loop.Exited?
            || Next(s, Loop(false)).Some?
            || (s.mutex.ByCloser? && Next(s, Closer(s.mutex.i)).Some?)
  {
    StartKeepsInv();
    RunKeepsInv(START, schedule);
    var s := Run(START, schedule).value;
    assert s.mutex.ByCloser? ==> HoldsMutex(PcOf(s, s.mutex.i));
  }
}
