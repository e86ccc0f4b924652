/**
  `withTightUmask` under every interleaving of any number of threads.

  The umask belongs to the whole process; the mutex is the only thing that keeps the
  threads' save, tighten and restore steps from mixing.
 */
module Umask {
  import opened Text

  /** Permission bits. */
  type Mode = bv9

  const TIGHT: Mode := 0x7F

  /** Where a thread is inside a call, with the umask it saved. */
  datatype Pc =
    | Outside
    | Locked
    | InFn(saved: Mode)
    | Returned(saved: Mode)
    | Restored

  datatype State = State(umask: Mode, holder: Option<nat>, threads: map<nat, Pc>)

  function PcOf(s: State, i: nat): Pc { if i in s.threads then s.threads[i] else Outside }

  function Move(s: State, i: nat, pc: Pc): State { s.(threads := s.threads[i := pc]) }

  /**
    The next atomic step of thread `i`: lock, tighten and save, leave `fn` whether it
    failed or not, restore, unlock.  None while it waits for the mutex.
   */
  function Next(s: State, i: nat): Option<State> {
    match PcOf(s, i)
    case Outside => if s.holder.None? then Some(Move(s.(holder := Some(i)), i, Locked)) else None
    case Locked => Some(Move(s.(umask := TIGHT), i, InFn(s.umask)))
    case InFn(saved) => Some(Move(s, i, Returned(saved)))
    case Returned(saved) => Some(Move(s.(umask := saved), i, Restored))
    case Restored => Some(Move(s.(holder := None), i, Outside))
  }

  /** A schedule names the thread that takes each step. */
  function Run(s: State, schedule: seq<nat>): Option<State>
    decreases schedule
  {
    if schedule == [] then Some(s)
    else
      match Next(s, schedule[0])
      case None => None
      case Some(t) => Run(t, schedule[1..])
  }

  function Start(original: Mode): State { State(original, None, map[]) }

  ghost predicate Inv(s: State, original: Mode) {
    && (forall i: nat :: PcOf(s, i) != Outside <==> s.holder == Some(i))
    && (s.holder.None? ==> s.umask == original)
    && (s.holder.Some? ==>
          match PcOf(s, s.holder.value)
          case InFn(saved) => s.umask == TIGHT && saved == original
          case Returned(saved) => s.umask == TIGHT && saved == original
          case _ => s.umask == original)
  }

  lemma NextKeepsInv(s: State, i: nat, original: Mode)
    requires Inv(s, original) && Next(s, i).Some?
    ensures Inv(Next(s, i).value, original)
  {
    var t := Next(s, i).value;
    assert forall j: nat | j != i :: PcOf(t, j) == PcOf(s, j);
    assert PcOf(s, i) != Outside <==> s.holder == Some(i);
  }

  lemma {:induction false} RunKeepsInv(s: State, schedule: seq<nat>, original: Mode)
    requires Inv(s, original) && Run(s, schedule).Some?
    ensures Inv(Run(s, schedule).value, original)
    decreases schedule
  {
    if schedule != [] {
      NextKeepsInv(s, schedule[0], original);
      RunKeepsInv(Next(s, schedule[0]).value, schedule[1..], original);
    }
  }

  /** The mode a file asked for with `requested` is created with. */
  function CreatedMode(requested: Mode, umask: Mode): Mode { requested & !umask }

  /**
    After any schedule: a thread inside `fn` runs alone under umask 0177, so nothing it
    creates is accessible to group or world; whenever the mutex is free, in particular
    when no call is under way, the umask is what it was at the start.
   */
  lemma TightOnlyInside(original: Mode, schedule: seq<nat>, i: nat)
    requires Run(Start(original), schedule).Some?
    ensures var s := Run(Start(original), schedule).value;
            && (PcOf(s, i).InFn? ==>
                  && s.umask == 0x7F
                  && (forall m: Mode :: CreatedMode(m, s.umask) & 0x3F == 0)
                  && (forall j: nat | j != i :: PcOf(s, j) == Outside))
            && (s.holder.None? <==> forall j: nat :: PcOf(s, j) == Outside)
            && (s.holder.None? ==> s.umask == original)
  {
    assert Inv(Start(original), original);
    RunKeepsInv(Start(original), schedule, original);
    var s := Run(Start(original), schedule).value;
    assert PcOf(s, i) != Outside <==> s.holder == Some(i);
    assert s.holder.Some? ==> PcOf(s, s.holder.value) != Outside;
    TightHidesGroupAndWorld();
  }

  lemma TightHidesGroupAndWorld()
    ensures forall m: Mode :: CreatedMode(m, TIGHT) & 0x3F == 0
  {
  }

  /** Calls do not deadlock: a thread that holds the mutex can always take its next step. */
  lemma HolderCanStep(original: Mode, schedule: seq<nat>)
    requires Run(Start(original), schedule).Some?
    ensures var s := Run(Start(original), schedule).value;
            forall i: nat :: Next(s, i).Some? <==> s.holder.None? || s.holder == Some(i)
  {
    assert Inv(Start(original), original);
    RunKeepsInv(Start(original), schedule, original);
  }
}
