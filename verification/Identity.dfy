/**
  Which session a remembered PID leads to, over whole runs of a machine on which
  processes start, register, clear, exit and have their PIDs reused.

  The registry file of a PID carries two identities: a session id, which a clear
  replaces, and the start token of the process that wrote it.
 */
module Identity {
  import opened Text
  import opened Utf8
  import Directory
  import Registry
  import Scanner
  import Frames
  import Delivery
  import GoQuote

  /** A process; `birth` tells apart processes that had the same PID. */
  datatype Process = Process(
    birth: nat, start: string, sessionID: string, registered: bool,
    // Session ids it has given up by clearing.
    past: set<string>)

  /** A registry file, with the process that wrote it last. */
  datatype File = File(record: Registry.Record, writer: nat)

  datatype World = World(
    processes: map<nat, Process>,
    files: map<nat, File>,
    births: nat,
    // Every (PID, start token) seen so far, with the process it belonged to.
    tokens: map<(nat, string), nat>,
    // Every session id seen so far, with the process that first had it.
    ids: map<string, nat>,
    // Session ids that a second process was started with.
    resumed: set<string>)

  const EMPTY: World := World(map[], map[], 0, map[], map[], {})

  datatype Action =
    | Spawn(pid: nat, start: string, sessionID: string)
    | Register(pid: nat, record: Registry.Record)
    | Clear(pid: nat, newID: string)
    | Exit(pid: nat, cleanly: bool)

  /** The file a registered process keeps: its own id, its start token or none, the rest as it likes. */
  predicate Describes(record: Registry.Record, p: Process) {
    record.sessionID == p.sessionID && (record.procStart == p.start || record.procStart == "")
  }

  /**
    One step of the machine.  A PID is free before it is reused and a start token is never
    empty and never the same for two processes of one PID.  A process may start without a
    session id, and with one that another process had; ids are valid UTF-8, as everything
    read from JSON is.  A clear mints an id nobody has had and rewrites the file at once; a
    process that does not exit cleanly leaves its file behind.
   */
  function Next(w: World, a: Action): Option<World> {
    match a
    case Spawn(pid, start, id) =>
      if pid > MAX_INT || pid in w.processes || start == "" || !Valid(id) || (pid, start) in w.tokens then None
      else
        Some(w.(processes := w.processes[pid := Process(w.births, start, id, false, {})],
                births := w.births + 1,
                tokens := w.tokens[(pid, start) := w.births],
                ids := if id == "" || id in w.ids then w.ids else w.ids[id := w.births],
                resumed := if id in w.ids then w.resumed + {id} else w.resumed))
    case Register(pid, record) =>
      if pid !in w.processes || !Describes(record, w.processes[pid]) then None
      else
        var p := w.processes[pid];
        Some(w.(processes := w.processes[pid := p.(registered := true)],
                files := w.files[pid := File(record, p.birth)]))
    case Clear(pid, newID) =>
      if pid !in w.processes || newID == "" || !Valid(newID) || newID in w.ids then None
      else
        var p := w.processes[pid];
        Some(w.(processes := w.processes[pid := p.(sessionID := newID, past := p.past + {p.sessionID})],
                files := if p.registered && pid in w.files
                         then w.files[pid := File(w.files[pid].record.(sessionID := newID), p.birth)]
                         else w.files,
                ids := w.ids[newID := p.birth]))
    case Exit(pid, cleanly) =>
      if pid !in w.processes then None
      else
        Some(w.(processes := w.processes - {pid},
                files := if cleanly then w.files - {pid} else w.files))
  }

  function Run(w: World, actions: seq<Action>): Option<World>
    decreases actions
  {
    if actions == [] then Some(w)
    else
      match Next(w, actions[0])
      case None => None
      case Some(v) => Run(v, actions[1..])
  }

  // -------------------------------------------------------------------- invariant

  /** An id that is set was first used by this process, or has been resumed. */
  predicate IdOk(w: World, id: string, birth: nat) {
    Valid(id) && (id != "" ==> id in w.ids && (id in w.resumed || w.ids[id] == birth))
  }

  predicate ProcessOk(w: World, pid: nat, p: Process) {
    && p.start != "" && p.birth < w.births
    && (pid, p.start) in w.tokens && w.tokens[(pid, p.start)] == p.birth
    && IdOk(w, p.sessionID, p.birth)
    && p.past <= w.ids.Keys + {""} && p.sessionID !in p.past
    && (p.registered ==>
          && pid in w.files && w.files[pid].writer == p.birth
          && Describes(w.files[pid].record, p))
  }

  predicate FileOk(w: World, pid: nat, f: File) {
    && (f.record.procStart != "" ==>
          (pid, f.record.procStart) in w.tokens && w.tokens[(pid, f.record.procStart)] == f.writer)
    && IdOk(w, f.record.sessionID, f.writer)
  }

  ghost predicate Inv(w: World) {
    && (forall pid | pid in w.processes :: ProcessOk(w, pid, w.processes[pid]))
    && (forall pid | pid in w.files :: FileOk(w, pid, w.files[pid]))
    && w.resumed <= w.ids.Keys && "" !in w.ids
  }

  /** What a step never forgets. */
  predicate Remembers(w: World, v: World) {
    && w.births <= v.births
    && (forall k | k in w.tokens :: k in v.tokens && v.tokens[k] == w.tokens[k])
    && (forall id | id in w.ids :: id in v.ids && v.ids[id] == w.ids[id])
    && w.resumed <= v.resumed
  }

  lemma NextRemembers(w: World, a: Action)
    requires Next(w, a).Some?
    ensures Remembers(w, Next(w, a).value)
  {
  }

  lemma OthersStayOk(w: World, v: World, pid: nat)
    requires Remembers(w, v)
    ensures pid in w.processes && pid in v.processes && v.processes[pid] == w.processes[pid]
            && (pid in w.files <==> pid in v.files) && (pid in w.files ==> v.files[pid] == w.files[pid])
            && ProcessOk(w, pid, w.processes[pid])
            ==> ProcessOk(v, pid, v.processes[pid])
    ensures pid in w.files && pid in v.files && v.files[pid] == w.files[pid] && FileOk(w, pid, w.files[pid])
            ==> FileOk(v, pid, v.files[pid])
  {
  }

  lemma OnlySubjectChanges(w: World, a: Action, pid: nat)
    requires Next(w, a).Some? && pid != a.pid
    ensures var v := Next(w, a).value;
            && (pid in w.processes <==> pid in v.processes)
            && (pid in w.processes ==> v.processes[pid] == w.processes[pid])
            && (pid in w.files <==> pid in v.files)
            && (pid in w.files ==> v.files[pid] == w.files[pid])
  {
  }

  lemma SubjectStaysOk(w: World, a: Action)
    requires Inv(w) && Next(w, a).Some?
    ensures var v := Next(w, a).value;
            && (a.pid in v.processes ==> ProcessOk(v, a.pid, v.processes[a.pid]))
            && (a.pid in v.files ==> FileOk(v, a.pid, v.files[a.pid]))
  {
    var v := Next(w, a).value;
    assert a.pid in w.processes ==> ProcessOk(w, a.pid, w.processes[a.pid]);
    assert a.pid in w.files ==> FileOk(w, a.pid, w.files[a.pid]);
  }

  lemma NextKeepsInv(w: World, a: Action)
    requires Inv(w) && Next(w, a).Some?
    ensures Inv(Next(w, a).value)
  {
    var v := Next(w, a).value;
    NextRemembers(w, a);
    SubjectStaysOk(w, a);
    ResumedStaysKnown(w, a);
    hide Next;
    hide ProcessOk;
    hide FileOk;
    hide Remembers;
    forall pid | pid in v.processes ensures ProcessOk(v, pid, v.processes[pid]) {
      if pid != a.pid {
        OnlySubjectChanges(w, a, pid);
        OthersStayOk(w, v, pid);
      }
    }
    forall pid | pid in v.files ensures FileOk(v, pid, v.files[pid]) {
      if pid != a.pid {
        OnlySubjectChanges(w, a, pid);
        OthersStayOk(w, v, pid);
      }
    }
  }

  lemma ResumedStaysKnown(w: World, a: Action)
    requires w.resumed <= w.ids.Keys && "" !in w.ids && Next(w, a).Some?
    ensures Next(w, a).value.resumed <= Next(w, a).value.ids.Keys && "" !in Next(w, a).value.ids
  {
  }

  lemma {:induction false} RunKeepsInv(w: World, actions: seq<Action>)
    requires Inv(w) && Run(w, actions).Some?
    ensures Inv(Run(w, actions).value) && Remembers(w, Run(w, actions).value)
    decreases actions
  {
    hide Next;
    hide Inv;
    if actions != [] {
      NextKeepsInv(w, actions[0]);
      NextRemembers(w, actions[0]);
      RunKeepsInv(Next(w, actions[0]).value, actions[1..]);
    }
  }

  // ------------------------------------------------------------------- the lookups

  /** A directory of this world: a file for every registry entry, and no other readable registry file. */
  ghost predicate IsDirectory(dir: seq<Registry.Entry>, w: World) {
    && Registry.DistinctNames(dir)
    && (forall pid | pid in w.files ::
          pid <= MAX_INT && Registry.Entry(Registry.FileName(pid), Some(w.files[pid].record)) in dir)
    && (forall e | e in dir && Registry.PidOf(e.name).Some? && e.record.Some? ::
          Registry.PidOf(e.name).value in w.files && w.files[Registry.PidOf(e.name).value].record == e.record.value)
  }

  lemma DirectoryLookup(dir: seq<Registry.Entry>, w: World, pid: nat)
    requires IsDirectory(dir, w)
    ensures Registry.Lookup(dir, pid) == if pid in w.files then Some(w.files[pid].record) else None
  {
    hide Registry.PidOf;
    hide Registry.FileName;
    Registry.LookupIsHolds(dir, pid);
    forall r: Registry.Record
      ensures Registry.Holds(dir, Registry.Session(pid, r)) ==> pid in w.files && w.files[pid].record == r
    {
    }
    if pid in w.files {
      Registry.PidOfInvertsFileName(pid);
      assert Registry.Holds(dir, Registry.Session(pid, w.files[pid].record));
    }
  }

  /** `FindByPIDForProcess` succeeds in this world. */
  predicate FoundForProcess(w: World, pid: nat, start: string) {
    pid in w.files && start != "" && w.files[pid].record.procStart == start
  }

  /** `FindByPIDForSession` succeeds in this world. */
  predicate FoundForSession(w: World, pid: nat, id: string) {
    pid in w.files && id != "" && w.files[pid].record.sessionID == id
  }

  /** The lookups run on the world's directory. */
  method LookUpBoth(w: World, dir: seq<Registry.Entry>, pid: nat, start: string, id: string)
    returns (byProcess: bool, bySession: bool)
    requires IsDirectory(dir, w)
    ensures byProcess == FoundForProcess(w, pid, start)
    ensures bySession == FoundForSession(w, pid, id)
  {
    var p := Registry.FindByPIDForProcess(Directory.Listed(dir), pid, start);
    var s := Registry.FindByPIDForSession(Directory.Listed(dir), pid, id);
    DirectoryLookup(dir, w, pid);
    return p.Ok?, s.Ok?;
  }

  // ----------------------------------------------------------------- what is promised

  /**
    A start token recorded while a process ran leads back to that process's own file and
    to no other: whatever happened since, if the lookup succeeds the file was last written
    by the recorded process.
   */
  lemma FoundFileIsTheProcessesOwn(before: seq<Action>, after: seq<Action>, pid: nat)
    requires Run(EMPTY, before).Some? && pid in Run(EMPTY, before).value.processes
    requires Run(Run(EMPTY, before).value, after).Some?
    ensures var p := Run(EMPTY, before).value.processes[pid];
            var w := Run(Run(EMPTY, before).value, after).value;
            FoundForProcess(w, pid, p.start) ==> w.files[pid].writer == p.birth
  {
    assert Inv(EMPTY);
    RunKeepsInv(EMPTY, before);
    var u := Run(EMPTY, before).value;
    RunKeepsInv(u, after);
    var w := Run(u, after).value;
    hide Run;
    assert ProcessOk(u, pid, u.processes[pid]);
    assert pid in w.files ==> FileOk(w, pid, w.files[pid]);
  }

  /** The process `p` of this PID is still the one running. */
  predicate StillRuns(w: World, pid: nat, p: Process) {
    pid in w.processes && w.processes[pid].birth == p.birth
  }

  lemma StepOfRunning(w: World, a: Action, pid: nat)
    requires Inv(w) && Next(w, a).Some? && pid in w.processes
    ensures var p, v := w.processes[pid], Next(w, a).value;
            StillRuns(v, pid, p) ==>
              var q := v.processes[pid];
              && q.start == p.start && (p.registered ==> q.registered) && p.past <= q.past
              && (a.Clear? && a.pid == pid ==> p.sessionID in q.past)
              && (q.sessionID == p.sessionID || p.sessionID in q.past)
    ensures w.processes[pid].birth < w.births
    ensures pid !in Next(w, a).value.processes ==> a == Exit(pid, a.cleanly)
  {
    assert ProcessOk(w, pid, w.processes[pid]);
  }

  lemma GoneForGood(w: World, a: Action, pid: nat, birth: nat)
    requires Next(w, a).Some? && birth < w.births
    requires pid !in w.processes || w.processes[pid].birth != birth
    ensures birth < Next(w, a).value.births
    ensures pid !in Next(w, a).value.processes || Next(w, a).value.processes[pid].birth != birth
  {
  }

  lemma {:induction false} GoneStaysGone(w: World, actions: seq<Action>, pid: nat, birth: nat)
    requires Run(w, actions).Some? && birth < w.births
    requires pid !in w.processes || w.processes[pid].birth != birth
    ensures var v := Run(w, actions).value; pid !in v.processes || v.processes[pid].birth != birth
    decreases actions
  {
    hide Next;
    if actions != [] {
      GoneForGood(w, actions[0], pid, birth);
      GoneStaysGone(Next(w, actions[0]).value, actions[1..], pid, birth);
    }
  }

  /** Clears of this PID in a run. */
  function Clears(actions: seq<Action>, pid: nat): nat {
    if actions == [] then 0
    else (if actions[0].Clear? && actions[0].pid == pid then 1 else 0) + Clears(actions[1..], pid)
  }

  /** What a process that runs throughout keeps. */
  lemma {:induction false} RunningKeeps(w: World, actions: seq<Action>, pid: nat)
    requires Inv(w) && Run(w, actions).Some? && pid in w.processes
    ensures var p, v := w.processes[pid], Run(w, actions).value;
            StillRuns(v, pid, p) ==>
              var q := v.processes[pid];
              && q.start == p.start && (p.registered ==> q.registered) && p.past <= q.past
              && (Clears(actions, pid) > 0 ==> p.sessionID in q.past)
    decreases actions
  {
    hide Next;
    hide Inv;
    var p := w.processes[pid];
    if actions != [] {
      var a := actions[0];
      var u := Next(w, a).value;
      StepOfRunning(w, a, pid);
      NextKeepsInv(w, a);
      if StillRuns(u, pid, p) {
        RunningKeeps(u, actions[1..], pid);
      } else {
        NextRemembers(w, a);
        GoneStaysGone(u, actions[1..], pid, p.birth);
      }
    }
  }

  /**
    While a registered process keeps running, however often it clears and whatever others
    do, its start token finds it exactly when its file carries one; and the session id it
    had before a clear no longer does.
   */
  lemma ClearKeepsProcessNotSession(before: seq<Action>, after: seq<Action>, pid: nat)
    requires Run(EMPTY, before).Some? && pid in Run(EMPTY, before).value.processes
    requires Run(Run(EMPTY, before).value, after).Some?
    requires Run(EMPTY, before).value.processes[pid].registered
    requires StillRuns(Run(Run(EMPTY, before).value, after).value, pid, Run(EMPTY, before).value.processes[pid])
    ensures var p := Run(EMPTY, before).value.processes[pid];
            var w := Run(Run(EMPTY, before).value, after).value;
            && pid in w.files && w.files[pid].writer == p.birth
            && (FoundForProcess(w, pid, p.start) <==> w.files[pid].record.procStart != "")
            && (Clears(after, pid) > 0 ==> !FoundForSession(w, pid, p.sessionID))
  {
    assert Inv(EMPTY);
    RunKeepsInv(EMPTY, before);
    var u := Run(EMPTY, before).value;
    RunKeepsInv(u, after);
    RunningKeeps(u, after, pid);
    var w := Run(u, after).value;
    hide Run;
    assert ProcessOk(u, pid, u.processes[pid]);
    assert ProcessOk(w, pid, w.processes[pid]);
  }

  // ------------------------------------------------------------------ resumed ids

  /** Some process took this id, when it started or by a clear. */
  predicate UsedIn(actions: seq<Action>, id: string) {
    exists a | a in actions :: (a.Spawn? && a.sessionID == id) || (a.Clear? && a.newID == id)
  }

  /** Some process was started with this id after a process had taken it. */
  predicate ResumedIn(actions: seq<Action>, id: string) {
    actions != [] &&
    var before, last := actions[..|actions| - 1], actions[|actions| - 1];
    ResumedIn(before, id) || (last.Spawn? && last.sessionID == id && UsedIn(before, id))
  }

  lemma {:induction false} RunStep(w: World, actions: seq<Action>)
    requires Run(w, actions).Some? && actions != []
    ensures var before, last := actions[..|actions| - 1], actions[|actions| - 1];
            Run(w, before).Some? && Next(Run(w, before).value, last) == Run(w, actions)
    decreases actions
  {
    hide Next;
    var n := |actions| - 1;
    var v := Next(w, actions[0]).value;
    if n == 0 {
      assert actions[..0] == [] && actions[1..] == [];
    } else {
      RunStep(v, actions[1..]);
      assert actions[1..][..n - 1] == actions[..n][1..];
    }
  }

  lemma UsedStep(actions: seq<Action>, id: string)
    requires actions != []
    ensures var before, last := actions[..|actions| - 1], actions[|actions| - 1];
            UsedIn(actions, id) <==>
              UsedIn(before, id) || (last.Spawn? && last.sessionID == id) || (last.Clear? && last.newID == id)
  {
    var before, last := actions[..|actions| - 1], actions[|actions| - 1];
    assert actions == before + [last];
    assert forall a :: a in actions <==> a in before || a == last;
  }

  lemma NextUses(w: World, a: Action, id: string)
    requires Next(w, a).Some? && id != ""
    ensures var v := Next(w, a).value;
            && (id in v.ids <==> id in w.ids || (a.Spawn? && a.sessionID == id) || (a.Clear? && a.newID == id))
            && (id in v.resumed <==> id in w.resumed || (a.Spawn? && a.sessionID == id && id in w.ids))
  {
  }

  /** The world's own record of used and resumed ids is what the actions say. */
  lemma {:induction false} ResumedIs(actions: seq<Action>, id: string)
    requires Run(EMPTY, actions).Some? && id != ""
    ensures id in Run(EMPTY, actions).value.ids <==> UsedIn(actions, id)
    ensures id in Run(EMPTY, actions).value.resumed <==> ResumedIn(actions, id)
  {
    if actions != [] {
      var before, last := actions[..|actions| - 1], actions[|actions| - 1];
      RunStep(EMPTY, actions);
      ResumedIs(before, id);
      UsedStep(actions, id);
      NextUses(Run(EMPTY, before).value, last, id);
      hide Run;
      hide Next;
      hide UsedIn;
    }
  }

  lemma {:induction false} RunConcat(w: World, a: seq<Action>, b: seq<Action>)
    requires Run(w, a).Some?
    ensures Run(w, a + b) == Run(Run(w, a).value, b)
    decreases a
  {
    hide Next;
    if a == [] {
      assert a + b == b;
    } else {
      assert (a + b)[1..] == a[1..] + b;
      RunConcat(Next(w, a[0]).value, a[1..], b);
    }
  }

  // ------------------------------------------------------------------ stamped sends

  /** The documented receiver check: a frame without a session id, or with the receiver's own. */
  predicate Accepts(receiver: Process, frameID: string) { frameID == "" || frameID == receiver.sessionID }

  /** Whether a process takes what these bytes deliver: it checks the frame on their last line. */
  predicate Takes(receiver: Process, bytes: string) {
    var lines := Scanner.Lines(bytes);
    lines != [] && Accepts(receiver, Delivery.FrameID(lines[|lines| - 1]))
  }

  /**
    A message sent to a looked-up session, without an id of its own, is taken by exactly
    the processes that hold the session id found, or by any if the entry has none.
   */
  lemma TakenIffHeld(m: Frames.Message, record: Registry.Record, token: string,
                     newID: Option<string>, p: GoQuote.PrintTable, receiver: Process)
    requires m.sessionID == "" && Valid(record.sessionID) && Delivery.Reaches(token)
    ensures var r := Frames.Send(m, record.socketPath, record.sessionID, Ok(token), newID, p);
            r.Ok? ==> (Takes(receiver, r.value.bytes)
                       <==> record.sessionID == "" || receiver.sessionID == record.sessionID)
  {
    Delivery.SendCarriesID(m, record.socketPath, record.sessionID, token, newID, p);
    RepairIsIdentityIffValid(record.sessionID);
    hide Frames.Send;
    hide Delivery.Reaches;
    hide Scanner.Lines;
    hide Delivery.FrameID;
    hide Repair;
  }

  /** Where a looked-up entry and a later receiver stand, whatever happened in between. */
  lemma HolderIsWriterUnlessResumed(before: seq<Action>, after: seq<Action>, pid: nat, receiver: nat)
    requires Run(EMPTY, before).Some? && pid in Run(EMPTY, before).value.files
    requires Run(Run(EMPTY, before).value, after).Some?
    requires receiver in Run(Run(EMPTY, before).value, after).value.processes
    ensures var f := Run(EMPTY, before).value.files[pid];
            var w := Run(Run(EMPTY, before).value, after).value;
            var q := w.processes[receiver];
            && Valid(f.record.sessionID)
            && (q.sessionID == f.record.sessionID && f.record.sessionID != "" ==>
                  q.birth == f.writer || f.record.sessionID in w.resumed)
  {
    assert Inv(EMPTY);
    RunKeepsInv(EMPTY, before);
    var u := Run(EMPTY, before).value;
    RunKeepsInv(u, after);
    var w := Run(u, after).value;
    hide Run;
    hide Valid;
    assert FileOk(u, pid, u.files[pid]);
    assert ProcessOk(w, receiver, w.processes[receiver]);
  }

  /**
    Whatever happens between looking a session up and the bytes of a send reaching
    whichever process then listens: that process takes the message exactly when it holds
    the session id found or the entry had none; and a process other than the one that
    wrote the entry takes it exactly when the entry had no session id, or when some process
    was started with an id already taken, that one, and it is the one that holds it.
   */
  lemma StampedSendFindsItsSession(before: seq<Action>, after: seq<Action>, pid: nat, receiver: nat,
                                   m: Frames.Message, token: string, newID: Option<string>, p: GoQuote.PrintTable)
    requires Run(EMPTY, before).Some? && pid in Run(EMPTY, before).value.files
    requires Run(Run(EMPTY, before).value, after).Some?
    requires receiver in Run(Run(EMPTY, before).value, after).value.processes
    requires m.sessionID == "" && Delivery.Reaches(token)
    ensures var f := Run(EMPTY, before).value.files[pid];
            var w := Run(Run(EMPTY, before).value, after).value;
            var q, id := w.processes[receiver], f.record.sessionID;
            var r := Frames.Send(m, f.record.socketPath, id, Ok(token), newID, p);
            r.Ok? ==>
              && (Takes(q, r.value.bytes) <==> id == "" || q.sessionID == id)
              && (Takes(q, r.value.bytes) && q.birth != f.writer <==>
                    q.birth != f.writer && (id == "" || (ResumedIn(before + after, id) && q.sessionID == id)))
  {
    RunConcat(EMPTY, before, after);
    if Run(EMPTY, before).value.files[pid].record.sessionID != "" {
      ResumedIs(before + after, Run(EMPTY, before).value.files[pid].record.sessionID);
    }
    hide ResumedIn;
    hide Run;
    hide Takes;
    hide Frames.Send;
    hide Delivery.Reaches;
    hide Valid;
    HolderIsWriterUnlessResumed(before, after, pid, receiver);
    var f := Run(EMPTY, before).value.files[pid];
    var q := Run(Run(EMPTY, before).value, after).value.processes[receiver];
    TakenIffHeld(m, f.record, token, newID, p, q);
  }

  // -------------------------------------------------------- an entry without an id

  /** A registry file that carries neither a session id nor a start token. */
  const BARE: Registry.Record := Registry.Record("", "/s.sock", "", 0)

  /** A process without a session id registers and goes, leaving its file; another one starts. */
  const FIRST: seq<Action> := [Spawn(5, "1", ""), Register(5, BARE)]
  const SECOND: seq<Action> := [Exit(5, false), Spawn(6, "2", "x")]

  lemma RunTwo(w: World, a: Action, b: Action)
    ensures Run(w, [a, b]) == if Next(w, a).Some? then Next(Next(w, a).value, b) else None
  {
    hide Next;
    assert [a, b][1..] == [b] && [b][1..] == [];
    if Next(w, a).Some? {
      var v := Next(w, a).value;
      assert Run(w, [a, b]) == Run(v, [b]);
      assert Next(v, b).Some? ==> Run(v, [b]) == Run(Next(v, b).value, []);
    }
  }

  lemma BareRun()
    ensures Run(EMPTY, FIRST).Some? && Run(Run(EMPTY, FIRST).value, SECOND).Some?
    ensures var u := Run(EMPTY, FIRST).value;
            var w := Run(u, SECOND).value;
            && 5 in u.files && u.files[5] == File(BARE, 0)
            && 6 in w.processes && w.processes[6].birth == 1
  {
    AsciiIsValid("");
    AsciiIsValid("x");
    hide Valid;
    hide Run;
    RunTwo(EMPTY, FIRST[0], FIRST[1]);
    assert FIRST == [FIRST[0], FIRST[1]];
    RunTwo(Run(EMPTY, FIRST).value, SECOND[0], SECOND[1]);
    assert SECOND == [SECOND[0], SECOND[1]];
  }

  /** Then a send to the stale entry is accepted here and taken by the other process there. */
  lemma BareEntryMisdelivers(p: GoQuote.PrintTable)
    ensures Run(EMPTY, FIRST).Some? && Run(Run(EMPTY, FIRST).value, SECOND).Some?
    ensures var u := Run(EMPTY, FIRST).value;
            var w := Run(u, SECOND).value;
            var r := Frames.Send(Delivery.GREETING, BARE.socketPath, BARE.sessionID, Ok(""), None, p);
            && 5 in u.files && u.files[5].record == BARE
            && 6 in w.processes && w.processes[6].birth != u.files[5].writer
            && r.Ok? && Takes(w.processes[6], r.value.bytes)
  {
    BareRun();
    GreetingIsSent(p);
    AsciiIsValid("");
    hide Valid;
    hide Run;
    hide Takes;
    hide Frames.Send;
    TakenIffHeld(Delivery.GREETING, BARE, "", None, p, Run(Run(EMPTY, FIRST).value, SECOND).value.processes[6]);
  }

  lemma GreetingIsSent(p: GoQuote.PrintTable)
    ensures Frames.Send(Delivery.GREETING, BARE.socketPath, BARE.sessionID, Ok(""), None, p).Ok?
  {
    hide Frames.UserLine;
    hide Frames.SendToSocket;
    Delivery.GreetingLineLength();
    Delivery.AcceptedIff(Delivery.GREETING, "", None, p);
  }
}
