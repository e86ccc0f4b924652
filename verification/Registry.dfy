/**
  The session registry: listing the directory of `<pid>.json` files and finding one
  session in the listing.
 */
module Registry {
  import opened Text
  import opened Directory

  /** What a registry file says, as far as listing and finding look at it. */
  datatype Record = Record(
    sessionID: string, socketPath: string, procStart: string,
    startedAt: int)   // milliseconds since the epoch; an unset time is far before it

  datatype Session = Session(pid: nat, record: Record)

  /** A directory entry; its record is None when the file cannot be read as one. */
  datatype Entry = Entry(name: string, record: Option<Record>)

  datatype FindError = NotFound | CannotList(e: ListError)

  // ------------------------------------------------------------------ file names

  const SUFFIX: string := ".json"

  /** The PID a file name stands for: only its canonical decimal form counts. */
  function PidOf(name: string): Option<nat> {
    var n := |name| - |SUFFIX|;
    if n <= 0 || name[n..] != SUFFIX || !AllDigits(name[..n]) then None
    else
      match Atoi(name[..n])
      case None => None
      case Some(pid) => if Itoa(pid) == name[..n] then Some(pid) else None
  }

  function FileName(pid: nat): string { Itoa(pid) + SUFFIX }

  /** Each PID has exactly one file name. */
  lemma PidOfInvertsFileName(pid: nat)
    requires pid <= MAX_INT
    ensures PidOf(Itoa(pid) + ".json") == Some(pid) && FileName(pid) == Itoa(pid) + ".json"
  {
    ItoaValue(pid);
    hide DigitsValue;
    hide Itoa;
    var name := FileName(pid);
    assert name[..|name| - |SUFFIX|] == Itoa(pid) && name[|name| - |SUFFIX|..] == SUFFIX;
  }

  lemma FileNameInvertsPidOf(name: string)
    requires PidOf(name).Some?
    ensures name == Itoa(PidOf(name).value) + ".json" && PidOf(name).value < 0x8000_0000_0000_0000
  {
    hide Itoa;
    hide DigitsValue;
    var n := |name| - |SUFFIX|;
    assert name == name[..n] + name[n..];
  }

  // --------------------------------------------------------------------- listing

  /** The order of a listing: oldest first, equal times by PID. */
  predicate Before(a: Session, b: Session) {
    a.record.startedAt < b.record.startedAt
    || (a.record.startedAt == b.record.startedAt && a.pid < b.pid)
  }

  predicate Sorted(out: seq<Session>) {
    forall i, j | 0 <= i < j < |out| :: Before(out[i], out[j])
  }

  predicate DistinctNames(dir: seq<Entry>) {
    forall i, j | 0 <= i < j < |dir| :: dir[i].name != dir[j].name
  }

  /** The directory holds a readable entry for this session. */
  predicate Holds(dir: seq<Entry>, s: Session) {
    exists e | e in dir :: PidOf(e.name) == Some(s.pid) && e.record == Some(s.record)
  }

  /** A correct listing: sorted, and of exactly the readable entries. */
  ghost predicate IsListing(dir: seq<Entry>, out: seq<Session>) {
    Sorted(out) && forall s: Session :: s in out <==> Holds(dir, s)
  }

  lemma SamePidSameSession(dir: seq<Entry>, a: Session, b: Session)
    requires DistinctNames(dir) && Holds(dir, a) && Holds(dir, b) && a.pid == b.pid
    ensures a == b
  {
    var i :| 0 <= i < |dir| && PidOf(dir[i].name) == Some(a.pid) && dir[i].record == Some(a.record);
    var j :| 0 <= j < |dir| && PidOf(dir[j].name) == Some(b.pid) && dir[j].record == Some(b.record);
    hide PidOf;
    FileNameInvertsPidOf(dir[i].name);
    FileNameInvertsPidOf(dir[j].name);
  }

  /** In a listing every PID occurs once. */
  lemma ListingHasDistinctPids(dir: seq<Entry>, out: seq<Session>)
    requires DistinctNames(dir) && IsListing(dir, out)
    ensures forall i, j | 0 <= i < j < |out| :: out[i].pid != out[j].pid
  {
    hide Holds;
    forall i, j | 0 <= i < j < |out|
      ensures out[i].pid != out[j].pid
    {
      assert out[i] in out && out[j] in out;
      if out[i].pid == out[j].pid {
        SamePidSameSession(dir, out[i], out[j]);
      }
    }
  }

  lemma SortedTail(out: seq<Session>)
    requires Sorted(out) && out != []
    ensures Sorted(out[1..]) && out[0] !in out[1..]
    ensures forall s | s in out[1..] :: Before(out[0], s)
  {
  }

  lemma HasAnElement(out: seq<Session>)
    requires out != []
    ensures exists s: Session :: s in out
  {
    assert out[0] in out;
  }

  /** A strictly sorted sequence is determined by its elements. */
  lemma {:induction false} SortedIsUnique(a: seq<Session>, b: seq<Session>)
    requires Sorted(a) && Sorted(b)
    requires forall s: Session :: s in a <==> s in b
    ensures a == b
  {
    if a == [] {
      if b != [] {
        HasAnElement(b);
      }
    } else {
      assert a[0] in b;
      SortedTail(a);
      SortedTail(b);
      assert a == [a[0]] + a[1..] && b == [b[0]] + b[1..];
      assert b[0] in a;
      assert a[0] == b[0];
      forall s: Session ensures s in a[1..] <==> s in b[1..] {
        assert s in a <==> s == a[0] || s in a[1..];
        assert s in b <==> s == b[0] || s in b[1..];
      }
      SortedIsUnique(a[1..], b[1..]);
    }
  }

  /** The listing depends on what the directory holds and on nothing else: not on its order, not on the sort. */
  lemma ListingIsUnique(dir1: seq<Entry>, dir2: seq<Entry>, out1: seq<Session>, out2: seq<Session>)
    requires forall e :: e in dir1 <==> e in dir2
    requires IsListing(dir1, out1) && IsListing(dir2, out2)
    ensures out1 == out2
  {
    forall s: Session ensures s in out1 <==> s in out2 {
      assert Holds(dir1, s) <==> Holds(dir2, s);
    }
    SortedIsUnique(out1, out2);
  }

  predicate DistinctPids(out: seq<Session>) {
    forall i, j | 0 <= i < j < |out| :: out[i].pid != out[j].pid
  }

  /** The sessions of the sessions directory; fails exactly when the directory cannot be read. */
  method ListSessions(listing: Listing<Entry>) returns (r: Result<seq<Session>, ListError>)
    requires DistinctNames(Entries(listing))
    ensures r.Err? <==> listing.NoConfigDir? || listing.Unreadable?
    ensures r.Err? ==> Failure(listing) == Some(r.error)
    ensures r.Ok? ==> IsListing(Entries(listing), r.value) && DistinctPids(r.value)
    ensures r.Ok? ==>
              forall i, j | 0 <= i < j < |r.value| ::
                var a, b := r.value[i], r.value[j];
                a.record.startedAt < b.record.startedAt || (a.record.startedAt == b.record.startedAt && a.pid < b.pid)
    ensures listing.Missing? ==> r == Ok([])
  {
    if listing.NoConfigDir? {
      return Err(ConfigDirUnknown);
    }
    if listing.Missing? {
      NothingHeld([]);
      return Ok([]);
    }
    if listing.Unreadable? {
      return Err(DirUnreadable);
    }
    var out := ReadSessions(listing.entries);
    return Ok(out);
  }

  method ReadSessions(dir: seq<Entry>) returns (out: seq<Session>)
    requires DistinctNames(dir)
    ensures IsListing(dir, out) && DistinctPids(out)
  {
    hide PidOf;
    hide Holds;
    out := [];
    assert forall s: Session :: !Holds(dir[..0], s) by { NothingHeld(dir[..0]); }
    for k := 0 to |dir|
      invariant forall s: Session :: s in out <==> Holds(dir[..k], s)
      invariant DistinctPids(out)
    {
      ghost var before := out;
      var e := dir[k];
      var pid := PidOf(e.name);
      if pid.Some? && e.record.Some? {
        var found := Session(pid.value, e.record.value);
        NewFileNewPid(dir, k, out, found);
        out := out + [found];
        assert forall s: Session :: s in out <==> s in before || s == found;
      }
      forall s: Session ensures s in out <==> Holds(dir[..k + 1], s) {
        HoldsStep(dir, k, s);
      }
    }
    assert dir[..|dir|] == dir;
    out := SortSessions(out);
    ListingHasDistinctPids(dir, out);
  }

  lemma NothingHeld(dir: seq<Entry>)
    requires dir == []
    ensures forall s: Session :: !Holds(dir, s)
  {
  }

  lemma NewFileNewPid(dir: seq<Entry>, k: nat, out: seq<Session>, s: Session)
    requires DistinctNames(dir) && k < |dir| && PidOf(dir[k].name) == Some(s.pid)
    requires forall t | t in out :: Holds(dir[..k], t)
    ensures forall t | t in out :: t.pid != s.pid
  {
    hide PidOf;
    FileNameInvertsPidOf(dir[k].name);
    forall t | t in out ensures t.pid != s.pid {
      assert Holds(dir[..k], t);
      var j :| 0 <= j < k && PidOf(dir[..k][j].name) == Some(t.pid);
      FileNameInvertsPidOf(dir[j].name);
    }
  }

  lemma HoldsStep(dir: seq<Entry>, k: nat, s: Session)
    requires k < |dir|
    ensures Holds(dir[..k + 1], s) <==>
            Holds(dir[..k], s) || (PidOf(dir[k].name) == Some(s.pid) && dir[k].record == Some(s.record))
  {
    hide PidOf;
    assert dir[..k + 1] == dir[..k] + [dir[k]];
    assert forall e :: e in dir[..k + 1] <==> e in dir[..k] || e == dir[k];
  }

  /** Sorting by start time and PID; any other correct sort gives the same sequence. */
  method SortSessions(found: seq<Session>) returns (out: seq<Session>)
    requires DistinctPids(found)
    ensures Sorted(out) && forall s: Session :: s in out <==> s in found
  {
    out := [];
    for k := 0 to |found|
      invariant Sorted(out)
      invariant forall s: Session :: s in out <==> s in found[..k]
    {
      assert found[..k + 1] == found[..k] + [found[k]];
      out := Insert(out, found[k]);
    }
    assert found[..|found|] == found;
  }

  /** `out` with `s` put in its place. */
  function Insert(out: seq<Session>, s: Session): (r: seq<Session>)
    requires Sorted(out) && forall t | t in out :: t.pid != s.pid
    ensures Sorted(r) && forall t: Session :: t in r <==> t in out || t == s
  {
    if out == [] then [s]
    else if Before(s, out[0]) then [s] + out
    else
      SortedTail(out);
      assert out == [out[0]] + out[1..];
      assert out[0] in out;
      [out[0]] + Insert(out[1..], s)
  }

  // --------------------------------------------------------------------- finding

  /** `FindByPID` on a listing: the first entry with the PID, which is the only one. */
  method FindByPID(sessions: seq<Session>, pid: int) returns (r: Result<Session, FindError>)
    ensures r.Ok? ==> r.value in sessions && r.value.pid == pid
    ensures r.Err? ==> r == Err(NotFound) && forall s | s in sessions :: s.pid != pid
  {
    for k := 0 to |sessions|
      invariant forall j | 0 <= j < k :: sessions[j].pid != pid
    {
      if sessions[k].pid == pid {
        return Ok(sessions[k]);
      }
    }
    return Err(NotFound);
  }

  /** `Session.Verify`. */
  predicate Verifies(s: Session, sessionID: string) { sessionID != "" && s.record.sessionID == sessionID }

  /** `Session.MatchesProcess`. */
  predicate MatchesProcess(s: Session, procStart: string) { procStart != "" && s.record.procStart == procStart }

  /** What a directory says about a PID. */
  function Lookup(dir: seq<Entry>, pid: int): Option<Record> {
    if dir == [] then None
    else if pid >= 0 && PidOf(dir[0].name) == Some(pid) && dir[0].record.Some? then dir[0].record
    else Lookup(dir[1..], pid)
  }

  lemma {:induction false} LookupIsHolds(dir: seq<Entry>, pid: int)
    requires DistinctNames(dir)
    ensures forall r: Record :: pid >= 0 && Holds(dir, Session(pid, r)) <==> Lookup(dir, pid) == Some(r)
  {
    hide PidOf;
    if dir != [] {
      var rest := dir[1..];
      LookupIsHolds(rest, pid);
      assert forall e :: e in dir <==> e == dir[0] || e in rest;
      if pid >= 0 && PidOf(dir[0].name) == Some(pid) && dir[0].record.Some? {
        forall r: Record ensures Holds(dir, Session(pid, r)) ==> r == dir[0].record.value {
          assert dir[0] in dir;
          assert Holds(dir, Session(pid, dir[0].record.value));
          if Holds(dir, Session(pid, r)) {
            SamePidSameSession(dir, Session(pid, r), Session(pid, dir[0].record.value));
          }
        }
      }
      forall r: Record ensures pid >= 0 && Holds(dir, Session(pid, r)) <==> Lookup(dir, pid) == Some(r) {
        assert Lookup(rest, pid) == Some(r) <==> pid >= 0 && Holds(rest, Session(pid, r));
      }
    }
  }

  /** Finding by PID is looking the PID's own file up. */
  method FindEntry(listing: Listing<Entry>, pid: int) returns (r: Result<Session, FindError>)
    requires DistinctNames(Entries(listing))
    ensures r.Ok? <==> Lookup(Entries(listing), pid).Some?
    ensures r.Ok? ==> r.value.pid == pid && Some(r.value.record) == Lookup(Entries(listing), pid)
    ensures r.Err? ==> r == Err(WhyNot(listing))
  {
    hide Holds;
    var sessions := ListSessions(listing);
    if sessions.Err? {
      return Err(CannotList(sessions.error));
    }
    r := FindByPID(sessions.value, pid);
    var dir := Entries(listing);
    LookupIsHolds(dir, pid);
    if Lookup(dir, pid).Some? {
      LookupHasPid(dir, pid);
      assert Session(pid, Lookup(dir, pid).value) in sessions.value;
    }
  }

  /** Why a session is not found. */
  function WhyNot(listing: Listing<Entry>): FindError {
    match Failure(listing)
    case Some(e) => CannotList(e)
    case None => NotFound
  }

  lemma {:induction false} LookupHasPid(dir: seq<Entry>, pid: int)
    requires Lookup(dir, pid).Some?
    ensures pid >= 0
  {
    if !(pid >= 0 && PidOf(dir[0].name) == Some(pid) && dir[0].record.Some?) {
      LookupHasPid(dir[1..], pid);
    }
  }

  /** `FindByPIDForSession`: found exactly when the PID's file carries the session id. */
  method FindByPIDForSession(listing: Listing<Entry>, pid: int, sessionID: string)
    returns (r: Result<Session, FindError>)
    requires DistinctNames(Entries(listing))
    ensures var found := Lookup(Entries(listing), pid);
            && (r.Ok? <==> found.Some? && sessionID != "" && found.value.sessionID == sessionID)
            && (r.Ok? ==> r.value.pid == pid && Some(r.value.record) == found)
    ensures r.Err? ==> r == Err(WhyNot(listing))
  {
    r := FindEntry(listing, pid);
    if r.Ok? && !Verifies(r.value, sessionID) {
      r := Err(NotFound);
    }
  }

  /** `FindByPIDForProcess`: found exactly when the PID's file carries the start token. */
  method FindByPIDForProcess(listing: Listing<Entry>, pid: int, procStart: string)
    returns (r: Result<Session, FindError>)
    requires DistinctNames(Entries(listing))
    ensures var found := Lookup(Entries(listing), pid);
            && (r.Ok? <==> found.Some? && procStart != "" && found.value.procStart == procStart)
            && (r.Ok? ==> r.value.pid == pid && Some(r.value.record) == found)
    ensures r.Err? ==> r == Err(WhyNot(listing))
  {
    r := FindEntry(listing, pid);
    if r.Ok? && !MatchesProcess(r.value, procStart) {
      r := Err(NotFound);
    }
  }
}
