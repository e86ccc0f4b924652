/**
  Auth keys: canonical socket paths, key file names, and looking a token up among the
  key files published for one socket.
 */
module Keys {
  import opened Text
  import opened Directory

  // ------------------------------------------------------------- canonical paths

  datatype PathError = EmptyPath | ParentSegment

  /** The segments that stand for a directory level. */
  function Real(segs: seq<string>): seq<string> {
    if segs == [] then []
    else (if segs[0] == "" || segs[0] == "." then [] else [segs[0]]) + Real(segs[1..])
  }

  /** `filepath.Clean` on the segments of a rooted path, `done` being cleaned already. */
  function CleanFrom(done: seq<string>, segs: seq<string>): seq<string>
    decreases segs
  {
    if segs == [] then done
    else if segs[0] == "" || segs[0] == "." then CleanFrom(done, segs[1..])
    else if segs[0] == ".." then CleanFrom(if done == [] then [] else done[..|done| - 1], segs[1..])
    else CleanFrom(done + [segs[0]], segs[1..])
  }

  /** The rooted path made of these segments. */
  function Rooted(segs: seq<string>): string { "/" + Join(segs, '/') }

  /** `filepath.Clean` of a rooted path. */
  function Clean(path: string): string { Rooted(CleanFrom([], Split(path, '/'))) }

  predicate IsAbs(path: string) { "/" <= path }

  /** `filepath.Abs` in the working directory `cwd`. */
  function Abs(path: string, cwd: string): string {
    if IsAbs(path) then Clean(path) else Clean(cwd + "/" + path)
  }

  /** `canonicalSocketPath`. */
  function Canonical(path: string, cwd: string): Result<string, PathError> {
    if path == "" then Err(EmptyPath)
    else if ".." in Split(path, '/') then Err(ParentSegment)
    else Ok(Abs(path, cwd))
  }

  /** The directory levels a path names, from the root. */
  function Levels(path: string, cwd: string): seq<string> {
    (if IsAbs(path) then [] else Real(Split(cwd, '/'))) + Real(Split(path, '/'))
  }

  /** What a system reports as the working directory. */
  predicate CleanAbsolute(cwd: string) { IsAbs(cwd) && ".." !in Split(cwd, '/') }

  lemma {:induction false} CleanKeepsReal(done: seq<string>, segs: seq<string>)
    requires ".." !in segs
    ensures CleanFrom(done, segs) == done + Real(segs)
    decreases segs
  {
    if segs != [] {
      assert segs[0] in segs;
      assert segs[0] == "" || segs[0] == "." || done + Real(segs) == (done + [segs[0]]) + Real(segs[1..]);
      CleanKeepsReal(if segs[0] == "" || segs[0] == "." then done else done + [segs[0]], segs[1..]);
    }
  }

  lemma {:induction false} RealConcat(a: seq<string>, b: seq<string>)
    ensures Real(a + b) == Real(a) + Real(b)
  {
    if a == [] {
      assert a + b == b;
    } else {
      assert (a + b)[1..] == a[1..] + b;
      RealConcat(a[1..], b);
    }
  }

  lemma {:induction false} RealKeeps(segs: seq<string>)
    ensures forall s | s in Real(segs) :: s in segs && s != "" && s != "."
  {
    if segs != [] {
      RealKeeps(segs[1..]);
    }
  }

  lemma {:induction false} RealIsIdentity(segs: seq<string>)
    requires forall s | s in segs :: s != "" && s != "."
    ensures Real(segs) == segs
  {
    if segs != [] {
      assert segs[0] in segs;
      assert forall s | s in segs[1..] :: s in segs;
      RealIsIdentity(segs[1..]);
    }
  }

  /** A path without parent segments canonicalises by dropping only empty and `.` segments. */
  lemma CanonicalIsLevels(path: string, cwd: string)
    requires CleanAbsolute(cwd) && path != "" && ".." !in Split(path, '/')
    ensures Canonical(path, cwd) == Ok(Rooted(Levels(path, cwd)))
  {
    hide Split;
    if IsAbs(path) {
      CleanKeepsReal([], Split(path, '/'));
      assert [] + Real(Split(path, '/')) == Real(Split(path, '/'));
    } else {
      assert cwd + "/" + path == cwd + ['/'] + path;
      SplitAround(cwd, '/', path);
      var all := Split(cwd, '/') + Split(path, '/');
      assert ".." !in all;
      CleanKeepsReal([], all);
      assert [] + Real(all) == Real(all);
      RealConcat(Split(cwd, '/'), Split(path, '/'));
    }
  }

  predicate GoodLevels(segs: seq<string>) {
    SepFree(segs, '/') && forall s | s in segs :: s != "" && s != "." && s != ".."
  }

  lemma LevelsAreGood(path: string, cwd: string)
    requires CleanAbsolute(cwd) && ".." !in Split(path, '/')
    ensures GoodLevels(Levels(path, cwd))
  {
    hide Split;
    hide Real;
    SplitPieces(cwd, '/');
    SplitPieces(path, '/');
    RealKeeps(Split(cwd, '/'));
    RealKeeps(Split(path, '/'));
    var ls := Levels(path, cwd);
    forall k | 0 <= k < |ls| ensures '/' !in ls[k] && ls[k] != ".." {
      assert ls[k] in ls;
      assert ls[k] in Split(cwd, '/') || ls[k] in Split(path, '/');
    }
  }

  /** A rooted path splits into an empty piece and its levels. */
  lemma SplitRooted(segs: seq<string>)
    requires GoodLevels(segs)
    ensures Split(Rooted(segs), '/') == [""] + (if segs == [] then [""] else segs)
  {
    hide Join;
    assert Rooted(segs) == "" + ['/'] + Join(segs, '/');
    SplitFirst("", '/', Join(segs, '/'));
    if segs == [] {
      EmptyJoinSplits();
    } else {
      hide Split;
      SplitOfJoin(segs, '/');
    }
  }

  lemma EmptyJoinSplits()
    ensures Split(Join([], '/'), '/') == [""]
  {
  }

  lemma LevelsOfRooted(segs: seq<string>, cwd: string)
    requires GoodLevels(segs)
    ensures Levels(Rooted(segs), cwd) == segs && ".." !in Split(Rooted(segs), '/')
  {
    SplitRooted(segs);
    hide Split;
    hide Join;
    RealConcat([""], if segs == [] then [""] else segs);
    RealIsIdentity(segs);
    assert Real([""]) == [] by { assert [""][1..] == []; }
  }

  /**
    Canonicalising is refused exactly for an empty path or one with a parent segment; the
    result is never refused and canonicalises to itself, in any working directory.
   */
  lemma CanonicalIsAFixedPoint(path: string, cwd: string, cwd': string)
    requires CleanAbsolute(cwd) && CleanAbsolute(cwd')
    ensures Canonical(path, cwd).Ok? <==> path != "" && ".." !in Split(path, '/')
    ensures Canonical(path, cwd).Ok? ==> Canonical(Canonical(path, cwd).value, cwd') == Canonical(path, cwd)
  {
    hide Split;
    hide Levels;
    hide Rooted;
    hide Abs;
    if Canonical(path, cwd).Ok? {
      CanonicalIsLevels(path, cwd);
      LevelsAreGood(path, cwd);
      var r := Rooted(Levels(path, cwd));
      LevelsOfRooted(Levels(path, cwd), cwd');
      RootedIsNotEmpty(Levels(path, cwd));
      CanonicalIsLevels(r, cwd');
    }
  }

  lemma RootedIsNotEmpty(segs: seq<string>)
    ensures Rooted(segs) != ""
  {
  }

  /** Two spellings have the same canonical path exactly when they name the same levels. */
  lemma CanonicalAgreesIff(p: string, q: string, cwd: string)
    requires CleanAbsolute(cwd) && Canonical(p, cwd).Ok? && Canonical(q, cwd).Ok?
    ensures Canonical(p, cwd) == Canonical(q, cwd) <==> Levels(p, cwd) == Levels(q, cwd)
  {
    hide Split;
    hide Levels;
    hide Rooted;
    hide Abs;
    CanonicalIsLevels(p, cwd);
    CanonicalIsLevels(q, cwd);
    LevelsAreGood(p, cwd);
    LevelsAreGood(q, cwd);
    LevelsOfRooted(Levels(p, cwd), cwd);
    LevelsOfRooted(Levels(q, cwd), cwd);
  }

  // --------------------------------------------------------------- key file names

  predicate LowerHex(s: string) { forall i | 0 <= i < |s| :: IsDigit(s[i]) || 'a' <= s[i] <= 'f' }

  /** SHA-256 in hexadecimal, as far as it matters: some function to 64 lower-case hex digits. */
  type HashFn = h: string -> string | forall s :: |h(s)| == 64 && LowerHex(h(s))
    witness (s: string) => seq(64, _ => '0')

  /** `keyFileSuffix`. */
  function KeySuffix(path: string, cwd: string, h: HashFn): Result<string, PathError> {
    match Canonical(path, cwd)
    case Err(e) => Err(e)
    case Ok(canonical) => Ok("." + h(canonical) + ".key")
  }

  /** `KeyFileName`. */
  function KeyFileName(pid: nat, path: string, cwd: string, h: HashFn): Result<string, PathError> {
    match KeySuffix(path, cwd, h)
    case Err(e) => Err(e)
    case Ok(suffix) => Ok(Itoa(pid) + suffix)
  }

  const SUFFIX_LENGTH: nat := 69

  predicate HasSuffix(s: string, suffix: string) {
    |suffix| <= |s| && s[|s| - |suffix|..] == suffix
  }

  /** The owner a well-formed key file name gives: decimal digits, a 64-digit hash, `.key`. */
  function OwnerPid(name: string): Option<nat> {
    var n := |name| - SUFFIX_LENGTH;
    if n <= 0 || !AllDigits(name[..n]) || name[n] != '.' || !LowerHex(name[n + 1..n + 65]) || name[n + 65..] != ".key"
    then None
    else Atoi(name[..n])
  }

  /** A published key file passes both name filters for every spelling of its socket's path. */
  lemma PublishedNameIsFound(pid: nat, p: string, q: string, cwd: string, h: HashFn)
    requires pid <= MAX_INT
    ensures Canonical(p, cwd).Ok? && Canonical(p, cwd) == Canonical(q, cwd) ==>
            && KeySuffix(q, cwd, h).Ok? && KeyFileName(pid, p, cwd, h).Ok?
            && HasSuffix(KeyFileName(pid, p, cwd, h).value, KeySuffix(q, cwd, h).value)
            && OwnerPid(KeyFileName(pid, p, cwd, h).value) == Some(pid)
  {
    hide Canonical;
    if Canonical(p, cwd).Ok? && Canonical(p, cwd) == Canonical(q, cwd) {
      PublishedName(pid, Canonical(p, cwd).value, p, cwd, h);
    }
  }

  lemma PublishedName(pid: nat, canonical: string, p: string, cwd: string, h: HashFn)
    requires pid <= MAX_INT && Canonical(p, cwd) == Ok(canonical)
    ensures HasSuffix(KeyFileName(pid, p, cwd, h).value, "." + h(canonical) + ".key")
    ensures OwnerPid(KeyFileName(pid, p, cwd, h).value) == Some(pid)
  {
    hide Canonical;
    ItoaValue(pid);
    hide Itoa;
    hide DigitsValue;
    hide LowerHex;
    var hash := h(Canonical(p, cwd).value);
    var name := KeyFileName(pid, p, cwd, h).value;
    var n := |Itoa(pid)|;
    assert name == Itoa(pid) + ("." + hash + ".key");
    assert name[..n] == Itoa(pid);
    assert name[n..] == "." + hash + ".key";
    assert name[n + 1..n + 65] == hash && name[n + 65..] == ".key";
  }

  // -------------------------------------------------------------------- the lookup

  datatype KeyFile = KeyFile(peerToken: string, procStart: string)

  /** A directory entry; its content is None when it cannot be read as a key file. */
  datatype Entry = Entry(name: string, content: Option<KeyFile>)

  /** What the system says about processes: which are alive, and their start tokens where readable. */
  datatype Processes = Processes(alive: set<nat>, startTokens: map<nat, string>)

  /** `rankKeyOwner`: 2 corroborated, 1 alive but unverifiable, 0 gone. */
  function Rank(pid: nat, procStart: string, os: Processes): nat {
    if pid <= 1 || pid !in os.alive then 0
    else if procStart == "" then 1
    else if pid !in os.startTokens then 1
    else if os.startTokens[pid] == procStart then 2
    else 0
  }

  /** The form a peer token must have. */
  predicate PeerToken(token: string) { |token| == 32 && LowerHex(token) }

  /** An entry that names this socket and holds a well-formed token. */
  predicate Candidate(e: Entry, suffix: string) {
    HasSuffix(e.name, suffix) && OwnerPid(e.name).Some? && e.content.Some? && PeerToken(e.content.value.peerToken)
  }

  function EntryRank(e: Entry, suffix: string, os: Processes): nat
    requires Candidate(e, suffix)
  {
    Rank(OwnerPid(e.name).value, e.content.value.procStart, os)
  }

  /** Entry `k` is the first candidate of the highest rank among the first `n`. */
  predicate Best(dir: seq<Entry>, suffix: string, os: Processes, n: nat, k: nat) {
    && k < n <= |dir| && Candidate(dir[k], suffix)
    && (forall j | 0 <= j < k && Candidate(dir[j], suffix) ::
          EntryRank(dir[j], suffix, os) < EntryRank(dir[k], suffix, os))
    && (forall j | k <= j < n && Candidate(dir[j], suffix) ::
          EntryRank(dir[j], suffix, os) <= EntryRank(dir[k], suffix, os))
  }

  predicate NoCandidate(dir: seq<Entry>, suffix: string, n: nat) {
    n <= |dir| && forall j | 0 <= j < n :: !Candidate(dir[j], suffix)
  }

  /** The index of the best of the first `n` entries. */
  function BestIndex(dir: seq<Entry>, suffix: string, os: Processes, n: nat): (k: Option<nat>)
    requires n <= |dir|
    ensures match k
            case None => NoCandidate(dir, suffix, n)
            case Some(i) => Best(dir, suffix, os, n, i)
  {
    if n == 0 then None
    else
      var k := BestIndex(dir, suffix, os, n - 1);
      if !Candidate(dir[n - 1], suffix) then k
      else if k.Some? && EntryRank(dir[n - 1], suffix, os) <= EntryRank(dir[k.value], suffix, os) then k
      else Some(n - 1)
  }

  /** The token of the best entry, or none. */
  function TokenOf(dir: seq<Entry>, suffix: string, os: Processes): string {
    match BestIndex(dir, suffix, os, |dir|)
    case None => ""
    case Some(k) => dir[k].content.value.peerToken
  }

  /** The ranking loop of `LookupToken`. */
  method BestToken(dir: seq<Entry>, suffix: string, os: Processes) returns (bestToken: string)
    ensures bestToken == TokenOf(dir, suffix, os)
  {
    var bestRank: int := -1;
    bestToken := "";
    for i := 0 to |dir|
      invariant match BestIndex(dir, suffix, os, i)
                case None => bestToken == "" && bestRank == -1
                case Some(k) => bestToken == dir[k].content.value.peerToken
                                && bestRank == EntryRank(dir[k], suffix, os)
    {
      hide HasSuffix;
      hide OwnerPid;
      hide PeerToken;
      hide Rank;
      hide Best;
      hide NoCandidate;
      var e := dir[i];
      if !HasSuffix(e.name, suffix) {
        continue;
      }
      var owner := OwnerPid(e.name);
      if owner.None? {
        continue;
      }
      if e.content.None? || !PeerToken(e.content.value.peerToken) {
        continue;
      }
      var rank := Rank(owner.value, e.content.value.procStart, os);
      if rank > bestRank {
        bestToken, bestRank := e.content.value.peerToken, rank;
      }
    }
  }

  datatype LookupError = CannotList(e: ListError) | BadPath(p: PathError)

  /** What a lookup answers. */
  function Answer(path: string, cwd: string, h: HashFn, listing: Listing<Entry>, os: Processes)
    : Result<string, LookupError>
  {
    if listing.NoConfigDir? then Err(CannotList(ConfigDirUnknown))
    else
      match KeySuffix(path, cwd, h)
      case Err(e) => Err(BadPath(e))
      case Ok(suffix) =>
        if Failure(listing).Some? then Err(CannotList(Failure(listing).value))
        else Ok(TokenOf(Entries(listing), suffix, os))
  }

  /** `LookupToken`: the token of the best key file, or none when no file is a candidate. */
  method LookupToken(path: string, cwd: string, h: HashFn, listing: Listing<Entry>, os: Processes)
    returns (r: Result<string, LookupError>)
    ensures r == Answer(path, cwd, h, listing, os)
    ensures r.Err? <==> listing.NoConfigDir? || listing.Unreadable? || KeySuffix(path, cwd, h).Err?
    ensures r.Ok? ==>
              var dir, suffix := Entries(listing), KeySuffix(path, cwd, h).value;
              || (r.value == "" && NoCandidate(dir, suffix, |dir|))
              || exists k: nat :: Best(dir, suffix, os, |dir|, k) && r.value == dir[k].content.value.peerToken
  {
    hide KeySuffix;
    hide Best;
    hide NoCandidate;
    if listing.NoConfigDir? {
      return Err(CannotList(ConfigDirUnknown));
    }
    var suffix := KeySuffix(path, cwd, h);
    if suffix.Err? {
      return Err(BadPath(suffix.error));
    }
    ghost var best := BestIndex(Entries(listing), suffix.value, os, |Entries(listing)|);
    if listing.Missing? {
      return Ok("");
    }
    if listing.Unreadable? {
      return Err(CannotList(DirUnreadable));
    }
    var token := BestToken(listing.entries, suffix.value, os);
    return Ok(token);
  }

  /**
    A key file published for a socket is found under every spelling of the socket's path:
    the lookup yields some well-formed token, and that file's own token if no other file
    competes with it.
   */
  lemma PublishedTokenIsFound(dir: seq<Entry>, j: nat, kf: KeyFile, pid: nat, p: string, q: string,
                              cwd: string, h: HashFn, os: Processes)
    requires j < |dir| && pid <= MAX_INT && PeerToken(kf.peerToken)
    requires Canonical(p, cwd).Ok? && Canonical(p, cwd) == Canonical(q, cwd)
    requires KeyFileName(pid, p, cwd, h).Ok? && dir[j] == Entry(KeyFileName(pid, p, cwd, h).value, Some(kf))
    ensures var r := Answer(q, cwd, h, Listed(dir), os);
            && r.Ok? && PeerToken(r.value)
            && var suffix := KeySuffix(q, cwd, h).value;
               (forall i | 0 <= i < |dir| && Candidate(dir[i], suffix) :: i == j) ==> r.value == kf.peerToken
  {
    hide Canonical;
    hide KeySuffix;
    hide KeyFileName;
    hide HasSuffix;
    hide OwnerPid;
    hide PeerToken;
    hide TokenOf;
    PublishedNameIsFound(pid, p, q, cwd, h);
    var suffix := KeySuffix(q, cwd, h).value;
    assert Candidate(dir[j], suffix);
    FoundIfCandidate(dir, j, suffix, os);
  }

  lemma FoundIfCandidate(dir: seq<Entry>, j: nat, suffix: string, os: Processes)
    requires j < |dir| && Candidate(dir[j], suffix)
    ensures PeerToken(TokenOf(dir, suffix, os))
    ensures (forall i | 0 <= i < |dir| && Candidate(dir[i], suffix) :: i == j) ==>
              TokenOf(dir, suffix, os) == dir[j].content.value.peerToken
  {
    hide HasSuffix;
    hide OwnerPid;
    hide PeerToken;
    hide BestIndex;
    var k := BestIndex(dir, suffix, os, |dir|);
    assert k.Some? ==> Candidate(dir[k.value], suffix);
  }

  /** The looked-up token is well formed, and empty exactly when no entry is a candidate. */
  lemma TokenIsEmptyIff(dir: seq<Entry>, suffix: string, os: Processes)
    ensures TokenOf(dir, suffix, os) == "" <==> NoCandidate(dir, suffix, |dir|)
    ensures TokenOf(dir, suffix, os) != "" ==> PeerToken(TokenOf(dir, suffix, os))
  {
    hide OwnerPid;
    hide HasSuffix;
    hide BestIndex;
    var k := BestIndex(dir, suffix, os, |dir|);
    assert k.Some? ==> Candidate(dir[k.value], suffix);
  }

  /** Only one entry is best, so the outcome of a lookup is determined. */
  lemma BestIsUnique(dir: seq<Entry>, suffix: string, os: Processes, j: nat, k: nat)
    requires Best(dir, suffix, os, |dir|, j) && Best(dir, suffix, os, |dir|, k)
    ensures j == k
  {
    hide Candidate;
    hide EntryRank;
    assert Candidate(dir[j], suffix) && Candidate(dir[k], suffix);
  }

  /** The owner runs and its start token is the one the key file recorded. */
  predicate Corroborated(e: Entry, os: Processes)
    requires OwnerPid(e.name).Some? && e.content.Some?
  {
    var owner, recorded := OwnerPid(e.name).value, e.content.value.procStart;
    owner > 1 && owner in os.alive && recorded != "" && owner in os.startTokens && os.startTokens[owner] == recorded
  }

  /** The owner runs and nothing says that it is another process than the one that wrote the file. */
  predicate Uncontradicted(e: Entry, os: Processes)
    requires OwnerPid(e.name).Some? && e.content.Some?
  {
    var owner, recorded := OwnerPid(e.name).value, e.content.value.procStart;
    && owner > 1 && owner in os.alive
    && (recorded == "" || owner !in os.startTokens || os.startTokens[owner] == recorded)
  }

  /** `a` is at least as good an owner as `b`. */
  predicate AtLeast(a: Entry, b: Entry, os: Processes)
    requires OwnerPid(a.name).Some? && a.content.Some? && OwnerPid(b.name).Some? && b.content.Some?
  {
    (Corroborated(b, os) ==> Corroborated(a, os)) && (Uncontradicted(b, os) ==> Uncontradicted(a, os))
  }

  /**
    The best entry is the first candidate that is at least as good as every other: a
    corroborated owner before one that is merely not contradicted, that one before a dead
    or contradicted one, and the earlier entry where neither is better.
   */
  lemma BestIff(dir: seq<Entry>, suffix: string, os: Processes, k: nat)
    requires k < |dir| && Candidate(dir[k], suffix)
    ensures Best(dir, suffix, os, |dir|, k) <==>
            forall j | 0 <= j < |dir| && Candidate(dir[j], suffix) ::
              AtLeast(dir[k], dir[j], os) && (j < k ==> !AtLeast(dir[j], dir[k], os))
  {
    forall j | 0 <= j < |dir| && Candidate(dir[j], suffix)
      ensures AtLeast(dir[k], dir[j], os) <==> EntryRank(dir[j], suffix, os) <= EntryRank(dir[k], suffix, os)
      ensures AtLeast(dir[j], dir[k], os) <==> EntryRank(dir[k], suffix, os) <= EntryRank(dir[j], suffix, os)
    {
      RankIsQuality(dir[k], dir[j], suffix, os);
      RankIsQuality(dir[j], dir[k], suffix, os);
    }
    hide Candidate;
    hide AtLeast;
    hide EntryRank;
  }

  lemma RankIsQuality(a: Entry, b: Entry, suffix: string, os: Processes)
    requires Candidate(a, suffix) && Candidate(b, suffix)
    ensures AtLeast(a, b, os) <==> EntryRank(b, suffix, os) <= EntryRank(a, suffix, os)
  {
    hide OwnerPid;
    hide HasSuffix;
    hide PeerToken;
  }

  /**
    Whenever some candidate's owner is corroborated the winner's is too; whenever some
    candidate's owner is alive and not contradicted so is the winner's; and when all are
    dead or contradicted the first candidate wins.
   */
  lemma CorroboratedOwnerWins(dir: seq<Entry>, suffix: string, os: Processes, j: nat, k: nat)
    requires Best(dir, suffix, os, |dir|, k) && j < |dir| && Candidate(dir[j], suffix)
    ensures Corroborated(dir[j], os) ==> Corroborated(dir[k], os)
    ensures Uncontradicted(dir[j], os) ==> Uncontradicted(dir[k], os)
    ensures (forall i | 0 <= i < |dir| && Candidate(dir[i], suffix) :: !Uncontradicted(dir[i], os)) ==> k <= j
  {
    BestIff(dir, suffix, os, k);
    hide Best;
    hide OwnerPid;
    hide HasSuffix;
    hide PeerToken;
  }

  // -------------------------------------------------- what is looked at at all

  lemma LowerHexIs(s: string)
    ensures LowerHex(s) <==> forall i | 0 <= i < |s| :: s[i] in DIGITS
  {
    assert forall c: char :: (IsDigit(c) || 'a' <= c <= 'f') <==> c in DIGITS;
  }

  /**
    The candidates for a socket are exactly the files named by a 64-bit decimal number, a
    dot, the hash of the canonical path, and `.key`, whose token is 32 lower-case
    hexadecimal digits.
   */
  lemma CandidateIff(e: Entry, path: string, cwd: string, h: HashFn)
    requires Canonical(path, cwd).Ok?
    ensures var suffix, n := "." + h(Canonical(path, cwd).value) + ".key", |e.name| - 69;
            Candidate(e, suffix) <==>
              && n > 0 && e.name[n..] == suffix
              && (forall i | 0 <= i < n :: '0' <= e.name[i] <= '9')
              && DigitsValue(e.name[..n]) < 0x8000_0000_0000_0000
              && e.content.Some? && |e.content.value.peerToken| == 32
              && forall i | 0 <= i < 32 :: e.content.value.peerToken[i] in DIGITS
  {
    var hash := h(Canonical(path, cwd).value);
    hide Canonical;
    if e.content.Some? {
      LowerHexIs(e.content.value.peerToken);
    }
    NamedFor(e.name, hash);
    hide OwnerPid;
    hide HasSuffix;
    hide LowerHex;
    hide DIGITS;
    hide DigitsValue;
  }

  lemma NamedFor(name: string, hash: string)
    requires |hash| == 64 && LowerHex(hash)
    ensures var suffix, n := "." + hash + ".key", |name| - 69;
            HasSuffix(name, suffix) && OwnerPid(name).Some? <==>
              && n > 0 && name[n..] == suffix
              && (forall i | 0 <= i < n :: '0' <= name[i] <= '9')
              && DigitsValue(name[..n]) < 0x8000_0000_0000_0000
  {
    var suffix, n := "." + hash + ".key", |name| - 69;
    assert |suffix| == 69;
    hide LowerHex;
    hide DigitsValue;
    if n > 0 && name[n..] == suffix {
      SuffixParts(name, n, hash);
      assert AllDigits(name[..n]) <==> forall i | 0 <= i < n :: '0' <= name[i] <= '9';
    }
  }

  lemma SuffixParts(name: string, n: nat, hash: string)
    requires |hash| == 64 && n + 69 == |name| && name[n..] == "." + hash + ".key"
    ensures name[n] == '.' && name[n + 1..n + 65] == hash && name[n + 65..] == ".key"
  {
    assert name[n] == name[n..][0];
    assert name[n + 1..n + 65] == name[n..][1..65];
    assert name[n + 65..] == name[n..][65..];
  }
}
