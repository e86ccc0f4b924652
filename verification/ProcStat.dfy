/**
  Reading a process's start token out of the text of /proc/<pid>/stat.
 */
module ProcStat {
  import opened Text

  datatype StatError = Unparseable | TooFewFields

  /** The parse in `processStartToken`: field 22, counted from after the last closing paren. */
  function ParseStat(s: string): Result<string, StatError> {
    var commEnd := LastIndexOf(s, ')');
    if commEnd < 0 || commEnd + 2 > |s| then Err(Unparseable)
    else
      var fields := Split(s[commEnd + 2..], ' ');
      if |fields| < 20 then Err(TooFewFields) else Ok(fields[19])
  }

  /** The text the kernel prints: pid, command name in parens, then the remaining fields. */
  function PrintStat(pid: string, comm: string, fields: seq<string>): string {
    pid + " (" + comm + ") " + Join(fields, ' ')
  }

  lemma {:induction false} JoinAvoids(fields: seq<string>, c: char)
    requires SepFree(fields, c) && c != ' '
    ensures c !in Join(fields, ' ')
  {
    if |fields| > 1 {
      JoinAvoids(fields[1..], c);
    }
  }

  /**
    Whatever the command name holds, closing parens, spaces and newlines included, the
    parse finds field 22 of a printed line, and fails exactly when there is none.
   */
  lemma ParseInvertsPrint(pid: string, comm: string, fields: seq<string>)
    requires fields != [] && SepFree(fields, ' ') && SepFree(fields, ')')
    ensures ParseStat(PrintStat(pid, comm, fields))
         == if |fields| >= 20 then Ok(fields[19]) else Err(TooFewFields)
  {
    hide LastIndexOf;
    hide Split;
    hide Join;
    var head, rest := pid + " (" + comm, Join(fields, ' ');
    var s := PrintStat(pid, comm, fields);
    assert s == head + (") " + rest);
    assert s[|head|] == ')' && s[|head| + 1..] == " " + rest && s[|head| + 2..] == rest;
    JoinAvoids(fields, ')');
    LastIndexOfUnique(s, ')', |head|);
    SplitOfJoin(fields, ' ');
  }

  /** What starts two bytes after the last `)` of an accepted text is that many fields, the token being field 22. */
  lemma ParsedStatIsPrinted(s: string) returns (n: nat, fields: seq<string>)
    requires ParseStat(s).Ok?
    ensures n + 2 <= |s| && s[n] == ')' && ')' !in s[n + 1..]
    ensures s[n + 2..] == Join(fields, ' ') && SepFree(fields, ' ')
    ensures |fields| >= 20 && ParseStat(s) == Ok(fields[19])
  {
    hide LastIndexOf;
    hide Split;
    hide Join;
    hide SepFree;
    n := LastIndexOf(s, ')');
    fields := Split(s[n + 2..], ' ');
    JoinOfSplit(s[n + 2..], ' ');
    SplitPieces(s[n + 2..], ' ');
  }
}
