/**
  The line scanner a connection is read through: `bufio.Scanner` with the buffer the
  inbox gives it, 64 KiB growing to 1 MiB, over a connection that delivers its bytes
  in reads of any size.
 */
module Scanner {
  import opened Text

  /** The longest line, newline included, and so the largest buffer. */
  const MAX_FRAME_BYTES: nat := 0x10_0000
  const INITIAL_BUFFER: nat := 0x1_0000

  // ------------------------------------------------------------- specification

  function DropCR(line: string): string {
    if line != "" && line[|line| - 1] == '\r' then line[..|line| - 1] else line
  }

  /**
    The lines handed out for a whole stream: cut at newlines, one trailing carriage
    return dropped, an unterminated last line kept, and nothing from the first line
    of 2^20 bytes or more on.
   */
  function Lines(s: string): seq<string>
    decreases |s|
  {
    var i := IndexOf(s, '\n');
    if s == "" then []
    else if i < 0 then (if |s| < MAX_FRAME_BYTES then [DropCR(s)] else [])
    else if i < MAX_FRAME_BYTES then [DropCR(s[..i])] + Lines(s[i + 1..])
    else []
  }

  function Concat(chunks: seq<string>): string {
    if chunks == [] then "" else chunks[0] + Concat(chunks[1..])
  }

  function DropEmptyLast(parts: seq<string>): seq<string>
    requires parts != []
  {
    if parts[|parts| - 1] == "" then parts[..|parts| - 1] else parts
  }

  /** A read of a stream socket returns at least one byte, or no bytes and an error. */
  predicate NonEmpty(chunks: seq<string>) { forall k | 0 <= k < |chunks| :: chunks[k] != "" }

  /** What is left to deliver after `n` bytes of the first chunk. */
  function After(chunks: seq<string>, n: nat): seq<string>
    requires chunks != [] && n <= |chunks[0]|
  {
    if n == |chunks[0]| then chunks[1..] else [chunks[0][n..]] + chunks[1..]
  }

  /** The raw lines of a stream: its pieces between newlines, a final empty piece not counted. */
  function RawLines(s: string): seq<string> { DropEmptyLast(Split(s, '\n')) }

  /** The raw lines before the first over-long one, each without its carriage return. */
  function Admitted(raw: seq<string>): seq<string> {
    if raw == [] || |raw[0]| >= MAX_FRAME_BYTES then [] else [DropCR(raw[0])] + Admitted(raw[1..])
  }

  lemma DropEmptyLastStep(line: string, more: seq<string>)
    requires more != []
    ensures DropEmptyLast([line] + more) == [line] + DropEmptyLast(more)
  {
    assert ([line] + more)[..|more|] == [line] + more[..|more| - 1];
  }

  lemma RawLinesStep(s: string, i: nat)
    requires i == IndexOf(s, '\n')
    ensures RawLines(s) == [s[..i]] + RawLines(s[i + 1..])
  {
    hide IndexOf;
    hide DropEmptyLast;
    DropEmptyLastStep(s[..i], Split(s[i + 1..], '\n'));
  }

  lemma AdmittedStep(line: string, raw: seq<string>)
    ensures Admitted([line] + raw) == if |line| >= MAX_FRAME_BYTES then [] else [DropCR(line)] + Admitted(raw)
  {
    assert ([line] + raw)[1..] == raw;
  }

  /** Scanning is splitting the whole stream at newlines and stopping before the first over-long line. */
  lemma {:induction false} LinesAreSplitPieces(s: string)
    ensures Lines(s) == Admitted(RawLines(s))
    decreases |s|
  {
    hide IndexOf;
    hide DropCR;
    hide Admitted;
    var i := IndexOf(s, '\n');
    if i >= 0 {
      LinesAreSplitPieces(s[i + 1..]);
      RawLinesStep(s, i);
      AdmittedStep(s[..i], RawLines(s[i + 1..]));
    } else {
      UnterminatedLine(s);
    }
  }

  lemma UnterminatedLine(s: string)
    requires IndexOf(s, '\n') < 0
    ensures Lines(s) == Admitted(RawLines(s))
  {
    hide IndexOf;
    AdmittedStep(s, []);
    assert RawLines(s) == if s == "" then [] else [s] + [];
  }

  // ------------------------------------------------------------ implementation

  class Scanner {
    var buf: array<char>
    var start: nat
    var end: nat
    /** A read has failed or reported the end of the stream. */
    var ended: bool
    /** What the connection's reads will still return, in order. */
    var chunks: seq<string>

    ghost predicate Valid()
      reads this
    {
      && 0 < buf.Length <= MAX_FRAME_BYTES
      && start <= end <= buf.Length
      && NonEmpty(chunks)
      && (ended ==> chunks == [] && end < buf.Length)
    }

    /** The bytes not yet handed out. */
    ghost function Rest(): string
      reads this, buf
      requires Valid()
    {
      buf[start..end] + Concat(chunks)
    }

    constructor (chunks: seq<string>)
      requires NonEmpty(chunks)
      ensures Valid() && fresh(buf)
      ensures Rest() == Concat(chunks)
    {
      buf := new char[INITIAL_BUFFER];
      start, end, ended := 0, 0, false;
      this.chunks := chunks;
    }

    /** Copies bytes in behind the buffered ones. */
    method Fill(bytes: string)
      requires Valid() && end + |bytes| <= buf.Length
      modifies buf
      ensures buf[start..end + |bytes|] == old(buf[start..end]) + bytes
    {
      forall i | 0 <= i < |bytes| {
        buf[end + i] := bytes[i];
      }
    }

    /** One read into the free part of the buffer. */
    method Read()
      requires Valid() && !ended && end < buf.Length
      modifies this, buf
      ensures Valid() && Rest() == old(Rest())
      ensures buf == old(buf) && start == old(start)
      ensures |Concat(chunks)| < |Concat(old(chunks))| || (ended && chunks == old(chunks))
    {
      if chunks == [] {
        ended := true;
        return;
      }
      hide Concat;
      hide NonEmpty;
      hide After;
      ghost var before, held := chunks, buf[start..end];
      var chunk := chunks[0];
      var n := if |chunk| <= buf.Length - end then |chunk| else buf.Length - end;
      Fill(chunk[..n]);
      end := end + n;
      chunks := After(chunks, n);
      TakeFromFirst(before, n);
      ConcatAssoc(held, chunk[..n], Concat(chunks));
    }

    /** Moves the unread bytes to the front of the buffer. */
    method Shift()
      requires Valid() && !ended && start > 0
      modifies this, buf
      ensures Valid() && Rest() == old(Rest())
      ensures start == 0 && end == old(end - start) && buf == old(buf) && !ended && chunks == old(chunks)
    {
      ghost var held := buf[start..end];
      var n := end - start;
      forall i | 0 <= i < n {
        buf[i] := buf[start + i];
      }
      assert buf[0..n] == held;
      start, end := 0, n;
    }

    /** Doubles the buffer, up to the limit. */
    method Grow()
      requires Valid() && !ended && start == 0 && end == buf.Length < MAX_FRAME_BYTES
      modifies this
      ensures Valid() && fresh(buf) && Rest() == old(Rest())
      ensures start == 0 && end == old(end) < buf.Length && !ended && chunks == old(chunks)
    {
      var size := if buf.Length * 2 <= MAX_FRAME_BYTES then buf.Length * 2 else MAX_FRAME_BYTES;
      var bigger := new char[size];
      forall i | 0 <= i < end {
        bigger[i] := buf[i];
      }
      assert bigger[0..end] == buf[0..end];
      buf := bigger;
    }

    /** Makes room in the buffer and reads once; false when the buffer cannot grow. */
    method Refill() returns (ok: bool)
      requires Valid() && !ended
      modifies this, buf
      ensures Valid() && Rest() == old(Rest())
      ensures buf == old(buf) || fresh(buf)
      ensures ok ==> |Concat(chunks)| < |Concat(old(chunks))| || (ended && chunks == old(chunks))
      ensures !ok ==> end - start == MAX_FRAME_BYTES && unchanged(this) && unchanged(buf)
    {
      hide Concat;
      if start > 0 && (end == buf.Length || start > buf.Length / 2) {
        Shift();
      }
      if end == buf.Length {
        if buf.Length >= MAX_FRAME_BYTES {
          return false;
        }
        Grow();
      }
      Read();
      return true;
    }

    /** `bufio.ScanLines` on what is buffered. */
    method Token() returns (found: bool, token: string)
      requires Valid()
      modifies this`start
      ensures Valid()
      ensures found ==> Lines(old(Rest())) == [token] + Lines(Rest()) && |Rest()| < |old(Rest())|
      ensures !found ==> start == old(start) && IndexOf(buf[start..end], '\n') < 0
      ensures !found && ended ==> start == end
    {
      hide Concat;
      hide Lines;
      hide DropCR;
      hide IndexOf;
      var data := buf[start..end];
      var i := IndexOf(data, '\n');
      if i >= 0 {
        FirstLine(data, Concat(chunks), i);
        start := start + i + 1;
        assert buf[start..end] == data[i + 1..];
        return true, DropCR(data[..i]);
      }
      if ended && end > start {
        LastLine(data, Concat(chunks));
        start := end;
        assert buf[start..end] == "";
        return true, DropCR(data);
      }
      return false, "";
    }

    /** The next line; false when there is none or it is too long. */
    method Scan() returns (ok: bool, token: string)
      requires Valid()
      modifies this, buf
      ensures Valid() && (buf == old(buf) || fresh(buf))
      ensures ok ==> Lines(old(Rest())) == [token] + Lines(Rest())
      ensures ok ==> |Rest()| < |old(Rest())|
      ensures !ok ==> Lines(old(Rest())) == []
    {
      hide Concat;
      hide Lines;
      hide IndexOf;
      ghost var stream := Rest();
      while true
        invariant Valid() && Rest() == stream
        invariant buf == old(buf) || fresh(buf)
        decreases |Concat(chunks)| + (if ended then 0 else 1)
      {
        ok, token := Token();
        if ok {
          return;
        }
        ghost var data := buf[start..end];
        if ended {
          LastLine(data, Concat(chunks));
          start, end := 0, 0;
          return;
        }
        ok := Refill();
        if !ok {
          TooLong(data, Concat(chunks));
          return;
        }
      }
    }
  }

  // ------------------------------------------------------------- lemmas for Scan

  /** Delivering `n` bytes of the first chunk leaves the stream as it was. */
  lemma TakeFromFirst(chunks: seq<string>, n: nat)
    requires chunks != [] && n <= |chunks[0]|
    ensures Concat(chunks) == chunks[0][..n] + Concat(After(chunks, n))
    ensures NonEmpty(chunks) ==> NonEmpty(After(chunks, n))
  {
    var c, rest := chunks[0], chunks[1..];
    assert ([c[n..]] + rest)[1..] == rest;
    assert c == c[..n] + c[n..];
    ConcatAssoc(c[..n], c[n..], Concat(rest));
  }

  lemma IndexOfPrefix(data: string, more: string)
    ensures IndexOf(data, '\n') >= 0 ==> IndexOf(data + more, '\n') == IndexOf(data, '\n')
    ensures IndexOf(data, '\n') < 0 ==> IndexOf(data + more, '\n') < 0 || IndexOf(data + more, '\n') >= |data|
  {
    hide IndexOf;
    var i, j := IndexOf(data, '\n'), IndexOf(data + more, '\n');
    if i >= 0 {
      assert (data + more)[..i] == data[..i];
      IndexOfUnique(data + more, '\n', i);
    } else {
      assert forall k | 0 <= k < |data| :: (data + more)[k] == data[k] != '\n';
    }
  }

  lemma FirstLine(data: string, more: string, i: int)
    requires i == IndexOf(data, '\n') >= 0 && |data| <= MAX_FRAME_BYTES
    ensures Lines(data + more) == [DropCR(data[..i])] + Lines(data[i + 1..] + more)
  {
    hide IndexOf;
    hide DropCR;
    IndexOfPrefix(data, more);
    assert (data + more)[..i] == data[..i];
    assert (data + more)[i + 1..] == data[i + 1..] + more;
  }

  lemma LastLine(data: string, more: string)
    requires IndexOf(data, '\n') < 0 && |data| < MAX_FRAME_BYTES && more == Concat([])
    ensures Lines(data + more) == (if data == "" then [] else [DropCR(data)])
    ensures Lines("" + more) == []
  {
    hide IndexOf;
    hide DropCR;
    assert data + more == data;
  }

  lemma TooLong(data: string, more: string)
    requires IndexOf(data, '\n') < 0 && |data| == MAX_FRAME_BYTES
    ensures Lines(data + more) == []
  {
    hide IndexOf;
    hide DropCR;
    IndexOfPrefix(data, more);
  }

  // ------------------------------------------------------------------- line ends

  /**
    A line ends at a newline, and a carriage return before it is not part of the line; one
    of 1048576 bytes or more ends everything.  The last line needs no newline.
   */
  lemma LineEnds(line: string, rest: string)
    requires '\n' !in line && (line == "" || line[|line| - 1] != '\r')
    ensures Lines(line + "\n" + rest) == if |line| < 1048576 then [line] + Lines(rest) else []
    ensures Lines(line + "\r\n" + rest) == if |line| + 1 < 1048576 then [line] + Lines(rest) else []
    ensures Lines(line) == if line != "" && |line| < 1048576 then [line] else []
  {
    hide Lines;
    CutAtNewline(line, rest);
    CutAtNewline(line + "\r", rest);
    NoNewline(line);
    assert (line + "\r")[..|line|] == line;
    assert line + "\r\n" + rest == line + "\r" + "\n" + rest;
  }

  lemma CutAtNewline(raw: string, rest: string)
    requires '\n' !in raw
    ensures Lines(raw + "\n" + rest) == if |raw| < 1048576 then [DropCR(raw)] + Lines(rest) else []
  {
    hide IndexOf;
    hide DropCR;
    var s := raw + "\n" + rest;
    assert s[..|raw|] == raw && s[|raw| + 1..] == rest;
    IndexOfUnique(s, '\n', |raw|);
  }

  lemma NoNewline(raw: string)
    requires '\n' !in raw
    ensures Lines(raw) == if raw != "" && |raw| < 1048576 then [DropCR(raw)] else []
  {
    hide DropCR;
  }
}
