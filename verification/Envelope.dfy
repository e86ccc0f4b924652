/**
  The attribution envelope: neutralising a closing tag in a message body, building
  the envelope, and a parser that takes it apart again.
 */
module Envelope {
  import opened Text
  import opened Utf8
  import opened Address
  import SenderName
  import GoQuote

  const OPENER: string := "<cross-session-message"

  /** What `escapeBody` looks for, and what it puts there instead. */
  const CLOSER: string := "</cross-session-message"
  const ESCAPED: string := "<\\/cross-session-message"

  // --------------------------------------------------------------- escapeBody

  /** `strings.ReplaceAll(body, CLOSER, ESCAPED)`: leftmost, non-overlapping. */
  function EscapeBody(s: string): string {
    if s == "" then ""
    else if CLOSER <= s then ESCAPED + EscapeBody(s[|CLOSER|..])
    else [s[0]] + EscapeBody(s[1..])
  }

  /** The closing tag occurs at byte `i`. */
  predicate CloserAt(s: string, i: nat) { i <= |s| && CLOSER <= s[i..] }

  ghost predicate HasCloser(s: string) { exists i: nat :: CloserAt(s, i) }

  /** At how many positions the closing tag occurs. */
  function CloserCount(s: string): nat {
    if s == "" then 0 else (if CLOSER <= s then 1 else 0) + CloserCount(s[1..])
  }

  /** A text without `<` is found at the front of the result exactly when it was at the front before. */
  lemma {:induction false} EscapeKeepsPlainPrefix(u: string, s: string)
    requires '<' !in u
    ensures u <= EscapeBody(s) <==> u <= s
  {
    assert CLOSER[0] == ESCAPED[0] == '<';
    hide CLOSER;
    hide ESCAPED;
    if u != "" && s != "" {
      assert u[0] in u;
      if !(CLOSER <= s) {
        EscapeKeepsPlainPrefix(u[1..], s[1..]);
        assert u == [u[0]] + u[1..] && s == [s[0]] + s[1..];
      }
    }
  }

  lemma CloserAtShift(h: string, t: string, j: nat)
    ensures CloserAt(h + t, |h| + j) <==> CloserAt(t, j)
  {
    assert j <= |t| ==> (h + t)[|h| + j..] == t[j..];
  }

  lemma TagBytes()
    ensures 2 <= |CLOSER| && 2 <= |ESCAPED|
    ensures CLOSER[0] == '<' && CLOSER[1] == '/' && ESCAPED[1] == '\\'
    ensures forall i | 1 <= i < |ESCAPED| :: ESCAPED[i] != '<'
  {
  }

  lemma TagTails()
    ensures |CLOSER| > 1 && |ESCAPED| > 1 && CLOSER[0] == ESCAPED[0] == '<'
    ensures CLOSER[1] == '/' && ESCAPED[1] == '\\'
    ensures '<' !in CLOSER[1..] && '<' !in ESCAPED[1..]
  {
    TagBytes();
    assert forall i | 1 <= i < |CLOSER| :: CLOSER[i] != '<';
  }

  lemma NoCloserInside(k: nat, t: string)
    requires k < |ESCAPED|
    ensures !CloserAt(ESCAPED + t, k)
  {
    TagBytes();
    hide CLOSER;
    hide ESCAPED;
    NotInside(CLOSER, ESCAPED, k, t);
  }

  /** A text cannot start inside `head` when its first two bytes do not go on there. */
  lemma NotInside(p: string, head: string, k: nat, t: string)
    requires 2 <= |p| && k < |head| && 2 <= |head|
    requires p[1] != head[1] && forall i | 1 <= i < |head| :: head[i] != p[0]
    ensures !(p <= (head + t)[k..])
  {
    var s := (head + t)[k..];
    assert s[0] == head[k];
    assert k == 0 ==> s[1] == head[1];
  }

  lemma PrefixOfCons(p: string, c: char, t: string)
    requires p != ""
    ensures p <= [c] + t <==> p[0] == c && p[1..] <= t
  {
    assert p == [p[0]] + p[1..];
    if p[0] == c && p[1..] <= t {
      assert t == p[1..] + t[|p| - 1..];
      assert [c] + t == p + t[|p| - 1..];
    }
  }

  lemma NoCloserAtKeptByte(s: string)
    requires s != "" && !(CLOSER <= s)
    ensures !(CLOSER <= [s[0]] + EscapeBody(s[1..]))
  {
    hide EscapeBody;
    assert '<' !in CLOSER[1..];
    hide CLOSER;
    EscapeKeepsPlainPrefix(CLOSER[1..], s[1..]);
    PrefixOfCons(CLOSER, s[0], s[1..]);
    PrefixOfCons(CLOSER, s[0], EscapeBody(s[1..]));
    assert s == [s[0]] + s[1..];
  }

  /** No closing tag is left, not even across the seam between replaced and kept text. */
  lemma {:induction false} EscapeLeavesNoCloser(s: string, i: nat)
    ensures !CloserAt(EscapeBody(s), i)
  {
    if s != "" {
      var n := if CLOSER <= s then |CLOSER| else 1;
      var head := if CLOSER <= s then ESCAPED else [s[0]];
      var rest := EscapeBody(s[n..]);
      assert EscapeBody(s) == head + rest;
      if i >= |head| {
        EscapeLeavesNoCloser(s[n..], i - |head|);
        CloserAtShift(head, rest, i - |head|);
      } else if CLOSER <= s {
        NoCloserInside(i, rest);
      } else {
        NoCloserAtKeptByte(s);
        assert (head + rest)[0..] == head + rest;
      }
    }
  }

  lemma {:induction false} CountPastPlain(s: string, k: nat)
    requires k <= |s| && '<' !in s[..k]
    ensures CloserCount(s) == CloserCount(s[k..])
  {
    if k > 0 {
      assert s[0] == s[..k][0];
      assert s[1..][..k - 1] == s[..k][1..];
      CountPastPlain(s[1..], k - 1);
      assert s[1..][k - 1..] == s[k..];
    } else {
      assert s[0..] == s;
    }
  }

  /** The body grows by one byte for every occurrence of the closing tag. */
  lemma {:induction false} EscapeGrowsByCount(s: string)
    ensures |EscapeBody(s)| == |s| + CloserCount(s)
  {
    if s != "" {
      if CLOSER <= s {
        EscapeGrowsByCount(s[|CLOSER|..]);
        assert s[1..][..|CLOSER| - 1] == CLOSER[1..];
        CountPastPlain(s[1..], |CLOSER| - 1);
        assert s[1..][|CLOSER| - 1..] == s[|CLOSER|..];
      } else {
        EscapeGrowsByCount(s[1..]);
      }
    }
  }

  lemma {:induction false} EscapeIsIdentityWithoutCloser(s: string)
    requires !HasCloser(s)
    ensures EscapeBody(s) == s
  {
    if s != "" {
      assert s[0..] == s;
      assert !CloserAt(s, 0);
      forall i: nat ensures !CloserAt(s[1..], i) {
        assert !CloserAt(s, i + 1);
        assert i <= |s[1..]| ==> s[1..][i..] == s[i + 1..];
      }
      EscapeIsIdentityWithoutCloser(s[1..]);
    }
  }

  /**
    Escaping leaves no closing tag, changes the body exactly when there was one, and
    changes nothing the second time.
   */
  lemma EscapeBodyNeutralises(s: string)
    ensures !HasCloser(EscapeBody(s))
    ensures EscapeBody(s) == s <==> !HasCloser(s)
    ensures EscapeBody(EscapeBody(s)) == EscapeBody(s)
  {
    var r := EscapeBody(s);
    forall i: nat ensures !CloserAt(r, i) {
      EscapeLeavesNoCloser(s, i);
    }
    EscapeIsIdentityWithoutCloser(r);
    if !HasCloser(s) {
      EscapeIsIdentityWithoutCloser(s);
    }
  }

  // -------------------------------------------------------------- the envelope

  function FromAttribute(from: string, p: GoQuote.PrintTable): string {
    if from == "" then "" else " from=" + GoQuote.Quote(from, p)
  }

  function NameAttribute(clean: string, p: GoQuote.PrintTable): string {
    if clean == "" then "" else " from-name=" + GoQuote.Quote(clean, p)
  }

  function Attributes(from: string, name: string, p: GoQuote.PrintTable): string {
    FromAttribute(from, p) + NameAttribute(SenderName.Clean(name), p)
  }

  /** What follows the body. */
  const ENDING: string := "\n" + (CLOSER + ">")

  /** `wrapEnvelope`. */
  function Wrap(from: string, name: string, body: string, p: GoQuote.PrintTable): string {
    OPENER + (Attributes(from, name, p) + (">\n" + (EscapeBody(body) + ENDING)))
  }

  datatype Parts = Parts(from: string, name: string, body: string)

  /** Reads ` key="..."` if it comes next; an absent attribute is empty. */
  function ReadAttribute(key: string, s: string): (r: GoQuote.Parse) {
    if key <= s then GoQuote.ReadQuoted(s[|key|..]) else GoQuote.Parsed("", s)
  }

  /** The first position of the closing tag. */
  function FindCloser(s: string): (i: Option<nat>)
    ensures i.Some? ==> i.value + |CLOSER| <= |s|
  {
    if CLOSER <= s then Some(0)
    else if s == "" then None
    else
      match FindCloser(s[1..])
      case None => None
      case Some(i) => Some(i + 1)
  }

  /** The body: what precedes the newline before the first closing tag, which must end the text. */
  function ReadBody(s: string): Option<string> {
    match FindCloser(s)
    case None => None
    case Some(i) =>
      if i == 0 || s[i - 1] != '\n' || s[i..] != CLOSER + ">" then None else Some(s[..i - 1])
  }

  /** Takes an envelope apart: the attributes in order, then the body up to the first closing tag. */
  function Parse(s: string): Option<Parts> {
    if !(OPENER <= s) then None
    else
      match ReadAttribute(" from=", s[|OPENER|..])
      case Fail => None
      case Parsed(from, s1) =>
        match ReadAttribute(" from-name=", s1)
        case Fail => None
        case Parsed(name, s2) =>
          if !(">\n" <= s2) then None
          else
            match ReadBody(s2[2..])
            case None => None
            case Some(body) => Some(Parts(from, name, body))
  }

  lemma {:induction false} FindCloserIs(s: string, k: nat)
    requires k <= |s| && CloserAt(s, k)
    requires forall i: nat | i < k :: !CloserAt(s, i)
    ensures FindCloser(s) == Some(k)
  {
    hide CLOSER;
    if k == 0 {
      assert s[0..] == s;
    } else {
      assert !CloserAt(s, 0) && s[0..] == s;
      assert s[1..][k - 1..] == s[k..];
      forall i: nat | i < k - 1 ensures !CloserAt(s[1..], i) {
        assert !CloserAt(s, i + 1);
        assert s[1..][i..] == s[i + 1..];
      }
      FindCloserIs(s[1..], k - 1);
    }
  }

  /** Followed by a newline, a text free of closing tags does not run into the one after it. */
  lemma NoCloserBeforeEnd(a: string, i: nat)
    requires !HasCloser(a) && i <= |a|
    ensures !CloserAt(a + ENDING, i)
  {
    var s := a + ENDING;
    assert '\n' !in CLOSER;
    hide CLOSER;
    if i + |CLOSER| <= |a| {
      assert !CloserAt(a, i);
      assert s[i..][..|CLOSER|] == a[i..][..|CLOSER|];
    } else {
      assert s[i..][|a| - i] == '\n';
    }
  }

  lemma FirstCloserAfter(a: string)
    requires !HasCloser(a)
    ensures ReadBody(a + ENDING) == Some(a)
  {
    hide CLOSER;
    var s := a + ENDING;
    assert s[|a| + 1..] == CLOSER + ">" && s[|a|] == '\n' && s[..|a|] == a;
    forall i: nat | i < |a| + 1 ensures !CloserAt(s, i) {
      NoCloserBeforeEnd(a, i);
    }
    FindCloserIs(s, |a| + 1);
  }

  lemma ReadAttributePresent(key: string, v: string, p: GoQuote.PrintTable, t: string)
    requires IsByteString(v)
    ensures ReadAttribute(key, key + GoQuote.Quote(v, p) + t) == GoQuote.Parsed(v, t)
  {
    hide GoQuote.Quote;
    hide GoQuote.ReadQuoted;
    var s := key + GoQuote.Quote(v, p) + t;
    assert s[|key|..] == GoQuote.Quote(v, p) + t;
    GoQuote.ReadInvertsQuote(v, p, t);
  }

  lemma EncodedIsByteString(rs: seq<Rune>)
    ensures IsByteString(Encode(rs))
  {
  }

  lemma ReadFrom(from: string, p: GoQuote.PrintTable, t: string)
    requires IsByteString(from) && !(" from=" <= t)
    ensures ReadAttribute(" from=", FromAttribute(from, p) + t) == GoQuote.Parsed(from, t)
  {
    if from == "" {
      assert FromAttribute(from, p) + t == t;
    } else {
      ReadAttributePresent(" from=", from, p, t);
    }
  }

  lemma ReadName(clean: string, p: GoQuote.PrintTable, t: string)
    requires IsByteString(clean) && ">" <= t
    ensures ReadAttribute(" from-name=", NameAttribute(clean, p) + t) == GoQuote.Parsed(clean, t)
    ensures !(" from=" <= NameAttribute(clean, p) + t)
  {
    hide GoQuote.Quote;
    if clean == "" {
      assert NameAttribute(clean, p) + t == t && t[0] == '>';
      assert " from-name="[0] == " from="[0] == ' ';
    } else {
      assert (NameAttribute(clean, p) + t)[5] == '-';
      ReadAttributePresent(" from-name=", clean, p, t);
    }
  }

  lemma ReadBothAttributes(from: string, name: string, p: GoQuote.PrintTable, t: string)
    requires IsByteString(from) && ">" <= t
    ensures var r := ReadAttribute(" from=", Attributes(from, name, p) + t);
            && r.Parsed? && r.value == from
            && ReadAttribute(" from-name=", r.rest) == GoQuote.Parsed(SenderName.Clean(name), t)
  {
    hide ReadAttribute;
    hide FromAttribute;
    hide NameAttribute;
    var clean := SenderName.Clean(name);
    EncodedIsByteString(SenderName.CleanRunes(name));
    ConcatAssoc(FromAttribute(from, p), NameAttribute(clean, p), t);
    ReadName(clean, p, t);
    ReadFrom(from, p, NameAttribute(clean, p) + t);
  }

  lemma ReadEscapedBody(body: string)
    ensures ReadBody(EscapeBody(body) + ENDING) == Some(EscapeBody(body))
  {
    EscapeBodyNeutralises(body);
    FirstCloserAfter(EscapeBody(body));
  }

  /**
    Parsing an envelope recovers exactly the sender, the sanitised name and the
    escaped body: no body and no name can shift a boundary.
   */
  lemma ParseInvertsWrap(from: string, name: string, body: string, p: GoQuote.PrintTable)
    requires IsByteString(from)
    ensures Parse(Wrap(from, name, body, p))
         == Some(Parts(from, SenderName.Clean(name), EscapeBody(body)))
  {
    hide OPENER;
    hide ENDING;
    hide Attributes;
    hide ReadAttribute;
    hide ReadBody;
    hide EscapeBody;
    hide SenderName.Clean;
    var end := EscapeBody(body) + ENDING;
    var t := ">\n" + end;
    assert t[2..] == end && ">" <= t;
    assert Wrap(from, name, body, p)[|OPENER|..] == Attributes(from, name, p) + t;
    ReadBothAttributes(from, name, p, t);
    ReadEscapedBody(body);
  }

  /**
    A well-formed sender address appears verbatim in its attribute exactly when it holds
    no backslash, which an address may hold unescaped and %q doubles.
   */
  lemma FromIsVerbatimIff(from: string, p: GoQuote.PrintTable)
    requires ValidAddress(from)
    ensures FromAttribute(from, p) == " from=\"" + from + "\"" <==> '\\' !in from
  {
    ValidIsAscii(from[4..]);
    assert from == "uds:" + from[4..];
    hide GoQuote.Quote;
    hide GoQuote.Verbatim;
    GoQuote.VisibleIsVerbatimIff(from, p);
    GoQuote.QuoteIsVerbatimIff(from, p);
    var q := GoQuote.Quote(from, p);
    var plain := "\"" + from + "\"";
    assert " from=\"" + from + "\"" == " from=" + plain;
    assert (" from=" + q)[6..] == q && (" from=" + plain)[6..] == plain;
  }

  /** The address of a path that is a single backslash: valid, and not verbatim. */
  lemma BackslashIsNotVerbatim(p: GoQuote.PrintTable)
    ensures ValidAddress("uds:\\") && FromAttribute("uds:\\", p) != " from=\"uds:\\\""
  {
    var from := "uds:\\";
    SingleBackslashIsValid();
    assert from[4] == '\\';
    hide ValidAddress;
    hide FromAttribute;
    FromIsVerbatimIff(from, p);
    assert " from=\"" + from + "\"" == " from=\"uds:\\\"";
  }

  lemma SingleBackslashIsValid()
    ensures ValidAddress("uds:\\")
  {
    assert "uds:\\"[4..] == "\\" && "\\"[1..] == "";
    assert AddrSafe('\\');
    assert ValidRest("\\");
  }

  // ---------------------------------------------------- one closing tag, at the end

  lemma FromAttributeHasNoBracket(from: string, p: GoQuote.PrintTable)
    requires from == "" || ValidAddress(from)
    ensures '<' !in FromAttribute(from, p)
  {
    hide GoQuote.Quote;
    if from != "" {
      ValidIsAscii(from[4..]);
      assert from == "uds:" + from[4..];
    }
    assert '<' !in from;
    GoQuote.QuoteAddsNoBracket(from, p);
    assert '<' !in " from=";
  }

  lemma NameAttributeHasNoBracket(name: string, p: GoQuote.PrintTable)
    ensures '<' !in NameAttribute(SenderName.Clean(name), p)
  {
    hide SenderName.Clean;
    hide GoQuote.Quote;
    SenderName.CleanHasNoBracket(name);
    GoQuote.QuoteAddsNoBracket(SenderName.Clean(name), p);
    assert '<' !in " from-name=";
  }

  lemma NoCloserInHeader(h: string, t: string, i: nat)
    requires '<' !in h && i < |OPENER + h|
    ensures !CloserAt((OPENER + h) + t, i)
  {
    var s := (OPENER + h) + t;
    if i == 0 {
      assert s[0..][1] == 'c';
    } else {
      assert s[i..][0] == s[i] == (OPENER + h)[i];
      assert i < |OPENER| ==> OPENER[i] != '<';
      assert i >= |OPENER| ==> (OPENER + h)[i] == h[i - |OPENER|];
    }
  }

  lemma OnlyCloserOfEnding(e: string, i: nat)
    requires !HasCloser(e)
    ensures CloserAt(e + ENDING, i) <==> i == |e| + 1
  {
    var s := e + ENDING;
    if i <= |e| {
      NoCloserBeforeEnd(e, i);
    } else {
      assert s[|e| + 1..] == CLOSER + ">";
      if |e| + 1 < i < |s| {
        assert s[i..][0] == (CLOSER + ">")[i - |e| - 1] != '<';
      }
    }
  }

  lemma OnlyCloser(h: string, e: string, i: nat)
    requires '<' !in h && !HasCloser(e)
    ensures var s := (OPENER + h) + (e + ENDING);
            CloserAt(s, i) <==> i == |s| - |CLOSER| - 1
  {
    hide CloserAt;
    assert |ENDING| == |CLOSER| + 2;
    hide CLOSER;
    hide ENDING;
    var s := (OPENER + h) + (e + ENDING);
    if i < |OPENER + h| {
      NoCloserInHeader(h, e + ENDING, i);
    } else {
      hide OPENER;
      CloserAtShift(OPENER + h, e + ENDING, i - |OPENER + h|);
      OnlyCloserOfEnding(e, i - |OPENER + h|);
    }
  }

  lemma AttributesHaveNoBracket(from: string, name: string, p: GoQuote.PrintTable)
    requires from == "" || ValidAddress(from)
    ensures '<' !in Attributes(from, name, p) + ">\n"
  {
    hide FromAttribute;
    hide NameAttribute;
    hide SenderName.Clean;
    FromAttributeHasNoBracket(from, p);
    NameAttributeHasNoBracket(name, p);
    hide ValidAddress;
    var f, n := FromAttribute(from, p), NameAttribute(SenderName.Clean(name), p);
    assert '<' !in f + n;
    assert '<' !in ">\n";
  }

  lemma WrapRegrouped(from: string, name: string, body: string, p: GoQuote.PrintTable)
    ensures Wrap(from, name, body, p)
         == (OPENER + (Attributes(from, name, p) + ">\n")) + (EscapeBody(body) + ENDING)
  {
    hide OPENER;
    hide ENDING;
    hide EscapeBody;
    hide Attributes;
    var a, tail := Attributes(from, name, p), EscapeBody(body) + ENDING;
    ConcatAssoc(a, ">\n", tail);
    ConcatAssoc(OPENER, a + ">\n", tail);
  }

  /** The closing tag occurs in an envelope exactly once: at its very end. */
  lemma CloserOnlyAtEnd(from: string, name: string, body: string, p: GoQuote.PrintTable, i: nat)
    requires from == "" || ValidAddress(from)
    ensures CloserAt(Wrap(from, name, body, p), i)
       <==> i == |Wrap(from, name, body, p)| - |CLOSER| - 1
  {
    WrapRegrouped(from, name, body, p);
    AttributesHaveNoBracket(from, name, p);
    EscapeBodyNeutralises(body);
    hide Wrap;
    hide OPENER;
    hide ENDING;
    hide CLOSER;
    hide EscapeBody;
    hide Attributes;
    hide CloserAt;
    hide HasCloser;
    OnlyCloser(Attributes(from, name, p) + ">\n", EscapeBody(body), i);
  }

  // ------------------------------------------------ what escaping does, in its own terms

  lemma EscapeCloser(t: string)
    ensures EscapeBody(CLOSER + t) == ESCAPED + EscapeBody(t)
  {
    assert |CLOSER| > 0;
    hide CLOSER;
    hide ESCAPED;
    assert (CLOSER + t)[|CLOSER|..] == t;
  }

  lemma EscapeKeepsByte(s: string)
    requires s != "" && !(CLOSER <= s)
    ensures EscapeBody(s) == [s[0]] + EscapeBody(s[1..])
  {
    hide CLOSER;
    hide ESCAPED;
  }

  lemma NotACloser(s: string)
    requires s != "" && s[0] != '<'
    ensures !(CLOSER <= s)
  {
    assert CLOSER[0] == '<';
  }

  lemma {:induction false} EscapeSkipsPlain(u: string, t: string)
    requires '<' !in u
    ensures EscapeBody(u + t) == u + EscapeBody(t)
  {
    hide EscapeBody;
    hide CLOSER;
    if u == "" {
      assert u + t == t;
    } else {
      assert u[0] in u;
      assert (u + t)[0] == u[0] && (u + t)[1..] == u[1..] + t;
      NotACloser(u + t);
      EscapeKeepsByte(u + t);
      EscapeSkipsPlain(u[1..], t);
      ConsConcat(u, EscapeBody(t));
    }
  }

  lemma CloserBeforeBracket(u: string, w: string)
    requires u != "" && w != "" && w[0] == '<'
    ensures CLOSER <= u + w <==> CLOSER <= u
  {
    assert forall i | 1 <= i < |CLOSER| :: CLOSER[i] != '<';
    hide CLOSER;
    assert (u + w)[|u|] == '<';
    assert |CLOSER| <= |u| ==> (u + w)[..|CLOSER|] == u[..|CLOSER|];
  }

  lemma {:induction false} EscapeBeforeCloser(u: string, v: string)
    ensures EscapeBody(u + (CLOSER + v)) == EscapeBody(u) + (ESCAPED + EscapeBody(v))
    decreases |u|
  {
    assert CLOSER[0] == '<' && |CLOSER| > 0 && EscapeBody("") == "";
    hide *;
    var w, e := CLOSER + v, ESCAPED + EscapeBody(v);
    if u == "" {
      EscapeCloser(v);
      assert "" + w == w && "" + e == e;
    } else if CLOSER <= u {
      var t := u[|CLOSER|..];
      assert u == CLOSER + t;
      ConcatAssoc(CLOSER, t, w);
      EscapeCloser(t);
      EscapeCloser(t + w);
      EscapeBeforeCloser(t, v);
      ConcatAssoc(ESCAPED, EscapeBody(t), e);
    } else {
      CloserBeforeBracket(u, w);
      assert (u + w)[1..] == u[1..] + w && (u + w)[0] == u[0];
      EscapeKeepsByte(u);
      EscapeKeepsByte(u + w);
      EscapeBeforeCloser(u[1..], v);
      ConcatAssoc([u[0]], EscapeBody(u[1..]), e);
    }
  }

  /** Every closing tag gets its backslash, and nothing around it changes. */
  lemma EscapeAround(u: string, v: string)
    ensures EscapeBody(u + "</cross-session-message" + v)
         == EscapeBody(u) + "<\\/cross-session-message" + EscapeBody(v)
  {
    hide EscapeBody;
    EscapeBeforeCloser(u, v);
    ConcatAssoc(u, "</cross-session-message", v);
    ConcatAssoc(EscapeBody(u), "<\\/cross-session-message", EscapeBody(v));
  }

  /** Takes the backslashes out again. */
  function Unescape(s: string): string {
    if s == "" then ""
    else if ESCAPED <= s then CLOSER + Unescape(s[|ESCAPED|..])
    else [s[0]] + Unescape(s[1..])
  }

  /** An escaped closing tag occurs nowhere. */
  predicate NothingEscaped(s: string) { s != "" ==> !(ESCAPED <= s) && NothingEscaped(s[1..]) }

  lemma {:induction false} NothingEscapedPast(u: string, t: string)
    requires '<' !in u
    ensures NothingEscaped(u + t) <==> NothingEscaped(t)
  {
    assert ESCAPED[0] == '<';
    hide ESCAPED;
    if u == "" {
      assert u + t == t;
    } else {
      assert u[0] in u;
      assert (u + t)[0] == u[0] && (u + t)[1..] == u[1..] + t;
      NothingEscapedPast(u[1..], t);
    }
  }

  lemma UnescapeEscaped(t: string)
    ensures Unescape(ESCAPED + t) == CLOSER + Unescape(t)
  {
    assert ESCAPED != "";
    hide ESCAPED;
    hide CLOSER;
    assert (ESCAPED + t)[|ESCAPED|..] == t;
  }

  /** A kept byte starts an escaped tag only where one was before. */
  lemma EscapedStaysAt(s: string)
    requires s != "" && !(CLOSER <= s)
    ensures ESCAPED <= EscapeBody(s) <==> ESCAPED <= s
  {
    TagTails();
    hide *;
    EscapeKeepsByte(s);
    EscapeKeepsPlainPrefix(ESCAPED[1..], s[1..]);
    PrefixOfCons(ESCAPED, s[0], s[1..]);
    PrefixOfCons(ESCAPED, s[0], EscapeBody(s[1..]));
    assert s == [s[0]] + s[1..];
  }

  lemma UnescapeKept(s: string)
    requires s != "" && !(CLOSER <= s) && !(ESCAPED <= s)
    ensures Unescape(EscapeBody(s)) == [s[0]] + Unescape(EscapeBody(s[1..]))
  {
    EscapedStaysAt(s);
    EscapeKeepsByte(s);
    hide EscapeBody;
    hide CLOSER;
    hide ESCAPED;
  }

  lemma UnescapeSpoils(s: string)
    requires ESCAPED <= s
    ensures Unescape(EscapeBody(s)) != s
  {
    TagTails();
    hide *;
    assert s[1] == ESCAPED[1];
    assert !(CLOSER <= s);
    EscapedStaysAt(s);
    var e := EscapeBody(s);
    assert e == ESCAPED + e[|ESCAPED|..];
    UnescapeEscaped(e[|ESCAPED|..]);
  }

  lemma CloserIsNotEscaped(t: string)
    ensures NothingEscaped(CLOSER + t) <==> NothingEscaped(t)
  {
    TagTails();
    hide CLOSER;
    hide ESCAPED;
    assert (CLOSER + t)[1] == CLOSER[1] && (CLOSER + t)[1..] == CLOSER[1..] + t;
    NothingEscapedPast(CLOSER[1..], t);
  }

  /** Taking the backslashes out again gives the body back exactly when no escaped tag was in it before. */
  lemma {:induction false} UnescapeInvertsIff(s: string)
    ensures Unescape(EscapeBody(s)) == s <==> NothingEscaped(s)
  {
    if s == "" {
    } else if CLOSER <= s {
      assert |CLOSER| > 0;
      var t := s[|CLOSER|..];
      assert s == CLOSER + t;
      UnescapeInvertsIff(t);
      EscapeCloser(t);
      UnescapeEscaped(EscapeBody(t));
      CloserIsNotEscaped(t);
      hide *;
      assert Unescape(EscapeBody(s))[|CLOSER|..] == Unescape(EscapeBody(t));
    } else if ESCAPED <= s {
      UnescapeSpoils(s);
    } else {
      UnescapeInvertsIff(s[1..]);
      UnescapeKept(s);
      hide EscapeBody;
      hide Unescape;
      hide CLOSER;
      hide ESCAPED;
      assert s == [s[0]] + s[1..];
    }
  }

  // ---------------------------------------------------------------- the envelope's text

  lemma AttributeText(from: string, clean: string, p: GoQuote.PrintTable)
    requires from == "" || (ValidAddress(from) && '\\' !in from)
    requires GoQuote.Verbatim(clean, p)
    ensures FromAttribute(from, p) == if from == "" then "" else " from=\"" + from + "\""
    ensures NameAttribute(clean, p) == if clean == "" then "" else " from-name=\"" + clean + "\""
  {
    if from != "" {
      FromIsVerbatimIff(from, p);
    }
    NameText(clean, p);
    hide NameAttribute;
    hide ValidAddress;
    hide GoQuote.Quote;
    hide GoQuote.Verbatim;
  }

  lemma NameText(clean: string, p: GoQuote.PrintTable)
    requires GoQuote.Verbatim(clean, p)
    ensures NameAttribute(clean, p) == if clean == "" then "" else " from-name=\"" + clean + "\""
  {
    GoQuote.QuoteIsVerbatimIff(clean, p);
    hide GoQuote.Quote;
    hide GoQuote.Verbatim;
    var q := "\"" + clean + "\"";
    ConcatAssoc(" from-name=", "\"", clean + "\"");
    assert " from-name=\"" + clean + "\"" == " from-name=\"" + (clean + "\"");
    assert q == "\"" + (clean + "\"");
  }

  lemma WrapParts(from: string, name: string, body: string, p: GoQuote.PrintTable)
    ensures Wrap(from, name, body, p) ==
            "<cross-session-message" + FromAttribute(from, p) + NameAttribute(SenderName.Clean(name), p) + ">\n"
            + EscapeBody(body) + "\n</cross-session-message>"
  {
    assert ENDING == "\n</cross-session-message>" && OPENER == "<cross-session-message";
    hide SenderName.Clean;
    hide EscapeBody;
    hide FromAttribute;
    hide NameAttribute;
    hide ENDING;
    hide OPENER;
    var f, n, e := FromAttribute(from, p), NameAttribute(SenderName.Clean(name), p), EscapeBody(body);
    Flatten(OPENER, f, n, ">\n", e, ENDING);
  }

  lemma Flatten(a: string, b: string, c: string, d: string, e: string, f: string)
    ensures a + ((b + c) + (d + (e + f))) == a + b + c + d + e + f
  {
    ConcatAssoc(a, b, c);
    ConcatAssoc(a, b + c, d + (e + f));
    ConcatAssoc(a + (b + c), d, e + f);
    ConcatAssoc(a + (b + c) + d, e, f);
  }

  /** With a plain sender and a plain name, this is the whole envelope; what is empty leaves no attribute. */
  lemma WrapText(from: string, name: string, body: string, p: GoQuote.PrintTable)
    requires from == "" || (ValidAddress(from) && '\\' !in from)
    requires GoQuote.Verbatim(SenderName.Clean(name), p)
    ensures var clean := SenderName.Clean(name);
            Wrap(from, name, body, p) ==
            "<cross-session-message" + (if from == "" then "" else " from=\"" + from + "\"")
            + (if clean == "" then "" else " from-name=\"" + clean + "\"") + ">\n"
            + EscapeBody(body) + "\n</cross-session-message>"
  {
    hide *;
    AttributeText(from, SenderName.Clean(name), p);
    WrapParts(from, name, body, p);
  }
}
