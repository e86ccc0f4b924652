/**
  What encoding to JSON does to an envelope whose body is not valid UTF-8: it repairs
  the body, and nothing else.
 */
module Repairing {
  import opened Text
  import opened Utf8
  import opened Envelope
  import SenderName
  import GoQuote

  // ------------------------------------------------- escaping commutes with repair

  lemma RepairAfterValid(u: string, t: string)
    requires Valid(u)
    ensures Repair(u + t) == u + Repair(t)
  {
    hide Encode;
    hide Runes;
    hide Valid;
    ValidConcat(u, t);
    EncodeConcat(Runes(u), Runes(t));
    RepairIsIdentityIffValid(u);
  }

  /** An ASCII text is found at the front of a repaired text exactly when it was there before. */
  lemma {:induction false} RepairKeepsAsciiPrefix(u: string, s: string)
    requires Ascii(u)
    ensures u <= Repair(s) <==> u <= s
  {
    hide Runes;
    hide Encode;
    if u != "" && s != "" {
      RepairOfStep(s);
      assert s == [s[0]] + s[1..] && u == [u[0]] + u[1..];
      if s[0] as int < 0x80 {
        RepairKeepsAsciiPrefix(u[1..], s[1..]);
      } else {
        assert FirstRune(s) >= 0x80;
      }
    } else if s == "" {
      assert Runes(s) == [] && Repair(s) == "" by { EmptyRepair(); }
    }
  }

  /** Escaping changes no byte before the first `<`, and keeps that one. */
  lemma EscapeHead(t: string)
    ensures EscapeBody(t) == "" <==> t == ""
    ensures t != "" ==> EscapeBody(t)[0] == t[0]
    ensures t != "" && t[0] != '<' ==> EscapeBody(t)[1..] == EscapeBody(t[1..])
  {
  }

  /** So it does not change how the bytes in front of it decode. */
  lemma EscapeKeepsWidth(c: char, t: string)
    requires c != '<'
    ensures Width([c] + EscapeBody(t)) == Width([c] + t)
  {
    hide EscapeBody;
    var e := EscapeBody(t);
    EscapeHead(t);
    if t != "" && t[0] != '<' {
      EscapeHead(t[1..]);
      assert e[1..] == EscapeBody(t[1..]);
      if t[1..] != "" && t[1] != '<' {
        EscapeHead(t[2..]);
        assert t[1..][1..] == t[2..] && e[1..][1..] == e[2..];
      }
    }
  }

  /** Replacing closing tags and replacing malformed bytes can be done in either order. */
  lemma {:induction false} EscapeCommutesWithRepair(s: string)
    ensures EscapeBody(Repair(s)) == Repair(EscapeBody(s))
    decreases |s|
  {
    if s == "" {
    } else if CLOSER <= s {
      ReplacedPart(s[|CLOSER|..]);
      EscapeCommutesWithRepair(s[|CLOSER|..]);
      assert s == CLOSER + s[|CLOSER|..];
    } else {
      EscapeCommutesWithRepair(s[Step(s)..]);
      KeptPart(s);
    }
  }

  lemma TagsAreValid()
    ensures Valid(CLOSER) && Valid(ESCAPED)
  {
    hide Valid;
    AsciiIsValid(CLOSER);
    AsciiIsValid(ESCAPED);
  }

  lemma ReplacedPart(t: string)
    ensures EscapeBody(Repair(CLOSER + t)) == ESCAPED + EscapeBody(Repair(t))
    ensures Repair(EscapeBody(CLOSER + t)) == ESCAPED + Repair(EscapeBody(t))
  {
    hide CLOSER;
    hide ESCAPED;
    hide Repair;
    hide EscapeBody;
    hide Valid;
    TagsAreValid();
    RepairAfterValid(CLOSER, t);
    RepairAfterValid(ESCAPED, EscapeBody(t));
    EscapeCloser(t);
    EscapeCloser(Repair(t));
  }

  lemma KeptPart(s: string)
    requires s != "" && !(CLOSER <= s)
    requires EscapeBody(Repair(s[Step(s)..])) == Repair(EscapeBody(s[Step(s)..]))
    ensures EscapeBody(Repair(s)) == Repair(EscapeBody(s))
  {
    hide Repair;
    hide EscapeBody;
    hide EncodeRune;
    hide FirstRune;
    if s[0] == '<' {
      KeptBracket(s);
    } else {
      hide Width;
      hide CLOSER;
      PlainStep(s);
      StepKept(s);
      RepairOfStep(s);
      RepairOfStep(EscapeBody(s));
      EscapeSkipsPlain(EncodeRune(FirstRune(s)), Repair(s[Step(s)..]));
    }
  }

  lemma PlainStep(s: string)
    requires s != "" && s[0] != '<'
    ensures '<' !in s[..Step(s)] && '<' !in EncodeRune(FirstRune(s))
  {
    if Width(s) > 0 {
      EncodeInvertsDecode(s);
      assert EncodeRune(FirstRune(s))[0] == s[0];
    }
  }

  lemma EscapeSplits(s: string, n: nat)
    requires n <= |s| && '<' !in s[..n]
    ensures EscapeBody(s) == s[..n] + EscapeBody(s[n..])
    ensures EscapeBody(s)[n..] == EscapeBody(s[n..])
  {
    hide EscapeBody;
    EscapeSkipsPlain(s[..n], s[n..]);
    assert s == s[..n] + s[n..];
  }

  lemma StepKept(s: string)
    requires s != "" && s[0] != '<'
    ensures EscapeBody(s) != "" && Step(EscapeBody(s)) == Step(s)
    ensures FirstRune(EscapeBody(s)) == FirstRune(s)
    ensures EscapeBody(s)[Step(s)..] == EscapeBody(s[Step(s)..])
  {
    hide EscapeBody;
    hide Width;
    hide FirstRune;
    PlainStep(s);
    EscapeSplits(s, Step(s));
    WidthKept(s);
    SameFirstRune(s, EscapeBody(s));
  }

  lemma WidthKept(s: string)
    requires s != "" && s[0] != '<'
    ensures EscapeBody(s) != "" && Width(EscapeBody(s)) == Width(s)
  {
    hide EscapeBody;
    hide Width;
    EscapeSplits(s, 1);
    EscapeKeepsWidth(s[0], s[1..]);
    assert s[..1] == [s[0]] && s == [s[0]] + s[1..];
  }

  lemma SameFirstRune(s: string, e: string)
    requires s != "" && e != "" && Width(e) == Width(s) && e[..Step(s)] == s[..Step(s)]
    ensures FirstRune(e) == FirstRune(s)
  {
    var n := Step(s);
    assert forall i | 0 <= i < n :: e[i] == e[..n][i] == s[..n][i] == s[i];
  }

  lemma KeptBracket(s: string)
    requires s != "" && s[0] == '<' && !(CLOSER <= s)
    requires EscapeBody(Repair(s[Step(s)..])) == Repair(EscapeBody(s[Step(s)..]))
    ensures EscapeBody(Repair(s)) == Repair(EscapeBody(s))
  {
    hide Repair;
    hide EscapeBody;
    NoNewCloser(s);
    hide CLOSER;
    BracketStep(s);
    EscapeKeepsByte(s);
    var e, r := EscapeBody(s), Repair(s);
    BracketStep(e);
    EscapeKeepsByte(r);
    assert e[1..] == EscapeBody(s[1..]) && r[1..] == Repair(s[1..]);
  }

  lemma NoNewCloser(s: string)
    requires !(CLOSER <= s)
    ensures !(CLOSER <= Repair(s))
  {
    hide Repair;
    assert Ascii(CLOSER);
    RepairKeepsAsciiPrefix(CLOSER, s);
  }

  lemma BracketStep(s: string)
    requires s != "" && s[0] == '<'
    ensures Step(s) == 1 && Repair(s) == "<" + Repair(s[1..])
  {
    RepairOfStep(s);
  }

  // ---------------------------------------------------------- the whole envelope

  lemma {:induction false} QuoteBodyIsValid(s: string, p: GoQuote.PrintTable)
    ensures Valid(GoQuote.Body(s, p))
    decreases |s|
  {
    hide Width;
    hide FirstRune;
    if s != "" {
      QuotePieceIsValid(s, p);
      QuoteBodyIsValid(s[Step(s)..], p);
      ValidConcat(GoQuote.Piece(s, p), GoQuote.Body(s[Step(s)..], p));
    }
  }

  lemma QuotePieceIsValid(s: string, p: GoQuote.PrintTable)
    requires s != ""
    ensures Valid(GoQuote.Piece(s, p))
  {
    hide Width;
    hide FirstRune;
    hide Valid;
    var piece := GoQuote.Piece(s, p);
    var r := FirstRune(s);
    if Width(s) > 0 && piece == EncodeRune(r) {
      SenderName.ValidEncode([r]);
      assert [r][1..] == [] && Encode([r]) == EncodeRune(r) + "" == piece;
    } else {
      hide EncodeRune;
      hide Hex;
      assert Ascii(piece);
      AsciiRunes(piece);
    }
  }

  lemma QuoteIsValid(s: string, p: GoQuote.PrintTable)
    ensures Valid(GoQuote.Quote(s, p))
  {
    hide Valid;
    QuoteBodyIsValid(s, p);
    AsciiRunes("\"");
    ValidConcat("\"", GoQuote.Body(s, p));
    ValidConcat("\"" + GoQuote.Body(s, p), "\"");
  }

  lemma AttributesAreValid(from: string, name: string, p: GoQuote.PrintTable)
    ensures Valid(Attributes(from, name, p))
  {
    hide Valid;
    hide GoQuote.Quote;
    hide SenderName.Clean;
    var clean := SenderName.Clean(name);
    EmptyRepair();
    FromAttributeIsValid(from, p);
    NameAttributeIsValid(clean, p);
    hide FromAttribute;
    hide NameAttribute;
    ValidConcat(FromAttribute(from, p), NameAttribute(clean, p));
  }

  lemma FromAttributeIsValid(from: string, p: GoQuote.PrintTable)
    ensures Valid(FromAttribute(from, p))
  {
    AsciiIsValid("");
    AsciiIsValid(" from=");
    hide Valid;
    hide GoQuote.Quote;
    QuoteIsValid(from, p);
    ValidConcat(" from=", GoQuote.Quote(from, p));
  }

  lemma NameAttributeIsValid(clean: string, p: GoQuote.PrintTable)
    ensures Valid(NameAttribute(clean, p))
  {
    AsciiIsValid("");
    AsciiIsValid(" from-name=");
    hide Valid;
    hide GoQuote.Quote;
    QuoteIsValid(clean, p);
    ValidConcat(" from-name=", GoQuote.Quote(clean, p));
  }

  lemma FramingIsAscii()
    ensures Valid(OPENER) && Valid(">\n") && Ascii(ENDING)
  {
    hide Valid;
    AsciiIsValid(OPENER);
    AsciiIsValid(">\n");
  }

  /** Repairing an envelope repairs its body and leaves its attribution alone. */
  lemma RepairOfWrap(from: string, name: string, body: string, p: GoQuote.PrintTable)
    ensures Repair(Wrap(from, name, body, p)) == Wrap(from, name, Repair(body), p)
  {
    hide OPENER;
    hide ENDING;
    hide Attributes;
    hide EscapeBody;
    hide Valid;
    hide Repair;
    hide Ascii;
    FramingIsAscii();
    var a, e := Attributes(from, name, p), EscapeBody(body);
    AttributesAreValid(from, name, p);
    RepairAfterValid(OPENER, a + (">\n" + (e + ENDING)));
    RepairAfterValid(a, ">\n" + (e + ENDING));
    RepairAfterValid(">\n", e + ENDING);
    RepairBeforeAscii(e, ENDING);
    EscapeCommutesWithRepair(body);
  }

  /** ASCII text after a malformed byte does not complete it. */
  lemma {:induction false} RepairBeforeAscii(s: string, t: string)
    requires Ascii(t)
    ensures Repair(s + t) == Repair(s) + t
    decreases |s|
  {
    hide Width;
    hide FirstRune;
    hide EncodeRune;
    hide Repair;
    hide Ascii;
    if s == "" {
      EmptyRepair();
      assert s + t == t;
      AsciiRunes(t);
    } else {
      AsciiKeepsStep(s, t);
      RepairOfStep(s);
      RepairOfStep(s + t);
      assert (s + t)[Step(s)..] == s[Step(s)..] + t;
      RepairBeforeAscii(s[Step(s)..], t);
      ConcatAssoc(EncodeRune(FirstRune(s)), Repair(s[Step(s)..]), t);
    }
  }

  lemma AsciiKeepsStep(s: string, t: string)
    requires s != "" && Ascii(t)
    ensures Step(s + t) == Step(s) && FirstRune(s + t) == FirstRune(s)
  {
    var n := s + t;
    assert forall i | 0 <= i < |s| :: n[i] == s[i];
    assert forall i | |s| <= i < |n| :: n[i] == t[i - |s|] && !Tail(n[i]);
  }
}
