/**
  `strconv.Quote`, which is what the verb %q prints, and a reader for what it writes.

  Which non-ASCII runes are printable is a Unicode table; it is a parameter here, so
  everything below holds for every such table.
 */
module GoQuote {
  import opened Text
  import opened Utf8

  /** Any `strconv.IsPrint`: on ASCII it is exactly the range from space to tilde. */
  type PrintTable = p: Rune -> bool | forall r: Rune | r < 0x80 :: p(r) <==> 0x20 <= r <= 0x7E
    witness (r: Rune) => 0x20 <= r <= 0x7E

  datatype Parse = Fail | Parsed(value: string, rest: string)

  /** How one rune is written. */
  function QuotedRune(r: Rune, p: PrintTable): string {
    if r == '"' as int then "\\\""
    else if r == '\\' as int then "\\\\"
    else if p(r) then EncodeRune(r)
    else if r == 7 then "\\a"
    else if r == 8 then "\\b"
    else if r == 12 then "\\f"
    else if r == 10 then "\\n"
    else if r == 13 then "\\r"
    else if r == 9 then "\\t"
    else if r == 11 then "\\v"
    else if r < 0x20 || r == 0x7F then "\\x" + Hex(r, 2)
    else if r < 0x10000 then "\\u" + Hex(r, 4)
    else "\\U" + Hex(r, 8)
  }

  /** The text of the first decoding step of `s`; a malformed byte is written in hex. */
  function Piece(s: string, p: PrintTable): string
    requires s != ""
  {
    if Width(s) == 0 then "\\x" + Hex(s[0] as int, 2) else QuotedRune(FirstRune(s), p)
  }

  function Body(s: string, p: PrintTable): string
    decreases |s|
  {
    if s == "" then "" else Piece(s, p) + Body(s[Step(s)..], p)
  }

  function Quote(s: string, p: PrintTable): string { "\"" + Body(s, p) + "\"" }

  // ------------------------------------------------------------------- reading

  /** What an escape sequence stands for and how long it is. */
  function ReadEscape(s: string): (e: Option<(string, nat)>)
    requires s != "" && s[0] == '\\'
    ensures e.Some? ==> 1 <= e.value.1 <= |s|
  {
    if |s| < 2 then None
    else
      match s[1]
      case '"' => Some(("\"", 2))
      case '\\' => Some(("\\", 2))
      case 'a' => Some(([7 as char], 2))
      case 'b' => Some(([8 as char], 2))
      case 'f' => Some(([12 as char], 2))
      case 'n' => Some(("\n", 2))
      case 'r' => Some(("\r", 2))
      case 't' => Some(("\t", 2))
      case 'v' => Some(([11 as char], 2))
      case 'x' => ReadHexByte(s)
      case 'u' => ReadHexRune(s, 4)
      case 'U' => ReadHexRune(s, 8)
      case _ => None
  }

  function ReadHexByte(s: string): (e: Option<(string, nat)>)
    ensures e.Some? ==> 1 <= e.value.1 <= |s|
  {
    if |s| < 4 then None
    else
      HexRoundTrips();
      match HexValue(s[2..4])
      case None => None
      case Some(v) => Some(([v as char], 4))
  }

  function ReadHexRune(s: string, digits: nat): (e: Option<(string, nat)>)
    ensures e.Some? ==> 1 <= e.value.1 <= |s|
  {
    if |s| < 2 + digits then None
    else
      match HexValue(s[2..2 + digits])
      case None => None
      case Some(v) =>
        if v < 0xD800 || 0xE000 <= v <= 0x10FFFF then Some((EncodeRune(v), 2 + digits)) else None
  }

  /** Reads up to the first unescaped quote; the opening one has been consumed. */
  function ReadBody(s: string): (r: Parse)
    ensures r.Parsed? ==> |r.rest| < |s|
    decreases |s|
  {
    if s == "" then Fail
    else if s[0] == '"' then Parsed("", s[1..])
    else
      var e := if s[0] == '\\' then ReadEscape(s) else Some(([s[0]], 1));
      match e
      case None => Fail
      case Some((text, n)) =>
        match ReadBody(s[n..])
        case Fail => Fail
        case Parsed(v, rest) => Parsed(text + v, rest)
  }

  function ReadQuoted(s: string): (r: Parse)
    ensures r.Parsed? ==> |r.rest| < |s|
  {
    if s == "" || s[0] != '"' then Fail else ReadBody(s[1..])
  }

  // ---------------------------------------------------------------- round trip

  /** Reading `s` yields `text` and then whatever reading `after` yields. */
  predicate Prepends(s: string, text: string, after: string) {
    ReadBody(s) == match ReadBody(after) case Fail => Fail case Parsed(v, rest) => Parsed(text + v, rest)
  }

  lemma ReadCopied(text: string, after: string)
    requires forall i | 0 <= i < |text| :: text[i] != '"' && text[i] != '\\'
    ensures Prepends(text + after, text, after)
  {
    if text == "" {
      assert text + after == after;
      assert forall v: string :: "" + v == v;
    } else {
      assert (text + after)[1..] == text[1..] + after;
      ReadCopied(text[1..], after);
      assert forall v: string :: text + v == [text[0]] + (text[1..] + v);
    }
  }

  lemma ReadEscaped(escape: string, text: string, after: string)
    requires escape != "" && escape[0] == '\\'
    requires ReadEscape(escape + after) == Some((text, |escape|))
    ensures Prepends(escape + after, text, after)
  {
    assert (escape + after)[|escape|..] == after;
  }

  lemma ReadHexByteInverts(n: nat, after: string)
    requires n < 256
    ensures ReadEscape("\\x" + Hex(n, 2) + after) == Some(([n as char], 4))
  {
    var s := "\\x" + Hex(n, 2) + after;
    assert s[2..4] == Hex(n, 2);
    HexRoundTrips();
    HexRoundTrip(n, 2);
  }

  lemma ReadHexRuneInverts(r: Rune, digits: nat, after: string)
    requires (digits == 4 && r < 0x10000) || digits == 8
    ensures ReadHexRune("\\" + [if digits == 4 then 'u' else 'U'] + Hex(r, digits) + after, digits)
         == Some((EncodeRune(r), 2 + digits))
  {
    var s := "\\" + [if digits == 4 then 'u' else 'U'] + Hex(r, digits) + after;
    assert s[2..2 + digits] == Hex(r, digits);
    HexRoundTrips();
    HexRoundTrip(r, digits);
  }

  /** The runes with a one-letter escape. */
  predicate Lettered(r: Rune) { 7 <= r <= 13 || r == '"' as int || r == '\\' as int }

  lemma ReadEscapeInverts(r: Rune, p: PrintTable, after: string)
    requires Lettered(r) || !p(r)
    ensures QuotedRune(r, p)[0] == '\\'
    ensures ReadEscape(QuotedRune(r, p) + after) == Some((EncodeRune(r), |QuotedRune(r, p)|))
  {
    hide Hex;
    hide HexValue;
    if Lettered(r) {
    } else if r < 0x20 || r == 0x7F {
      ReadHexByteInverts(r, after);
    } else if r < 0x10000 {
      ReadHexRuneInverts(r, 4, after);
    } else {
      ReadHexRuneInverts(r, 8, after);
    }
  }

  lemma ReadRune(r: Rune, p: PrintTable, after: string)
    ensures Prepends(QuotedRune(r, p) + after, EncodeRune(r), after)
  {
    if Lettered(r) || !p(r) {
      ReadEscapeInverts(r, p, after);
      hide ReadEscape;
      hide QuotedRune;
      ReadEscaped(QuotedRune(r, p), EncodeRune(r), after);
    } else {
      hide ReadBody;
      ReadCopied(EncodeRune(r), after);
    }
  }

  lemma ReadPiece(s: string, p: PrintTable, after: string)
    requires s != "" && IsByteString(s)
    ensures Prepends(Piece(s, p) + after, s[..Step(s)], after)
  {
    hide ReadBody;
    if Width(s) == 0 {
      var n := s[0] as int;
      ReadHexByteInverts(n, after);
      assert s[..1] == [n as char];
      ReadEscaped("\\x" + Hex(n, 2), s[..1], after);
    } else {
      EncodeInvertsDecode(s);
      ReadRune(FirstRune(s), p, after);
    }
  }

  lemma PrependsTo(s: string, text: string, after: string, v: string, t: string)
    requires Prepends(s, text, after) && ReadBody(after) == Parsed(v, t)
    ensures ReadBody(s) == Parsed(text + v, t)
  {
    hide ReadBody;
  }

  lemma ReadEmptyBody(p: PrintTable, t: string)
    ensures ReadBody(Body("", p) + ("\"" + t)) == Parsed("", t)
  {
    assert Body("", p) + ("\"" + t) == "\"" + t;
    assert ("\"" + t)[1..] == t;
  }

  /** Whatever bytes are quoted, the reader gets exactly them back and stops at the closing quote. */
  lemma {:induction false} ReadInvertsQuoteBody(s: string, p: PrintTable, t: string)
    requires IsByteString(s)
    ensures ReadBody(Body(s, p) + ("\"" + t)) == Parsed(s, t)
    decreases |s|
  {
    hide Width;
    hide FirstRune;
    hide ReadBody;
    hide Piece;
    hide Prepends;
    if s == "" {
      ReadEmptyBody(p, t);
    } else {
      var tail := s[Step(s)..];
      var after := Body(tail, p) + ("\"" + t);
      ConcatAssoc(Piece(s, p), Body(tail, p), "\"" + t);
      ReadPiece(s, p, after);
      ReadInvertsQuoteBody(tail, p, t);
      PrependsTo(Piece(s, p) + after, s[..Step(s)], after, tail, t);
      assert s == s[..Step(s)] + tail;
    }
  }

  lemma ReadInvertsQuote(s: string, p: PrintTable, t: string)
    requires IsByteString(s)
    ensures ReadQuoted(Quote(s, p) + t) == Parsed(s, t)
  {
    assert (Quote(s, p) + t)[1..] == Body(s, p) + ("\"" + t);
    ReadInvertsQuoteBody(s, p, t);
  }

  // ------------------------------------------------------- when it is verbatim

  /** Valid UTF-8 of printable runes, none of them a quote or a backslash. */
  predicate Verbatim(s: string, p: PrintTable)
    decreases |s|
  {
    s == "" ||
    (Width(s) > 0 && p(FirstRune(s)) && s[0] != '"' && s[0] != '\\' && Verbatim(s[Step(s)..], p))
  }

  lemma PieceLength(s: string, p: PrintTable)
    requires s != ""
    ensures |Piece(s, p)| >= Step(s)
    ensures Width(s) > 0 && p(FirstRune(s)) && s[0] != '"' && s[0] != '\\' ==> Piece(s, p) == s[..Step(s)]
    ensures !(Width(s) > 0 && p(FirstRune(s)) && s[0] != '"' && s[0] != '\\') ==> |Piece(s, p)| > Step(s)
  {
    if Width(s) > 0 {
      EncodeInvertsDecode(s);
      var r := FirstRune(s);
      assert |EncodeRune(r)| == Step(s) && EncodeRune(r)[0] == s[0];
      assert r == '"' as int <==> s[0] == '"';
      assert r == '\\' as int <==> s[0] == '\\';
    }
  }

  lemma {:induction false} BodyIsVerbatimIff(s: string, p: PrintTable)
    ensures |Body(s, p)| >= |s|
    ensures Verbatim(s, p) ==> Body(s, p) == s
    ensures |Body(s, p)| == |s| ==> Verbatim(s, p)
    decreases |s|
  {
    hide Piece;
    hide Width;
    hide FirstRune;
    if s != "" {
      PieceLength(s, p);
      BodyIsVerbatimIff(s[Step(s)..], p);
      assert s == s[..Step(s)] + s[Step(s)..];
    }
  }

  /** Quoting adds only the quotes exactly when the text is printable and free of quotes and backslashes. */
  lemma QuoteIsVerbatimIff(s: string, p: PrintTable)
    ensures Quote(s, p) == "\"" + s + "\"" <==> Verbatim(s, p)
  {
    hide Body;
    hide Verbatim;
    BodyIsVerbatimIff(s, p);
    assert |Quote(s, p)| == |Body(s, p)| + 2 && |"\"" + s + "\""| == |s| + 2;
  }

  /** For visible ASCII without quotes, only a backslash stops a text from being quoted as it is. */
  lemma {:induction false} VisibleIsVerbatimIff(s: string, p: PrintTable)
    requires forall i | 0 <= i < |s| :: 0x20 < s[i] as int < 0x7F && s[i] != '"'
    ensures Verbatim(s, p) <==> '\\' !in s
  {
    if s != "" {
      VisibleIsVerbatimIff(s[1..], p);
      assert Width(s) == 1 && FirstRune(s) == s[0] as int && s[Step(s)..] == s[1..];
      assert s == [s[0]] + s[1..];
    }
  }

  // -------------------------------------------------------------- no new bytes

  /** Quoting writes an angle bracket only for an angle bracket. */
  lemma {:induction false} QuoteAddsNoBracket(s: string, p: PrintTable)
    requires '<' !in s
    ensures '<' !in Quote(s, p)
    decreases |s|
  {
    if s != "" {
      QuoteAddsNoBracket(s[Step(s)..], p);
      var r := FirstRune(s);
      if Width(s) > 0 {
        EncodeInvertsDecode(s);
        assert EncodeRune(r)[0] == s[0];
      }
      assert '<' !in Piece(s, p);
      assert Body(s, p) == Piece(s, p) + Body(s[Step(s)..], p);
    }
  }

  // ------------------------------------------------------------- rune by rune

  /** What is written for the runes with a letter of their own. */
  lemma LettersAre(p: PrintTable)
    ensures QuotedRune('"' as int, p) == "\\\"" && QuotedRune('\\' as int, p) == "\\\\"
    ensures QuotedRune(7, p) == "\\a" && QuotedRune(8, p) == "\\b" && QuotedRune(9, p) == "\\t"
    ensures QuotedRune(10, p) == "\\n" && QuotedRune(11, p) == "\\v" && QuotedRune(12, p) == "\\f"
    ensures QuotedRune(13, p) == "\\r"
  {
    hide Hex;
    hide EncodeRune;
  }

  /** And for all others: themselves when printable, their value in hexadecimal when not. */
  lemma QuotedRuneIs(r: Rune, p: PrintTable)
    requires !Lettered(r)
    ensures p(r) ==> QuotedRune(r, p) == EncodeRune(r)
    ensures r < 0x20 || r == 0x7F ==> QuotedRune(r, p) == ['\\', 'x', DIGITS[r / 16], DIGITS[r % 16]]
    ensures !p(r) && 0x80 <= r < 0x10000 ==> QuotedRune(r, p) == "\\u" + Hex(r, 4)
    ensures !p(r) && 0x10000 <= r ==> QuotedRune(r, p) == "\\U" + Hex(r, 8)
  {
    if r < 0x80 {
      HexByte(r);
    }
    hide Hex;
    hide DIGITS;
    hide EncodeRune;
  }

  lemma HexByte(n: nat)
    requires n < 256
    ensures "\\x" + Hex(n, 2) == ['\\', 'x', DIGITS[n / 16], DIGITS[n % 16]]
  {
    HexOfTwo(n / 16, n % 16);
    hide Hex;
    hide DIGITS;
  }

  /** A text is quoted rune by rune. */
  lemma QuoteByRune(r: Rune, s: string, p: PrintTable)
    ensures Body(EncodeRune(r) + s, p) == QuotedRune(r, p) + Body(s, p)
  {
    DecodeInvertsEncode(r, s);
    hide Width;
    hide FirstRune;
    hide EncodeRune;
    hide QuotedRune;
    assert (EncodeRune(r) + s)[|EncodeRune(r)|..] == s;
  }

  /** A malformed byte is quoted by its value. */
  lemma QuoteMalformed(s: string, p: PrintTable)
    requires s != "" && Width(s) == 0 && IsByteString(s)
    ensures Body(s, p) == ['\\', 'x', DIGITS[s[0] as int / 16], DIGITS[s[0] as int % 16]] + Body(s[1..], p)
  {
    HexByte(s[0] as int);
    hide Hex;
    hide DIGITS;
    hide Width;
    hide QuotedRune;
    hide FirstRune;
  }
}
