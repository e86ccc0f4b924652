/**
  The grammar of JSON text (RFC 8259), with every choice a writer has: white space, escapes,
  number forms.  The reader accepts exactly the documents of this grammar that are not
  nested too deeply, and takes each of them at its meaning.
 */
module Grammar {
  import opened Text
  import opened Utf8
  import opened Json

  // ------------------------------------------------------------------- characters

  /** One character of a string literal as it may be written. */
  datatype Char =
    | Raw(r: Rune)                      // itself, in UTF-8
    | Letter(c: char)                   // a backslash and a letter
    | Unit(hex: string)                 // a backslash, u, four hexadecimal digits
    | Pair(high: string, low: string)   // two of these, a surrogate pair
    | Lone(hex: string)                 // half a pair
    | Malformed(b: char)                // a byte that is no UTF-8

  predicate FourHex(h: string) {
    |h| == 4 && forall i | 0 <= i < 4 :: '0' <= h[i] <= '9' || 'a' <= h[i] <= 'f' || 'A' <= h[i] <= 'F'
  }

  function Value16(h: string): nat
    requires FourHex(h)
  {
    ((Unhex(h[0]).value * 16 + Unhex(h[1]).value) * 16 + Unhex(h[2]).value) * 16 + Unhex(h[3]).value
  }

  /** `s` starts with the escape of a low surrogate. */
  predicate LowComes(s: string) {
    |s| >= 6 && s[..2] == "\\u" && FourHex(s[2..6]) && 0xDC00 <= Value16(s[2..6]) <= 0xDFFF
  }

  /** Whether a character may be written so, `after` being what follows it. */
  predicate CharOk(c: Char, after: string) {
    match c
    case Raw(r) => r >= 0x20 && r != '"' as int && r != '\\' as int
    case Letter(l) => l in "\"\\/bfnrt"
    case Unit(h) => FourHex(h) && !(0xD800 <= Value16(h) <= 0xDFFF)
    case Pair(h, l) =>
      FourHex(h) && FourHex(l) && 0xD800 <= Value16(h) <= 0xDBFF && 0xDC00 <= Value16(l) <= 0xDFFF
    case Lone(h) =>
      && FourHex(h) && 0xD800 <= Value16(h) <= 0xDFFF
      && (Value16(h) <= 0xDBFF ==> !LowComes(after))
    case Malformed(b) => 0x80 <= b as int && Width([b] + after) == 0
  }

  function CharText(c: Char): string {
    match c
    case Raw(r) => EncodeRune(r)
    case Letter(l) => ['\\', l]
    case Unit(h) => "\\u" + h
    case Pair(h, l) => "\\u" + h + "\\u" + l
    case Lone(h) => "\\u" + h
    case Malformed(b) => [b]
  }

  /** The rune a character stands for. */
  function CharRune(c: Char, after: string): Rune
    requires CharOk(c, after)
  {
    match c
    case Raw(r) => r
    case Letter(l) =>
      if l == 'b' then 8 else if l == 't' then 9 else if l == 'n' then 10
      else if l == 'f' then 12 else if l == 'r' then 13 else l as int
    case Unit(h) => Value16(h)
    case Pair(h, l) => 0x10000 + (Value16(h) - 0xD800) * 0x400 + (Value16(l) - 0xDC00)
    case _ => 0xFFFD
  }

  /** These characters, and then `t`. */
  function PutChars(cs: seq<Char>, t: string): string {
    if cs == [] then t else CharText(cs[0]) + PutChars(cs[1..], t)
  }

  predicate CharsOk(cs: seq<Char>, t: string) {
    cs != [] ==> CharOk(cs[0], PutChars(cs[1..], t)) && CharsOk(cs[1..], t)
  }

  function CharsValue(cs: seq<Char>, t: string): string
    requires CharsOk(cs, t)
  {
    if cs == [] then "" else EncodeRune(CharRune(cs[0], PutChars(cs[1..], t))) + CharsValue(cs[1..], t)
  }

  // ---------------------------------------------------------------------- numbers

  /** A number: sign, whole part, fraction digits if any, exponent mark and digits if any. */
  datatype Number = Number(minus: string, whole: string, fraction: string, mark: string, exponent: string)

  predicate NumberOk(n: Number) {
    && (n.minus == "" || n.minus == "-")
    && n.whole != "" && AllDigits(n.whole) && (n.whole[0] == '0' ==> n.whole == "0")
    && AllDigits(n.fraction) && AllDigits(n.exponent)
    && MarkOk(n.mark)
  }

  /** `e` or `E`, and a sign or none. */
  predicate MarkOk(mark: string) {
    && 1 <= |mark| <= 2 && (mark[0] == 'e' || mark[0] == 'E')
    && (|mark| == 2 ==> mark[1] == '+' || mark[1] == '-')
  }

  function FractionText(n: Number): string { if n.fraction == "" then "" else "." + n.fraction }

  function ExponentText(n: Number): string { if n.exponent == "" then "" else n.mark + n.exponent }

  function NumberText(n: Number): string { n.minus + (n.whole + (FractionText(n) + ExponentText(n))) }

  // ----------------------------------------------------------------------- values

  datatype Value =
    | Nothing
    | Truth(b: bool)
    | Numeral(n: Number)
    | Chars(cs: seq<Char>)
    | EmptyArray(space: string)
    | Array(items: Elements)
    | EmptyObject(space: string)
    | Object(members: Members)

  /** Array elements with the white space around each. */
  datatype Elements = Element(before: string, value: Value, after: string, rest: Option<Elements>)

  /** Object members: a key between white space, a colon, a value between white space. */
  datatype Members = Member(before: string, key: seq<Char>, middle: string,
                            front: string, value: Value, after: string, rest: Option<Members>)

  predicate Blank(s: string) { forall i | 0 <= i < |s| :: s[i] in " \t\r\n" }

  /** The value, and then `t`. */
  function Put(v: Value, t: string): string
    decreases v
  {
    match v
    case Nothing => "null" + t
    case Truth(b) => (if b then "true" else "false") + t
    case Numeral(n) => NumberText(n) + t
    case Chars(cs) => "\"" + PutChars(cs, "\"" + t)
    case EmptyArray(sp) => "[" + (sp + ("]" + t))
    case Array(es) => "[" + PutElements(es, t)
    case EmptyObject(sp) => "{" + (sp + ("}" + t))
    case Object(ms) => "{" + PutMembers(ms, t)
  }

  function PutElements(es: Elements, t: string): string
    decreases es
  {
    match es
    case Element(b, v, a, None) => b + Put(v, a + ("]" + t))
    case Element(b, v, a, Some(rest)) => b + Put(v, a + ("," + PutElements(rest, t)))
  }

  function PutMembers(ms: Members, t: string): string
    decreases ms
  {
    ms.before + ("\"" + PutChars(ms.key, PutAfterKey(ms, t)))
  }

  function PutAfterKey(ms: Members, t: string): string
    decreases ms, 0
  {
    match ms
    case Member(_, _, m, w, v, a, None) => "\"" + (m + (":" + (w + Put(v, a + ("}" + t)))))
    case Member(_, _, m, w, v, a, Some(rest)) => "\"" + (m + (":" + (w + Put(v, a + ("," + PutMembers(rest, t))))))
  }

  // ------------------------------------------------------------- well-formed text

  predicate ValueOk(v: Value, t: string)
    decreases v
  {
    match v
    case Nothing => true
    case Truth(_) => true
    case Numeral(n) => NumberOk(n)
    case Chars(cs) => CharsOk(cs, "\"" + t)
    case EmptyArray(sp) => Blank(sp)
    case Array(es) => ElementsOk(es, t)
    case EmptyObject(sp) => Blank(sp)
    case Object(ms) => MembersOk(ms, t)
  }

  predicate ElementsOk(es: Elements, t: string)
    decreases es
  {
    && Blank(es.before) && Blank(es.after)
    && match es.rest
       case None => ValueOk(es.value, es.after + ("]" + t))
       case Some(rest) => ValueOk(es.value, es.after + ("," + PutElements(rest, t))) && ElementsOk(rest, t)
  }

  predicate MembersOk(ms: Members, t: string)
    decreases ms
  {
    && Blank(ms.before) && Blank(ms.middle) && Blank(ms.front) && Blank(ms.after)
    && CharsOk(ms.key, PutAfterKey(ms, t))
    && match ms.rest
       case None => ValueOk(ms.value, ms.after + ("}" + t))
       case Some(rest) => ValueOk(ms.value, ms.after + ("," + PutMembers(rest, t))) && MembersOk(rest, t)
  }

  /** How deeply objects and arrays are nested in it. */
  function Nesting(v: Value): nat {
    match v
    case EmptyArray(_) => 1
    case Array(es) => 1 + ElementsNesting(es)
    case EmptyObject(_) => 1
    case Object(ms) => 1 + MembersNesting(ms)
    case _ => 0
  }

  function Max(a: nat, b: nat): nat { if a < b then b else a }

  function ElementsNesting(es: Elements): nat {
    match es.rest
    case None => Nesting(es.value)
    case Some(rest) => Max(Nesting(es.value), ElementsNesting(rest))
  }

  function MembersNesting(ms: Members): nat {
    match ms.rest
    case None => Nesting(ms.value)
    case Some(rest) => Max(Nesting(ms.value), MembersNesting(rest))
  }

  /** The document the text stands for. */
  function Meaning(v: Value, t: string): Json
    requires ValueOk(v, t)
    decreases v
  {
    match v
    case Nothing => Null
    case Truth(b) => Bool(b)
    case Numeral(n) => Num(NumberText(n))
    case Chars(cs) => Str(CharsValue(cs, "\"" + t))
    case EmptyArray(_) => Arr(NoItems)
    case Array(es) => Arr(ItemsMeant(es, t))
    case EmptyObject(_) => Obj(NoFields)
    case Object(ms) => Obj(FieldsMeant(ms, t))
  }

  function ItemsMeant(es: Elements, t: string): Items
    requires ElementsOk(es, t)
    decreases es
  {
    match es.rest
    case None => Item(Meaning(es.value, es.after + ("]" + t)), NoItems)
    case Some(rest) => Item(Meaning(es.value, es.after + ("," + PutElements(rest, t))), ItemsMeant(rest, t))
  }

  function FieldsMeant(ms: Members, t: string): Fields
    requires MembersOk(ms, t)
    decreases ms
  {
    var key := CharsValue(ms.key, PutAfterKey(ms, t));
    match ms.rest
    case None => Field(key, Meaning(ms.value, ms.after + ("}" + t)), NoFields)
    case Some(rest) => Field(key, Meaning(ms.value, ms.after + ("," + PutMembers(rest, t))), FieldsMeant(rest, t))
  }

  // ------------------------------------------------------- what is written is read

  lemma HexValueIs(h: string)
    requires |h| == 4
    ensures HexValue(h) == if FourHex(h) then Some(Value16(h)) else None
  {
    hide Unhex;
    UnhexIs(h[0]);
    UnhexIs(h[1]);
    UnhexIs(h[2]);
    UnhexIs(h[3]);
    HexValueStep(h[..1]);
    HexValueStep(h[..2]);
    HexValueStep(h[..3]);
    HexValueStep(h);
    hide HexValue;
    assert h[..1][..0] == "" && h[..2][..1] == h[..1] && h[..3][..2] == h[..2];
  }

  lemma HexValueStep(h: string)
    requires h != ""
    ensures HexValue("") == Some(0)
    ensures HexValue(h) ==
            var hi, lo := HexValue(h[..|h| - 1]), Unhex(h[|h| - 1]);
            if hi.Some? && lo.Some? then Some(hi.value * 16 + lo.value) else None
  {
    hide Unhex;
    hide Pow16;
  }

  lemma UnhexIs(c: char)
    ensures Unhex(c).Some? <==> '0' <= c <= '9' || 'a' <= c <= 'f' || 'A' <= c <= 'F'
  {
  }

  lemma EscapedUnitIs(h: string, after: string)
    requires |h| == 4
    ensures EscapedUnit("\\u" + h + after) == if FourHex(h) then Some(Value16(h)) else None
  {
    var s := "\\u" + h + after;
    assert s[2..6] == h;
    HexValueIs(h);
    hide FourHex;
    hide Value16;
    hide HexValue;
  }

  lemma LowComesIs(s: string)
    ensures LowComes(s) <==> EscapedUnit(s).Some? && 0xDC00 <= EscapedUnit(s).value < 0xE000
  {
    if |s| >= 6 {
      HexValueIs(s[2..6]);
      hide FourHex;
      hide Value16;
      hide HexValue;
      assert s[..2] == "\\u" <==> s[0] == '\\' && s[1] == 'u';
    }
  }

  lemma ReadsUnit(h: string, after: string)
    requires FourHex(h)
    ensures var s := "\\u" + h + after;
            ReadUnicodeEscape(s) ==
              if Value16(h) < 0xD800 || Value16(h) >= 0xE000 then Some((Value16(h), 6))
              else if Value16(h) < 0xDC00 && EscapedUnit(after).Some?
                      && 0xDC00 <= EscapedUnit(after).value < 0xE000 then
                Some((0x10000 + (Value16(h) - 0xD800) * 0x400 + (EscapedUnit(after).value - 0xDC00), 12))
              else Some((0xFFFD, 6))
  {
    EscapedUnitIs(h, after);
    hide FourHex;
    hide Value16;
    hide EscapedUnit;
    var s := "\\u" + h + after;
    assert s[6..] == after;
  }

  lemma ReadsPair(h: string, l: string, after: string)
    requires CharOk(Pair(h, l), after)
    ensures ReadUnicodeEscape("\\u" + h + "\\u" + l + after)
         == Some((0x10000 + (Value16(h) - 0xD800) * 0x400 + (Value16(l) - 0xDC00), 12))
  {
    ReadsUnit(h, "\\u" + l + after);
    EscapedUnitIs(l, after);
    hide FourHex;
    hide Value16;
    hide EscapedUnit;
    hide ReadUnicodeEscape;
    assert "\\u" + h + "\\u" + l + after == "\\u" + h + ("\\u" + l + after);
  }

  lemma ReadsLone(h: string, after: string)
    requires CharOk(Lone(h), after)
    ensures ReadUnicodeEscape("\\u" + h + after) == Some((0xFFFD, 6))
  {
    ReadsUnit(h, after);
    LowComesIs(after);
    hide FourHex;
    hide Value16;
    hide EscapedUnit;
    hide LowComes;
    hide ReadUnicodeEscape;
  }

  lemma ReadsEscape(c: Char, after: string)
    requires (c.Unit? || c.Pair? || c.Lone?) && CharOk(c, after)
    ensures |CharText(c)| >= 2 && CharText(c)[..2] == "\\u"
    ensures ReadUnicodeEscape(CharText(c) + after) == Some((CharRune(c, after), |CharText(c)|))
  {
    assert c.Pair? ==> |c.high| == 4 == |c.low|;
    assert !c.Pair? ==> |c.hex| == 4;
    hide FourHex;
    hide Value16;
    hide LowComes;
    hide ReadUnicodeEscape;
    if c.Unit? {
      ReadsUnit(c.hex, after);
    } else if c.Pair? {
      ReadsPair(c.high, c.low, after);
    } else {
      ReadsLone(c.hex, after);
    }
  }

  lemma ReadCharAtEscape(s: string)
    requires |s| >= 2 && s[0] == '\\' && s[1] == 'u'
    ensures ReadChar(s) == ReadUnicodeEscape(s)
  {
    hide ReadUnicodeEscape;
  }

  /** A character is read as the rune it stands for. */
  lemma ReadsChar(c: Char, after: string)
    requires CharOk(c, after)
    ensures CharText(c) != "" && CharText(c)[0] != '"'
    ensures ReadChar(CharText(c) + after) == Some((CharRune(c, after), |CharText(c)|))
  {
    hide FourHex;
    hide Value16;
    hide ReadUnicodeEscape;
    hide EncodeRune;
    hide LowComes;
    if c.Unit? || c.Pair? || c.Lone? {
      ReadsEscape(c, after);
      hide CharText;
      hide CharRune;
      hide ReadChar;
      assert (CharText(c) + after)[..2] == CharText(c)[..2];
      ReadCharAtEscape(CharText(c) + after);
    } else if c.Raw? {
      ReadCharInvertsPlain(c.r, after);
    } else {
      hide Width;
    }
  }

  /** What is read as a character is written as one. */
  lemma CharRead(s: string) returns (c: Char)
    requires s != "" && s[0] != '"' && ReadChar(s).Some?
    ensures var n := ReadChar(s).value.1;
            && CharOk(c, s[n..]) && s == CharText(c) + s[n..]
            && ReadChar(s).value.0 == CharRune(c, s[n..])
  {
    ReadCharCases(s);
    hide *;
    if s[0] != '\\' {
      c := PlainRead(s);
    } else if s[1] == 'u' {
      c := EscapeRead(s);
    } else {
      c := LetterRead(s);
    }
  }

  lemma ReadCharCases(s: string)
    requires s != "" && ReadChar(s).Some?
    ensures s[0] != '\\' ==> s[0] as int >= 0x20 && ReadChar(s) == Some((FirstRune(s), Step(s)))
    ensures s[0] == '\\' ==> |s| >= 2
    ensures s[0] == '\\' && s[1] == 'u' ==> ReadChar(s) == ReadUnicodeEscape(s)
    ensures s[0] == '\\' && s[1] != 'u' ==> ReadChar(s).value.1 == 2
  {
    hide ReadUnicodeEscape;
    hide FirstRune;
    hide Width;
  }

  lemma LetterRead(s: string) returns (c: Char)
    requires |s| >= 2 && s[0] == '\\' && s[1] != 'u' && ReadChar(s).Some?
    ensures CharOk(c, s[2..]) && s == CharText(c) + s[2..]
    ensures ReadChar(s) == Some((CharRune(c, s[2..]), 2))
  {
    return Letter(s[1]);
  }

  lemma PlainRead(s: string) returns (c: Char)
    requires s != "" && s[0] != '"' && s[0] != '\\' && s[0] as int >= 0x20
    ensures CharOk(c, s[Step(s)..]) && s == CharText(c) + s[Step(s)..]
    ensures FirstRune(s) == CharRune(c, s[Step(s)..])
  {
    if Width(s) == 0 {
      assert [s[0]] + s[1..] == s;
      return Malformed(s[0]);
    }
    EncodeInvertsDecode(s);
    assert s[..Width(s)][0] == s[0];
    assert s == s[..Width(s)] + s[Width(s)..];
    return Raw(FirstRune(s));
  }

  lemma EscapeRead(s: string) returns (c: Char)
    requires |s| >= 2 && s[0] == '\\' && s[1] == 'u' && ReadUnicodeEscape(s).Some?
    ensures var n := ReadUnicodeEscape(s).value.1;
            && CharOk(c, s[n..]) && s == CharText(c) + s[n..]
            && ReadUnicodeEscape(s).value.0 == CharRune(c, s[n..])
  {
    var h, after := s[2..6], s[6..];
    HexValueIs(h);
    hide HexValue;
    assert s == "\\u" + h + after;
    ReadsUnit(h, after);
    LowComesIs(after);
    hide FourHex;
    hide Value16;
    hide ReadUnicodeEscape;
    if Value16(h) < 0xD800 || Value16(h) >= 0xE000 {
      return Unit(h);
    }
    if Value16(h) < 0xDC00 && LowComes(after) {
      var l := after[2..6];
      assert after == "\\u" + l + s[12..];
      EscapedUnitIs(l, s[12..]);
      return Pair(h, l);
    }
    return Lone(h);
  }

  /** A string literal is read as the runes it stands for. */
  lemma {:induction false} ReadsChars(cs: seq<Char>, t: string)
    requires CharsOk(cs, "\"" + t)
    ensures ReadString(PutChars(cs, "\"" + t)) == Parsed(CharsValue(cs, "\"" + t), t)
  {
    var end := "\"" + t;
    if cs == [] {
      assert end[1..] == t;
    } else {
      var after := PutChars(cs[1..], end);
      ReadsChars(cs[1..], t);
      ReadsChar(cs[0], after);
      var s := CharText(cs[0]) + after;
      assert s[|CharText(cs[0])|..] == after && s[0] == CharText(cs[0])[0];
      ReadStringStep(s, CharRune(cs[0], after), |CharText(cs[0])|, after);
      hide *;
    }
  }

  /** What is read as a string literal is written as one. */
  lemma {:induction false} CharsRead(s: string) returns (cs: seq<Char>)
    requires ReadString(s).Parsed?
    ensures var end := "\"" + ReadString(s).rest;
            s == PutChars(cs, end) && CharsOk(cs, end) && ReadString(s).value == CharsValue(cs, end)
    decreases |s|
  {
    if s[0] == '"' {
      assert s == "\"" + s[1..];
      return [];
    }
    var n := ReadChar(s).value.1;
    var c := CharRead(s);
    var more := CharsRead(s[n..]);
    cs := [c] + more;
    assert cs[1..] == more;
    ReadStringStep(s, ReadChar(s).value.0, n, s[n..]);
  }

  // ---------------------------------------------------------------------- numbers

  lemma {:induction false} LeadingDigitsAre(s: string)
    ensures AllDigits(s[..LeadingDigits(s)])
  {
    if s != "" && IsDigit(s[0]) {
      LeadingDigitsAre(s[1..]);
      assert s[..LeadingDigits(s)] == [s[0]] + s[1..][..LeadingDigits(s[1..])];
    }
  }

  lemma ReadsWhole(s: string, a: nat, whole: string, t: string)
    requires a <= |s| && s[a..] == whole + t
    requires whole != "" && AllDigits(whole) && (whole[0] == '0' ==> whole == "0")
    requires t == "" || !IsDigit(t[0])
    ensures IntLen(s, a) == |whole|
  {
    LeadingDigitsExact(whole, t);
    assert s[a] == s[a..][0];
  }

  lemma ReadsFraction(s: string, a: nat, n: Number, t: string)
    requires a <= |s| && AllDigits(n.fraction)
    requires s[a..] == FractionText(n) + t
    requires t == "" || (!IsDigit(t[0]) && t[0] != '.')
    ensures FractionEnd(s, a) == Some(|s| - |t|)
  {
    var fraction := n.fraction;
    if fraction == "" {
      assert s[a..] == t;
      assert a < |s| ==> s[a] == t[0];
    } else {
      assert s[a] == s[a..][0];
      assert s[a + 1..] == s[a..][1..] == fraction + t;
      LeadingDigitsExact(fraction, t);
    }
  }

  lemma ReadsExponent(s: string, a: nat, n: Number, t: string)
    requires a <= |s| && AllDigits(n.exponent) && MarkOk(n.mark)
    requires s[a..] == ExponentText(n) + t
    requires EndsNumber(t)
    ensures ExponentEnd(s, a) == Some(|s| - |t|)
  {
    var mark, exponent := n.mark, n.exponent;
    if exponent == "" {
      assert s[a..] == t;
      assert a < |s| ==> s[a] == t[0];
    } else {
      assert IsDigit(exponent[0]);
      LeadingDigitsExact(exponent, t);
      MarkPositions(mark, exponent, t);
      hide AllDigits;
      hide LeadingDigits;
      hide EndsNumber;
      AtTail(s, a, mark + exponent + t);
    }
  }

  lemma MarkPositions(mark: string, exponent: string, t: string)
    requires MarkOk(mark) && exponent != ""
    ensures var u := mark + exponent + t;
            && u[0] == mark[0] && u[1] == (if |mark| == 2 then mark[1] else exponent[0])
            && u[|mark|..] == exponent + t
  {
  }

  lemma AtTail(s: string, a: nat, u: string)
    requires a <= |s| && s[a..] == u
    ensures forall i | 0 <= i <= |u| :: (i < |u| ==> s[a + i] == u[i]) && s[a + i..] == u[i..]
  {
  }

  lemma DropMore(s: string, a: nat, u: string, v: string)
    requires a <= |s| && s[a..] == u + v
    ensures a + |u| <= |s| && s[a + |u|..] == v
  {
    assert s[a + |u|..] == s[a..][|u|..];
  }

  lemma NumberAsTail(n: Number, t: string)
    ensures NumberText(n) + t == n.minus + (n.whole + (FractionText(n) + (ExponentText(n) + t)))
  {
    hide FractionText;
    hide ExponentText;
  }

  lemma AfterParts(n: Number, t: string)
    requires NumberOk(n) && EndsNumber(t)
    ensures var e := ExponentText(n) + t; e == "" || (!IsDigit(e[0]) && e[0] != '.')
    ensures var f := FractionText(n) + (ExponentText(n) + t); f == "" || !IsDigit(f[0])
  {
  }

  lemma NumberEnds(s: string, a: nat, b: nat, c: nat, d: nat)
    requires a < b <= c <= d <= |s| && a == (if s[0] == '-' then 1 else 0)
    requires IntLen(s, a) == b - a && FractionEnd(s, b) == Some(c) && ExponentEnd(s, c) == Some(d)
    ensures NumberLen(s) == d
  {
    hide IntLen;
    hide FractionEnd;
    hide ExponentEnd;
  }

  /** Where the parts of a written number are. */
  lemma NumberPositions(n: Number, t: string)
    ensures var s, f, e := NumberText(n) + t, FractionText(n), ExponentText(n);
            var a := |n.minus|;
            var b := a + |n.whole|;
            var c := b + |f|;
            && c + |e| <= |s|
            && s[a..] == n.whole + (f + (e + t)) && s[b..] == f + (e + t) && s[c..] == e + t
            && |s| - |e + t| == c && |s| - |t| == c + |e|
            && (a > 0 ==> s[0] == n.minus[0]) && (a == 0 && n.whole != "" ==> s[0] == n.whole[0])
  {
    var s, f, e := NumberText(n) + t, FractionText(n), ExponentText(n);
    NumberAsTail(n, t);
    NumberTextLength(n);
    hide *;
    assert s[0..] == s;
    DropMore(s, 0, n.minus, n.whole + (f + (e + t)));
    DropMore(s, |n.minus|, n.whole, f + (e + t));
    DropMore(s, |n.minus| + |n.whole|, f, e + t);
  }

  lemma WholeEnds(n: Number, t: string)
    requires NumberOk(n) && EndsNumber(t)
    ensures IntLen(NumberText(n) + t, |n.minus|) == |n.whole|
  {
    assert n.whole != "" && AllDigits(n.whole) && (n.whole[0] == '0' ==> n.whole == "0");
    AfterParts(n, t);
    hide *;
    NumberPositions(n, t);
    ReadsWhole(NumberText(n) + t, |n.minus|, n.whole, FractionText(n) + (ExponentText(n) + t));
  }

  lemma FractionEnds(n: Number, t: string)
    requires NumberOk(n) && EndsNumber(t)
    ensures var s, b := NumberText(n) + t, |n.minus| + |n.whole|;
            b <= |s| && FractionEnd(s, b) == Some(b + |FractionText(n)|)
  {
    AfterParts(n, t);
    assert AllDigits(n.fraction);
    hide *;
    NumberPositions(n, t);
    ReadsFraction(NumberText(n) + t, |n.minus| + |n.whole|, n, ExponentText(n) + t);
  }

  lemma ExponentPosition(n: Number, t: string)
    ensures var s, c := NumberText(n) + t, |n.minus| + |n.whole| + |FractionText(n)|;
            c <= |s| && s[c..] == ExponentText(n) + t && |s| - |t| == c + |ExponentText(n)|
  {
    NumberPositions(n, t);
    hide *;
  }

  lemma ExponentEnds(n: Number, t: string)
    requires NumberOk(n) && EndsNumber(t)
    ensures var s, c := NumberText(n) + t, |n.minus| + |n.whole| + |FractionText(n)|;
            c <= |s| && ExponentEnd(s, c) == Some(c + |ExponentText(n)|)
  {
    assert AllDigits(n.exponent) && MarkOk(n.mark);
    hide *;
    ExponentPosition(n, t);
    ReadsExponent(NumberText(n) + t, |n.minus| + |n.whole| + |FractionText(n)|, n, t);
  }

  lemma SignIsKnown(n: Number, t: string)
    requires NumberOk(n)
    ensures var s := NumberText(n) + t;
            n.whole != "" && s != "" && |n.minus| == if s[0] == '-' then 1 else 0
  {
    assert IsDigit(n.whole[0]);
    NumberPositions(n, t);
    hide NumberText;
    hide FractionText;
    hide ExponentText;
  }

  /** A number is read to its end. */
  lemma ReadsNumber(n: Number, t: string)
    requires NumberOk(n) && EndsNumber(t)
    ensures NumberLen(NumberText(n) + t) == |NumberText(n)|
  {
    hide *;
    NumberTextLength(n);
    SignIsKnown(n, t);
    WholeEnds(n, t);
    FractionEnds(n, t);
    ExponentEnds(n, t);
    var b := |n.minus| + |n.whole|;
    var c := b + |FractionText(n)|;
    NumberEnds(NumberText(n) + t, |n.minus|, b, c, c + |ExponentText(n)|);
  }

  lemma NumberTextLength(n: Number)
    ensures |NumberText(n)| == |n.minus| + |n.whole| + |FractionText(n)| + |ExponentText(n)|
  {
    hide FractionText;
    hide ExponentText;
  }

  lemma FractionRead(s: string, a: nat) returns (fraction: string)
    requires a <= |s| && FractionEnd(s, a).Some?
    ensures AllDigits(fraction)
    ensures s[a..FractionEnd(s, a).value] == if fraction == "" then "" else "." + fraction
  {
    var e := FractionEnd(s, a).value;
    if a == |s| || s[a] != '.' {
      return "";
    }
    LeadingDigitsAre(s[a + 1..]);
    fraction := s[a + 1..e];
    assert fraction == s[a + 1..][..e - a - 1];
    assert s[a..e] == "." + fraction;
  }

  lemma ExponentRead(s: string, a: nat) returns (mark: string, exponent: string)
    requires a <= |s| && ExponentEnd(s, a).Some?
    ensures AllDigits(exponent) && MarkOk(mark)
    ensures s[a..ExponentEnd(s, a).value] == if exponent == "" then "" else mark + exponent
  {
    var e := ExponentEnd(s, a).value;
    if a == |s| || (s[a] != 'e' && s[a] != 'E') {
      return "e", "";
    }
    var b := if a + 1 < |s| && (s[a + 1] == '+' || s[a + 1] == '-') then a + 2 else a + 1;
    LeadingDigitsAre(s[b..]);
    mark, exponent := s[a..b], s[b..e];
    assert exponent == s[b..][..e - b];
    assert mark == if b == a + 2 then [s[a], s[a + 1]] else [s[a]];
    assert s[a..e] == mark + exponent;
  }

  lemma WholeRead(s: string, a: nat)
    requires a <= |s| && IntLen(s, a) > 0
    ensures var w := s[a..a + IntLen(s, a)]; AllDigits(w) && (w[0] == '0' ==> w == "0")
  {
    LeadingDigitsAre(s[a..]);
    assert s[a..a + IntLen(s, a)] == s[a..][..IntLen(s, a)];
  }

  lemma Glue(s: string, a: nat, b: nat, c: nat, d: nat)
    requires a <= b <= c <= d <= |s|
    ensures s[..d] == s[..a] + (s[a..b] + (s[b..c] + s[c..d]))
  {
  }

  lemma NumberParts(s: string) returns (a: nat, b: nat, c: nat, d: nat)
    requires NumberLen(s) > 0
    ensures a < b <= c <= d == NumberLen(s) <= |s| && a == if s[0] == '-' then 1 else 0
    ensures IntLen(s, a) == b - a && FractionEnd(s, b) == Some(c) && ExponentEnd(s, c) == Some(d)
  {
    hide IntLen;
    hide FractionEnd;
    hide ExponentEnd;
    a := if s[0] == '-' then 1 else 0;
    b := a + IntLen(s, a);
    c := FractionEnd(s, b).value;
    d := ExponentEnd(s, c).value;
  }

  /** What is read as a number is written as one. */
  lemma NumberRead(s: string) returns (n: Number)
    requires NumberLen(s) > 0
    ensures NumberOk(n) && s[..NumberLen(s)] == NumberText(n)
  {
    hide NumberLen;
    hide IntLen;
    hide FractionEnd;
    hide ExponentEnd;
    hide MarkOk;
    hide AllDigits;
    var a, b, c, d := NumberParts(s);
    WholeRead(s, a);
    var f := FractionRead(s, b);
    var mark, e := ExponentRead(s, c);
    n := Number(s[..a], s[a..b], f, mark, e);
    assert s[..a] == if a == 1 then "-" else "";
    Glue(s, a, b, c, d);
  }

  // ----------------------------------------------------------------- reading values

  /** Nothing to skip. */
  predicate Solid(t: string) { t == "" || t[0] !in " \t\r\n" }

  lemma {:induction false} SkipBlank(sp: string, t: string)
    requires Blank(sp) && Solid(t)
    ensures SkipSpace(sp + t) == t
  {
    if sp == "" {
      assert sp + t == t;
    } else {
      assert (sp + t)[1..] == sp[1..] + t && (sp + t)[0] == sp[0];
      SkipBlank(sp[1..], t);
    }
  }

  lemma {:induction false} SkippedIsBlank(s: string) returns (sp: string)
    ensures s == sp + SkipSpace(s) && Blank(sp) && Solid(SkipSpace(s))
  {
    sp := "";
    if SkipSpace(s) != s {
      var more := SkippedIsBlank(s[1..]);
      sp := [s[0]] + more;
    }
  }

  /** After a value comes white space or one of these. */
  lemma BlankEndsNumber(a: string, c: char, t: string)
    requires Blank(a) && c in ",]}"
    ensures EndsNumber(a + ([c] + t)) && Solid([c] + t) && SkipSpace(a + ([c] + t)) == [c] + t
  {
    SkipBlank(a, [c] + t);
    var u := a + ([c] + t);
    assert u[0] == if a == "" then c else a[0];
  }

  /** How a value starts. */
  lemma PutStarts(v: Value, t: string)
    requires ValueOk(v, t)
    ensures Put(v, t) != "" && Solid(Put(v, t))
    ensures var c := Put(v, t)[0];
            && (v.Nothing? <==> c == 'n') && (v == Truth(true) <==> c == 't') && (v == Truth(false) <==> c == 'f')
            && (v.Numeral? <==> c == '-' || IsDigit(c)) && (v.Chars? <==> c == '"')
            && (v.EmptyArray? || v.Array? <==> c == '[') && (v.EmptyObject? || v.Object? <==> c == '{')
  {
    if v.Numeral? {
      SignIsKnown(v.n, t);
      assert IsDigit(v.n.whole[0]);
      NumberPositions(v.n, t);
    }
  }

  lemma ReadValueSkips(sp: string, u: string, depth: nat)
    requires Blank(sp) && Solid(u)
    ensures ReadValue(sp + u, depth) == ReadValue(u, depth)
  {
    SkipBlank(sp, u);
    SkipBlank("", u);
    assert "" + u == u;
    hide ReadObject;
    hide ReadArray;
    hide ReadString;
    hide NumberLen;
    hide ReadLiteral;
  }

  lemma ReadsWord(v: Value, t: string, depth: nat)
    requires v.Nothing? || v.Truth?
    ensures ReadValue(Put(v, t), depth) == Parsed(if v.Truth? then Bool(v.b) else Null, t)
  {
    var word := if v.Nothing? then "null" else if v.b then "true" else "false";
    assert Put(v, t) == word + t;
    assert (word + t)[0] == word[0] && (word + t)[|word|..] == t;
  }

  lemma ReadsNumeral(n: Number, t: string, depth: nat)
    requires NumberOk(n) && EndsNumber(t)
    ensures ReadValue(NumberText(n) + t, depth) == Parsed(Num(NumberText(n)), t)
  {
    ReadsNumber(n, t);
    PutStarts(Numeral(n), t);
    NumberTextLength(n);
    hide NumberLen;
    hide NumberOk;
    hide EndsNumber;
    hide NumberText;
    NumeralAt(NumberText(n), t, depth);
  }

  lemma NumeralAt(w: string, t: string, depth: nat)
    requires w + t != "" && ((w + t)[0] == '-' || IsDigit((w + t)[0]))
    requires 0 < |w| == NumberLen(w + t)
    ensures ReadValue(w + t, depth) == Parsed(Num(w), t)
  {
    hide NumberLen;
    hide ReadObject;
    hide ReadArray;
    hide ReadString;
    hide ReadLiteral;
    var s := w + t;
    assert SkipSpace(s) == s;
    assert s[..|w|] == w && s[|w|..] == t;
  }

  lemma ReadsLiteral(cs: seq<Char>, t: string, depth: nat)
    requires CharsOk(cs, "\"" + t)
    ensures ReadValue(Put(Chars(cs), t), depth) == Parsed(Str(CharsValue(cs, "\"" + t)), t)
  {
    ReadsChars(cs, t);
    ReadValueAtQuote(PutChars(cs, "\"" + t), depth);
    hide PutChars;
    hide CharsValue;
    hide CharsOk;
    hide ReadString;
    hide ReadValue;
  }

  lemma ReadValueAtQuote(u: string, depth: nat)
    requires ReadString(u).Parsed?
    ensures ReadValue("\"" + u, depth) == Parsed(Str(ReadString(u).value), ReadString(u).rest)
  {
    hide ReadString;
    hide ReadObject;
    hide ReadArray;
    hide NumberLen;
    hide ReadLiteral;
    assert ("\"" + u)[1..] == u;
  }

  lemma ReadsEmpty(sp: string, t: string, depth: nat)
    requires Blank(sp) && depth < MAX_DEPTH
    ensures ReadValue("[" + (sp + ("]" + t)), depth) == Parsed(Arr(NoItems), t)
    ensures ReadValue("{" + (sp + ("}" + t)), depth) == Parsed(Obj(NoFields), t)
  {
    SkipBlank(sp, "]" + t);
    SkipBlank(sp, "}" + t);
    var a, o := sp + ("]" + t), sp + ("}" + t);
    assert ("[" + a)[1..] == a && ("{" + o)[1..] == o;
    assert ("]" + t)[1..] == t && ("}" + t)[1..] == t;
  }

  lemma OpenArray(u: string, depth: nat)
    requires depth < MAX_DEPTH && SkipSpace(u) != "" && SkipSpace(u)[0] != ']'
    ensures ReadValue("[" + u, depth) ==
            match ReadItems(SkipSpace(u), depth + 1)
            case Fail => Fail
            case Parsed(vs, rest) => Parsed(Arr(vs), rest)
  {
    assert ("[" + u)[1..] == u;
    hide ReadItems;
  }

  lemma OpenObject(u: string, depth: nat)
    requires depth < MAX_DEPTH && SkipSpace(u) != "" && SkipSpace(u)[0] != '}'
    ensures ReadValue("{" + u, depth) ==
            match ReadFields(SkipSpace(u), depth + 1)
            case Fail => Fail
            case Parsed(fs, rest) => Parsed(Obj(fs), rest)
  {
    assert ("{" + u)[1..] == u;
    hide ReadFields;
  }

  lemma LastElement(s: string, v: Json, a: string, t: string, depth: nat)
    requires ReadValue(s, depth) == Parsed(v, a + ("]" + t)) && Blank(a)
    ensures ReadItems(s, depth) == Parsed(Item(v, NoItems), t)
  {
    BlankEndsNumber(a, ']', t);
    hide ReadValue;
    assert ("]" + t)[1..] == t;
  }

  lemma NextElement(s: string, v: Json, a: string, more: string, depth: nat)
    requires ReadValue(s, depth) == Parsed(v, a + ("," + more)) && Blank(a)
    requires ReadItems(more, depth).Parsed?
    ensures var r := ReadItems(more, depth); ReadItems(s, depth) == Parsed(Item(v, r.value), r.rest)
  {
    BlankEndsNumber(a, ',', more);
    hide ReadValue;
    assert ("," + more)[1..] == more;
  }

  lemma ReadsKey(key: seq<Char>, m: string, u: string)
    requires Blank(m) && CharsOk(key, "\"" + (m + (":" + u)))
    ensures ReadKey("\"" + PutChars(key, "\"" + (m + (":" + u))))
         == Parsed(CharsValue(key, "\"" + (m + (":" + u))), u)
  {
    var after := m + (":" + u);
    ReadsChars(key, after);
    SkipBlank(m, ":" + u);
    var body := PutChars(key, "\"" + after);
    hide PutChars;
    hide CharsValue;
    hide CharsOk;
    hide ReadString;
    hide SkipSpace;
    assert ("\"" + body)[1..] == body && (":" + u)[1..] == u;
  }

  lemma LastMember(s: string, k: string, b: string, v: Json, a: string, t: string, depth: nat)
    requires ReadKey(s) == Parsed(k, b) && ReadValue(b, depth) == Parsed(v, a + ("}" + t)) && Blank(a)
    ensures ReadFields(s, depth) == Parsed(Field(k, v, NoFields), t)
  {
    BlankEndsNumber(a, '}', t);
    hide ReadValue;
    hide ReadKey;
    assert ("}" + t)[1..] == t;
  }

  lemma NextMember(s: string, k: string, b: string, v: Json, a: string, more: string, depth: nat)
    requires ReadKey(s) == Parsed(k, b) && ReadValue(b, depth) == Parsed(v, a + ("," + more)) && Blank(a)
    requires ReadFields(SkipSpace(more), depth).Parsed?
    ensures var r := ReadFields(SkipSpace(more), depth);
            ReadFields(s, depth) == Parsed(Field(k, v, r.value), r.rest)
  {
    BlankEndsNumber(a, ',', more);
    hide ReadValue;
    hide ReadKey;
    assert ("," + more)[1..] == more;
  }

  /** A written value is read as what it means, and reading stops where it ended. */
  lemma {:induction false} ReadsValue(sp: string, v: Value, t: string, depth: nat)
    requires Blank(sp) && ValueOk(v, t) && (v.Numeral? ==> EndsNumber(t))
    requires Nesting(v) + depth <= MAX_DEPTH
    ensures ReadValue(sp + Put(v, t), depth) == Parsed(Meaning(v, t), t)
    decreases v, 1
  {
    PutStarts(v, t);
    ReadValueSkips(sp, Put(v, t), depth);
    hide ReadValue;
    hide Blank;
    hide Solid;
    hide EndsNumber;
    match v
    case Nothing => ReadsWord(v, t, depth);
    case Truth(_) => ReadsWord(v, t, depth);
    case Numeral(n) => ReadsNumeral(n, t, depth);
    case Chars(cs) => ReadsLiteral(cs, t, depth);
    case EmptyArray(space) => ReadsEmpty(space, t, depth);
    case EmptyObject(space) => ReadsEmpty(space, t, depth);
    case Array(es) => ReadsArray(es, t, depth);
    case Object(ms) => ReadsObject(ms, t, depth);
  }

  lemma {:induction false} ReadsArray(es: Elements, t: string, depth: nat)
    requires ElementsOk(es, t) && ElementsNesting(es) + 1 + depth <= MAX_DEPTH
    ensures ReadValue("[" + PutElements(es, t), depth) == Parsed(Arr(ItemsMeant(es, t)), t)
    decreases es, 1
  {
    hide *;
    ReadsElements(es, t, depth + 1);
    ElementsStart(es, t);
    ReadItemsSkips(PutElements(es, t), depth + 1);
    OpenArray(PutElements(es, t), depth);
  }

  lemma ElementsStart(es: Elements, t: string)
    requires ElementsOk(es, t)
    ensures var u := SkipSpace(PutElements(es, t)); u != "" && u[0] != ']'
  {
    var after := if es.rest.None? then es.after + ("]" + t) else es.after + ("," + PutElements(es.rest.value, t));
    PutStarts(es.value, after);
    SkipBlank(es.before, Put(es.value, after));
  }

  lemma ReadItemsSkips(s: string, depth: nat)
    ensures ReadItems(SkipSpace(s), depth) == ReadItems(s, depth)
  {
    var sp := SkippedIsBlank(s);
    ReadValueSkips(sp, SkipSpace(s), depth);
    hide ReadValue;
    hide SkipSpace;
  }

  lemma {:induction false} ReadsElements(es: Elements, t: string, depth: nat)
    requires ElementsOk(es, t) && ElementsNesting(es) + depth <= MAX_DEPTH
    ensures ReadItems(PutElements(es, t), depth) == Parsed(ItemsMeant(es, t), t)
    decreases es, 0
  {
    hide ReadValue;
    hide ReadItems;
    hide Put;
    if es.rest.None? {
      var after := es.after + ("]" + t);
      BlankEndsNumber(es.after, ']', t);
      ReadsValue(es.before, es.value, after, depth);
      LastElement(PutElements(es, t), Meaning(es.value, after), es.after, t, depth);
    } else {
      var more := PutElements(es.rest.value, t);
      var after := es.after + ("," + more);
      BlankEndsNumber(es.after, ',', more);
      ReadsValue(es.before, es.value, after, depth);
      ReadsElements(es.rest.value, t, depth);
      NextElement(PutElements(es, t), Meaning(es.value, after), es.after, more, depth);
    }
  }

  lemma {:induction false} ReadsObject(ms: Members, t: string, depth: nat)
    requires MembersOk(ms, t) && MembersNesting(ms) + 1 + depth <= MAX_DEPTH
    ensures ReadValue("{" + PutMembers(ms, t), depth) == Parsed(Obj(FieldsMeant(ms, t)), t)
    decreases ms, 1
  {
    hide *;
    ReadsMembers(ms, t, depth + 1);
    MembersStart(ms, t);
    OpenObject(PutMembers(ms, t), depth);
  }

  lemma MembersStart(ms: Members, t: string)
    requires MembersOk(ms, t)
    ensures SkipSpace(PutMembers(ms, t)) == "\"" + PutChars(ms.key, PutAfterKey(ms, t))
  {
    SkipBlank(ms.before, "\"" + PutChars(ms.key, PutAfterKey(ms, t)));
  }

  lemma {:induction false} ReadsMembers(ms: Members, t: string, depth: nat)
    requires MembersOk(ms, t) && MembersNesting(ms) + depth <= MAX_DEPTH
    ensures ReadFields(SkipSpace(PutMembers(ms, t)), depth) == Parsed(FieldsMeant(ms, t), t)
    decreases ms, 0
  {
    hide ReadValue;
    hide ReadFields;
    hide Put;
    MembersStart(ms, t);
    var s := SkipSpace(PutMembers(ms, t));
    var key := CharsValue(ms.key, PutAfterKey(ms, t));
    if ms.rest.None? {
      var after := ms.after + ("}" + t);
      var b := ms.front + Put(ms.value, after);
      BlankEndsNumber(ms.after, '}', t);
      ReadsValue(ms.front, ms.value, after, depth);
      ReadsKey(ms.key, ms.middle, b);
      LastMember(s, key, b, Meaning(ms.value, after), ms.after, t, depth);
    } else {
      var more := PutMembers(ms.rest.value, t);
      var after := ms.after + ("," + more);
      var b := ms.front + Put(ms.value, after);
      BlankEndsNumber(ms.after, ',', more);
      ReadsValue(ms.front, ms.value, after, depth);
      ReadsMembers(ms.rest.value, t, depth);
      ReadsKey(ms.key, ms.middle, b);
      NextMember(s, key, b, Meaning(ms.value, after), ms.after, more, depth);
    }
  }

  // ------------------------------------------------------------ what is read is written

  /** What is read as a value is written as one, after white space. */
  lemma {:induction false} ValueRead(s: string, depth: nat) returns (sp: string, v: Value)
    requires depth <= MAX_DEPTH && ReadValue(s, depth).Parsed?
    ensures var r := ReadValue(s, depth);
            && Blank(sp) && s == sp + Put(v, r.rest) && ValueOk(v, r.rest)
            && Meaning(v, r.rest) == r.value && Nesting(v) + depth <= MAX_DEPTH
    decreases |s|, 2
  {
    sp := SkippedIsBlank(s);
    var u := SkipSpace(s);
    ReadValueSkips(sp, u, depth);
    NotEmptyRead(u, depth);
    hide *;
    if u[0] == '[' {
      v := ArrayRead(u, depth);
    } else if u[0] == '{' {
      v := ObjectRead(u, depth);
    } else {
      v := AtomRead(u, depth);
    }
  }

  lemma NotEmptyRead(u: string, depth: nat)
    requires ReadValue(u, depth).Parsed?
    ensures u != ""
  {
  }

  lemma AtomRead(u: string, depth: nat) returns (v: Value)
    requires u != "" && Solid(u) && ReadValue(u, depth).Parsed? && u[0] != '[' && u[0] != '{'
    ensures var r := ReadValue(u, depth);
            u == Put(v, r.rest) && ValueOk(v, r.rest) && Meaning(v, r.rest) == r.value && Nesting(v) == 0
  {
    assert SkipSpace(u) == u;
    if u[0] == '"' {
      v := LiteralRead(u, depth);
    } else if u[0] == 't' || u[0] == 'f' || u[0] == 'n' {
      v := WordRead(u, depth);
    } else {
      v := NumeralRead(u, depth);
    }
  }

  lemma LiteralRead(u: string, depth: nat) returns (v: Value)
    requires u != "" && u[0] == '"' && ReadValue(u, depth).Parsed?
    ensures var r := ReadValue(u, depth);
            u == Put(v, r.rest) && ValueOk(v, r.rest) && Meaning(v, r.rest) == r.value && Nesting(v) == 0
  {
    hide ReadString;
    hide PutChars;
    hide CharsOk;
    hide CharsValue;
    var cs := CharsRead(u[1..]);
    assert u == "\"" + u[1..];
    v := Chars(cs);
  }

  lemma WordRead(u: string, depth: nat) returns (v: Value)
    requires u != "" && (u[0] == 't' || u[0] == 'f' || u[0] == 'n') && ReadValue(u, depth).Parsed?
    ensures var r := ReadValue(u, depth);
            u == Put(v, r.rest) && ValueOk(v, r.rest) && Meaning(v, r.rest) == r.value && Nesting(v) == 0
  {
    v := if u[0] == 'n' then Nothing else Truth(u[0] == 't');
    var word := if u[0] == 'n' then "null" else if u[0] == 't' then "true" else "false";
    assert word <= u && u == word + u[|word|..];
  }

  lemma NumeralRead(u: string, depth: nat) returns (v: Value)
    requires u != "" && SkipSpace(u) == u && ReadValue(u, depth).Parsed? && u[0] !in "[{\"tfn"
    ensures var r := ReadValue(u, depth);
            u == Put(v, r.rest) && ValueOk(v, r.rest) && Meaning(v, r.rest) == r.value && Nesting(v) == 0
  {
    hide NumberLen;
    hide NumberText;
    hide NumberOk;
    var n := NumberRead(u);
    assert u == u[..NumberLen(u)] + u[NumberLen(u)..];
    v := Numeral(n);
  }

  lemma {:induction false} ArrayRead(u: string, depth: nat) returns (v: Value)
    requires u != "" && u[0] == '[' && ReadValue(u, depth).Parsed?
    ensures var r := ReadValue(u, depth);
            && u == Put(v, r.rest) && ValueOk(v, r.rest)
            && Meaning(v, r.rest) == r.value && Nesting(v) + depth <= MAX_DEPTH
    decreases |u|, 1
  {
    hide *;
    var body := u[1..];
    assert u == "[" + body;
    ArrayCases(body, depth);
    if EmptyFollows(body, ']') {
      v := EmptyRead(body, ']');
    } else {
      ReadItemsSkips(body, depth + 1);
      var es := ItemsRead(body, depth + 1);
      v := Array(es);
      ArrayIs(es, ReadItems(body, depth + 1).rest);
    }
  }

  predicate EmptyFollows(body: string, c: char) { var w := SkipSpace(body); w != "" && w[0] == c }

  lemma ArrayCases(body: string, depth: nat)
    requires ReadValue("[" + body, depth).Parsed?
    ensures depth < MAX_DEPTH
    ensures EmptyFollows(body, ']') ==>
              var rest := SkipSpace(body)[1..];
              SkipSpace(body) == "]" + rest && ReadValue("[" + body, depth) == Parsed(Arr(NoItems), rest)
    ensures !EmptyFollows(body, ']') ==>
              var r := ReadItems(SkipSpace(body), depth + 1);
              r.Parsed? && ReadValue("[" + body, depth) == Parsed(Arr(r.value), r.rest)
  {
    assert ("[" + body)[1..] == body;
    hide ReadItems;
    var w := SkipSpace(body);
    assert w != "" ==> w == [w[0]] + w[1..];
  }

  lemma ObjectCases(body: string, depth: nat)
    requires ReadValue("{" + body, depth).Parsed?
    ensures depth < MAX_DEPTH
    ensures EmptyFollows(body, '}') ==>
              var rest := SkipSpace(body)[1..];
              SkipSpace(body) == "}" + rest && ReadValue("{" + body, depth) == Parsed(Obj(NoFields), rest)
    ensures !EmptyFollows(body, '}') ==>
              var r := ReadFields(SkipSpace(body), depth + 1);
              r.Parsed? && ReadValue("{" + body, depth) == Parsed(Obj(r.value), r.rest)
  {
    assert ("{" + body)[1..] == body;
    hide ReadFields;
    var w := SkipSpace(body);
    assert w != "" ==> w == [w[0]] + w[1..];
  }

  lemma {:induction false} ObjectRead(u: string, depth: nat) returns (v: Value)
    requires u != "" && u[0] == '{' && ReadValue(u, depth).Parsed?
    ensures var r := ReadValue(u, depth);
            && u == Put(v, r.rest) && ValueOk(v, r.rest)
            && Meaning(v, r.rest) == r.value && Nesting(v) + depth <= MAX_DEPTH
    decreases |u|, 1
  {
    hide *;
    var body := u[1..];
    assert u == "{" + body;
    ObjectCases(body, depth);
    if EmptyFollows(body, '}') {
      v := EmptyRead(body, '}');
    } else {
      var ms := MembersRead(body, depth + 1);
      v := Object(ms);
      ObjectIs(ms, ReadFields(SkipSpace(body), depth + 1).rest);
    }
  }

  lemma ObjectIs(ms: Members, t: string)
    requires MembersOk(ms, t)
    ensures Put(Object(ms), t) == "{" + PutMembers(ms, t) && ValueOk(Object(ms), t)
    ensures Meaning(Object(ms), t) == Obj(FieldsMeant(ms, t)) && Nesting(Object(ms)) == 1 + MembersNesting(ms)
  {
  }

  lemma ArrayIs(es: Elements, t: string)
    requires ElementsOk(es, t)
    ensures Put(Array(es), t) == "[" + PutElements(es, t) && ValueOk(Array(es), t)
    ensures Meaning(Array(es), t) == Arr(ItemsMeant(es, t)) && Nesting(Array(es)) == 1 + ElementsNesting(es)
  {
  }

  lemma EmptyRead(body: string, c: char) returns (v: Value)
    requires (c == ']' || c == '}') && EmptyFollows(body, c)
    ensures var t := SkipSpace(body)[1..];
            && Put(v, t) == (if c == ']' then "[" else "{") + body && ValueOk(v, t)
            && Meaning(v, t) == (if c == ']' then Arr(NoItems) else Obj(NoFields)) && Nesting(v) == 1
  {
    var sp := SkippedIsBlank(body);
    assert SkipSpace(body) == [c] + SkipSpace(body)[1..];
    v := if c == ']' then EmptyArray(sp) else EmptyObject(sp);
    EmptyIs(sp, SkipSpace(body)[1..]);
    hide *;
  }

  lemma EmptyIs(sp: string, t: string)
    requires Blank(sp)
    ensures Put(EmptyArray(sp), t) == "[" + (sp + ("]" + t)) && ValueOk(EmptyArray(sp), t)
    ensures Put(EmptyObject(sp), t) == "{" + (sp + ("}" + t)) && ValueOk(EmptyObject(sp), t)
    ensures Meaning(EmptyArray(sp), t) == Arr(NoItems) && Nesting(EmptyArray(sp)) == 1
    ensures Meaning(EmptyObject(sp), t) == Obj(NoFields) && Nesting(EmptyObject(sp)) == 1
  {
  }

  lemma ItemsCases(s: string, depth: nat)
    requires ReadItems(s, depth).Parsed?
    ensures ReadValue(s, depth).Parsed?
    ensures var d := SkipSpace(ReadValue(s, depth).rest);
            && d != "" && (d[0] == ']' || d[0] == ',')
            && d == [d[0]] + d[1..]
            && (d[0] == ']' ==> ReadItems(s, depth) == Parsed(Item(ReadValue(s, depth).value, NoItems), d[1..]))
            && (d[0] == ',' ==>
                  var r := ReadItems(d[1..], depth);
                  r.Parsed? && ReadItems(s, depth) == Parsed(Item(ReadValue(s, depth).value, r.value), r.rest))
  {
    hide ReadValue;
    hide SkipSpace;
  }

  lemma {:induction false} ItemsRead(s: string, depth: nat) returns (es: Elements)
    requires depth <= MAX_DEPTH && ReadItems(s, depth).Parsed?
    ensures var r := ReadItems(s, depth);
            && s == PutElements(es, r.rest) && ElementsOk(es, r.rest)
            && ItemsMeant(es, r.rest) == r.value && ElementsNesting(es) + depth <= MAX_DEPTH
    decreases |s|, 3
  {
    ItemsCases(s, depth);
    var c := ReadValue(s, depth).rest;
    var d := SkipSpace(c);
    hide ReadValue;
    hide ReadItems;
    hide SkipSpace;
    var sp, v := ValueRead(s, depth);
    var after := SkippedIsBlank(c);
    hide Put;
    hide ValueOk;
    hide Meaning;
    hide Blank;
    if d[0] == ']' {
      es := Element(sp, v, after, None);
    } else {
      var more := ItemsRead(d[1..], depth);
      es := Element(sp, v, after, Some(more));
    }
  }

  lemma FieldsCases(s: string, depth: nat)
    requires ReadFields(s, depth).Parsed?
    ensures ReadKey(s).Parsed? && ReadValue(ReadKey(s).rest, depth).Parsed?
    ensures var k, w := ReadKey(s), ReadValue(ReadKey(s).rest, depth);
            var d := SkipSpace(w.rest);
            && d != "" && (d[0] == '}' || d[0] == ',')
            && d == [d[0]] + d[1..]
            && (d[0] == '}' ==> ReadFields(s, depth) == Parsed(Field(k.value, w.value, NoFields), d[1..]))
            && (d[0] == ',' ==>
                  var r := ReadFields(SkipSpace(d[1..]), depth);
                  r.Parsed? && ReadFields(s, depth) == Parsed(Field(k.value, w.value, r.value), r.rest))
  {
    hide ReadValue;
    hide ReadKey;
    hide SkipSpace;
  }

  lemma KeyRead(s: string) returns (key: seq<Char>, middle: string)
    requires ReadKey(s).Parsed?
    ensures var after := "\"" + (middle + (":" + ReadKey(s).rest));
            && s == "\"" + PutChars(key, after) && CharsOk(key, after)
            && CharsValue(key, after) == ReadKey(s).value && Blank(middle)
  {
    hide ReadString;
    hide SkipSpace;
    hide PutChars;
    hide CharsOk;
    hide CharsValue;
    key := CharsRead(s[1..]);
    var a := ReadString(s[1..]).rest;
    middle := SkippedIsBlank(a);
    assert s == "\"" + s[1..];
    assert SkipSpace(a) == ":" + SkipSpace(a)[1..];
  }

  lemma {:induction false} MembersRead(s: string, depth: nat) returns (ms: Members)
    requires depth <= MAX_DEPTH && ReadFields(SkipSpace(s), depth).Parsed?
    ensures var r := ReadFields(SkipSpace(s), depth);
            && s == PutMembers(ms, r.rest) && MembersOk(ms, r.rest)
            && FieldsMeant(ms, r.rest) == r.value && MembersNesting(ms) + depth <= MAX_DEPTH
    decreases |s|, 3
  {
    var before := SkippedIsBlank(s);
    var u := SkipSpace(s);
    FieldsCases(u, depth);
    var key, middle := KeyRead(u);
    var b := ReadKey(u).rest;
    var front, v := ValueRead(b, depth);
    var c := ReadValue(b, depth).rest;
    var after := SkippedIsBlank(c);
    var d := SkipSpace(c);
    hide ReadValue;
    hide ReadFields;
    hide ReadKey;
    hide SkipSpace;
    hide Put;
    hide ValueOk;
    hide Meaning;
    hide Blank;
    hide PutChars;
    hide CharsOk;
    hide CharsValue;
    if d[0] == '}' {
      ms := Member(before, key, middle, front, v, after, None);
    } else {
      var more := MembersRead(d[1..], depth);
      ms := Member(before, key, middle, front, v, after, Some(more));
    }
  }

  // ------------------------------------------------------------------ whole documents

  /** White space, a value, white space. */
  datatype Document = Document(before: string, value: Value, after: string)

  function DocumentText(d: Document): string { d.before + Put(d.value, d.after) }

  predicate DocumentOk(d: Document) {
    Blank(d.before) && ValueOk(d.value, d.after) && Blank(d.after) && Nesting(d.value) <= 10000
  }

  /** Every document of the grammar is read, at its meaning. */
  lemma EveryDocumentIsRead(d: Document)
    requires DocumentOk(d)
    ensures ReadDocument(DocumentText(d)) == Some(Meaning(d.value, d.after))
  {
    SkipBlank(d.after, "");
    assert d.after + "" == d.after;
    assert d.after != "" ==> d.after[0] in " \t\r\n";
    hide Blank;
    ReadsValue(d.before, d.value, d.after, 0);
    hide ReadValue;
    hide SkipSpace;
  }

  /** And nothing else is. */
  lemma OnlyDocumentsAreRead(s: string) returns (d: Document)
    requires ReadDocument(s).Some?
    ensures DocumentOk(d) && s == DocumentText(d) && ReadDocument(s) == Some(Meaning(d.value, d.after))
  {
    var before, v := ValueRead(s, 0);
    var rest := ReadValue(s, 0).rest;
    var after := SkippedIsBlank(rest);
    hide ReadValue;
    assert rest == after + "" == after;
    d := Document(before, v, after);
  }
}
