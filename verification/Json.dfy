/**
  JSON text: the printer `json.Marshal` applies to the flat frames, and a complete
  reader for RFC 8259 documents as `json.Unmarshal` applies it to received lines.
 */
module Json {
  import opened Text
  import opened Utf8

  datatype Json =
    | Null
    | Bool(b: bool)
    | Num(text: string)
    | Str(s: string)
    | Arr(items: Items)
    | Obj(fields: Fields)
  datatype Items = NoItems | Item(value: Json, rest: Items)
  datatype Fields = NoFields | Field(key: string, value: Json, rest: Fields)

  datatype Parse<+T> = Fail | Parsed(value: T, rest: string)

  /** encoding/json refuses documents nested deeper than this. */
  const MAX_DEPTH: nat := 10000

  lemma Regroup(a: string, b: string, c: string, d: string)
    ensures a + b + c + d == a + (b + c + d) == a + (b + (c + d))
  {
    assert a + b + c == a + (b + c);
    assert b + c + d == b + (c + d);
  }

  // ------------------------------------------------------------------ strings

  /** How encoding/json writes one rune inside a string (HTML escaping on). */
  function StringRune(r: Rune): (s: string)
    ensures s != "" && s[0] != '"'
  {
    if r == '"' as int then "\\\""
    else if r == '\\' as int then "\\\\"
    else if r == 8 then "\\b"
    else if r == 12 then "\\f"
    else if r == 10 then "\\n"
    else if r == 13 then "\\r"
    else if r == 9 then "\\t"
    else if r < 0x20 || r == '<' as int || r == '>' as int || r == '&' as int
            || r == 0x2028 || r == 0x2029 then
      UnicodeEscape(r)
    else EncodeRune(r)
  }

  function UnicodeEscape(r: Rune): (s: string)
    ensures |s| == 6 && s[0] == '\\' && s[1] == 'u' && s[2..] == Hex(r, 4)
  {
    "\\u" + Hex(r, 4)
  }

  /** The text of the first decoding step of `s`; a malformed byte is written as U+FFFD. */
  function StringPiece(s: string): (p: string)
    requires s != ""
    ensures p != "" && p[0] != '"'
  {
    if Width(s) == 0 then UnicodeEscape(REPLACEMENT) else StringRune(FirstRune(s))
  }

  function StringBody(s: string): string
    decreases |s|
  {
    if s == "" then "" else StringPiece(s) + StringBody(s[Step(s)..])
  }

  /** One character of a string literal: its rune and the bytes it takes. */
  function ReadChar(s: string): (c: Option<(Rune, nat)>)
    requires s != ""
    ensures c.Some? ==> 1 <= c.value.1 <= |s|
  {
    if s[0] as int < 0x20 then None
    else if s[0] != '\\' then Some((FirstRune(s), Step(s)))
    else if |s| < 2 then None
    else
      match s[1]
      case '"' => Some(('"' as int, 2))
      case '\\' => Some(('\\' as int, 2))
      case '/' => Some(('/' as int, 2))
      case 'b' => Some((8, 2))
      case 'f' => Some((12, 2))
      case 'n' => Some((10, 2))
      case 'r' => Some((13, 2))
      case 't' => Some((9, 2))
      case 'u' => ReadUnicodeEscape(s)
      case _ => None
  }

  /** The UTF-16 unit written as a backslash, `u` and four hex digits at the start of `s`. */
  function EscapedUnit(s: string): (u: Option<nat>)
    ensures u.Some? ==> u.value < 0x10000 && |s| >= 6
  {
    if |s| >= 6 && s[0] == '\\' && s[1] == 'u' then
      HexRoundTrips();
      HexValue(s[2..6])
    else None
  }

  /** A surrogate pair is combined; a lone surrogate becomes U+FFFD. */
  function ReadUnicodeEscape(s: string): (c: Option<(Rune, nat)>)
    requires s != ""
    ensures c.Some? ==> 1 <= c.value.1 <= |s|
  {
    var hi := EscapedUnit(s);
    if hi.None? then None
    else if hi.value < 0xD800 || hi.value >= 0xE000 then Some((hi.value, 6))
    else
      var lo := EscapedUnit(s[6..]);
      if hi.value < 0xDC00 && lo.Some? && 0xDC00 <= lo.value < 0xE000 then
        Some((0x10000 + (hi.value - 0xD800) * 0x400 + (lo.value - 0xDC00), 12))
      else Some((REPLACEMENT, 6))
  }

  /** Reads a string literal whose opening quote has been consumed. */
  function ReadString(s: string): (p: Parse<string>)
    ensures p.Parsed? ==> |p.rest| < |s|
    decreases |s|
  {
    if s == "" then Fail
    else if s[0] == '"' then Parsed("", s[1..])
    else
      match ReadChar(s)
      case None => Fail
      case Some((r, n)) =>
        match ReadString(s[n..])
        case Fail => Fail
        case Parsed(v, rest) => Parsed(EncodeRune(r) + v, rest)
  }

  lemma ReadUnicodeEscapeInverts(r: Rune, t: string)
    requires r < 0x10000
    ensures ReadUnicodeEscape(UnicodeEscape(r) + t) == Some((r, 6))
  {
    var s := UnicodeEscape(r) + t;
    assert s[2..6] == UnicodeEscape(r)[2..] == Hex(r, 4);
    HexRoundTrips();
    HexRoundTrip(r, 4);
  }

  /** The runes with a two-letter escape. */
  predicate Lettered(r: Rune) {
    r == '"' as int || r == '\\' as int || (8 <= r <= 13 && r != 11)
  }

  lemma ReadCharInvertsLetter(r: Rune, t: string)
    requires Lettered(r)
    ensures ReadChar(StringRune(r) + t) == Some((r, |StringRune(r)|))
  {
  }

  lemma ReadCharInvertsEscape(r: Rune, t: string)
    requires r < 0x10000
    ensures ReadChar(UnicodeEscape(r) + t) == Some((r, 6))
  {
    hide ReadUnicodeEscape;
    ReadUnicodeEscapeInverts(r, t);
  }

  lemma ReadCharInvertsPlain(r: Rune, t: string)
    requires 0x20 <= r && r != '\\' as int
    ensures ReadChar(EncodeRune(r) + t) == Some((r, |EncodeRune(r)|))
  {
    hide Width;
    hide FirstRune;
    DecodeInvertsEncode(r, t);
    assert (EncodeRune(r) + t)[0] == EncodeRune(r)[0];
  }

  lemma ReadCharInvertsRune(r: Rune, t: string)
    ensures ReadChar(StringRune(r) + t) == Some((r, |StringRune(r)|))
  {
    hide ReadChar;
    hide EncodeRune;
    if Lettered(r) {
      ReadCharInvertsLetter(r, t);
    } else if StringRune(r) == EncodeRune(r) && 0x20 <= r {
      ReadCharInvertsPlain(r, t);
    } else {
      ReadCharInvertsEscape(r, t);
    }
  }

  lemma ReadCharInvertsPiece(s: string, t: string)
    requires s != ""
    ensures ReadChar(StringPiece(s) + t) == Some((FirstRune(s), |StringPiece(s)|))
  {
    hide ReadChar;
    hide StringRune;
    if Width(s) == 0 {
      ReadCharInvertsEscape(REPLACEMENT, t);
    } else {
      ReadCharInvertsRune(FirstRune(s), t);
    }
  }

  lemma ReadStringStep(s: string, r: Rune, n: nat, after: string)
    requires s != "" && s[0] != '"' && ReadChar(s) == Some((r, n)) && s[n..] == after
    requires ReadString(after).Parsed?
    ensures ReadString(s) == Parsed(EncodeRune(r) + ReadString(after).value, ReadString(after).rest)
  {
    hide ReadChar;
    hide EncodeRune;
  }

  lemma {:induction false} ReadStringInvertsBody(s: string, t: string)
    ensures ReadString(StringBody(s) + "\"" + t) == Parsed(Repair(s), t)
    decreases |s|
  {
    var rest := StringBody(s) + "\"" + t;
    if s == "" {
      assert rest[1..] == t;
    } else {
      hide ReadString;
      hide ReadChar;
      hide StringPiece;
      hide Repair;
      hide FirstRune;
      hide EncodeRune;
      hide Width;
      var piece, tail := StringPiece(s), s[Step(s)..];
      var after := StringBody(tail) + "\"" + t;
      Regroup(piece, StringBody(tail), "\"", t);
      ReadCharInvertsPiece(s, after);
      assert rest[|piece|..] == after && rest[0] == piece[0];
      ReadStringInvertsBody(tail, t);
      RepairOfStep(s);
      ReadStringStep(rest, FirstRune(s), |piece|, after);
    }
  }

  // ------------------------------------------------------------------ numbers

  /** How many digits `s` starts with. */
  function LeadingDigits(s: string): (n: nat)
    ensures n <= |s|
  {
    if s == "" || !IsDigit(s[0]) then 0 else 1 + LeadingDigits(s[1..])
  }

  /** Length of the integer part starting at `a`, or 0. */
  function IntLen(s: string, a: nat): (n: nat)
    requires a <= |s|
    ensures a + n <= |s|
  {
    if a == |s| || !IsDigit(s[a]) then 0
    else if s[a] == '0' then 1
    else LeadingDigits(s[a..])
  }

  /** End of the optional fraction starting at `a`; None when it is malformed. */
  function FractionEnd(s: string, a: nat): (e: Option<nat>)
    requires a <= |s|
    ensures e.Some? ==> a <= e.value <= |s|
  {
    if a == |s| || s[a] != '.' then Some(a)
    else
      var n := LeadingDigits(s[a + 1..]);
      if n == 0 then None else Some(a + 1 + n)
  }

  /** End of the optional exponent starting at `a`; None when it is malformed. */
  function ExponentEnd(s: string, a: nat): (e: Option<nat>)
    requires a <= |s|
    ensures e.Some? ==> a <= e.value <= |s|
  {
    if a == |s| || (s[a] != 'e' && s[a] != 'E') then Some(a)
    else
      var b := if a + 1 < |s| && (s[a + 1] == '+' || s[a + 1] == '-') then a + 2 else a + 1;
      var n := LeadingDigits(s[b..]);
      if n == 0 then None else Some(b + n)
  }

  /** Length of the number `s` starts with (section 6 of RFC 8259), or 0. */
  function NumberLen(s: string): (n: nat)
    ensures n <= |s|
  {
    var a := if s != "" && s[0] == '-' then 1 else 0;
    var n := IntLen(s, a);
    if n == 0 then 0
    else
      match FractionEnd(s, a + n)
      case None => 0
      case Some(b) =>
        match ExponentEnd(s, b)
        case None => 0
        case Some(c) => c
  }

  // ------------------------------------------------------------------- values

  function SkipSpace(s: string): (t: string)
    ensures |t| <= |s|
  {
    if s != "" && (s[0] == ' ' || s[0] == '\t' || s[0] == '\r' || s[0] == '\n')
    then SkipSpace(s[1..]) else s
  }

  function ReadLiteral(word: string, v: Json, s: string): (p: Parse<Json>)
    requires word != ""
    ensures p.Parsed? ==> |p.rest| < |s|
  {
    if word <= s then Parsed(v, s[|word|..]) else Fail
  }

  /** Reads one value, inside `depth` open objects and arrays. */
  function ReadValue(s: string, depth: nat): (p: Parse<Json>)
    ensures p.Parsed? ==> |p.rest| < |s|
    decreases |s|, 0
  {
    var t := SkipSpace(s);
    if t == "" then Fail
    else if t[0] == '{' then ReadObject(t[1..], depth)
    else if t[0] == '[' then ReadArray(t[1..], depth)
    else if t[0] == '"' then
      match ReadString(t[1..])
      case Fail => Fail
      case Parsed(v, rest) => Parsed(Str(v), rest)
    else if t[0] == 't' then ReadLiteral("true", Bool(true), t)
    else if t[0] == 'f' then ReadLiteral("false", Bool(false), t)
    else if t[0] == 'n' then ReadLiteral("null", Null, t)
    else
      var n := NumberLen(t);
      if n == 0 then Fail else Parsed(Num(t[..n]), t[n..])
  }

  /** Reads the rest of an object whose opening brace has been consumed. */
  function ReadObject(s: string, depth: nat): (p: Parse<Json>)
    ensures p.Parsed? ==> |p.rest| < |s|
    decreases |s|, 2
  {
    var u := SkipSpace(s);
    if depth >= MAX_DEPTH then Fail
    else if u != "" && u[0] == '}' then Parsed(Obj(NoFields), u[1..])
    else
      match ReadFields(u, depth + 1)
      case Fail => Fail
      case Parsed(fs, rest) => Parsed(Obj(fs), rest)
  }

  /** Reads the rest of an array whose opening bracket has been consumed. */
  function ReadArray(s: string, depth: nat): (p: Parse<Json>)
    ensures p.Parsed? ==> |p.rest| < |s|
    decreases |s|, 2
  {
    var u := SkipSpace(s);
    if depth >= MAX_DEPTH then Fail
    else if u != "" && u[0] == ']' then Parsed(Arr(NoItems), u[1..])
    else
      match ReadItems(u, depth + 1)
      case Fail => Fail
      case Parsed(vs, rest) => Parsed(Arr(vs), rest)
  }

  /** Reads `"key" :`. */
  function ReadKey(s: string): (p: Parse<string>)
    ensures p.Parsed? ==> |p.rest| < |s|
  {
    if s == "" || s[0] != '"' then Fail
    else
      match ReadString(s[1..])
      case Fail => Fail
      case Parsed(k, a) =>
        var b := SkipSpace(a);
        if b == "" || b[0] != ':' then Fail else Parsed(k, b[1..])
  }

  /** Reads `"key": value` pairs up to and including the closing brace. */
  function ReadFields(s: string, depth: nat): (p: Parse<Fields>)
    ensures p.Parsed? ==> |p.rest| < |s|
    decreases |s|, 1
  {
    match ReadKey(s)
    case Fail => Fail
    case Parsed(k, b) =>
      match ReadValue(b, depth)
      case Fail => Fail
      case Parsed(v, c) =>
        var d := SkipSpace(c);
        if d == "" then Fail
        else if d[0] == '}' then Parsed(Field(k, v, NoFields), d[1..])
        else if d[0] != ',' then Fail
        else
          match ReadFields(SkipSpace(d[1..]), depth)
          case Fail => Fail
          case Parsed(fs, rest) => Parsed(Field(k, v, fs), rest)
  }

  /** Reads values up to and including the closing bracket. */
  function ReadItems(s: string, depth: nat): (p: Parse<Items>)
    ensures p.Parsed? ==> |p.rest| < |s|
    decreases |s|, 1
  {
    match ReadValue(s, depth)
    case Fail => Fail
    case Parsed(v, c) =>
      var d := SkipSpace(c);
      if d == "" then Fail
      else if d[0] == ']' then Parsed(Item(v, NoItems), d[1..])
      else if d[0] != ',' then Fail
      else
        match ReadItems(d[1..], depth)
        case Fail => Fail
        case Parsed(vs, rest) => Parsed(Item(v, vs), rest)
  }

  /** A whole document: one value and nothing after it but space. */
  function ReadDocument(s: string): Option<Json> {
    match ReadValue(s, 0)
    case Fail => None
    case Parsed(v, rest) => if SkipSpace(rest) == "" then Some(v) else None
  }

  // ------------------------------------------------------------------ printer

  /** What the frames are built from: strings, non-negative integers and objects of them. */
  predicate Plain(j: Json) {
    match j
    case Str(_) => true
    case Num(t) => t != "" && AllDigits(t) && (t[0] == '0' ==> |t| == 1)
    case Obj(fs) => PlainFields(fs)
    case _ => false
  }

  predicate PlainFields(fs: Fields) {
    fs.Field? ==> Plain(fs.value) && PlainFields(fs.rest)
  }

  function Quoted(s: string): string { "\"" + StringBody(s) + "\"" }

  function Print(j: Json): (p: string)
    requires Plain(j)
    ensures p != ""
  {
    match j
    case Str(s) => Quoted(s)
    case Num(t) => t
    case Obj(fs) => "{" + PrintFields(fs) + "}"
  }

  function PrintFields(fs: Fields): string
    requires PlainFields(fs)
  {
    match fs
    case NoFields => ""
    case Field(k, v, NoFields) => Quoted(k) + ":" + Print(v)
    case Field(k, v, rest) => Quoted(k) + ":" + Print(v) + "," + PrintFields(rest)
  }

  function Depth(j: Json): nat {
    match j
    case Obj(fs) => 1 + FieldsDepth(fs)
    case _ => 0
  }

  function FieldsDepth(fs: Fields): nat {
    match fs
    case NoFields => 0
    case Field(_, v, rest) => if Depth(v) > FieldsDepth(rest) then Depth(v) else FieldsDepth(rest)
  }

  /** `j` with every string and key repaired: what a reader can get back. */
  function Repaired(j: Json): Json {
    match j
    case Str(s) => Str(Repair(s))
    case Obj(fs) => Obj(RepairedFields(fs))
    case _ => j
  }

  function RepairedFields(fs: Fields): Fields {
    match fs
    case NoFields => NoFields
    case Field(k, v, rest) => Field(Repair(k), Repaired(v), RepairedFields(rest))
  }

  // --------------------------------------------------------------- round trip

  /** Text that cannot continue a number. */
  predicate EndsNumber(t: string) {
    t == "" || (!IsDigit(t[0]) && t[0] != '.' && t[0] != 'e' && t[0] != 'E')
  }

  lemma {:induction false} LeadingDigitsExact(d: string, t: string)
    requires AllDigits(d) && (t == "" || !IsDigit(t[0]))
    ensures LeadingDigits(d + t) == |d|
  {
    if d == "" {
      assert d + t == t;
    } else {
      assert (d + t)[1..] == d[1..] + t;
      LeadingDigitsExact(d[1..], t);
    }
  }

  lemma NumberLenExact(d: string, t: string)
    requires Plain(Num(d)) && EndsNumber(t)
    ensures NumberLen(d + t) == |d|
  {
    LeadingDigitsExact(d, t);
    var s := d + t;
    assert s[0] == d[0] && s[0..] == s;
    assert t != "" ==> s[|d|] == t[0];
  }

  lemma ReadQuoted(s: string, t: string)
    ensures (Quoted(s) + t)[0] == '"'
    ensures ReadString((Quoted(s) + t)[1..]) == Parsed(Repair(s), t)
  {
    assert (Quoted(s) + t)[1..] == StringBody(s) + "\"" + t;
    ReadStringInvertsBody(s, t);
  }

  lemma ReadValueAtString(s: string, depth: nat, t: string)
    ensures ReadValue(Quoted(s) + t, depth) == Parsed(Str(Repair(s)), t)
  {
    ReadQuoted(s, t);
  }

  lemma ReadValueAtNumber(d: string, depth: nat, t: string)
    requires Plain(Num(d)) && EndsNumber(t)
    ensures ReadValue(d + t, depth) == Parsed(Num(d), t)
  {
    NumberLenExact(d, t);
    assert (d + t)[0] == d[0];
    assert (d + t)[..|d|] == d && (d + t)[|d|..] == t;
  }

  lemma ReadValueAtObject(body: string, depth: nat)
    requires depth < MAX_DEPTH && body != "" && body[0] == '"'
    requires ReadFields(body, depth + 1).Parsed?
    ensures ReadValue("{" + body, depth)
         == Parsed(Obj(ReadFields(body, depth + 1).value), ReadFields(body, depth + 1).rest)
  {
    assert ("{" + body)[1..] == body;
  }

  lemma ReadKeyAtQuoted(k: string, t: string)
    ensures ReadKey(Quoted(k) + ":" + t) == Parsed(Repair(k), t)
  {
    hide ReadString;
    hide Quoted;
    hide Repair;
    var a := ":" + t;
    ConcatAssoc(Quoted(k), ":", t);
    ReadQuoted(k, a);
    assert SkipSpace(a) == a && a[1..] == t;
  }

  lemma ReadLastField(s: string, k: string, b: string, v: Json, t: string, depth: nat)
    requires ReadKey(s) == Parsed(k, b)
    requires ReadValue(b, depth) == Parsed(v, "}" + t)
    ensures ReadFields(s, depth) == Parsed(Field(k, v, NoFields), t)
  {
    var d := "}" + t;
    assert SkipSpace(d) == d && d[1..] == t;
  }

  lemma ReadNextField(s: string, k: string, b: string, v: Json, more: string, fs: Fields, t: string, depth: nat)
    requires ReadKey(s) == Parsed(k, b)
    requires ReadValue(b, depth) == Parsed(v, "," + more)
    requires SkipSpace(more) == more && ReadFields(more, depth) == Parsed(fs, t)
    ensures ReadFields(s, depth) == Parsed(Field(k, v, fs), t)
  {
    var d := "," + more;
    assert SkipSpace(d) == d && d[1..] == more;
  }

  lemma ReadEmptyObject(depth: nat, t: string)
    requires depth < MAX_DEPTH
    ensures ReadValue(Print(Obj(NoFields)) + t, depth) == Parsed(Obj(NoFields), t)
  {
    var s := "{}" + t;
    assert Print(Obj(NoFields)) == "{}";
    assert s[1..] == "}" + t && s[1..][1..] == t;
    assert SkipSpace(s[1..]) == s[1..];
  }

  lemma SplitLastField(fs: Fields, t: string)
    requires fs.Field? && PlainFields(fs) && fs.rest.NoFields?
    ensures PrintFields(fs) + "}" + t == Quoted(fs.key) + ":" + (Print(fs.value) + ("}" + t))
  {
  }

  lemma SplitNextField(fs: Fields, t: string)
    requires fs.Field? && PlainFields(fs) && fs.rest.Field?
    ensures PrintFields(fs) + "}" + t
         == Quoted(fs.key) + ":" + (Print(fs.value) + ("," + (PrintFields(fs.rest) + "}" + t)))
  {
    var q, p, r := Quoted(fs.key) + ":", Print(fs.value), PrintFields(fs.rest);
    Regroup(q, p, ",", r);
    Regroup(q, p + ("," + r), "}", t);
    Regroup(p, ",", r, "}" + t);
    Regroup(p, "," + r, "}", t);
    Regroup(",", r, "}", t);
  }

  lemma ReadPrintedObject(fs: Fields, depth: nat, t: string)
    requires fs.Field? && PlainFields(fs) && depth < MAX_DEPTH
    requires (PrintFields(fs) + "}" + t)[0] == '"'
    requires ReadFields(PrintFields(fs) + "}" + t, depth + 1) == Parsed(RepairedFields(fs), t)
    ensures ReadValue(Print(Obj(fs)) + t, depth) == Parsed(Obj(RepairedFields(fs)), t)
  {
    Regroup("{", PrintFields(fs), "}", t);
    ReadValueAtObject(PrintFields(fs) + "}" + t, depth);
  }

  lemma ReadPrintedLast(fs: Fields, depth: nat, t: string)
    requires fs.Field? && fs.rest.NoFields? && PlainFields(fs)
    requires ReadValue(Print(fs.value) + ("}" + t), depth) == Parsed(Repaired(fs.value), "}" + t)
    ensures (PrintFields(fs) + "}" + t)[0] == '"'
    ensures ReadFields(PrintFields(fs) + "}" + t, depth) == Parsed(RepairedFields(fs), t)
  {
    SplitLastField(fs, t);
    hide ReadValue;
    hide ReadFields;
    hide ReadKey;
    hide Print;
    hide PrintFields;
    hide Repair;
    var b := Print(fs.value) + ("}" + t);
    ReadKeyAtQuoted(fs.key, b);
    ReadLastField(PrintFields(fs) + "}" + t, Repair(fs.key), b, Repaired(fs.value), t, depth);
  }

  lemma ReadPrintedNext(fs: Fields, depth: nat, t: string)
    requires fs.Field? && fs.rest.Field? && PlainFields(fs)
    requires var more := PrintFields(fs.rest) + "}" + t;
             && more[0] == '"'
             && ReadValue(Print(fs.value) + ("," + more), depth) == Parsed(Repaired(fs.value), "," + more)
             && ReadFields(more, depth) == Parsed(RepairedFields(fs.rest), t)
    ensures (PrintFields(fs) + "}" + t)[0] == '"'
    ensures ReadFields(PrintFields(fs) + "}" + t, depth) == Parsed(RepairedFields(fs), t)
  {
    var more := PrintFields(fs.rest) + "}" + t;
    ReadQuotedNext(fs.key, Print(fs.value), Repaired(fs.value), more, RepairedFields(fs.rest), t, depth);
    SplitNextField(fs, t);
    hide *;
  }

  lemma ReadQuotedNext(k: string, p: string, v: Json, more: string, fs: Fields, t: string, depth: nat)
    requires more != "" && more[0] == '"'
    requires ReadValue(p + ("," + more), depth) == Parsed(v, "," + more)
    requires ReadFields(more, depth) == Parsed(fs, t)
    ensures var s := Quoted(k) + ":" + (p + ("," + more));
            s[0] == '"' && ReadFields(s, depth) == Parsed(Field(Repair(k), v, fs), t)
  {
    var b := p + ("," + more);
    ReadKeyAtQuoted(k, b);
    assert SkipSpace(more) == more;
    hide ReadValue;
    hide ReadFields;
    hide ReadKey;
    hide Repair;
    ReadNextField(Quoted(k) + ":" + b, Repair(k), b, v, more, fs, t, depth);
  }

  /** Reading a printed value gives it back, repaired, and stops where it ended. */
  lemma {:induction false} ReadInvertsPrint(j: Json, depth: nat, t: string)
    requires Plain(j) && Depth(j) + depth <= MAX_DEPTH && EndsNumber(t)
    ensures ReadValue(Print(j) + t, depth) == Parsed(Repaired(j), t)
    decreases j, 1
  {
    hide ReadValue;
    hide ReadFields;
    hide PrintFields;
    hide Quoted;
    match j
    case Str(v) =>
      ReadValueAtString(v, depth, t);
    case Num(d) =>
      ReadValueAtNumber(d, depth, t);
    case Obj(fs) =>
      if fs.NoFields? {
        ReadEmptyObject(depth, t);
      } else {
        ReadFieldsInvertsPrint(fs, depth + 1, t);
        ReadPrintedObject(fs, depth, t);
      }
  }

  lemma {:induction false} ReadFieldsInvertsPrint(fs: Fields, depth: nat, t: string)
    requires fs.Field? && PlainFields(fs) && FieldsDepth(fs) + depth <= MAX_DEPTH
    ensures (PrintFields(fs) + "}" + t)[0] == '"'
    ensures ReadFields(PrintFields(fs) + "}" + t, depth) == Parsed(RepairedFields(fs), t)
    decreases fs, 0
  {
    hide ReadValue;
    hide ReadFields;
    if fs.rest.NoFields? {
      ReadInvertsPrint(fs.value, depth, "}" + t);
      ReadPrintedLast(fs, depth, t);
    } else {
      ReadInvertsPrint(fs.value, depth, "," + (PrintFields(fs.rest) + "}" + t));
      ReadFieldsInvertsPrint(fs.rest, depth, t);
      ReadPrintedNext(fs, depth, t);
    }
  }

  lemma ReadDocumentInvertsPrint(j: Json)
    requires Plain(j) && Depth(j) <= MAX_DEPTH
    ensures ReadDocument(Print(j)) == Some(Repaired(j))
  {
    assert Print(j) + "" == Print(j);
    ReadInvertsPrint(j, 0, "");
  }

  // -------------------------------------------------------------- one line each

  /** No byte below 0x20: in particular no newline and no carriage return. */
  predicate NoControls(s: string) { forall i | 0 <= i < |s| :: 0x20 <= s[i] as int }

  lemma NoControlsConcat(a: string, b: string)
    ensures NoControls("")
    ensures NoControls(a) && NoControls(b) ==> NoControls(a + b)
  {
  }

  lemma PieceNoControls(s: string)
    requires s != ""
    ensures NoControls(StringPiece(s))
  {
    hide Width;
    hide FirstRune;
    var r := FirstRune(s);
    EscapeNoControls(r);
    EscapeNoControls(REPLACEMENT);
    hide UnicodeEscape;
    assert r >= 0x20 ==> NoControls(EncodeRune(r));
    hide EncodeRune;
  }

  lemma EscapeNoControls(r: Rune)
    ensures NoControls(UnicodeEscape(r))
  {
    assert NoControls(Hex(r, 4));
  }

  lemma {:induction false} StringBodyNoControls(s: string)
    ensures NoControls(StringBody(s))
    decreases |s|
  {
    hide StringPiece;
    hide NoControls;
    if s == "" {
      NoControlsConcat("", "");
    } else {
      PieceNoControls(s);
      StringBodyNoControls(s[Step(s)..]);
      NoControlsConcat(StringPiece(s), StringBody(s[Step(s)..]));
    }
  }

  lemma {:induction false} PrintNoControls(j: Json)
    requires Plain(j)
    ensures NoControls(Print(j))
  {
    match j
    case Str(s) => StringBodyNoControls(s);
    case Num(t) =>
    case Obj(fs) => PrintFieldsNoControls(fs);
  }

  lemma {:induction false} PrintFieldsNoControls(fs: Fields)
    requires PlainFields(fs)
    ensures NoControls(PrintFields(fs))
  {
    if fs.Field? {
      StringBodyNoControls(fs.key);
      PrintNoControls(fs.value);
      PrintFieldsNoControls(fs.rest);
      var head := Quoted(fs.key) + ":" + Print(fs.value);
      assert NoControls(head);
      assert fs.rest.Field? ==> PrintFields(fs) == head + "," + PrintFields(fs.rest);
    }
  }
}
