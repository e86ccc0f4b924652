/**
  The text of the frames: which bytes are written for which settings.
 */
module WireFormat {
  import opened Text
  import opened Utf8
  import opened Json
  import opened Frames

  // ------------------------------------------------------------------ string literals

  lemma UnicodeEscapeIs(r: Rune, a: nat, b: nat, c: nat, d: nat)
    requires a < 16 && b < 16 && c < 16 && d < 16 && r == ((a * 16 + b) * 16 + c) * 16 + d
    ensures UnicodeEscape(r) == ['\\', 'u', DIGITS[a], DIGITS[b], DIGITS[c], DIGITS[d]]
  {
    HexOfFour(a, b, c, d);
    hide DIGITS;
    hide Hex;
  }

  lemma HtmlEscapes()
    ensures StringRune('<' as int) == UnicodeEscape(0x3c) && StringRune('>' as int) == UnicodeEscape(0x3e)
    ensures StringRune('&' as int) == UnicodeEscape(0x26)
    ensures StringRune(0x2028) == UnicodeEscape(0x2028) && StringRune(0x2029) == UnicodeEscape(0x2029)
  {
    hide UnicodeEscape;
    hide EncodeRune;
    hide Hex;
  }

  lemma DigitsAre()
    ensures DIGITS[0] == '0' && DIGITS[2] == '2' && DIGITS[3] == '3' && DIGITS[6] == '6' && DIGITS[8] == '8'
    ensures DIGITS[9] == '9' && DIGITS[12] == 'c' && DIGITS[14] == 'e'
  {
  }

  /** What JSON strings write in place of the runes with a meaning in HTML or in scripts. */
  lemma HtmlIsEscaped()
    ensures StringRune('<' as int) == "\\u003c" && StringRune('>' as int) == "\\u003e"
    ensures StringRune('&' as int) == "\\u0026"
    ensures StringRune(0x2028) == "\\u2028" && StringRune(0x2029) == "\\u2029"
  {
    hide *;
    HtmlEscapes();
    DigitsAre();
    UnicodeEscapeIs(0x3c, 0, 0, 3, 12);
    UnicodeEscapeIs(0x3e, 0, 0, 3, 14);
    UnicodeEscapeIs(0x26, 0, 0, 2, 6);
    UnicodeEscapeIs(0x2028, 2, 0, 2, 8);
    UnicodeEscapeIs(0x2029, 2, 0, 2, 9);
  }

  /** And in place of the control runes; any other rune is itself. */
  lemma ControlsAreEscaped(r: Rune)
    ensures StringRune('"' as int) == "\\\"" && StringRune('\\' as int) == "\\\\"
    ensures StringRune(8) == "\\b" && StringRune(9) == "\\t" && StringRune(10) == "\\n"
    ensures StringRune(12) == "\\f" && StringRune(13) == "\\r"
    ensures r < 0x20 && !(8 <= r <= 10 || 12 <= r <= 13) ==>
              StringRune(r) == ['\\', 'u', '0', '0', DIGITS[r / 16], DIGITS[r % 16]]
    ensures (&& r >= 0x20 && r != '"' as int && r != '\\' as int && r != '<' as int && r != '>' as int
             && r != '&' as int && r != 0x2028 && r != 0x2029)
            ==> StringRune(r) == EncodeRune(r)
  {
    if r < 0x20 {
      UnicodeEscapeIs(r, 0, 0, r / 16, r % 16);
    }
    hide UnicodeEscape;
    hide EncodeRune;
  }

  /** A string literal is written rune by rune, a malformed byte as an escaped U+FFFD. */
  lemma BodyStep(r: Rune, s: string)
    ensures StringBody(EncodeRune(r) + s) == StringRune(r) + StringBody(s)
    ensures s != "" && Width(s) == 0 ==> StringBody(s) == "\\ufffd" + StringBody(s[1..])
  {
    DecodeInvertsEncode(r, s);
    UnicodeEscapeIs(0xFFFD, 15, 15, 15, 13);
    hide Width;
    hide FirstRune;
    hide EncodeRune;
    hide StringRune;
    hide UnicodeEscape;
    assert (EncodeRune(r) + s)[|EncodeRune(r)|..] == s;
  }

  // -------------------------------------------------------------------------- frames

  /** A character JSON strings carry as it is. */
  predicate PrintedAsIs(c: char) {
    ' ' <= c <= '~' && c != '"' && c != '\\' && c != '<' && c != '>' && c != '&'
  }

  predicate PlainText(s: string) { forall i | 0 <= i < |s| :: PrintedAsIs(s[i]) }

  lemma {:induction false} PlainTextIsPrintedAsIs(s: string)
    requires PlainText(s)
    ensures StringBody(s) == s
  {
    if s != "" {
      assert PrintedAsIs(s[0]);
      PlainPiece(s);
      hide StringPiece;
      hide Width;
      hide PrintedAsIs;
      PlainTextIsPrintedAsIs(s[1..]);
    }
  }

  lemma PlainPiece(s: string)
    requires s != "" && PrintedAsIs(s[0])
    ensures Step(s) == 1 && StringPiece(s) == [s[0]]
  {
  }

  /** What follows a member. */
  function More(fs: Fields): string
    requires PlainFields(fs)
  {
    if fs.NoFields? then "" else "," + PrintFields(fs)
  }

  /** The text of a member that is left out when empty. */
  function Optional(key: string, v: string): string {
    if v == "" then "" else ",\"" + key + "\":" + Quoted(v)
  }

  lemma MemberText(key: string, v: Json, rest: Fields, t: string)
    requires PlainText(key) && PlainFields(Field(key, v, rest))
    ensures PrintFields(Field(key, v, rest)) + t == ("\"" + key + "\":") + (Print(v) + (More(rest) + t))
  {
    KeyText(key);
    FieldText(key, v, rest);
    hide *;
    Regroup(Quoted(key) + ":", Print(v), More(rest), t);
  }

  lemma KeyText(key: string)
    requires PlainText(key)
    ensures Quoted(key) + ":" == "\"" + key + "\":"
  {
    PlainTextIsPrintedAsIs(key);
    hide StringBody;
    hide PlainText;
  }

  lemma FieldText(key: string, v: Json, rest: Fields)
    requires PlainFields(Field(key, v, rest))
    ensures PrintFields(Field(key, v, rest)) == Quoted(key) + ":" + Print(v) + More(rest)
  {
    hide Quoted;
    hide Print;
    var q, p := Quoted(key), Print(v);
    if rest.Field? {
      ConcatAssoc(q + ":" + p, ",", PrintFields(rest));
    }
  }

  lemma OptionalText(key: string, v: string, rest: Fields, t: string)
    requires PlainText(key) && PlainFields(rest)
    ensures PlainFields(OmitEmpty(key, v, rest))
    ensures More(OmitEmpty(key, v, rest)) + t == Optional(key, v) + (More(rest) + t)
  {
    hide PrintFields;
    hide StringBody;
    if v == "" {
      assert "" + (More(rest) + t) == More(rest) + t;
    } else {
      MemberText(key, Str(v), rest, t);
      var k, m := "\"" + key + "\":", More(rest) + t;
      assert Print(Str(v)) == Quoted(v);
      hide Print;
      hide Quoted;
      hide More;
      ConcatAssoc(",", PrintFields(Field(key, Str(v), rest)), t);
      ConcatAssoc(",", k, Quoted(v) + m);
      ConcatAssoc("," + k, Quoted(v), m);
      assert ",\"" + key + "\":" == "," + k;
      MoreIs(Field(key, Str(v), rest));
    }
  }

  lemma MoreIs(fs: Fields)
    requires fs.Field? && PlainFields(fs)
    ensures More(fs) == "," + PrintFields(fs)
  {
  }

  lemma ObjectText(fs: Fields, t: string)
    requires fs.Field? && PlainFields(fs)
    ensures Print(Obj(fs)) + t == "{" + (PrintFields(fs) + ("}" + t))
    ensures More(fs) + t == "," + (PrintFields(fs) + t)
  {
    hide PrintFields;
    Regroup("{", PrintFields(fs), "}", t);
    ConcatAssoc(",", PrintFields(fs), t);
  }

  lemma NumberOne()
    ensures Plain(Num("1")) && Print(Num("1")) == "1"
  {
    assert AllDigits("1");
  }

  lemma WordText(word: string, quoted: string)
    requires PlainText(word) && quoted == "\"" + word + "\""
    ensures Plain(Str(word)) && Print(Str(word)) == quoted
  {
    PlainTextIsPrintedAsIs(word);
    hide StringBody;
    hide PlainText;
  }

  /** The words the frames hold. */
  lemma WordsAre()
    ensures Plain(Str("user")) && Print(Str("user")) == "\"user\""
    ensures Plain(Str("auth")) && Print(Str("auth")) == "\"auth\""
    ensures Plain(Str("control")) && Print(Str("control")) == "\"control\""
    ensures Plain(Str("rename")) && Print(Str("rename")) == "\"rename\""
  {
    KeysArePlain();
    hide *;
    WordText("user", "\"user\"");
    WordText("auth", "\"auth\"");
    WordText("control", "\"control\"");
    WordText("rename", "\"rename\"");
  }

  lemma TextText(v: string)
    ensures Plain(Str(v)) && Print(Str(v)) == Quoted(v)
  {
    hide Quoted;
  }

  lemma KeysArePlain()
    ensures PlainText("role") && PlainText("content") && PlainText("msgV") && PlainText("msg_id")
    ensures PlainText("type") && PlainText("message") && PlainText("priority")
    ensures PlainText("from") && PlainText("session_id") && PlainText("uuid")
    ensures PlainText("user") && PlainText("auth") && PlainText("token")
    ensures PlainText("control") && PlainText("action") && PlainText("rename") && PlainText("name")
  {
    LongKeysArePlain();
    OtherKeysArePlain();
    hide *;
  }

  lemma LongKeysArePlain()
    ensures PlainText("content") && PlainText("message") && PlainText("priority")
    ensures PlainText("session_id") && PlainText("control")
  {
  }

  lemma OtherKeysArePlain()
    ensures PlainText("role") && PlainText("msgV") && PlainText("msg_id") && PlainText("type")
    ensures PlainText("from") && PlainText("uuid") && PlainText("user") && PlainText("auth") && PlainText("token")
    ensures PlainText("action") && PlainText("rename") && PlainText("name")
  {
  }

  lemma OptionalsText(f: UserFrame)
    ensures PlainFields(OptionalFields(f))
    ensures More(OptionalFields(f)) + "}"
         == Optional("from", f.from) + (Optional("session_id", f.sessionID) + (Optional("uuid", f.uuid) + "}"))
  {
    KeysArePlain();
    hide *;
    var uuid := OmitEmpty("uuid", f.uuid, NoFields);
    var session := OmitEmpty("session_id", f.sessionID, uuid);
    NothingMore("}");
    OptionalText("uuid", f.uuid, NoFields, "}");
    OptionalText("session_id", f.sessionID, uuid, "}");
    OptionalText("from", f.from, session, "}");
    OptionalsAre(f);
  }

  lemma OptionalsAre(f: UserFrame)
    ensures OptionalFields(f) ==
            OmitEmpty("from", f.from, OmitEmpty("session_id", f.sessionID, OmitEmpty("uuid", f.uuid, NoFields)))
  {
  }

  lemma NothingMore(t: string)
    ensures PlainFields(NoFields) && More(NoFields) + t == t
  {
    assert "" + t == t;
  }

  /** A member whose value is written as `p`. */
  function Written(key: string, p: string): string { "\"" + key + "\":" + p }

  /** A member whose value is written as `p`, and what follows it. */
  lemma MemberAs(key: string, v: Json, p: string, rest: Fields, t: string, after: string)
    requires PlainText(key) && Plain(v) && Print(v) == p && PlainFields(rest)
    requires More(rest) + t == after
    ensures PlainFields(Field(key, v, rest))
    ensures PrintFields(Field(key, v, rest)) + t == Written(key, p) + after
    ensures More(Field(key, v, rest)) + t == "," + (Written(key, p) + after)
  {
    PlainField(key, v, rest);
    ObjectText(Field(key, v, rest), t);
    MemberText(key, v, rest, t);
    hide *;
    WrittenThen(key, p, after);
  }

  lemma PlainField(key: string, v: Json, rest: Fields)
    requires Plain(v) && PlainFields(rest)
    ensures PlainFields(Field(key, v, rest))
  {
  }

  lemma WrittenThen(key: string, p: string, after: string)
    ensures Written(key, p) + after == ("\"" + key + "\":") + (p + after)
  {
    ConcatAssoc("\"" + key + "\":", p, after);
  }

  // ------------------------------------------------------------------- the user frame

  function PriorityFields(f: UserFrame): Fields { Field("priority", Str(f.priority), OptionalFields(f)) }

  function MessageFields(f: UserFrame): Fields { Field("message", Obj(PayloadFields(f.content)), PriorityFields(f)) }

  function PayloadText(content: string): string {
    "{" + (Written("role", "\"user\"") + ("," + (Written("content", Quoted(content)) + "}")))
  }

  /** The end of a user frame's line, from the comma before its priority on. */
  function PriorityText(f: UserFrame): string {
    "," + (Written("priority", Quoted(f.priority)) +
    (Optional("from", f.from) + (Optional("session_id", f.sessionID) + (Optional("uuid", f.uuid) + "}"))))
  }

  /** The whole line: these members in this order, without white space, the last three only if set. */
  function UserText(f: UserFrame): string {
    "{" + (Written("msgV", "1") +
    ("," + (Written("msg_id", Quoted(f.msgID)) +
    ("," + (Written("type", "\"user\"") +
    ("," + (Written("message", PayloadText(f.content)) +
    PriorityText(f))))))))
  }

  lemma PriorityIs(f: UserFrame)
    ensures PlainFields(PriorityFields(f)) && More(PriorityFields(f)) + "}" == PriorityText(f)
  {
    KeysArePlain();
    OptionalsText(f);
    TextText(f.priority);
    hide PlainText;
    hide OptionalFields;
    hide Optional;
    hide Quoted;
    hide More;
    hide Print;
    hide PlainFields;
    hide Written;
    MemberAs("priority", Str(f.priority), Quoted(f.priority), OptionalFields(f), "}", More(OptionalFields(f)) + "}");
  }

  lemma PayloadIs(content: string)
    ensures Plain(Obj(PayloadFields(content))) && Print(Obj(PayloadFields(content))) == PayloadText(content)
  {
    hide *;
    KeysArePlain();
    WordsAre();
    TextText(content);
    NothingMore("}");
    PayloadIsFlat(content);
    var last := Field("content", Str(content), NoFields);
    MemberAs("content", Str(content), Quoted(content), NoFields, "}", "}");
    MemberAs("role", Str("user"), "\"user\"", last, "}", More(last) + "}");
    PayloadFieldsAre(content);
    ObjectText(PayloadFields(content), "");
    PayloadGlue(content);
  }

  lemma PayloadFieldsAre(content: string)
    ensures PayloadFields(content) == Field("role", Str("user"), Field("content", Str(content), NoFields))
  {
  }

  lemma PayloadGlue(content: string)
    ensures "{" + (Written("role", "\"user\"") + ("," + (Written("content", Quoted(content)) + "}")))
         == PayloadText(content)
    ensures "}" + "" == "}"
    ensures forall s: string :: s + "" == s
  {
    hide Quoted;
  }

  /** A user frame is sent as this text. */
  lemma UserLineIs(f: UserFrame)
    ensures UserLine(f) == UserText(f)
  {
    hide *;
    KeysArePlain();
    WordsAre();
    NumberOne();
    TextText(f.msgID);
    PayloadIs(f.content);
    PriorityIs(f);
    UserLineOf(f);
    var fs3 := MessageFields(f);
    var fs2 := Field("type", Str("user"), fs3);
    var fs1 := Field("msg_id", Str(f.msgID), fs2);
    MessageFieldsAre(f);
    MemberAs("message", Obj(PayloadFields(f.content)), PayloadText(f.content), PriorityFields(f), "}", PriorityText(f));
    MemberAs("type", Str("user"), "\"user\"", fs3, "}", More(fs3) + "}");
    MemberAs("msg_id", Str(f.msgID), Quoted(f.msgID), fs2, "}", More(fs2) + "}");
    MemberAs("msgV", Num("1"), "1", fs1, "}", More(fs1) + "}");
    UserTextIs(f);
  }

  lemma MessageFieldsAre(f: UserFrame)
    ensures MessageFields(f) == Field("message", Obj(PayloadFields(f.content)), PriorityFields(f))
    ensures UserFields(f) ==
            Field("msgV", Num("1"), Field("msg_id", Str(f.msgID), Field("type", Str("user"), MessageFields(f))))
  {
  }

  lemma UserLineOf(f: UserFrame)
    ensures PlainFields(UserFields(f)) && UserLine(f) == "{" + (PrintFields(UserFields(f)) + "}")
  {
    FramesArePlain(f, "");
    hide PrintFields;
    hide UserFields;
    ConcatAssoc("{", PrintFields(UserFields(f)), "}");
  }

  lemma UserTextIs(f: UserFrame)
    ensures UserText(f) ==
            "{" + (Written("msgV", "1") + ("," + (Written("msg_id", Quoted(f.msgID)) +
            ("," + (Written("type", "\"user\"") + ("," + (Written("message", PayloadText(f.content)) +
            PriorityText(f))))))))
  {
    hide Written;
    hide Quoted;
    hide PayloadText;
    hide PriorityText;
  }

  // -------------------------------------------------------------- auth and rename lines

  /** A token is presented as this text. */
  lemma AuthLineIs(token: string)
    ensures AuthLine(token) == "{" + (Written("type", "\"auth\"") + ("," + (Written("token", Quoted(token)) + "}")))
  {
    hide *;
    KeysArePlain();
    WordsAre();
    TextText(token);
    NothingMore("}");
    AuthLineOf(token);
    var last := Field("token", Str(token), NoFields);
    MemberAs("token", Str(token), Quoted(token), NoFields, "}", "}");
    MemberAs("type", Str("auth"), "\"auth\"", last, "}", More(last) + "}");
    AuthFieldsAre(token);
  }

  lemma AuthFieldsAre(token: string)
    ensures AuthFields(token) == Field("type", Str("auth"), Field("token", Str(token), NoFields))
  {
  }

  lemma AuthLineOf(token: string)
    ensures PlainFields(AuthFields(token)) && AuthLine(token) == "{" + (PrintFields(AuthFields(token)) + "}")
  {
    FramesArePlain(UserFrame("", "", "", "", "", ""), token);
    hide PrintFields;
    hide AuthFields;
    ConcatAssoc("{", PrintFields(AuthFields(token)), "}");
  }

  /** A rename is sent as this text. */
  lemma RenameLineIs(msgID: string, name: string, sessionID: string)
    ensures RenameLine(msgID, name, sessionID) ==
            "{" + (Written("msgV", "1") + ("," + (Written("msg_id", Quoted(msgID)) +
            ("," + (Written("type", "\"control\"") + ("," + (Written("action", "\"rename\"") +
            (Optional("name", name) + (Optional("session_id", sessionID) + "}")))))))))
  {
    hide *;
    KeysArePlain();
    WordsAre();
    NumberOne();
    TextText(msgID);
    NothingMore("}");
    RenameLineOf(msgID, name, sessionID);
    var session := OmitEmpty("session_id", sessionID, NoFields);
    var fs4 := OmitEmpty("name", name, session);
    var fs3 := Field("action", Str("rename"), fs4);
    var fs2 := Field("type", Str("control"), fs3);
    var fs1 := Field("msg_id", Str(msgID), fs2);
    OptionalText("session_id", sessionID, NoFields, "}");
    OptionalText("name", name, session, "}");
    MemberAs("action", Str("rename"), "\"rename\"", fs4, "}", More(fs4) + "}");
    MemberAs("type", Str("control"), "\"control\"", fs3, "}", More(fs3) + "}");
    MemberAs("msg_id", Str(msgID), Quoted(msgID), fs2, "}", More(fs2) + "}");
    MemberAs("msgV", Num("1"), "1", fs1, "}", More(fs1) + "}");
    RenameFieldsAre(msgID, name, sessionID);
  }

  lemma RenameFieldsAre(msgID: string, name: string, sessionID: string)
    ensures RenameFields(msgID, name, sessionID) ==
            Field("msgV", Num("1"), Field("msg_id", Str(msgID), Field("type", Str("control"),
            Field("action", Str("rename"), OmitEmpty("name", name, OmitEmpty("session_id", sessionID, NoFields))))))
  {
  }

  lemma RenameLineOf(msgID: string, name: string, sessionID: string)
    ensures var fs := RenameFields(msgID, name, sessionID);
            PlainFields(fs) && RenameLine(msgID, name, sessionID) == "{" + (PrintFields(fs) + "}")
  {
    RenameIsPlain(msgID, name, sessionID);
    hide PrintFields;
    hide RenameFields;
    ConcatAssoc("{", PrintFields(RenameFields(msgID, name, sessionID)), "}");
  }
}
