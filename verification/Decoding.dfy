/**
  Decoding the frames of the protocol: which calls a user line, an auth line and a
  receipt line make.
 */
module Decoding {
  import opened Text
  import opened Utf8
  import opened Json
  import opened Inbox
  import opened Frames

  // ------------------------------------------------------------------ known keys

  lemma AsciiKeyIs(key: string, name: string)
    requires Ascii(key) && Ascii(name)
    ensures KeyIs(key, name) <==>
            |key| == |name| && forall i | 0 <= i < |key| :: FoldRune(key[i] as int) == FoldRune(name[i] as int)
  {
    hide Runes;
    hide FoldRune;
    AsciiRunes(key);
    AsciiRunes(name);
  }

  /** Names of different length or different first letter are different keys. */
  lemma OtherKey(key: string, name: string)
    requires Ascii(key) && Ascii(name) && key != "" && name != ""
    requires |key| != |name| || FoldRune(key[0] as int) != FoldRune(name[0] as int)
    ensures !KeyIs(key, name)
  {
    AsciiKeyIs(key, name);
  }

  lemma RepairKey(key: string)
    requires Ascii(key)
    ensures Repair(key) == key && KeyIs(key, key)
  {
    AsciiRunes(key);
  }

  lemma NamesAreAscii()
    ensures Ascii("type") && Ascii("action") && Ascii("status") && Ascii("orig_msg_id")
    ensures Ascii("from") && Ascii("reason") && Ascii("message")
    ensures Ascii("user") && Ascii("auth")
  {
  }

  /** The first letter of a key, in upper case. */
  function Initial(key: string): int
    requires Ascii(key) && key != ""
  {
    FoldRune(key[0] as int)
  }

  /** Keys that name none of the fields of an incoming frame. */
  predicate Ignored(key: string) {
    && Ascii(key) && key != ""
    && |key| != 7 && |key| != 11
    && !(|key| == 4 && (Initial(key) == 'T' as int || Initial(key) == 'F' as int))
    && !(|key| == 6 && (Initial(key) == 'A' as int || Initial(key) == 'S' as int || Initial(key) == 'R' as int))
  }

  /** How a field is spelled. */
  function Spelling(n: Name): string
    requires !n.NoName?
  {
    match n
    case TypeName => "type"
    case ActionName => "action"
    case StatusName => "status"
    case OrigMsgIDName => "orig_msg_id"
    case FromName => "from"
    case ReasonName => "reason"
    case MessageName => "message"
  }

  /** An ASCII key names a field only if it has the field's length and initial. */
  lemma OtherName(key: string, n: Name)
    requires !n.NoName? && Ascii(key) && key != ""
    requires Ascii(Spelling(n))
    requires |key| != |Spelling(n)| || Initial(key) != Initial(Spelling(n))
    ensures !KeyIs(key, Spelling(n))
  {
    hide KeyIs;
    OtherKey(key, Spelling(n));
  }

  /** Every field is recognised by its own spelling. */
  lemma KnownKey(n: Name)
    requires !n.NoName?
    ensures NameOf(Spelling(n)) == n
  {
    NamesAreAscii();
    hide KeyIs;
    hide Ascii;
    hide Repair;
    var key := Spelling(n);
    RepairKey(key);
    if !n.TypeName? { OtherName(key, TypeName); }
    if !n.TypeName? && !n.ActionName? { OtherName(key, ActionName); }
    if n.OrigMsgIDName? || n.FromName? || n.ReasonName? || n.MessageName? { OtherName(key, StatusName); }
    if n.FromName? || n.ReasonName? || n.MessageName? { OtherName(key, OrigMsgIDName); }
    if n.ReasonName? || n.MessageName? { OtherName(key, FromName); }
    if n.MessageName? { OtherName(key, ReasonName); }
  }

  lemma IgnoredKey(f: IncomingFrame, key: string, v: Json)
    requires Ignored(key)
    ensures SetField(f, key, v) == Some(f)
  {
    NamesAreAscii();
    hide KeyIs;
    hide Ascii;
    OtherName(key, TypeName);
    OtherName(key, ActionName);
    OtherName(key, StatusName);
    OtherName(key, OrigMsgIDName);
    OtherName(key, FromName);
    OtherName(key, ReasonName);
    OtherName(key, MessageName);
  }

  // ------------------------------------------------------------ decoding a frame

  lemma DecodeStep(key: string, v: Json, rest: Fields, f: IncomingFrame, f': IncomingFrame)
    requires Ascii(key) && SetField(f, key, Repaired(v)) == Some(f')
    ensures DecodeFields(RepairedFields(Field(key, v, rest)), f) == DecodeFields(RepairedFields(rest), f')
  {
    hide SetField;
    hide Repair;
    hide KeyIs;
    RepairKey(key);
  }

  /** A frame with the text of one of its string fields replaced. */
  function WithText(f: IncomingFrame, n: Name, s: string): IncomingFrame {
    match n
    case TypeName => f.(typ := s)
    case ActionName => f.(action := s)
    case StatusName => f.(status := s)
    case OrigMsgIDName => f.(origMsgID := s)
    case FromName => f.(from := s)
    case ReasonName => f.(reason := s)
    case _ => f
  }

  /** Decoding a string field by its own key sets exactly that field. */
  lemma DecodeText(n: Name, v: string, rest: Fields, f: IncomingFrame)
    requires !n.NoName? && !n.MessageName?
    ensures DecodeFields(RepairedFields(Field(Spelling(n), Str(v), rest)), f)
         == DecodeFields(RepairedFields(rest), WithText(f, n, Repair(v)))
  {
    hide NameOf;
    hide Ascii;
    hide Repair;
    hide DecodeFields;
    hide RepairedFields;
    NamesAreAscii();
    KnownKey(n);
    DecodeStep(Spelling(n), Str(v), rest, f, WithText(f, n, Repair(v)));
  }

  lemma DecodeOmitted(key: string, v: string, rest: Fields, f: IncomingFrame)
    requires Ignored(key)
    ensures DecodeFields(RepairedFields(OmitEmpty(key, v, rest)), f) == DecodeFields(RepairedFields(rest), f)
  {
    hide SetField;
    hide Repaired;
    if v != "" {
      IgnoredKey(f, key, Repaired(Str(v)));
      DecodeStep(key, Str(v), rest, f, f);
    }
  }

  lemma PayloadKeys()
    ensures Repair("role") == "role" && Repair("content") == "content" && Repair("user") == "user"
    ensures KeyIs("role", "role") && KeyIs("content", "content") && !KeyIs("content", "role")
  {
    hide Repair;
    hide KeyIs;
    RepairKey("role");
    RepairKey("content");
    RepairKey("user");
    OtherKey("content", "role");
  }

  lemma DecodePayloadFields(content: string, m: Payload)
    ensures DecodePayload(RepairedFields(PayloadFields(content)), m) == Some(Payload("user", Repair(content)))
  {
    hide KeyIs;
    hide Repair;
    PayloadKeys();
    var text := Repair(content);
    var tail := Field("content", Str(text), NoFields);
    assert RepairedFields(PayloadFields(content)) == Field("role", Str("user"), tail) by {
      RepairedPayload(content);
    }
    var m1 := m.(role := "user");
    assert SetPayload(m, "role", Str("user")) == Some(m1);
    assert SetPayload(m1, "content", Str(text)) == Some(m1.(content := text));
    assert DecodePayload(tail, m1) == DecodePayload(NoFields, m1.(content := text));
  }

  lemma RepairedPayload(content: string)
    ensures RepairedFields(PayloadFields(content))
         == Field("role", Str("user"), Field("content", Str(Repair(content)), NoFields))
  {
    hide KeyIs;
    hide Repair;
    PayloadKeys();
    assert RepairedFields(Field("content", Str(content), NoFields))
        == Field("content", Str(Repair(content)), NoFields);
  }

  lemma DecodeOptional(f: UserFrame, f0: IncomingFrame)
    requires f0.from == ""
    ensures DecodeFields(RepairedFields(OptionalFields(f)), f0) == Some(f0.(from := Repair(f.from)))
  {
    var uuid := OmitEmpty("uuid", f.uuid, NoFields);
    var session := OmitEmpty("session_id", f.sessionID, uuid);
    var out := f0.(from := Repair(f.from));
    EmptyRepair();
    OptionalKeysAreIgnored();
    hide SetField;
    hide Repair;
    hide KeyIs;
    hide Ignored;
    if f.from != "" {
      DecodeText(FromName, f.from, session, f0);
    }
    DecodeOmitted("session_id", f.sessionID, uuid, out);
    DecodeOmitted("uuid", f.uuid, NoFields, out);
  }

  lemma OptionalKeysAreIgnored()
    ensures Ignored("session_id") && Ignored("uuid") && Ignored("msgV") && Ignored("msg_id")
    ensures Ignored("priority") && Ignored("token")
  {
  }

  lemma DecodeObject(fs: Fields)
    ensures DecodeFrame(Repaired(Obj(fs))) == DecodeFields(RepairedFields(fs), ZERO)
  {
    hide DecodeFields;
    hide RepairedFields;
  }

  lemma DecodeMessage(f: UserFrame, f0: IncomingFrame)
    requires f0.message.None?
    ensures SetField(f0, "message", Repaired(Obj(PayloadFields(f.content))))
         == Some(f0.(message := Some(Payload("user", Repair(f.content)))))
  {
    hide NameOf;
    hide Repair;
    hide DecodePayload;
    hide RepairedFields;
    KnownKey(MessageName);
    DecodePayloadFields(f.content, Payload("", ""));
  }

  lemma DecodeIgnored(key: string, v: Json, rest: Fields, f: IncomingFrame)
    requires Ignored(key)
    ensures DecodeFields(RepairedFields(Field(key, v, rest)), f) == DecodeFields(RepairedFields(rest), f)
  {
    hide SetField;
    hide DecodeFields;
    hide Repaired;
    hide RepairedFields;
    IgnoredKey(f, key, Repaired(v));
    DecodeStep(key, v, rest, f, f);
  }

  /** A user frame decodes to its content and its sender, repaired. */
  lemma DecodeUserFrame(f: UserFrame)
    ensures DecodeFrame(Repaired(Obj(UserFields(f)))) ==
            Some(ZERO.(typ := "user", from := Repair(f.from),
                       message := Some(Payload("user", Repair(f.content)))))
  {
    hide SetField;
    hide Ignored;
    hide Repair;
    hide OptionalFields;
    hide DecodeFields;
    hide RepairedFields;
    hide PayloadFields;
    hide DecodeFrame;
    var fs4 := Field("priority", Str(f.priority), OptionalFields(f));
    var message := Obj(PayloadFields(f.content));
    var fs3 := Field("message", message, fs4);
    var fs2 := Field("type", Str("user"), fs3);
    var in2 := ZERO.(typ := "user");
    var in3 := in2.(message := Some(Payload("user", Repair(f.content))));
    DecodeObject(UserFields(f));
    OptionalKeysAreIgnored();
    NamesAreAscii();
    hide Ascii;
    DecodeIgnored("msgV", Num("1"), Field("msg_id", Str(f.msgID), fs2), ZERO);
    DecodeIgnored("msg_id", Str(f.msgID), fs2, ZERO);
    DecodeType("user", fs3, in2);
    DecodeMessage(f, in2);
    DecodeStep("message", message, fs4, in2, in3);
    DecodeIgnored("priority", Str(f.priority), OptionalFields(f), in3);
    DecodeOptional(f, in3);
  }

  lemma DecodeType(typ: string, rest: Fields, f: IncomingFrame)
    requires Ascii(typ) && f == ZERO.(typ := typ)
    ensures DecodeFields(RepairedFields(Field("type", Str(typ), rest)), ZERO) == DecodeFields(RepairedFields(rest), f)
  {
    hide DecodeFields;
    hide RepairedFields;
    hide Repair;
    RepairKey(typ);
    DecodeText(TypeName, typ, rest, ZERO);
  }

  lemma UserLineCalls(f: UserFrame, c: Config)
    ensures LineCalls(UserLine(f), c) == if c.onMessage then [OnMessage(Repair(f.content), Repair(f.from))] else []
  {
    hide UserFields;
    hide ReadDocument;
    hide DecodeFrame;
    hide Repair;
    hide Repaired;
    hide Print;
    hide Plain;
    hide Depth;
    FramesArePlain(f, "");
    ReadDocumentInvertsPrint(Obj(UserFields(f)));
    DecodeUserFrame(f);
  }

  /** The auth line makes no call: an inbox ignores it. */
  lemma AuthLineCalls(token: string, c: Config)
    ensures LineCalls(AuthLine(token), c) == []
  {
    hide AuthFields;
    hide ReadDocument;
    hide DecodeFrame;
    hide Repair;
    hide Repaired;
    hide Print;
    hide Plain;
    hide Depth;
    FramesArePlain(UserFrame("", "", "", "", "", ""), token);
    ReadDocumentInvertsPrint(Obj(AuthFields(token)));
    DecodeAuthFrame(token);
  }

  lemma DecodeAuthFrame(token: string)
    ensures DecodeFrame(Repaired(Obj(AuthFields(token)))) == Some(ZERO.(typ := "auth"))
  {
    hide SetField;
    hide Ignored;
    hide RepairedFields;
    hide DecodeFrame;
    var in1 := ZERO.(typ := "auth");
    OptionalKeysAreIgnored();
    DecodeObject(AuthFields(token));
    NamesAreAscii();
    hide Ascii;
    DecodeType("auth", Field("token", Str(token), NoFields), in1);
    DecodeIgnored("token", Str(token), NoFields, in1);
    DecodeNothing(in1);
  }

  lemma DecodeNothing(f: IncomingFrame)
    ensures DecodeFields(RepairedFields(NoFields), f) == Some(f)
  {
  }

  // -------------------------------------------------------------------- receipts

  /** The receipt frame of the protocol. */
  function ReceiptFields(status: string, origMsgID: string, from: string, reason: string): Fields {
    Field("type", Str("control"),
    Field("action", Str("peer_message_status"),
    Field("status", Str(status),
    Field("orig_msg_id", Str(origMsgID),
    Field("from", Str(from),
    Field("reason", Str(reason), NoFields))))))
  }

  lemma DecodeReceipt(status: string, origMsgID: string, from: string, reason: string)
    ensures DecodeFrame(Repaired(Obj(ReceiptFields(status, origMsgID, from, reason)))) ==
            Some(IncomingFrame("control", "peer_message_status", Repair(status), Repair(origMsgID),
                               Repair(from), Repair(reason), None))
  {
    hide Repair;
    hide DecodeFields;
    hide RepairedFields;
    hide DecodeFrame;
    var fs5 := Field("reason", Str(reason), NoFields);
    var fs4 := Field("from", Str(from), fs5);
    var fs3 := Field("orig_msg_id", Str(origMsgID), fs4);
    var fs2 := Field("status", Str(status), fs3);
    var fs1 := Field("action", Str("peer_message_status"), fs2);
    var in1 := ZERO.(typ := "control");
    var in2 := in1.(action := "peer_message_status");
    var in3 := in2.(status := Repair(status));
    var in4 := in3.(origMsgID := Repair(origMsgID));
    var in5 := in4.(from := Repair(from));
    var in6 := in5.(reason := Repair(reason));
    NamesAreAscii();
    ReceiptWordsAreAscii();
    hide Ascii;
    RepairKey("peer_message_status");
    DecodeObject(ReceiptFields(status, origMsgID, from, reason));
    DecodeType("control", fs1, in1);
    DecodeText(ActionName, "peer_message_status", fs2, in1);
    DecodeText(StatusName, status, fs3, in2);
    DecodeText(OrigMsgIDName, origMsgID, fs4, in3);
    DecodeText(FromName, from, fs5, in4);
    DecodeText(ReasonName, reason, NoFields, in5);
    DecodeNothing(in6);
  }

  lemma ReceiptWordsAreAscii()
    ensures Ascii("control") && Ascii("peer_message_status")
  {
  }

  lemma ReceiptFieldsAreFlat(status: string, origMsgID: string, from: string, reason: string)
    ensures FlatFields(ReceiptFields(status, origMsgID, from, reason), 0)
  {
    hide FlatFields;
    NoFieldsAreFlat();
    var fs := Field("reason", Str(reason), NoFields);
    FlatCons("reason", Str(reason), NoFields, 0);
    FlatCons("from", Str(from), fs, 0);
    fs := Field("from", Str(from), fs);
    FlatCons("orig_msg_id", Str(origMsgID), fs, 0);
    fs := Field("orig_msg_id", Str(origMsgID), fs);
    FlatCons("status", Str(status), fs, 0);
    fs := Field("status", Str(status), fs);
    FlatCons("action", Str("peer_message_status"), fs, 0);
    fs := Field("action", Str("peer_message_status"), fs);
    FlatCons("type", Str("control"), fs, 0);
  }

  /** A receipt line makes exactly one receipt call, with its four texts in their places. */
  lemma ReceiptLineCalls(status: string, origMsgID: string, from: string, reason: string, c: Config)
    ensures Plain(Obj(ReceiptFields(status, origMsgID, from, reason)))
    ensures LineCalls(Print(Obj(ReceiptFields(status, origMsgID, from, reason))), c)
         == if c.onReceipt then [OnReceipt(Repair(status), Repair(origMsgID), Repair(from), Repair(reason))] else []
  {
    hide ReceiptFields;
    hide ReadDocument;
    hide DecodeFrame;
    hide Repair;
    hide Repaired;
    hide Print;
    ReceiptFieldsAreFlat(status, origMsgID, from, reason);
    ReadDocumentInvertsPrint(Obj(ReceiptFields(status, origMsgID, from, reason)));
    DecodeReceipt(status, origMsgID, from, reason);
  }

  // --------------------------------------------------------------------- renames

  /** A rename is no receipt: it decodes to another action. */
  lemma DecodeRename(msgID: string, name: string, sessionID: string)
    ensures DecodeFrame(Repaired(Obj(RenameFields(msgID, name, sessionID))))
         == Some(ZERO.(typ := "control", action := "rename"))
  {
    hide SetField;
    hide Ignored;
    hide Repair;
    hide DecodeFields;
    hide RepairedFields;
    hide DecodeFrame;
    hide OmitEmpty;
    var session := OmitEmpty("session_id", sessionID, NoFields);
    var fs4 := OmitEmpty("name", name, session);
    var fs3 := Field("action", Str("rename"), fs4);
    var fs2 := Field("type", Str("control"), fs3);
    var in1 := ZERO.(typ := "control");
    var in2 := in1.(action := "rename");
    OptionalKeysAreIgnored();
    NamesAreAscii();
    RenameWordsAreAscii();
    hide Ascii;
    RepairKey("rename");
    DecodeObject(RenameFields(msgID, name, sessionID));
    DecodeIgnored("msgV", Num("1"), Field("msg_id", Str(msgID), fs2), ZERO);
    DecodeIgnored("msg_id", Str(msgID), fs2, ZERO);
    DecodeType("control", fs3, in1);
    DecodeText(ActionName, "rename", fs4, in1);
    DecodeOmitted("name", name, session, in2);
    DecodeOmitted("session_id", sessionID, NoFields, in2);
    DecodeNothing(in2);
  }

  lemma RenameWordsAreAscii()
    ensures Ascii("control") && Ascii("rename") && Ascii("name") && Ignored("name")
  {
  }

  /** An inbox makes no call for a rename, whatever it says. */
  lemma RenameLineCalls(msgID: string, name: string, sessionID: string, c: Config)
    ensures LineCalls(RenameLine(msgID, name, sessionID), c) == []
  {
    hide RenameFields;
    hide ReadDocument;
    hide DecodeFrame;
    hide Repair;
    hide Repaired;
    hide Print;
    hide Plain;
    hide Depth;
    RenameIsPlain(msgID, name, sessionID);
    ReadDocumentInvertsPrint(Obj(RenameFields(msgID, name, sessionID)));
    DecodeRename(msgID, name, sessionID);
    assert "rename"[0] == 'r' && "peer_message_status"[0] == 'p';
  }
}
