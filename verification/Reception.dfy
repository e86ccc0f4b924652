/**
  What an inbox makes of an arbitrary line: which lines make a call, and which.

  The decoder goes through the fields of a document once, from the front, updating a frame;
  here the frame is described by the last field of each name.
 */
module Reception {
  import opened Text
  import opened Utf8
  import opened Json
  import opened Inbox
  import opened Decoding

  // ------------------------------------------------------------- what a document says

  /** The last value under a name. */
  function Last(fs: Fields, n: Name): Option<Json> {
    match fs
    case NoFields => None
    case Field(k, v, rest) =>
      if Last(rest, n).Some? then Last(rest, n) else if NameOf(k) == n then Some(v) else None
  }

  /** The last string under a name: null leaves a text as it is. */
  function LastText(fs: Fields, n: Name): Option<string> {
    match fs
    case NoFields => None
    case Field(k, v, rest) =>
      if LastText(rest, n).Some? then LastText(rest, n)
      else if NameOf(k) == n && v.Str? then Some(v.s) else None
  }

  /** The text a document gives a name, empty if none. */
  function Said(fs: Fields, n: Name): string { if LastText(fs, n).Some? then LastText(fs, n).value else "" }

  predicate TextOrNull(v: Json) { v.Str? || v.Null? }

  /** The fields of a message that are looked at are texts or null. */
  predicate PayloadTyped(fs: Fields) {
    match fs
    case NoFields => true
    case Field(k, v, rest) => (KeyIs(k, "role") || KeyIs(k, "content") ==> TextOrNull(v)) && PayloadTyped(rest)
  }

  predicate FieldTyped(n: Name, v: Json) {
    match n
    case NoName => true
    case MessageName => v.Null? || (v.Obj? && PayloadTyped(v.fields))
    case _ => TextOrNull(v)
  }

  /** Every field that is looked at is of its type. */
  predicate Typed(fs: Fields) { fs.Field? ==> FieldTyped(NameOf(fs.key), fs.value) && Typed(fs.rest) }

  /** The last content in one message. */
  function LastContent(fs: Fields): Option<string> {
    match fs
    case NoFields => None
    case Field(k, v, rest) =>
      if LastContent(rest).Some? then LastContent(rest)
      else if KeyIs(k, "content") && v.Str? then Some(v.s) else None
  }

  /** What a document says about the content: a text, that a null cleared it, or nothing. */
  datatype Content = Told(s: string) | Cleared | Silent

  /** The last word counts, and several messages add up unless a null comes between. */
  function ContentOf(fs: Fields): Content {
    match fs
    case NoFields => Silent
    case Field(k, v, rest) =>
      if !ContentOf(rest).Silent? || NameOf(k) != MessageName then ContentOf(rest)
      else if v.Null? then Cleared
      else if v.Obj? && LastContent(v.fields).Some? then Told(LastContent(v.fields).value)
      else Silent
  }

  function ContentSaid(fs: Fields): string { match ContentOf(fs) case Told(s) => s case _ => "" }

  predicate HasMessage(fs: Fields) { Last(fs, MessageName).Some? && Last(fs, MessageName).value.Obj? }

  // -------------------------------------------------------------------- the decoder

  function TextIn(f: IncomingFrame, n: Name): string {
    match n
    case TypeName => f.typ
    case ActionName => f.action
    case StatusName => f.status
    case OrigMsgIDName => f.origMsgID
    case FromName => f.from
    case ReasonName => f.reason
    case _ => ""
  }

  lemma NotBothKeys(k: string)
    ensures !(KeyIs(k, "role") && KeyIs(k, "content"))
  {
    assert Ascii("role") && Ascii("content");
    AsciiRunes("role");
    AsciiRunes("content");
    hide Runes;
  }

  lemma {:induction false} PayloadDecodes(fs: Fields, m: Payload)
    ensures DecodePayload(fs, m).Some? <==> PayloadTyped(fs)
    ensures DecodePayload(fs, m).Some? ==>
              DecodePayload(fs, m).value.content
              == if LastContent(fs).Some? then LastContent(fs).value else m.content
  {
    hide KeyIs;
    if fs.Field? {
      NotBothKeys(fs.key);
      if SetPayload(m, fs.key, fs.value).Some? {
        PayloadDecodes(fs.rest, SetPayload(m, fs.key, fs.value).value);
      }
    }
  }

  lemma SetTextIs(f: IncomingFrame, k: string, v: Json)
    requires NameOf(k) != MessageName && NameOf(k) != NoName
    ensures SetField(f, k, v) ==
            if v.Str? then Some(WithText(f, NameOf(k), v.s)) else if v.Null? then Some(f) else None
  {
    hide NameOf;
  }

  lemma SetOtherIs(f: IncomingFrame, k: string, v: Json)
    ensures NameOf(k) == NoName ==> SetField(f, k, v) == Some(f)
    ensures NameOf(k) == MessageName ==> SetField(f, k, v) == SetMessage(f, v)
  {
    hide NameOf;
    hide SetMessage;
  }

  /** A message field is decoded over what there was; null clears it. */
  lemma SetMessageIs(f: IncomingFrame, v: Json)
    ensures SetMessage(f, v).Some? <==> FieldTyped(MessageName, v)
    ensures SetMessage(f, v).Some? ==> SetMessage(f, v).value.message.Some? == v.Obj?
    ensures SetMessage(f, v).Some? && v.Obj? ==>
              SetMessage(f, v).value.message.value.content
              == if LastContent(v.fields).Some? then LastContent(v.fields).value
                 else if f.message.Some? then f.message.value.content else ""
  {
    hide PayloadTyped;
    hide DecodePayload;
    hide LastContent;
    if v.Obj? {
      PayloadDecodes(v.fields, if f.message.Some? then f.message.value else Payload("", ""));
    }
  }

  lemma SetMessageKeepsTexts(f: IncomingFrame, v: Json, n: Name)
    requires SetMessage(f, v).Some?
    ensures TextIn(SetMessage(f, v).value, n) == TextIn(f, n)
  {
    hide DecodePayload;
  }

  lemma FieldDecodesIff(f: IncomingFrame, k: string, v: Json)
    ensures SetField(f, k, v).Some? <==> FieldTyped(NameOf(k), v)
  {
    hide SetField;
    hide NameOf;
    hide SetMessage;
    hide PayloadTyped;
    SetOtherIs(f, k, v);
    if NameOf(k) == MessageName {
      SetMessageIs(f, v);
    } else if NameOf(k) != NoName {
      SetTextIs(f, k, v);
    }
  }

  /** Decoding fails exactly on a field of the wrong type. */
  lemma {:induction false} DecodesIff(fs: Fields, f: IncomingFrame)
    ensures DecodeFields(fs, f).Some? <==> Typed(fs)
  {
    hide SetField;
    hide NameOf;
    hide FieldTyped;
    if fs.Field? {
      FieldDecodesIff(f, fs.key, fs.value);
      if SetField(f, fs.key, fs.value).Some? {
        DecodesIff(fs.rest, SetField(f, fs.key, fs.value).value);
      }
    }
  }

  lemma SetFieldText(f: IncomingFrame, k: string, v: Json, n: Name)
    requires SetField(f, k, v).Some? && n != MessageName && n != NoName
    ensures TextIn(SetField(f, k, v).value, n) == if NameOf(k) == n && v.Str? then v.s else TextIn(f, n)
  {
    hide SetField;
    hide NameOf;
    hide SetMessage;
    SetOtherIs(f, k, v);
    if NameOf(k) == MessageName {
      SetMessageKeepsTexts(f, v, n);
    } else if NameOf(k) != NoName {
      SetTextIs(f, k, v);
    }
  }

  /** Every text is the last string under its name. */
  lemma {:induction false} TextsAreLast(fs: Fields, f: IncomingFrame, n: Name)
    requires DecodeFields(fs, f).Some? && n != MessageName && n != NoName
    ensures TextIn(DecodeFields(fs, f).value, n)
         == if LastText(fs, n).Some? then LastText(fs, n).value else TextIn(f, n)
  {
    hide SetField;
    hide NameOf;
    hide TextIn;
    if fs.Field? {
      SetFieldText(f, fs.key, fs.value, n);
      TextsAreLast(fs.rest, SetField(f, fs.key, fs.value).value, n);
    }
  }

  lemma SetFieldMessage(f: IncomingFrame, k: string, v: Json)
    requires SetField(f, k, v).Some?
    ensures var g := SetField(f, k, v).value;
            && (NameOf(k) != MessageName ==> g.message == f.message)
            && (NameOf(k) == MessageName ==> g.message.Some? == v.Obj? && (v.Obj? || v.Null?))
            && (NameOf(k) == MessageName && v.Obj? ==>
                  g.message.value.content
                  == if LastContent(v.fields).Some? then LastContent(v.fields).value
                     else if f.message.Some? then f.message.value.content else "")
  {
    hide SetField;
    hide NameOf;
    hide SetMessage;
    hide LastContent;
    hide PayloadTyped;
    SetOtherIs(f, k, v);
    if NameOf(k) == MessageName {
      SetMessageIs(f, v);
    } else if NameOf(k) != NoName {
      SetTextIs(f, k, v);
    }
  }

  /** The content before any field is decoded. */
  function ContentIn(f: IncomingFrame): string { if f.message.Some? then f.message.value.content else "" }

  /** There is a message exactly if the last one is no null, and its content is the last word. */
  lemma {:induction false} MessageIsLast(fs: Fields, f: IncomingFrame)
    requires DecodeFields(fs, f).Some?
    ensures var g := DecodeFields(fs, f).value;
            && (g.message.Some? <==> if Last(fs, MessageName).Some? then HasMessage(fs) else f.message.Some?)
            && (g.message.Some? ==>
                  ContentIn(g) == match ContentOf(fs) case Told(s) => s case Cleared => "" case Silent => ContentIn(f))
  {
    hide SetField;
    hide NameOf;
    hide LastContent;
    if fs.Field? {
      SetFieldMessage(f, fs.key, fs.value);
      MessageIsLast(fs.rest, SetField(f, fs.key, fs.value).value);
    }
  }

  // ----------------------------------------------------------------------- the calls

  /** The fields of a document an inbox takes for a receipt. */
  predicate IsReceipt(fs: Fields) {
    Typed(fs) && Said(fs, TypeName) == "control" && Said(fs, ActionName) == "peer_message_status"
  }

  /** The fields of a document an inbox takes for a message. */
  predicate IsMessage(fs: Fields) { Typed(fs) && Said(fs, TypeName) == "user" && HasMessage(fs) }

  function ReceiptOf(fs: Fields): Call {
    OnReceipt(Said(fs, StatusName), Said(fs, OrigMsgIDName), Said(fs, FromName), Said(fs, ReasonName))
  }

  function MessageOf(fs: Fields): Call { OnMessage(ContentSaid(fs), Said(fs, FromName)) }

  /**
    A line makes at most one call.  It makes a receipt call exactly when it is an object
    whose type says control and whose action says peer_message_status, and a message call
    exactly when it is one whose type says user and that has a message; each only if the
    inbox was configured for it.  Any other line makes none: one that is no JSON document,
    no object, or has a field of the wrong type.
   */
  lemma LineCallsIff(line: string, c: Config)
    ensures LineCalls(line, c) ==
            if line == "" || ReadDocument(line).None? || !ReadDocument(line).value.Obj? then []
            else
              var fs := ReadDocument(line).value.fields;
              if IsReceipt(fs) && c.onReceipt then [ReceiptOf(fs)]
              else if IsMessage(fs) && c.onMessage then [MessageOf(fs)]
              else []
  {
    hide ReadDocument;
    hide DecodeFields;
    hide FrameCalls;
    hide Typed;
    hide ReceiptOf;
    hide MessageOf;
    hide Said;
    hide HasMessage;
    if line != "" && ReadDocument(line).Some? {
      if ReadDocument(line).value.Obj? {
        ObjectCalls(ReadDocument(line).value.fields, c);
      } else {
        ZeroCalls(c);
      }
    }
  }

  lemma ZeroCalls(c: Config)
    ensures FrameCalls(ZERO, c) == []
  {
  }

  lemma ObjectCalls(fs: Fields, c: Config)
    ensures DecodeFields(fs, ZERO).Some? <==> Typed(fs)
    ensures Typed(fs) ==>
              FrameCalls(DecodeFields(fs, ZERO).value, c) ==
              if IsReceipt(fs) then (if c.onReceipt then [ReceiptOf(fs)] else [])
              else if IsMessage(fs) && c.onMessage then [MessageOf(fs)]
              else []
  {
    DecodesIff(fs, ZERO);
    if Typed(fs) {
      FrameSays(fs);
    }
    hide DecodeFields;
    hide Typed;
    hide Said;
    hide ContentSaid;
    hide HasMessage;
  }

  lemma FrameSays(fs: Fields)
    requires DecodeFields(fs, ZERO).Some?
    ensures var g := DecodeFields(fs, ZERO).value;
            && g.typ == Said(fs, TypeName) && g.action == Said(fs, ActionName)
            && g.status == Said(fs, StatusName) && g.origMsgID == Said(fs, OrigMsgIDName)
            && g.from == Said(fs, FromName) && g.reason == Said(fs, ReasonName)
            && (g.message.Some? <==> HasMessage(fs))
            && (g.message.Some? ==> g.message.value.content == ContentSaid(fs))
  {
    TextsAreLast(fs, ZERO, TypeName);
    TextsAreLast(fs, ZERO, ActionName);
    TextsAreLast(fs, ZERO, StatusName);
    TextsAreLast(fs, ZERO, OrigMsgIDName);
    TextsAreLast(fs, ZERO, FromName);
    TextsAreLast(fs, ZERO, ReasonName);
    MessageIsLast(fs, ZERO);
    hide DecodeFields;
    hide LastText;
    hide ContentOf;
    hide Last;
  }

  // -------------------------------------------------------------------- many lines

  /** The calls of a connection are those of its lines, in their order. */
  lemma {:induction false} CallsInOrder(a: seq<string>, b: seq<string>, line: string, c: Config)
    ensures Calls(a + b, c) == Calls(a, c) + Calls(b, c)
    ensures Calls([line], c) == LineCalls(line, c) && Calls([], c) == []
  {
    hide LineCalls;
    assert [line][1..] == [];
    if a == [] {
      assert a + b == b;
    } else {
      assert (a + b)[1..] == a[1..] + b;
      CallsInOrder(a[1..], b, line, c);
    }
  }

  // ------------------------------------------------------------------------- keys

  /** The rune and the ASCII character are the same letter but for case. */
  predicate SameLetter(r: Rune, c: char) {
    || r == c as int
    || ('a' <= c <= 'z' && r == c as int - 32)
    || ('A' <= c <= 'Z' && r == c as int + 32)
    || ((c == 's' || c == 'S') && r == 0x17F)
    || ((c == 'k' || c == 'K') && r == 0x212A)
  }

  /** A key is taken for a name when it is the name but for case, long s and the Kelvin sign included. */
  lemma KeyIsIff(key: string, name: string)
    requires Ascii(name)
    ensures KeyIs(key, name) <==>
            |Runes(key)| == |name| && forall i | 0 <= i < |name| :: SameLetter(Runes(key)[i], name[i])
  {
    AsciiRunes(name);
    hide Runes;
    forall i | 0 <= i < |name| && |Runes(key)| == |name|
      ensures FoldRune(Runes(key)[i]) == FoldRune(name[i] as int) <==> SameLetter(Runes(key)[i], name[i])
    {
      SameLetterIff(Runes(key)[i], name[i]);
    }
    hide FoldRune;
    hide SameLetter;
  }

  lemma SameLetterIff(r: Rune, c: char)
    requires c as int < 0x80
    ensures FoldRune(r) == FoldRune(c as int) <==> SameLetter(r, c)
  {
  }

  /** Which name a key stands for. */
  lemma NameOfIff(key: string, n: Name)
    requires n != NoName
    ensures NameOf(key) == n <==> KeyIs(key, Spelling(n))
  {
    hide KeyIs;
    var m := NameOf(key);
    KnownKey(n);
    if m != NoName && KeyIs(key, Spelling(n)) {
      SameKeySameName(key, Spelling(n), Spelling(m));
    }
  }

  lemma SameKeySameName(key: string, a: string, b: string)
    requires KeyIs(key, a) && KeyIs(key, b)
    ensures KeyIs(a, b)
  {
    hide Runes;
    hide FoldRune;
  }
}
