/**
  The sending half of the protocol: from a message to the bytes written on a socket.
 */
module Frames {
  import opened Text
  import opened Json
  import Address
  import Envelope
  import GoQuote
  import opened Scanner

  datatype Message = Message(
    text: string, priority: string, sessionID: string,
    from: string, fromName: string, msgID: string, uuid: string)

  /** The wire form of a user message, its constant fields apart. */
  datatype UserFrame = UserFrame(
    msgID: string, content: string, priority: string,
    from: string, sessionID: string, uuid: string)

  datatype SendError =
    | EmptyText | UnknownPriority | BadFrom | NoRandomness
    | FrameTooLong | NoInbox | LookupFailed | EmptyName

  /** The text a message carries: wrapped in an envelope when the sender gave a name. */
  function Content(m: Message, p: GoQuote.PrintTable): string {
    if m.fromName == "" then m.text else Envelope.Wrap(m.from, m.fromName, m.text, p)
  }

  /** `Message.frame`; `newID` is what generating a message id would yield. */
  function Frame(m: Message, newID: Option<string>, p: GoQuote.PrintTable): Result<UserFrame, SendError> {
    if m.text == "" then Err(EmptyText)
    else if m.priority != "" && m.priority != "now" && m.priority != "next" && m.priority != "later" then
      Err(UnknownPriority)
    else if m.from != "" && !Address.ValidAddress(m.from) then Err(BadFrom)
    else if m.msgID == "" && newID.None? then Err(NoRandomness)
    else
      var priority := if m.priority == "" then "next" else m.priority;
      var msgID := if m.msgID == "" then newID.value else m.msgID;
      Ok(UserFrame(msgID, Content(m, p), priority, m.from, m.sessionID, m.uuid))
  }

  // ----------------------------------------------------------------- JSON forms

  function OmitEmpty(key: string, v: string, rest: Fields): Fields {
    if v == "" then rest else Field(key, Str(v), rest)
  }

  function PayloadFields(content: string): Fields {
    Field("role", Str("user"), Field("content", Str(content), NoFields))
  }

  function OptionalFields(f: UserFrame): Fields {
    OmitEmpty("from", f.from, OmitEmpty("session_id", f.sessionID, OmitEmpty("uuid", f.uuid, NoFields)))
  }

  function UserFields(f: UserFrame): Fields {
    Field("msgV", Num("1"),
    Field("msg_id", Str(f.msgID),
    Field("type", Str("user"),
    Field("message", Obj(PayloadFields(f.content)),
    Field("priority", Str(f.priority), OptionalFields(f))))))
  }

  function AuthFields(token: string): Fields {
    Field("type", Str("auth"), Field("token", Str(token), NoFields))
  }

  /** A control frame asking a session to answer to another name. */
  function RenameFields(msgID: string, name: string, sessionID: string): Fields {
    Field("msgV", Num("1"),
    Field("msg_id", Str(msgID),
    Field("type", Str("control"),
    Field("action", Str("rename"),
    OmitEmpty("name", name, OmitEmpty("session_id", sessionID, NoFields))))))
  }

  /** Plain fields nested at most `d` deep. */
  predicate FlatFields(fs: Fields, d: nat) { PlainFields(fs) && FieldsDepth(fs) <= d }

  lemma FlatCons(key: string, v: Json, rest: Fields, d: nat)
    requires Plain(v) && Depth(v) <= d && FlatFields(rest, d)
    ensures FlatFields(Field(key, v, rest), d)
  {
  }

  lemma FlatOmit(key: string, v: string, rest: Fields, d: nat)
    requires FlatFields(rest, d)
    ensures FlatFields(OmitEmpty(key, v, rest), d)
  {
  }

  lemma UserFieldsAreFlat(f: UserFrame)
    ensures FlatFields(UserFields(f), 1)
  {
    hide FlatFields;
    hide OmitEmpty;
    NoFieldsAreFlat();
    FlatOmit("uuid", f.uuid, NoFields, 1);
    var fs := OmitEmpty("uuid", f.uuid, NoFields);
    FlatOmit("session_id", f.sessionID, fs, 1);
    fs := OmitEmpty("session_id", f.sessionID, fs);
    FlatOmit("from", f.from, fs, 1);
    FlatCons("priority", Str(f.priority), OptionalFields(f), 1);
    fs := Field("priority", Str(f.priority), OptionalFields(f));
    PayloadIsFlat(f.content);
    FlatCons("message", Obj(PayloadFields(f.content)), fs, 1);
    fs := Field("message", Obj(PayloadFields(f.content)), fs);
    FlatCons("type", Str("user"), fs, 1);
    fs := Field("type", Str("user"), fs);
    FlatCons("msg_id", Str(f.msgID), fs, 1);
    fs := Field("msg_id", Str(f.msgID), fs);
    FlatCons("msgV", Num("1"), fs, 1);
  }

  lemma RenameIsPlain(msgID: string, name: string, sessionID: string)
    ensures Plain(Obj(RenameFields(msgID, name, sessionID)))
    ensures Depth(Obj(RenameFields(msgID, name, sessionID))) <= 2
  {
    hide FlatFields;
    hide OmitEmpty;
    NoFieldsAreFlat();
    FlatOmit("session_id", sessionID, NoFields, 1);
    var fs := OmitEmpty("session_id", sessionID, NoFields);
    FlatOmit("name", name, fs, 1);
    fs := OmitEmpty("name", name, fs);
    FlatCons("action", Str("rename"), fs, 1);
    fs := Field("action", Str("rename"), fs);
    FlatCons("type", Str("control"), fs, 1);
    fs := Field("type", Str("control"), fs);
    FlatCons("msg_id", Str(msgID), fs, 1);
    fs := Field("msg_id", Str(msgID), fs);
    FlatCons("msgV", Num("1"), fs, 1);
    FlatIsPlain(Field("msgV", Num("1"), fs));
  }

  lemma FlatIsPlain(fs: Fields)
    requires FlatFields(fs, 1)
    ensures Plain(Obj(fs)) && Depth(Obj(fs)) <= 2
  {
  }

  lemma NoFieldsAreFlat()
    ensures FlatFields(NoFields, 0) && FlatFields(NoFields, 1)
  {
  }

  lemma PayloadIsFlat(content: string)
    ensures Plain(Obj(PayloadFields(content))) && Depth(Obj(PayloadFields(content))) <= 1
  {
    FlatCons("content", Str(content), NoFields, 0);
    FlatCons("role", Str("user"), Field("content", Str(content), NoFields), 0);
  }

  lemma FramesArePlain(f: UserFrame, token: string)
    ensures Plain(Obj(UserFields(f))) && Depth(Obj(UserFields(f))) <= 2
    ensures Plain(Obj(AuthFields(token))) && Depth(Obj(AuthFields(token))) <= 2
  {
    UserFieldsAreFlat(f);
    hide UserFields;
    FlatCons("token", Str(token), NoFields, 1);
    FlatCons("type", Str("auth"), Field("token", Str(token), NoFields), 1);
  }

  /** The line a user frame is sent as. */
  function UserLine(f: UserFrame): string {
    FramesArePlain(f, "");
    Print(Obj(UserFields(f)))
  }

  /** The line that presents a token. */
  function AuthLine(token: string): string {
    FramesArePlain(UserFrame("", "", "", "", "", ""), token);
    Print(Obj(AuthFields(token)))
  }

  /** The line a rename is sent as. */
  function RenameLine(msgID: string, name: string, sessionID: string): string {
    RenameIsPlain(msgID, name, sessionID);
    Print(Obj(RenameFields(msgID, name, sessionID)))
  }

  // ------------------------------------------------------------------- one line

  /** A printed frame is one line: scanning hands it out unchanged. */
  lemma OneLine(line: string, rest: string)
    requires NoControls(line)
    ensures Lines(line + "\n" + rest)
         == if |line| < MAX_FRAME_BYTES then [line] + Lines(rest) else []
  {
    hide IndexOf;
    var s := line + "\n" + rest;
    assert s[..|line|] == line && s[|line| + 1..] == rest;
    IndexOfUnique(s, '\n', |line|);
    assert DropCR(line) == line;
  }

  lemma AuthLineNoControls(token: string)
    ensures NoControls(AuthLine(token))
  {
    FramesArePlain(UserFrame("", "", "", "", "", ""), token);
    PrintNoControls(Obj(AuthFields(token)));
    hide NoControls;
    hide Print;
  }

  lemma UserLineNoControls(f: UserFrame)
    ensures NoControls(UserLine(f))
  {
    FramesArePlain(f, "");
    PrintNoControls(Obj(UserFields(f)));
    hide NoControls;
    hide Print;
  }

  lemma RenameLineNoControls(msgID: string, name: string, sessionID: string)
    ensures NoControls(RenameLine(msgID, name, sessionID))
  {
    RenameIsPlain(msgID, name, sessionID);
    PrintNoControls(Obj(RenameFields(msgID, name, sessionID)));
    hide NoControls;
    hide Print;
  }

  lemma PayloadAlone(payload: string)
    requires NoControls(payload) && |payload| < MAX_FRAME_BYTES
    ensures Lines(payload + "\n") == [payload]
  {
    OneLine(payload, "");
    EmptyStream();
    hide Lines;
    assert payload + "\n" + "" == payload + "\n";
  }

  lemma EmptyStream()
    ensures Lines("") == []
  {
  }

  // -------------------------------------------------------------------- writing

  datatype Client = Client(token: string, noAuth: bool)

  /**
    `resolveToken`: nothing when authentication is off, else the explicit override, else
    the token this process was handed for its own session, else the published one.
   */
  function ResolveToken(c: Client, path: string, selfPath: string, selfToken: string,
                        published: Result<string, SendError>): Result<string, SendError> {
    if c.noAuth then Ok("")
    else if c.token != "" then Ok(c.token)
    else if selfPath != "" && selfPath == path && selfToken != "" then Ok(selfToken)
    else published
  }

  /** The bytes written for a payload line: the auth line first when there is a token. */
  function Wire(payload: string, token: Result<string, SendError>): Result<string, SendError> {
    if |payload| >= MAX_FRAME_BYTES then Err(FrameTooLong)
    else
      match token
      case Err(e) => Err(e)
      case Ok(t) => Ok((if t == "" then "" else AuthLine(t) + "\n") + (payload + "\n"))
  }

  lemma LinesOfWire(payload: string, token: string)
    requires NoControls(payload) && |payload| < MAX_FRAME_BYTES
    ensures Lines(Wire(payload, Ok(token)).value) ==
            if token == "" then [payload]
            else if |AuthLine(token)| < MAX_FRAME_BYTES then [AuthLine(token), payload]
            else []
  {
    hide AuthLine;
    hide Lines;
    hide NoControls;
    PayloadAlone(payload);
    if token == "" {
      assert "" + (payload + "\n") == payload + "\n";
    } else {
      AuthLineNoControls(token);
      OneLine(AuthLine(token), payload + "\n");
    }
  }

  /** The longest payload the sender lets through is the longest line the receiver hands out. */
  lemma LimitsMeet(payload: string)
    requires NoControls(payload)
    ensures Wire(payload, Ok("")).Ok? <==> |payload| < MAX_FRAME_BYTES
    ensures Lines(payload + "\n") == if Wire(payload, Ok("")).Ok? then [payload] else []
  {
    hide Lines;
    if |payload| < MAX_FRAME_BYTES {
      PayloadAlone(payload);
    } else {
      OneLine(payload, "");
      assert payload + "\n" + "" == payload + "\n";
    }
  }

  /**
    `writeFrame`, up to handing the bytes to the connection: refused exactly for an
    over-long payload or a failed token lookup, and otherwise scanned as the lines it is
    made of.
   */
  method WriteFrame(payload: string, token: Result<string, SendError>) returns (r: Result<string, SendError>)
    ensures r == Wire(payload, token)
    ensures r.Ok? <==> |payload| < MAX_FRAME_BYTES && token.Ok?
    ensures r.Ok? && NoControls(payload) ==>
              Lines(r.value) == if token.value == "" then [payload]
                                else if |AuthLine(token.value)| < MAX_FRAME_BYTES then [AuthLine(token.value), payload]
                                else []
  {
    hide AuthLine;
    hide Lines;
    hide NoControls;
    if |payload| >= MAX_FRAME_BYTES {
      return Err(FrameTooLong);
    }
    if token.Err? {
      return Err(token.error);
    }
    var line := "";
    if token.value != "" {
      var auth := AuthLine(token.value);
      line := line + auth;
      line := line + "\n";
      assert line == AuthLine(token.value) + "\n";
    }
    ConcatAssoc(line, payload, "\n");
    line := line + payload;
    line := line + "\n";
    r := Ok(line);
    if NoControls(payload) {
      LinesOfWire(payload, token.value);
    }
  }

  datatype Sent = Sent(msgID: string, bytes: string)

  /** `Client.SendToSocket`, up to handing the bytes to the connection. */
  function SendToSocket(m: Message, token: Result<string, SendError>, newID: Option<string>,
                        p: GoQuote.PrintTable): Result<Sent, SendError> {
    match Frame(m, newID, p)
    case Err(e) => Err(e)
    case Ok(f) =>
      match Wire(UserLine(f), token)
      case Err(e) => Err(e)
      case Ok(bytes) => Ok(Sent(f.msgID, bytes))
  }

  /** `Client.Send`: an unset session id is filled in from the target's registry entry. */
  function Stamp(m: Message, sessionID: string): Message {
    if m.sessionID == "" then m.(sessionID := sessionID) else m
  }

  function Send(m: Message, socketPath: string, sessionID: string, token: Result<string, SendError>,
                newID: Option<string>, p: GoQuote.PrintTable): Result<Sent, SendError> {
    if socketPath == "" then Err(NoInbox) else SendToSocket(Stamp(m, sessionID), token, newID, p)
  }

  /** `Client.rename`, up to handing the bytes to the connection. */
  function Rename(name: string, sessionID: string, token: Result<string, SendError>,
                  newID: Option<string>): Result<string, SendError> {
    if name == "" then Err(EmptyName)
    else if newID.None? then Err(NoRandomness)
    else Wire(RenameLine(newID.value, name, sessionID), token)
  }

  /** `Client.RenameSession`: the session id found guards against a stale entry. */
  function RenameSession(name: string, socketPath: string, sessionID: string, token: Result<string, SendError>,
                         newID: Option<string>): Result<string, SendError> {
    if socketPath == "" then Err(NoInbox) else Rename(name, sessionID, token, newID)
  }
}
