/**
  The wire path from end to end: what a receiving inbox calls back with for the bytes a
  sender writes, however those bytes are cut into reads.
 */
module Delivery {
  import opened Text
  import opened Utf8
  import opened Json
  import opened Scanner
  import opened Inbox
  import opened Frames
  import opened WireFormat
  import opened Decoding
  import opened Repairing
  import Address
  import Directory
  import Envelope
  import SenderName
  import GoQuote
  import Keys

  // ------------------------------------------------------------------ end to end

  /** The content a receiver is handed: the sender's text, or its envelope, with malformed UTF-8 repaired. */
  function Received(m: Message, p: GoQuote.PrintTable): string {
    if m.fromName == "" then Repair(m.text) else Envelope.Wrap(m.from, m.fromName, Repair(m.text), p)
  }

  lemma ReceivedIsRepairedContent(m: Message, p: GoQuote.PrintTable)
    requires m.from == "" || Address.ValidAddress(m.from)
    ensures Repair(Content(m, p)) == Received(m, p)
    ensures Repair(m.from) == m.from
  {
    hide Repair;
    hide Envelope.Wrap;
    RepairOfWrap(m.from, m.fromName, m.text, p);
    if m.from == "" {
      EmptyRepair();
    } else {
      Address.ValidIsAscii(m.from[4..]);
      assert m.from == "uds:" + m.from[4..];
      AsciiRunes(m.from);
    }
  }

  /** Whether the bytes sent reach the callback: the auth line, if any, must fit one line. */
  predicate Reaches(token: string) { token == "" || |AuthLine(token)| < MAX_FRAME_BYTES }

  /**
    Every message a client accepts is delivered exactly once, with the text and sender
    it was given and no other call, exactly when its token leaves room for the auth
    line; otherwise the receiver hands out nothing at all.
   */
  lemma EndToEnd(m: Message, token: string, newID: Option<string>, p: GoQuote.PrintTable, c: Config)
    ensures SendToSocket(m, Ok(token), newID, p).Ok? ==>
              Calls(Lines(SendToSocket(m, Ok(token), newID, p).value.bytes), c)
              == if Reaches(token) && c.onMessage then [OnMessage(Received(m, p), m.from)] else []
  {
    if SendToSocket(m, Ok(token), newID, p).Ok? {
      var f := Frame(m, newID, p).value;
      UserLineNoControls(f);
      LinesOfWire(UserLine(f), token);
      UserLineCalls(f, c);
      AuthLineCalls(token, c);
      ReceivedIsRepairedContent(m, p);
      hide LineCalls;
      hide UserLine;
      hide AuthLine;
      hide Repair;
      hide Received;
      hide Content;
      CallsOfWire(AuthLine(token), UserLine(f), c);
    }
  }

  /** Exactly which messages are accepted. */
  lemma AcceptedIff(m: Message, token: string, newID: Option<string>, p: GoQuote.PrintTable)
    ensures SendToSocket(m, Ok(token), newID, p).Ok? <==>
            && m.text != ""
            && m.priority in {"", "now", "next", "later"}
            && (m.from == "" || Address.ValidAddress(m.from))
            && (m.msgID != "" || newID.Some?)
            && |UserLine(Frame(m, newID, p).value)| < MAX_FRAME_BYTES
  {
    hide UserLine;
    hide AuthLine;
    hide Content;
    hide Address.ValidAddress;
  }

  /** Why a message is refused, in the order of the checks. */
  lemma RefusedBecause(m: Message, token: Result<string, SendError>, newID: Option<string>, p: GoQuote.PrintTable)
    ensures var r := SendToSocket(m, token, newID, p);
            var known := m.priority in {"", "now", "next", "later"};
            var fromOk := m.from == "" || Address.ValidAddress(m.from);
            && (m.text == "" ==> r == Err(EmptyText))
            && (m.text != "" && !known ==> r == Err(UnknownPriority))
            && (m.text != "" && known && !fromOk ==> r == Err(BadFrom))
            && (m.text != "" && known && fromOk && m.msgID == "" && newID.None? ==> r == Err(NoRandomness))
  {
    hide UserLine;
    hide AuthLine;
    hide Content;
    hide Address.ValidAddress;
  }

  lemma CallsOfWire(auth: string, payload: string, c: Config)
    ensures Calls([], c) == []
    ensures Calls([payload], c) == LineCalls(payload, c)
    ensures Calls([auth, payload], c) == LineCalls(auth, c) + LineCalls(payload, c)
  {
    hide LineCalls;
    assert [auth, payload][1..] == [payload];
    assert [payload][1..] == [];
  }

  lemma QuotedLength(s: string)
    requires PlainText(s)
    ensures |Quoted(s)| == |s| + 2
  {
    PlainTextIsPrintedAsIs(s);
  }

  lemma AuthLineLength(token: string)
    ensures |AuthLine(token)| == |Quoted(token)| + 24
  {
    hide Quoted;
    hide AuthLine;
    AuthLineIs(token);
  }

  /** For a token of plain text, how long it may be. */
  lemma ReachesIffShort(token: string)
    requires PlainText(token)
    ensures Reaches(token) <==> token == "" || |token| < MAX_FRAME_BYTES - 26
  {
    hide AuthLine;
    hide Quoted;
    QuotedLength(token);
    AuthLineLength(token);
  }

  /** A looked-up token is 32 hexadecimal digits, or none: its auth line always fits. */
  lemma PublishedTokenReaches(token: string)
    requires token == "" || Keys.PeerToken(token)
    ensures Reaches(token)
  {
    hide Reaches;
    ReachesIffShort(token);
  }

  /**
    A client's messages reach whatever token was published for the target, unless a token
    of another origin is sent whose auth line does not fit: one that overrides the lookup,
    or the one this process was handed for its own session.
   */
  lemma ResolvedTokenReachesIff(c: Client, path: string, selfPath: string, selfToken: string, published: string)
    requires published == "" || Keys.PeerToken(published)
    ensures var token := ResolveToken(c, path, selfPath, selfToken, Ok(published));
            && token.Ok?
            && (Reaches(token.value) <==>
                  || c.noAuth
                  || (if c.token != "" then Reaches(c.token)
                      else selfPath != "" && selfPath == path ==> Reaches(selfToken)))
  {
    hide Reaches;
    PublishedTokenReaches(published);
    PublishedTokenReaches("");
  }

  // --------------------------------------------------- a token that does not fit

  /** The message of the example below, and its frame. */
  const GREETING: Message := Message("hi", "", "", "", "", "id", "")
  const GREETING_FRAME: UserFrame := UserFrame("id", "hi", "next", "", "", "")

  lemma GreetingLineLength()
    ensures |UserLine(GREETING_FRAME)| == 97
  {
    hide Quoted;
    hide UserLine;
    UserLineIs(GREETING_FRAME);
    QuotedLength("hi");
    QuotedLength("id");
    QuotedLength("next");
  }

  /** A token of a mebibyte: the message is accepted and nothing of it is received. */
  lemma OverlongTokenLosesTheMessage(p: GoQuote.PrintTable, c: Config)
    ensures var token := seq(MAX_FRAME_BYTES, _ => 'a');
            var r := SendToSocket(GREETING, Ok(token), None, p);
            r.Ok? && !Reaches(token) && Calls(Lines(r.value.bytes), c) == []
  {
    hide UserLine;
    hide AuthLine;
    hide Lines;
    hide Calls;
    hide Received;
    var token := seq(MAX_FRAME_BYTES, _ => 'a');
    GreetingLineLength();
    AcceptedIff(GREETING, token, None, p);
    ReachesIffShort(token);
    EndToEnd(GREETING, token, None, p, c);
  }

  // ------------------------------------------------------- the fields on the wire

  /** What `resolveToken` is handed from a lookup. */
  function Looked(answer: Result<string, Keys.LookupError>): Result<string, SendError> {
    match answer
    case Err(_) => Err(LookupFailed)
    case Ok(token) => Ok(token)
  }

  /** The entry is a key file of this PID, well formed, published for a spelling of this path. */
  predicate KeyFileFor(e: Keys.Entry, pid: nat, path: string, cwd: string, h: Keys.HashFn) {
    && pid <= MAX_INT && Keys.Canonical(path, cwd).Ok?
    && e.content.Some? && Keys.PeerToken(e.content.value.peerToken)
    && Ok(e.name) == Keys.KeyFileName(pid, path, cwd, h)
  }

  /** Whom a client sends to, and where the tokens come from that it may present. */
  datatype Target = Target(path: string, selfPath: string, selfToken: string,
                           dir: seq<Keys.Entry>, os: Keys.Processes)

  function ClientToken(c: Client, t: Target, cwd: string, h: Keys.HashFn): Result<string, SendError> {
    ResolveToken(c, t.path, t.selfPath, t.selfToken,
                 Looked(Keys.Answer(t.path, cwd, h, Directory.Listed(t.dir), t.os)))
  }

  /**
    Towards a target that has published a key file, under whatever spelling of its path, a
    client without an override presents a well-formed token, or none when authentication
    is off, and its auth line fits.  A client sending to its own session presents the token
    it was handed instead, if any, which then must fit.
   */
  lemma PublishedTargetHasToken(c: Client, t: Target, j: nat, pid: nat, published: string,
                                cwd: string, h: Keys.HashFn)
    requires j < |t.dir| && KeyFileFor(t.dir[j], pid, published, cwd, h)
    requires Keys.Canonical(published, cwd) == Keys.Canonical(t.path, cwd)
    requires c.token == "" && (t.selfPath != "" && t.selfPath == t.path ==> Reaches(t.selfToken))
    ensures var token := ClientToken(c, t, cwd, h);
            && token.Ok? && Reaches(token.value)
            && (!c.noAuth && t.selfPath != t.path ==> Keys.PeerToken(token.value))
  {
    hide Keys.Canonical;
    hide Keys.KeyFileName;
    hide Keys.Answer;
    hide Keys.PeerToken;
    hide Reaches;
    var kf := t.dir[j].content.value;
    assert t.dir[j] == Keys.Entry(Keys.KeyFileName(pid, published, cwd, h).value, Some(kf));
    Keys.PublishedTokenIsFound(t.dir, j, kf, pid, published, t.path, cwd, h, t.os);
    var answer := Keys.Answer(t.path, cwd, h, Directory.Listed(t.dir), t.os);
    ResolvedTokenReachesIff(c, t.path, t.selfPath, t.selfToken, answer.value);
  }

  /** A token that reaches makes no difference to what a client accepts or to what is delivered. */
  lemma ReachingTokenDelivers(m: Message, token: Result<string, SendError>, newID: Option<string>,
                              p: GoQuote.PrintTable, config: Config)
    requires token.Ok? && Reaches(token.value)
    ensures SendToSocket(m, token, newID, p).Ok? <==> SendToSocket(m, Ok(""), newID, p).Ok?
    ensures Delivers(m, token, newID, p, config)
  {
    EndToEnd(m, token.value, newID, p, config);
    LookupNeverRefuses(m, token.value, newID, p);
    hide *;
  }

  /** An accepted message makes its one call. */
  predicate Delivers(m: Message, token: Result<string, SendError>, newID: Option<string>,
                     p: GoQuote.PrintTable, config: Config) {
    var r := SendToSocket(m, token, newID, p);
    r.Ok? ==> Calls(Lines(r.value.bytes), config)
              == if config.onMessage then [OnMessage(Received(m, p), m.from)] else []
  }

  /**
    Such a target gets every message the client accepts, and the client accepts exactly
    those it would without a token.
   */
  lemma PublishedTargetIsReached(m: Message, c: Client, t: Target, j: nat, pid: nat, published: string,
                                 cwd: string, h: Keys.HashFn, newID: Option<string>,
                                 p: GoQuote.PrintTable, config: Config)
    requires j < |t.dir| && KeyFileFor(t.dir[j], pid, published, cwd, h)
    requires Keys.Canonical(published, cwd) == Keys.Canonical(t.path, cwd)
    requires c.token == "" && (t.selfPath != "" && t.selfPath == t.path ==> Reaches(t.selfToken))
    ensures var token := ClientToken(c, t, cwd, h);
            && (SendToSocket(m, token, newID, p).Ok? <==> SendToSocket(m, Ok(""), newID, p).Ok?)
            && Delivers(m, token, newID, p, config)
  {
    hide *;
    PublishedTargetHasToken(c, t, j, pid, published, cwd, h);
    ReachingTokenDelivers(m, ClientToken(c, t, cwd, h), newID, p, config);
  }

  lemma LookupNeverRefuses(m: Message, token: string, newID: Option<string>, p: GoQuote.PrintTable)
    ensures SendToSocket(m, Ok(token), newID, p).Ok? <==> SendToSocket(m, Ok(""), newID, p).Ok?
  {
    hide UserLine;
    hide AuthLine;
    hide Content;
  }

  /** Which token is presented: none without authentication, the override, one's own, or the published one. */
  lemma TokenPresented(c: Client, path: string, selfPath: string, selfToken: string,
                       published: Result<string, SendError>)
    ensures var token := ResolveToken(c, path, selfPath, selfToken, published);
            && (c.noAuth ==> token == Ok(""))
            && (!c.noAuth && c.token != "" ==> token == Ok(c.token))
            && (!c.noAuth && c.token == "" && path == selfPath != "" && selfToken != "" ==> token == Ok(selfToken))
            && (!c.noAuth && c.token == "" && (path != selfPath || path == "" || selfToken == "") ==>
                  token == published)
  {
  }

  /** The value of a field in a document. */
  function Get(fs: Fields, key: string): Option<Json> {
    match fs
    case NoFields => None
    case Field(k, v, rest) => if k == key then Some(v) else Get(rest, key)
  }

  lemma GetStep(key: string, v: Json, rest: Fields, wanted: string)
    requires Ascii(key)
    ensures Get(RepairedFields(Field(key, v, rest)), wanted)
         == if key == wanted then Some(Repaired(v)) else Get(RepairedFields(rest), wanted)
  {
    hide Repair;
    RepairKey(key);
  }

  /** What a field that is left out when empty reads as. */
  function TextOrAbsent(s: string): Option<Json> { if s == "" then None else Some(Str(Repair(s))) }

  lemma GetOmitted(key: string, v: string, rest: Fields, wanted: string)
    requires Ascii(key)
    ensures Get(RepairedFields(OmitEmpty(key, v, rest)), wanted)
         == if key == wanted && v != "" then TextOrAbsent(v) else Get(RepairedFields(rest), wanted)
  {
    hide Repair;
    hide RepairedFields;
    if v != "" {
      GetStep(key, Str(v), rest, wanted);
    }
  }

  lemma GetNothing(wanted: string)
    ensures Get(RepairedFields(NoFields), wanted) == None
  {
  }

  lemma GetOptional(f: UserFrame, wanted: string)
    ensures Get(RepairedFields(OptionalFields(f)), wanted) ==
            if wanted == "from" then TextOrAbsent(f.from)
            else if wanted == "session_id" then TextOrAbsent(f.sessionID)
            else if wanted == "uuid" then TextOrAbsent(f.uuid)
            else None
  {
    NamesAreAscii();
    OptionalKeysAreIgnored();
    assert "from" != "session_id" && "from"[0] != "uuid"[0] && "session_id" != "uuid";
    hide Ascii;
    hide Repair;
    hide RepairedFields;
    hide OmitEmpty;
    hide Get;
    var uuid := OmitEmpty("uuid", f.uuid, NoFields);
    var session := OmitEmpty("session_id", f.sessionID, uuid);
    GetOmitted("from", f.from, session, wanted);
    GetOmitted("session_id", f.sessionID, uuid, wanted);
    GetOmitted("uuid", f.uuid, NoFields, wanted);
    GetNothing(wanted);
  }

  lemma GetPastStart(f: UserFrame, wanted: string)
    ensures Get(RepairedFields(UserFields(f)), wanted) ==
            if wanted == "msgV" then Some(Num("1"))
            else if wanted == "msg_id" then Some(Str(Repair(f.msgID)))
            else if wanted == "type" then Some(Str("user"))
            else Get(RepairedFields(Field("message", Obj(PayloadFields(f.content)),
                                    Field("priority", Str(f.priority), OptionalFields(f)))), wanted)
  {
    NamesAreAscii();
    OptionalKeysAreIgnored();
    RepairKey("user");
    hide Ascii;
    hide Repair;
    hide RepairedFields;
    hide OptionalFields;
    hide PayloadFields;
    hide Get;
    var fs3 := Field("message", Obj(PayloadFields(f.content)),
               Field("priority", Str(f.priority), OptionalFields(f)));
    var fs2 := Field("type", Str("user"), fs3);
    GetStep("msgV", Num("1"), Field("msg_id", Str(f.msgID), fs2), wanted);
    GetStep("msg_id", Str(f.msgID), fs2, wanted);
    GetStep("type", Str("user"), fs3, wanted);
  }

  lemma GetUserField(f: UserFrame, wanted: string)
    requires wanted != "msgV" && wanted != "msg_id" && wanted != "type" && wanted != "message"
    ensures Get(RepairedFields(UserFields(f)), wanted) ==
            if wanted == "priority" then Some(Str(Repair(f.priority)))
            else Get(RepairedFields(OptionalFields(f)), wanted)
  {
    NamesAreAscii();
    OptionalKeysAreIgnored();
    hide Ascii;
    hide Repair;
    hide RepairedFields;
    hide OptionalFields;
    hide PayloadFields;
    hide UserFields;
    hide Get;
    GetPastStart(f, wanted);
    var fs4 := Field("priority", Str(f.priority), OptionalFields(f));
    GetStep("message", Obj(PayloadFields(f.content)), fs4, wanted);
    GetStep("priority", Str(f.priority), OptionalFields(f), wanted);
  }

  lemma GetMessage(f: UserFrame)
    ensures Get(RepairedFields(UserFields(f)), "message")
         == Some(Obj(Field("role", Str("user"), Field("content", Str(Repair(f.content)), NoFields))))
  {
    NamesAreAscii();
    RepairedPayload(f.content);
    MessageKeyDiffers();
    hide Ascii;
    hide Repair;
    hide RepairedFields;
    hide OptionalFields;
    hide PayloadFields;
    hide UserFields;
    hide Get;
    GetPastStart(f, "message");
    GetMessageStep(Obj(PayloadFields(f.content)), Field("priority", Str(f.priority), OptionalFields(f)));
  }

  lemma GetMessageStep(v: Json, rest: Fields)
    ensures Get(RepairedFields(Field("message", v, rest)), "message") == Some(Repaired(v))
  {
    NamesAreAscii();
    hide *;
    GetStep("message", v, rest, "message");
  }

  lemma MessageKeyDiffers()
    ensures "message" != "msgV" && "message" != "msg_id" && "message" != "type"
  {
    assert |"message"| == 7 && |"msgV"| == 4 && |"msg_id"| == 6 && |"type"| == 4;
  }

  /** What the line of a user frame reads back as. */
  function WireFields(f: UserFrame): Fields { RepairedFields(UserFields(f)) }

  lemma UserLineReads(f: UserFrame)
    ensures ReadDocument(UserLine(f)) == Some(Obj(WireFields(f)))
  {
    hide UserFields;
    hide ReadDocument;
    hide Repair;
    hide Print;
    hide Plain;
    hide Depth;
    FramesArePlain(f, "");
    ReadDocumentInvertsPrint(Obj(UserFields(f)));
  }

  lemma GetWireFields(f: UserFrame)
    ensures Get(RepairedFields(UserFields(f)), "msgV") == Some(Num("1"))
    ensures Get(RepairedFields(UserFields(f)), "type") == Some(Str("user"))
    ensures Get(RepairedFields(UserFields(f)), "message")
         == Some(Obj(Field("role", Str("user"), Field("content", Str(Repair(f.content)), NoFields))))
    ensures Get(RepairedFields(UserFields(f)), "msg_id") == Some(Str(Repair(f.msgID)))
    ensures Get(RepairedFields(UserFields(f)), "priority") == Some(Str(Repair(f.priority)))
    ensures Get(RepairedFields(UserFields(f)), "session_id") == TextOrAbsent(f.sessionID)
    ensures Get(RepairedFields(UserFields(f)), "from") == TextOrAbsent(f.from)
    ensures Get(RepairedFields(UserFields(f)), "uuid") == TextOrAbsent(f.uuid)
  {
    WireKeysDiffer();
    hide UserFields;
    hide OptionalFields;
    hide RepairedFields;
    hide Repair;
    hide Get;
    hide TextOrAbsent;
    GetPastStart(f, "msg_id");
    GetPastStart(f, "msgV");
    GetPastStart(f, "type");
    GetMessage(f);
    GetUserField(f, "priority");
    GetUserField(f, "session_id");
    GetUserField(f, "from");
    GetUserField(f, "uuid");
    GetOptional(f, "session_id");
    GetOptional(f, "from");
    GetOptional(f, "uuid");
  }

  /**
    The line an accepted message is sent as reads back with every setting under its own
    key: the id that was returned, which is the one asked for or else the one generated, the
    content, the priority asked for or the default, and session id, sender and uuid exactly
    when they were set.
   */
  lemma SentFields(m: Message, token: string, newID: Option<string>, p: GoQuote.PrintTable)
    ensures SendToSocket(m, Ok(token), newID, p).Ok? ==>
              var f := Frame(m, newID, p).value;
              var fs := WireFields(f);
              var sent := SendToSocket(m, Ok(token), newID, p).value;
              && ReadDocument(UserLine(f)) == Some(Obj(fs))
              && Get(fs, "msg_id") == Some(Str(Repair(sent.msgID)))
              && (m.msgID != "" ==> sent.msgID == m.msgID)
              && (m.msgID == "" ==> newID == Some(sent.msgID))
              && Get(fs, "msgV") == Some(Num("1")) && Get(fs, "type") == Some(Str("user"))
              && Get(fs, "message") == Some(Obj(Field("role", Str("user"),
                                              Field("content", Str(Repair(Content(m, p))), NoFields))))
              && Get(fs, "priority") == Some(Str(if m.priority == "" then "next" else m.priority))
              && Get(fs, "session_id") == TextOrAbsent(m.sessionID)
              && Get(fs, "from") == TextOrAbsent(m.from)
              && Get(fs, "uuid") == TextOrAbsent(m.uuid)
  {
    PrioritiesAreAscii();
    hide Wire;
    hide UserLine;
    hide ReadDocument;
    hide UserFields;
    hide RepairedFields;
    hide TextOrAbsent;
    hide Repair;
    hide Get;
    hide Content;
    hide Ascii;
    hide KeyIs;
    if SendToSocket(m, Ok(token), newID, p).Ok? {
      var f := Frame(m, newID, p).value;
      UserLineReads(f);
      GetWireFields(f);
      RepairKey(f.priority);
    }
  }

  lemma PrioritiesAreAscii()
    ensures Ascii("now") && Ascii("next") && Ascii("later")
  {
  }

  lemma WireKeysDiffer()
    ensures "msgV" != "from" && "msgV" != "uuid" && "type" != "from" && "type" != "uuid" && "from" != "uuid"
  {
    assert "msgV"[0] == 'm' && "from"[0] == 'f' && "uuid"[0] == 'u' && "type"[0] == 't';
  }

  /** The auth line reads back with its token, which is altered exactly when it is not valid UTF-8. */
  lemma AuthLineReads(token: string)
    ensures var r := ReadDocument(AuthLine(token));
            && r.Some? && r.value.Obj?
            && Get(r.value.fields, "type") == Some(Str("auth"))
            && Get(r.value.fields, "token") == Some(Str(Repair(token)))
    ensures Repair(token) == token <==> Valid(token)
  {
    FramesArePlain(UserFrame("", "", "", "", "", ""), token);
    ReadDocumentInvertsPrint(Obj(AuthFields(token)));
    RepairIsIdentityIffValid(token);
    NamesAreAscii();
    AuthWordsAreAscii();
    hide ReadDocument;
    hide Print;
    hide Repair;
    hide Ascii;
    hide Valid;
    RepairKey("auth");
    var tail := Field("token", Str(token), NoFields);
    GetStep("type", Str("auth"), tail, "type");
    GetStep("type", Str("auth"), tail, "token");
    GetStep("token", Str(token), NoFields, "token");
  }

  lemma AuthWordsAreAscii()
    ensures Ascii("type") && Ascii("token") && Ascii("auth")
    ensures "type" != "token"
  {
  }

  /** The session id a receiver reads in a line; empty when there is none. */
  function FrameID(line: string): string {
    match ReadDocument(line)
    case Some(Obj(fs)) => (match Get(fs, "session_id") case Some(Str(id)) => id case _ => "")
    case _ => ""
  }

  lemma UserLineID(f: UserFrame)
    ensures FrameID(UserLine(f)) == Repair(f.sessionID)
  {
    hide UserLine;
    hide ReadDocument;
    hide UserFields;
    hide RepairedFields;
    hide Repair;
    hide Get;
    EmptyRepair();
    UserLineReads(f);
    GetWireFields(f);
  }

  /** The session id a send to this session asks for: the caller's, or else the session's. */
  function SendID(m: Message, sessionID: string): string {
    if m.sessionID == "" then sessionID else m.sessionID
  }

  /** A session without an inbox socket is refused, and a send to any other is a send to its socket. */
  lemma SendIsToSocket(m: Message, socketPath: string, sessionID: string, token: Result<string, SendError>,
                       newID: Option<string>, p: GoQuote.PrintTable)
    ensures Send(m, socketPath, sessionID, token, newID, p) ==
            if socketPath == "" then Err(NoInbox)
            else SendToSocket(m.(sessionID := SendID(m, sessionID)), token, newID, p)
  {
    hide SendToSocket;
  }

  /** What the last line of a send says about the session it is meant for. */
  lemma SendCarriesID(m: Message, socketPath: string, sessionID: string, token: string,
                      newID: Option<string>, p: GoQuote.PrintTable)
    ensures Send(m, socketPath, sessionID, Ok(token), newID, p).Ok? && Reaches(token) ==>
              var lines := Lines(Send(m, socketPath, sessionID, Ok(token), newID, p).value.bytes);
              lines != [] && FrameID(lines[|lines| - 1]) == Repair(SendID(m, sessionID))
  {
    hide UserLine;
    hide AuthLine;
    hide Lines;
    hide FrameID;
    hide Repair;
    hide Content;
    if Send(m, socketPath, sessionID, Ok(token), newID, p).Ok? && Reaches(token) {
      var f := Frame(Stamp(m, sessionID), newID, p).value;
      UserLineNoControls(f);
      LinesOfWire(UserLine(f), token);
      UserLineID(f);
    }
  }

  /**
    A rename is refused exactly for a session without an inbox, for an empty name, without
    a message id, or as its line is; what is written makes no call at an inbox, and where it
    is scanned at all its last line carries the session id the rename is meant for.
   */
  lemma RenameIsHarmless(name: string, socketPath: string, sessionID: string, token: string,
                         newID: Option<string>, c: Config)
    ensures var r := RenameSession(name, socketPath, sessionID, Ok(token), newID);
            && (r.Ok? <==>
                  && socketPath != "" && name != "" && newID.Some?
                  && |RenameLine(newID.value, name, sessionID)| < 1048576)
            && (r.Ok? ==>
                  && Calls(Lines(r.value), c) == []
                  && (Reaches(token) ==>
                        Lines(r.value) != [] && FrameID(Lines(r.value)[|Lines(r.value)| - 1]) == Repair(sessionID)))
  {
    hide RenameLine;
    hide AuthLine;
    hide Lines;
    hide LineCalls;
    hide FrameID;
    hide Repair;
    if RenameSession(name, socketPath, sessionID, Ok(token), newID).Ok? {
      var line := RenameLine(newID.value, name, sessionID);
      RenameLineNoControls(newID.value, name, sessionID);
      LinesOfWire(line, token);
      RenameLineCalls(newID.value, name, sessionID, c);
      AuthLineCalls(token, c);
      CallsOfWire(AuthLine(token), line, c);
      RenameLineID(newID.value, name, sessionID);
    }
  }

  lemma RenameLineID(msgID: string, name: string, sessionID: string)
    ensures FrameID(RenameLine(msgID, name, sessionID)) == Repair(sessionID)
  {
    RenameIsPlain(msgID, name, sessionID);
    ReadDocumentInvertsPrint(Obj(RenameFields(msgID, name, sessionID)));
    GetRenameID(msgID, name, sessionID);
    EmptyRepair();
    hide ReadDocument;
    hide RenameFields;
    hide RepairedFields;
    hide Print;
    hide Plain;
    hide Depth;
    hide Repair;
    hide Get;
  }

  lemma GetRenameID(msgID: string, name: string, sessionID: string)
    ensures Get(RepairedFields(RenameFields(msgID, name, sessionID)), "session_id") == TextOrAbsent(sessionID)
  {
    NamesAreAscii();
    OptionalKeysAreIgnored();
    RenameWordsAreAscii();
    assert "name"[0] == 'n' && "session_id"[0] == 's' && "msgV"[0] == 'm' && "type"[0] == 't' && "action"[0] == 'a'
           && "msg_id"[0] == 'm';
    hide Ascii;
    hide Repair;
    hide RepairedFields;
    hide OmitEmpty;
    hide TextOrAbsent;
    hide Get;
    var wanted := "session_id";
    var session := OmitEmpty("session_id", sessionID, NoFields);
    var fs4 := OmitEmpty("name", name, session);
    var fs3 := Field("action", Str("rename"), fs4);
    var fs2 := Field("type", Str("control"), fs3);
    GetStep("msgV", Num("1"), Field("msg_id", Str(msgID), fs2), wanted);
    GetStep("msg_id", Str(msgID), fs2, wanted);
    GetStep("type", Str("control"), fs3, wanted);
    GetStep("action", Str("rename"), fs4, wanted);
    GetOmitted("name", name, session, wanted);
    GetOmitted("session_id", sessionID, NoFields, wanted);
    GetNothing(wanted);
    EmptyIsAbsent();
  }

  lemma EmptyIsAbsent()
    ensures TextOrAbsent("") == None
  {
  }

  /** A stream cut into reads of the given sizes; a size that does not fit takes the rest. */
  function Cut(s: string, sizes: seq<nat>): (chunks: seq<string>)
    ensures NonEmpty(chunks) && Concat(chunks) == s
    decreases |s|
  {
    if s == "" then []
    else
      var n := if sizes == [] || sizes[0] == 0 || sizes[0] > |s| then |s| else sizes[0];
      var rest := Cut(s[n..], if sizes == [] then [] else sizes[1..]);
      assert ([s[..n]] + rest)[1..] == rest && s == s[..n] + s[n..];
      [s[..n]] + rest
  }

  function Sizes(chunks: seq<string>): seq<nat> {
    if chunks == [] then [] else [|chunks[0]|] + Sizes(chunks[1..])
  }

  /** Every way of delivering a stream is one of its cuts. */
  lemma {:induction false} EveryDeliveryIsACut(chunks: seq<string>)
    requires NonEmpty(chunks)
    ensures Cut(Concat(chunks), Sizes(chunks)) == chunks
  {
    if chunks != [] {
      var c, rest := chunks[0], chunks[1..];
      EveryDeliveryIsACut(rest);
      assert (c + Concat(rest))[..|c|] == c && (c + Concat(rest))[|c|..] == Concat(rest);
      assert Sizes(chunks)[1..] == Sizes(rest);
      assert chunks == [c] + rest;
    }
  }

  /** One send and one connection, the stream arriving in reads of any sizes. */
  method Exchange(m: Message, token: string, newID: Option<string>, p: GoQuote.PrintTable,
                  c: Config, sizes: seq<nat>) returns (calls: seq<Call>)
    ensures calls == if SendToSocket(m, Ok(token), newID, p).Ok? && Reaches(token) && c.onMessage
                     then [OnMessage(Received(m, p), m.from)] else []
  {
    hide SendToSocket;
    hide Reaches;
    hide Received;
    hide Cut;
    EndToEnd(m, token, newID, p, c);
    var r := SendToSocket(m, Ok(token), newID, p);
    if r.Err? {
      return [];
    }
    calls := HandleConnection(Cut(r.value.bytes, sizes), c);
  }

  /**
    A receiver that takes a named message's content apart finds the sender's address,
    the sanitised name, and the text with its closing tags neutralised.
   */
  lemma ReceivedEnvelopeParses(m: Message, p: GoQuote.PrintTable)
    requires m.fromName != "" && (m.from == "" || Address.ValidAddress(m.from))
    ensures Envelope.Parse(Received(m, p)) ==
            Some(Envelope.Parts(m.from, SenderName.Clean(m.fromName), Envelope.EscapeBody(Repair(m.text))))
  {
    hide Envelope.Parse;
    hide Envelope.Wrap;
    hide Repair;
    if m.from != "" {
      Address.ValidIsAscii(m.from[4..]);
      assert m.from == "uds:" + m.from[4..];
    }
    Envelope.ParseInvertsWrap(m.from, m.fromName, Repair(m.text), p);
  }
}
