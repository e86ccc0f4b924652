/**
  The receiving half of the protocol: decoding a line and handling a connection.
 */
module Inbox {
  import opened Text
  import opened Utf8
  import opened Json
  import opened Scanner

  datatype Payload = Payload(role: string, content: string)

  /** The fields of a received frame that are looked at. */
  datatype IncomingFrame = IncomingFrame(
    typ: string, action: string, status: string, origMsgID: string,
    from: string, reason: string, message: Option<Payload>)

  const ZERO: IncomingFrame := IncomingFrame("", "", "", "", "", "", None)

  /** encoding/json's key folding, as far as it can reach an ASCII field name. */
  function FoldRune(r: Rune): Rune {
    if 'a' as int <= r <= 'z' as int then r - 32
    else if r == 0x17F then 'S' as int
    else if r == 0x212A then 'K' as int
    else r
  }

  predicate KeyIs(key: string, name: string) {
    |Runes(key)| == |Runes(name)|
    && forall i | 0 <= i < |Runes(key)| :: FoldRune(Runes(key)[i]) == FoldRune(Runes(name)[i])
  }

  /** A string field takes a string, is left alone by null, and refuses anything else. */
  function AsString(v: Json, current: string): Option<string> {
    match v
    case Str(s) => Some(s)
    case Null => Some(current)
    case _ => None
  }

  function SetPayload(m: Payload, key: string, v: Json): Option<Payload> {
    if KeyIs(key, "role") then
      match AsString(v, m.role) case None => None case Some(s) => Some(m.(role := s))
    else if KeyIs(key, "content") then
      match AsString(v, m.content) case None => None case Some(s) => Some(m.(content := s))
    else Some(m)
  }

  function DecodePayload(fs: Fields, m: Payload): Option<Payload> {
    match fs
    case NoFields => Some(m)
    case Field(k, v, rest) =>
      match SetPayload(m, k, v)
      case None => None
      case Some(m') => DecodePayload(rest, m')
  }

  /** The message field is a pointer: null clears it, an object is decoded into it. */
  function SetMessage(f: IncomingFrame, v: Json): Option<IncomingFrame> {
    match v
    case Null => Some(f.(message := None))
    case Obj(fs) =>
      (match DecodePayload(fs, if f.message.Some? then f.message.value else Payload("", ""))
       case None => None
       case Some(m) => Some(f.(message := Some(m))))
    case _ => None
  }

  /** The fields of an incoming frame that a key can name. */
  datatype Name = TypeName | ActionName | StatusName | OrigMsgIDName | FromName | ReasonName | MessageName | NoName

  function NameOf(key: string): Name {
    if KeyIs(key, "type") then TypeName
    else if KeyIs(key, "action") then ActionName
    else if KeyIs(key, "status") then StatusName
    else if KeyIs(key, "orig_msg_id") then OrigMsgIDName
    else if KeyIs(key, "from") then FromName
    else if KeyIs(key, "reason") then ReasonName
    else if KeyIs(key, "message") then MessageName
    else NoName
  }

  function SetField(f: IncomingFrame, key: string, v: Json): Option<IncomingFrame> {
    match NameOf(key)
    case TypeName => (match AsString(v, f.typ) case None => None case Some(s) => Some(f.(typ := s)))
    case ActionName => (match AsString(v, f.action) case None => None case Some(s) => Some(f.(action := s)))
    case StatusName => (match AsString(v, f.status) case None => None case Some(s) => Some(f.(status := s)))
    case OrigMsgIDName => (match AsString(v, f.origMsgID) case None => None case Some(s) => Some(f.(origMsgID := s)))
    case FromName => (match AsString(v, f.from) case None => None case Some(s) => Some(f.(from := s)))
    case ReasonName => (match AsString(v, f.reason) case None => None case Some(s) => Some(f.(reason := s)))
    case MessageName => SetMessage(f, v)
    case NoName => Some(f)
  }

  function DecodeFields(fs: Fields, f: IncomingFrame): Option<IncomingFrame> {
    match fs
    case NoFields => Some(f)
    case Field(k, v, rest) =>
      match SetField(f, k, v)
      case None => None
      case Some(f') => DecodeFields(rest, f')
  }

  /** `json.Unmarshal` into an incoming frame; None is an error. */
  function DecodeFrame(j: Json): Option<IncomingFrame> {
    match j
    case Obj(fs) => DecodeFields(fs, ZERO)
    case Null => Some(ZERO)
    case _ => None
  }

  // ------------------------------------------------------------------- dispatch

  /** Which callbacks an inbox was configured with. */
  datatype Config = Config(onReceipt: bool, onMessage: bool)

  datatype Call =
    | OnReceipt(status: string, origMsgID: string, receiptFrom: string, reason: string)
    | OnMessage(text: string, from: string)

  /** The callback a decoded frame triggers. */
  function FrameCalls(f: IncomingFrame, c: Config): seq<Call> {
    if f.typ == "control" && f.action == "peer_message_status" then
      if c.onReceipt then [OnReceipt(f.status, f.origMsgID, f.from, f.reason)] else []
    else if f.typ == "user" && f.message.Some? then
      if c.onMessage then [OnMessage(f.message.value.content, f.from)] else []
    else []
  }

  function LineCalls(line: string, c: Config): seq<Call> {
    if line == "" then []
    else
      match ReadDocument(line)
      case None => []
      case Some(j) =>
        match DecodeFrame(j)
        case None => []
        case Some(f) => FrameCalls(f, c)
  }

  function Calls(lines: seq<string>, c: Config): seq<Call> {
    if lines == [] then [] else LineCalls(lines[0], c) + Calls(lines[1..], c)
  }

  /** `Inbox.handle`: the callbacks made for one connection, in order. */
  method Handle(scanner: Scanner, c: Config) returns (calls: seq<Call>)
    requires scanner.Valid()
    modifies scanner, scanner.buf
    ensures calls == Calls(Lines(old(scanner.Rest())), c)
  {
    hide LineCalls;
    hide Lines;
    calls := [];
    while true
      invariant scanner.Valid() && (scanner.buf == old(scanner.buf) || fresh(scanner.buf))
      invariant calls + Calls(Lines(scanner.Rest()), c) == Calls(Lines(old(scanner.Rest())), c)
      decreases |scanner.Rest()|
    {
      ghost var before := Lines(scanner.Rest());
      var ok, line := scanner.Scan();
      if !ok {
        return;
      }
      assert before[1..] == Lines(scanner.Rest());
      if line == "" {
        EmptyLineCallsNothing(c);
        continue;
      }
      ConcatAssoc(calls, LineCalls(line, c), Calls(Lines(scanner.Rest()), c));
      calls := calls + LineCalls(line, c);
    }
  }

  lemma EmptyLineCallsNothing(c: Config)
    ensures LineCalls("", c) == []
  {
  }

  /** A connection as `serve` starts it: whatever sizes its reads have, only the stream matters. */
  method HandleConnection(chunks: seq<string>, c: Config) returns (calls: seq<Call>)
    requires NonEmpty(chunks)
    ensures calls == Calls(Lines(Concat(chunks)), c)
  {
    var scanner := new Scanner(chunks);
    calls := Handle(scanner, c);
  }
}
