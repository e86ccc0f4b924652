# Verification of the cross-session socket transport

A Dafny model of the Go library that delivers messages into running Claude Code
sessions over their Unix sockets, with proofs of what it promises: that an accepted
message whose auth line fits one line arrives exactly once, with only malformed UTF-8
altered, however the stream is cut into reads, that no name or body can forge an
envelope, that lookups by process and by session lead
where they should over whole runs of a machine, and that the concurrent parts keep
their invariants under every interleaving.

Check everything with `dafny verify dfyconfig.toml`.

## How the code is modelled

A Go string is a Dafny `string` with one character per byte. Pure code is functions
and lemmas; loops are methods proved against those functions; the line scanner is a
class over an array buffer; goroutines and threads are step systems in which every
atomic step of every participant may come next.

| file | what it covers |
|---|---|
| `Text.dfy` | searching, splitting and joining, decimal and hexadecimal |
| `Utf8.dfy` | UTF-8 decoding and encoding, malformed bytes included |
| `Json.dfy` | the printer for the flat frames and a complete RFC 8259 reader with encoding/json's depth limit |
| `Grammar.dfy` | the grammar of JSON text, and that the reader accepts exactly its documents |
| `SenderName.dfy` | `sanitizeName` |
| `GoQuote.dfy` | `%q`, for every Unicode printability table |
| `Address.dfy` | the `uds:` address codec, `validAddress`, the `--from` rewrite |
| `Envelope.dfy` | `escapeBody`, `wrapEnvelope`, and a parser for envelopes |
| `Repairing.dfy` | how invalid UTF-8 in a body passes through an envelope and JSON |
| `Scanner.dfy` | the line scanner with its growing buffer |
| `Frames.dfy` | `Message.frame`, `Send`, `SendToSocket`, `Rename`, `resolveToken`, `writeFrame`, and the lines its bytes are scanned as |
| `WireFormat.dfy` | the exact text of the frames and of JSON string literals |
| `Inbox.dfy` | decoding a received line and `handle` |
| `Decoding.dfy` | the calls made for a user line, an auth line, a receipt line and a rename line |
| `Reception.dfy` | the calls made for an arbitrary line |
| `Delivery.dfy` | sender to receiver, end to end |
| `Lifecycle.dfy` | `Close` and `serve`, with the accept backoff |
| `Umask.dfy` | `withTightUmask` |
| `Receipts.dfy` | the receipt channel and wait loop of `cc-send` |
| `Directory.dfy` | reading the sessions directory |
| `Registry.dfy` | `ListSessions` and the `FindByPID` family |
| `Identity.dfy` | PIDs, start tokens and session ids over whole runs |
| `Keys.dfy` | canonical socket paths, key file names, `LookupToken` |
| `ProcStat.dfy` | the parse of `/proc/<pid>/stat` |

What the code does not decide is a parameter: the printability table of `%q`, the hash
of a socket path, a freshly generated message id, the working directory, directory
contents, which processes are alive, and the sizes of reads.

## Where the code and its documentation differ

The model follows the code.

- The size limit of a frame is described as the receiver's per-line limit
  (client.go:18-21), but only the payload line is checked (client.go:183). A token that
  was not looked up can make the auth line too long, and then the receiver hands out
  nothing at all: `Delivery.OverlongTokenLosesTheMessage`. `Delivery.EndToEnd` gives the
  exact condition, `Delivery.ReachesIffShort` puts it as the length of the token, and
  `Delivery.ResolvedTokenReachesIff` says for which clients it holds.
- The comment on `validAddress` (message.go:145-148) ties well-formedness to `%q` not
  escaping anything. A backslash is address-safe and `%q` doubles it:
  `Envelope.BackslashIsNotVerbatim`. `Envelope.FromIsVerbatimIff` says exactly when the
  attribute is verbatim.
- The exit code of `cc-send` is documented as what happened to the message sent: 0 for
  delivered or acknowledged, 2 for denied or expired, 3 for no terminal receipt
  (cmd/cc-send/main.go:92-97). The wait loop prints the id a receipt answers without
  comparing it with the id of the message sent, so a receipt for another message decides
  the code (`Receipts.OtherMessageDecides`), and it takes every unknown status for success
  (`Receipts.UnknownStatusIsSuccess`). A receipt may also be waiting in the channel when
  the deadline is chosen (`Receipts.DeadlineCanOvertakeVerdict`) or have been dropped
  because the channel was full (`Receipts.DroppedVerdictEndsInDeadline`,
  `Receipts.DroppedDenialEndsInSuccess`). `Receipts.CodeIsOfMessageSentIff` says exactly
  when 0 and 2 are what the receipts offered say of the message sent,
  `Receipts.DeadlineMeansNoVerdictIff` the same for 3, and `Receipts.ProperReceiptsDecide`
  that up to sixteen receipts, all for that message and of a known status, are enough.
- `Send` promises that a stale registry entry cannot misdeliver a message
  (client.go:64-70). An entry without a session id stamps nothing:
  `Identity.BareEntryMisdelivers`. `Identity.StampedSendFindsItsSession` says exactly when
  a process other than the entry's writer takes the message.

## Model

| member | source | states |
|---|---|---|
| `Delivery.EndToEnd` | client.go:129-138 | every accepted message makes exactly one message call, with its text (or envelope) and sender, and no other call, exactly when the auth line fits one line; otherwise no call at all |
| `Delivery.Exchange` | inbox.go:199-235 | the same for every way of cutting the written bytes into reads |
| `Delivery.EveryDeliveryIsACut` | inbox.go:202-208 | every sequence of non-empty reads of a stream is one of the cuts quantified over |
| `Delivery.SentFields` | message.go:133-142 | the line sent reads back with every setting under its own key: the returned id, which is the one asked for or else the one generated, version, type, role and content, the requested or default priority, and session id, sender and uuid exactly when set |
| `Delivery.ReceivedEnvelopeParses` | message.go:128-131 | a named message, as received, takes apart into its sender, its sanitised name and its escaped text |
| `Delivery.ResolvedTokenReachesIff` | client.go:250-263 | when the target's published token is well formed or absent, a client's messages reach unless the token sent is an override, or this process's token for its own session, whose auth line does not fit |
| `Delivery.ReachesIffShort` | client.go:193-199 | a token of characters JSON prints as they are reaches exactly when it is empty or shorter than 2^20 - 26 bytes |
| `Delivery.OverlongTokenLosesTheMessage` | client.go:183-200 | with a token of 2^20 bytes a message is accepted and the receiver makes no call |
| `Delivery.SendCarriesID` | client.go:70-78 | the last line a send writes reads back with the message's own session id or else the target session's, malformed UTF-8 repaired |
| `Delivery.AuthLineReads` | client.go:193-198 | the auth line reads back with its token, which malformed UTF-8 alone alters |
| `Delivery.PublishedTargetHasToken` | client.go:247-263 | towards a target that published a well-formed key file under any spelling of its socket path, a client without an override presents a well-formed token, none without authentication, or its own session's token; in each case the auth line fits |
| `Delivery.PublishedTargetIsReached` | client.go:247-263 | such a target gets every message the client accepts, and the client accepts exactly those it would without a token |
| `Delivery.PublishedTokenReaches` | auth.go:20-22 | the auth line of a well-formed peer token always fits |
| `Delivery.RefusedBecause` | message.go:102-126 | why a message is refused, in the order of the checks |
| `Delivery.TokenPresented` | client.go:250-263 | which token is presented: none without authentication, else the override, else one's own at one's own socket, else the published one |
| `Delivery.SendIsToSocket` | client.go:70-78 | a session without a socket is refused; any other send goes to its socket, with its session id unless the message has one |
| `Delivery.RenameIsHarmless` | client.go:142-174 | when a rename is refused; what is written makes no call at an inbox, and its last line carries the session id it is meant for |
| `Frames.LimitsMeet` | client.go:183-185 | the sender refuses a payload exactly when the receiver would not hand it out |
| `Frames.LinesOfWire` | client.go:192-200 | what is written is scanned as the auth line and the payload line, or as nothing when the auth line is too long |
| `Frames.WriteFrame` | client.go:178-200 | refused exactly at the size limit or when the token lookup failed; otherwise the bytes are scanned as the auth line, if there is a token, and the payload, or as nothing when the auth line is too long |
| `Frames.FramesArePlain` | message.go:72-100 | frames are flat JSON objects at most two levels deep, so the reader takes them |
| `WireFormat.UserLineIs` | message.go:70-85 | the exact text of a user frame's line: these keys in this order, the optional ones only if set |
| `WireFormat.AuthLineIs` | message.go:97-100 | the exact text of the auth line |
| `WireFormat.RenameLineIs` | message.go:87-95 | the exact text of a rename's line |
| `WireFormat.HtmlIsEscaped` | client.go:179 | angle brackets, ampersands and the two line separators are written as escapes |
| `WireFormat.ControlsAreEscaped` | client.go:179 | how quotes, backslashes and control runes are written; any other rune is itself |
| `WireFormat.BodyStep` | client.go:179 | a string literal is written rune by rune, a malformed byte as an escaped U+FFFD |
| `Decoding.AuthLineCalls` | inbox.go:220-234 | an inbox ignores the auth line, whatever the token |
| `Decoding.UserLineCalls` | inbox.go:230-233 | a user line makes one message call with content and sender, malformed UTF-8 repaired |
| `Decoding.ReceiptLineCalls` | inbox.go:221-229 | a receipt line makes one receipt call with its four texts in their places |
| `Decoding.RenameLineCalls` | inbox.go:220-234 | an inbox makes no call for a rename, whatever its id, name and session id |
| `Reception.LineCallsIff` | inbox.go:212-234 | which call any line makes: a receipt exactly for an object of type control and action peer_message_status, a message exactly for one of type user with a message, nothing for any other line, with the texts of the last field of each name |
| `Reception.CallsInOrder` | inbox.go:202-235 | the calls of two runs of lines are those of the first and then those of the second |
| `Reception.DecodesIff` | inbox.go:216-219 | decoding fails exactly on a field that is looked at and has the wrong type |
| `Reception.TextsAreLast` | inbox.go:47-60 | a text is the last string under its name; null leaves it alone |
| `Reception.MessageIsLast` | inbox.go:47-60 | there is a message exactly if the last one is no null; the last content counts, over several messages unless a null comes between |
| `Reception.KeyIsIff` | inbox.go:47-60 | a key is taken for a name exactly when it is that name up to case, long s and the Kelvin sign included |
| `Reception.NameOfIff` | inbox.go:47-60 | a field goes to the name its key is taken for, and no key is taken for two |
| `Json.ReadInvertsPrint` | client.go:179 | reading a printed value returns it, strings repaired, and stops where it ended |
| `Json.ReadStringInvertsBody` | client.go:179 | every byte string survives JSON escaping up to U+FFFD for malformed bytes |
| `Json.PrintNoControls` | client.go:192-200 | a printed frame holds no newline and no carriage return, so it is one line |
| `Grammar.EveryDocumentIsRead` | inbox.go:217 | every JSON document nested at most 10000 deep is read at its meaning, whatever its white space, escapes and number forms |
| `Grammar.OnlyDocumentsAreRead` | inbox.go:217 | and whatever is read is such a document |
| `Scanner.Scanner.Scan` | inbox.go:202-211 | each call returns the next line of the unread stream, or fails exactly when there is none or it is over-long |
| `Scanner.Scanner.Token` | inbox.go:212 | cutting a line off the buffered bytes is cutting it off the stream |
| `Scanner.Scanner.Refill` | inbox.go:203 | shifting, growing and reading leave the unread stream as it was; fails only with 2^20 bytes buffered |
| `Scanner.Scanner.Shift` | inbox.go:203 | moving the unread bytes to the front changes nothing of the stream |
| `Scanner.Scanner.Grow` | inbox.go:203 | a larger buffer holds the same unread bytes |
| `Scanner.Scanner.Read` | inbox.go:208 | a read moves bytes from the connection to the buffer and loses none |
| `Scanner.LinesAreSplitPieces` | inbox.go:202-215 | the lines seen are the pieces of the whole stream between newlines, one carriage return dropped, up to the first raw line of 2^20 bytes or more |
| `Scanner.LineEnds` | inbox.go:202-215 | a line ends at a newline, one carriage return before it not counted; 1048576 bytes end everything; the last line needs no newline |
| `Inbox.Handle` | inbox.go:199-236 | the calls made for a connection are those of its lines in order |
| `Inbox.HandleConnection` | inbox.go:199-236 | only the concatenation of the reads matters |
| `Envelope.ParseInvertsWrap` | message.go:188-197 | an envelope takes apart, at the first closing tag, into exactly the sender, the sanitised name and the escaped body |
| `Envelope.CloserOnlyAtEnd` | message.go:196 | the closing tag occurs in an envelope exactly once, at its very end |
| `Envelope.EscapeBodyNeutralises` | message.go:226-230 | no closing tag is left; the body is unchanged exactly when there was none; escaping is idempotent |
| `Envelope.EscapeLeavesNoCloser` | message.go:228-230 | no closing tag arises at any position, seams included |
| `Envelope.EscapeGrowsByCount` | message.go:228-230 | the body grows by one byte per occurrence of the closing tag |
| `Envelope.FromIsVerbatimIff` | message.go:190-192 | a valid sender address is verbatim in its attribute exactly when it holds no backslash |
| `Envelope.BackslashIsNotVerbatim` | message.go:145-172 | the address of a path that is one backslash is valid and not verbatim in its attribute |
| `Envelope.EscapeAround` | message.go:228-230 | every closing tag gets its backslash and nothing around it changes |
| `Envelope.UnescapeInvertsIff` | message.go:228-230 | taking the backslashes out again gives the body back exactly when it held no escaped tag before |
| `Envelope.WrapText` | message.go:188-197 | with a plain sender and name, the exact text of the envelope; what is empty leaves no attribute |
| `Repairing.EscapeCommutesWithRepair` | message.go:228-230 | escaping and repairing malformed UTF-8 commute |
| `Repairing.RepairOfWrap` | message.go:188-197 | JSON repairs the body of an envelope and leaves its attribution alone |
| `GoQuote.ReadInvertsQuote` | message.go:191-194 | quoted text reads back to the same bytes and ends at its closing quote, whatever the bytes |
| `GoQuote.QuoteIsVerbatimIff` | message.go:191-194 | quoting adds only the quotes exactly when the text is valid, printable and free of quotes and backslashes |
| `GoQuote.LettersAre` | message.go:191-194 | the escapes with a letter |
| `GoQuote.QuotedRuneIs` | message.go:191-194 | any other rune is itself when printable and its hexadecimal value when not |
| `GoQuote.QuoteByRune` | message.go:191-194 | a text is quoted rune by rune |
| `GoQuote.QuoteMalformed` | message.go:191-194 | a malformed byte is quoted by its value |
| `SenderName.SanitizeName` | message.go:199-224 | the byte-level code with its backward cut computes the sanitised name defined on runes |
| `SenderName.CutPoint` | message.go:217-221 | the backward walk stops within three bytes at the end of the longest whole-rune prefix |
| `SenderName.FitIsLongest` | message.go:209-216 | no longer whole-rune prefix fits the limit |
| `SenderName.CleanIsClean` | message.go:178-183 | a sanitised name is valid UTF-8, at most 200 bytes and UTF-16 units, without quote, bracket, line break, control rune or outer white space |
| `SenderName.CleanIsIdempotent` | message.go:199-224 | sanitising twice is sanitising once |
| `SenderName.CleanIsEmptyIff` | message.go:207-223 | a name comes out empty exactly when only white space survives the filters: the cut never empties one |
| `SenderName.BreakingByteIsDropped` | message.go:178-200 | a quote, angle bracket or line break disappears from anywhere in a name and takes nothing with it |
| `SenderName.ControlIsDropped` | message.go:201-206 | so does a control rune |
| `SenderName.OuterSpaceIsDropped` | message.go:207 | so does white space at either end |
| `SenderName.MalformedByteIsReplaced` | message.go:201-206 | a malformed byte counts as U+FFFD |
| `SenderName.UntouchedNameIsKept` | message.go:199-224 | a name with nothing to remove is kept, and cut exactly when longer than 200 bytes, to the longest whole-rune prefix without trailing white space |
| `Utf8.RepairIsIdentityIffValid` | message.go:201-206 | re-encoding the runes of a text gives it back exactly when it was valid UTF-8 |
| `Utf8.Utf16NeverLonger` | message.go:209-216 | a text never has more UTF-16 units than UTF-8 bytes |
| `Utf8.MalformedByte` | message.go:201-206 | a malformed sequence loses one byte to U+FFFD |
| `Utf8.Utf16Concat` | message.go:209-216 | a rune counts one UTF-16 unit up to U+FFFF and two beyond |
| `Address.RenderAddress` | addr.go:26-38 | the loop renders the address of a path |
| `Address.DecodePercents` | addr.go:54-72 | the loop with its skips and fallback decodes percent escapes |
| `Address.CheckAddress` | message.go:149-172 | the loop with its skips accepts exactly the well-formed addresses |
| `Address.ParseInvertsAddress` | addr.go:43-52 | parsing a rendered address returns the path, whatever its bytes |
| `Address.AddressInvertsParseIff` | addr.go:26-52 | rendering what an address parses to gives it back exactly when its escapes are upper case and needed |
| `Address.ValidIffNoFallback` | addr.go:59-71 | an address is valid exactly when its other bytes are safe and decoding never copies a literal percent sign |
| `Address.RewriteFromIsIdempotent` | cmd/cc-send/main.go:206-215 | a rewritten `--from` is valid, names the same path, and is rewritten to itself |
| `Address.AddressByByte` | addr.go:11-38 | letters, digits and six signs are rendered as themselves, any other byte as a percent sign and its two upper-case digits |
| `Address.DecodeEscape` | addr.go:54-84 | a percent sign and two hexadecimal digits of either case are one byte |
| `Address.DecodeCopy` | addr.go:54-72 | everything else is copied |
| `Address.ParseCases` | addr.go:43-52 | a bare absolute path is itself, percent signs and all; what is neither form is refused |
| `Lifecycle.Lifecycle` | inbox.go:155-197 | after any schedule: the listener is closed at most once and only when closed is set, the winner removes the socket file before returning, the loop exits only when closed, the delay is 5 ms doubled with every error in a row since the last connection, up to a second |
| `Lifecycle.LoopWindsDown` | inbox.go:174-192 | once the listener is closed every loop step comes closer to the exit, with at most one more sleep |
| `Lifecycle.LoopIsNeverStuck` | inbox.go:175-184 | the loop can always step, or waits for a closer that can |
| `Lifecycle.NextKeepsInv` | inbox.go:155-197 | every step of every participant keeps the mutex, winner and loop invariants |
| `Lifecycle.NextDelayIsBackoff` | inbox.go:183-191 | after k errors the delay is the smaller of 5 ms times 2^(k-1) and 1 s, and never passes 2 s before the limit |
| `Lifecycle.ErrorsAreInRow` | inbox.go:173-194 | the errors counted are those since the last accepted connection of the schedule |
| `Lifecycle.BackoffIs` | inbox.go:183-190 | 5 ms after one error, doubled with each further one, never more than 1000 |
| `Umask.TightOnlyInside` | platform_unix.go:54-60 | inside `fn` a thread is alone under umask 0177 and creates nothing open to group or world; with the mutex free the umask is the original |
| `Umask.HolderCanStep` | platform_unix.go:54-60 | calls do not deadlock |
| `Receipts.Outcome` | cmd/cc-send/main.go:265-283 | receipts are consumed in the order accepted; exit 0 or 2 is decided by the first accepted receipt that is not held, 2 exactly when it says denied or expired; exit 3 means all consumed were held |
| `Receipts.CodeIsOfMessageSentIff` | cmd/cc-send/main.go:92-97 | for every message id, exit 0 or 2 is what the first settling receipt offered says of that message exactly when the first settling receipt missed agrees with the accepted deciding receipt or, if none was missed, the deciding receipt itself answers that message with a known status or the first later settling one agrees with it |
| `Receipts.VerdictIsOfFirstOfferedIff` | cmd/cc-send/main.go:224-278 | exit 0 or 2 is the code of the first deciding receipt offered about any message, dropped ones included, exactly when only held receipts were dropped before the first accepted deciding one or the first deciding one dropped there has the same code |
| `Receipts.DeadlineMeansNoVerdictIff` | cmd/cc-send/main.go:96 | at the deadline no deciding receipt had been offered exactly when only held ones wait in the channel and only held ones were dropped; and none that settles a given message exactly when none waits and none was dropped |
| `Receipts.FewReceiptsAreNeverDropped` | cmd/cc-send/main.go:218-231 | when at most sixteen receipts arrive none is dropped, and exit 0 or 2 is the code of the first deciding arrival |
| `Receipts.ProperReceiptsDecide` | cmd/cc-send/main.go:265-283 | when at most sixteen receipts arrive, all for the message sent and of a known status, exit 2 means the first settling one says denied or expired and exit 0 that it says delivered; at a deadline none had come exactly when none waits in the channel |
| `Receipts.OtherMessageDecides` | cmd/cc-send/main.go:269-275 | a run that exits with 2 on a denial of another message, with nothing dropped and no receipt for the message sent |
| `Receipts.UnknownStatusIsSuccess` | cmd/cc-send/main.go:276-278 | a run that exits with 0 on a receipt of an unknown status, an empty one included |
| `Receipts.EveryArrivalIsOffered` | cmd/cc-send/main.go:224-231 | every arrival of a schedule is offered, in its order |
| `Receipts.Conservation` | cmd/cc-send/main.go:224-231 | every receipt offered is accepted or dropped, once |
| `Receipts.DeadlineCanOvertakeVerdict` | cmd/cc-send/main.go:268-281 | a schedule in which exit 3 leaves a deciding receipt in the channel |
| `Receipts.DroppedVerdictEndsInDeadline` | cmd/cc-send/main.go:224-281 | a schedule in which exit 3 follows with an empty channel although a deciding receipt was offered: it was dropped |
| `Receipts.DroppedDenialEndsInSuccess` | cmd/cc-send/main.go:224-278 | a schedule in which exit 0 follows although the first deciding receipt offered was a denial: it was dropped |
| `Registry.ListSessions` | session.go:124-160 | fails exactly when the configuration directory is unknown or the sessions directory unreadable; a missing directory lists nothing; otherwise the listing is sorted and holds exactly the readable entries, each PID once |
| `Registry.SortSessions` | session.go:153-158 | sorting keeps the elements and orders them strictly by start time and PID |
| `Registry.ListingIsUnique` | session.go:153-159 | the listing depends only on what the directory holds, not on its order or on the sort |
| `Registry.ListingHasDistinctPids` | session.go:139-146 | PIDs in a listing are pairwise distinct |
| `Registry.PidOfInvertsFileName` | session.go:139-146 | the canonical file name of a PID is accepted and gives the PID back |
| `Registry.FileNameInvertsPidOf` | session.go:143-146 | no other spelling is accepted for a PID |
| `Registry.FindByPID` | session.go:249-260 | found exactly when some session has the PID |
| `Registry.FindEntry` | session.go:249-260 | finding by PID is looking up the PID's own file, and fails as the listing fails or with not found |
| `Registry.FindByPIDForSession` | session.go:267-276 | found exactly when the PID's file carries the non-empty session id |
| `Registry.FindByPIDForProcess` | session.go:300-309 | found exactly when the PID's file carries the non-empty start token |
| `Identity.FoundFileIsTheProcessesOwn` | session.go:292-309 | whatever happened since a start token was recorded, a successful lookup finds a file last written by that very process |
| `Identity.ClearKeepsProcessNotSession` | ccsock_test.go:1082-1105 | while the process runs, after any number of clears, its token finds it exactly when its entry carries one, and the session id it had before a clear does not |
| `Identity.StampedSendFindsItsSession` | client.go:64-78 | whatever happens between lookup and arrival, a process takes the bytes sent exactly when it holds the id found or the entry had none, and one that is not the entry's writer takes them exactly when the entry had none, or some process was started with the id when it was already taken and this one holds it |
| `Identity.TakenIffHeld` | client.go:70-78 | the session id read back from the bytes of a send is taken by exactly the processes that hold the id of the session sent to, or by any when it has none |
| `Identity.BareEntryMisdelivers` | client.go:64-78 | a run in which a send to an entry without a session id is accepted and taken by a process that did not write it |
| `Identity.NextKeepsInv` | session.go:28-33 | every spawn, registration, clear and exit keeps files and processes consistent |
| `Identity.LookUpBoth` | session.go:262-309 | the lookups run on the directory of a world answer what the world's files say |
| `Keys.CanonicalIsLevels` | paths.go:94-108 | a path without parent segments canonicalises by dropping only empty and `.` segments |
| `Keys.CanonicalIsAFixedPoint` | paths.go:94-108 | refused exactly for an empty path or a parent segment; a result is never refused again and canonicalises to itself |
| `Keys.CanonicalAgreesIff` | auth.go:36-43 | two spellings share a canonical path exactly when they name the same levels |
| `Keys.PublishedNameIsFound` | auth.go:27-43 | a published key file passes both name filters for every spelling of its socket and gives its PID back |
| `Keys.BestToken` | auth.go:77-101 | the ranking loop ends with the token of the best entry |
| `Keys.LookupToken` | auth.go:58-102 | an error exactly when the configuration directory is unknown, the path is bad or the sessions directory cannot be read; otherwise the token of a best entry, or none when no entry is a candidate; a missing directory has no entry |
| `Keys.PublishedTokenIsFound` | auth.go:27-102 | a key file published with a well-formed token is found under every spelling of its socket's path: some well-formed token comes back, and its own when no other file competes |
| `Keys.BestIndex` | auth.go:73-76 | the best entry is the first candidate of the highest rank; there is none exactly when there is no candidate |
| `Keys.BestIsUnique` | auth.go:73-76 | so the outcome of a lookup is determined |
| `Keys.TokenIsEmptyIff` | auth.go:51-57 | the token is empty exactly when no entry is a candidate, and otherwise well formed |
| `Keys.CorroboratedOwnerWins` | auth.go:122-139 | if some owner is alive with its recorded start token, the winner's is too; if some owner is alive and not contradicted, so is the winner's; if all are dead or contradicted, the first candidate wins |
| `Keys.BestIff` | auth.go:77-101 | the best entry is the first candidate at least as good as every other: corroborated, else not contradicted, else any |
| `Keys.CandidateIff` | auth.go:20-43 | the candidates are exactly the files named by a 64-bit number, the path's hash and `.key` whose token is 32 lower-case hexadecimal digits |
| `ProcStat.ParseInvertsPrint` | procstart_linux.go:20-32 | for every command name the parse returns field 22 of a printed line, and fails exactly when there is none |
| `ProcStat.ParsedStatIsPrinted` | procstart_linux.go:24-32 | in every accepted text, what starts two bytes after the last closing paren is at least twenty space-separated fields, and the twentieth, field 22 of the line, is the token |

## Left out

- Sockets, dialing, deadlines, probing, file modes and ownership checks: I/O; reads are arbitrary cuts of a stream, a failed read ends it.
- Reading registry and key files, and their JSON: a directory entry comes with its decoded content, or without one when it cannot be read.
- SHA-256: any function to 64 lower-case hexadecimal digits; nothing depends on it being injective.
- Envelope.Parse: a reference parser of this model; how a session parses an envelope is not part of the repository.
- Claude Code's own receiver, apart from its documented session id check, which compares the decoded id.
- Mutual exclusion of two `Listen` calls in one process: the code does not promise it.
- Liveness from a start token: a stale file still matches, and only who wrote it is stated.
- `pickOne`, `FindBySessionID`, `FindByName`, `newUUID`, `DefaultSocketPath`, `intOf`, `epochMS`: easy members.
- Windows, macOS and other platforms, flag parsing, listing output.
- `encoding/json` beyond these frames: the printer covers them alone, and numbers are read as text, since no field read is a number.
- Registry.SortSessions: an insertion sort on a sequence stands for the library sort in place; the order alone determines the result.
- Lifecycle.Lifecycle: another process creating a file at the socket path is not modelled.
- Identity.ClearKeepsProcessNotSession: a clear and the rewriting of the file are one step, as the documentation has it.
