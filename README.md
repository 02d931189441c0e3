# Socket chat service: a verified model

This project models the protocol core of a thread-per-connection chat
service written in Java. The service has two generations of server and client:

- the newer pair in package `chat`, which uses the tag constants of `chat.constant.ChatConstants`;
- the older pair in the default package, which uses literal tags.

## What each part models

**The handle registry** (`HandleRegistry.Registry`)
- It is the static `HashMap` from screen name to the `PrintWriter` of its connection.
- It also records, for every writer, the lines printed on it so far.
- Printing appends to that writer's record.
- Iterating `values()` and printing gives each writer one copy per handle registered with it (`Fanout`). When no two handles share a writer, that is exactly one copy per registered writer.
- `keySet()` gives each handle once, in no promised order.

**The name handshake** (`NameLoop` in each server module, and `Handler.AwaitName`)
- The input is the sequence of reads a connection yields: a line, the end of the stream, or a read that throws.
- The newer server:
  - sends `SUBMIT_NAME` before every read;
  - answers a null read or the name "null" with `FORCE_EXIT`;
  - prompts again for an empty or taken name;
  - registers the first free one.
- The older server prompts with `SUBMITNAME`, ends on a null read, and registers any free name, including "" and "null".

**Acceptance** (`Handler.Announce`)
- The new client gets the acknowledgement.
- Every registered writer then gets the handle list and the join notice.

**The line router** (`Protocol`)
- Both servers share the same parse. `BROADCAST` takes the trimmed rest of the line. `P2P` cuts at the first ':' (which must come after index 3); the text between is trimmed and split at commas, and the text after is trimmed.
- Both servers deliver the same way:
  - with exactly one recipient, the sender first gets an echo;
  - then each recipient in order receives the message, or the sender receives a not-found error for it.
- The revisions differ only in framing (`Framing`): `MESSAGE <name>:` in the newer server, `MESSAGE<name>: ` and `>>` in the older one.
- `Handler.Serve` runs the message loop until the first read that is not a line.

**The way out** (`Handler.Cleanup`, `Handler.RemoveCurrentUser`)
- Both revisions remove the handle in the `name` field, whatever it is.
- The newer one then tells every remaining writer:
  - a second handle list first, on the `SocketException` path;
  - the handle list and "has left the chat.". A rejected session sends both too, naming "null".

**The clients** (`ChatClient`, `LegacyChatClient`)
- Outgoing:
  - the newer client strips every ':' from the text field (`Sanitize`);
  - it frames the text as a broadcast, or as a message to the selected handles joined by commas;
  - the older client sends the text unsanitized, to at most one selected handle.
- Incoming: each read loop dispatches on prefixes (`Inbound`), and the widgets are the fields of `Client`.
- Round-trip lemmas connect each client's frames with the server's parse.
- A line the Java code would throw on ends the loop (`Crash`): a null line, or a tagged line too short for the cut the older client makes.

How the model stands in for the outside world:
- The name and recipients the user picks in Swing dialogs are inputs.
- Reads are a sequence given to the handler.
- Writers are numbered.

## Model

| member | source | states |
|---|---|---|
| JavaLang.IndexOf | src/chat/ChatServer.java:175 | `indexOf(':')` is the first position holding ':' with none before it, and -1 exactly when there is none |
| JavaLang.Str | src/chat/ChatServer.java:217 | a possibly-null String as concatenation prints it: the string itself, or "null"; the result is "null" exactly for a null reference or the name "null" |
| JavaLang.StartsWith | src/chat/ChatServer.java:167 | `startsWith(prefix)`: the prefix is no longer than the string and equals its first characters |
| JavaLang.Trim | src/chat/ChatServer.java:168 | `trim()` is a contiguous slice of the string that neither starts nor ends with a character <= ' ' |
| JavaLang.TrimDropsBlanks | src/chat/ChatServer.java:168 | everything `trim()` drops, in front of the kept slice and after it, is a character <= ' ' |
| JavaLang.TrimIdempotent | src/chat/ChatServer.java:177 | trimming a trimmed string changes nothing |
| JavaLang.TrimUnpadded | src/chat/ChatServer.java:177 | a string with nothing trimmable at either end is its own trim |
| JavaLang.TrimKeepsOut | src/ChatServer.java:166 | `trim()` introduces no character that was not in the string |
| JavaLang.TrimSkipsLeadingBlank | src/ChatServer.java:166 | a blank in front (the space after "P2P" the older client sends) does not change the trim |
| JavaLang.Pieces | src/chat/ChatServer.java:178 | the pieces between commas are at least one, have no comma, and join back to the string |
| JavaLang.DropTrailingEmpty | src/chat/ChatServer.java:178 | only a trailing run of empty pieces is dropped, and the kept prefix does not end with one |
| JavaLang.Split | src/chat/ChatServer.java:178 | `split(",")` gives comma-free pieces; the empty string gives `[""]`; otherwise the last piece is never empty |
| JavaLang.Join | src/chat/ChatServer.java:231 | `String.join(",", parts)`: the first part comes first, and every other character is a comma or comes from one of the parts |
| JavaLang.PiecesOfJoin | src/chat/ChatServer.java:231 | cutting `String.join(",", parts)` at every comma gives the comma-free parts back |
| JavaLang.SplitOfJoin | src/chat/ChatServer.java:231 | `split(",")` undoes `String.join(",", ...)` for comma-free parts whose last part is not empty |
| JavaLang.TrimOfSpace | src/chat/ChatServer.java:177 | a lone space trims to the empty string |
| JavaLang.SplitOfComma | src/chat/ChatServer.java:178 | a lone comma is left alone by `trim()` and splits into no pieces at all |
| JavaLang.SplitWithoutComma | src/ChatServer.java:167 | a comma-free string splits into itself alone |
| ChatConstants.Events | src/chat/constant/ChatConstants.java:7-18 | there are eight event tags |
| ChatConstants.TagLengthsMatchOffsets | src/chat/constant/ChatConstants.java:16-17 | `BROADCAST` has length 9 and `P2P` length 3, the offsets the servers hard-code |
| ChatConstants.EventsArePrefixFree | src/chat/constant/ChatConstants.java:7-18 | no event tag is a prefix of another, so the order of the prefix tests does not matter |
| LegacyChatServer.SamePortAsNewerServer | src/ChatServer.java:35 | the older server's literal port equals `APP_PORT` (9001) |
| LegacyChatServer.FramesAsSent | src/ChatServer.java:159-186 | the older framing (`Frames`) spells out each line of the message loop: `MESSAGE<name>: <body>`, `MESSAGE<name>>><recipient><body>`, `ERROR: User '<r>' not found.` and `ERROR: Invalid P2P message format.` |
| LegacyChatServer.CorrectedFramesAsSent | src/ChatServer.java:159 | the corrected framing (`CorrectedFrames`) puts a space after `MESSAGE` in broadcast and private-message lines and keeps the error lines |
| HandleRegistry.Repeat | src/chat/ChatServer.java:241-243 | n copies of a line: length n, every element that line |
| HandleRegistry.Fanout | src/chat/ChatServer.java:241-243 | defines how often a loop over `values()` reaches a writer: once per handle registered with it |
| HandleRegistry.RepeatCons | src/chat/ChatServer.java:241-243 | one more copy in front is one more copy |
| HandleRegistry.FanoutOfInjective | src/chat/ChatServer.java:241-243 | with one handle per writer, iterating `values()` reaches each registered writer once and any other writer never |
| HandleRegistry.PutFreshKeepsInjective | src/chat/ChatServer.java:137 | registering a handle under a writer nobody uses keeps writers distinct |
| HandleRegistry.WithoutHandle | src/chat/ChatServer.java:251-253 | `remove(name)` for a possibly-null name: that handle is gone, every other entry stays as it was |
| HandleRegistry.WithoutHandleIdempotent | src/chat/ChatServer.java:249-258 | removing the current user twice is removing it once |
| HandleRegistry.WithoutEntry | src/chat/ChatServer.java:256 | `remove(name, out)` removes the entry when the name maps to exactly that writer and otherwise leaves the map unchanged; every other handle, and every entry of another writer, is kept |
| HandleRegistry.PrintToAll | src/chat/ChatServer.java:240-244 | every writer ends with its old lines followed by one copy of the line per handle registered with it, whatever order the handles are visited in |
| HandleRegistry.Registry.constructor | src/chat/ChatServer.java:55 | the map starts empty and no writer has printed anything |
| HandleRegistry.Registry.Println | src/chat/ChatServer.java:242 | the line is appended to that writer's output only; the map is unchanged |
| HandleRegistry.Registry.ContainsKey | src/chat/ChatServer.java:136 | `containsKey(name)`: when true the name maps to a live writer; when false removing the name leaves the map as it is |
| HandleRegistry.Registry.Put | src/chat/ChatServer.java:137 | the name now maps to the writer; nothing is printed |
| HandleRegistry.Registry.Remove | src/chat/ChatServer.java:252 | the name is no longer a key; nothing else changes |
| HandleRegistry.Registry.RemoveEntry | src/chat/ChatServer.java:256 | the map becomes `WithoutEntry` of the old one; nothing is printed |
| HandleRegistry.Registry.Keys | src/chat/ChatServer.java:231 | the handles listed are exactly the registered ones, each once |
| HandleRegistry.Registry.SendToAll | src/chat/ChatServer.java:240-244 | the map is unchanged and each writer prints the line once per handle registered with it |
| Protocol.Lines | src/chat/ChatServer.java:157-163 | the lines read before the first null or failed read, in order |
| Protocol.Stop | src/chat/ChatServer.java:157-163 | the message loop never ends accepted or rejected, and it still waits exactly when every read so far was a line |
| Protocol.Classify | src/chat/ChatServer.java:165-197 | the message loop's parse, the same in the older server (src/ChatServer.java:156-186): a broadcast exactly for a `BROADCAST` line; malformed exactly for a `P2P` line with no ':' or with ':' right after the tag; ignored exactly when neither prefix matches; the recipients of a directed message hold no comma |
| Protocol.JoinLine | src/chat/ChatServer.java:153 | defines the join notice, `MESSAGE [Server]: <name> has joined the chat.`, the same text as src/ChatServer.java:138 |
| Protocol.UserListLine | src/chat/ChatServer.java:231-233 | defines the handle-list line: the revision's tag followed by the handles joined by commas, as src/ChatServer.java:132-134 too |
| Protocol.BroadcastLine | src/chat/ChatServer.java:170 | defines a broadcast line: the framing's tag, the sender, its separator and the body |
| Protocol.DirectLine | src/chat/ChatServer.java:183 | defines a private-message line: the framing's tag, the sender, its separator, the recipient and the body, the same for the echo and for each recipient (line 190) |
| Protocol.NotFoundLine | src/chat/ChatServer.java:192 | defines the error for a recipient that is not registered, naming it |
| Protocol.InvalidLine | src/chat/ChatServer.java:197 | defines the error for a private message without a recipient segment |
| Protocol.Echo | src/chat/ChatServer.java:182-184 | defines the copy the sender gets: the private-message line, exactly when there is one recipient and only on the sender's writer |
| Protocol.ClassifyDirect | src/chat/ChatServer.java:172-180 | "P2P", a non-empty recipient list without ':', ':' and a body parse as a message to the split, trimmed list with the trimmed body |
| Protocol.ClassifyNoRecipients | src/chat/ChatServer.java:175-176 | "P2P" followed directly by ':' is a malformed directed message |
| Protocol.BroadcastPrefixWins | src/chat/ChatServer.java:167-168 | any line starting with `BROADCAST` is a broadcast of its trimmed remainder after 9 characters |
| Protocol.Deliveries | src/chat/ChatServer.java:185-193 | defines what a writer prints while a directed message goes to each recipient in turn: the message for the recipients registered with it and, on the sender's writer, a not-found error for each unregistered one |
| Protocol.Answer | src/chat/ChatServer.java:167-197 | defines what a writer prints for one parsed command: the framed broadcast once per handle registered with it, the single-recipient echo and the deliveries, the format error to the sender, or nothing |
| Protocol.Inbox | src/chat/ChatServer.java:165-197 | defines what a writer prints for one line: `Answer` of the line's parse |
| Protocol.Transcript | src/chat/ChatServer.java:157-199 | defines what a writer prints over a run of lines: each line's `Inbox`, in order |
| Protocol.DeliverAll | src/chat/ChatServer.java:186-194 | each recipient in order: its writer prints the message, or the sender prints the not-found error; the map is unchanged |
| Protocol.SendDirect | src/chat/ChatServer.java:182-194 | the single-recipient echo to the sender, then the deliveries |
| Protocol.Execute | src/chat/ChatServer.java:167-198 | every writer prints exactly what `Answer` gives for the command, and the map is unchanged |
| Protocol.Dispatch | src/chat/ChatServer.java:167-198 | handling one line prints on each writer exactly what `Inbox` gives for that line |
| Protocol.DeliveriesAppend | src/chat/ChatServer.java:186-194 | delivering to two lists in turn is delivering to the first, then the second |
| Protocol.DeliveriesSplitAt | src/chat/ChatServer.java:186-194 | what a writer prints splits around any one recipient into before, that recipient's line, and after |
| Protocol.RegisteredRecipientReached | src/chat/ChatServer.java:188-190 | every registered recipient's writer gets the message, whatever the other recipients are |
| Protocol.MissingRecipientReported | src/chat/ChatServer.java:191-192 | every unregistered recipient is reported to the sender by name |
| Protocol.OthersOnlyGetTheMessage | src/chat/ChatServer.java:186-193 | a writer other than the sender's only prints the message itself, for recipients registered with it; errors go to the sender only |
| Protocol.BroadcastReachesEachWriterOnce | src/chat/ChatServer.java:167-170 | with one handle per writer, a broadcast line gives each registered writer exactly one framed message and others nothing |
| Protocol.MalformedDirectAnsweredOnce | src/chat/ChatServer.java:175-197 | a `P2P` line whose first ':' is missing or at index 3 or less gives exactly one error, to the sender, and nothing else |
| Protocol.UnknownLineIgnored | src/chat/ChatServer.java:167-172 | a line with neither prefix makes no writer print anything |
| Protocol.SingleRecipientEchoedFirst | src/chat/ChatServer.java:182-184 | with exactly one parsed recipient the sender's first line is the echo, registered recipient or not |
| Protocol.PartialDelivery | src/chat/ChatServer.java:186-194 | to a registered "alice" and a missing "ghost", alice's writer gets the message alone and the sender the error alone |
| Protocol.BlankRecipientNotFound | src/chat/ChatServer.java:177-192 | "P2P :body" names the one empty recipient: the sender gets the echo and then "User '' not found." |
| Protocol.CommaOnlyListSilent | src/chat/ChatServer.java:177-194 | "P2P,:body" splits into no recipients at all, so no writer prints anything, not even an error |
| Protocol.RouteAll | src/chat/ChatServer.java:157-201 | the message loop: every writer prints the transcript of the lines before the first non-line read, the map is unchanged, and that read is what is left |
| Protocol.Announcement | src/chat/ChatServer.java:147-153 | defines what a writer prints on acceptance: the acknowledgement on the new session's writer, then the handle list and then the join notice, once per handle registered with it |
| Protocol.AnnouncementOrder | src/chat/ChatServer.java:147-153 | with one handle per writer: the new client gets the acknowledgement, the list, the join notice in that order; other registered writers the list and the notice; nobody else anything |
| ChatServer.NameLoop | src/chat/ChatServer.java:111-142 | the handshake ends accepted (a free name, not empty, not "null", read last), rejected (field null or "null"), failed or waiting at the end of the reads |
| ChatServer.AcceptsFirstFreeName | src/chat/ChatServer.java:129-140 | the name at read i is registered exactly when it is free and every earlier read was an empty or taken name |
| ChatServer.HandshakeSends | src/chat/ChatServer.java:111-127 | the handshake sends `SUBMIT_NAME` once per read (once more while waiting), followed by `FORCE_EXIT` exactly when it rejects |
| ChatServer.SessionOutcome | src/chat/ChatServer.java:101-219 | defines how a session ends: the handshake's outcome, or, for an accepted name, how the message loop stopped |
| ChatServer.SessionWriters | src/chat/ChatServer.java:101-258 | defines the map after a session: the accepted name put under the session's writer, then, unless the thread still waits for a read, the name field's handle removed |
| ChatServer.LeaveLine | src/chat/ChatServer.java:217 | defines the leave notice, with a null name field printed as "null" |
| ChatServer.FramesAsSent | src/chat/ChatServer.java:170-197 | the newer framing (`Frames`) spells out each line of the message loop: `MESSAGE <name>:<body>`, `MESSAGE <name>:<recipient><body>`, `ERROR User '<r>' not found.` and `ERROR Invalid P2P message format.` |
| ChatServer.RejectionKeepsRegistry | src/chat/ChatServer.java:115-127 | a rejected session leaves the map as it found it |
| ChatServer.NullNeverRegistered | src/chat/ChatServer.java:123-127 | no session registers the name "null" |
| ChatServer.FinishedSessionLeavesNoTrace | src/chat/ChatServer.java:249-253 | an accepted session that then ended leaves the map as it found it |
| ChatServer.LostCandidateEvictsOwner | src/chat/ChatServer.java:249-253 | a taken name followed by a failed read makes the way out remove the other session's handle |
| ChatServer.OwnEntryCleanupKeepsOthers | src/chat/ChatServer.java:254-257 | removing only the session's own entry keeps every handle of other writers, and a finished session leaves no trace |
| ChatServer.SessionWritersOwnEntry | src/chat/ChatServer.java:254-257 | defines the map after a session whose way out runs only `remove(name, out)`: the corrected cleanup |
| ChatServer.Greet | src/chat/ChatServer.java:111-142 | the name loop on the shared map: outcome, field and reads left are `NameLoop`'s, the map gains only an accepted name under `out`, and only `out` prints, the lines `NameLoop` sends; a session that brings a writer no handle uses keeps the map one handle per writer |
| ChatServer.Handler.constructor | src/chat/ChatServer.java:90-92 | the handler starts with a null name field and the connection's reads |
| ChatServer.Handler.AwaitName | src/chat/ChatServer.java:111-142 | `Greet` on the handler's `name` field and reads; a session that brings a writer no handle uses keeps the map one handle per writer |
| ChatServer.Handler.BroadcastActiveUserList | src/chat/ChatServer.java:230-234 | the list names every registered handle once, and each writer prints `USER_LIST` and that list once per handle registered with it |
| ChatServer.Handler.Announce | src/chat/ChatServer.java:147-153 | the list names every handle once; each writer prints `Announcement`: the acknowledgement to `out`, then the list, then the join notice; the map is unchanged |
| ChatServer.Handler.RouteLines | src/chat/ChatServer.java:157-201 | `RouteAll` on the handler's reads, with the name field unchanged |
| ChatServer.Handler.Serve | src/chat/ChatServer.java:157-201 | each writer prints the transcript of the lines read, the loop ends as `Stop` says, and the reads after the one that stopped it are left |
| ChatServer.Handler.RemoveCurrentUser | src/chat/ChatServer.java:249-258 | the map becomes `WithoutHandle` of the name field; nothing is printed |
| ChatServer.Handler.RemoveOwnEntry | src/chat/ChatServer.java:254-257 | only the entry of the name under this connection's own writer is removed |
| ChatServer.Handler.Cleanup | src/chat/ChatServer.java:202-217 | the handle in the name field is removed; each list names every remaining handle once; after an extra list on the socket-error path, every writer prints the list of the remaining handles and the leave notice, once per handle registered with it |
| ChatServer.Handler.Run | src/chat/ChatServer.java:101-225 | the session ends as `SessionOutcome` says and leaves the map as `SessionWriters` says |
| LegacyChatServer.NameLoop | src/ChatServer.java:105-119 | the handshake ends accepted (a free name, read last), ended by a null read (field null), failed or waiting at the end of the reads |
| LegacyChatServer.AcceptsFirstFreeName | src/ChatServer.java:105-119 | the name at read i is registered exactly when it is free and every earlier read was a taken name; the name itself is never checked |
| LegacyChatServer.EmptyAndNullNamesAccepted | src/ChatServer.java:114-117 | a free "" or "null" is registered at once |
| LegacyChatServer.HandshakeSends | src/ChatServer.java:105-110 | the handshake sends `SUBMITNAME` once per read, once more while waiting, and nothing else |
| LegacyChatServer.SessionOutcome | src/ChatServer.java:95-210 | defines how a session ends: the handshake's outcome, or, for an accepted name, how the message loop stopped |
| LegacyChatServer.SessionWriters | src/ChatServer.java:95-210 | defines the map after a session: the accepted name put under the session's writer, then, unless the thread still waits for a read, the name field's handle removed |
| LegacyChatServer.SecondPutUnchanged | src/ChatServer.java:126 | the second `put` after acceptance leaves the map unchanged |
| LegacyChatServer.FinishedSessionLeavesNoTrace | src/ChatServer.java:198-201 | an accepted session that then ended leaves the map as it found it |
| LegacyChatServer.EndedHandshakeKeepsRegistry | src/ChatServer.java:107-110 | a null read during the handshake leaves the map as it found it |
| LegacyChatServer.LostCandidateEvictsOwner | src/ChatServer.java:198-201 | a taken name followed by a failed read makes the way out remove the other session's handle |
| LegacyChatServer.SessionWritersOwnEntry | src/ChatServer.java:202-205 | defines the map after a session whose way out runs only `remove(name, out)`: the corrected cleanup |
| LegacyChatServer.LostCandidateKeepsOwner | src/ChatServer.java:198-205 | with only `remove(name, out)`, a taken name followed by a failed read leaves the map exactly as it was, owner included |
| LegacyChatServer.OwnEntryCleanupKeepsOthers | src/ChatServer.java:202-205 | removing only the session's own entry keeps every handle of other writers, and a finished session leaves no trace |
| LegacyChatServer.Handler.constructor | src/ChatServer.java:84-86 | the handler starts with a null name field and the connection's reads |
| LegacyChatServer.Handler.AwaitName | src/ChatServer.java:105-119 | outcome, field and reads left are `NameLoop`'s; the map gains only an accepted name under `out`; only `out` prints, the lines `NameLoop` sends |
| LegacyChatServer.Handler.Announce | src/ChatServer.java:124-139 | the name maps to `out`; the list names every handle once; each writer prints `NAMEACCEPTED` (to `out`), the `USERLIST` line and the join notice in that order; when the name already maps to `out`, the second `put` leaves the map as it was |
| LegacyChatServer.Handler.RouteLines | src/ChatServer.java:143-190 | `RouteAll` with the older framing, name field unchanged |
| LegacyChatServer.Handler.Serve | src/ChatServer.java:143-190 | each writer prints the transcript of the lines read in the older framing, the loop ends as `Stop` says, and the reads after the one that stopped it are left |
| LegacyChatServer.Handler.RemoveCurrentUser | src/ChatServer.java:198-205 | the map becomes `WithoutHandle` of the name field, and nobody is told |
| LegacyChatServer.Handler.Run | src/ChatServer.java:95-213 | the session ends as `SessionOutcome` says and leaves the map as `SessionWriters` says |
| ChatClient.Sanitize | src/chat/ChatClient.java:199-201 | the result has no ':' and is a subsequence of the input holding every other character as often as the input |
| ChatClient.SanitizeKeepsClean | src/chat/ChatClient.java:199-201 | text without ':' is left as it is |
| ChatClient.SanitizeIdempotent | src/chat/ChatClient.java:199-201 | sanitizing twice is sanitizing once |
| ChatClient.BroadcastFrame | src/chat/ChatClient.java:108-111 | the broadcast frame starts with `BROADCAST` and holds no ':' |
| ChatClient.DirectFrame | src/chat/ChatClient.java:94-101 | the point-to-point frame starts with `P2P` and holds exactly one ':' more than the joined handles do: the separator |
| ChatClient.Outgoing | src/chat/ChatClient.java:94-111 | the line pressing Return sends starts with the mode's tag, and a broadcast frame holds no ':' |
| ChatClient.BroadcastRoundTrip | src/chat/ChatClient.java:109-111 | the server reads the broadcast frame as a broadcast of the trimmed, sanitized text |
| ChatClient.JoinOfPlainHandles | src/chat/ChatClient.java:96 | plain handles join into a string without ':' and with nothing for `trim` to drop |
| ChatClient.DirectRoundTrip | src/chat/ChatClient.java:94-101 | for a non-empty list of plain handles the server's parse recovers exactly that list and the trimmed, sanitized text |
| ChatClient.EmptySelectionRejected | src/chat/ChatClient.java:96-101 | with nothing selected the frame "P2P:..." is a malformed message to the server |
| ChatClient.MissesServerHandshake | src/chat/ChatClient.java:165-173 | the newer server's `SUBMIT_NAME`, `NAME_ACCEPTED` and `USER_LIST` lines are all ignored by this client |
| ChatClient.TagsCompleteHandshake | src/chat/ChatClient.java:165-179 | keyed on the shared tags, the prompt is answered, acceptance unlocks, and the announced handle list is recovered |
| ChatClient.InboundByTags | src/chat/ChatClient.java:165-187 | defines the corrected dispatch: the same prefix chain and cuts, keyed on the shared tag constants |
| ChatClient.Inbound | src/chat/ChatClient.java:161-187 | the read loop's dispatch: only a null line throws; shown text is a suffix of the line; listed handles hold no comma |
| ChatClient.Apply | src/chat/ChatClient.java:163-187 | defines the effect of one event on the widgets: the name answered and recorded, the field unlocked, the list replaced, or a line appended to the log |
| ChatClient.Replay | src/chat/ChatClient.java:161-188 | defines the effect of the read loop: each line's event in order, up to the first line that throws |
| ChatClient.EditableStaysOn | src/chat/ChatClient.java:169-172 | once the text field is editable no server line locks it again |
| ChatClient.LogOnlyGrows | src/chat/ChatClient.java:180-187 | whatever the log shows stays at its front |
| ChatClient.UserListReplaces | src/chat/ChatClient.java:173-179 | a `USERLIST` line replaces the whole list with `split(",")` of the text after 8 characters |
| ChatClient.Client.constructor | src/chat/ChatClient.java:52-56 | the widgets start empty and the text field locked |
| ChatClient.Client.Submit | src/chat/ChatClient.java:88-117 | exactly the frame for the mode is sent, the field is emptied, and nothing else changes |
| ChatClient.Client.ReplaceUsers | src/chat/ChatClient.java:176-179 | the list becomes the given handles in order, the rest of the state unchanged |
| ChatClient.Client.Receive | src/chat/ChatClient.java:162-187 | the state becomes `Apply` of the line's event; the loop goes on unless the line makes it throw |
| ChatClient.Client.Run | src/chat/ChatClient.java:161-188 | the state becomes `Replay` of the lines; `handled` lines were processed without a throw and the loop stopped at the end or at the first line that throws; the text field stays as it was |
| LegacyChatClient.BroadcastRoundTrip | src/ChatClient.java:100-104 | the unsanitized broadcast frame is read by the older server as a broadcast of the trimmed text |
| LegacyChatClient.DirectRoundTrip | src/ChatClient.java:88-93 | for a recipient without ':' or ',' the older server extracts the trimmed recipient and the trimmed text, ':' in the text included |
| LegacyChatClient.NoSelectionSendsNothing | src/ChatClient.java:90-99 | with no selection in point-to-point mode nothing goes out |
| LegacyChatClient.Outgoing | src/ChatClient.java:88-104 | nothing is sent exactly in point-to-point mode with no handle selected; otherwise the line starts with the mode's tag and ends with the message as typed |
| LegacyChatClient.Inbound | src/ChatClient.java:153-171 | the read loop's dispatch: it throws exactly on a null line or on a line that is a bare `MESSAGE`, `USERLIST` or `P2P` tag; listed handles hold no comma |
| LegacyChatClient.Apply | src/ChatClient.java:155-170 | defines the effect of one event on the widgets: the name sent, the field unlocked, the list replaced, or a line appended to the log |
| LegacyChatClient.Replay | src/ChatClient.java:153-172 | defines the effect of the read loop: each line's event in order, up to the first line that throws |
| LegacyChatClient.HandshakeTagsMatch | src/ChatClient.java:155-158 | the older server's `SUBMITNAME` prompts and `NAMEACCEPTED` unlocks |
| LegacyChatClient.JoinNoticeShown | src/ChatClient.java:159-160 | the join notice is shown from "[Server]: " on |
| LegacyChatClient.ErrorsNotShown | src/ChatClient.java:153-172 | the older server's error replies match no tag and are never shown |
| LegacyChatClient.UserListLineTagged | src/ChatClient.java:161-163 | the server's `USERLIST` line passes the earlier prefix tests and reaches the handle-list branch |
| LegacyChatClient.HandleListLosesFirstLetter | src/ChatClient.java:163 | as written, "alice" and "bob" come out as "lice" and "bob" |
| LegacyChatClient.SenderLosesFirstLetter | src/ChatClient.java:160 | as written, every broadcast and every private message is shown without the sender's first letter |
| LegacyChatClient.AliceShownAsLice | src/ChatClient.java:160 | "alice" saying "hi" is shown as "lice: hi" |
| LegacyChatClient.CorrectedHandleList | src/ChatClient.java:161-167 | cut after the eight-letter tag, the announced handles come back exactly |
| LegacyChatClient.CorrectedInbound | src/ChatClient.java:153-171 | defines the corrected dispatch: the older client's chain with the handle list cut after the eight-letter tag |
| LegacyChatClient.CorrectedSenderShown | src/ChatClient.java:159-160 | with a space after MESSAGE in the frame, broadcasts and private messages show the whole sender handle |
| LegacyChatClient.SentOnlyGrows | src/ChatClient.java:153-158 | the read loop never takes back a line it sent |
| LegacyChatClient.Client.constructor | src/ChatClient.java:49-53 | the widgets start empty and the text field locked |
| LegacyChatClient.Client.Submit | src/ChatClient.java:86-109 | the frame for the mode goes out if there is one, and the field is emptied either way |
| LegacyChatClient.Client.ReplaceUsers | src/ChatClient.java:164-167 | the list becomes the given handles in order, the rest of the state unchanged |
| LegacyChatClient.Client.Receive | src/ChatClient.java:154-171 | the state becomes `Apply` of the line's event; a null or too-short tagged line ends the loop |
| LegacyChatClient.Client.Run | src/ChatClient.java:153-172 | the state becomes `Replay` of the lines; `handled` lines were processed without a throw and the loop stopped at the end or at the first line that throws; the text field stays as it was |

## Left out

- Sockets, `accept` loops and threads: each handler is modelled on its own, over a given sequence of reads. Closing the socket is not modelled.
- Concurrency: `synchronized` blocks and the unsynchronized reads of the map are not modelled. Every registry operation is one atomic step.
- Logging through `System.out` is not modelled. The logging statement at src/chat/ChatClient.java:100 does not compile; the model treats it as absent.
- Stream creation failing before the handshake (src/chat/ChatServer.java:104-105) is not modelled.
- Swing is not modelled. The name dialog's answer and the list selection are parameters; the mode labels and the warning dialog are not modelled.
- The newer client's warning-dialog branch (src/chat/ChatClient.java:102-107) is not modelled: `String.join` never returns null, so that branch cannot run.
- HashMap iteration order: `keySet()` yields each handle once in a chosen order (`Registry.Keys`); the order is not pinned down.
- Client crashes: null lines and too-short `substring` calls are modelled as an event that ends the read loop, instead of as preconditions on the lines.
- ChatServer.Handler.Run: its contract states the outcome and the final map only; the lines printed during the session are stated by `Greet`, `Announce`, `Serve` and `Cleanup`, one stage at a time.
- LegacyChatServer.Handler.Run: its contract states the outcome and the final map only; the lines printed are stated by the stage methods.
- The exception's message text in the `catch` clauses is not modelled.
- Text is modelled as Unicode characters, not as Java's UTF-16 code units. The older client cuts at fixed offsets (`substring(8)`, `substring(9)` and `substring(4)` at src/ChatClient.java:160-170). Those cuts agree with Java only when the character at the cut is in the Basic Multilingual Plane. For a handle or text starting with a character outside it, such as an emoji, Java keeps half a surrogate pair and the model drops the whole character. This applies to LegacyChatClient.Inbound, LegacyChatClient.Client.Receive, LegacyChatClient.SenderLosesFirstLetter and LegacyChatClient.HandleListLosesFirstLetter. Every other cut in both servers and the newer client falls after an ASCII tag or at an `indexOf` position, so it agrees with Java.

## Findings

| source | as written | input that shows it | evidently intended | confidence | as-written member | corrected member |
|---|---|---|---|---|---|---|
| src/ChatClient.java:163 | the handle list is cut with `substring(9)` after the eight-letter tag `USERLIST` | the server announces ["alice", "bob"]; the list shows "lice" and "bob" | `substring(8)` | high; not executed | LegacyChatClient.HandleListLosesFirstLetter | LegacyChatClient.CorrectedHandleList |
| src/ChatServer.java:159 | chat lines are framed `"MESSAGE" + name` with no space, while the older client drops eight characters | "alice" broadcasts "hi"; every client shows "lice: hi" | `"MESSAGE " + name`, so the client's `substring(8)` keeps the whole handle | high; not executed | LegacyChatClient.SenderLosesFirstLetter | LegacyChatClient.CorrectedSenderShown |
| src/chat/ChatClient.java:165 | the newer client tests for `SUBMITNAME`, `NAMEACCEPTED` and `USERLIST`, but the newer server sends `SUBMIT_NAME`, `NAME_ACCEPTED` and `USER_LIST` | the server's first line `SUBMIT_NAME` is ignored, so the client never answers the prompt | test the shared tag constants | high; not executed | ChatClient.MissesServerHandshake | ChatClient.TagsCompleteHandshake |
| src/chat/ChatServer.java:252 | the way out removes whatever handle the `name` field holds, even one that lost a collision | "bob" is registered by another session; this session reads "bob", then its next read fails; bob's entry is removed | remove only the session's own entry, `remove(name, out)` | medium; not executed | ChatServer.LostCandidateEvictsOwner | ChatServer.OwnEntryCleanupKeepsOthers |
| src/ChatServer.java:200 | the older server's way out also removes whatever handle the `name` field holds, and a taken name stays in the field (lines 106 and 113) | "bob" is registered by another session; this session reads "bob", then its next read fails; bob's entry is removed | remove only the session's own entry, `remove(name, out)` at line 204 | medium; not executed | LegacyChatServer.LostCandidateEvictsOwner | LegacyChatServer.LostCandidateKeepsOwner |

The handlers and clients above follow the code as written. Each corrected member stands beside them and is proved with its intended property.
