# Nearcade SDK: a verified model

A Dafny model of the state machines and the codec of the Nearcade streaming SDK, with proofs.
`dafny verify dfyconfig.toml` checks the whole project.

The project follows the SDK's own parts.

- **Signalling codec** (`CStrings`, `Escape`, `JsonText`, `JsonMessage`, `Unescape`, `Messages`, `Delivery`): `json_escape`
  with its bounded buffer, the three message templates, the substring classifier, the extractor and the
  hand-written unescape loop. The laws are exact: what is cut, which messages are JSON objects, which payloads
  arrive unchanged, which messages are misread, and what the receiver does with any text whatever.
- **Viewer registry and sessions** (`Registry`, `SignalingServer`): the 64-entry socket table, its counter and
  the host socket in `src/signaling.c`, the session vector in `src/webrtc.cpp`, and the callbacks that tie them.
  `Registry` is the state machine and the theorems over every run; `SignalingServer` holds the two sets of
  globals as classes whose methods are proved against it. A session records the serial number of the connection
  it was made for; nothing in the model decides anything by it, and handles may be reused after they close.
- **Slots, devices, disconnect** (`Slots`, `Devices`, `Gamepad`, `InputBackend`, `Viewers`): the slot allocator,
  the uinput handle table with every open, write and ioctl failing at will, the events written to devices, and
  `nearcade_disconnect_viewer` across all of them.
- **Lifecycle** (`Lifecycle`, `WholeSdk`): the init ladder as a ledger, and the ladder over the devices and the
  registry it brings up.
- **Event queue, packets, locks** (`EventQueue`, `Packet`, `LockOrder`, `LockUse`, `LockNesting`): the Godot
  queue, the 16-byte packet, deadlock freedom for any number of threads, and for each of the 27 operations
  exactly which locks it takes and which it nests.

`Limits`, `Subsequences` and `Division` hold shared constants and facts.

Five things the code does that its own comments and documentation do not say came out of the proofs, each with
its exact condition, most with a concrete case:

- An SDP, whose lines end in CR LF, never arrives as it was sent, at any length (`ControlNeverDelivered`,
  `SdpLineIsMangled`): the escaper writes `\r\n` as escapes and the decoder undoes only the escaped quote.
  `DeliveredIff` is the exact condition; `HalvedBackslashesArrive` shows its odd case, where the cut undoes the
  doubling the decoder leaves in.
- A message one byte too long is no JSON object at all (`ComposedIsObjectIff`): the escaper never leaves half an
  escape, but the print into the second buffer cuts wherever that ends.
- An offer or an ice message can be taken for another type (`HandleComposed`, `OfferMisread`, `BareWordMisread`).
- Before the first `input_init` the device table reads 0 everywhere, so freeing, allocating or shutting down
  closes descriptor 0 (`NoStrayCloseIff`, `FreeBeforeInitIsStray`). A second `input_init` loses every handle
  still in the table (`NothingLeaksIff`, `DoubleInitLeaks`).
- A second `nearcade_init` while running unbalances every later state (`BalancedIff`, `DoubleInitUnbalances`).

Assumptions: live connection handles are distinct and never null; each callback of the service thread is one
step; session construction succeeds while WebRTC is initialised; the kernel never hands out a handle that is
open; a user event callback takes at most the queue mutex. C strings are NUL-free values; characters stand for
bytes. An identifier whose number does not fit an `int` (undefined for `sscanf`) scans to the number itself.

## Model

| member | source | states |
|---|---|---|
| CStrings.CStr | src/signaling.c:132-137 | the C string in a buffer: a NUL-free prefix that stops at the first NUL |
| CStrings.StrStr | src/webrtc.cpp:243-266 | the first position at or after the start where the needle occurs, none iff it occurs nowhere |
| CStrings.PrintThenScan | src/signaling.c:49-50 | scanning a printed number returns it whatever text follows |
| CStrings.PrintedDigit | src/signaling.c:155-155 | the printed number is positional decimal: the k-th character from the right is the k-th digit |
| CStrings.NoLeadingZero | src/signaling.c:155-155 | and has no leading zero |
| CStrings.ScannedIffNamed | src/signaling.c:49-50 | for every string, an identifier scans to a number iff it is `viewer_`, spaces, an optional sign and digits with that value, then anything |
| CStrings.ViewerIdRoundTrip | src/signaling.c:46-54 | print then scan of `viewer_%d` is the identity for every non-negative `int`, through the 64-byte buffer, and is never `host` |
| CStrings.ViewerIdInjective | src/signaling.c:155-155 | distinct indexes have distinct identifiers |
| Escape.JsonEscape | src/signaling.c:29-43 | the in-place loop writes the specified bounded escape, terminates it inside the buffer and touches nothing behind it |
| Escape.BoundedShape | src/signaling.c:29-43 | the output is the escape of the longest prefix that fits plus at most one later ordinary character, and when that happens |
| Escape.BoundedIsFullIffFits | src/signaling.c:29-43 | the output is the full escape exactly when that fits |
| Escape.BoundedAgrees | src/signaling.c:29-43 | a cut output agrees with the full escape on all but the last byte that fits |
| JsonText.EscapedIsPaired | src/signaling.c:29-43 | for every input and size no quote is left unescaped and no backslash dangles |
| JsonText.EscapedIsJson | src/signaling.c:29-43 | for every input and size: quoted, the output is a string of section 7 of RFC 8259 iff no control character but LF, CR and TAB survives, and a conforming decoder then returns exactly the surviving characters |
| JsonText.BoundedEscapesSurviving | src/signaling.c:29-43 | a bounded escape is the full escape of what survives it |
| JsonText.SurvivingIsSubsequence | src/signaling.c:29-43 | what survives is a subsequence of the input |
| JsonText.SurvivingIsAllIffFits | src/signaling.c:29-43 | everything survives exactly when the full escape fits |
| Unescape.UnescapeLoop | src/webrtc.cpp:271-279 | the pointer loop returns the specified text from any start |
| Unescape.TextIsUpToBareQuote | src/webrtc.cpp:271-279 | for every text, what is returned is the text up to the first NUL or quote with no backslash right before it, with the backslash taken from every escaped quote |
| Unescape.HalfDecodedIdentity | src/webrtc.cpp:271-279 | half-decoding is the identity iff there is no backslash, LF, CR or TAB, and longer otherwise |
| Unescape.UnescapeLaw | src/webrtc.cpp:271-293 | decoding an escaped payload and a closing quote half-decodes it, or reads past the quote exactly when it ends in a backslash |
| Unescape.UnescapeIsIdentityIff | src/webrtc.cpp:271-293 | decoding returns the payload iff it has none of the four characters, for every tail |
| Unescape.UnescapeCut | src/webrtc.cpp:271-279 | text cut anywhere decodes to a half-decoded prefix, plus one stray backslash exactly when the cut fell inside an escape |
| Unescape.CutIsIdentityIff | src/webrtc.cpp:271-279 | text cut anywhere decodes to the payload iff it is free of the four characters and fits, or its doubled final backslashes are cut in half |
| Messages.ComposeIsOneCut | src/signaling.c:362-369 | the two bounded copies equal one cut of the whole message at 4095 bytes, for every kind and payload |
| Messages.ComposeMessage | src/signaling.c:339-346 | composing through the escape buffer yields that one cut, NUL-free |
| JsonMessage.WholeReads | src/signaling.c:339-346 | a message before any cut is an RFC 8259 object with the promised type and payload iff the payload has no control character but LF, CR and TAB |
| JsonMessage.CutUnread | src/signaling.c:339-346 | a message cut in its payload, or of its final brace alone, is no object |
| JsonMessage.ComposedIsObjectIff | src/signaling.c:362-369 | a composed message is the promised object iff it is at most 4095 bytes long and the payload has no other control character, for every kind and payload |
| Messages.HandleMessage | src/webrtc.cpp:237-296 | the branching receiver computes the specified verdict, and for every text, composed or not, the verdict and its text are those of the next row |
| Messages.HandleEveryText | src/webrtc.cpp:243-296 | for every string: set as an answer iff `"answer"` and the sdp key occur, added as a candidate iff `"ice"` and the candidate key occur and neither `"answer"` nor `"offer"` does, ignored iff `"offer"` occurs and `"answer"` does not, rejected otherwise; the text starts behind the first occurrence of the key |
| Messages.QuotedWordInMessage | src/webrtc.cpp:243-248 | a quoted word occurs in a message iff in its header or imitated by the end of the payload |
| Messages.ClassifiedAs | src/webrtc.cpp:243-248 | the exact type every uncut message is taken for |
| Messages.KeyAtEndOfHeader | src/webrtc.cpp:256-266 | whatever follows, the key is first found at the end of the header |
| Messages.HandleWhole | src/webrtc.cpp:243-296 | what the receiver does with every uncut message, misread ones included |
| Delivery.WordInCutMessage | src/webrtc.cpp:243-248 | a message cut inside its payload contains a quoted word iff its header does |
| Delivery.ComposedTakenFor | src/webrtc.cpp:243-248 | the exact type every composed message of any length is taken for |
| Delivery.HandleComposed | src/webrtc.cpp:237-296 | what the receiver does with every composed message: any kind, payload and length, cut or not, misread or not |
| Delivery.DeliveredIff | src/webrtc.cpp:268-296 | an answer or candidate of any length is delivered unchanged iff it is taken for what it is and either has none of the four characters and fits, or has none up to final backslashes that the cut halves |
| Delivery.AnswerDeliveredIff | src/webrtc.cpp:268-296 | for an answer the condition is about the payload alone |
| Delivery.ControlNeverDelivered | src/signaling.c:29-43 | a payload with LF, CR or TAB is never delivered unchanged, at any length |
| Delivery.HalvedBackslashesArrive | src/signaling.c:362-369 | the concrete answer of backslashes that arrives unchanged because it is cut |
| Delivery.SdpLineIsMangled | src/webrtc.cpp:271-279 | the concrete CR LF line and what arrives instead |
| Delivery.OfferMisread | src/webrtc.cpp:243-246 | every imitating offer free of the four characters that keeps its closing quote is applied as an answer |
| Delivery.BareWordMisread | src/webrtc.cpp:243-254 | the concrete offer applied as an answer, the ice message rejected as one, and the ice message ignored as an offer |
| Delivery.OverflowingAnswer | src/signaling.c:362-369 | an answer free of the four characters arrives whole, or as its longest fitting prefix plus at most one stray backslash |
| Registry.FirstIndex | src/signaling.c:115-123 | the lowest entry that holds a handle, or the size of the table |
| Registry.SessionIndex | src/webrtc.cpp:55-62 | the first session of a viewer, or the size of the vector |
| Registry.ConnectKeeps | src/signaling.c:64-106 | a connection, as host, viewer or unknown URI, keeps table, counter, host and sessions in step |
| Registry.CloseKeeps | src/signaling.c:108-130 | a close keeps them in step |
| Registry.RunKeeps | src/signaling.c:56-180 | so does every feasible run |
| Registry.TableAndSessionsInStep | src/nearcade.c:126-136 | in every reachable state an index holds a socket iff it has exactly one session, made for the connection stored there |
| Registry.NoStraySession | src/webrtc.cpp:192-213 | every session belongs to a live registered connection and is the only one of its index |
| Registry.CounterCounts | src/signaling.c:69-101 | the counter equals the occupied entries and is at most 64, no handle twice, the host never in the table |
| Registry.MessageMeetsOwnSession | src/signaling.c:132-173 | a viewer's message meets the session of its own connection; the host meets none but fires its event, an unknown socket meets none and fires nothing |
| Registry.SessionHearsOneConnection | src/webrtc.cpp:215-231 | a session is only ever met by the one live connection it was made for |
| Registry.NoForeignDelivery | src/nearcade.c:120-124 | over every run, through any reuse of indexes and handles, no delivery meets a session of another connection |
| Registry.SessionSendsToOwnSocket | src/nearcade.c:108-117 | what a session sends goes to the socket of its own connection, for plain sends and replies |
| Registry.RepliesGoToViewerOrHost | src/signaling.c:371-386 | a reply to an identifier goes to the socket at its index, and to the host for an empty index, no identifier or `host` |
| Registry.WhereViewersGo | src/signaling.c:69-100 | a new viewer takes the lowest free index; a full table or a host connection changes no entry |
| Registry.HostIsLastHostConnect | src/signaling.c:69-75 | over every run the host is the connection of the last `/host` connect since the last stop, unless it has closed; then there is none |
| Registry.NewHostTakesOver | src/signaling.c:70-74 | right after such a connect, whoever was host before: it is the host, its messages fire as `host`, replies without a viewer go to it |
| Registry.CloseRemovesExactly | src/signaling.c:108-130 | a close clears exactly the entry, the count, the session and the host role of that connection and nothing else |
| Registry.KeepsItsPlace | src/signaling.c:64-130 | over every run in which it does not close and the SDK does not stop, a viewer keeps its index and its session |
| Registry.HeardText | src/signaling.c:132-173 | the session hears the bytes up to the first NUL among the first 4095, the event carries the first 2047 of them, and who fires an event or meets a session at all |
| Registry.WhichSession | src/webrtc.cpp:215-229 | for every identifier and vector: the first session of the index it names, or rejection iff it names none |
| Registry.TargetOfEveryName | src/signaling.c:46-54 | for every identifier: the socket at the index from 0 to 63 that it names, nothing if it names none, and for replies the host where that is nothing |
| Registry.StaysOut | src/signaling.c:64-106 | over any run a live connection outside the table stays outside it |
| Registry.ReplacedHostLeavesQuietly | src/signaling.c:108-125 | a connection that came in as host is never in the table while it lives; after any run in which another host replaced it, its close changes nothing |
| Registry.AnswerReachesOwnSession | src/signaling.c:132-173 | end to end: a composed answer of any length on a registered connection is applied to that connection's session, unchanged exactly when the codec law says |
| SignalingServer.WebRtc.SessionIdxForViewer | src/webrtc.cpp:55-62 | the loop finds the first session or returns -1 |
| SignalingServer.WebRtc.ViewerJoined | src/webrtc.cpp:192-201 | appends one session, or fails without effect when not initialised |
| SignalingServer.WebRtc.ViewerLeft | src/webrtc.cpp:203-213 | erases exactly the first session of the viewer |
| SignalingServer.WebRtc.HandleSignaling | src/webrtc.cpp:215-303 | meets the session the identifier names and applies the message, error paths included |
| SignalingServer.Signaling.Find | src/signaling.c:115-123 | the search loop of the callbacks |
| SignalingServer.Signaling.OnEstablished | src/signaling.c:64-106 | the callback is the Connect step of the registry; a `/host` connection is stored as host over any old one, any other leaves the host alone |
| SignalingServer.Signaling.OnClosed | src/signaling.c:108-130 | the callback is the Close step of the registry |
| SignalingServer.Signaling.OnReceive | src/signaling.c:132-174 | the callback returns the receipt of the registry and changes nothing |
| SignalingServer.Signaling.Shutdown | src/signaling.c:260-276 | both structures are empty afterwards |
| SignalingServer.Signaling.SendToViewer | src/signaling.c:286-299 | writes to the socket the identifier names, or fails and writes nothing |
| SignalingServer.Signaling.SendOffer | src/signaling.c:331-352 | writes the cut message to the host or fails |
| SignalingServer.Signaling.SendReply | src/signaling.c:354-386 | writes the cut message to the named viewer, else to the host, else fails |
| Slots.LowestFree | src/nearcade_internal.h:148-156 | the lowest unheld slot; -1 iff all 16 are held |
| Slots.HeldByStandingClaim | src/nearcade_internal.h:138-180 | over every history a slot is held iff some claim of it still stands, under that claim's name cut to 63 bytes |
| Slots.NoDoubleGrant | src/nearcade_internal.h:138-180 | over every history no slot is given out twice without a release in between |
| Slots.PaddedName | src/nearcade_internal.h:151-151 | the padded copy is terminated and reads as the identifier cut to 63 bytes |
| Slots.SlotManager.SlotClaim | src/nearcade_internal.h:138-161 | claims refine the map from slot to owner; names stay terminated, free slots all-zero |
| Slots.SlotManager.SlotRelease | src/nearcade_internal.h:163-180 | releases refine the map and touch no other slot; invalid and repeated releases do nothing |
| Devices.StepSound | src/input_linux.c:99-248 | every call keeps known handles open, distinct and closed once, and loses exactly what an init forgets |
| Devices.AllocInstalls | src/input_linux.c:146-224 | a successful alloc installs the new handle and closes the old one, a failed one only closes, no other entry changes |
| Devices.Outcome | src/input_linux.c:53-97 | the three codes: -2 iff the device node cannot be opened, -3 iff a write or the create ioctl fails, 0 otherwise |
| Devices.InitInstalls | src/input_linux.c:99-108 | an init leaves the table empty and the keyboard open iff it succeeded, and closes nothing else |
| Devices.FreeRemoves | src/input_linux.c:227-248 | a free removes and closes the device of its own slot and no other |
| Devices.ShutdownRemoves | src/input_linux.c:110-133 | a shutdown removes and closes every known device, each once |
| Devices.RunConserves | src/input_linux.c:99-248 | over every run what is open is what the table knows plus what was forgotten |
| Devices.NothingLeaksIff | src/input_linux.c:99-108 | the open handles are exactly the known ones after a run iff no init happened over a known handle |
| Devices.DoubleInitLeaks | src/input_linux.c:99-108 | the concrete pair of inits that leaves the first keyboard handle open and unknown |
| Devices.BracketedRunIsClean | src/input_linux.c:53-133 | from static storage, runs that shut down each successful init before the next, with any failures and retries, leave no handle lost, none closed twice, none open after a final shutdown |
| Devices.NoStrayCloseIff | src/input_linux.c:13-14 | a run from static storage makes no stray close iff its first call that reaches the table is an init |
| Devices.FreeBeforeInitIsStray | src/input_linux.c:227-248 | the concrete free that closes descriptor 0 |
| Gamepad.MaskedEqualIff | src/nearcade_internal.h:51-61 | two numbers agree under a mask iff they agree on each of its bits |
| Gamepad.ShowsLastCall | src/input_linux.c:250-304 | for any interleaving each device shows what its own last packet or flush commands, a flush leaving every control neutral; the next rows say in numbers what that is |
| Gamepad.SubmitObeyed | src/input_linux.c:277-297 | after a submit each axis shows its own field, and South, East, West, North, Tl, Tr, Select, Start, ThumbL and ThumbR show the binary digits of `buttons` worth 1, 2, 4, 8, 16, 32, 256, 512, 1024 and 2048 |
| Gamepad.LastPacketObeyed | src/input_linux.c:250-304 | and still do after any calls for other slots |
| Gamepad.ButtonsAsDigits | src/nearcade_internal.h:51-61 | the button masks as binary digits of the field |
| Gamepad.FlushNeutral | src/input_linux.c:376-402 | after a flush every control shows 0 |
| Gamepad.OneReportAtTheEnd | src/input_linux.c:250-304 | a call that writes at all writes one SYN_REPORT, as its last event |
| Gamepad.GuideNeverPressed | src/input_linux.c:297-297 | BTN_MODE is 0 in every run |
| Gamepad.SameStateIff | src/input_linux.c:277-297 | two packets give the same state iff axes, triggers, hats and buttons under 0x0F3F agree |
| InputBackend.Backend.InputInit | src/input_linux.c:53-108 | the init step with its three failure paths and codes |
| InputBackend.Backend.InputShutdown | src/input_linux.c:110-133 | the loop is the shutdown step |
| InputBackend.Backend.AllocSlot | src/input_linux.c:135-225 | the alloc step: old device destroyed first, every failure path closes what it opened |
| InputBackend.Backend.FreeSlot | src/input_linux.c:227-248 | the free step and its code |
| InputBackend.Backend.SubmitGamepad | src/input_linux.c:250-304 | writes the events of the packet, whose effect the Gamepad rows state, to its own device, or returns -5 or -3 and writes nothing |
| InputBackend.Backend.FlushSlot | src/input_linux.c:376-402 | the loop writes the neutral events, nothing for an invalid or empty slot, and returns OK |
| Viewers.FirstActive | src/nearcade.c:435-437 | the first active entry with the identifier |
| Viewers.DisconnectKeeps | src/nearcade.c:430-448 | distinct claimed slots, the counter and the device table stay well formed |
| Viewers.DisconnectFreesExactly | src/nearcade.c:430-448 | exactly the first match is deactivated and its slot and device freed, nothing else, nothing without a match or a slot |
| Viewers.OthersKeepTheirs | src/nearcade.c:430-448 | every other viewer keeps its entry, slot, name and open device |
| Viewers.Nearcade.DisconnectViewer | src/nearcade.c:430-448 | the loop over the table, the cast of the slot and the two frees compute that state |
| Lifecycle.InitEffect | src/nearcade.c:208-276 | whatever is held, a failing stage gives back exactly what was taken and success keeps every stage once |
| Lifecycle.ShutdownEffect | src/nearcade.c:352-360 | the order of shutdown releases exactly the stages of init |
| Lifecycle.RunExcess | src/nearcade.c:185-276 | after any run the ledger holds what it ought to plus every part an init while running abandoned |
| Lifecycle.BalancedIff | src/nearcade.c:344-365 | the state a run ends in is balanced iff no init of the run happened while running |
| Lifecycle.DoubleInitUnbalances | src/nearcade.c:185-276 | the concrete double init, with and without a shutdown behind it |
| Lifecycle.ExtraShutdownsDoNothing | src/nearcade.c:344-347 | any number of shutdowns of a stopped SDK change nothing |
| Lifecycle.MutexesOutlastUsers | src/nearcade.c:352-360 | over every run, at every moment inside every init, unwinding and shutdown, no part that uses the two mutexes is up unless both are |
| Lifecycle.Ladder.Init | src/nearcade.c:208-276 | the rungs write that ledger, in the listed order on success, and set running only on success |
| Lifecycle.Ladder.Shutdown | src/nearcade.c:344-365 | the calls write that ledger in the listed order, nothing when not running |
| EventQueue.RunSound | bindings/godot/src/nearcade_godot.cpp:17-24 | over every interleaving at most 256 wait, delivered then queued is a subsequence of fired, and fired = delivered + queued + dropped as multisets |
| EventQueue.DroppedOnlyWhenFull | bindings/godot/src/nearcade_godot.cpp:21-23 | the dropped events are exactly the events that fire with 256 waiting, in order |
| EventQueue.DeliveryIsFinal | bindings/godot/src/nearcade_godot.cpp:163-170 | what was delivered stays a prefix of what is |
| EventQueue.AcceptedInOrder | bindings/godot/src/nearcade_godot.cpp:17-24 | over every interleaving, delivered then waiting is exactly the events that fired with fewer than 256 waiting, in order |
| EventQueue.PollsDeliver | bindings/godot/src/nearcade_godot.cpp:163-170 | any number of polls delivers that many of the waiting events, oldest first, each once, all of them when there are fewer, and leaves the rest |
| EventQueue.NearcadeQueue.EventCallback | bindings/godot/src/nearcade_godot.cpp:17-24 | an event goes to the end of the queue if fewer than 256 wait and is dropped otherwise; nothing for a null event |
| EventQueue.NearcadeQueue.PollEvent | bindings/godot/src/nearcade_godot.cpp:163-170 | the oldest event is returned, leaves the queue and counts as delivered once; an empty queue returns none |
| Packet.EncodedFields | include/nearcade.h:112-126 | where each field stands in the 16 bytes, little-endian, two's complement |
| Packet.DecodedBytes | src/webrtc.cpp:125-133 | for every message: decoded iff it has at least 16 bytes, and then each field in numbers over its own bytes, low byte first, two's complement for sticks and hats |
| Packet.DecodeEncode | src/webrtc.cpp:125-141 | decoding undoes encoding whatever bytes follow |
| Packet.EncodeDecode | src/webrtc.cpp:125-141 | a message of 16 or more bytes re-encodes to its first 16 |
| Packet.DecodeAgreesIff | include/nearcade.h:112-126 | two messages give the same packet iff their first 16 bytes agree |
| Packet.DictionaryRoundTrip | bindings/godot/src/nearcade_godot.cpp:107-122 | a polled packet submitted again is unchanged by the narrowing casts |
| Packet.SubmittedFields | bindings/godot/src/nearcade_godot.cpp:107-122 | for every dictionary each field is its own entry, or its default, narrowed modulo 256 or 65536 into the range of its type |
| LockOrder.CheckSound | src/thread_compat.h:54-73 | every execution of checked code nests only the five permitted pairs and leaves what the check says |
| LockOrder.EveryOperationClean | src/nearcade.c:434-446 | every return path of every operation, the internal callbacks included, releases what it took |
| LockOrder.SomeoneEnabled | src/webrtc.cpp:224-303 | while any thread has work left some thread can move |
| LockOrder.CanFinish | src/signaling.c:147-172 | from every orderly state some schedule lets every thread finish |
| LockOrder.NoDeadlock | src/signaling.c:69-104 | any number of threads, any operations, any schedule: no deadlock, every state can be run to the end, no lock held at the end |
| LockOrder.OnlyTheseNestings | src/webrtc.cpp:224-303 | under any schedule of any threads no other pair is ever nested |
| LockUse.TakesIffCan | src/thread_compat.h:54-73 | for every piece of code, some execution takes a lock iff a function of the code alone says so |
| LockUse.LocksTaken | src/webrtc.cpp:192-303 | for each of the 27 operations exactly which locks some execution takes |
| LockNesting.NestingIffCan | src/thread_compat.h:54-73 | for every checked piece of code, some execution takes one lock under another iff a function of the code alone says so |
| LockNesting.LocksNested | src/signaling.c:69-173 | for each operation exactly which lock some execution takes under which; joining a viewer nests nothing |
| LockNesting.NestingsThatOccur | src/nearcade.c:434-446 | one lock is taken under another in some execution of some operation iff the pair is viewer over slots or input, or session over input, sockets or queue |
| WholeSdk.StepKeeps | src/nearcade.c:208-276 | init with any failing stage, shutdown, devices and callbacks keep ledger, handles and registry in step |
| WholeSdk.StoppedHoldsNothing | src/nearcade.c:344-365 | over every run without an init while running: a stopped SDK has no open uinput handle, an empty socket table, no session and no part up; a running one has each part once and every open handle known |

## Left out

- libwebsockets and libdatachannel: an environment that fires callbacks and accepts sends; an exception thrown by the WebRTC library (src/webrtc.cpp:297-300) is not part of this model.
- Shutdown racing the service thread, and late callbacks of erased sessions: nothing in the code orders them, so stopping is one sequential step.
- The messages built by `onLocalDescription` and `onLocalCandidate` (src/webrtc.cpp:99-121): they do not go through `json_escape`.
- Delivery of video frames: `connected` is never set, so the send loop writes nothing.
- Pairing of joined and left events: the library decides when they fire.
- Failing writes of single input events, keyboard and mouse submission and the stored device names: easy members.
- Null arguments other than those modelled with `None`; `json_escape` with a buffer of size 0, which no caller uses.
- `nearcade_set_viewer_input_mode`, `nearcade_set_controller_type`, the `ctrl_*` tables, key names, PIN, LAN address, logging, capture, Windows and macOS input.
- Surrogate halves in `\u` escapes: the reference JSON decoder does not decode them; `json_escape` never writes them.
- LockOrder.EveryOperationClean: the skeletons keep locking and branching only; the data decisions inside are free choices, so more paths are covered than the code has.
- WholeSdk.StoppedHoldsNothing: builds with signalling only; a failure of the listening socket counts as the last stage failing.
