# PlayLink playout control — a Dafny model

This is a model of PlayLink, a small broadcast playout system. It has three parts that cooperate:

- **The studio gateway** (`playlink-studio/Backend/server.js`). This HTTP server keeps one TCP link to a CasparCG playout server and speaks its AMCP text protocol to it.
  - The gateway tracks whether the link is up.
  - It turns control requests (load, play, pause, clear, template add and stop) into single AMCP command lines. A command line is written only while the link is up.
  - It asks for the media list (`CLS`) and the template list (`TLS`). It collects the reply until the reply is complete or a 2 s deadline passes. Then it parses the reply into JSON records.
- **The studio front end** (`playlink-studio/frontend/src/App.jsx`). This is the operator's rundown and live engine.
  - It holds playlists of items, each with attached graphics.
  - The operator edits the playlists: moves, drags, deletes and updates. Locked playlists refuse these edits.
  - The operator cues items, takes them on air, plays graphics and stops layers. A panic clears a whole channel.
  - A 1 Hz timer counts down every on-air layer. It pauses a video, or stops a template clip, when the clip ends. When auto-next is on, it takes the following item.
- **The show-control manager** (`playlink-manager/src/App.jsx`). This is a console for a Superconductor show controller.
  - It imports the controller's rundown.
  - It keeps a preview item and a program item, and an on-air countdown.
  - It takes and stops parts. It edits items and their graphics.

## Modules

| module | file | what it holds |
|---|---|---|
| `JsCore` | `js_core.dfy` | The JavaScript built-ins the core relies on. These are `trim`, `split`, `split(/\r?\n/)`, `parseInt`, number-to-text, and `JSON.stringify` of a flat string object. Values that may be `NaN` are the datatype `Number = NaN \| Num(int)`. |
| `AmcpCommands` | `amcp_commands.dfy` | The control requests and the AMCP line each one writes. |
| `AmcpReplies` | `amcp_replies.dfy` | The `CLS` and `TLS` reply parsers, including the regular expression of the media route written out as a scanner. |
| `AmcpBridge` | `amcp_bridge.dfy` | The class `ListQuery` (one pending list query) and the class `Gateway` (the connection flag and the socket writes). Also the two list routes. |
| `Rundown` | `rundown.dfy` | The studio's playlists and the edits made to them. |
| `Layers` | `layers.dfy` | The records on air, keyed by `channel-layer`. It covers what one tick does to a record and the map edits the live engine makes. |
| `Studio` | `studio.dfy` | The class `LiveEngine`. This is the studio's transport, graphics, stop, panic and tick logic. Every timer is an explicit pending event. |
| `Manager` | `manager.dfy` | The manager's take/stop logic, item edits, rundown import, and the class `Console`. |

In the model, time is a sequence of events. The model does not read a clock.

- **Studio timers.** Each timer the studio starts is recorded as pending. The environment fires it by calling a method:
  - `Tick` for the 1 s interval;
  - `TimerFired` for a graphic's expiry timer;
  - `GraceExpired` for the removal 2 s after `cgStop`;
  - `DelayedGfxDue` for a take's delayed graphic;
  - `DeferredTakeDue` for the 200 ms deferred take.
- **Gateway.** `ListQuery.OnData` delivers one chunk of a reply. `ListQuery.OnDeadline` is the 2 s deadline.
- **Manager.** `Console.CountDown` is one second of the countdown.

The studio's JavaScript object of active layers has an insertion order, and this order decides two things:

- the order in which a tick sends its commands;
- which auto-next request wins.

So the layer map is a Dafny `map` together with its key sequence.

In several places the code behaves otherwise than a reader might expect, and the model follows the code:

- **CLS error replies.** An error status line such as `501 CLS ERROR` completes the query and resolves it. It is not treated as a failure: the route answers 200 with an empty list. See `AmcpBridge.ErrorReplyAnswersEmpty`.
- **Zero or missing duration.** A take counts down from `parseInt(duration) || 30`. So a duration of 0, or one that does not read as a number, means 30 seconds. It does not mean "ends at once".
- **Negative duration.** A negative count is never touched by a tick, so a clip taken with a negative duration never ends. See `Layers.NegativeNeverEnds`.
- **Panic and timers.** A panic clears the channel's layers but cancels no timer. A graphic's expiry timer armed before the panic still fires afterwards.
- **Expiry handles.** `playGfx` overwrites the key's expiry timer handle without cancelling the earlier timer, so that timer still fires.
- **`cgStop` removal.** The 2 s removal after `cgStop` cannot be cancelled. It removes whatever the key holds by then.

## Model

| member | source | states |
|---|---|---|
| `JsCore.Trim` | playlink-studio/Backend/server.js:112 | the result is empty exactly when the line is all white space; otherwise it starts and ends with a non-space character |
| `JsCore.TrimSpec` | playlink-studio/Backend/server.js:112 | trimming removes white space from the two ends and nothing else: the line is the trimmed text with only white space before and after it |
| `JsCore.SplitOnJoin` | playlink-studio/frontend/src/App.jsx:645 | `split(sep)` loses nothing: joining the parts with the separator gives back the text |
| `JsCore.JoinSplitOn` | playlink-studio/frontend/src/App.jsx:657 | splitting parts that hold no separator, after joining them, gives back the parts |
| `JsCore.SplitLinesJoin` | playlink-studio/Backend/server.js:87 | `split(/\r?\n/)` keeps every character except the line breaks and the CR before each LF |
| `JsCore.SplitLinesCRLF` | playlink-studio/Backend/server.js:87 | a line that ends with CR LF is split off as a line of its own, without the CR |
| `JsCore.NatToStringValue` | playlink-studio/frontend/src/App.jsx:561 | a number rendered in decimal reads back as the same number |
| `JsCore.NatToStringInjective` | playlink-studio/frontend/src/App.jsx:561 | distinct numbers render as distinct texts |
| `JsCore.ParseIntOfDigits` | playlink-studio/Backend/server.js:94 | `parseInt` of a run of decimal digits is the value of those digits |
| `JsCore.ParseIntOfNat` | playlink-studio/frontend/src/App.jsx:569 | `parseInt` of a rendered number gives back that number |
| `JsCore.JsonEscapeRoundTrip` | playlink-studio/Backend/server.js:202 | the string escaping of `JSON.stringify` is undone by JSON string unescaping |
| `AmcpCommands.LoadLoopFlag` | playlink-studio/Backend/server.js:173-179 | `load` writes `LOADBG ch-layer "file" AUTO`, followed by ` LOOP` exactly when the request asks for a loop |
| `AmcpCommands.ClearTarget` | playlink-studio/Backend/server.js:193-198 | `clear` names `ch-layer` exactly when the layer is non-empty, and otherwise clears the whole channel |
| `AmcpCommands.AmcpEscapeReadOn` | playlink-studio/Backend/server.js:202 | with backslashes escaped as well as quotes, the server reads the escaped text back exactly, and a quote right after it closes the parameter |
| `AmcpCommands.EscapesAgree` | playlink-studio/Backend/server.js:202 | on text without a backslash, escaping quotes alone is the escaping the server needs |
| `AmcpCommands.CgDataAgrees` | playlink-studio/Backend/server.js:202 | when no key or value holds a quote, a backslash or a control character, the data argument as written equals the corrected one |
| `AmcpCommands.EscapeQuotesGuarded` | playlink-studio/Backend/server.js:202 | after the route's escaping every double quote has a backslash right before it (backslashes already in the text stay bare, see Findings) |
| `AmcpCommands.CgDataRoundTrip` | playlink-studio/Backend/server.js:202 | with the corrected escaping, the server reads the data parameter back as the JSON of the data for every object with a key |
| `AmcpCommands.CgAddQuoteCut` | playlink-studio/Backend/server.js:202 | as written, a value holding a quote makes the server read a cut-off parameter, not the JSON of the data |
| `AmcpCommands.CgAddData` | playlink-studio/Backend/server.js:200-206 | the line the route writes: `cg-add` adds the quoted data parameter exactly when the data has a key; its payload is `JSON.stringify(data)` with every double quote escaped; when no key or value holds a quote, a backslash or a control character, the server reads the payload back as the JSON of the data, up to the closing quote |
| `AmcpCommands.CommandNoLineBreak` | playlink-studio/Backend/server.js:173-213 | when the request fields hold no line break, neither does any command line the routes build from them, the `cg-add` line with its quote-escaped data included |
| `AmcpCommands.OneCommandPerWrite` | playlink-studio/Backend/server.js:177 | a written command line with its CR LF splits into exactly that one line, so each write is one AMCP command |
| `AmcpReplies.FirstMediaFound` | playlink-studio/Backend/server.js:91 | the match the regular-expression scan finds from a position lies at that position or later, and the record it gives is well formed |
| `AmcpReplies.MediaAtWellFormed` | playlink-studio/Backend/server.js:91-95 | a match has a non-empty name without quotes, a non-empty word-character type, a size that is a number of 0 or more, and a non-empty all-digit date |
| `AmcpReplies.MediaSizeIsParseInt` | playlink-studio/Backend/server.js:94 | the size recorded for a line is `parseInt` of the digits the line holds |
| `AmcpReplies.MediaListMembers` | playlink-studio/Backend/server.js:86-96 | a record is in the parsed media list exactly when some line of the reply yields it; every listed record is well formed |
| `AmcpReplies.MediaLineRoundTrip` | playlink-studio/Backend/server.js:91-95 | a media line in the server's own layout parses back to exactly the record it was written from |
| `AmcpReplies.TemplateLine` | playlink-studio/Backend/server.js:111-119 | a template line gives a record exactly when, once trimmed, it is non-empty and does not start with `200`, `4` or `5`; the name is the first quoted text, or else the trimmed line; size 0 and an empty date |
| `AmcpReplies.TemplateLinesKept` | playlink-studio/Backend/server.js:108-120 | the template list has one record per kept line, in order |
| `AmcpReplies.QuotedTemplateLine` | playlink-studio/Backend/server.js:116-117 | a kept line with a quoted name lists that name |
| `AmcpReplies.BareTemplateLine` | playlink-studio/Backend/server.js:118 | a kept line without quotes lists its trimmed text |
| `AmcpReplies.StatusLineNoMedia` | playlink-studio/Backend/server.js:89 | a line without a quote, such as the status line, yields no media record |
| `AmcpReplies.StatusLineNoTemplate` | playlink-studio/Backend/server.js:113 | an error status line (starting with `4` or `5`) yields no template record |
| `AmcpReplies.BlankLineDropped` | playlink-studio/Backend/server.js:113 | a blank line yields neither a media record nor a template record |
| `AmcpReplies.ErrorReplyListsNoMedia` | playlink-studio/Backend/server.js:86-97 | a one-line error reply parses to an empty media list |
| `AmcpReplies.ErrorReplyListsNoTemplate` | playlink-studio/Backend/server.js:108-121 | a one-line error reply parses to an empty template list |
| `AmcpBridge.CompletionRule` | playlink-studio/Backend/server.js:58-63 | an error status line is complete as soon as its CR LF arrives; a `200` reply is complete only once it ends with an empty line |
| `AmcpBridge.ListQuery.Pending` | playlink-studio/Backend/server.js:55-67 | a query that has been issued starts unsettled, with an empty buffer |
| `AmcpBridge.ListQuery.Offline` | playlink-studio/Backend/server.js:54 | a query issued offline fails at once with `CasparCG Offline` |
| `AmcpBridge.ListQuery.OnData` | playlink-studio/Backend/server.js:56-65 | while the query is unsettled, a chunk is appended; the query resolves with the whole buffer exactly when the buffer becomes complete; once settled, nothing changes; no unsettled query holds a complete reply |
| `AmcpBridge.ListQuery.OnDeadline` | playlink-studio/Backend/server.js:68-72 | at the deadline, an unsettled query resolves with its partial buffer, or fails with `Timeout AMCP` when the buffer is empty; a settled result is kept |
| `AmcpBridge.Gateway.OnConnect` | playlink-studio/Backend/server.js:33-36 | a connect sets the flag and writes nothing |
| `AmcpBridge.Gateway.OnDisconnect` | playlink-studio/Backend/server.js:38-47 | an error or a close clears the flag and writes nothing |
| `AmcpBridge.Gateway.Health` | playlink-studio/Backend/server.js:78-80 | `/health` says the gateway is online, and says the playout link is up exactly when it is connected |
| `AmcpBridge.Gateway.Control` | playlink-studio/Backend/server.js:173-213 | a control route writes its command line and CR LF only while connected, always answers success, and keeps every write one framed line |
| `AmcpBridge.Gateway.StartQuery` | playlink-studio/Backend/server.js:52-67 | offline, the query fails and nothing is written; online, the command and CR LF are written and the query waits |
| `AmcpBridge.MediaRouteSpec` | playlink-studio/Backend/server.js:83-102 | the status is 500 exactly when the route is connected and the query failed, and 200 otherwise; a record is listed exactly when the route is connected, the query resolved, and some line of the reply yields it; every listed record is well formed |
| `AmcpBridge.TemplateRouteSpec` | playlink-studio/Backend/server.js:105-126 | the same statuses; nothing is listed offline or after a failure; after a reply there is one record per line the filter keeps, in line order, each read from its line |
| `AmcpBridge.ErrorReplyAnswersEmpty` | playlink-studio/Backend/server.js:61-63 | an error status from the playout server completes the query, and both list routes then answer 200 with an empty list |
| `Rundown.SwapAdjacentSpec` | playlink-studio/frontend/src/App.jsx:266-271 | the up/down swap is a permutation; it trades the entry and its neighbour when that neighbour exists, and otherwise changes nothing |
| `Rundown.MoveToSpec` | playlink-studio/frontend/src/App.jsx:331-333 | splice-out then splice-in is a permutation; it puts the dragged entry at the drop index and keeps the others in order |
| `Rundown.FindIndex` | playlink-studio/frontend/src/App.jsx:536 | `findIndex` gives the first position with the id, or -1 when no position has it |
| `Rundown.FindPlaylist` | playlink-studio/frontend/src/App.jsx:495 | `find` gives a playlist with the id, or none when no playlist has it |
| `Rundown.Holder` | playlink-studio/frontend/src/App.jsx:481 | the playlist found holds the item, or no playlist holds it |
| `Rundown.HolderFirst` | playlink-studio/frontend/src/App.jsx:481 | the playlist found is the first one that holds the item |
| `Rundown.LastSomeNone` | playlink-studio/frontend/src/App.jsx:535-540 | a `forEach` that overwrites its result finds nothing exactly when no step found anything |
| `Rundown.LastSomeLast` | playlink-studio/frontend/src/App.jsx:535-540 | what such a `forEach` ends with is the last thing any step found |
| `Rundown.NextInSpec` | playlink-studio/frontend/src/App.jsx:536-538 | a playlist has a next item exactly when the first item with the id is not its last item; the next item is the one right after it |
| `Rundown.NextAfterSpec` | playlink-studio/frontend/src/App.jsx:534-540 | there is a next item exactly when some playlist has one; it comes from the last such playlist |
| `Rundown.FindItemSpec` | playlink-studio/frontend/src/App.jsx:552-557 | a take from preview finds an item exactly when some playlist holds the id; it plays the first such item of the last playlist holding one |
| `Rundown.MoveItemSpec` | playlink-studio/frontend/src/App.jsx:263-274 | every playlist keeps its id, its lock and its entries; locked and other playlists are unchanged; in the target the items become the adjacent swap: the entry and its neighbour trade places and every other position keeps its entry, and a move without a neighbour changes nothing |
| `Rundown.DropSpec` | playlink-studio/frontend/src/App.jsx:316-340 | a drop across playlists or onto the same place changes nothing; otherwise the dragged entry lands at the drop index, the rest keep their order, and locked or other playlists are untouched |
| `Rundown.WithoutSpec` | playlink-studio/frontend/src/App.jsx:500 | the filter keeps exactly the items with another id; it is the identity when no item has the id |
| `Rundown.WithoutAppend` | playlink-studio/frontend/src/App.jsx:500 | the filter works entry by entry: it keeps or drops each item on its own, so the kept items stay in order with their repetitions |
| `Rundown.DeleteItemSpec` | playlink-studio/frontend/src/App.jsx:494-501 | a refused delete changes nothing; otherwise only the playlists with that id change, and their items become the filter of their items: exactly those with another id, in order |
| `Rundown.DeleteRefusedSpec` | playlink-studio/frontend/src/App.jsx:495-496 | a delete is refused exactly when the first playlist with that id is locked |
| `Rundown.UpdateItemSpec` | playlink-studio/frontend/src/App.jsx:480-492 | a refused update changes nothing; otherwise each item with the id becomes `f` of it, and every other item, lock, id and length stays as it was |
| `Rundown.UpdateRefusedSpec` | playlink-studio/frontend/src/App.jsx:480-482 | an update is refused exactly when the first playlist holding the item is locked |
| `Rundown.MoveGfxSpec` | playlink-studio/frontend/src/App.jsx:276-286 | a refused update or another item changes nothing; in the target item the graphics become the adjacent swap: the graphic and its neighbour trade places, every other position keeps its graphic, and the rest of the item stays |
| `Rundown.WithoutGfxSpec` | playlink-studio/frontend/src/App.jsx:290 | the graphics filter keeps exactly the graphics with another id |
| `Rundown.WithoutGfxAppend` | playlink-studio/frontend/src/App.jsx:290 | the graphics filter works entry by entry, keeping order and repetitions |
| `Rundown.DeleteGfxSpec` | playlink-studio/frontend/src/App.jsx:288-293 | a refused update or another item changes nothing; in the target item the graphics become exactly those with another id, in order, and the rest of the item stays |
| `Layers.KeySplit` | playlink-studio/frontend/src/App.jsx:645 | splitting a `channel-layer` key gives back its channel and layer texts |
| `Layers.KeyInjective` | playlink-studio/frontend/src/App.jsx:561 | distinct channel/layer pairs have distinct keys |
| `Layers.KeyCommands` | playlink-studio/frontend/src/App.jsx:644-676 | panic, `cgStop` and `stopLayer` read a key's own channel and layer back out of it |
| `Layers.TakeRemaining` | playlink-studio/frontend/src/App.jsx:569 | the countdown is never 0; it is the parsed duration when that is a non-zero number, and 30 when the duration reads as 0 or as no number |
| `Layers.TakeRemainingOfNat` | playlink-studio/frontend/src/App.jsx:569 | a duration of n seconds counts down from n, or from 30 when n is 0 |
| `Layers.TakeAddressesKey` | playlink-studio/frontend/src/App.jsx:561-594 | the command a take sends addresses the very key its record is kept under, and a stop or clear of that key addresses the same layer |
| `Layers.GraphicTicks` | playlink-studio/frontend/src/App.jsx:608-620 | a graphic is never ended by the tick: it stays a `GFX` record with its other fields, a counting graphic without loop loses one second per tick down to 0, and a `MANUAL` or looping one stays as it is |
| `Layers.ScheduledFromSpec` | playlink-studio/frontend/src/App.jsx:596-600 | a take schedules exactly the graphics with a delay of 0 or more, each on its own channel or the item's |
| `Layers.TickLayer` | playlink-studio/frontend/src/App.jsx:690-722 | a tick changes only the count and the finished flag; infinite and negative records stay; a positive count drops by one; a clip at 0 is marked finished once |
| `Layers.TicksAdd` | playlink-studio/frontend/src/App.jsx:684 | a run of ticks splits into two shorter runs |
| `Layers.TicksFixed` | playlink-studio/frontend/src/App.jsx:696-697 | a record one tick leaves alone stays the same through any number of ticks |
| `Layers.FinishedStays` | playlink-studio/frontend/src/App.jsx:701-702 | a clip whose end was handled never has its end handled again |
| `Layers.Countdown` | playlink-studio/frontend/src/App.jsx:698-699 | a counting record loses exactly one second per tick until it reaches 0 |
| `Layers.EndsExactlyOnce` | playlink-studio/frontend/src/App.jsx:694-711 | the end of a non-looping clip is handled on exactly one tick: the one after `remaining` ticks |
| `Layers.NegativeNeverEnds` | playlink-studio/frontend/src/App.jsx:698-722 | a record with a negative count is never changed by a tick and never ends |
| `Layers.FilterSpec` | playlink-studio/frontend/src/App.jsx:675-677 | filtering keeps exactly the keys that pass the test, without repeating any |
| `Layers.PutSpec` | playlink-studio/frontend/src/App.jsx:564-573 | setting a key sets only that key; an existing key keeps its place and a new key goes last; the map stays well keyed |
| `Layers.RemoveSpec` | playlink-studio/frontend/src/App.jsx:662-666 | `delete` removes only that key, keeps the map well keyed, and is the identity when the key is absent |
| `Layers.FilterAll` | playlink-studio/frontend/src/App.jsx:675-677 | a filter that every key passes changes nothing |
| `Layers.PanicSpec` | playlink-studio/frontend/src/App.jsx:673-679 | a panic on channel c removes exactly the layers on c and keeps every other layer, in its order |
| `Layers.TickMapSpec` | playlink-studio/frontend/src/App.jsx:685-730 | a tick ticks every record and keeps the same keys in the same order |
| `Layers.TickedPrefixAll` | playlink-studio/frontend/src/App.jsx:690-723 | the key-by-key walk builds exactly the ticked map |
| `Layers.TickCommandsCount` | playlink-studio/frontend/src/App.jsx:701-710 | online, a tick sends exactly one command per ending record; offline it sends none |
| `Layers.TickCommandsFrom` | playlink-studio/frontend/src/App.jsx:705-710 | every command a tick sends is the end command (pause or stop) of a record that ends on that tick |
| `Layers.TickQuietAfterEnd` | playlink-studio/frontend/src/App.jsx:701-702 | a record that ended on a tick does not end again on any later tick |
| `Layers.TickNextSpec` | playlink-studio/frontend/src/App.jsx:712-728 | auto-next takes nothing while the switch is off; otherwise it takes the item after the last ending record (in key order) that asks, and nothing when no such record has a next item |
| `Studio.TakeTargetSpec` | playlink-studio/frontend/src/App.jsx:549-559 | a take plays the item it is given; otherwise the first item with the cued id in the last playlist holding one; nothing when nothing is cued or no playlist holds it |
| `Studio.FirstPlaying` | playlink-studio/frontend/src/App.jsx:531 | the reference is a playing video or template clip; when there is none, no layer is one |
| `Studio.FirstPlayingFirst` | playlink-studio/frontend/src/App.jsx:531 | the reference is the id of the first playing video or template clip in key order |
| `Studio.NextTarget` | playlink-studio/frontend/src/App.jsx:530-541 | with an item cued, next is the item after it; otherwise the item after the first playing clip, and nothing when no clip plays or its id is empty |
| `Studio.CueMatchesTake` | playlink-studio/frontend/src/App.jsx:512-519 | online, a cue sends the very `load` the take sends again, and nothing for a template clip; offline it sends nothing |
| `Studio.TickRecord` | playlink-studio/frontend/src/App.jsx:691-711 | one record's turn in a tick gives the ticked record, plus its end command and scheduled removal exactly when it ends |
| `Studio.TickWalk` | playlink-studio/frontend/src/App.jsx:686-723 | the `forEach` over the keys builds the ticked map, the end commands and removals in key order, and the auto-next item |
| `Studio.LiveEngine.constructor` | playlink-studio/frontend/src/App.jsx:144-161 | the engine starts offline, with nothing on air, no timers and nothing sent |
| `Studio.LiveEngine.OnHealth` | playlink-studio/frontend/src/App.jsx:145-157 | the studio's flag follows the gateway's `casparConnection`, and a failed poll clears it |
| `Studio.LiveEngine.Send` | playlink-studio/frontend/src/App.jsx:80-91 | a command is posted only while the studio sees the gateway online |
| `Studio.LiveEngine.MoveItem` | playlink-studio/frontend/src/App.jsx:263-274 | the playlists become their up/down-moved copy |
| `Studio.LiveEngine.Drop` | playlink-studio/frontend/src/App.jsx:316-340 | the playlists become their dragged copy |
| `Studio.LiveEngine.UpdateItem` | playlink-studio/frontend/src/App.jsx:480-492 | the playlists become their updated copy |
| `Studio.LiveEngine.DeleteItem` | playlink-studio/frontend/src/App.jsx:494-503 | a delete that is not refused removes the item, and clears the selection when the selection was that item |
| `Studio.LiveEngine.Cue` | playlink-studio/frontend/src/App.jsx:507-520 | the item becomes cued and selected, and its cue commands are posted |
| `Studio.LiveEngine.PlayPlaylist` | playlink-studio/frontend/src/App.jsx:522-528 | the first item of a non-empty playlist is cued and its take is scheduled; otherwise nothing changes |
| `Studio.LiveEngine.Next` | playlink-studio/frontend/src/App.jsx:530-547 | the next item, if any, is cued; otherwise nothing changes |
| `Studio.LiveEngine.Take` | playlink-studio/frontend/src/App.jsx:549-602 | with nothing to play nothing changes; otherwise only the item's key is set, the cue is cleared, the take command is posted and the delayed graphics are scheduled; the map stays well keyed |
| `Studio.LiveEngine.TakeItem` | playlink-studio/frontend/src/App.jsx:561-601 | the take of a known item, with the same effects as `Take` |
| `Studio.LiveEngine.PlayGfx` | playlink-studio/frontend/src/App.jsx:604-642 | the graphic's key is set and its `cg-add` posted; with a positive duration and no loop, a fresh timer is armed and registered at the key, and the earlier handle is overwritten without cancelling its timer |
| `Studio.LiveEngine.CgStopLayer` | playlink-studio/frontend/src/App.jsx:644-654 | the stop is posted at once, and the key's removal is scheduled |
| `Studio.LiveEngine.StopLayer` | playlink-studio/frontend/src/App.jsx:656-668 | the key's registered timer is cancelled and forgotten, only that key is removed, and a clear of it is posted |
| `Studio.LiveEngine.PanicChannel` | playlink-studio/frontend/src/App.jsx:670-680 | one whole-channel clear is posted and exactly that channel's layers leave the map; timers are untouched |
| `Studio.LiveEngine.Tick` | playlink-studio/frontend/src/App.jsx:683-734 | the map becomes the ticked map; the ending records' commands are posted and their removals scheduled in key order; the auto-next item, if any, is scheduled for a take |
| `Studio.LiveEngine.TimerFired` | playlink-studio/frontend/src/App.jsx:632-639 | an expiry in `AUTO_FINISH` mode stops the graphic with `cgStop`, in `TIMER` mode with `stopLayer`, and in any other mode does nothing |
| `Studio.LiveEngine.GraceExpired` | playlink-studio/frontend/src/App.jsx:647-653 | 2 s after `cgStop` the key leaves the map, whatever it holds by then |
| `Studio.LiveEngine.DelayedGfxDue` | playlink-studio/frontend/src/App.jsx:598 | a delayed graphic plays on its default channel as `playGfx` does |
| `Studio.LiveEngine.DeferredTakeDue` | playlink-studio/frontend/src/App.jsx:526 | a deferred take takes its item as `handleTake(item)` does |
| `Studio.TakenClipEndsOnce` | playlink-studio/frontend/src/App.jsx:564-711 | after a take, a non-looping clip's end is handled on exactly the tick its duration (or 30) says |
| `Studio.ManualGraphicStays` | playlink-studio/frontend/src/App.jsx:615-617 | a `MANUAL` graphic stays as it is through every tick |
| `Manager.DurationOr30` | playlink-manager/src/App.jsx:207 | the countdown is the item's duration when that is a non-zero number, and 30 otherwise |
| `Manager.IndexOfId` | playlink-manager/src/App.jsx:202 | `findIndex` gives the first position with the id, or -1 when no position has it |
| `Manager.IndexOfIdByIds` | playlink-manager/src/App.jsx:201-202 | the position found depends only on the items' ids |
| `Manager.AllStoppedSpec` | playlink-manager/src/App.jsx:222 | stopping clears every playing flag, changes nothing else, and doing it twice is doing it once |
| `Manager.TakenSpec` | playlink-manager/src/App.jsx:201-204 | after a take exactly the taken item is playing, and only flags change |
| `Manager.StopAfterTake` | playlink-manager/src/App.jsx:201-222 | stopping after a take gives what stopping before it would |
| `Manager.TakenKeepsIds` | playlink-manager/src/App.jsx:201-204 | a take keeps the ids, so the id still leads to the same position |
| `Manager.WithFieldSpec` | playlink-manager/src/App.jsx:228 | writing a field keeps the id, and writing it twice is writing it once |
| `Manager.UpdateEntriesSpec` | playlink-manager/src/App.jsx:227-231 | only the items with the id change, by the field write; ids and order are kept; the edit is idempotent |
| `Manager.UpdateEntriesCommute` | playlink-manager/src/App.jsx:226-234 | edits of two different items can be made in either order |
| `Manager.WithoutGfx` | playlink-manager/src/App.jsx:244 | the filter keeps exactly the graphics with another id, and is the identity when none has that id |
| `Manager.WithoutGfxAppend` | playlink-manager/src/App.jsx:244 | the filter keeps the order of what it keeps |
| `Manager.AddGfxSpec` | playlink-manager/src/App.jsx:236-239 | each target item gets exactly the new graphic, appended at the end; other items and other fields stay as they were |
| `Manager.RemoveGfxSpec` | playlink-manager/src/App.jsx:243-245 | each target item's graphics become the filter of its graphics: exactly those with another id, in order; other items and other fields stay as they were |
| `Manager.AddThenRemove` | playlink-manager/src/App.jsx:236-247 | removing a graphic right after adding it under the same id leaves no trace of the addition |
| `Manager.NewGfxIds` | playlink-manager/src/App.jsx:237 | graphics created at different times get different ids |
| `Manager.AddNewThenRemove` | playlink-manager/src/App.jsx:236-247 | removing the graphic just created, when no graphic of the target items shares its id, gives the rundown back |
| `Manager.MapPartsSpec` | playlink-manager/src/App.jsx:161-170 | each part becomes one item, in order, with its uuid or `local_<index>`, its name or `Untitled`, its slug or `No Media`, its duration or 30, on layer `10`, not playing, with no graphics |
| `Manager.LocalIdsDistinct` | playlink-manager/src/App.jsx:162 | parts without a uuid get distinct local ids |
| `Manager.ChooseRundownId` | playlink-manager/src/App.jsx:140-153 | a chosen rundown id is never empty, and only a reply can give one |
| `Manager.ChooseRundownIdSpec` | playlink-manager/src/App.jsx:142-151 | the choice is the first `rundownIds` entry when there is one, otherwise the first listed rundown's uuid or id; a reply that names none opens nothing |
| `Manager.Console.constructor` | playlink-manager/src/App.jsx:136-189 | the console starts with an empty rundown, nothing cued or on air, and no calls |
| `Manager.Console.Cue` | playlink-manager/src/App.jsx:193-195 | the item becomes the preview |
| `Manager.Console.Take` | playlink-manager/src/App.jsx:197-211 | with nothing cued nothing happens; otherwise `/playPart/` is called; when the id is in the rundown, that item alone plays, the preview goes on air with its duration (or 30) and the next item is cued |
| `Manager.Console.StopAll` | playlink-manager/src/App.jsx:218-223 | `/stopPart/` is called, nothing is on air, the countdown is 0, no item plays, and the preview stays |
| `Manager.Console.CountDown` | playlink-manager/src/App.jsx:250-256 | the countdown runs down by one only while something is on air and it is above 0 |
| `Manager.Console.UpdateItemField` | playlink-manager/src/App.jsx:226-234 | the rundown and the preview and program copies with that id get the field; nothing else changes |
| `Manager.Console.AddGfx` | playlink-manager/src/App.jsx:236-241 | the graphic is appended to the rundown items and to the preview with that id, but not to the program copy |
| `Manager.Console.RemoveGfx` | playlink-manager/src/App.jsx:243-247 | the graphic leaves the rundown items and the preview with that id, but not the program copy |
| `Manager.Console.Sync` | playlink-manager/src/App.jsx:136-184 | the calls are the rundown list, then the chosen rundown's detail, then the project; the chosen id becomes active and its parts, when present, become the rundown |

## Left out

- The TCP socket, its 5 s reconnect and the HTTP server are not modelled. Socket events are methods of `Gateway`, and the routes are functions of the connection flag and of how the query settled.
- The FTP sync route, the studio's library fetch, presets, playlist creation, locking, import/export, expansion toggles and adding items to a playlist are not part of this model. They are file transfer or UI, outside the playout core.
- Real time is not modelled. Every timer is a pending event, and the environment chooses when it fires. So the model allows any order of firing; JavaScript fires timers in order of their due times.
- `Studio.LiveEngine.Tick`: the interval callback sees the connection flag of the render that created it. The model reads the current `online` flag.
- React batches state updates and renders between events. The model applies each update at once, in program order.
- The fetch results of `sendCasparCommand` and of the manager's show-controller calls are not modelled. A studio post is recorded as a `ControlRequest`, and a manager call as a `ScCall`. The manager changes its state whatever the call returned, as the code does.
- The manager's project resources (`/project/` media list) are not modelled. They are display data only; `Sync` records the call.
- The manager's `handlePlayNext` is not modelled. It only calls `/playNext/` and logs.
- Logging, `startTime` and the UI are not modelled.
- `Manager.Console.UpdateItemField`: the field is one of the item's known fields. Writing a field name the item does not have (a new key) is not modelled.
- `Manager.WithoutGfx`: `removeGfxFromItem` on an item whose `gfxItems` is undefined throws in the code. The model always has a list.
- `Studio.LiveEngine.UpdateItem`: the partial-object merge `{...i, ...updates}` is given as a function from item to item. The object form of the argument is that function's special case.
- `JsCore.ParseIntOfDigits`: `parseInt` is modelled for decimal and `0x` hexadecimal text with an optional sign and leading white space. Integers are exact, so precision loss above 2^53 is not modelled.
- Item and graphic durations are whole seconds. Fractional durations are not modelled.
- `Rundown.MoveToSpec`: a negative drag or drop index, or a drag index past the end, is treated as no move. In the code, `splice` counts a negative index from the end, and a drag past the end inserts `undefined`. The drag handlers only pass indices of existing entries.
- `Rundown.SwapAdjacentSpec`: the swap needs both positions inside the list and otherwise changes nothing. In the code, an up move from an index at or past the end, or a down move from a negative index, writes `undefined` into the list and can lengthen it. The up and down buttons only pass indices of listed entries.
- `Rundown.MoveItemSpec`: out-of-range indices leave the playlist unchanged in the model; the code writes `undefined` into it, as described for `Rundown.SwapAdjacentSpec`.
- `Rundown.MoveGfxSpec`: out-of-range indices leave the graphics list unchanged in the model; the code writes `undefined` into it, as described for `Rundown.SwapAdjacentSpec`.
- `AmcpCommands.CgAddData`: the server reading the route's payload back as the JSON of the data is proved only for data whose keys and values hold no quote, backslash or control character. For other data the route as written cuts the parameter short (see Findings and `AmcpCommands.CgAddQuoteCut`).
- `AmcpCommands.CgData`: this is the corrected data argument, with backslashes escaped as well as quotes. The gateway does not use it; it writes the route's argument, `AmcpCommands.CgDataAsWritten`.
- The playout server's AMCP parser is not part of this model. `AmcpCommands.ReadQuoted` states how the model assumes it reads a quoted parameter: a backslash takes the next character literally, and the first quote not taken that way closes the parameter.
- `Studio.LiveEngine.TimerFired`: the code's expiry callback posts through the `sendCasparCommand` of the render that armed it, so it sees the connection flag of that moment. The model reads the current flag. The callback also reads the graphic's `mode` when it fires, and the inspector may have changed it in place since the timer was armed; the model uses the mode captured when the timer was armed.
- `Studio.LiveEngine.DelayedGfxDue`: the model reads the current connection flag, while the code's timer posts with the flag of the render that scheduled it. The model plays the graphic as it was when scheduled. The code plays the graphic object itself, which the inspector may have changed in place since.
- `Studio.LiveEngine.DeferredTakeDue`: the model reads the current connection flag. The code's deferred `handleTake` sees the flag of the render that scheduled it.
- Channels and layers of items and graphics are natural numbers. The inspector stores `parseInt` of its input there (`playlink-studio/frontend/src/App.jsx:1334-1442`), which can be `NaN` or negative. Such records, and keys such as `NaN-10` built from them, are not modelled.
- The graphics inspector writes the new value into the graphic object before it calls `updateItem`, so the write lands even in a locked playlist. The model's graphics are values: a locked playlist's graphics never change.

## Findings

| source | as written | input that shows it | evidently intended | confidence | as-written member | corrected member |
|---|---|---|---|---|---|---|
| playlink-studio/Backend/server.js:202 | the template data is `JSON.stringify(data)` with only its double quotes escaped, so the backslashes that JSON writes stay bare | data `{a: '"'}` (any key without special characters): the server reads the parameter `{"a":"\` and is left with `\"}"` after it | the server reads back the JSON of the data, so backslashes need escaping before quotes | likely; not executed | `AmcpCommands.CgAddQuoteCut` | `AmcpCommands.CgDataRoundTrip` |
