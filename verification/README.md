# CYPH3R-C0D3-Editor in Dafny

A functional model of the sequential logic in a browser code editor with a
terminal. Three parts are modelled: the Node.js server (`server.js`), the
browser client (`public/app.js`) and the sample program in the workspace
(`workspace/example.py`).

Each handler becomes a pure function over an immutable state and an explicit
event. Timers, sockets, the DOM and the PTY process are left out. The model
covers:

- **Server terminal registry** (`registry.dfy`, `TerminalRegistry`): the
  `terminals` map from socket id to terminal id to entry, the global
  `terminalCounter`, the performance stats, and the handlers for
  `terminal:create`, `terminal:data`, `terminal:resize` and `terminal:close`,
  PTY exit, socket disconnect and the stats interval. Spawning, writing to,
  resizing and killing a PTY, and `socket.emit`, are returned as effects.
- **Output batcher** (`batcher.dfy`, `OutputBatcher`): the per-terminal
  `dataBuffer`/`bufferSize` pair with its 4096-byte threshold. The single
  2 ms flush timer is a `timerPending` flag, and its expiry is a `TimerFire`
  event.
- **Access control** (`access.dfy`, `AccessControl`):
  - the per-address login lockout, with `now` in milliseconds and a boolean
    in place of the bcrypt comparison;
  - `IP_WHITELIST` parsing and matching;
  - the authentication middleware and the order of the middleware chain,
    which starts with the JSON body parser;
  - the Socket.IO handshake, which bypasses that chain;
  - the `|| default` configuration.
- **Buffer pool** (`bufferpool.dfy`, `BufferPool`): `getBuffer` and `releaseBuffer`.
- **Editor tabs** (`tabs.dfy`, `EditorTabs`): open, switch, close, edit,
  and save as a request and its reply. The Monaco buffer is a string field,
  and `confirm()` and the server's replies are inputs.
- **File selection** (`selection.dfy`, `FileSelection`): `getFilesBetween`,
  plain, ctrl- and shift-clicks, clear and select-all over the tree's path
  order.
- **Breadcrumbs** (`breadcrumb.dfy`, `Breadcrumbs`): `updateBreadcrumb`, as a
  loop (a method) and as a reference definition.
- **File types** (`filetypes.dfy`, `FileTypes`): extension, icon and Monaco
  language lookup.
- **Terminal fitting** (`fit.dfy`, `TerminalFit`): the clamped column and row
  count of `fitTerminal`.
- **Client terminal list** (`clientterm.dfy`, `ClientTerminals`): creation,
  the delayed session request, binding to a server terminal id, output
  routing, keystroke forwarding and closing.
- **Context menu** (`contextmenu.dfy`, `ContextMenu`): which entries the
  file-tree menu offers, and what choosing one does.
- **Path helpers** (`paths.dfy`, `PathHelpers`):
  - renaming;
  - the client's and the server's cleaning of paths sent to the zip
    endpoint;
  - the folders created for a folder upload.
- **Sample program** (`example.dfy`, `Example`): `fibonacci` and `add_feature`.

`strings.dfy` (`Strings`) gives JavaScript's `split`, `join`, `indexOf`,
`includes`, `startsWith`, `endsWith`, `trim` and `toLowerCase` their
semantics. In particular, `split` keeps empty parts and never returns an
empty list. `wrappers.dfy` (`Wrappers`) holds `Option` and `x || default`.

Behaviour of the code worth knowing when reading the model:

- Disconnect kills every terminal of the socket
  (`TerminalRegistry.OnDisconnect`); terminals do not outlive their socket.
- `split('.').pop()` returns the whole name when it has no dot. So a file
  named `c` gets the C icon and language, rather than the defaults
  (`FileTypes.NoDotIsWholeName`, `FileTypes.BareNameLookedUpWhole`).
- Static files under `public/` are served before the authentication
  middleware runs, so they need no login (`AccessControl.Gate`). The JSON
  body parser runs before the whitelist, so a body it refuses (400, 413)
  gets that error from any address (`AccessControl.BodyRefusedBeforeWhitelist`).
- The access control guards the Express chain only. The Socket.IO handshake
  (`io.use`, server.js:561-566) logs and admits every connection, so the
  terminal events that `TerminalRegistry` handles reach the server without
  any whitelist or login check (`AccessControl.SocketBypassesGate`).
- Monaco fires its content-change event on `setValue` as well as on typing,
  and the handler flags the active tab as modified. So every tab loaded into
  the editor counts as modified until a save for it is accepted, and closing
  it asks for confirmation (`EditorTabs.LoadingFlagsModified`).
- A save is two steps: the request carries the text at the time of the call,
  and the reply updates whichever tab is active when it arrives
  (`EditorTabs.SaveRequest`, `EditorTabs.SaveReply`).
- A new client terminal asks the server for a session when its 300 ms timer
  fires, if it still exists and the socket is connected then
  (`ClientTerminals.SessionTimer`). Every `connection-success`, which the
  server sends on each connection, also asks for a session for every
  terminal, bound or not (`ClientTerminals.ReconnectTimer`). When both
  timers fall in the same connection the terminal gets two server sessions,
  and the first one's output reaches no terminal
  (`ClientTerminals.DoubleRequestOrphansFirst`).

## Model

| member | source | states |
|---|---|---|
| Wrappers.OrDefault | server.js:26-27 | `parseInt(x) \|\| d`: an absent or zero value falls back to the default; any other value is kept |
| Strings.Split | public/app.js:1746 | `split` on one character: never empty, and no part contains the separator |
| Strings.JoinSplit | public/app.js:1746-1748 | joining the parts of a split gives the text back |
| Strings.SplitJoin | public/app.js:3784-3785 | splitting a join of separator-free parts gives the parts back |
| Strings.SplitAround | public/app.js:1746 | a separator in the middle splits into the parts of the left side followed by those of the right side |
| Strings.DropEmpty | public/app.js:2253 | `filter(s => s !== '')`: the kept strings are exactly the non-empty ones of the list, and there are no more of them |
| Strings.IndexOf | public/app.js:2959 | `indexOf`: -1 exactly when there is no occurrence; otherwise the first position where the text occurs |
| Strings.ContainsIff | public/app.js:2958 | `includes` holds exactly when `indexOf` finds an occurrence |
| Strings.TrimSlice | server.js:25 | `trim` removes the leading and trailing whitespace and keeps the middle |
| Strings.LowerIdempotent | public/app.js:1063 | lower-casing twice is lower-casing once |
| OutputBatcher.Flush | server.js:665-683 | `sendBufferedData`: one message with every buffered byte in order and an empty buffer afterwards; nothing is sent when no chunk is waiting |
| OutputBatcher.Step | server.js:638-662 | each chunk's bytes are either sent or kept in order. A chunk that reaches 4096 bytes in total flushes at once and leaves no timer; otherwise the chunk is queued and one timer is armed. A stale timer does nothing |
| OutputBatcher.StepValid | server.js:645-674 | `bufferSize` equals the buffered length and stays below 4096; a timer is pending exactly when a chunk is waiting |
| OutputBatcher.RunValid | server.js:633-683 | that invariant holds after any run of events |
| OutputBatcher.RunKeepsOrder | server.js:645-681 | the emitted messages, followed by the bytes still buffered, are the starting buffer followed by every chunk received: nothing is dropped, duplicated or reordered |
| OutputBatcher.RunFromInitial | server.js:633-683 | from a fresh batcher, once the buffer is drained, the messages are exactly the PTY output in arrival order |
| OutputBatcher.SmallChunksHeld | server.js:656-661 | chunks below 4096 bytes in total are held with the timer armed, and nothing is sent |
| OutputBatcher.SmallBurstOneMessage | server.js:660-681 | such a burst followed by the timer leaves as exactly one message |
| OutputBatcher.LargeChunkSentAtOnce | server.js:656-657 | a chunk of 4096 bytes or more is sent immediately, without a timer |
| TerminalRegistry.OnCreate | server.js:582-731 | create bumps the counter, records the entry, stats and batcher under the socket, spawns with `cols \|\| 80` and `rows \|\| 24`, and confirms with `terminal:created` |
| TerminalRegistry.OnInput | server.js:734-738 | keystrokes are written only to a terminal that the sending socket owns |
| TerminalRegistry.OnResize | server.js:740-744 | a resize reaches only a terminal that the sending socket owns |
| TerminalRegistry.OnClose | server.js:746-754 | close kills and removes an owned entry and emits `terminal:closed`; otherwise it does nothing |
| TerminalRegistry.OnDisconnect | server.js:763-773 | disconnect kills every terminal of the socket and forgets the socket |
| TerminalRegistry.OnConnect | server.js:568-580 | a connection is confirmed with `connection-success` to that socket alone and starts it with an empty terminal map; the counter, processes and batchers are untouched |
| TerminalRegistry.OnFlushTimer | server.js:660-662 | the batch timer flushes that terminal's batcher and emits what it sends; for a terminal with no batcher it does nothing |
| TerminalRegistry.OnPtyData | server.js:638-662 | PTY output is counted in the stats and handed to that terminal's batcher |
| TerminalRegistry.OnPtyExit | server.js:711-725 | exit drops the stats and, if still present, the entry; `terminal:exit` is emitted unconditionally |
| TerminalRegistry.OnStatsTick | server.js:696-709 | the stats report is sent only while the stats record exists |
| TerminalRegistry.Count | server.js:639-643 | a chunk adds its length to `bytesTransferred` and one to `messagesCount`; other terminals are untouched |
| TerminalRegistry.StepInv | server.js:538-774 | every event keeps the registry invariant: entries sit under their creating socket with a live process, stats exist exactly for live processes, ids are at most the counter and distinct, and batchers are valid |
| TerminalRegistry.RunEventsInv | server.js:538-774 | the invariant holds in every reachable state |
| TerminalRegistry.CreateGivesFreshId | server.js:583-584 | a new terminal's counter value is larger than that of every id handed out before |
| TerminalRegistry.StepKeepsHistory | server.js:539-540 | the counter never decreases, so ids are never reused |
| TerminalRegistry.ForeignIdIgnored | server.js:734-754 | data, resize and close aimed at another socket's terminal do nothing |
| TerminalRegistry.CloseTwice | server.js:746-754 | a second close of the same id changes nothing and emits nothing |
| TerminalRegistry.ExitOnce | server.js:711-725 | after exit no socket owns the terminal and its stats are gone; a repeated exit report does nothing |
| TerminalRegistry.DisconnectKillsAll | server.js:763-773 | disconnect kills all of the socket's terminals and leaves every other socket's terminals as they were |
| TerminalRegistry.OutputGoesToOwner | server.js:638-681 | PTY output is sent only to the socket that created the terminal |
| AccessControl.LoadConfig | server.js:26-27 | `MAX_LOGIN_ATTEMPTS` defaults to 5 and `BAN_DURATION` to 15 when unset, unreadable or zero |
| AccessControl.AuthEnabled | server.js:21 | authentication is off exactly when the variable is `false` |
| AccessControl.CeilDiv | server.js:186 | `Math.ceil(a / b)` for positive numbers: the least multiple count that covers `a`, at least one |
| AccessControl.Login | server.js:179-233 | a running ban refuses every attempt, even a correct one, with a 429 and a wait of at least one minute, and changes nothing; the 429 comes exactly when a ban is running. A correct login clears the record. A failure counts one more: it bans for `BAN_DURATION` minutes exactly when the new count reaches the limit, and otherwise gets a 401 with limit minus count attempts left. Other addresses are never touched |
| AccessControl.LoginInv | server.js:206-224 | records stay consistent: a tracked address has 1 to limit-1 failures, and a banned one has at least the limit |
| AccessControl.FailuresCounted | server.js:206-230 | the k-th failure from a clean address gets a 401 with `limit - k` attempts left |
| AccessControl.Lockout | server.js:184-218 | the failure that reaches the limit bans, and until the ban runs out even correct credentials are refused |
| AccessControl.ExpiredBanOneTry | server.js:206-218 | after a ban runs out, the next failure bans again at once, because the count is not reset |
| AccessControl.SuccessResets | server.js:193-195 | after a successful login the next failure counts as the first |
| AccessControl.ParseWhitelist | server.js:25 | an unset or empty variable gives no list; otherwise one trimmed entry per comma-separated part, with empty parts kept |
| AccessControl.WhitelistIsSubstringMatch | server.js:86-97 | an entry admits every address that contains it as a substring |
| AccessControl.SingleEntryRefuses | server.js:86-97 | a list of one clean entry refuses every address that does not contain it, other than `::1` |
| AccessControl.TrailingCommaAdmitsAll | server.js:89-90 | as written, a whitelist with a trailing comma admits every address |
| AccessControl.ParseWhitelistFixed | server.js:25 | corrected parsing: no entry is blank |
| AccessControl.TrailingCommaIgnored | server.js:25 | with the correction, a trailing comma does not change the list |
| AccessControl.FixedIsNonBlankOfWritten | server.js:25 | the corrected list is the written list with its blank entries dropped, same entries in the same order |
| AccessControl.FixedRefusesWhatTrailingCommaAdmits | server.js:86-97 | for `<env>,`, the written list admits an address containing none of its non-blank entries, and the corrected list refuses it (other than `::1`) |
| AccessControl.AuthGate | server.js:101-122 | a request passes exactly when auth is off, the path is open or the session is authenticated. Otherwise `/api/` paths get a 401 and every other path is redirected |
| AccessControl.SocketBypassesGate | server.js:561-566 | a connection the chain would refuse an API request (unlisted address, or no login while auth is on) is still admitted to the terminal socket |
| AccessControl.SocketHandshakeFixed | server.js:101-135 | corrected handshake: a socket is admitted exactly when the chain would pass an API request from it |
| AccessControl.Whitelisted | server.js:86-97 | definition: an empty list admits every address; otherwise the address must contain some entry, or be `::1` with `127.0.0.1` listed |
| AccessControl.Gate | server.js:124-135 | a body the JSON parser refuses ends with the parser's status, from any address. Otherwise an address the whitelist refuses gets a 403; files in `public/` are served without authentication; everything else goes through the auth gate |
| AccessControl.BodyRefusedBeforeWhitelist | server.js:125-126 | an unlisted address gets the parser's error for a refused body and a 403 only for a body that parses |
| AccessControl.SocketHandshake | server.js:561-566 | as written, every connection is admitted, whatever its address and session |
| BufferPool.Get | server.js:549-551 | pops the top pooled buffer, or allocates 64 KB when the pool is empty |
| BufferPool.Release | server.js:552-557 | zero-fills and pushes the buffer only while fewer than 50 are pooled |
| BufferPool.PoolOpsInv | server.js:546-558 | the pool stays at most 50 buffers, all zero-filled |
| BufferPool.ReleaseThenGet | server.js:546-558 | a released buffer comes back, zeroed and the same length, by the next get; a full pool drops it |
| EditorTabs.FindTab | public/app.js:1122 | `findIndex` returns -1 exactly when no tab has the path, and otherwise a tab with that path |
| EditorTabs.SwitchTo | public/app.js:1220-1242 | an index outside the tabs only clears the editor, and the clearing flags the active tab as modified. A valid one stores the editor text into the active tab, then loads the chosen tab, which the load flags as modified, and sets `currentFile`; every other tab keeps its flag |
| EditorTabs.OpenFile | public/app.js:1113-1160 | an open path is switched to. A new one is appended, flagged as modified by its load, and becomes active and `currentFile`; the earlier tabs are left exactly as they were. An error reply changes nothing |
| EditorTabs.CloseTab | public/app.js:1258-1303 | an unconfirmed close of a modified tab changes nothing; otherwise exactly that tab's path leaves the list |
| EditorTabs.Edit | public/app.js:325-335 | any change of the editor's content, typed or by `setValue`, flags the active tab, if any, as modified; no other tab, the active index and `currentFile` do not change |
| EditorTabs.LoadingFlagsModified | public/app.js:1137-1141 | a tab just opened or switched to is modified, so an unconfirmed close of it changes nothing |
| EditorTabs.SaveRequest | public/app.js:1337-1356 | nothing is sent exactly when no file is open or no tab is active; otherwise the editor text is sent for `currentFile` |
| EditorTabs.SaveReply | public/app.js:1358-1361 | an accepted reply stores the sent text into whichever tab is active when it arrives and clears its flag; other tabs and the editor are untouched; a refused reply changes nothing |
| EditorTabs.SaveReplyFixed | public/app.js:1344-1361 | corrected reply: it updates the tab of the written path, and only when that tab still shows the written text; otherwise nothing changes |
| EditorTabs.SaveReplyRaceExample | public/app.js:1344-1361 | as written, concretely: save `a.js`, switch to `b.js` and type `B2` before the reply; the reply marks `b.js` saved with `a.js`'s text, and closing it loses `B2` without asking |
| EditorTabs.SaveReplyFixedKeepsViews | public/app.js:1344-1361 | corrected: a reply loses no text and clears only the flag of the written file's tab, and only when it shows the written text |
| EditorTabs.SwitchInv | public/app.js:1220-1242 | switching keeps the active index in range, `currentFile` equal to the active tab's path, and the paths distinct |
| EditorTabs.OpenInv | public/app.js:1122-1139 | opening keeps tab paths unique, in both versions |
| EditorTabs.CloseInv | public/app.js:1258-1294 | closing keeps `-1 <= activeTabIndex < openTabs.length` and the rest of the invariant |
| EditorTabs.CloseFixedInv | public/app.js:1258-1294 | so does the corrected close |
| EditorTabs.EditSaveInv | public/app.js:1330-1371 | editing and the corrected save reply keep the invariant |
| EditorTabs.ApplyInv | public/app.js:1113-1371 | every user action and save reply, with the corrected open, close and reply, keeps the invariant |
| EditorTabs.CloseSelectsNeighbour | public/app.js:1272-1294 | another active tab stays active, with its index moved down if needed. Closing the active tab activates its successor, or its predecessor when it was last, or none (-1, no file) when it was the only tab |
| EditorTabs.CloseFixedSelectsNeighbour | public/app.js:1272-1294 | the corrected close activates the same tab |
| EditorTabs.UnconfirmedCloseKeepsTab | public/app.js:1261-1265 | declining the confirmation on a modified tab changes nothing |
| EditorTabs.SwitchKeepsViews | public/app.js:1233-1241 | switching loses no text: every tab reads as before |
| EditorTabs.ReopenKeepsTabs | public/app.js:1122-1127 | reopening an open file adds no tab and loses no text |
| EditorTabs.OpenLosesEdits | public/app.js:1137-1141 | as written, opening a new file discards the active tab's unsaved text |
| EditorTabs.OpenLosesEditsExample | public/app.js:1137-1141 | concretely: `A2` typed into `a.js` reads `A` again after opening `b.js` and switching back |
| EditorTabs.OpenFixedKeepsViews | public/app.js:1113-1160 | corrected: opening keeps every tab's text and adds the new file's |
| EditorTabs.CloseOverwritesSuccessor | public/app.js:1286-1291 | as written, a close of the active tab that goes ahead (unmodified, or confirmed) writes its text into the tab that becomes active |
| EditorTabs.CloseOverwritesExample | public/app.js:1272-1291 | concretely: a confirmed close of the modified `a.js` leaves `b.js` holding `a.js`'s text |
| EditorTabs.CloseFixedKeepsViews | public/app.js:1258-1303 | corrected: a close that goes ahead removes exactly that tab's text and keeps all others |
| EditorTabs.EditThenSave | public/app.js:1337-1362 | typed text that is saved, with the reply arriving before anything else, is sent to the active tab's file and kept, unmodified, in the tab; there the corrected reply agrees with the code |
| FileSelection.PathIndex | public/app.js:2607-2608 | `indexOf`: -1 exactly for an absent path; otherwise its first position |
| FileSelection.Between | public/app.js:2603-2616 | nothing when either path is absent; otherwise the inclusive slice between the two positions |
| FileSelection.BetweenProperties | public/app.js:2603-2616 | the range contains both ends, does not depend on argument order, and spans the distance between them |
| FileSelection.Counter | public/app.js:2702-2714 | an empty selection is never a multi-selection |
| FileSelection.Toggle | public/app.js:2619-2673 | a plain click selects `{p}` and anchors at `p`. A ctrl-click flips `p` only and anchors at `p`. A shift-click with an anchor replaces the selection with the range (or adds it, with ctrl) and keeps the anchor |
| FileSelection.Clear | public/app.js:2726-2731 | clearing empties the selection and drops the anchor |
| FileSelection.SelectAll | public/app.js:2734-2751 | every shown path is selected and the anchor moves to the last one, if any |
| FileSelection.OperationsKeepInv | public/app.js:2695-2723 | every operation keeps the counter's rule |
| FileSelection.ShiftClickSelectsRange | public/app.js:2625-2646 | a shift-click selects exactly the range from the anchor to the clicked path |
| FileSelection.ShiftClickStaleAnchor | public/app.js:2625-2641 | a shift-click from an anchor no longer shown selects nothing at all |
| FileSelection.CtrlClickTwice | public/app.js:2647-2660 | two ctrl-clicks on one path give the selection back |
| FileSelection.PlainClickSelectsOne | public/app.js:2661-2668 | a plain click selects the clicked path alone |
| Breadcrumbs.Pieces | public/app.js:2253 | no piece is empty, and there are no more pieces than parts |
| Breadcrumbs.PiecesDropsOnlyEmpty | public/app.js:2253 | the pieces are exactly the `filter(part => part !== '')` of the parts: empty parts dropped, every other kept, in order |
| Breadcrumbs.UpdateBreadcrumb | public/app.js:2251-2298 | the loop builds exactly the bar of the reference definition |
| Breadcrumbs.BuildCrumbs | public/app.js:2257-2297 | the loop with its running `currentBreadcrumbPath` builds the reference bar |
| Breadcrumbs.HomeFirst | public/app.js:2257-2268 | the first crumb is always `workspace`, and later crumbs name non-empty pieces |
| Breadcrumbs.OneActive | public/app.js:2260-2287 | exactly one crumb, the last, is active |
| Breadcrumbs.CrumbsChain | public/app.js:2281 | each later crumb's path is the previous crumb's path, `/` and its piece |
| Breadcrumbs.PiecesUnderHome | public/app.js:2253 | a folder path under the workspace cuts into `workspace` and its segments |
| Breadcrumbs.LastCrumbIsFolder | public/app.js:2271-2295 | the last crumb of a folder under the workspace leads to that folder |
| FileTypes.Extension | public/app.js:1063 | the extension holds no dot and is no longer than the name |
| FileTypes.FileIcon | public/app.js:1062-1080 | the mapped icon, or `fas fa-file` for an unmapped extension |
| FileTypes.DetectLanguage | public/app.js:1162-1186 | the mapped language, or `plaintext` for an unmapped extension |
| FileTypes.ExtensionAfterLastDot | public/app.js:1063 | the extension is the lower-cased text after the last dot |
| FileTypes.NoDotIsWholeName | public/app.js:1063 | a name without a dot is its own extension |
| FileTypes.BareNameLookedUpWhole | public/app.js:1062-1080 | so a file called `c` gets the C icon and language |
| FileTypes.TrailingDotDefaults | public/app.js:1062-1080 | a name ending in a dot gets the default icon and language |
| FileTypes.SplitLower | public/app.js:1063 | lower-casing commutes with splitting at a non-letter |
| FileTypes.LookupIgnoresCase | public/app.js:1062-1080 | icon and language lookups ignore letter case |
| TerminalFit.Clamp | public/app.js:550-555 | `Math.min(Math.max(lo, x), hi)` lies in range and is `x` when `x` already is |
| TerminalFit.CellColumns | public/app.js:550 | `Math.floor(w / 8.5)`: the number of whole 8.5-pixel cells |
| TerminalFit.CellRows | public/app.js:551 | `Math.floor(h / 16)` |
| TerminalFit.Target | public/app.js:542-555 | columns lie in 80..200 and rows in 10..50 |
| TerminalFit.Fit | public/app.js:539-570 | a hidden container is not measured; a resize happens only when the size changes, and then to the clamped target |
| TerminalFit.ColumnsFit | public/app.js:543-554 | between the clamps the columns fill the padded width exactly; the clamps apply exactly at the stated widths |
| TerminalFit.RowsFit | public/app.js:544-555 | likewise for the rows under the padding and the status bar |
| TerminalFit.TargetMonotone | public/app.js:542-555 | a larger container never gives a smaller terminal |
| TerminalFit.FitSettles | public/app.js:557-558 | fitting again at the same size does not resize |
| ClientTerminals.Create | public/app.js:594-607 | a new unbound terminal with the next number is appended and becomes active; nothing is sent yet |
| ClientTerminals.SessionTimer | public/app.js:729-750 | when the 300 ms timer fires, the session is requested exactly when the terminal still exists and the socket is connected |
| ClientTerminals.ClosedBeforeTimerRequestsNothing | public/app.js:670-679 | a terminal closed before its timer fires is gone, its close sends nothing, and the timer requests nothing |
| ClientTerminals.TimerRequestsOwnSession | public/app.js:670-750 | for a terminal just created, the timer requests that terminal's session exactly when connected |
| ClientTerminals.ReconnectTimer | public/app.js:126-135 | 100 ms after `connection-success`, one session request per terminal in the list, bound or not, in order, and none when disconnected |
| ClientTerminals.ReconnectIsEveryTimer | public/app.js:126-135 | each terminal's request from that timer is exactly what its own creation timer would send at that moment |
| ClientTerminals.DoubleRequestOrphansFirst | public/app.js:126-135 | with a creation timer still pending when the connection is confirmed, both timers request the new terminal's session; after both `terminal:created` replies it is bound to the second id and the first id's output reaches no terminal |
| ClientTerminals.OnCreated | public/app.js:169-172 | `terminal:created` binds the named terminal, if it exists, and changes nothing else |
| ClientTerminals.Route | public/app.js:210 | output goes to the first terminal bound to the server id, and to none if no terminal is bound to it |
| ClientTerminals.Input | public/app.js:613-631 | keystrokes are sent exactly when connected and the terminal is bound |
| ClientTerminals.Close | public/app.js:784-833 | the last terminal cannot be closed. Otherwise the terminal is dropped, the session is closed if bound and connected, and a closed active terminal is replaced by the first one left |
| ClientTerminals.CreateInv | public/app.js:594-607 | creating keeps terminal numbers distinct and at most the counter, and keeps an active terminal in the list |
| ClientTerminals.CloseInv | public/app.js:817-826 | closing keeps that consistency |
| ClientTerminals.OnCreatedInv | public/app.js:169-172 | binding keeps it |
| ClientTerminals.CloseKeepsOne | public/app.js:785-788 | a non-empty list never becomes empty |
| ClientTerminals.BoundOutputReachesTerminal | public/app.js:209-211 | once bound to a server id that no other terminal carries, the terminal receives its output |
| ClientTerminals.UnboundInputDropped | public/app.js:615 | an unbound terminal sends nothing |
| ContextMenu.MenuFor | public/app.js:1544-1647 | the heading: `CREATE` for the empty area, `n ITEMS` for several selected paths, otherwise `ACTIONS` |
| ContextMenu.MenuMatchesRules | public/app.js:1544-1647 | the menu offers exactly the actions the per-entry rules allow |
| ContextMenu.MenuListing | public/app.js:1548-1645 | the entries of each menu, in display order |
| ContextMenu.MenuHasNoRepeats | public/app.js:1548-1645 | no entry appears twice |
| ContextMenu.MultiSelectionHidesSingleActions | public/app.js:1596-1643 | with several paths selected, only copy, delete and zip are offered |
| ContextMenu.UnzipOnlyForOneArchive | public/app.js:1625-1631 | extract is offered only for one selected `.zip` target (any case), and it extracts that archive |
| ContextMenu.Dispatch | public/app.js:1655-1741 | as written, the empty-area branch ignores zip and clear-selection, and the file branch needs a target |
| ContextMenu.FileEffect | public/app.js:1686-1737 | a folder is not downloaded; extract needs a `.zip` path; zip warns when nothing is selected |
| ContextMenu.EmptyMenuEntriesIgnored | public/app.js:1569-1578 | as written, the empty-area menu offers zip and clear-selection, but choosing them does nothing |
| ContextMenu.DispatchFixed | public/app.js:1655-1678 | corrected dispatch: it differs from the code only on those two entries |
| ContextMenu.EveryOfferedEntryActs | public/app.js:1655-1737 | with the correction, every offered entry has an effect, except downloading a folder |
| PathHelpers.RenamePath | public/app.js:1746-1748 | definition: the path split at `/`, its last piece replaced by the new name, joined again |
| PathHelpers.BaseName | public/app.js:1746-1747 | the last piece of a path holds no `/` |
| PathHelpers.RenameKeepsFolder | public/app.js:1746-1748 | renaming keeps the folder and swaps the name |
| PathHelpers.RenameTopLevel | public/app.js:1746-1748 | a top-level name is replaced whole |
| PathHelpers.RenameRoundTrip | public/app.js:1746-1748 | renaming back to the old name restores the path |
| PathHelpers.CleanForZip | public/app.js:2956-2963 | the cleaned path is a suffix of the original, and paths without `/workspace/` are unchanged |
| PathHelpers.CleanAbsolute | public/app.js:2958-2960 | `<root>/workspace/<rel>` is sent as `<rel>` |
| PathHelpers.ZipSourceOf | server.js:423-430 | absolute paths are used as given; relative ones lose one leading `workspace/` and are joined onto the workspace folder |
| PathHelpers.PrefixNamesSameFile | server.js:427-429 | `workspace/<rel>` and `<rel>` reach the same join onto the workspace folder |
| PathHelpers.ClimbingPathReachesJoin | server.js:427-429 | a relative path starting with `../`, with or without the `workspace/` prefix, reaches the join with its `..` intact |
| PathHelpers.Place | public/app.js:3783-3793 | the file name holds no `/`, and the upload goes to `<target>/<folders>` |
| PathHelpers.PlaceSplitsPath | public/app.js:3783-3785 | folder part, `/` and name give the relative path back |
| PathHelpers.CreateFolderStructure | public/app.js:3855-3874 | posts one folder per non-empty piece, in order |
| PathHelpers.PostFolders | public/app.js:3859-3873 | the loop with its running `currentPath` posts exactly that chain |
| PathHelpers.ChainStepsOneLevel | public/app.js:3859-3862 | each posted folder is the one before it, or the base, followed by `/` and one non-empty piece without `/` |
| PathHelpers.ChainEndsAtFolder | public/app.js:3855-3874 | without empty pieces, the last folder posted is the base followed by the whole folder path |
| PathHelpers.UploadLandsInCreatedFolder | public/app.js:3783-3794 | a folder upload's file goes to the deepest folder created for it |
| Example.Fibonacci | workspace/example.py:66-79 | `[]` for `n <= 0`, otherwise exactly `n` numbers, the i-th being the i-th Fibonacci number |
| Example.FibonacciShape | workspace/example.py:68-77 | `[0]` for 1, `[0, 1]` for 2, and each later number is the sum of the two before it |
| Example.FibMonotone | workspace/example.py:75-77 | the numbers never decrease |
| Example.AddFeature | workspace/example.py:38-44 | a new feature is appended and reported as added; a listed one leaves the list unchanged |
| Example.DefaultsHaveNoRepeats | workspace/example.py:18-25 | the default features are distinct |
| Example.AddKeepsNoRepeats | workspace/example.py:38-44 | adding keeps the list free of repeats, and the feature is listed afterwards |
| Example.AddTwice | workspace/example.py:38-44 | adding the same feature twice is the same as adding it once |

## Left out

- PTY processes (node-pty spawn, write, resize and kill) and the prompt-forcing writes: they are returned as effects, not executed.
- Socket.IO transport, CORS, reconnection, the ping handler and the client's write queues and animation frames: network plumbing and timing.
- Real time: `Date.now()` is a parameter. The batcher's flush timer, the client terminal's 300 ms session timer and the 100 ms timer after `connection-success` are events; the 200 ms and 1 s prompt timers and the 500 ms refresh timer are left out.
- The throughput figure, `Math.round` and `formatFileSize`: floating point. `TerminalRegistry.OnStatsTick` reports only the message count and the run time.
- bcrypt, express-session, express-rate-limit and helmet: foreign libraries. A login carries whether its credentials matched, and a request carries whether its session is authenticated.
- AccessControl.Gate: the parser's refusals are one `Refused(status)`; which bodies it refuses (content type, charset, the 100 kB limit, malformed JSON) is an input, not modelled.
- PathHelpers.ZipSourceOf: `path.join` itself is not modelled. It resolves `..`, so a relative path can leave the workspace, as an absolute one may anyway.
- The file REST endpoints: thin wrappers over the file system and archive libraries. Only the zip endpoint's path cleaning is modelled.
- The DOM, Monaco and xterm: rendering, notifications, previews, menu labels and separators, drag and drop, and overlays. Monaco's editor is its text; typing and `setValue` are both `EditorTabs.Edit`.
- Random session ids and `localeCompare` sorting: the file tree's path order is an input.
- `workspace/example.py`'s `get_info`, `save_config`, `analyze_file` and its main block: clock, file and console I/O.
- `workspace/terminal-benchmark.js` and `workspace/example.js`: not part of this model.
- Strings.Lower: ASCII letters only, where `toLowerCase` covers all of Unicode.
- Strings.Trim: ASCII whitespace only, where `trim` also strips other Unicode spaces.
- TerminalRegistry.OnCreate: the id `term_<socket>_<n>` is a pair of socket and number. The text form is determined by the pair, and the pair by the text, because the decimal suffix holds no `_`.
- TerminalRegistry.OnInput: a terminal id is a (socket, number) pair, so an id that names an inherited object key (`constructor`, `__proto__`) cannot be sent. For such an id the guard at server.js:735 passes and `.process.write` throws; the model does not represent that throw.
- TerminalRegistry.OnResize: the same inherited-key id passes the guard at server.js:741 and `.process.resize` throws; not represented.
- TerminalRegistry.OnClose: the same inherited-key id passes the guard at server.js:747 and `.process.kill` throws; not represented.
- TerminalRegistry.OnCreate: an event sent without a payload throws on `data.terminalId` after `terminalCounter++` (server.js:583-605), leaving the counter bumped with no terminal; events always carry their fields in the model.
- TerminalRegistry.OnCreate: for a socket with no map the model does nothing. Socket.IO delivers no event after `disconnect`, so this cannot happen; the code would bump the counter, spawn and start the stats and then throw at server.js:622.
- TerminalRegistry.OnConnect: `connection-success` carries the socket id only; its transport name and timestamp are left out.
- TerminalRegistry.OnFlushTimer: a flush that fires after the terminal's entry is gone still emits its data, as the code's closure does. Clearing that timer on close or exit is not modelled, because the code does not do it.
- ClientTerminals.SessionTimer: the `cols`/`rows` sent with `terminal:create` come from xterm and are left out; the request carries only the terminal's number. The 1.5 s start-up delay (public/app.js:32-35) is not modelled; which timer fires first is up to the caller.
- FileTypes.FileIcon: inherited object keys such as `constructor` are not part of the maps.
- FileTypes.DetectLanguage: the same; `languageMap['constructor']` is the `Object` function, so a file named `x.constructor` gets that and not `plaintext`.
- Breadcrumbs.UpdateBreadcrumb: the default argument `'workspace'` for a missing path is not modelled; a path is always given.
- ContextMenu.Dispatch: `paste` is handled but never offered. Its effect is modelled, and no menu contains it.
- PathHelpers.CleanAbsolute: stated for a root without `/`. A root that itself contains `/workspace/` is cut at that earlier occurrence, which `CleanForZip` models but the lemma does not state.
- PathHelpers.UploadLandsInCreatedFolder: stated for relative paths without empty pieces. With an empty piece, the folders posted skip it while the upload path keeps the double `/`.
- Breadcrumbs.LastCrumbIsFolder: stated for at least one clean segment below the workspace.
- OutputBatcher.Step: `bufferTimer` is modelled as "armed and not yet fired". The code keeps a stale handle after firing, which is harmless because clearing a fired timer does nothing.
- The buffer pool is never called by the server; it is modelled on its own.
- BufferPool.Release: buffers are values. `buffer.fill(0)` zeroes the caller's own object in place, so a holder still using it sees it cleared, and releasing one object twice pools it twice; the model's zero-filled copy shows neither effect.

## Findings

| source | as written | input that shows it | evidently intended | confidence | as-written member | corrected member |
|---|---|---|---|---|---|---|
| public/app.js:1286-1291 | closing the active tab calls `switchToTab`, which first stores the editor text, the closed tab's text, into `openTabs[activeTabIndex]`, which is now the successor | tabs `a.js` (text `A`, active) and `b.js` (text `B`); close `a.js` | the successor is loaded with its own text | high (not executed) | EditorTabs.CloseOverwritesExample | EditorTabs.CloseFixedKeepsViews |
| public/app.js:1137-1141 | opening a new file appends and loads it without storing the editor text into the previously active tab | `a.js` stored as `A` with `A2` typed; open `b.js`, switch back | the typed text survives the switch | high (not executed) | EditorTabs.OpenLosesEditsExample | EditorTabs.OpenFixedKeepsViews |
| server.js:25 | `split(',').map(trim)` keeps empty entries, and `includes('')` is true for every address | `IP_WHITELIST=10.0.0.1,` with a client at `8.8.8.8` | blank entries are ignored | high (not executed) | AccessControl.TrailingCommaAdmitsAll | AccessControl.FixedRefusesWhatTrailingCommaAdmits |
| public/app.js:1569-1578 | the empty-area menu offers `zip` and `clear-selection` once something is selected, but the `empty` branch of `handleContextMenuAction` has no case for them | select one file, right-click the empty area, choose CLEAR SELECTION | the entries act as they do in the file menu | high (not executed) | ContextMenu.EmptyMenuEntriesIgnored | ContextMenu.EveryOfferedEntryActs |
| public/app.js:1344-1361 | the save reply updates `openTabs[activeTabIndex]` as it is when the reply arrives, with the text captured when the save began | `a.js` active with `A2` typed; save, then switch to `b.js` and type `B2` before the reply | the reply concerns the tab of the written file | medium (not executed) | EditorTabs.SaveReplyRaceExample | EditorTabs.SaveReplyFixedKeepsViews |
| server.js:561-566 | the Socket.IO middleware only logs and calls `next()`, and the Express whitelist and login middleware do not see socket traffic | `IP_WHITELIST=10.0.0.1`; a client at `8.8.8.8` with no session connects and emits `terminal:create` | a socket gets the same whitelist and login check as an API request | medium (not executed) | AccessControl.SocketBypassesGate | AccessControl.SocketHandshakeFixed |
