# ClipboardHistory hot keys and history panel, in Dafny

This project models the core of ClipboardHistory, a small Windows Forms tool.
The tool keeps a panel of buttons, one per distinct text that has appeared on
the clipboard. Its code also holds a Win+V hot key meant to bring the window
back from the tray, though nothing attaches the handler that registers it (see below).

`hotkeys.dfy` (module `Hotkeys`) models `Libraries/GlobalHotkeys.cs`:

- The hidden message window decodes `WM_HOTKEY` (0x0312). LParam is taken as 32 bits. The key is the high word and the modifier flags are the low word.
- The `ModifierKeys` flags are None=0, Alt=1, Control=2, Shift=4 and Win=8.
- `Registrar` stands for the operating system's hot key table behind user32 `RegisterHotKey`/`UnregisterHotKey`. It holds:
  - the hidden window's bindings by id;
  - the combinations other applications hold;
  - a ghost log of every call the manager made.
- `KeyboardHook` is modelled as a class, with these fields:
  - `currentId`, the id counter;
  - `pausedHotkeys`, a list;
  - `gates`, the Activated/Deactivate handler pairs installed for forms that own a hot key;
  - `windowAlive`, which stands for the hidden window's handle;
  - a ghost history recording which id each registration used and whether it succeeded.
- An exception is modelled as `Outcome.Thrown`.
- The handlers and the teardown sweep are each proved against a pure specification: `ActivateStep`, `DeactivateStep`, `SweepStop` and `SweepCalls`.

`clipboard_history.dfy` (module `ClipboardHistory`) models `MainForm.cs`:

- the timer tick that appends a button for a clipboard text no button shows yet, named `CopyButton_<count+1>`;
- the copy-button click;
- the close, show and tray handlers;
- the Win+V filter;
- the `WM_NCHITTEST` rewrite from client (1) to caption (2);
- `Extensions.ToList`.

The clipboard text is a parameter of the tick. The text a click puts on the clipboard is its result.

Three behaviours of the code that one might not expect. The model follows the code in all three.

- **Paused ids versus the live table.** One would expect an id with an owning form to be paused exactly when it is not registered. The code keeps that only until the first teardown sweep: `UnregisterAllHotkeys` releases ids but keeps `PausedHotkeys` and the handlers.
  - The model states the property as `KeyboardHook.Live()`.
  - `PausedIffUnbound` proves the equivalence while `Live()` holds.
  - `RegisterHotKey` and `Deactivate` preserve `Live()`. The sweep does not promise it.
- **Teardown.** The sweep asks to unbind every id from `_currentId` down to 1, paused or not. It throws at the first id the table refuses.
  - `SweepSucceedsIffNothingPausedOrRefused` proves when this happens on a live manager. It happens exactly when some id is paused or some registration was refused.
  - `Dispose` repeats the loop of `UnregisterAllHotkeys` word for word. The model runs both on the one loop `UnregisterDescending`.
- **Win+V is never registered.** `MainForm.Designer.cs` wires the close button, the timer, the tray icon and both menu items, but never subscribes `MainForm_Load` to the form's Load event, and the handler is private. So `MainForm_Load` (MainForm.cs:90-94) is never called: Win+V is not registered and `HotkeyManagerOnKeyPressed` is not subscribed. This is read from the code; nothing was executed.
  - `MainForm.Load` models the handler as written, as an operation nothing in the code calls.
  - `HotkeyManagerOnKeyPressed` and `ShowHotkeyMessage` state what the handler would do if it were attached.

## Model

| member | source | states |
|---|---|---|
| Hotkeys.DecodeLParam | Libraries/GlobalHotkeys.cs:44-45 | the decoded key and modifier each fit in 16 bits |
| Hotkeys.DecodePack | Libraries/GlobalHotkeys.cs:44-45 | decoding the LParam Windows packs for any 16-bit (modifier, key) pair gives back exactly that pair |
| Hotkeys.PackDecode | Libraries/GlobalHotkeys.cs:44-45 | the decode loses nothing: the decoded pair packs back to the same 32-bit LParam |
| Hotkeys.WindowWndProc | Libraries/GlobalHotkeys.cs:36-51 | a KeyPressed event is raised iff the message is WM_HOTKEY (0x0312) and a handler is attached, and it carries exactly the pair LParam holds |
| Hotkeys.Registrar.Bind | Libraries/GlobalHotkeys.cs:12-13 | binding succeeds iff no window holds the combination; on success the id holds it; the call is logged |
| Hotkeys.Registrar.Unbind | Libraries/GlobalHotkeys.cs:15-17 | unbinding succeeds iff the id is held; the id is released either way; the call is logged |
| Hotkeys.IndexOf | Libraries/GlobalHotkeys.cs:103 | the result is -1 iff the id is absent, and otherwise the position of its first occurrence (`List.Contains`) |
| Hotkeys.RemoveFirst | Libraries/GlobalHotkeys.cs:108 | `List.Remove` takes out one occurrence: the multiset of the result is the input's minus one copy of the id |
| Hotkeys.RemoveFirstNoDuplicates | Libraries/GlobalHotkeys.cs:108 | on a duplicate-free list, Remove leaves the list duplicate-free, without the id, and with every other id kept |
| Hotkeys.RemoveFirstAppended | Libraries/GlobalHotkeys.cs:108 | removing an id just appended to a list that lacked it gives the list back |
| Hotkeys.GateStepsKeepPausedInvariant | Libraries/GlobalHotkeys.cs:101-121 | both gate handlers keep the paused list duplicate-free and disjoint from the ids the table holds |
| Hotkeys.DeactivateTwice | Libraries/GlobalHotkeys.cs:112-121 | a second Deactivate changes nothing, and after a successful first one it makes no unbind call |
| Hotkeys.ActivateTwice | Libraries/GlobalHotkeys.cs:101-110 | a second Activated changes nothing, and after a successful first one it makes no bind call |
| Hotkeys.ActivateWhileClaimedElsewhere | Libraries/GlobalHotkeys.cs:103-108 | while another application holds a paused id's combination, Activated throws and the id stays paused with the table unchanged; once the combination is released, Activated succeeds |
| Hotkeys.DeactivateThenActivate | Libraries/GlobalHotkeys.cs:101-121 | pausing then resuming a held id restores the paused list and the table exactly, with one unbind and one re-bind of the original combination |
| Hotkeys.SweepStop | Libraries/GlobalHotkeys.cs:135-139 | the sweep stops at the highest id in 1.._currentId that is not held (0 if all are), and every id above it is held |
| Hotkeys.SweepCallsDescend | Libraries/GlobalHotkeys.cs:135-139 | the sweep's calls unbind _currentId, _currentId-1, ... in strictly descending order, down to 1 or to the refused id inclusive |
| Hotkeys.SweepSucceedsIffAllHeld | Libraries/GlobalHotkeys.cs:135-139 | the sweep gets through iff every id in 1.._currentId is held |
| Hotkeys.UnregisterDescending | Libraries/GlobalHotkeys.cs:135-139 | the loop makes exactly the calls SweepCalls lists, releases exactly the ids above the stop point, keeps the rest, and throws iff some id was refused |
| Hotkeys.KeyboardHook.constructor | Libraries/GlobalHotkeys.cs:65-77 | a new manager has counter 0, nothing paused, no handlers, a live window, and holds nothing |
| Hotkeys.KeyboardHook.RegisterHotKey | Libraries/GlobalHotkeys.cs:87-123 | the counter is advanced before binding, so a refused id is still used up; it throws iff the combination is held; handlers are installed only on success with an owning form |
| Hotkeys.KeyboardHook.Activated | Libraries/GlobalHotkeys.cs:101-110 | behaves as ActivateStep: a paused id is re-bound with its original combination and removed from the paused list; failure throws and changes nothing |
| Hotkeys.KeyboardHook.Deactivate | Libraries/GlobalHotkeys.cs:112-121 | behaves as DeactivateStep: an unpaused id is unbound and appended to the paused list; on a live manager it never throws |
| Hotkeys.KeyboardHook.UnregisterAllHotkeys | Libraries/GlobalHotkeys.cs:132-140 | runs the sweep from _currentId; counter, paused list and handlers unchanged |
| Hotkeys.KeyboardHook.Dispose | Libraries/GlobalHotkeys.cs:142-153 | runs the same sweep, and the window is destroyed only if the sweep did not throw |
| Hotkeys.PausedOnlyGated | Libraries/GlobalHotkeys.cs:96-121 | every paused id belongs to a successful registration with an owning form |
| Hotkeys.PausedIffUnbound | Libraries/GlobalHotkeys.cs:101-121 | on a live manager, a successfully registered id is paused iff the table does not hold it |
| Hotkeys.SweepStopsAtPausedOrRefused | Libraries/GlobalHotkeys.cs:90-94 | the sweep never gets below a paused id or an id whose registration was refused |
| Hotkeys.SweepSucceedsIffNothingPausedOrRefused | Libraries/GlobalHotkeys.cs:132-140 | on a live manager the sweep gets through iff nothing is paused and no registration was refused |
| ClipboardHistory.NcHitTest | MainForm.cs:55-67 | for 0x84 the answer is never client; the answer changes iff the message is 0x84 and the base answer is 1, and then it becomes 2 |
| ClipboardHistory.ShowHotkeyMessage | MainForm.cs:98 | after the hidden window's decode, the handler's Win+V test passes for exactly one WM_HOTKEY LParam, the one packed for Win (8) and V (0x56) |
| ClipboardHistory.DecimalString | MainForm.cs:35 | the interpolated count is a non-empty run of decimal digits with no leading zero |
| ClipboardHistory.DecimalRoundTrip | MainForm.cs:35 | reading the interpolated count back gives the count |
| ClipboardHistory.ButtonNamesDistinct | MainForm.cs:35 | `CopyButton_{n}` names are equal iff the counts are |
| ClipboardHistory.NumberedNamesDistinct | MainForm.cs:35 | the buttons of a numbered panel have distinct names |
| ClipboardHistory.TickAppendsIfAbsent | MainForm.cs:23-43 | a tick keeps the earlier buttons and leaves the entry on the panel; it leaves the panel unchanged iff a button already shows the entry, and otherwise appends exactly one button named after the new count |
| ClipboardHistory.EmptyClipboardMakesBlankButton | MainForm.cs:23-36 | an empty clipboard reads as the empty text, so a tick on a panel without a blank button appends one, named after the new count |
| ClipboardHistory.TickKeepsWellFormed | MainForm.cs:25-43 | a tick keeps button texts distinct and names following the count |
| ClipboardHistory.TickIdempotent | MainForm.cs:25 | a second tick with the same clipboard text changes nothing |
| ClipboardHistory.HistoryWellFormed | MainForm.cs:21-47 | from an empty panel, any sequence of ticks leaves texts distinct and names numbered |
| ClipboardHistory.HistoryContents | MainForm.cs:21-47 | the panel shows exactly the clipboard texts seen so far |
| ClipboardHistory.TickKeepsFirstSeenOrder | MainForm.cs:43 | appending at the end keeps the panel in order of first appearance |
| ClipboardHistory.HistoryOrder | MainForm.cs:21-47 | the panel lists the texts in the order they first appeared on the clipboard |
| ClipboardHistory.ToList | MainForm.cs:109-119 | the list holds the controls in collection order, nothing added or dropped |
| ClipboardHistory.MainForm.constructor | MainForm.cs:16-19 | a new form has an empty panel, is shown normally in the taskbar, and owns a freshly allocated hot key manager with a live window, counter 0, nothing paused and no handlers |
| ClipboardHistory.MainForm.ClipboardMonitorTick | MainForm.cs:21-47 | the panel becomes Tick of the old panel and the clipboard text, and stays well formed |
| ClipboardHistory.MainForm.CopyButtonClick | MainForm.cs:38-41 | a click puts on the clipboard exactly the text its button captured, a text the panel shows; it throws ArgumentNullException iff that text is empty, which `Clipboard.SetText` refuses |
| ClipboardHistory.MainForm.CloseButtonClick | MainForm.cs:49-53 | the window leaves the taskbar and is minimised |
| ClipboardHistory.MainForm.ShowMenuItemClick | MainForm.cs:69-74 | the window returns to the taskbar in the normal state |
| ClipboardHistory.MainForm.TrayIconDoubleClick | MainForm.cs:81-86 | the window returns to the taskbar in the normal state |
| ClipboardHistory.MainForm.HotkeyManagerOnKeyPressed | MainForm.cs:96-104 | Win+V shows the window; any other pair leaves the state unchanged |
| ClipboardHistory.MainForm.Load | MainForm.cs:90-94 | registers Win+V with no owning form under the next id: it throws iff the combination is already held; the table gains the binding only on success; the call is logged and recorded in the history; handlers, paused list and window are unchanged |

## Left out

- The user32 calls become the `Registrar` class. Two refusals are modelled: binding a combination that is already held, and unbinding an id the table does not hold. Refusals for invalid keys, a missing window handle or system limits are not modelled. `GetForegroundWindow` is declared but never called.
- Hotkeys.Registrar.Bind: requires the id not to be held, because every caller passes a fresh or paused id. What Windows does when an id is registered twice is not modelled.
- Hotkeys.KeyboardHook.RegisterHotKey: `_currentId` is an unbounded integer here. The 32-bit wrap-around after 2^31 registrations is not modelled.
- Hotkeys.KeyboardHook.Dispose: the hidden window's handle is the flag `windowAlive`. Later calls still reach the same registrar table, and the loss of the handle is not modelled.
- Event plumbing: forwarding `KeyPressed` from the window to the manager to the form, and subscribing to `Form.Activated`/`Deactivate`, become explicit calls. `Activated(id)` and `Deactivate(id)` run one gated id's handler. The order of several handlers on one form is not modelled.
- ClipboardHistory.MainForm.Load: the `KeyPressed += HotkeyManagerOnKeyPressed` subscription is not modelled, only the registration.
- The clipboard calls are not modelled: `Clipboard.GetText` becomes the tick's parameter and `Clipboard.SetText` the click's result. An empty clipboard arrives as the empty text. The SetText refusal of the empty text is modelled as the click's ArgumentNullException.
- `Focus`, `ScrollControlIntoView`, `Environment.Exit` and the button's colours and size are left out. They are window-system effects with no state the model tracks.
- The timer's scheduling and the UI thread's message loop are not modelled.
- Hotkeys.WindowWndProc: the `(int)m.LParam` conversion is checked. In a 64-bit process it throws OverflowException when LParam exceeds int.MaxValue, which happens for a key code of 0x8000 or more. The model decodes every 32-bit payload. Hotkeys.DecodePack and Hotkeys.PackDecode state the decode for all such payloads too.
- ClipboardHistory.NcHitTest: the base window procedure is the `baseResult` parameter. The overflow check of the `(int)m.Result` conversion on 64-bit is not modelled.
- `MainForm.Designer.cs` is not part of this model. It is generated layout. The only facts taken from it are that the panel starts empty, the window starts shown, and the Load event is never wired to `MainForm_Load`.
