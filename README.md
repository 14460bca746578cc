# RevitInternalBrowser: the tab-session manager, in Dafny

RevitInternalBrowser is a tabbed web browser window that runs inside Revit.
It is built on the CefSharp engine. This project models the core of its
browser library (the REVIT2024 build):

- **`BrowserWindow`**, the tab-session manager. It keeps an ordered list of
  tabs and one active tab. It creates, activates and closes tabs. It takes in
  the title, address and loading notifications of each tab's view. It
  normalises what is typed into the address bar. On close it writes the
  session document, and on start-up it rebuilds the tabs from it.
- **`CefSharpInitializer`**, the process-wide guard around engine start-up.
  The engine can be started once per process, either by this library or by
  the host before it.
- **The `BrowserTab` record**, with its defaults.
- **The persisted `SessionData` / `TabData` records**, with their defaults.

## Modules

| file | module | what it models |
|---|---|---|
| `wrappers.dfy` | `Wrappers` | `Option`, the nullable references of the C# code |
| `engine.dfy` | `Engine` | The engine seen from the library. `View` stands for a `ChromiumWebBrowser` handle: the addresses it was asked to load, its visibility, whether it was disposed. `Cef` is the engine's global "initialised" state. |
| `tab_model.dfy` | `TabModel` | `BrowserTab` (a class; the window updates its fields in place) and the tab-selector button |
| `session_model.dfy` | `SessionModel` | `TabData`, `SessionData` and their defaults, and what the session file yields when it is read |
| `tab_logic.dfy` | `TabLogic` | The pure rules of the window: the tab caption, address normalisation, the save projection, the choice of the active tab on load, and the context-menu command map |
| `cef_initializer.dfy` | `Initializer` | `CefSharpInitializer.Initialize` / `Shutdown` on the `_isInitialized` flag |
| `browser_window.dfy` | `Window` | The `BrowserWindow` class, its event handlers, the session store, and two clients: opening a window, and save-then-reopen |

### What the window keeps invariant

`BrowserWindow.Valid()` holds after construction and after every operation:

- every listed tab has a button, which carries the tab's id;
- every listed tab has a view of its own;
- ids are distinct and were handed out by the window;
- there is an active tab exactly when the list is not empty, and it is a listed tab;
- exactly the active tab's view is visible.

The constructor, `CreateNewTab` and `CloseTab` also guarantee at least one tab.

Two ghost sequences mirror the list:

- `views`: the view of each tab, in order;
- `ids`: the id of each tab, in order.

### What stands for what

- `Guid.NewGuid()` is a counter (`nextGuid`) owned by the window. The model
  relies only on the new id not being in use.
- Outcomes that come from outside the library are parameters:
  - the message of the exception creating the engine's cache and log
    directories throws, if it does (`dirError`);
  - how the engine's start-up call ends (`StartOutcome`: `true`, `false`, or
    an exception with its message);
  - how writing the session file ends (`WriteOutcome`: written; not opened,
    so the old file stays; or failed after truncating the file, leaving it
    empty or holding a proper prefix of the document);
  - what the session file yields when read (`StoredFile`).
- JSON serialisation is modelled as follows:
  - a document is a `SessionData` value;
  - reading an entry is `DecodeTab`: a missing property keeps its default;
  - writing an entry is `EncodeTab`: every property is spelled out;
  - an empty file reads as the JSON `null`, and a proper prefix of the
    indented document does not parse.
- Paths are lists of path segments.
- The engine's log file is `Logs/cef.log`, the name the code gives it.

## Model

| member | source | states |
|---|---|---|
| TabModel.BrowserTab.constructor | RevitInternalBrowserLib/Models/BrowserTab.cs:8-16 | A fresh tab record has the empty id, an empty address, the title "New Tab", no button or view yet, and is not loading |
| SessionModel.DecodeTab | RevitInternalBrowserLib/Models/SessionData.cs:10-15 | Reading an entry takes each property that is present and keeps the default for each missing one: empty address, title "New Tab", not active |
| SessionModel.EncodeTab | RevitInternalBrowserLib/BrowserWindow.xaml.cs:313 | Serialising an entry writes all three properties; none is left missing |
| SessionModel.DecodeEncodeTab | RevitInternalBrowserLib/Models/SessionData.cs:10-15 | An entry written and read back is the same entry |
| SessionModel.EmptyEntryIsDefault | RevitInternalBrowserLib/Models/SessionData.cs:12-14 | An entry with no properties reads as `Url == ""`, `Title == "New Tab"`, `IsActive == false` |
| TabLogic.EmptySessionIsNoSession | RevitInternalBrowserLib/Models/SessionData.cs:7 | These all restore no tabs: a default document (empty list), a document with a null list, a null document, a missing file and an unreadable file |
| TabLogic.EntriesOf | RevitInternalBrowserLib/BrowserWindow.xaml.cs:325-329 | A load restores the document's list when the file exists, parses and holds a list; otherwise it restores nothing |
| TabLogic.TabLabel | RevitInternalBrowserLib/BrowserWindow.xaml.cs:198 | The caption is the title when it has at most 20 characters, otherwise its first 20 characters followed by "..."; it never exceeds 23 characters and always starts with (a prefix of) the title |
| TabLogic.TabLabelIdempotent | RevitInternalBrowserLib/BrowserWindow.xaml.cs:198 | Captioning a caption changes nothing |
| TabLogic.TabLabelShortInjective | RevitInternalBrowserLib/BrowserWindow.xaml.cs:198 | Two titles of at most 20 characters get the same caption exactly when they are equal |
| TabLogic.NormalizeAddress | RevitInternalBrowserLib/BrowserWindow.xaml.cs:410-413 | Input starting with `http://` or `https://` passes through unchanged, and only such input does; other input gets `https://` in front; the result always starts with one of the two schemes and ends with the input |
| TabLogic.NormalizeAddressIdempotent | RevitInternalBrowserLib/BrowserWindow.xaml.cs:410-413 | Normalising twice is normalising once |
| TabLogic.Project | RevitInternalBrowserLib/BrowserWindow.xaml.cs:311 | The saved list has one entry per tab, in order, with address and title copied; exactly the entry at the active position is flagged |
| TabLogic.ProjectFlagsAtMostOne | RevitInternalBrowserLib/BrowserWindow.xaml.cs:311 | A saved list flags at most one entry |
| TabLogic.LastActive | RevitInternalBrowserLib/BrowserWindow.xaml.cs:330-338 | The loop's remembered tab after the first `n` entries is the last flagged entry among them, or none when none of them is flagged |
| TabLogic.RestoredActive | RevitInternalBrowserLib/BrowserWindow.xaml.cs:330-343 | After a load the active position is the last flagged entry; when no entry is flagged it is the last entry, the tab created last |
| TabLogic.SaveLoadRoundTrip | RevitInternalBrowserLib/BrowserWindow.xaml.cs:308-343 | Loading a saved list gives back the same addresses and titles, in order, and the same active position |
| TabLogic.ContextMenuCommand | RevitInternalBrowserLib/BrowserWindow.xaml.cs:68-105 | Command 26500 with a link opens it in a new tab. Command 26501 with a link copies it. Command 26502 with a selection searches it in a new tab. Anything else, or an empty link or selection, is left to the engine |
| Initializer.EngineSettings | RevitInternalBrowserLib/CefSharpInitializer.cs:93-104 | The engine is started with cache `<LocalAppData>/RevitInternalBrowser/Cache`, log `<LocalAppData>/RevitInternalBrowser/Logs/cef.log`, severity Info, and `--no-sandbox`, `--disable-web-security`, `--disable-features=VizDisplayCompositor` |
| Initializer.CefSharpInitializer.constructor | RevitInternalBrowserLib/CefSharpInitializer.cs:23 | The guard's flag starts cleared |
| Initializer.CefSharpInitializer.Initialize | RevitInternalBrowserLib/CefSharpInitializer.cs:26-135 | Once the flag is set, nothing happens. If the host already started the engine, the flag is set without calling the engine. Otherwise the cache and log directories are created first; if that throws, the engine is not called and the failure carries that exception's message. Else the engine is called once with the settings above. The flag is set exactly when it returns `true`. A `false` fails with the library's own message, and an exception fails with the exception's message. The engine is called at most once per call and never started twice |
| Initializer.CefSharpInitializer.Shutdown | RevitInternalBrowserLib/CefSharpInitializer.cs:137-150 | The flag is cleared only when both it and the engine say "initialised", otherwise nothing changes; the engine is left untouched |
| Initializer.InitializeShutdownInitialize | RevitInternalBrowserLib/CefSharpInitializer.cs:26-150 | From any valid state, including an engine the host already started: across start-up, shutdown and start-up the engine is started at most once. When the first start-up succeeds, the second one adopts the running engine without calling it, so the engine is called at most once in all, and exactly once when neither the guard nor the engine had started |
| Window.NewTabRecord | RevitInternalBrowserLib/BrowserWindow.xaml.cs:173-233 | A new tab record carries the given id, address and title. Its button is captioned with the title and tagged with the id. Its view is hidden and starts loading the address |
| Window.OnTitleChanged | RevitInternalBrowserLib/BrowserWindow.xaml.cs:192-200 | A null title is ignored; otherwise the tab takes the title and its button gets the caption of it, at most 23 characters long |
| Window.OnLoadingStateChanged | RevitInternalBrowserLib/BrowserWindow.xaml.cs:214-225 | The tab records the new loading state |
| Window.BrowserWindow.constructor | RevitInternalBrowserLib/BrowserWindow.xaml.cs:133-152 | The window starts valid with at least one tab. With no saved entries there is exactly one tab on the home page, titled "New Tab" and active. Otherwise the saved addresses and titles come back in order, each view loading its address, and the active position is the restored one |
| Window.BrowserWindow.ActivateTab | RevitInternalBrowserLib/BrowserWindow.xaml.cs:254-273 | Afterwards the given tab is active, only its view is visible, the address bar shows its address, and the tab list is unchanged. Re-activating the already active, visible tab leaves every view's visibility as it was |
| Window.BrowserWindow.CreateNewTab | RevitInternalBrowserLib/BrowserWindow.xaml.cs:171-242 | Exactly one tab is appended at the end, with the given address and title and an id not in use. Earlier tabs are unchanged. The new tab's view is loading the address, its button shows the title, and it becomes the active tab |
| Window.BrowserWindow.AddTab | RevitInternalBrowserLib/BrowserWindow.xaml.cs:236 | Appending a new hidden tab keeps the list well formed; its id is no longer handed out |
| Window.BrowserWindow.LoadSession | RevitInternalBrowserLib/BrowserWindow.xaml.cs:322-349 | An empty window gets one tab per saved entry, in document order. Each has the entry's address and title, and its view is loading that address. The active tab is the one `RestoredActive` picks. A missing, unreadable, null or empty session creates no tab |
| Window.BrowserWindow.OpenEntries | RevitInternalBrowserLib/BrowserWindow.xaml.cs:330-338 | The loop opens the entries in order; the tab it remembers is the one at the last flagged entry |
| Window.BrowserWindow.OpenEntry | RevitInternalBrowserLib/BrowserWindow.xaml.cs:332-337 | One turn of the loop opens the next entry as the new last tab, and remembers it when it is flagged |
| Window.BrowserWindow.RemoveTab | RevitInternalBrowserLib/BrowserWindow.xaml.cs:284 | The first occurrence of the tab leaves the list, and the others keep their order |
| Window.BrowserWindow.CloseTab | RevitInternalBrowserLib/BrowserWindow.xaml.cs:275-298 | With one tab left, the tab's view is sent to the home page and nothing else changes: the list, the active tab, the address bar and the view's disposal state stay. Otherwise exactly that tab is removed, the others keep their order, and its view leaves the views, is disposed and is not reloaded. The views still listed are neither reloaded nor disposed. If it was active, the first remaining tab becomes active and the address bar shows its address; otherwise the active tab and the address bar are unchanged. No id is drawn. The window stays valid with at least one tab |
| Window.BrowserWindow.DropTab | RevitInternalBrowserLib/BrowserWindow.xaml.cs:283-297 | Closing one of several tabs removes exactly it and disposes its view, which is no longer listed. When it was the active one, the first remaining tab is activated and the address bar shows its address; otherwise the active tab and the address bar stay |
| Window.BrowserWindow.OnAddressChanged | RevitInternalBrowserLib/BrowserWindow.xaml.cs:202-212 | A null address is ignored. Otherwise the tab takes the address, and the address bar shows it only when the tab is the active one |
| Window.BrowserWindow.AddressBarKeyDown | RevitInternalBrowserLib/BrowserWindow.xaml.cs:405-416 | Enter with an active tab makes that tab's view load the normalised address-bar text; any other key loads nothing |
| Window.BrowserWindow.FindTab | RevitInternalBrowserLib/BrowserWindow.xaml.cs:360 | The lookup by id finds the listed tab with that id, the first one, or null exactly when no listed tab has it |
| Window.BrowserWindow.ButtonSelectsOwnTab | RevitInternalBrowserLib/BrowserWindow.xaml.cs:173-176 | The id a tab's button carries leads back to exactly that tab |
| Window.BrowserWindow.TabButtonClick | RevitInternalBrowserLib/BrowserWindow.xaml.cs:357-365 | A click activates the listed tab whose id the button carries, and the address bar shows its address; the list is unchanged. An unknown id or a missing tag changes neither the active tab, the address bar nor any view's visibility |
| Window.BrowserWindow.CloseTabClick | RevitInternalBrowserLib/BrowserWindow.xaml.cs:367-374 | A click closes the listed tab whose id the button carries, with every effect `CloseTab` promises for that tab: the home-page load of the last tab, or the removal, the disposal and the active-tab and address-bar rule; no other listed view is reloaded or disposed. An unknown id or a missing tag changes nothing in the window or in any of its views |
| Window.BrowserWindow.SessionEntries | RevitInternalBrowserLib/BrowserWindow.xaml.cs:311 | The saved list has one entry per tab, in order, each with that tab's address and title, and flagged exactly when that tab is the active one |
| Window.BrowserWindow.SessionEntriesProject | RevitInternalBrowserLib/BrowserWindow.xaml.cs:311 | The document the window saves is the projection of its tabs' addresses and titles, with exactly the active tab's entry flagged |
| Window.SessionStore.constructor | RevitInternalBrowserLib/BrowserWindow.xaml.cs:141 | The store stands for the profile file `default.json` and holds what reading it yields |
| Window.BrowserWindow.SaveSession | RevitInternalBrowserLib/BrowserWindow.xaml.cs:308-320 | A successful write stores the window's session document. A failed write is swallowed. A file that could not be opened stays as it was. A file truncated and then left empty reads as `null`, and one left holding a prefix does not parse; after either, the next load restores nothing |
| Window.BrowserWindow.Closing | RevitInternalBrowserLib/BrowserWindow.xaml.cs:443-455 | Closing saves the session with the outcomes above, then the guard's shutdown runs: the flag is cleared and the engine is left untouched |
| Window.OpenBrowserWindow | RevitInternalBrowserLib/BrowserWindow.xaml.cs:133-136 | A window is created only when engine start-up succeeds, and it is valid with at least one tab; the engine is started at most once |
| Window.SaveAndReopen | RevitInternalBrowserLib/BrowserWindow.xaml.cs:308-349 | Saving a window and opening a new one on the saved file gives the same addresses and titles, in order, and the same active position |

## Left out

- WPF presentation is not modelled:
  - the button style, background brushes and focus;
  - `Dispatcher.Invoke` / `BeginInvoke`: the handlers run directly;
  - `UpdateNavigationButtons`, with Back/Forward state;
  - the `TabContainer` / `BrowserContainer` child lists.

  The visible part of the window is kept as three things: which view is visible, each button's caption, and the address-bar text.
- `NewTab_Click`, `Menu_Click`, `Back_Click`, `Forward_Click`, `Refresh_Click`, `AddressBar_PreviewMouseLeftButtonDown` and `SetupKeyboardHandling` are left out. They are UI wiring or calls into the engine's history; new tabs are covered by `CreateNewTab`.
- The context-menu handler is reduced to the command map `ContextMenuCommand`:
  - building the menu is not modelled;
  - the clipboard is not modelled;
  - `Uri.EscapeDataString` is not modelled: the search action carries the raw selection instead of the escaped search address.
- The engine itself is not modelled: rendering, navigation, history and `Cef.Shutdown`. A view only records the addresses it was asked to load, whether it is visible and whether it was disposed.
- The `lock` in `CefSharpInitializer` is left out; the model is sequential.
- JSON text is not modelled, and neither are `File.*` and the creation of the profile directory in the window's constructor:
  - the store holds the already-parsed `SessionData`;
  - a parse failure and a missing file are values of `StoredFile`;
  - a session list holding a JSON `null` entry is not modelled: the original would stop the restore part-way at that entry;
  - an entry whose `Url` or `Title` is the JSON `null` is not modelled: `TabData` holds strings, so such an entry, and the null address or title of the tab it would create, cannot be represented.
- `Guid.NewGuid()` is a counter, so ids are unique by construction rather than with high probability.
- `StartsWith` in the original is culture-sensitive; the model compares prefixes character by character.
- `MessageBox.Show` and `Debug.WriteLine` are not modelled. Neither is the error text the initializer shows before it rethrows; `Failed` carries the message of the exception that is rethrown.
- The REVIT2026 build is not modelled.
- Two fallbacks are left out because they never happen:
  - the `?? "New Tab"` fallback of the title handler, since `ToString()` is never null;
  - the `FirstOrDefault() != null` test in `CloseTab`, since at least one tab remains.
- Window.BrowserWindow.LoadSession: requires an empty window; its only caller is the constructor, which calls it before any tab exists.
- Window.BrowserWindow.CreateNewTab: returns the tab it creates (the original returns nothing), so the contract can name it.
- Window.BrowserWindow.DropTab: disposes the view before the list bookkeeping, while the original disposes it after; nothing observes the difference.
- Window.BrowserWindow.Valid: that a listed view is not disposed is not part of the invariant. It follows from the operations' contracts instead: only the closing operations (`CloseTab`, `DropTab`, `CloseTabClick`) have disposal in their frames, and `Closed` says that they leave every other listed view's disposal state as it was and that the view they dispose is no longer listed afterwards.
- TabLogic.TabLabel: lengths and the cut after 20 are counted in characters, while the original counts UTF-16 code units; a title holding characters outside the Basic Multilingual Plane is therefore cut at a different place, and the original may even split such a character in two.
- Window.OnTitleChanged: its caption is `TabLabel`'s, so the same difference in counting applies.
- Initializer.CefSharpInitializer.Initialize: an exception thrown by the engine's start-up call is taken to leave the engine stopped.
