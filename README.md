# CXeno operator front-end: the client list and the editor

A model of the two windows of the XenoUI front-end of CXeno that decide
which Roblox clients a script is sent to and which text is sent.

- The clients window (`XenoUI/ClientsWindow.xaml.cs`) refreshes a list of
  check boxes every 100 ms. Each box shows a caption `"{name}, PID: {id}"`.
  A timer tick reads the null-terminated client array the native library
  exposes. It then removes every box whose caption parses to a process id
  the snapshot no longer lists. Next it appends a checked box for every
  listed client whose caption is not shown yet and whose name is not blank.
  Last, it rebuilds `ActiveClients` from the checked boxes whose caption
  parses. `execute_script` hands the script and the names of
  `ActiveClients`, in order, to the native executor.
- The main window (`XenoUI/MainWindow.xaml.cs`) loads a file into the
  Monaco editor through a JavaScript string literal built by a chain of
  `Replace` calls. It reads the editor text back by stripping one pair of
  surrounding quotes. Every 3 seconds it writes the text to `editor.lua`
  when it differs from the text seen last. The Execute button runs a
  script only after the validator returned exactly `"success"` for it.

Modules:

- `Wrappers`: `Option` and `Result`.
- `NetText`: the .NET routines the tick relies on. These are `Trim`,
  `Split` with `StringSplitOptions.None`, `int.ToString` and
  `int.TryParse`, on 32-bit `int`.
- `ClientList`: the tick as a function on values. It covers the snapshot
  reader's result, the removal pass, the addition pass, `ActiveClients`,
  and the lemmas about them.
- `Clients`: the class `ClientsWindow`. Its methods work step by step on
  the `children` list and on `activeClients`, as the source's loops do.
  Each is proved to compute the `ClientList` function.
- `ClientLifecycle`: what happens to one client over several ticks, and a
  walk-through with two clients.
- `EditorText`: the escape chain and the quote strip.
- `Editor`: the class `MainWindow`. It models the save-on-change tick and
  the validate-then-execute gate, with logs of the file writes and of the
  native calls.

Where the intended behaviour and the code differ, the model follows the
code:

- The tick keys on captions, not on ids. A box is removed or reported only
  when its caption splits into exactly two pieces around `", PID: "` and
  the second piece parses.
  - A client whose name contains `", PID: "` is therefore listed but never
    removed and never targeted (`SeparatorNameStays`).
  - A live id that reappears under a new name gets a second box
    (`RenamedIdTrackedTwice`).
- "Blank" means exactly `""` or `" "`. Other white-space names get a box.
- Reported names are trimmed, so `ActiveClients` can differ from the
  native name of a client whose name has surrounding white space.

As intended, a box the operator unchecked comes back checked once its
process disappears and reappears: the box is removed with the process, and
the new one starts checked (`ReappearanceResets`).

## Model

| member | source | states |
|---|---|---|
| NetText.TrimStart | XenoUI/ClientsWindow.xaml.cs:125 | the result is a suffix of the input, what it drops is white space, and it does not start with white space |
| NetText.TrimEnd | XenoUI/ClientsWindow.xaml.cs:125 | the result is a prefix of the input, what it drops is white space, and it does not end with white space |
| NetText.Trim | XenoUI/ClientsWindow.xaml.cs:80 | `string.Trim()`: the result is a slice of the input with only white space before and after it, and it has no white space at either end; text without such white space comes back unchanged |
| NetText.TryParseInt32 | XenoUI/ClientsWindow.xaml.cs:80 | `int.TryParse` on trimmed text: an optional sign, then digits, and a value within 32 bits; its property is `IntToStringRoundTrip` |
| NetText.FindFrom | XenoUI/ClientsWindow.xaml.cs:79 | the result is the first index at or after `i` where the separator occurs; `None` when there is none |
| NetText.Split | XenoUI/ClientsWindow.xaml.cs:79 | `Split` with `StringSplitOptions.None` always gives at least one piece, even for empty text |
| NetText.PrefixBeforeFirst | XenoUI/ClientsWindow.xaml.cs:79 | the text before the first occurrence of the separator does not contain it |
| NetText.SplitJoin | XenoUI/ClientsWindow.xaml.cs:79 | joining the pieces of `Split` with the separator gives back the text, and no piece contains the separator |
| NetText.DigitChar | XenoUI/ClientsWindow.xaml.cs:103 | a digit value below 10 becomes its decimal digit character |
| NetText.NatToString | XenoUI/ClientsWindow.xaml.cs:103 | the decimal text of a natural number is a non-empty run of digits |
| NetText.IntToString | XenoUI/ClientsWindow.xaml.cs:103 | `int.ToString()` is non-empty, ends in a digit, and is all digits apart from a leading minus sign |
| NetText.NatToStringRoundTrip | XenoUI/ClientsWindow.xaml.cs:103 | reading the digits of a natural number's decimal text gives the number back |
| NetText.IntToStringRoundTrip | XenoUI/ClientsWindow.xaml.cs:80 | `int.TryParse` of the text an `int` prints in a caption gives that `int` back |
| ClientList.BeforeSentinel | XenoUI/ClientsWindow.xaml.cs:159-179 | the clients are the records before the first null name, in order, each with the name and id it was read from |
| ClientList.BeforeSentinelUnique | XenoUI/ClientsWindow.xaml.cs:166-176 | any list with the reader's three properties (length, null name after it, records read in place) is exactly `BeforeSentinel` |
| ClientList.Display | XenoUI/ClientsWindow.xaml.cs:103 | the caption `"{name}, PID: {id}"`; `DisplaySplits` shows how it splits back, `ClientLifecycle.DisplayInjective` that it determines the name and the id |
| ClientList.SeparatorAtName | XenoUI/ClientsWindow.xaml.cs:79 | in a caption whose name lacks `", PID: "`, the first separator starts right after the name |
| ClientList.IdTextIsOnePiece | XenoUI/ClientsWindow.xaml.cs:79 | the decimal text of an id contains no separator, so it splits into one piece |
| ClientList.IdTextTrimmed | XenoUI/ClientsWindow.xaml.cs:80 | the decimal text of an id has no white space for `Trim` to remove |
| ClientList.DisplaySplits | XenoUI/ClientsWindow.xaml.cs:79-80 | the caption of a name without the separator splits into exactly the name and the id's text |
| ClientList.DisplaySplitsFurther | XenoUI/ClientsWindow.xaml.cs:79-80 | the caption of a name that contains the separator splits into three or more pieces, so `parts.Length == 2` fails |
| ClientList.ParsedIdOfDisplay | XenoUI/ClientsWindow.xaml.cs:79-80 | the tick reads a caption's id back exactly when its name lacks the separator, and then it reads the right id |
| ClientList.ParsedId | XenoUI/ClientsWindow.xaml.cs:79-80 | the id the tick reads from a caption, if any; `ParsedIdOfDisplay` states what it gives for every caption |
| ClientList.Stale | XenoUI/ClientsWindow.xaml.cs:79-85 | the removal test; `StaleIff` states it on the fields |
| ClientList.IdSet | XenoUI/ClientsWindow.xaml.cs:71 | `newClientIds`, the ids of the snapshot; `StaleIff` states the removal test against it |
| ClientList.StaleIff | XenoUI/ClientsWindow.xaml.cs:79-85 | a box is marked for removal exactly when its name lacks the separator and its id is not in the snapshot |
| ClientList.Without | XenoUI/ClientsWindow.xaml.cs:90-93 | removing the marked boxes never lengthens the list |
| ClientList.Survivors | XenoUI/ClientsWindow.xaml.cs:73-93 | the list after the removal pass; `SurvivorsMembers` and `SurvivorsConcat` state its contents and order, and `Clients.ClientsWindow.RemoveInvalidClients` is proved to compute it |
| ClientList.WithoutMembers | XenoUI/ClientsWindow.xaml.cs:74-93 | the removal keeps exactly the boxes that are not selected |
| ClientList.SurvivorsMembers | XenoUI/ClientsWindow.xaml.cs:73-93 | the removal pass keeps exactly the boxes that are not stale |
| ClientList.WithoutConcat | XenoUI/ClientsWindow.xaml.cs:90-93 | removal works box by box: on a concatenation it keeps what it keeps of each part, in order |
| ClientList.SurvivorsConcat | XenoUI/ClientsWindow.xaml.cs:73-93 | the removal pass on a concatenation is the removal pass on each part |
| ClientList.WithoutNothing | XenoUI/ClientsWindow.xaml.cs:90-93 | when nothing is selected the list stays as it is |
| ClientList.SurvivorsAllKept | XenoUI/ClientsWindow.xaml.cs:73-93 | a list with nothing stale survives the removal pass whole |
| ClientList.WithoutNoDuplicates | XenoUI/ClientsWindow.xaml.cs:90-93 | removing boxes never creates a duplicate caption |
| ClientList.IsBlank | XenoUI/ClientsWindow.xaml.cs:110 | the name test of the addition pass, exactly `""` or `" "`; `AddClientsAppends` and `TickKeepsListClean` state that no blank name gets a box |
| ClientList.Shows | XenoUI/ClientsWindow.xaml.cs:98-109 | the caption scan of the addition pass; `Clients.ClientsWindow.HasCaption` is proved to compute it and `AddClientsShowsAll` states what the pass shows |
| ClientList.AddClient | XenoUI/ClientsWindow.xaml.cs:97-113 | one step of the addition pass; `AddClientKeepsShown` states what it shows afterwards, and `Clients.ClientsWindow.AddNewClient` is proved to compute it |
| ClientList.AddClients | XenoUI/ClientsWindow.xaml.cs:95-114 | the addition pass; `AddClientsAppends`, `AddClientsShowsAll` and `AddClientsNothingNew` state its properties |
| ClientList.AddClientsAppends | XenoUI/ClientsWindow.xaml.cs:95-114 | the addition pass only appends; each appended box is checked, has a non-blank name, comes from the snapshot and has a caption no earlier box has |
| ClientList.AddClientsShowsAll | XenoUI/ClientsWindow.xaml.cs:95-114 | after the addition pass every listed client with a non-blank name has a box with its caption |
| ClientList.AddClientKeepsShown | XenoUI/ClientsWindow.xaml.cs:98-113 | after one addition step the client's own caption is shown, and every caption shown before still is |
| ClientList.ShowsExtended | XenoUI/ClientsWindow.xaml.cs:99-109 | appending boxes never hides a caption |
| ClientList.AddClientsNothingNew | XenoUI/ClientsWindow.xaml.cs:110-113 | when every client is blank or already shown the addition pass adds nothing |
| ClientList.Tick | XenoUI/ClientsWindow.xaml.cs:68-114 | the list after a tick; `TickRemovesStale`, `SurvivorKept`, `TickKeepsListClean` and `TickIdempotent` state its properties, and `Clients.ClientsWindow.TimerTick` is proved to compute it |
| ClientList.Report | XenoUI/ClientsWindow.xaml.cs:120-130 | what one box adds to `ActiveClients`; `ReportOfEntry` states it on the fields |
| ClientList.Active | XenoUI/ClientsWindow.xaml.cs:116-132 | `ActiveClients` rebuilt box by box; `ActiveIsReported` equates it with the field-level `Reported` |
| ClientList.ReportOfEntry | XenoUI/ClientsWindow.xaml.cs:120-130 | a box contributes its trimmed name and its id to `ActiveClients` exactly when it is checked and its name lacks the separator |
| ClientList.ActiveIsReported | XenoUI/ClientsWindow.xaml.cs:116-132 | `ActiveClients` is the checked boxes whose name lacks the separator, as trimmed name and id, in list order |
| ClientList.ReportedFrom | XenoUI/ClientsWindow.xaml.cs:116-132 | every reported client comes from a checked box whose name lacks the separator |
| ClientList.TickRemovesStale | XenoUI/ClientsWindow.xaml.cs:68-133 | after a tick no box is left whose caption parses to an id missing from the snapshot |
| ClientList.TickKeepsUnparsed | XenoUI/ClientsWindow.xaml.cs:79-86 | a box whose caption does not parse to an id is never removed |
| ClientList.SurvivorKept | XenoUI/ClientsWindow.xaml.cs:73-114 | an entry whose id the snapshot still lists, or whose caption does not parse, is still in the list after the tick, checked flag unchanged, whatever else the snapshot holds |
| ClientList.TickFixedPoint | XenoUI/ClientsWindow.xaml.cs:68-133 | a tick whose snapshot lists every id and whose clients are all shown or blank changes nothing |
| ClientList.SelectionPersists | XenoUI/ClientsWindow.xaml.cs:68-133 | whatever the operator checks or unchecks, a tick with an unchanged snapshot leaves the boxes, flags included, as they are |
| ClientList.TickIdempotent | XenoUI/ClientsWindow.xaml.cs:68-133 | running a tick twice with the same snapshot gives the list of running it once, and so the same `ActiveClients` |
| ClientList.TickKeepsListClean | XenoUI/ClientsWindow.xaml.cs:68-114 | a tick keeps the list free of duplicate captions and of blank names |
| ClientList.ActiveAfterTickIsLive | XenoUI/ClientsWindow.xaml.cs:116-132 | after a tick `ActiveClients` holds only ids the snapshot lists |
| Clients.ClientsWindow.GetClientInfoFromDll | XenoUI/ClientsWindow.xaml.cs:159-179 | the loop reads the records before the first null name, in order, and returns `BeforeSentinel` of the array |
| Clients.ClientsWindow.AddCheckBox | XenoUI/ClientsWindow.xaml.cs:140-152 | appends one checked box with that name and id and changes nothing else |
| Clients.ClientsWindow.TimerTick | XenoUI/ClientsWindow.xaml.cs:68-133 | the new list is `Tick` of the old list and the snapshot, `ActiveClients` is rebuilt from it, and the list stays free of duplicates and blank names |
| Clients.ClientsWindow.RemoveInvalidClients | XenoUI/ClientsWindow.xaml.cs:73-93 | the list becomes the boxes that are not stale, in order; `ActiveClients` is untouched |
| Clients.ClientsWindow.MarkedForRemoval | XenoUI/ClientsWindow.xaml.cs:74-88 | the collected positions are exactly those of the boxes to remove |
| Clients.ClientsWindow.RemoveMarked | XenoUI/ClientsWindow.xaml.cs:90-93 | removing the collected boxes leaves the others in order |
| Clients.ClientsWindow.AddNewClients | XenoUI/ClientsWindow.xaml.cs:95-114 | each snapshot client in turn is added against the list as it stands, giving `AddClients` |
| Clients.ClientsWindow.AddNewClient | XenoUI/ClientsWindow.xaml.cs:97-113 | a client is appended, checked, exactly when its caption is not shown and its name is neither `""` nor `" "` |
| Clients.ClientsWindow.HasCaption | XenoUI/ClientsWindow.xaml.cs:98-109 | the scan finds a box exactly when some box has that caption |
| Clients.ClientsWindow.UpdateActiveClients | XenoUI/ClientsWindow.xaml.cs:116-132 | `ActiveClients` is cleared and refilled, giving `Active` of the list |
| Clients.Names | XenoUI/ClientsWindow.xaml.cs:37-41 | the `clientUsers` array, the names of `ActiveClients` in order; `Clients.ClientsWindow.ExecuteScript` is proved to build it |
| Clients.ClientsWindow.ExecuteScript | XenoUI/ClientsWindow.xaml.cs:35-44 | the executor gets the script, the names of `ActiveClients` in order, and their count |
| ClientLifecycle.CommasOfDisplay | XenoUI/ClientsWindow.xaml.cs:103 | a caption has a comma right after the name and none after it |
| ClientLifecycle.DisplayInjective | XenoUI/ClientsWindow.xaml.cs:103 | the caption determines the name and the id, for every name |
| ClientLifecycle.DroppedCaptionGone | XenoUI/ClientsWindow.xaml.cs:68-114 | after a tick that drops a box, no box has its caption |
| ClientLifecycle.ReappearanceResets | XenoUI/ClientsWindow.xaml.cs:68-114 | a box whose process vanishes is removed, and comes back checked when the process reappears, whatever its flag was |
| ClientLifecycle.TickAddsMissing | XenoUI/ClientsWindow.xaml.cs:95-114 | a listed client with a non-blank name and no box gets a checked box at the next tick |
| ClientLifecycle.SeparatorNameStays | XenoUI/ClientsWindow.xaml.cs:79-80 | a box whose name contains the separator is never removed and never reported |
| ClientLifecycle.RenamedIdTrackedTwice | XenoUI/ClientsWindow.xaml.cs:73-114 | a live id listed under a new, non-blank name keeps its old box and gains a second one |
| ClientLifecycle.PlainReport | XenoUI/ClientsWindow.xaml.cs:120-130 | a box of a plain client reports that client exactly when it is checked |
| ClientLifecycle.FirstTickTracksBoth | XenoUI/ClientsWindow.xaml.cs:68-133 | from an empty list, a tick with two plain clients lists both, checked, and targets both |
| ClientLifecycle.SecondTickDropsOne | XenoUI/ClientsWindow.xaml.cs:68-133 | when one client's process is gone, its unchecked box goes and only the other client is targeted |
| ClientLifecycle.ThirdTickBringsBackChecked | XenoUI/ClientsWindow.xaml.cs:68-133 | when the process is back, its box returns checked and both clients are targeted again |
| EditorText.ReplaceChar | XenoUI/MainWindow.xaml.cs:77 | `Replace` of one character lengthens the text by the replacement's extra length per occurrence, and introduces no character beyond the replacement's |
| EditorText.EscapeChar | XenoUI/MainWindow.xaml.cs:77 | backslash, double quote, line feed and carriage return become a two-character escape starting with a backslash; every other character stays |
| EditorText.EscapeForScript | XenoUI/MainWindow.xaml.cs:77 | the chain of four `Replace` calls; `EscapeIsCharwise`, `EscapeRoundTrip`, `EscapeLength` and `NoRawLineBreaks` state its properties |
| EditorText.DecodeLiteral | XenoUI/MainWindow.xaml.cs:78 | the reference reading of a JavaScript string literal body with those four escapes; `DecodeEscaped` shows it inverts the escape |
| EditorText.ReplaceConcat | XenoUI/MainWindow.xaml.cs:77 | `Replace` distributes over concatenation |
| EditorText.ReplaceAbsent | XenoUI/MainWindow.xaml.cs:77 | replacing a character that does not occur changes nothing |
| EditorText.EscapeOne | XenoUI/MainWindow.xaml.cs:77 | because the backslash goes first, the chain escapes each single character exactly once |
| EditorText.EscapeConcat | XenoUI/MainWindow.xaml.cs:187 | the whole chain distributes over concatenation |
| EditorText.EscapeIsCharwise | XenoUI/MainWindow.xaml.cs:77 | the chain of `Replace` calls is the character-by-character escape |
| EditorText.NoRawLineBreaks | XenoUI/MainWindow.xaml.cs:78 | the escaped text holds no raw line break, so the `setText("…")` call stays on one line |
| EditorText.EscapeLength | XenoUI/MainWindow.xaml.cs:187 | the escaped text is one character longer per backslash, double quote, line feed and carriage return |
| EditorText.EscapedLength | XenoUI/MainWindow.xaml.cs:187 | the same length law for the character-by-character escape |
| EditorText.DecodeStep | XenoUI/MainWindow.xaml.cs:78 | decoding one escaped character ahead of some text yields that character ahead of the decoded text |
| EditorText.DecodeEscaped | XenoUI/MainWindow.xaml.cs:78 | the literal decoder inverts the character-by-character escape |
| EditorText.EscapeRoundTrip | XenoUI/MainWindow.xaml.cs:77-78 | the literal built from the file text decodes back to exactly the file text |
| EditorText.EscapeInjective | XenoUI/MainWindow.xaml.cs:187-188 | two different file texts never load as the same literal |
| EditorText.IsQuoted | XenoUI/MainWindow.xaml.cs:116 | the `StartsWith`/`EndsWith` test; `StripQuotes` states what happens on each side of it |
| EditorText.StripQuotes | XenoUI/MainWindow.xaml.cs:116-119 | fails exactly on a lone double quote; strips one pair of surrounding quotes; returns other text unchanged |
| EditorText.StripQuotesOfQuoted | XenoUI/MainWindow.xaml.cs:116-119 | a quoted text loses exactly its two quotes |
| EditorText.LoadThenReadBack | XenoUI/MainWindow.xaml.cs:116-119 | if the editor returns the loaded literal between double quotes, the strip gives back exactly that literal body, and it decodes to the file text |
| Editor.Writes | XenoUI/MainWindow.xaml.cs:41-47 | the texts a run of save ticks writes; `WritesOnChange`, `SameTextWrittenOnce` and `WritesConcat` state its properties, and `Editor.MainWindow.SaveChanges` appends exactly `Writes` of one tick |
| Editor.WritesOnChange | XenoUI/MainWindow.xaml.cs:36-48 | a run of save ticks never writes the text written just before, writes at most once per tick, and leaves `lastcontent` at the last text written |
| Editor.SameTextWrittenOnce | XenoUI/MainWindow.xaml.cs:41-47 | ticks that keep seeing the same text write it at most once, and not at all when it was the last text seen |
| Editor.WritesConcat | XenoUI/MainWindow.xaml.cs:36-48 | running the ticks in two stretches writes what running them in one does |
| Editor.MainWindow.SaveChanges | XenoUI/MainWindow.xaml.cs:36-48 | writes the text exactly when it differs from `lastcontent`, then remembers it; the save history stays consistent |
| Editor.MainWindow.ExecuteClick | XenoUI/MainWindow.xaml.cs:157-167 | the executor is called once, with the validated text, exactly when the status is `"success"`; otherwise the status is shown and nothing runs |
| Editor.GateRespected | XenoUI/MainWindow.xaml.cs:159-166 | every executor call in the log follows a successful validation of the same script; `ExecuteClick` keeps it, and `ExecuteFollowsSuccess` reads it position by position |
| Editor.ExecuteFollowsSuccess | XenoUI/MainWindow.xaml.cs:159-166 | in the call log, every executor call comes right after a successful validation of the same script |

## Left out

- The native library (`Initialize`, `GetClients`, `Compilable`,
  `Execute`) is not modelled. The client array arrives as an array of
  records, the validator's status as a parameter, and the executor call is
  returned as a value and logged.
- `Marshal.PtrToStructure`, `PtrToStringAnsi` and `FreeCoTaskMem` are not
  modelled. The array is assumed to hold a terminating record
  (`Terminated`); the source reads past the end when it does not.
- The byte encodings are not modelled: ASCII for the validator and UTF-8
  for the executor. Scripts are strings throughout.
- The WPF and WebView2 machinery is out of scope: the check-box styling,
  window dragging, minimise and maximise, timers, `MessageBox` and the
  Monaco editor itself. Timer ticks are method calls.
- File I/O is out of scope. Writes to `editor.lua` are a log of texts. The
  writes in `buttonClose_Click`, `InitializeWebView2`'s default file and
  `buttonSaveFile_Click` are not modelled.
- `buttonClear_Click`, `buttonOpenFile_Click`'s file dialog and
  `ScriptsWindow` are not modelled.
- `Xeno/include/worker.hpp` is not part of this model.
- The `child is CheckBox` tests are left out: every child of the container
  is a check box.
- `Clients.ClientsWindow.RemoveMarked`: the source removes check boxes by
  object reference; the model removes them by position. Two boxes that
  share a caption cannot both exist while the list stays clean.
- `Clients.ClientsWindow.TimerTick`: `Timer_Tick` is one method in the
  source. The model splits it into one method per pass and one per inner
  loop; the passes run in the same order.
- `NetText.TryParseInt32`: `int.TryParse` is modelled only for text without
  surrounding white space. That is how the tick calls it, after `Trim`.
  Culture-specific signs and digits are not modelled.
- `EditorText.StripQuotes`: `StartsWith` and `EndsWith` are culture
  sensitive in .NET and compared ordinally here.
- `EditorText.DecodeLiteral` is a reference decoder for the four escapes
  the chain produces. It is not `Regex.Unescape`, which `GetScriptContent`
  applies afterwards and which also undoes regex escapes.
- `EditorText.LoadThenReadBack`: `getText()` goes through
  `ExecuteScriptAsync`, which returns the editor text JSON-encoded; that
  encoding also escapes tab and other control characters the `Replace`
  chain leaves raw, and `GetScriptContent` then decodes with
  `Regex.Unescape`. Neither is modelled, so the lemma only covers an
  editor that hands the loaded literal back unchanged.
- `Editor.MainWindow.ExecuteClick`: a null status from the validator is not
  modelled; statuses are strings.
