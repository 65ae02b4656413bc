# Gaming Adaptive Display — a verified model of the game-list editor and the watchdog

Gaming Adaptive Display keeps a list of game executables, each with a
display mode string such as `1920x1080 @ 165Hz`. Once a second a watchdog
looks at the running processes. While a monitored game runs, it switches the
display to that game's mode. When none runs any more, it switches the
display back to the system default. The user edits the list through three
actions: browse for a game, apply a resolution to the selected game, and
remove the selected games.

This project models `main.py`: the application object, its two lists and its
"resolution changed" flag, the three editing actions and one watchdog tick.
It proves what each of them does to that state and which requests it makes
of the display.

Modules:

- `Wrappers` — `Option` and `Result`.
- `Text` — the string operations the program relies on:
  - Python's `split`, `join` and `replace` with an empty replacement;
  - `int()` on a plain decimal and `str()` of a natural number;
  - `lower()`.
- `Paths` — `get_game_name`, which is `os.path.basename`, and the
  case-insensitive comparison of a process name with a game name.
- `Resolution` — the display mode and the parse the watchdog applies to a
  stored resolution string, with its two error kinds: `ValueError` from
  `int()` or from unpacking, and `IndexError` from a missing `" @ "` piece.
  It also holds the fourteen picker choices and the default resolution.
- `Backend` — the display. `change_resolution_refresh` and
  `reset_resolution_refresh` become requests answered by an oracle
  `answer(n, call)`, where `n` counts the requests made so far. A ghost log
  records every request.
- `GameList` — the configured entries and the name list as values:
  - the lookups and the edit of `apply_resolution`;
  - the removals of `remove_game`;
  - how a list item's text maps back to a game name.
- `Watchdog` — one tick as a function, `Tick`, and a run of ticks, `Run`.
  Each takes the configured games, a snapshot of process names per tick, the
  flag and the backend's answers.
- `App` — the class `GameResolutionChanger`, with fields `gameNames`,
  `appliedGames` and `resolutionChanged` and one method per action. Each
  method is proved against the `GameList` or `Watchdog` function that
  describes it:
  - `Monitor` and `CheckGame` keep the source's nested loops, its `break`
    and its early exit on an exception;
  - `ApplyResolution` keeps the index search with `break`.

Where a reader might expect otherwise, the model follows the code:

- A failed reset still clears the flag (`main.py:259-262`), so the reset is
  never retried. See `Watchdog.TickResets`.
- One tick can ask for several mode changes. When the display refuses the
  first running game's mode, the next running game's mode is asked for in
  the same tick (`main.py:239-254`). See `Watchdog.TickUnchanged` and
  `Watchdog.AttemptsStopAtAcceptance`.
- A malformed resolution string of a running game raises out of `monitor`.
  The remaining games of that tick are not visited and no reset happens
  (`main.py:245-247`). See `Watchdog.TickRaises`; `Run` stops at such a tick.
- Editing a running game's resolution does not re-apply it while a switch is
  in force, because the flag alone suppresses the request (`main.py:249`).
  See `Watchdog.TickChanged` and `Watchdog.SteadyRunIsQuiet`.
- No reset is attempted at shutdown, and a tick reports no outcome beyond
  finishing or raising.

## Model

| member | source | states |
|---|---|---|
| Text.SplitJoin | main.py:245-246 | joining the pieces that `split` returns, with the same separator, gives back the original string |
| Text.SplitWithoutSeparator | main.py:156 | a string that does not contain the separator splits into itself alone |
| Text.SplitAfterPrefix | main.py:245 | when the separator's first character is absent from `a`, splitting `a + sep + b` gives `a` followed by the pieces of `b` |
| Text.SplitFirstPiece | main.py:156 | when the second character of a two-character separator is absent from `a`, the first piece of `a + sep + b` is `a` |
| Text.RemoveAllSuffix | main.py:247 | deleting every "Hz" from a string that ends in "Hz" and has no other "H" leaves what came before it, as for the refresh piece `165Hz` |
| Text.NatToDecimal | main.py:252 | the rendering of a number is a non-empty digit string without a leading zero |
| Text.DecimalRoundTrip | main.py:246-247 | reading the decimal rendering of a number gives the number back |
| Text.LowerEqualIffCaseVariants | main.py:244 | two names compare equal after lower-casing exactly when they have the same length and differ at most in the case of ASCII letters |
| Paths.BasenameIsLastComponent | main.py:13-14 | the game name is a separator-free suffix of the path that is the whole path or follows a separator |
| Paths.BasenameOfName | main.py:13-14 | a bare file name is its own game name |
| Paths.BasenameOfDirectory | main.py:13-14 | the game name of `dir/name` is `name` |
| Resolution.ParseRendered | main.py:245-247 | a string of three decimals in the `<w>x<h> @ <r>Hz` shape reads as the mode with those values |
| Resolution.ParseFormat | main.py:245-252 | reading back the log line's rendering of a mode gives the same mode |
| Resolution.ParseNeedsSeparator | main.py:245-247 | a string without " @ " never reads as a mode |
| Resolution.ParseNeedsTwoDimensions | main.py:246 | a size part that does not split on "x" into exactly two decimal integers fails with `ValueError` |
| Resolution.ParseMissingRefresh | main.py:245-247 | a well-formed size with no " @ " refresh piece fails with `IndexError` |
| Resolution.ParseSuccessShape | main.py:245-247 | every string that reads as a mode contains " @ " |
| Resolution.ParsesAt165 | main.py:91-106 | any `<w>x<h> @ 165Hz` string with decimal sizes reads as that size at 165 Hz |
| Resolution.ParsePickerShape | main.py:91-106 | every string of the picker's shape reads as a 165 Hz mode |
| Resolution.OptionsParse | main.py:91-106 | the default resolution is one of the fourteen choices, and every choice reads as a 165 Hz mode |
| Resolution.DefaultIsFormatted | main.py:143 | the default resolution string is the rendering of 1920x1080 at 165 Hz |
| Resolution.DefaultRoundTrip | main.py:143 | the default resolution reads as 1920x1080 at 165 Hz and renders back to itself |
| Backend.Display.constructor | resolution_utils.py:43-83 | a fresh display has made no requests |
| Backend.Display.ChangeResolution | resolution_utils.py:43-66 | one mode request is logged, and its answer is the backend's answer to that request |
| Backend.Display.ResetResolution | resolution_utils.py:68-83 | one reset request is logged, and its answer is the backend's answer to that request |
| GameList.ItemNameOfLabel | main.py:156-159 | the name read back from a "name (resolution)" label is the name, when it has no "(" |
| GameList.ItemNameOfName | main.py:145 | an item showing a bare name that does not contain " (" reads back as that name |
| GameList.Names | main.py:27 | the name list has one entry per configured game, the basename of its path |
| GameList.NamesAppend | main.py:139-144 | adding an entry appends its basename to the name list |
| GameList.AddDefaultKeepsResolutions | main.py:141-144 | adding an entry with the default resolution keeps every stored resolution readable |
| GameList.FirstWhere | main.py:171-175 | the index found is the first entry that matches, or the length when none does |
| GameList.FindPathFirst | main.py:161 | the lookup finds a path exactly when some entry has the name, and it is the first such entry's path |
| GameList.PathIndexIsNameIndex | main.py:161-175 | the first entry with the looked-up path is the first entry with the selected name |
| GameList.SetResolutionEditsOne | main.py:149-183 | a successful apply changes only the resolution of the first entry with the selected name, which differed before, and keeps the name list |
| GameList.SetResolutionTwice | main.py:179-182 | applying the same resolution a second time is refused as already applied |
| GameList.SetResolutionKeepsInvariants | main.py:183 | storing a readable resolution keeps every stored resolution readable |
| GameList.RemoveFirst | main.py:219-220 | removing a present name shortens the list by one |
| GameList.RemoveFirstCounts | main.py:219-220 | the removal takes out exactly one copy of the name |
| GameList.RemoveFirstAt | main.py:219-220 | the removal deletes the first occurrence and keeps the others in order |
| GameList.RemoveFirstFromList | main.py:219-220 | every name left after the removal was in the list |
| GameList.RemoveFirstKeepsDistinct | main.py:219-220 | removing from a list without repeats leaves a list without repeats |
| GameList.WithoutGameMembers | main.py:222 | an entry survives the filter exactly when it was configured and has another name |
| GameList.WithoutGameKeepsOrder | main.py:222 | the surviving entries are the configured list with some entries deleted, in their original order |
| GameList.LabelledRemovalKeepsGame | main.py:214-222 | filtering by a "name (resolution)" label, as written, keeps the game's entry; when no name equals the label, the list of names is left as it was too |
| GameList.BareRemovalRemovesGame | main.py:214-222 | filtering by a bare game name, the text of a browsed game's item, removes every entry with that name |
| GameList.LabelledRemovalRemovesGame | main.py:214-222 | filtering by the name read from the label removes the game's entry |
| GameList.WithoutGameAppend | main.py:222 | the filter works entry by entry, so it distributes over concatenation |
| GameList.WithoutAbsentGame | main.py:222 | filtering out a name that no entry has changes nothing |
| GameList.WithoutGameNames | main.py:219-222 | without repeated names, the filtered entries' names are the name list with that one name removed, still without repeats |
| GameList.KeepUnselectedMembers | main.py:213-222 | an entry is kept exactly when it was configured and its name is not selected |
| GameList.DropGamesKeepsUnselected | main.py:213-222 | filtering name after name equals keeping the entries whose name is not selected |
| GameList.KeepAll | main.py:213-222 | with nothing selected every entry is kept |
| GameList.KeepAfterWithout | main.py:213-222 | filtering out the first selected name and then the rest equals filtering out all of them |
| GameList.DropKeepsNamesInStep | main.py:213-222 | after any removals the name list is still the entries' names, without repeats |
| Watchdog.RunningModesFirst | main.py:239-254 | the running modes are empty exactly when no monitored game runs, and otherwise start with the first running game's mode |
| Watchdog.AttemptsStopAtAcceptance | main.py:249-250 | a tick asks for the running modes in order, every request but the last was refused, and it stops early only after an acceptance |
| Watchdog.ScanAfterRaise | main.py:245-247 | once a resolution string has raised, the rest of the tick does nothing |
| Watchdog.ScanWhileChanged | main.py:249-254 | while a switch is in force the scan makes no request and only notes whether a game runs |
| Watchdog.ScanOnlyApplies | main.py:239-257 | the scan only appends mode requests to the log |
| Watchdog.ScanRaises | main.py:243-257 | the scan raises exactly when some running game's resolution cannot be read |
| Watchdog.ScanFromUnchanged | main.py:237-257 | with no switch in force, the scan's requests are the attempts over the running modes, the flag is whether the last was accepted, and it notes whether a game runs |
| Watchdog.TickUnchanged | main.py:237-262 | a tick with no switch in force makes exactly the attempts over the running modes and ends with the flag saying whether the last one was accepted; with no game running it does nothing |
| Watchdog.TickChanged | main.py:237-262 | a tick with a switch in force makes no request while a game runs, and otherwise makes one reset and clears the flag |
| Watchdog.TickResets | main.py:259-262 | a tick resets exactly when a switch was in force and no game runs; then the reset is its only request and the flag is cleared whatever the answer |
| Watchdog.ScanRunningNeedsCall | main.py:249-253 | the flag is set only together with the "game running" mark |
| Watchdog.TickRaises | main.py:243-262 | a tick raises exactly when a running game's resolution cannot be read, and a raising tick never resets |
| Watchdog.RetryAfterRefusal | main.py:249-250 | when every request of a tick is refused, the next tick asks for the same first mode again |
| Watchdog.IdleRunIsQuiet | main.py:231-262 | ticks with no monitored game running and no switch in force make no request |
| Watchdog.SteadyRunIsQuiet | main.py:231-262 | once a switch is in force, ticks while a game keeps running make no request and keep the flag |
| Watchdog.AppliedOnceWhileRunning | main.py:231-262 | when the first running mode is accepted, any number of ticks over an unchanged snapshot ask for it exactly once |
| Watchdog.RevertedOnceAfterExit | main.py:231-262 | after the games exit, a run of ticks resets exactly once and leaves the flag cleared |
| App.GameResolutionChanger.constructor | main.py:17-31 | it starts from the configured entries, their names and a cleared flag; the invariant holds exactly when no name repeats |
| App.GameResolutionChanger.BrowseGame | main.py:134-147 | a new non-empty path appends its name and an entry with the default resolution; anything else changes nothing; it keeps the invariant and readable resolutions |
| App.GameResolutionChanger.ApplyResolution | main.py:149-204 | the new entries are exactly those `SetResolution` describes, or nothing changes and the reason is returned; it keeps the invariant |
| App.GameResolutionChanger.RemoveGame | main.py:206-229 | nothing selected is an error that changes nothing; otherwise each selected item text in turn is removed from the name list and from the entries, so an entry stays exactly when its name equals no selected text; it keeps the invariant |
| App.GameResolutionChanger.Monitor | main.py:237-262 | the flag, the display's request log and the outcome are exactly those of `Tick` for this snapshot |
| App.GameResolutionChanger.CheckGame | main.py:240-257 | the inner loop for one game does what `Visit` describes to the flag, the running mark and the request log |

## Left out

- The Qt window is not modelled: widgets, status labels, log lines, tooltips and the list widget's rows. A selection enters the model as the texts of the selected items.
- The file dialog of `browse_game` is not modelled. `BrowseGame` takes the chosen path, and an empty path stands for a cancelled dialog.
- Reading and writing `game_config.json` is not modelled. The constructor takes the configured entries, so the JSON decode error path and a missing file both start it from an empty list. The writes after an edit are left out.
- The timer is not modelled. One tick is one call of `Monitor`, and a sequence of ticks is `Watchdog.Run`.
- `psutil.process_iter` enters as a snapshot of process names per tick. The code enumerates the processes once for each configured game; the model uses one snapshot for the whole tick. Processes whose name is missing and the swallowed `NoSuchProcess`/`AccessDenied` errors are not modelled.
- The Windows display calls in `resolution_utils.py` are replaced by an oracle that answers each request. Exceptions inside them and the non-Windows branch are just a `false` answer. `get_current_resolution_refresh` is never called by the core and is not modelled.
- The append branch of `apply_resolution` (`main.py:186-197`) is not modelled as an operation. The entry with the looked-up path always exists, so the branch cannot be reached, and `ApplyResolution` proves this with an `assert false`.
- Resolution.Parse: reads only plain ASCII digit strings. Python's `int()` also accepts surrounding whitespace, a sign, underscores between digits and non-ASCII decimal digits.
- Text.Lower: maps only ASCII letters. Python's `lower()` also folds other scripts.
- Paths.Basename: treats `/` and `\` as separators. A drive prefix such as `C:game.exe` without a separator is not stripped, as Windows' `os.path.basename` would do.
- App.GameResolutionChanger.RemoveGame: compares the selected item texts as they are, as the code does, and does not use the corrected reading from the findings. That reading, the text before the first " (", would mis-read a browsed game whose own name contains " (", such as `Game (x64).exe`, which the code removes correctly. A reading that is right for both kinds of item needs the list widget's bookkeeping, which is not modelled.
- App.GameResolutionChanger.ApplyResolution: its contract does not itself say that stored resolutions stay readable. That follows from its `SetResolution` postcondition together with `GameList.SetResolutionKeepsInvariants`.

## Findings

| source | as written | input that shows it | evidently intended | confidence | as-written member | corrected member |
|---|---|---|---|---|---|---|
| main.py:214-222 | `remove_game` compares the whole item text with the game names, but items loaded at startup or edited by an apply read "name (resolution)" | an entry `C:/Games/game.exe` whose item reads "game.exe (1920x1080 @ 165Hz)": removing it leaves both the name and the entry in place | read a labelled item as the name before " (", as `apply_resolution` does at main.py:156, so the game is removed; `GameList.BareRemovalRemovesGame` shows that bare-name items already work | not executed | GameList.LabelledRemovalKeepsGame | GameList.LabelledRemovalRemovesGame |
