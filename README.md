# atom-tsd core, modelled in Dafny

`atom-tsd` is an Atom editor package. It runs the TypeScript definition
manager `tsd` (`install`, `reinstall`, `update`) in the project's working
directory. It scrapes the installed `….d.ts` paths from the tool's stdout and
shows them in an output view. While the command runs, a status line cycles
`installing.` … `installing.....`. The Atom glue around this is small, and
this project models the deterministic core of `lib/atom-tsd.ts`:

- `wrappers.dfy` (`Wrappers`): the `Option` type.
- `tsd_command.dfy` (`TsdCommand`): the three fixed argument vectors and the
  `tsd` / `tsd.cmd` executable choice.
- `stdout_scraper.dfy` (`StdoutScraper`): the `data` handler. The pattern
  `- ([^\n]+/[^\n]+\.d\.ts)` with flags `igm` is specified directly
  (`MatchAt`, `MatchWithSlash`). A hand-written scanner (`MatchEnd`,
  `NextMatch`) computes the match `exec` returns, and the method `ScrapeChunk`
  is the `exec` loop over `lastIndex`. The greedy `[^\n]+` means a capture
  runs to the last `.d.ts` of its line. Only the letters `d`, `t` and `s`
  are affected by the `i` flag.
- `command_runner.dfy` (`CommandRunner`): `execTsdCommand`. The child
  process's events (spawn error, stdout chunk, close) are an input sequence.
  The lines passed to `out` are an output sequence. The `tsdMissing` closure
  flag is a field of the class `CommandRun`, whose handler methods are proved
  against the fold `Run` of the step function `Step`.
- `status_cycler.dfy` (`StatusCycler`): `cycleMessage` as the class `Ticker`.
  It holds the five-entry table, the counter `cycleIndex` with its reset and
  post-increment, a cancel flag, and the texts published so far.
- `orchestrator.dfy` (`Orchestrator`): the `out` callbacks of `install`,
  `reinstall` and `update`. They act on an abstract output view (`View`,
  the class `Session`). `RunCommand` covers one command from the
  confirmation dialog to the last line.
- `catalog.dfy` (`Catalog`): the display names the `AtomTsd` constructor
  builds from the package catalog.
- `workspace.dfy` (`Workspace`): the `||` fallback chains of `homeDirectory`
  and `workingDirectory`.

The model follows the code in these places:

- `reinstall()` calls `Tsd.update` (line 173), so it issues the update
  vector, not the reinstall vector (`Orchestrator.CommandArgs`).
- The missing-tool test compares the error's `syscall` with `spawn tsd` and
  its `path` with `tsd` literally (line 58). On a platform where the
  executable is `tsd.cmd`, that error is therefore rethrown rather than
  reported (`CommandRunner.ToolNotFoundByPlatform`).
- `window.setInterval` does not fire at once, so nothing is published
  before the first tick (`StatusCycler.Ticker.constructor`).
- The guard `match` at line 68 succeeds exactly when the `exec` loop finds
  something, so it never changes the output (`StdoutScraper.NoItemsIffNoMatch`).

## Model

| member | source | states |
|---|---|---|
| TsdCommand.InstallArgs | lib/atom-tsd.ts:39-41 | definition: the vector `query <q> --action install --save --resolve` that `Tsd.install` passes on |
| TsdCommand.ReinstallArgs | lib/atom-tsd.ts:43-45 | definition: the vector `reinstall --save --overwrite` of `Tsd.reinstall` |
| TsdCommand.UpdateArgs | lib/atom-tsd.ts:47-49 | definition: the vector `update --save --overwrite` of `Tsd.update` |
| TsdCommand.IsWin | lib/atom-tsd.ts:53 | definition: `/^win/` tested on the platform name, a case-sensitive prefix test |
| TsdCommand.Executable | lib/atom-tsd.ts:55 | definition: `tsd.cmd` on Windows platforms, `tsd` otherwise (properties in ExecutableChoice) |
| TsdCommand.InstallArgsFixedButQuery | lib/atom-tsd.ts:39-41 | the install vector has six entries, the query is at index 1, every other entry is the same for all queries, and two vectors are equal exactly when their queries are |
| TsdCommand.VectorsDistinct | lib/atom-tsd.ts:39-49 | the three vectors start with `query`, `reinstall` and `update`, and are pairwise different for every query |
| TsdCommand.ExecutableChoice | lib/atom-tsd.ts:53-55 | the executable is `tsd.cmd` exactly when the platform name starts with `win`, and `tsd` otherwise |
| StdoutScraper.MatchEnd | lib/atom-tsd.ts:69-70 | definition: where the match starting at i ends: after `- `, the first `/` from i + 3 on the line, then the last `.d.ts` of the line starting at least two characters after the slash; its bound is at least ten characters (correctness in MatchEndSpec) |
| StdoutScraper.ItemsFrom | lib/atom-tsd.ts:70-74 | definition: the group-1 captures of the matches `exec` finds from `lastIndex` = from on, in order |
| StdoutScraper.Items | lib/atom-tsd.ts:66-75 | definition: the items of one chunk, scanned from index 0 with a fresh regex |
| StdoutScraper.MatchEndSpec | lib/atom-tsd.ts:69-70 | the scanner finds an end at i exactly when the pattern matches from i, and that end is the largest one, as the greedy `[^\n]+` demands |
| StdoutScraper.NextMatch | lib/atom-tsd.ts:70-73 | the match `exec` returns from `lastIndex` starts at or after it, is at least ten characters long, and is the scanner's match at its start |
| StdoutScraper.NextMatchLeftmost | lib/atom-tsd.ts:70-73 | no match starts between `lastIndex` and the returned match, and when `exec` returns null no match starts anywhere after `lastIndex` |
| StdoutScraper.ScrapeChunk | lib/atom-tsd.ts:66-75 | the guard and the `exec` loop pass on exactly the items of the chunk (`Items`), in order |
| StdoutScraper.MatchesAreGreedy | lib/atom-tsd.ts:69-74 | every span the loop visits is a match of the pattern that ends at the last `.d.ts` of its line |
| StdoutScraper.ItemsAreCaptures | lib/atom-tsd.ts:72 | the j-th item is capture group 1 of the j-th visited match: the text after `- ` up to the match's end |
| StdoutScraper.OneItemPerLine | lib/atom-tsd.ts:69-74 | visited matches come left to right with a line break between any two, so each line yields at most one item |
| StdoutScraper.MatchesComplete | lib/atom-tsd.ts:70-74 | every match of the pattern in the chunk starts inside one of the visited spans, so the loop skips none |
| StdoutScraper.NoItemsIffNoMatch | lib/atom-tsd.ts:68-75 | a chunk yields no item exactly when the pattern matches nowhere in it |
| StdoutScraper.ItemsAreShaped | lib/atom-tsd.ts:69-72 | every item lies on one line, has a `/` with at least one character before it and one before the final `.d.ts`, and ends in `.d.ts` in any case of d, t, s |
| StdoutScraper.ItemsSplitAtLineBreak | lib/atom-tsd.ts:66-75 | splitting a chunk right after a line break splits its items: the scan carries nothing across lines |
| StdoutScraper.ItemOfLine | lib/atom-tsd.ts:69-72 | the line `- p` followed by a line break yields exactly p, for every item-shaped p |
| StdoutScraper.ListingRoundTrip | lib/atom-tsd.ts:66-75 | a chunk of lines `- p` yields exactly those paths, in order |
| CommandRunner.Step | lib/atom-tsd.ts:57-87 | definition: one handler call: the missing-tool error sets the flag and sends `--missing-tsd--`, any other error is rethrown, a chunk sends its items, close sends `--finish--` unless the flag is set |
| CommandRunner.Run | lib/atom-tsd.ts:51-88 | definition: the closure state after the handlers saw the events in order, from a clear flag |
| CommandRunner.ItemsAreNotSentinels | lib/atom-tsd.ts:60-85 | no scraped item equals `--finish--` or `--missing-tsd--` |
| CommandRunner.RunForwardsItemsInOrder | lib/atom-tsd.ts:57-87 | leaving out the two sentinels, `out` receives exactly the items of the stdout chunks, chunk after chunk |
| CommandRunner.MissingOnlyOnToolNotFound | lib/atom-tsd.ts:52-64 | the missing flag is set exactly when the missing-tool error occurred, `--missing-tsd--` is sent once per such error, and the errors rethrown are exactly the other spawn errors |
| CommandRunner.MissingFlagAndCount | lib/atom-tsd.ts:52-60 | the flag and the number of `--missing-tsd--` lines follow the missing-tool errors (ENOENT, `spawn tsd`, `tsd`) |
| CommandRunner.RethrownAreOtherErrors | lib/atom-tsd.ts:57-63 | a spawn error is rethrown exactly when it occurred and is not the missing-tool error |
| CommandRunner.NoFinishBeforeClose | lib/atom-tsd.ts:82-87 | before the close event nothing sends `--finish--` |
| CommandRunner.OnlyItemsBeforeClose | lib/atom-tsd.ts:57-76 | without a close and without the missing-tool error, `out` has received exactly the items |
| CommandRunner.ExactlyOneTerminal | lib/atom-tsd.ts:52-87 | with at most one spawn error and a final close, exactly one sentinel is sent: `--finish--` after every item whatever the exit code, or `--missing-tsd--` and no `--finish--` |
| CommandRunner.CommandRun.constructor | lib/atom-tsd.ts:52-55 | the run spawns the platform's executable with the given vector and directory, with the flag clear and nothing sent |
| CommandRunner.CommandRun.OnError | lib/atom-tsd.ts:57-64 | the error handler performs one step of the protocol on the closure state |
| CommandRunner.CommandRun.OnData | lib/atom-tsd.ts:66-76 | the stdout handler appends the chunk's items to what `out` received |
| CommandRunner.CommandRun.OnClose | lib/atom-tsd.ts:82-87 | the close handler sends `--finish--` exactly when the flag is clear |
| CommandRunner.IsToolMissing | lib/atom-tsd.ts:58 | definition: the error handler's test for the missing tool: code `ENOENT`, syscall `spawn tsd` and path `tsd`, all three compared literally |
| CommandRunner.ToolNotFoundByPlatform | lib/atom-tsd.ts:53-60 | the not-found error of the platform's own executable is reported as `--missing-tsd--` where that executable is `tsd`, and rethrown without any line where it is `tsd.cmd` |
| CommandRunner.Execute | lib/atom-tsd.ts:51-88 | spawns the platform's executable (`tsd.cmd` or `tsd`) with exactly the given directory and vector; delivering the events to the handlers in order sends the lines of `Run` and rethrows its errors |
| StatusCycler.CycleTable | lib/atom-tsd.ts:12-18 | definition: the five texts `msg.` to `msg.....` |
| StatusCycler.Status | lib/atom-tsd.ts:22-26 | definition: the text the k-th firing publishes, msg with ((k - 1) mod 5) + 1 periods |
| StatusCycler.CycleTableEntries | lib/atom-tsd.ts:12-18 | entry i of the table is the message followed by i + 1 periods |
| StatusCycler.StatusCycles | lib/atom-tsd.ts:11-27 | the k-th text repeats with period five, the first five are the table's entries, and each is the message followed by one to five periods |
| StatusCycler.IndexBeforeRead | lib/atom-tsd.ts:23-26 | after the reset the index read is n mod 5, always within 0..4 |
| StatusCycler.Ticker.constructor | lib/atom-tsd.ts:11-29 | the ticker starts with nothing published and not cancelled |
| StatusCycler.Ticker.Tick | lib/atom-tsd.ts:22-27 | the k-th firing publishes the message with ((k - 1) mod 5) + 1 periods; after a cancel nothing is published |
| StatusCycler.Ticker.Cancel | lib/atom-tsd.ts:31-34 | cancelling stops the ticker, publishes nothing, and a second cancel changes nothing |
| Orchestrator.CommandArgs | lib/atom-tsd.ts:154-263 | definition: the vector each command issues; `install` the install vector with the chosen definition, `reinstall` and `update` both the update vector (`reinstall()` calls `Tsd.update`) |
| Orchestrator.WaitMessage | lib/atom-tsd.ts:169-245 | definition: the text handed to `cycleMessage`: `reinstalling`, `updating`, `installing` |
| Orchestrator.CompletionStatus | lib/atom-tsd.ts:185-260 | definition: the status set on `--finish--`: `All types have been reinstalled!`, `updated!`, `installed!` |
| Orchestrator.Dispatch | lib/atom-tsd.ts:173-188 | definition: one call of the `out` callback: `--missing-tsd--` cancels the ticker, closes the view and raises the dialog; `--finish--` cancels the ticker, sets the completion status and shows the close button; any other line is appended to the output (the same callback appears at lines 211-225 and 249-263) |
| Orchestrator.DispatchAll | lib/atom-tsd.ts:173-188 | definition: the callback applied to every line, in order |
| Orchestrator.DispatchAllEffect | lib/atom-tsd.ts:173-188 | over any lines: non-sentinels are appended in order, either sentinel cancels the ticker, `--missing-tsd--` closes the view and raises the dialog once per line, `--finish--` sets the completion status and shows the close button |
| Orchestrator.DispatchAllCounts | lib/atom-tsd.ts:173-188 | the output is the non-sentinel lines in order and the dialog count is the number of `--missing-tsd--` lines |
| Orchestrator.DispatchAllFlags | lib/atom-tsd.ts:173-188 | the ticker, close, close-button flags and the status follow which sentinels occurred |
| Orchestrator.FinishedRunView | lib/atom-tsd.ts:82-87 | a run that spawned ends with its items in order, the completion status, the close button, the ticker cancelled and the view open |
| Orchestrator.MissingRunView | lib/atom-tsd.ts:57-60 | a run whose tool is missing ends with the ticker cancelled, the view closed, the dialog raised once, and no status or close button |
| Orchestrator.Session.constructor | lib/atom-tsd.ts:165-171 | a fresh, cleaned view with a new ticker for the operation's wait message, nothing published |
| Orchestrator.Session.Tick | lib/atom-tsd.ts:169-171 | the k-th firing of a running ticker sets the view's status to `Status(WaitMessage(op), k)`, appends that text to the ticker's published texts and changes nothing else; after a cancel nothing changes |
| Orchestrator.Session.OnLine | lib/atom-tsd.ts:173-188 | the callback changes the view as `Dispatch` says and publishes nothing |
| Orchestrator.RunCommand | lib/atom-tsd.ts:154-190 | nothing happens unless the user confirms; then the outcome records the executable, the vector `CommandArgs(op)` and the directory as actually handed to the runner, and the final view is every line dispatched in order |
| Catalog.DisplayName | lib/atom-tsd.ts:102-106 | definition: `project - url` when project and name agree, `name (project) - url` otherwise |
| Catalog.DisplayNameShape | lib/atom-tsd.ts:102-106 | a display name starts with the name and ends with ` - ` and the project URL, and shows the project in parentheses exactly when it differs from the name |
| Catalog.LoadCatalog | lib/atom-tsd.ts:101-107 | one entry per definition, in order, with its display name and name |
| Workspace.HomeDirectory | lib/atom-tsd.ts:129-131 | definition: the JavaScript `or` chain of `HOME`, `USERPROFILE` and `/` over the environment |
| Workspace.WorkingDirectory | lib/atom-tsd.ts:133-145 | definition: with an active path, its project root or its directory; without one, the first project root or the home directory |
| Workspace.FirstTruthy | lib/atom-tsd.ts:130 | the value of a JavaScript `or` chain is its last operand or one of its truthy candidates |
| Workspace.FirstTruthyIsEarliest | lib/atom-tsd.ts:130 | a JavaScript `or` chain takes the earliest truthy candidate |
| Workspace.HomeDirectoryFallback | lib/atom-tsd.ts:129-131 | the home directory is HOME, else USERPROFILE, else `/`, skipping unset and empty variables, and is never empty |
| Workspace.WorkingDirectoryFallback | lib/atom-tsd.ts:133-145 | with an active file: its project root, else its directory; without one: the first project root, else the home directory, and then never empty |

## Left out

- Process spawning and the Node event emitter (`child_process.spawn`, `cmd.on`): the host's events are an input sequence.
- How the host splits stdout into chunks: each chunk is scanned on its own, as the handler builds a fresh regex per chunk. The model does the same, so a line split across two chunks is scanned as two separate texts. The result can differ from the whole line in several ways: a path can be lost; it can be shortened (`- a/b.d.ts.d.ts` split after `- a/b.d.ts` yields `a/b.d.ts`); or items can be added (`- a/b.d.ts - c/d.d.ts` split before the second `- ` yields two items, where the whole line yields the single item `a/b.d.ts - c/d.d.ts`).
- The stderr handler: it is registered for the event `'data '`, which never fires, and only logs.
- The exit-code and stderr logging through `console.log`.
- What happens after `throw err`: the rethrown error is only recorded in `rethrown`. In Atom the exception escapes the event listener into Atom's uncaught-error handler, which shows it as a notification while the editor keeps running. The model assumes that the later events of the run, `close` in particular, still arrive after a rethrow. The throw leaves Node's handling of the child process, so that `close` may never come. `CommandRunner.ExactlyOneTerminal` and `Orchestrator.FinishedRunView` rely on this assumption when the one spawn error is rethrown: their output is then the items followed by `--finish--`.
- The 500 ms cadence of `window.setInterval` and `clearInterval`: a firing is a call of `Tick`.
- Atom's APIs and views: `atom.confirm` becomes the `confirmed` flag, and `CommandOutputView` becomes the record `View`. `AtomTsdView`, the selection list with its toggle, is not modelled. `tsdIdMissing` is counted in `missingNotices`, and `atom.workspace` and `atom.project` are input values.
- `require('./repository.json')`, `process.env`, `process.platform` and `path.dirname`: their results are parameters.
- Orchestrator.Session: each session owns its view, and one command runs at a time. In the source the callbacks and the ticker's publish function write through `this.outView`, which is looked up when they are called. If a command is still running when the user starts another, its late lines, its `--finish--` status and its ticks all land in the new view. The model does not capture this late binding.
- Orchestrator.RunCommand: the ticker does not fire while the command runs, because `RunCommand` dispatches the lines and never calls `Session.Tick`. So the final view leaves out tick firings mixed in with the lines. When no `--finish--` arrives, the source's status stays at the last tick's text, while the model's stays empty. `Session.Tick` states on its own what one firing does to the view.
- `activate`, `deactivate` and `serialize`: lifecycle glue with no logic.
- The regex engine in general: only this one pattern is specified, and its semantics are written out by hand.
- `Buffer`-to-string decoding of the chunk: a chunk is a string.
