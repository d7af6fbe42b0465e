# pvfilt, modelled in Dafny

pvfilt runs a command over and over, as watch(1) does. It reads a progress
reading such as `42/100` from each run's standard output. It draws a live
terminal chart of the reading's rate of change ("Value/Second"). The value
itself is shown as text next to its maximum and as a gauge. This project
models the core of that pipeline and proves properties of the model:

- **The sample store** (`src/analysis.rs`), module `Analysis`. It is a class
  `Analyzer` whose `samples` field holds the sliding window. `ProcessOutput`
  looks for the first match of `([0-9]+)/([0-9]+)` in the output. When it finds
  one, it appends a sample. It then drops the oldest sample once the store holds
  more than 1000. The regular expression is replaced by a direct scanner
  (`Find`). That scanner is proved against a declarative description of the
  leftmost, greedy match (`Matches`).
- **The rendering of the command line** (`cmd_to_string`, `should_quot` and
  `escape` in `src/main.rs`), module `CmdLine`. The result is computed once and
  stored in the application state as `cmd_string`; no code in the drawing
  reads it. The loops are methods proved
  against the functions `Escaped`, `RenderArg` and `Render`.
- **The main loop and the worker callback** (`src/main.rs`), module `App`.
  - `AppState.ProcessEvent` reacts to one event. `AppState.Run` consumes the
    channel until it quits, fails or runs dry.
  - Every redraw is recorded in `frames`, along with whether the help overlay was
    shown.
  - `WorkerState.OnResult` is the callback given to `watch_cmd`. `Watch` runs it
    over a finite sequence of attempts.
- **The drawing helpers** (`src/draw.rs`), module `Draw`:
  - `analyze_rate` (the rate series);
  - the help text's splitter and its size (`HELP_DATA`);
  - the help box's rectangle (`draw_help`);
  - the choice of collapsed output panes.
- **Module `Runner`** holds the result of one run (`src/runner.rs`), as data
  only. **Module `Wrappers`** holds `Option`.

Clock readings, command results and terminal events are parameters of the
model.

`analyze_rate` follows the code. The series ends up with one entry fewer than
the number of value changes. Entry `k` is the rate between the `k`-th and the
`(k+1)`-th change points (`AnalyzeRateFollowsChanges`). For the samples
(0,0), (1,0), (2,10) the series is therefore empty. The only rate derived,
(0, 5), is the one the warm-up step discards (`FlatThenRiseExample`).

## Model

| member | source | states |
|---|---|---|
| Analysis.RunEnd | src/analysis.rs:31 | the end of the longest run of ASCII digits starting at a position: every character before it is a digit, and the one at it is not |
| Analysis.MatchSlashIsRunEnd | src/analysis.rs:31 | in any match of the pattern, the `/` sits exactly where group 1's digit run ends, so group 1 is determined by its start |
| Analysis.FindFrom | src/analysis.rs:31-34 | from a position that does not split a digit run: a match at or after it that is leftmost, with the unique slash and the longest group 2; or None when no match starts there or later |
| Analysis.NoMatchAtNonDigit | src/analysis.rs:31 | no match starts at a character that is not a digit |
| Analysis.GreedyGroups | src/analysis.rs:31 | a digit run followed by `/` and a digit gives a match; every match from that start has that slash and ends no later than group 2's digit run |
| Analysis.NoMatchInsideRun | src/analysis.rs:31 | when a digit run is not followed by `/` and a digit, no match starts anywhere inside the run |
| Analysis.RunEndFromInside | src/analysis.rs:31 | starting inside a digit run reaches the same run end |
| Analysis.Find | src/analysis.rs:31-34 | `RE.captures` as a search: None iff the text has no match; otherwise a match that is leftmost, with the unique slash and the greatest end among matches at that start |
| Analysis.Extract | src/analysis.rs:34-45 | a sample exists iff the output has a match; it carries the given clock readings and the decimal values of the leftmost match's two groups |
| Analysis.WithoutSlashNoReading | src/analysis.rs:34 | an output without `/` yields no sample |
| Analysis.ExtractNoReading | src/analysis.rs:34 | the output "no numbers here" yields no sample |
| Analysis.ExtractReading | src/analysis.rs:34-45 | the output "12/34 done" yields the sample with value 12 and max 34 |
| Analysis.DecimalValue | src/analysis.rs:38-39 | the value of a group's digits, read most significant first; `DecimalValueLeadingZero` and `ExtractReading` state its properties |
| Analysis.DecimalValueLeadingZero | src/analysis.rs:38-39 | leading zeros do not change the parsed value |
| Analysis.Readings | src/analysis.rs:34-46 | one run adds at most one sample |
| Analysis.Trim | src/analysis.rs:48-50 | drops the front sample once the store holds more than 1000; `NewestStep` states that this keeps the newest-1000 window |
| Analysis.NextSamples | src/analysis.rs:40-50 | the store after one output; `NextBounded`, `NextWithoutMatch`, `NextAppends`, `NextEvicts` and `NextIsSuffix` state what it keeps and drops |
| Analysis.NextBounded | src/analysis.rs:48-50 | processing an output keeps a store within 1000 samples within 1000 |
| Analysis.NextWithoutMatch | src/analysis.rs:28-51 | an output without a match leaves a bounded store unchanged |
| Analysis.NextAppends | src/analysis.rs:40-45 | below the bound, a match appends its sample at the back and keeps everything else |
| Analysis.NextEvicts | src/analysis.rs:40-50 | at the bound, a match appends its sample and evicts exactly the oldest, so the store stays at 1000 |
| Analysis.NextIgnoresStatusAndStderr | src/analysis.rs:34 | only standard output matters: the exit status and standard error do not change the store |
| Analysis.NextIsSuffix | src/analysis.rs:28-51 | the new store is the old store plus the new reading with at most the oldest element dropped, in order |
| Analysis.FeedSnoc | src/analysis.rs:28-51 | processing one more run works on top of the store built so far |
| Analysis.FeedIsWindow | src/analysis.rs:28-51 | after any sequence of runs, a bounded store holds exactly the newest 1000 of its old samples and all readings, in insertion order |
| Analysis.NewestStep | src/analysis.rs:48-50 | trimming the front once after adding at most one reading keeps the newest-1000 window |
| Analysis.OverflowEvictsFirst | src/analysis.rs:48-50 | when 1001 readings arrive in an empty store, the store holds all of them but the first |
| Analysis.Analyzer.constructor | src/analysis.rs:22-26 | a new analyzer holds no samples |
| Analysis.Analyzer.ProcessOutput | src/analysis.rs:28-51 | the store becomes the old store after processing the output (append on a match, then evict the oldest above 1000), and a bounded store stays bounded |
| CmdLine.Lookup | src/main.rs:220 | a replacement exists iff some table entry has that character, and it is that entry's replacement |
| CmdLine.ShouldQuote | src/main.rs:208-210 | whether an argument is quoted: it is empty or holds a double quote, an apostrophe, `*`, `[`, a space, `&`, `<`, `>`, a vertical bar or `;`; `RenderArgOpensWithQuote` states that exactly those open with a quote |
| CmdLine.IsControl | src/main.rs:215 | Rust's `char::is_control`, U+0000 to U+001F and U+007F to U+009F; `EscapedHasNoControl` and `RenderArgHasNoControl` state that none is left in the shown text |
| CmdLine.EscapeDefault | src/main.rs:223 | Rust's `char::escape_default`; `EscapeDefaultIsPlain` and `HexDigitsOnly` state what it can produce |
| CmdLine.EscapeChar | src/main.rs:218-224 | how one special character is shown; `EscapedAtSpecial` and `EscapeCharPrefixed` state its properties |
| CmdLine.Escaped | src/main.rs:212-232 | what `escape` appends; `Escape` is proved to append exactly it, and `EscapedAppend`, `EscapedPlain` and `EscapedAtSpecial` characterise it |
| CmdLine.RenderArg | src/main.rs:183-205 | how one argument is shown; `PushArg` appends exactly it, and `RenderArgOpensWithQuote`, `RenderArgHasNoControl` and `RenderArgEscapesSpecials` state its properties |
| CmdLine.Render | src/main.rs:179-235 | the whole shown line; `CmdToString` builds exactly it, and `RenderEmpty` and `RenderStep` characterise it |
| CmdLine.FirstSpecial | src/main.rs:214-216 | the index of the first control character or table character, if any; no earlier character is special, and None means no character is |
| CmdLine.EscapedAppend | src/main.rs:212-232 | escaping distributes over concatenation |
| CmdLine.EscapedPlain | src/main.rs:227-229 | a text with no special character is copied unchanged |
| CmdLine.EscapedAtSpecial | src/main.rs:214-226 | escaping a text is its plain prefix, then the first special character's replacement (its table entry, else its default escape), then the escaped rest |
| CmdLine.EscapeStep | src/main.rs:217-226 | one loop round appends exactly the part of the escaped text up to and including the first special character |
| CmdLine.EscapedHasNoControl | src/main.rs:212-232 | when the table's replacements hold no control character, the escaped text holds none |
| CmdLine.HexDigitsOnly | src/main.rs:223 | the hexadecimal digits in a `\u{...}` escape are lower-case hex digits |
| CmdLine.PrefixedAppend | src/main.rs:212-232 | "every table character is preceded by a backslash" holds for a concatenation when it holds for both parts |
| CmdLine.EscapeCharPrefixed | src/main.rs:218-224 | the replacement of any one character puts a backslash in front of every table character it contains |
| CmdLine.EscapedCharsArePrefixed | src/main.rs:212-232 | in an escaped text every character the table escapes (`"`, `'`, `*`, `[`, `$` inside quotes; `$` outside) is preceded by a backslash |
| CmdLine.LookupOutside | src/main.rs:194-204 | the two tables replace nothing outside `"`, `'`, `*`, `[` and `$` |
| CmdLine.EscapeDefaultIsPlain | src/main.rs:223 | the default escape of a control character contains no character the tables replace |
| CmdLine.TablesAreBackslashTables | src/main.rs:194-204 | both tables replace a character by a backslash followed by that character |
| CmdLine.RenderArgNonEmpty | src/main.rs:189-210 | every argument is shown as at least one character, and the empty argument as `""` |
| CmdLine.RenderArgOpensWithQuote | src/main.rs:189-210 | a shown argument opens with `"` iff it is quoted (empty, or holds a quote trigger) |
| CmdLine.RenderArgHasNoControl | src/main.rs:189-224 | a shown argument holds no control character |
| CmdLine.RenderArgEscapesSpecials | src/main.rs:189-204 | a quoted argument is the escaped text between two quotes, with every `"`, `'`, `*`, `[` and `$` inside preceded by a backslash; in an unquoted argument every `$` is |
| CmdLine.PlainCharOpening | src/main.rs:204 | an unquoted argument's first character is shown as a backslash or as itself |
| CmdLine.RenderEmpty | src/main.rs:179-206 | the shown command line is empty iff there are no arguments |
| CmdLine.RenderStep | src/main.rs:182-206 | each argument adds a space (except the first) and then its shown form |
| CmdLine.Escape | src/main.rs:212-232 | the loop appends exactly the escaped text to the output |
| CmdLine.PushArg | src/main.rs:183-205 | one argument appends its shown form: quoted with the quoted table, or escaped with the plain table |
| CmdLine.CmdToString | src/main.rs:179-235 | the built string is the shown command line |
| App.React | src/main.rs:159-175 | Ctrl-c, `q` and Esc quit; `h` toggles help and redraws; a resize or an update redraws; any other terminal event changes nothing |
| App.HelpToggleTwice | src/main.rs:166-167 | pressing `h` twice restores the help flag |
| App.StopIndex | src/main.rs:66-70 | the loop handles every item before the first read failure or quit key, and stops at that item |
| App.HelpAfterParity | src/main.rs:166-167 | after a run of events, help is shown iff it started shown XOR the number of `h` presses is odd |
| App.HelpAfter | src/main.rs:166-167 | the help flag after a sequence of events; `HelpAfterParity` states it by the parity of `h` presses |
| App.FramesAfter | src/main.rs:166-173 | the frames drawn for a sequence of events; `FramesCount` states their number |
| App.FramesCount | src/main.rs:166-173 | the number of redraws equals the number of `h`, resize and update events |
| App.Handled | src/main.rs:66-70 | the handled events are exactly the items before the stop point, in order |
| App.Successes | src/main.rs:131-133 | every run given to the analyzer comes from a successful attempt with its clock readings, every successful attempt gives one, and failures give none |
| App.AppState.constructor | src/main.rs:58-62 | the application starts with help hidden and nothing drawn |
| App.AppState.Draw | src/main.rs:64 | a redraw records the current help flag and changes nothing else |
| App.AppState.ProcessEvent | src/main.rs:154-176 | the quit result, the help flag and the redraw are exactly `React`'s |
| App.AppState.Run | src/main.rs:64-72 | after the first draw the loop ends in a read error, a quit or a closed channel as `StopIndex` says; the help flag and the frames are those of the handled events |
| App.WorkerState.constructor | src/main.rs:123-125 | the worker starts with a fresh empty analyzer and no last output |
| App.WorkerState.OnResult | src/main.rs:130-138 | a success is processed by the analyzer and a failure is not; the result becomes the last output; one update is sent |
| App.WorkerState.Watch | src/main.rs:129-139 | after a sequence of attempts the store is the successes fed in order, the last output is the last attempt's result, and one update was sent per attempt |
| App.WatchStep | src/main.rs:130-138 | one more attempt feeds its output only when it succeeded |
| Draw.Changes | src/draw.rs:297-305 | the indices at which the value differs from the previous sample's |
| Draw.ChangesAreAllChanges | src/draw.rs:297-305 | the change indices are strictly increasing and include every index where the value changes |
| Draw.ScanAnchor | src/draw.rs:297-309 | the scan's remembered point is the last change point (the first sample before any change), and its value is the current value |
| Draw.ScanEmitsAtChanges | src/draw.rs:297-311 | before the skip, the scan emits one rate per change, measured from the previous change point (or the first sample) |
| Draw.AnalyzeRateFollowsChanges | src/draw.rs:296-313 | the rate series has one entry fewer than the changes (none without a change); entry k is the rate between the k-th and (k+1)-th change points |
| Draw.AnalyzeRateWithoutChange | src/draw.rs:296-313 | a series whose value never changes has an empty rate series |
| Draw.DistinctTimesDefineRates | src/draw.rs:302 | when no two samples share a time, no rate divides by zero |
| Draw.FlatThenRiseExample | src/draw.rs:296-313 | for (0,0), (1,0), (2,10) the scan emits only (0, 5), and the warm-up skip leaves the series empty |
| Draw.ScanStep | src/draw.rs:297-310 | after any point the anchor holds that point's value; the emitted rates only grow, by one exactly when there was an anchor with a different value |
| Draw.ScanRates | src/draw.rs:297-310 | the scan over all points; `ScanAnchor`, `ScanEmitsAtChanges` and `ScanEmitsAtMostOnePerStep` state its state |
| Draw.ScanEmitsAtMostOnePerStep | src/draw.rs:297-310 | the scan emits at most one rate per point after the first |
| Draw.AnalyzeRate | src/draw.rs:296-313 | the rate series; `AnalyzeRateFollowsChanges`, `AnalyzeRateWithoutChange` and `AnalyzeRateLength` state it |
| Draw.AnalyzeRateLength | src/draw.rs:311-312 | after the warm-up discard there are at most two entries fewer than points, and none for fewer than three points |
| Draw.FirstMarker | src/draw.rs:327 | the first byte below 0x08, if any; no earlier byte is one, and None means none is |
| Draw.CutAtFirstMarker | src/draw.rs:327-334 | the markers and the text without markers split at the first marker |
| Draw.NoMarkers | src/draw.rs:335-337 | a text without markers has no markers and is its own stripped text |
| Draw.FragmentsFollowMarkers | src/draw.rs:324-339 | one fragment more than markers; the fragments joined are the text without markers; the first has the starting style and each later one the style its marker selects |
| Draw.Fragments | src/draw.rs:324-339 | the text split at its markers; `FragmentsFollowMarkers` characterises it and `SplitHelp` computes exactly it |
| Draw.SplitStep | src/draw.rs:327-334 | one loop round emits the fragment before the first marker and continues with the rest in the marker's style |
| Draw.SplitHelp | src/draw.rs:322-339 | the loop's fragments are the text split at its markers, starting in the default style |
| Draw.SplitLines | src/draw.rs:319-320 | a text cut at newlines has at least one piece, and a single piece is the text itself |
| Draw.Lines | src/draw.rs:319-320 | a non-empty text has at least one line; `LinesHaveNoNewline`, `LinesJoin` and `LinesCount` state that it is `str::lines` |
| Draw.SplitLinesNoNewline | src/draw.rs:319-320 | no piece of a text cut at newlines holds a newline |
| Draw.SplitLinesCount | src/draw.rs:319-320 | a text cut at newlines has one piece more than newlines |
| Draw.SplitLinesJoin | src/draw.rs:319-320 | joining the pieces with newlines gives back the text |
| Draw.SplitLinesLast | src/draw.rs:319-320 | the last piece is empty iff the text is empty or ends in a newline |
| Draw.LinesOfPieces | src/draw.rs:319-320 | the lines are the pieces, less the empty piece after a final newline |
| Draw.LinesHaveNoNewline | src/draw.rs:319-320 | no line holds a newline |
| Draw.LinesJoin | src/draw.rs:319-320 | the lines joined with newlines give back the text less one final newline |
| Draw.LinesCount | src/draw.rs:319-320 | there is a line per newline, plus one for a last line without a newline, so the help height is the number of lines |
| Draw.MaxOf | src/draw.rs:319 | the maximum bounds every element and is one of them |
| Draw.HelpWidth | src/draw.rs:319 | the width is the largest number of bytes at or above 0x20 on any line, and some line reaches it |
| Draw.VisibleBytes | src/draw.rs:319 | the number of UTF-8 bytes at or above 0x20; `VisibleBytesAppend` and `PrintableAsciiWidth` state its properties |
| Draw.U16 | src/draw.rs:341 | `as u16` gives a value below 65536 |
| Draw.BuildHelpData | src/draw.rs:316-342 | the fragments are the split text, the width is the widest line and the height the number of lines, each cut to 16 bits |
| Draw.FragmentsAtMarker | src/draw.rs:327-334 | a marker after a marker-free prefix ends the current fragment and switches the style |
| Draw.FragmentsWithoutMarker | src/draw.rs:335-337 | a marker-free text is one fragment in the current style |
| Draw.SplitAfterLine | src/draw.rs:319-320 | a newline-free line followed by a newline is the first line |
| Draw.SplitWithoutNewline | src/draw.rs:319-320 | a newline-free text is a single line |
| Draw.PrintableAsciiWidth | src/draw.rs:319 | a printable ASCII line is as wide as it is long |
| Draw.VisibleBytesAppend | src/draw.rs:319 | the visible width of a concatenation is the sum of the widths |
| Draw.TwoEntryFragments | src/draw.rs:317-339 | a two-entry help text of the form marker 2, key, marker 1, description splits into an empty plain fragment, then highlighted keys alternating with plain descriptions |
| Draw.HelpTextFragments | src/draw.rs:317-339 | the program's help text has only known markers and splits into "", "        h:" (highlighted), " Toggle this help window\n", " ESC q ^C:" (highlighted) and " Quit" |
| Draw.HelpLineWidth | src/draw.rs:317-319 | a help line of key and description is as wide as the two together and has no newline |
| Draw.TwoLineSize | src/draw.rs:317-320 | a two-entry help text has those two lines, and its width is the wider entry |
| Draw.HelpTextSize | src/draw.rs:317-320 | the program's help text has two lines and is 34 wide |
| Draw.HelpRect | src/draw.rs:350-360 | the box ends one cell before the frame's right and bottom edges and starts at least one cell in; it is 3 to text width + 3 wide and 2 to text height + 2 high, exactly those sizes when the text fits, and every field fits in 16 bits |
| Draw.CollapseMode | src/draw.rs:241-245 | which panes to show; `CollapseHidesOnlyEmpty` states each mode's condition |
| Draw.ShownTexts | src/draw.rs:247-262 | the texts the panes show in each mode; `CollapseHidesOnlyEmpty` states that only an empty stream is hidden |
| Draw.CollapseHidesOnlyEmpty | src/draw.rs:240-262 | only an empty stream is ever hidden; two panes iff both streams are non-empty; stdout alone iff stderr is empty; stderr alone iff only stdout is empty |

## Left out

- Threads, the channel, the mutexes and `Box::leak` are not modelled. The
  worker's callbacks and the main loop are separate sequential methods. How the
  events of the terminal reader, the SIGWINCH watcher and the worker interleave
  is an input: the sequence of received items.
- Terminal output and the tui widgets are not modelled. A redraw is recorded as
  the help flag it would show, and only the placement and content computations
  of `draw_help`, `HELP_DATA` and the pane collapse are modelled.
- App.AppState.Run: an error from `draw` (the `?` after a redraw) does not end
  the loop in the model, because drawing is not modelled.
- Analysis.Extract: values are exact natural numbers, not `f64`. The rounding of
  long digit strings by `parse::<f64>()` is not modelled, and neither is its
  `unwrap`, which never fails on a digit run.
- Draw.AnalyzeRateFollowsChanges: times and values are reals, not `f64`. NaN,
  infinities and rounding are not modelled, and a rate is only defined when the
  two times differ (`RatesDefined`).
- Clock readings (`Instant::now`, `SystemTime::now`) are parameters of
  `ProcessOutput`, `OnResult` and `Watch`.
- `runner::watch_cmd` is not modelled: spawning the command, waiting for it, the
  one-second sleep and the lossy UTF-8 decoding of its output. Each attempt's
  result is an input.
- App.WorkerState.Watch: it covers a finite, non-empty prefix of `watch_cmd`'s
  endless loop.
- Option parsing (`structopt`), `to_string_lossy` on arguments and the panics
  for unimplemented modes are not modelled. Arguments are Dafny strings.
- Analysis.Find: the `regex` crate is replaced by a scanner proved to give the
  leftmost match with greedy groups. These are the captures the crate reports
  for this pattern.
- CmdLine.EscapedCharsArePrefixed: the escape tables do not escape a backslash
  itself, so this property does not make the shown line safe for a shell. For
  example, an argument ending in a backslash followed by `"` is shown as `\\"`.
  The line is meant only for display.
- CmdLine.Escape: `str::find` and the slicing use byte offsets while the model
  uses character offsets. Both split the text at the same characters.
- Draw.SplitHelp: the splitter works on characters, not bytes. This is the same
  for the ASCII help text, and markers are ASCII bytes below 0x08 either way.
- Draw.SplitHelp: the text may hold only the markers 0x01 and 0x02. Any other
  byte below 0x08 hits `unreachable!()` in the source.
- Draw.Lines: a carriage return before a newline is not stripped. It is below
  0x20, so it does not change any width.
- Draw.HelpRect: the frame must be at least 5 by 5. Below that,
  `size.width - 5` underflows a `u16` in the source.
