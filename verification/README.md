# Morgo verification model

A Dafny model of the stateful and algorithmic parts of the Morgo agent, with proofs of what they
promise. `dafny verify dfyconfig.toml` checks the whole project.

| file | what it models |
|---|---|
| `Text.dfy` | strings as the Rust library treats them: white space, trimming, decimal printing |
| `AtomEditor.dfy` | the plain editor: a line of atoms (a character or a collapsed paste) and a cursor |
| `PasteBuffer.dfy` | the buffer, cursor and span list of the input box, and its refinement of the plain editor |
| `PasteEditor.dfy` | the input box updated in place (`InputBox`), and submitting the line (`SubmitLine`) |
| `InputWrap.dfy` | soft wrapping, cursor positions, vertical movement, the viewport of four rows |
| `StyledCells.dfy` | stripping, parsing and rendering lines with control sequences (section 5.4 of ECMA-48) |
| `Selection.dfy` | the rendered document with the cells it is drawn with, the selection, what it highlights and what it copies |
| `EnvFile.dfy` | writing and loading the env file of the setup |
| `GcPrune.dfy` | the recursive prune with its shared budget and failing input and output |
| `Lifecycle.dfy` | the session lifecycle under the ticks of the housekeeping daemon |
| `TurnOwner.dfy` | the owner slot that cloned engines share, as atomic steps of many clients |
| `Limiter.dfy` | the concurrency limiter, permit by permit, and the boss budget (`BossBudget`) |
| `PathScope.dfy` | cleaning evidence paths and matching them against target paths |
| `EvidenceLine.dfy` | what cleaning takes away from an evidence line and which path it leaves |

Code that changes state in place is a class or a method with the loops of the source, proved
equal to a function of the old state; the lemmas then say what that function means. The
statements of concurrency are about every interleaving of atomic steps. Failures of input and
output, the clock, the Unicode width table and what the environment does are parameters or parts
of the input, so a statement holds for each of them.

Some things that the code or its messages suggest do not hold. For each of them there is a
failing input or run (or a family of them) and the exact condition under which the code is right:

- Delete inside a placeholder (a vertical move can put the cursor there) does not move the
  cursor; where that leaves it beyond the end, a long paste is submitted as its placeholder
  (`StepStaysValidIff`, `DeleteInsidePlaceholder`, `MoveIntoPlaceholder`,
  `PasteAfterDeleteInsideIsLost`).
- Submitting expands the trimmed input with the span positions of the untrimmed one
  (`SubmitIsRightIff`; `LeadingSpaceMisplacesPastes` covers a whole family of lines).
- A vertical move to the first column of a continuation line is shown on the line above
  (`VerticalMoveLands`, `MoveShownOnLineAbove`).
- A shown ESC in front of a shown `[` of the same style turns into a control sequence
  (`RoundTripIff`, `HighlightKeepsTextIff`, `ClashingLine`).
- The continuation lines of a wrapped message highlight other characters than they copy: the
  two spaces in front are drawn but not counted in the source. So do message lines that hold a
  control sequence (`HighlightIsCopyIff`, `ContinuationIsShifted`, `ShiftedMessage`).
- A value with a newline or a NUL does not survive the env file (`EnvFile.RoundTripIff`,
  `NulKeyPanics`, `NewlineCutsValue`).
- The budget notice promises a retry on a later tick, but what stays in front of a stale entry
  uses up budget at every tick (`RetriesSucceedIff`, `FlatStaysIff`, `StarvingFronts`).
- A session write that fails while the lifecycle write succeeds lets an expired session fall
  back to hibernating (`IdleRunFallsBackIff`, `FailedSessionWriteUndoesExpiry`).
- An engine that refreshes before and claims after another engine's turn loses that turn in the
  app state that it publishes in memory; with a session store the history stays readable there
  (src/state/app_state.rs:186-203) (`TurnStartsFromLastIff`, `GapLosesHistory`).
- The limiter does not keep its limit at the start, and a decrease cut short is not made up for
  until a new limit is stored (`StaysWithinLimitIff`, `ShortfallLasts`, `StartExceedsLimit`,
  `ShortfallPersists`); under very low memory a pressure warning raises the limit
  (`LimitIsMonotone`).
- The path search can miss a needle that it contains (`SearchAgreesIff`, `MissedNeedle`).
- An evidence line is not cut at its path when a marker that is listed earlier follows the first
  one (`CleanCutsAtMarkerIff`, `MarkersOutOfOrder`).
- A target that is exactly the cleaned candidate can lose, because the match cleans the
  candidate a second time (`ExactTargetWinsIff`, `ExactTargetLost`).

## Model

| member | source | states |
|---|---|---|
| AtomEditor.NormalizeIsClean | src/bootstrap/runtime.rs:2197-2199 | normalised pastes hold no carriage return, and normalising again changes nothing |
| AtomEditor.NormalizeAtPair | src/bootstrap/runtime.rs:2197-2199 | a pair of carriage return and newline becomes one newline, wherever it stands in a paste |
| AtomEditor.NormalizeWithoutPair | src/bootstrap/runtime.rs:2197-2199 | text without such a pair keeps its length and only its carriage returns change, into newlines |
| AtomEditor.WordsAddUp | src/bootstrap/runtime.rs:2263-2266 | word counts add up wherever white space separates two texts |
| AtomEditor.LongWordCollapses | src/bootstrap/runtime.rs:2263-2266 | a single word is collapsed from 4096 characters on |
| AtomEditor.ManyWordsCollapse | src/bootstrap/runtime.rs:2263-2266 | short words are collapsed from a thousand on |
| AtomEditor.KeysMatch | src/bootstrap/runtime.rs:2284-2419 | Backspace is Left and Delete, Left and Right take each other back, and Backspace takes back a typed character |
| AtomEditor.KeysActAtCursor | src/bootstrap/runtime.rs:2186-2419 | moving keeps the line, and inserting changes it at the cursor only |
| AtomEditor.PlaceholderShowsLength | src/bootstrap/runtime.rs:2268-2270 | a placeholder shows the length of its paste, and two look alike exactly when the lengths agree |
| Text.DigitsDenote | src/bootstrap/runtime.rs:2268-2270 | the number in a placeholder is the one decimal string of the paste length |
| AtomEditor.PlainStepOk | src/bootstrap/runtime.rs:2186-2419 | every key keeps the plain editor well formed, and from between two atoms only a vertical move puts the cursor inside one |
| AtomEditor.PlainAtIsAt | src/bootstrap/runtime.rs:2582-2607 | the place a vertical move lands on, at any display index, possibly inside a placeholder |
| PasteBuffer.ValidIffRepresented | src/bootstrap/runtime.rs:2231-2261 | the span invariant (sorted, disjoint, in range, equal to the placeholder) with a cursor in range holds exactly of the buffers that show some plain editor |
| PasteBuffer.RepresentedIsUnique | src/bootstrap/runtime.rs:2231-2261 | a buffer shows at most one plain editor, so the abstraction is a function |
| PasteBuffer.InsideIffOffset | src/bootstrap/runtime.rs:2391-2397 | the cursor index is strictly inside a span exactly when the plain cursor is inside an atom |
| PasteBuffer.SnapRefines | src/bootstrap/runtime.rs:2391-2397 | leaving a placeholder goes to its right end, and moves no cursor that is between atoms |
| PasteBuffer.InsertCharRefines | src/bootstrap/runtime.rs:2186-2195 | typing inserts one character atom, from any cursor in range |
| PasteBuffer.InsertTextRefines | src/bootstrap/runtime.rs:2212-2229 | a short paste inserts its normalised characters |
| PasteBuffer.InsertPasteRefines | src/bootstrap/runtime.rs:2231-2270 | a paste inserts one collapsed atom or its characters, by the thresholds, and the span list stays sorted |
| PasteBuffer.BackspaceRefines | src/bootstrap/runtime.rs:2284-2305 | Backspace removes the atom before the cursor, a collapsed paste as a whole, and reports whether it did |
| PasteBuffer.DeleteRefines | src/bootstrap/runtime.rs:2318-2337 | Delete removes the atom at the cursor and keeps the cursor index, which shows the plain editor exactly when the cursor was between atoms |
| PasteBuffer.LeftRefines | src/bootstrap/runtime.rs:2399-2406 | Left moves over one atom, or to the start of the placeholder around the cursor |
| PasteBuffer.RightRefines | src/bootstrap/runtime.rs:2408-2419 | Right moves over one atom |
| PasteBuffer.StepRefines | src/bootstrap/runtime.rs:2186-2419 | one key on the buffer is the same key on the plain editor |
| PasteBuffer.RunRefines | src/bootstrap/runtime.rs:2186-2419 | the same for every run of keys, vertical moves and Delete inside a placeholder included, whose cursor stays in range |
| PasteBuffer.StepStaysValidIff | src/bootstrap/runtime.rs:2186-2419 | a key keeps a valid buffer valid exactly when it fits: only a move beyond the end, or Delete that leaves the cursor beyond the end, does not |
| PasteBuffer.RunWithoutJumpsRefines | src/bootstrap/runtime.rs:2186-2419 | runs without vertical moves need no side condition and never bring the cursor inside a span |
| PasteBuffer.KeysLeavePlaceholder | src/bootstrap/runtime.rs:2186-2419 | typing, pasting, Backspace, Left and Right leave the inside of a placeholder from every valid buffer |
| PasteBuffer.DeleteInsidePlaceholder | src/bootstrap/runtime.rs:2318-2357 | after Delete inside a placeholder the buffer is valid, and the cursor outside all spans, exactly when that held of the index one placeholder width further |
| PasteEditor.InputBox.ShiftSpansForInsert | src/bootstrap/runtime.rs:2359-2370 | the loop shifts exactly the spans at or behind the insertion |
| PasteEditor.InputBox.ShiftSpansForDelete | src/bootstrap/runtime.rs:2372-2389 | spans before stay, spans behind move back, spans that overlap the deletion go |
| PasteEditor.InputBox.RemovePastedSpan | src/bootstrap/runtime.rs:2339-2357 | removes the span and its text, moves later spans back, and yields its start |
| PasteEditor.InputBox.InsertChar | src/bootstrap/runtime.rs:2186-2195 | in place, the buffer operation that refines inserting an atom |
| PasteEditor.InputBox.InsertText | src/bootstrap/runtime.rs:2212-2229 | in place, the buffer operation for a short paste |
| PasteEditor.InputBox.InsertPaste | src/bootstrap/runtime.rs:2231-2261 | in place, the buffer operation for any paste |
| PasteEditor.InputBox.BackspaceKey | src/bootstrap/runtime.rs:2284-2305 | in place, the buffer operation for Backspace, with the result it reports |
| PasteEditor.InputBox.DeleteKey | src/bootstrap/runtime.rs:2318-2337 | in place, the buffer operation for Delete, with the result it reports; the cursor is not written |
| PasteEditor.InputBox.Press | src/bootstrap/runtime.rs:8090-8158 | one key of the event loop does to every plain editor that the box shows what the key means |
| SubmitLine.ExpandPastedContentRefs | src/bootstrap/runtime.rs:2421-2433 | the loop replaces the spans from the last to the first where their placeholder still stands |
| SubmitLine.EarlierSpansStayValid | src/bootstrap/runtime.rs:2421-2433 | replacing a span leaves every earlier span on its placeholder |
| SubmitLine.ExpandFlattens | src/bootstrap/runtime.rs:2421-2433 | expanding the untrimmed input yields exactly the meaning of its atoms |
| SubmitLine.SubmitFlattens | src/bootstrap/runtime.rs:7799 | submitting yields the trimmed meaning when there is no leading white space or no collapsed paste |
| SubmitLine.LeadingSpaceMisplacesPastes | src/bootstrap/runtime.rs:7799 | with leading white space and a collapsed paste that does not begin with a bracket the result is wrong |
| SubmitLine.SubmitIsRightIff | src/bootstrap/runtime.rs:7799 | a layout submits rightly whatever was pasted exactly when it has no leading white space or no collapsed paste |
| SubmitLine.RunThenSubmit | src/bootstrap/runtime.rs:7799 | every run from an empty box whose keys fit, vertical moves included, submits what the plain editor means, under the same condition |
| SubmitLine.RunWithoutJumpsThenSubmit | src/bootstrap/runtime.rs:7799 | runs without vertical moves need no side condition on the keys |
| SubmitLine.MoveIntoPlaceholder | src/bootstrap/runtime.rs:2582-2607 | a vertical move that lands inside a placeholder, at index one |
| SubmitLine.PasteAfterDeleteInsideIsLost | src/bootstrap/runtime.rs:2318-2337 | a run with that move in which Delete inside a placeholder makes the next long paste be submitted as its placeholder |
| InputWrap.WrapInputLines | src/bootstrap/runtime.rs:2447-2509 | the lines cover the input in order, fit the width, and break only at newlines or where the next character would not fit; the empty fallback is unreachable |
| InputWrap.WrappedIsUnique | src/bootstrap/runtime.rs:2447-2509 | that promise leaves exactly one result, so wrapping is greedy |
| InputWrap.WrapIsLossless | src/bootstrap/runtime.rs:2447-2509 | joining the lines, with newlines at the hard breaks, gives back the input |
| InputWrap.LineColumnsIncrease | src/bootstrap/runtime.rs:2474-2489 | column tables strictly increase |
| InputWrap.PositionOf | src/bootstrap/runtime.rs:2511-2525 | every cursor in range lies on a line, at its table column, which is at most the width |
| InputWrap.CursorIndexForLineColumn | src/bootstrap/runtime.rs:2527-2545 | the search loop ends with the best offset of the column table |
| InputWrap.BestOffsetIsNearest | src/bootstrap/runtime.rs:2535-2543 | the best offset is a nearest column, and the left one of two equally near |
| InputWrap.CursorInverse | src/bootstrap/runtime.rs:2511-2545 | going to the position of a cursor index and back gives the index |
| InputWrap.MoveCursorVertically | src/bootstrap/runtime.rs:2582-2607 | a vertical move stays in the input and is the move on the wrapped lines |
| InputWrap.VerticalMoveLands | src/bootstrap/runtime.rs:2582-2607 | it exists exactly when the target line does, goes to a nearest column there, and is shown on that line unless the line is a continuation whose first column is nearest |
| InputWrap.MoveShownOnLineAbove | src/bootstrap/runtime.rs:2582-2607 | the move up from index seven of `abcdef` and a newline, in a width of three, goes to the second line and is shown on the first |
| InputWrap.TuiInputViewport | src/bootstrap/runtime.rs:2547-2580 | the viewport shows the line of the cursor in its row, two rows down except at the ends of the input, is as full as the input allows, and the cursor column fits in four or more columns |
| StyledCells.StripAnsiText | src/bootstrap/runtime.rs:3768-3783 | the loop removes exactly the control sequences |
| StyledCells.ReadControlSequence | src/bootstrap/runtime.rs:3815-3823 | the inner loop reads one control sequence and its final byte |
| StyledCells.ParseStyledCells | src/bootstrap/runtime.rs:3807-3854 | the cells are the shown characters with their active style, with consecutive columns, and the first of them numbered as source units |
| StyledCells.OtherSequencesKeepStyle | src/bootstrap/runtime.rs:3812-3834 | a sequence that does not end in `m` shows nothing and changes no style |
| StyledCells.StylingAccumulates | src/bootstrap/runtime.rs:3826-3832 | a sequence that ends in `m` is added to the style of what follows |
| StyledCells.ResetClears | src/bootstrap/runtime.rs:3827-3829 | both spellings of a reset clear the style |
| StyledCells.OpenSequenceShowsNothing | src/bootstrap/runtime.rs:3815-3823 | a sequence without a final byte takes the rest of the line with it |
| StyledCells.FinalBytes | src/bootstrap/runtime.rs:3768-3783 | exactly the characters from `@` to `~` end a sequence |
| StyledCells.CharTakesStyle | src/bootstrap/runtime.rs:3836-3850 | any other character becomes a cell in the active style |
| StyledCells.RenderLine | src/bootstrap/runtime.rs:3994-4027 | the loop writes a reset and the style at each change, and selected cells in inverse video |
| StyledCells.SelectionIsDrawn | src/bootstrap/runtime.rs:3994-4027 | in the rendered line each cell has its character and style, and inverse video exactly when it is selected |
| StyledCells.EndsInReset | src/bootstrap/runtime.rs:3994-4027 | a rendered line whose last cell has a style ends in a reset |
| StyledCells.ScanSeesStripped | src/bootstrap/runtime.rs:3768-3854 | parsing and stripping see the same characters in every line |
| StyledCells.HighlightKeepsTextIff | src/bootstrap/runtime.rs:3994-4027 | for every line and selection, highlighting changes no text exactly when no unselected ESC cell is followed in its style by an unselected bracket cell |
| StyledCells.RoundTripIff | src/bootstrap/runtime.rs:3807-4027 | parsing the unselected rendering gives back the same characters and styles exactly under the same condition |
| StyledCells.PlainLinesRoundTrip | src/bootstrap/runtime.rs:3807-4027 | lines that show no ESC round trip and keep their text under every selection |
| StyledCells.CsiLinesRoundTrip | src/bootstrap/runtime.rs:3807-4027 | in particular lines in which every ESC is followed by a bracket |
| StyledCells.ClashingLine | src/bootstrap/runtime.rs:3807-4027 | the smallest line whose rendering loses its text |
| Selection.SelectionBounds | src/bootstrap/runtime.rs:3935-3963 | the bounds are in document order and inside the document |
| Selection.BoundsAreCutEnds | src/bootstrap/runtime.rs:3935-3963 | the bounds are the two ends, cut to the last cell of their lines, the smaller one first |
| Selection.NoBoundsIff | src/bootstrap/runtime.rs:3949-3963 | there are none exactly when an end is unset or on no cell, or both are one cell in character mode |
| Selection.DirectionDoesNotMatter | src/bootstrap/runtime.rs:3949-3963 | exchanging anchor and focus changes neither the bounds nor the copied text |
| Selection.SelectedText | src/bootstrap/runtime.rs:4174-4205 | the loop collects the share of each line between the bounds |
| Selection.StripMessage | src/bootstrap/runtime.rs:3364-3379 | the colours of a message show nothing: it is drawn as its text, its padding and nothing else |
| Selection.MessageIsPadded | src/bootstrap/runtime.rs:3364-3379 | a message without control sequences is drawn as itself and filled up with spaces to the width |
| Selection.MessageStandsIff | src/bootstrap/runtime.rs:3856-3870 | a drawn message line starts with its source text exactly when that holds no control sequence, and a continuation exactly when its text is blank |
| Selection.CopiesWhatItHighlightsIff | src/bootstrap/runtime.rs:3969-3992 | all selections highlight in a line what they copy from it exactly when the drawn line starts with the source text |
| Selection.HighlightIsCopyIff | src/bootstrap/runtime.rs:3876-3992 | for every line of the document that is so exactly for lines that are no message, for message lines without a control sequence and for blank continuations |
| Selection.ContinuationIsShifted | src/bootstrap/runtime.rs:3903-3911 | each unit of a continuation line is drawn as the character two places before the one that it copies |
| Selection.ShiftedMessage | src/bootstrap/runtime.rs:3903-3911 | in a width of five the second line of `> abcdef` draws `d` for the unit that copies `f` |
| Selection.BuildRenderedLines | src/bootstrap/runtime.rs:3872-3917 | a user message line is rendered as its wrapped lines, any other line as one, each with the cells of its drawn text and their source units |
| Selection.MessageFits | src/bootstrap/runtime.rs:3876-3911 | messages with either prefix are wrapped so that no line is wider than the terminal |
| Selection.BuildRenderedContent | src/bootstrap/runtime.rs:3919-3933 | the document holds the rendered lines of every line in order, with their cells |
| Selection.BuiltGlues | src/bootstrap/runtime.rs:3876-3917 | the rendered lines of one line glue back to it as it was written |
| Selection.SelectionCopiesWrittenText | src/bootstrap/runtime.rs:4174-4205 | every selection in a document, at every width, copies exactly the part of the written text between its two cells |
| Selection.SelectAllIsIdentity | src/bootstrap/runtime.rs:4174-4205 | at every width, selecting from the first to the last cell copies the lines as they were written, joined by newlines |
| EnvFile.UnescapeDoubleQuoted | src/bootstrap/runtime.rs:316-329 | the loop drops each escaping backslash |
| EnvFile.UnquoteDoubleQuote | src/bootstrap/runtime.rs:303-333 | unquoting a double-quoted value gives back every value |
| EnvFile.UnquoteOthers | src/bootstrap/runtime.rs:303-314 | single quotes are dropped without unescaping, and a value not quoted at both ends stays |
| EnvFile.LoadHandWritten | src/bootstrap/runtime.rs:283-299 | a line written by hand, with white space where it is allowed, sets an unset key to its unquoted value or panics on a NUL |
| EnvFile.LinesOfCrLf | src/bootstrap/runtime.rs:283 | a line may end in a carriage return and a newline |
| EnvFile.LoadEnvFile | src/bootstrap/runtime.rs:275-301 | lines set their key in order unless it is set, and the first one that cannot be set panics |
| EnvFile.LoadAssignment | src/bootstrap/runtime.rs:530-549 | a written assignment line sets its key to exactly its value |
| EnvFile.RoundTrip | src/bootstrap/runtime.rs:530-560 | loading the written file yields exactly the API key, proxy and no-proxy values for unset keys |
| EnvFile.RoundTripIff | src/bootstrap/runtime.rs:275-333 | it does so exactly when no written value holds a newline or a NUL |
| EnvFile.NulPanics | src/bootstrap/runtime.rs:275-301 | every one-line API key with a NUL makes loading panic |
| EnvFile.NulKeyPanics | src/bootstrap/runtime.rs:275-301 | the smallest such key |
| EnvFile.NewlineCutsValue | src/bootstrap/runtime.rs:275-333 | a value with a newline is loaded as its first line behind the opening quote |
| GcPrune.Collector.PruneOne | src/core/housekeeping.rs:449-487 | the branches for one entry, and when it counts as remaining |
| GcPrune.Collector.PruneDirectory | src/core/housekeeping.rs:422-496 | the loop computes the prune, and each unit of budget spent is one entry visited |
| GcPrune.PerformGc | src/core/housekeeping.rs:370-397 | both roots together visit at most the configured number of entries, and the notice is due exactly when they visit that many |
| GcPrune.PruneDirSafe | src/core/housekeeping.rs:422-496 | under every budget and failure the result lies within the input, and every fresh file, fresh link and other entry stays at its path |
| GcPrune.WantedIffKeepers | src/core/housekeeping.rs:489-493 | a directory is wanted exactly when an entry that must stay lies below it |
| GcPrune.PruneDirExact | src/core/housekeeping.rs:422-496 | with enough budget and no failure exactly the wanted tree remains, at one unit for each entry |
| GcPrune.PruneUnderFaults | src/core/housekeeping.rs:422-496 | with enough budget and under every pattern of failures, what remains is the stated tree: no failure reaches beyond its own directory |
| GcPrune.RemainsInIsWanted | src/core/housekeeping.rs:422-496 | without failures that tree is the wanted one |
| GcPrune.LeafStaysIff | src/core/housekeeping.rs:463-485 | a file or link goes exactly when its age is known, above the retention time, and it can be deleted |
| GcPrune.PruneTwice | src/core/housekeeping.rs:422-496 | a second complete prune changes nothing |
| GcPrune.FlatStaysIff | src/core/housekeeping.rs:422-496 | one prune of a listing without directories changes nothing exactly when it gets to no removable entry, whatever fails |
| GcPrune.RetriesSucceedIff | src/core/housekeeping.rs:370-417 | without failures, repeated ticks on both roots reach exactly the wanted trees, within as many ticks as there are entries, if and only if the budget covers, for each entry that should go, what stays in front of it, the directories around it, and one unit for a leaf or two for a directory |
| GcPrune.StarvingFronts | src/core/housekeeping.rs:399-417 | small listings in which a stale file is never removed, and is with one more unit of budget |
| Lifecycle.Daemon.HandleZombieSession | src/core/housekeeping.rs:220-322 | both writes are attempted, tasks end only when both succeed, and the flag stays up only then |
| Lifecycle.Daemon.ExpireHibernatingSession | src/core/housekeeping.rs:324-368 | the status becomes Expired exactly when the write succeeds |
| Lifecycle.Daemon.PerformMaintenance | src/core/housekeeping.rs:158-206 | one tick with its five branches |
| Lifecycle.ExpiredOnlyFromHibernating | src/core/housekeeping.rs:171-175 | in every run Expired is entered only from Hibernating with an idle time over its threshold |
| Lifecycle.KillingTickHasPersisted | src/core/housekeeping.rs:239-302 | in every run a tick that ends a task has made both writes, past the threshold, and raised the flag |
| Lifecycle.HibernatesIff | src/core/housekeeping.rs:158-322 | in every run a tick hibernates exactly past the threshold, without running tasks, with the flag down and both writes succeeding, and then ends all tasks |
| Lifecycle.ExpiresIff | src/core/housekeeping.rs:171-175 | in every run a session expires exactly when it hibernates, its idle time is over the threshold and the write succeeds, whether tasks run or not |
| Lifecycle.RunningTaskIsActivity | src/core/housekeeping.rs:176-187 | in every run a tick past the threshold that finds a running task records activity at its time, lowers the flag and writes Active |
| Lifecycle.HibernationWaitsForThreshold | src/core/housekeeping.rs:176-205 | no session hibernates before the threshold has passed since every activity and every tick that found a task running |
| Lifecycle.EarlyTickWritesStatus | src/core/housekeeping.rs:194-205 | in every run a tick below the threshold writes Stale past half of it and Active before, and keeps time and tasks |
| Lifecycle.HibernationNeedsActivityBetween | src/core/housekeeping.rs:176-205 | in every run some tick between two hibernations has seen the session active |
| Lifecycle.IdleInvariant | src/core/housekeeping.rs:158-206 | in an idle run with successful writes the flag is up exactly in the dormant states, which are entered past the threshold |
| Lifecycle.IdleRunClimbs | src/core/housekeeping.rs:158-206 | in such a run from Active the status only climbs |
| Lifecycle.IdleRunHibernatesOnce | src/core/housekeeping.rs:220-322 | in such a run hibernation completes at most once, and does exactly when some tick is past the threshold |
| Lifecycle.IdleFallsBackIff | src/core/housekeeping.rs:188-194 | in an idle session past the threshold the status falls back exactly from Expired with the flag down |
| Lifecycle.IdleRunFallsBackIff | src/core/housekeeping.rs:158-206 | in every idle run, whatever writes fail, a tick falls back exactly when the session expired before any hibernation completed and no status was written since; a tick whose session write alone failed always precedes it |
| Lifecycle.FailedSessionWriteUndoesExpiry | src/core/housekeeping.rs:239-260 | one failed session write leads to that state and to the fall |
| TurnOwner.QueryEngineOwnerState.ReapFinishedTurn | src/core/engine.rs:34-44 | a finished turn leaves the slot, any other stays |
| TurnOwner.QueryEngineOwnerState.ClaimActiveTurn | src/core/engine.rs:500-521 | a claim on a free slot registers a fresh turn with the next id and an unset flag, and fails on an unfinished one |
| TurnOwner.QueryEngineOwnerState.ReleaseActiveTurn | src/core/engine.rs:560-576 | the flag is set, and the slot cleared only of the same turn |
| TurnOwner.QueryEngineOwnerState.HasActiveTurn | src/core/engine.rs:291-298 | reports whether an unfinished turn is registered |
| TurnOwner.QueryEngineOwnerState.InterruptActiveTurn | src/core/engine.rs:300-312 | cancels the registered unfinished turn and nothing else |
| TurnOwner.RunKeepsInvariant | src/core/engine.rs:378-521 | the protocol invariant holds in every state of every interleaving |
| TurnOwner.UnfinishedTurnIsRegistered | src/core/engine.rs:500-521 | at most one claimed turn is unfinished, and it is the registered one |
| TurnOwner.ClaimSucceedsIff | src/core/engine.rs:500-521 | a claim succeeds exactly when every claimed turn is finished, with an id above all earlier ones |
| TurnOwner.ReleaseKeepsOthers | src/core/engine.rs:560-576 | a late release never evicts another turn |
| TurnOwner.InterruptHitsActiveOnly | src/core/engine.rs:300-312 | a turn is newly cancelled only by an interrupt while it is registered and unfinished |
| TurnOwner.InterruptCancelsIff | src/core/engine.rs:300-312 | an interrupt cancels exactly the unfinished turn, and a finished one leaves the slot |
| TurnOwner.ProbeReports | src/core/engine.rs:291-298 | a probe finds a turn exactly when one is unfinished |
| TurnOwner.PublishesInOrder | src/core/engine.rs:481-490 | turns publish their app state in the order of their ids |
| TurnOwner.TurnStartsFromLastIff | src/core/engine.rs:378-386 | a turn starts from the app state of the turn before it exactly when no turn publishes between its refresh and its claim |
| TurnOwner.NoGapNoLoss | src/core/engine.rs:378-386 | without such a gap every published app state holds all turns up to its own, in order |
| TurnOwner.GapLosesHistory | src/core/engine.rs:378-386 | a concrete run in which the gap loses a turn in the app state in memory |
| Limiter.CalculateLimit | src/core/concurrency.rs:194-218 | the limit lies between three and eight |
| Limiter.LimitTable | src/core/concurrency.rs:194-218 | where the thresholds of memory and pressure lie |
| Limiter.LimitIsMonotone | src/core/concurrency.rs:194-218 | more memory never lowers the limit; more pressure raises it in exactly one case |
| Limiter.SubagentLimiter.ApplyLimit | src/core/concurrency.rs:122-157 | with agents taking and dropping permits between any two turns of its loops, every call is a stretch of a run of the steps; a changing call settles or met a moment without a free permit |
| Limiter.Accounting | src/core/concurrency.rs:66-157 | in every reachable state agent, borrowed and free permits add up to eight, and between calls the limiter holds no more than the limit asks for |
| Limiter.StaysWithinLimitIff | src/core/concurrency.rs:122-157 | from a reachable state agents stay within the limit in every continuation until a new limit is stored exactly when the limiter holds at least what the limit asks for |
| Limiter.ShortfallLasts | src/core/concurrency.rs:122-146 | in every run a shortfall between two calls lasts until a new limit is stored |
| Limiter.ChangeSettlesOrFindsNoPermit | src/core/concurrency.rs:138-156 | a changing call settles or met a moment without a free permit |
| Limiter.ChangeStaysBetween | src/core/concurrency.rs:138-156 | on the way a change never holds more or less than before or needed in the end |
| Limiter.QuietChange | src/core/concurrency.rs:138-156 | when no agent moves meanwhile, it borrows what it needs or all it can get, and settles exactly when agents hold no more than the limit |
| Limiter.StartExceedsLimit | src/core/concurrency.rs:66-71 | a run from the start in which eight agents hold permits under a limit of six |
| Limiter.ShortfallPersists | src/core/concurrency.rs:122-146 | a run in which a decrease is cut short and the next call with the same limit leaves it so |
| BossBudget.BossBudgetSnapshot | src/core/concurrency.rs:220-236 | one pass counts the active boss tasks, in all and of each role |
| BossBudget.EvaluateBossBudget | src/core/concurrency.rs:238-306 | the decision, made on the counts of one pass |
| BossBudget.AllowIffRoom | src/core/concurrency.rs:269-293 | without memory pressure a child is allowed exactly when the caps still hold with it |
| BossBudget.DeniedOrQueued | src/core/concurrency.rs:245-303 | a child is denied exactly when no store would take it, for its depth or as a researcher under critical pressure; a queued one would be allowed in an empty store without pressure |
| BossBudget.EventsMovePlaces | src/core/concurrency.rs:220-236 | an allowed child takes one place, a finished task gives one back, and starting a task does neither |
| BossBudget.PressureOnlyRefuses | src/core/concurrency.rs:254-303 | more memory pressure never turns a refusal into an admission, and never holds back an implementer |
| BossBudget.RunStaysWithinBudget | src/core/concurrency.rs:238-306 | in every reachable state at most six boss tasks are active, of which three implement, two research and two verify |
| BossBudget.SeparateTestOversteps | src/core/concurrency.rs:238-306 | with the test and the creation apart the caps can be exceeded |
| PathScope.CleanPathLike | src/core/evidence_scope.rs:1-47 | the loops drop the first prefix, cut at the first marker and keep the proper components |
| PathScope.CleanIsNormal | src/core/evidence_scope.rs:32-46 | cleaning yields the empty string or a normalised path |
| EvidenceLine.CleanDropsPrefix | src/core/evidence_scope.rs:3-16 | each listed prefix in front of a path is dropped |
| EvidenceLine.CleanCutsAtMarkerIff | src/core/evidence_scope.rs:17-29 | a marker behind the path cuts off the rest exactly when no earlier listed marker follows it |
| EvidenceLine.CleanFindsPath | src/core/evidence_scope.rs:1-47 | prefix, quotes, marker and rest go, and a plain path stays, under that condition |
| EvidenceLine.CleanKeepsPlainPath | src/core/evidence_scope.rs:1-47 | a plain normalised path is left as it is |
| EvidenceLine.CleanTakesBackslashes | src/core/evidence_scope.rs:30-32 | a backslash anywhere counts as a slash |
| EvidenceLine.CleanIgnoresOuterSpace | src/core/evidence_scope.rs:2 | white space around the line counts for nothing |
| EvidenceLine.MarkersOutOfOrder | src/core/evidence_scope.rs:17-29 | a line whose markers stand out of their order is not cut at its path |
| PathScope.BoundaryContainsPath | src/core/evidence_scope.rs:57-71 | the loop finds the first hit on path boundaries, going on behind each other hit |
| PathScope.AlignedIffComponents | src/core/evidence_scope.rs:49-71 | an occurrence on path boundaries is the same as containment of the components |
| PathScope.HitMeansComponents | src/core/evidence_scope.rs:57-71 | a hit always means that the components of the needle occur one after the other |
| PathScope.SearchAgreesIff | src/core/evidence_scope.rs:57-71 | the search agrees with containment on all normalised haystacks exactly when no part of the needle behind a slash is also how it starts |
| PathScope.SimpleNeedlesHaveNoBorder | src/core/evidence_scope.rs:57-71 | so it is complete for absolute needles and needles of one component |
| PathScope.AbsoluteNeedleIsPrefix | src/core/evidence_scope.rs:57-71 | an absolute needle is found exactly when its components start those of the haystack |
| PathScope.MissedNeedle | src/core/evidence_scope.rs:57-71 | the smallest needle that is missed |
| PathScope.ScopeMatchIsSymmetric | src/core/evidence_scope.rs:73-82 | the scope relation is symmetric |
| PathScope.ScopeMatchMeansComponents | src/core/evidence_scope.rs:73-82 | a match means that one cleaned path has the components of the other, and without slash borders the converse holds |
| PathScope.BestTargetIsGreatest | src/core/evidence_scope.rs:84-97 | the chosen target is the last of the matching ones with the greatest key, lengths counted in bytes |
| PathScope.ByteLengthOfChar | src/core/evidence_scope.rs:93-96 | the lengths compared are those of the UTF-8 encoding |
| PathScope.ExactTargetWinsIff | src/core/evidence_scope.rs:84-97 | an exact target wins exactly when cleaning the candidate again keeps it in scope of itself, in particular when cleaning leaves it fixed |
| PathScope.ExactTargetLost | src/core/evidence_scope.rs:84-97 | `read:read:x` is not matched by the target that is the same string |

## Left out

- Terminal input and output, key decoding, the choice of a theme, the clipboard and the wheel: presentation. The codes of the colours and the width of a whole text are parameters.
- Starting, dragging and scrolling a selection and selecting words and lines (src/bootstrap/runtime.rs:4029-4172): only the bounds and the copied text are modelled.
- The columns of source cells (src/bootstrap/runtime.rs:3792-3805): the source of a rendered line is modelled by the characters of its source cells.
- Suggestion scrolling, history recall and completion in the input box: they would add easy members; replacing the input clears the spans.
- The setup wizard, the models file and the provider presets: the preset name is a parameter of the env file with the properties the presets have.
- The task manager, the session store and the query loop: a set of running tasks, writes that succeed or fail, and histories as lists of turns stand for them. A failing write leaves the stored status as it was.
- Application state without a session store: it behaves as one whose writes all fail and whose status is Active.
- Notices, observability records and log lines of the housekeeping daemon.
- `replace_app_state`, `persist_messages` and cancellation through a closed event receiver: no step of the turn protocol.
- Fairness, the order in which waiting agents get permits, and liveness of any kind.
- File systems beyond a finite tree with an age and failure flags; entries that appear or vanish while a listing runs.
- UTF-8 byte offsets: strings are sequences of scalar values, so `char_to_byte_index` is the clamped index; only the key of the target choice counts bytes.
- The remaining functions of src/core/evidence_scope.rs that only dispatch on an evidence prefix.
- PasteBuffer.RunRefines: stops where Delete leaves the cursor beyond the end, because the buffer then shows no plain editor (StepStaysValidIff).
- GcPrune.RetriesSucceedIff: is about one set of files and ages; entries that age, appear or fail between ticks change the need.
- TurnOwner.GapLosesHistory: speaks of the app state in memory; reading the history back from a session store is not modelled.
- GcPrune.Collector.PruneDirectory: returns the remaining tree as a value instead of changing a disk in place, so aliasing through links is not captured.
