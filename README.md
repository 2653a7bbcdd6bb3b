# Ludwig-AI task dispatch and display in Dafny

This project models the parts of Ludwig-AI, a Go terminal tool, that hand
coding tasks to an AI agent and show their progress. It covers the
following:

- **The kanban board** (`internal/kanban/kanban.go`). `seperateTaskByStatus`
  splits the task list into one column per status. `RenderKanban` and
  `DisplayKanban` lay the columns out row by row. The board has as many rows
  as its longest column, and a column that has run out shows a blank cell.
  `RenderKanban` labels a card with the task's first position in the input.
  `DisplayKanban` labels it with the row number. `BorderColorFromString`,
  the `borderColors` table and the footer loop give each column its colour.
  The grid is modelled cell by cell (`Cell`), without the ANSI borders and
  padding.
- **The output view helpers** (`internal/utils/outputViewUtils.go`).
  - `removeSurroundingQuotes`, with Go's `strings.TrimSpace` written out.
  - `OutputLines` shows the agent output between the first two "---" marker
    lines. It drops empty lines and the first two non-empty ones, passes
    each remaining line through `OutputLine`, and ends each with a newline.
  - The pass-through guards of `OutputLine`.
  - `GetTaskByPath`.
  - The hybrid modification-time-then-hash change test
    `HasFileChangedHybrid`, on a `FileChangeInfo` record updated in place.
- **`PointerSliceToValueSlice`** (`internal/utils/mapUtils.go`) copies a
  slice of task pointers into a new slice of values.
- **The dispatch pass of `Start`** (`internal/orchestrator/orchestrator.go`).
  - The store and the Gemini client are given as inputs: the outcome of
    opening the store, the outcome of listing it, and a function from prompt
    to reply.
  - A run is either a fatal stop or the ordered sequence of calls the pass
    makes.
- **`stripAnsiCodes`** (`internal/cli/interactive.go`) removes every match of
  ESC `[` `[0-9;]*` `[a-zA-Z]`. The regular expression becomes a
  left-to-right scan: at any position at most one match can start, because
  the parameter class and the final-letter class are disjoint.

Layout:

- `wrappers.dfy`: `Option` and `Result`.
- `tasks.dfy`: the task record, the status enumeration and its labels.
- `sequences.dfy`: `slices.Index` and subsequences.
- The remaining files, one per modelled Go file: `kanban.dfy`,
  `outputview.dfy`, `maputils.dfy`, `orchestrator.dfy`, `interactive.dfy`.

Code with loops is modelled as methods with loop invariants, except the
search loop of `GetTaskByPath`, which is modelled as a recursive find
(`FindByResponseFile`). Each method's `ensures` either equates its result
with a reference function (`Column`, `ExpectedCell`, `Selected` with `Emit`,
`PassCalls`, `ChangeStep`), about which lemmas state what the source
promises, or states its result outright (`MaxListLength`, `BoardHeight`,
`FooterColors`, `PointerSliceToValueSlice`). Pure code is modelled as
functions and lemmas.

## Model

| member | source | states |
|---|---|---|
| Tasks.StatusString | test/types/task_test.go:9-51 | The four named statuses get the labels "Pending", "In Progress", "In Review" and "Completed"; exactly the other values get "Unknown". |
| Kanban.BorderColorFromString | internal/kanban/kanban.go:73-86 | Each of the four status labels maps to its column's colour in `borderColors`; any other text maps to the default blue "34"; the result is always one of the table's colours. |
| Kanban.ColourOfStatusLabel | internal/kanban/kanban.go:12-17 | Colouring a status through its label gives `borderColors` of that status for the four named statuses, and the default blue for any other value. |
| Kanban.ColumnOfAbsentStatus | internal/kanban/kanban.go:20-25 | A status no task has gets an empty column. |
| Kanban.ColumnCounts | internal/kanban/kanban.go:26-28 | A column holds every task of its status exactly as many times as the input does, and no task of another status. |
| Kanban.ColumnMembers | internal/kanban/kanban.go:26-28 | A task is in the column of `s` if and only if it is in the input and has status `s`. |
| Kanban.ColumnKeepsOrder | internal/kanban/kanban.go:26-28 | A column is a subsequence of the input: appending keeps the input order. |
| Kanban.ColumnsShareOutTasks | internal/kanban/kanban.go:19-30 | When every status is one of the four, the four column lengths add up to the number of tasks. |
| Kanban.StatusKeysMembers | internal/kanban/kanban.go:19-30 | The statuses that get an entry are the four board statuses plus every status that occurs in the input, and no others. |
| Kanban.SeparateTaskByStatus | internal/kanban/kanban.go:19-30 | The map has an entry exactly for the four board statuses and for every status that occurs; each entry is the column of its status. |
| Kanban.InvalidStatusNotOnBoard | internal/kanban/kanban.go:149 | A task whose status is outside the four is in none of the four columns the board loops over. |
| Kanban.MaxListLength | internal/kanban/kanban.go:139-144 | The loop's result is non-negative, at least every column length, and either 0 or one of the lengths. |
| Kanban.BoardHeight | internal/kanban/kanban.go:133-144 | The number of rows is at least the length of each of the four columns, and is 0 or the length of one of them. |
| Kanban.LayOutRow | internal/kanban/kanban.go:149-158 | A row has one cell per status, in status order: a blank once the column has run out, otherwise the card of the column's task in that row. |
| Kanban.LayOut | internal/kanban/kanban.go:146-161 | The grid has as many rows as the longest column, four cells per row, and every cell is the one `ExpectedCell` describes. |
| Kanban.RenderKanban | internal/kanban/kanban.go:127-164 | Every cell is the one `ExpectedCell` gives for labels by input position. A cell is blank if and only if its column has run out. A card's number is the first position in the input (`slices.Index`) of the column's task in that row, and that task has the column's status and the card's name. Every task with one of the four statuses appears in its column, labelled with its first position. |
| Kanban.DisplayKanban | internal/kanban/kanban.go:92-125 | The same layout, but a card's label is its row number, shared by every card of the row. |
| Kanban.FooterColors | internal/kanban/kanban.go:64-71 | The footer has exactly four bars, in status order, coloured "34", "33", "35", "32". |
| Sequences.IndexOf | internal/kanban/kanban.go:155 | The result is -1 exactly when the element is absent; otherwise it is the first position holding the element. |
| OutputView.LeadingSpaces | internal/utils/outputViewUtils.go:21 | The count is a run of spaces at the start of the string that cannot be extended. |
| OutputView.TrailingSpaces | internal/utils/outputViewUtils.go:21 | The count is a run of spaces at the end of the string that cannot be extended. |
| OutputView.TrimSpace | internal/utils/outputViewUtils.go:21 | The input is its leading spaces, then the result, then trailing spaces. A non-empty result neither starts nor ends with a space. An empty result means the input was all spaces. |
| OutputView.TrimSpaceOfPadded | internal/utils/outputViewUtils.go:21 | Text that neither starts nor ends with a space is recovered exactly from any padding by spaces. |
| OutputView.RemoveSurroundingQuotes | internal/utils/outputViewUtils.go:20-26 | As written: after trimming, a string of two or more characters loses its first and last characters whatever they are; a shorter one is returned trimmed. |
| OutputView.RemoveSurroundingQuotesDropsNonQuotes | internal/utils/outputViewUtils.go:22-24 | The unquoted input "ab" comes out empty. |
| OutputView.RemoveSurroundingQuotesIntended | internal/utils/outputViewUtils.go:20-26 | Corrected: the first and last characters are removed only when both are double quotes; otherwise the trimmed string is returned. |
| OutputView.UnquotePadded | internal/utils/outputViewUtils.go:20-26 | Both versions return `x` for a space-padded `"x"`. |
| OutputView.IntendedKeepsUnquoted | internal/utils/outputViewUtils.go:20-26 | The corrected version returns unchanged any trimmed string that is not both started and ended by a double quote. |
| OutputView.OutputLine | internal/utils/outputViewUtils.go:145-161 | A line that is empty, does not start with '{' or is shorter than two characters is returned unchanged. A line that fails to parse as JSON becomes "". Any other line becomes what the JSON branches render. |
| OutputView.MarkerPassesThrough | internal/utils/outputViewUtils.go:150-155 | The "---" line is caught by the first guard, so the explicit "---" comparison after it never decides anything. |
| OutputView.NonEmptyLinesMembers | internal/utils/outputViewUtils.go:256-258 | A line survives the empty-line filter if and only if it occurs and is not empty. |
| OutputView.OutputLines | internal/utils/outputViewUtils.go:238-269 | No lines give "no output". Otherwise the output is the window between the first two markers (or from the first marker to the end), with empty lines and the first two non-empty lines dropped, each line passed through `OutputLine` and ended by "\n". |
| OutputView.NoMarkerNoOutput | internal/utils/outputViewUtils.go:249-255 | Without a "---" line nothing is shown. |
| OutputView.PrefixIgnored | internal/utils/outputViewUtils.go:253-255 | Lines before the first marker do not affect the window. |
| OutputView.SuffixIgnored | internal/utils/outputViewUtils.go:246-248 | Once a second marker has closed the window, later lines do not affect it. |
| OutputView.SelectedLinesComeFromWindow | internal/utils/outputViewUtils.go:245-264 | Every shown line is a non-empty, non-marker line of the input. |
| OutputView.TrimPrefix | internal/utils/outputViewUtils.go:284 | A string that starts with the prefix is the prefix followed by the result; any other string is returned unchanged. |
| OutputView.FindByResponseFile | internal/utils/outputViewUtils.go:285-289 | There is no result exactly when no task has the response file; otherwise the result is the first task that has it. |
| OutputView.GetTaskByPath | internal/utils/outputViewUtils.go:282-290 | The result is the first task whose response file is the path with one leading "./.ludwig/" removed; there is none exactly when no task has that file. |
| OutputView.PrefixStrippedOnce | internal/utils/outputViewUtils.go:284 | A doubled "./.ludwig/" prefix has only one copy removed. |
| OutputView.PrefixIsOptional | internal/utils/outputViewUtils.go:284 | A file name finds the same task with or without the prefix. |
| OutputView.ChangeStep | internal/utils/outputViewUtils.go:74-105 | A stat error or a hash error reports changed with that error and keeps the state. A modification time that is not newer reports no change and keeps the state. A newer time with a different hash reports changed with the file content and stores both the time and the hash. A newer time with an equal hash reports no change and stores only the time. The stored time never decreases. |
| OutputView.ChangeStepSettles | internal/utils/outputViewUtils.go:80-83 | After a successful check, asking again with the same time and hash reports no change and leaves the state alone. |
| OutputView.FileChangeInfo.constructor | internal/utils/outputViewUtils.go:119-122 | The record starts with the given modification time and hash. |
| OutputView.FileChangeInfo.HasFileChangedHybrid | internal/utils/outputViewUtils.go:74-105 | The returned flag, content and error, and the record's new fields, are those `ChangeStep` gives for the record's old fields. |
| MapUtils.PointerSliceToValueSlice | internal/utils/mapUtils.go:5-18 | A nil slice gives nil and an empty slice gives an empty one. The length is kept. Each slot holds the task its pointer points to, or the zero task for a nil pointer. |
| Orchestrator.Start | internal/orchestrator/orchestrator.go:12-53 | A store that fails to open stops the run with "Failed to initialize task storage: " and the error. A listing that fails stops it with "Failed to list tasks: " and the error. Otherwise the run makes exactly the calls of the pass over the listed tasks. |
| Orchestrator.PromptsArePendingNames | internal/orchestrator/orchestrator.go:38-42 | The prompts sent are exactly the names of the Pending tasks, in list order. |
| Orchestrator.AddedTasksWereCompleted | internal/orchestrator/orchestrator.go:49-51 | Every task handed to `AddTask` has status Completed. It comes right after the prompt with its name, and it is a listed Pending task whose prompt succeeded, with only its status changed. |
| Orchestrator.SucceededPromptsArePersisted | internal/orchestrator/orchestrator.go:49-51 | A listed Pending task whose prompt succeeds is handed to `AddTask` as its copy with status Completed. |
| Orchestrator.AddedAreCompletedCopies | internal/orchestrator/orchestrator.go:38-52 | The tasks handed to `AddTask` are exactly the Completed copies of the Pending tasks whose prompt succeeded, once each, in list order. |
| Orchestrator.PassCallsAppend | internal/orchestrator/orchestrator.go:38-52 | The pass over two lists one after the other makes the calls of the first pass followed by those of the second. |
| Orchestrator.FailedPromptsAreNotPersisted | internal/orchestrator/orchestrator.go:42-46 | A task whose prompt fails is never handed to the store. |
| Orchestrator.OthersAreSkipped | internal/orchestrator/orchestrator.go:39-41 | A task that is not Pending, wherever it stands in the list, adds no call to the pass. |
| Interactive.EscapeLength | internal/cli/interactive.go:35 | A positive result is the length of an escape sequence at the front of the string, and no other prefix is one. |
| Interactive.StripAnsiCodes | internal/cli/interactive.go:33-38 | The result is never longer than the input. |
| Interactive.StripKeepsOrder | internal/cli/interactive.go:33-38 | The result is a subsequence of the input: characters are only removed, never added or reordered. |
| Interactive.NoEscapeUnchanged | internal/cli/interactive.go:33-38 | A string without an escape character is returned unchanged. |
| Interactive.PlainPrefixKept | internal/cli/interactive.go:33-38 | Text without an escape character in front of the rest is kept as it is. |
| Interactive.LeadingSequenceRemoved | internal/cli/interactive.go:35-37 | An escape sequence at the front is removed as a whole. |
| Interactive.UnmatchedStartKept | internal/cli/interactive.go:35-37 | A character that starts no escape sequence, an unmatched ESC included, is kept, and the scan resumes at the next character. |
| Interactive.ColourCodeIsSequence | internal/cli/interactive.go:35 | A colour code ESC '[' digits-and-semicolons 'm' matches the pattern. |
| Interactive.ColouredTextStripped | internal/cli/interactive.go:32-38 | Escape-free text wrapped in a colour code and the reset ESC "[0m" comes out bare, so its visible length is its own length. |
| Interactive.StripIsNotIdempotent | internal/cli/interactive.go:35-37 | One pass can join characters into a new escape sequence: ESC '[' ESC '[' 'm' 'm' strips to ESC '[' 'm', which strips to nothing. |

## Left out

- The task store (`storage.NewFileTaskStorage`, `ListTasks`, `AddTask`): its source is not part of this model. Start takes the outcome of opening it and the listing as inputs and records each `AddTask` call as a value. Whether the store accepts a task that is already stored is not modelled.
- The Gemini client is not part of this model. Start takes the processor as a function from prompt to reply, so two tasks with the same name get the same reply.
- Start's `fmt.Printf` logging and the process exit of `log.Fatalf`: a fatal error is modelled as a returned `Fatal` value carrying the message.
- Start changes the status through the task pointer before `AddTask`; the model hands over a copy with the new status and does not model the aliasing.
- Files, hashes and clocks. `os.Stat`, the FNV hash `getFileHashFast` and `ReadFileAsString` are inputs to `HasFileChangedHybrid`: a modification time, a hash or an error, and the content. `time.Time` is an integer.
- `InitFileChangeInfo` is modelled only by the `FileChangeInfo` constructor; its stat and hash failures are not modelled.
- `GetFileContentHash`, `GetFileHash` and the SHA-256 hashing: I/O with no logic beyond hashing.
- OutputLine: the JSON branches (`json.Unmarshal`, the "init", "message", "tool_use", "tool_result" and "result" cases, `FormatTimestamp`, `writeParams`, the lipgloss rendering) are reduced to one decoding function. The panics of their unchecked type assertions are not modelled.
- OutputLines: the three regular-expression colouring passes run on its result (`colouredUnorderedLists`, `colouredStrings`, `colouredOrderedLists`) are left out. The method's result is the text before colouring.
- The rendering of cells: `KanbanTaskName`, `LeftRightBorderedString`, `ColoredString`, the header and border strings, `ClearScreen` and printing. The board is modelled as a grid of `Cell` values.
- RenderKanban: the task record keeps only the fields the modelled code reads or writes; `CreatedAt`, `Review` and `ReviewResponse` are dropped. `slices.Index` at internal/kanban/kanban.go:155 compares whole records, so two tasks that differ only in those fields get different labels in Go but the same label here (`Sequences.IndexOf` uses the coarser equality). The two agree when no two listed tasks agree on all seven kept fields, for instance when task IDs are unique, as the design requires; the model does not establish that, since `Start` re-adds listed tasks and the store is not modelled.
- RenderKanban's "#" label prefix and its `index` counter, which is incremented but never read.
- DisplayKanban's `index` counter always equals the row number, so the model uses the row number directly.
- `DelayedTask`, timers and mutexes: concurrency.
- Strings are sequences of characters, not UTF-8 bytes. RemoveSurroundingQuotes is modelled on characters, so it does not capture Go's byte slicing of a multi-byte first or last character. TrimSpace does not model invalid UTF-8.
- StripAnsiCodes: the regular expression engine itself is not modelled. The scan is its leftmost-first reading for this pattern.
- `Model.go`, `progressBar.go`, `cli.go` and `cliUtils.go`: the user interface is not modelled.

## Findings

| source | as written | input that shows it | evidently intended | confidence | as-written member | corrected member |
|---|---|---|---|---|---|---|
| internal/utils/outputViewUtils.go:20-26 | `removeSurroundingQuotes` drops the first and last characters of any trimmed string of two or more characters, quotes or not | "ab" gives "" | drop them only when both are double quotes | low: no caller is known; not executed | OutputView.RemoveSurroundingQuotesDropsNonQuotes | OutputView.RemoveSurroundingQuotesIntended |
