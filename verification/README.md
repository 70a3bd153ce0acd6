# Task tracker, modelled in Dafny

The task tracker is a small command-line to-do list written twice in Kotlin.
Each version keeps an ordered list of tasks, where a task is a description and
a done flag. Each version can add a task, mark a task done by its 1-based
position, print the list, and save and reload the list through a text file of
one line per task.

- `Main.kt` (module `TaskManager`). The `TaskManager` class saves a task as
  `"<isDone>;<description>"`. Lines are joined with LF and the last line has no
  terminator.
- `src/main/kotlin/com/example/tasktracker/Main.kt` (module `TaskTracker`).
  Top-level functions over a global list save a task as
  `"<description>|<isDone>"`. Every line ends with the platform line
  terminator.

The model is functional. A task list is a `seq<Task>`, and every operation is
a pure function from the old list and its input to the new list. Console input
comes in as a parameter: `Option<string>` for the line read, `Option<int>` for
the parsed number. A file comes in as `Option<string>`, which is `None` when
the file does not exist. Printing is modelled as the list of lines printed,
or as the one message an operation prints.

Shared modules:

- `Text` models the Kotlin string functions the tracker uses: `isBlank`,
  `trim`, `toBoolean`, `Boolean.toString`, `split` on one character,
  `joinToString`, and decimal rendering of a position.
- `Lines` models `readLines`. It cuts text at LF, CR or CR LF, the way
  `BufferedReader.readLine` does.
- `Tasks` holds the `Task` record (the `data class Task` of `Main.kt:6-9` and of
  `src/main/kotlin/com/example/tasktracker/Main.kt:5-8`, a description and a
  done flag that starts out false), the point update used by both mark
  operations, and the filtering decoder that both loaders use.

Facts about the code that the model keeps:

- `toBoolean` ignores case, so a saved status of `"TRUE"` loads as done.
- `Main.kt` writes the status field first, then the description; the other
  version writes the description first.
- Neither version rejects or escapes a description that contains its delimiter
  or a line break, so such a task need not survive a save and reload.
  `TaskManager.DelimiterInDescriptionIsLost` shows this for `;` in `Main.kt`,
  and both round-trip lemmas state the condition under which the round trip
  holds.
- Loading trims nothing and rejects no blank description, so a loaded task
  need not satisfy what adding guarantees (`Tasks.IsWellFormed`: trimmed and
  not blank). `TaskManager.LoadedTaskMayBeBlank` and
  `TaskTracker.LoadedTaskMayBeBlank` show a blank description coming back from
  a file. The `KeepsWellFormed` lemmas are about adding and marking only.

## Model

| member | source | states |
|---|---|---|
| `Text.Trim` | Main.kt:29 | The trimmed text is the slice of the input that starts after the leading whitespace and is followed only by whitespace. It neither starts nor ends with whitespace, and it is empty exactly when the input is blank. |
| `Text.IsBlank` | Main.kt:28 | `isBlank` holds exactly when every character is whitespace, so it holds for empty text. `Trim` is empty exactly on blank text. |
| `Text.TrimIdempotent` | Main.kt:29 | Trimming twice gives the same text as trimming once. |
| `Text.ToBoolean` | Main.kt:82 | `toBoolean` is true exactly when the ASCII lower-casing of the text is `"true"`, and false for any other text, with no parse failure. |
| `Text.BoolText` | Main.kt:67 | A flag is written as `"true"` or `"false"`, and `toBoolean` reads that text back as the same flag. |
| `Text.Split` | Main.kt:80 | `split` on one character gives `Count + 1` pieces. No piece contains the delimiter, and joining the pieces with the delimiter gives back the text. |
| `Text.SplitJoin` | src/main/kotlin/com/example/tasktracker/Main.kt:75 | When no part contains the delimiter, `split` undoes `joinToString` with that delimiter. |
| `Text.Join` | Main.kt:67 | `joinToString` of no parts is empty text and of one part is that part. |
| `Text.JoinAppend` | Main.kt:67 | Joining one more part appends the separator and then that part, so the separator appears only between parts. |
| `Text.NatToString` | Main.kt:43 | A rendered position is non-empty and all digits, has no leading zero, and denotes the number. |
| `Lines.ReadLines` | Main.kt:79 | The lines read contain no line breaks. There are no more lines than characters, and only empty text reads as no lines. |
| `Lines.ReadJoined` | Main.kt:67 | Reading lines that were joined with LF gives the lines back, when no line contains a break and the last line is not empty. |
| `Lines.ReadTerminated` | src/main/kotlin/com/example/tasktracker/Main.kt:86-90 | Reading lines that were each followed by LF or by CR LF gives the lines back, when no line contains a break. |
| `Lines.Terminate` | src/main/kotlin/com/example/tasktracker/Main.kt:86-90 | Writing lines with `println` gives empty text only for no lines. Otherwise the text ends with the terminator. |
| `Lines.TerminateAppend` | src/main/kotlin/com/example/tasktracker/Main.kt:86-90 | Writing one more line appends that line followed by the terminator, so every line, the last one included, is terminated. |
| `Lines.JoinedLayout` | Main.kt:67 | For break-free lines with a non-empty last line, the LF-joined text has one LF fewer than it has lines, has no CR, and does not end with a line break. |
| `Tasks.MarkAt` | Main.kt:54 | The point update sets the flag of one task. The length, every other task and the marked task's description are unchanged. |
| `Tasks.CollectAppend` | Main.kt:79-86 | Decoding lines is compositional: the tasks from a concatenation of lines are the tasks from each part, concatenated. |
| `Tasks.Collect` | Main.kt:79-86 | Decoding keeps at most one task per line, and keeps none when no line decodes. |
| `TaskManager.AddTask` | Main.kt:27-31 | A description that is not blank adds exactly one task, `Task(trim(description), false)`, at the end. Earlier tasks are unchanged. A blank description leaves the list unchanged. |
| `TaskManager.AddTaskKeepsWellFormed` | Main.kt:27-31 | If every description is trimmed and not blank, that stays true after adding. |
| `TaskManager.AddTaskOutput` | Main.kt:27-31 | `"Task added!"` is printed exactly when the description is not blank, and nothing is printed for a blank one. |
| `TaskManager.AddTaskReports` | Main.kt:27-31 | The acknowledgement is printed exactly when the list grew by one task, and nothing is printed exactly when the list is unchanged. |
| `TaskManager.MarkDone` | Main.kt:51-58 | For a position in `1..size`, only the task at position-1 changes, and it becomes done with its description kept. Any other position leaves the list unchanged. No flag is ever reset, and length and descriptions never change. |
| `TaskManager.MarkDoneIdempotent` | Main.kt:53-54 | Marking the same position twice gives the same list as marking it once. |
| `TaskManager.MarkDoneKeepsWellFormed` | Main.kt:51-55 | If every description is trimmed and not blank, that stays true after marking. |
| `TaskManager.MarkDoneOutput` | Main.kt:51-58 | `"Task marked as done!"` is printed exactly when the position is in `1..size`. `"Invalid task number."` is printed otherwise. |
| `TaskManager.MarkDoneReports` | Main.kt:51-58 | After the acknowledgement the named task is done. After the invalid-number message the list is unchanged. So the message reports the outcome even when marking an already-done task leaves the list as it was. |
| `TaskManager.ListTasks` | Main.kt:37-46 | An empty list prints only `"No tasks yet."`. Otherwise line i is `"<i+1>. [✓] desc"` or `"<i+1>. [✗] desc"`, one line per task in list order. |
| `TaskManager.ListingLine` | Main.kt:42-43 | A listing line is the 1-based position in decimal, `". ["`, the mark, `"] "`, then the description. It starts with a digit, and the mark is the check mark for a done task and the ballot X for an open one. |
| `TaskManager.ListingLineIsNotEmptyListing` | Main.kt:38-43 | A task's listing line is never the empty-list message. |
| `TaskManager.ListingLineInjective` | Main.kt:42-43 | Two tasks at the same position with the same listing line are the same task. |
| `TaskManager.ListTasksInjective` | Main.kt:37-46 | Two lists that print the same listing are equal, so the listing loses no information. |
| `TaskManager.Save` | Main.kt:67 | The saved text is empty exactly when the list is empty. `SaveLayout`, `SaveAppend` and `BuyMilkFile` pin down the layout. |
| `TaskManager.EncodeLine` | Main.kt:67 | A saved line is never empty. Its first `;` separates the status text `true` or `false` from the description, even when the description holds `;`. It has a line break only where the description has one. |
| `TaskManager.SaveLayout` | Main.kt:67 | With no line break in any description, a non-empty list is saved with exactly one LF between neighbouring lines, no LF after the last line and no CR. |
| `TaskManager.SaveAppend` | Main.kt:67 | Saving a non-empty list with one more task appends an LF and that task's line, so lines are separated, not terminated. |
| `TaskManager.SaveLines` | Main.kt:67 | When no description contains a line break, the saved text reads back as exactly one `"<true/false>;<description>"` line per task, in list order. |
| `TaskManager.DecodeLine` | Main.kt:80-84 | A line decodes exactly when it contains exactly one `;`. The description is the text after the `;`, and the flag is the text before it read with `toBoolean`. |
| `TaskManager.Load` | Main.kt:76-91 | A missing file leaves the list unchanged. Otherwise decoded tasks are appended after the existing ones, at most one per character of the file. |
| `TaskManager.DecodeLines` | Main.kt:79-86 | Loading a file keeps at most one task per line. |
| `TaskManager.DecodeLinesAppend` | Main.kt:79-86 | Each line decodes on its own, so loading a block of lines concatenates what its parts load. |
| `TaskManager.DecodeLinesKeep` | Main.kt:79-85 | A line with exactly one `;` adds its task between the tasks of the lines before it and the tasks of the lines after it. |
| `TaskManager.DecodeLinesSkip` | Main.kt:79-85 | Any other line is skipped, and the lines around it decode as if it were absent. |
| `TaskManager.DecodeEncodeLine` | Main.kt:80-84 | A saved line decodes to its task when the description contains no `;`. |
| `TaskManager.SaveLoadRoundTrip` | Main.kt:65-91 | Loading the saved text into an empty list gives back the list, when no description contains `;`, LF or CR. |
| `TaskManager.DelimiterInDescriptionIsLost` | Main.kt:80-81 | The round-trip condition is needed: a task described `"a;b"` is saved as `"false;a;b"`, which has three fields, and loading drops it. |
| `TaskManager.LoadedTaskMayBeBlank` | Main.kt:80-84 | The line `"true;"` loads as a done task with an empty description, which is not trimmed-and-not-blank. Loading does not keep what adding guarantees. |
| `TaskManager.BuyMilkSession` | Main.kt:27-58 | Adding `"buy milk"` to an empty list gives one open task, and marking position 1 makes it done. |
| `TaskManager.BuyMilkListing` | Main.kt:37-46 | That list prints as `"1. [✗] buy milk"` before marking and as `"1. [✓] buy milk"` after. |
| `TaskManager.BuyMilkFile` | Main.kt:65-71 | The session's list is saved as the single line `"true;buy milk"`, with no terminator. |
| `TaskManager.BuyMilkReload` | Main.kt:65-91 | The marked list survives a save followed by a load into a fresh list. |
| `TaskTracker.AddTask` | src/main/kotlin/com/example/tasktracker/Main.kt:37-46 | A present input that is not empty after trimming adds exactly `Task(trimmed, false)` at the end, and earlier tasks are unchanged. A missing or blank input leaves the list unchanged. |
| `TaskTracker.AddTaskKeepsWellFormed` | src/main/kotlin/com/example/tasktracker/Main.kt:39-41 | If every description is trimmed and not blank, that stays true after adding. |
| `TaskTracker.AddTaskAgrees` | src/main/kotlin/com/example/tasktracker/Main.kt:39-41 | For a present input, this version adds exactly what `TaskManager.addTask` adds for the same text. |
| `TaskTracker.AddTaskOutput` | src/main/kotlin/com/example/tasktracker/Main.kt:37-46 | `"Task added."` is printed exactly when a line was read and is not blank. `"Task description cannot be empty."` is printed otherwise. |
| `TaskTracker.AddTaskReports` | src/main/kotlin/com/example/tasktracker/Main.kt:37-46 | The acknowledgement is printed exactly when the list grew by one task, and the empty-description message exactly when the list is unchanged. |
| `TaskTracker.MarkTaskDone` | src/main/kotlin/com/example/tasktracker/Main.kt:60-70 | A number `n` in `1..size` makes only task `n-1` done, with its description kept. A missing or out-of-range number leaves the list unchanged. No flag is ever reset, and length and descriptions never change. |
| `TaskTracker.MarkTaskDoneIdempotent` | src/main/kotlin/com/example/tasktracker/Main.kt:64-65 | Marking the same number twice gives the same list as marking it once. |
| `TaskTracker.MarkTaskDoneAgrees` | src/main/kotlin/com/example/tasktracker/Main.kt:64-65 | For a parsed number, this version marks exactly what `TaskManager.markDone` marks for the same position. |
| `TaskTracker.MarkTaskDoneOutput` | src/main/kotlin/com/example/tasktracker/Main.kt:60-70 | `"Task marked as done."` is printed exactly when a number was parsed and is in `1..size`. `"Invalid task number."` is printed otherwise. |
| `TaskTracker.MarkTaskDoneReports` | src/main/kotlin/com/example/tasktracker/Main.kt:60-70 | After the acknowledgement the named task is done. After the invalid-number message the list is unchanged. |
| `TaskTracker.MarkTaskDoneReportsAgree` | src/main/kotlin/com/example/tasktracker/Main.kt:64-68 | For a parsed number, this version acknowledges exactly when `TaskManager.markDone` acknowledges the same position. |
| `TaskTracker.ViewTasks` | src/main/kotlin/com/example/tasktracker/Main.kt:48-58 | An empty list prints only `"No tasks to show."`. Otherwise the output is `"Tasks:"` followed by line `"<i+1>. desc [Done]"` or `"<i+1>. desc [Not done]"` for each task i, in order. |
| `TaskTracker.ViewLine` | src/main/kotlin/com/example/tasktracker/Main.kt:54-55 | A view line is the 1-based position in decimal, `". "`, the description, then the status suffix of the task. It starts with a digit and ends with `]`, and its fifth character from the end is `D` exactly for a done task. |
| `TaskTracker.StatusSuffix` | src/main/kotlin/com/example/tasktracker/Main.kt:54-55 | The status is a space and a bracketed status text of at least four characters. Its fifth character from the end is `D` exactly for `Done`. |
| `TaskTracker.ViewLineInjective` | src/main/kotlin/com/example/tasktracker/Main.kt:54-55 | Two tasks at the same position with the same listing line are the same task. |
| `TaskTracker.ViewTasksInjective` | src/main/kotlin/com/example/tasktracker/Main.kt:48-58 | Two lists that print the same listing are equal. |
| `TaskTracker.SaveTasks` | src/main/kotlin/com/example/tasktracker/Main.kt:85-91 | The saved text is empty exactly when the list is empty, and otherwise ends with the terminator. `SaveTasksAppend` and `BuyMilkFile` pin down the layout. |
| `TaskTracker.EncodeLine` | src/main/kotlin/com/example/tasktracker/Main.kt:88 | A saved line is the description, one vertical bar, then the status text, which `toBoolean` reads back as the flag. It has a line break only where the description has one. |
| `TaskTracker.SaveTasksAppend` | src/main/kotlin/com/example/tasktracker/Main.kt:85-91 | Saving one more task appends that task's line followed by the terminator, so every line, the last one included, is terminated. |
| `TaskTracker.SaveLines` | src/main/kotlin/com/example/tasktracker/Main.kt:86-90 | When no description contains a line break, the saved text reads back as exactly one line per task, in list order: the description, a vertical bar, then `true` or `false`. |
| `TaskTracker.DecodeLine` | src/main/kotlin/com/example/tasktracker/Main.kt:75-80 | A line decodes exactly when it contains exactly one vertical bar. The description is the text before the vertical bar, and the flag is the text after it read with `toBoolean`. |
| `TaskTracker.LoadTasks` | src/main/kotlin/com/example/tasktracker/Main.kt:72-83 | A missing file leaves the list unchanged, which is empty at start-up. Otherwise decoded tasks are appended after the existing ones. |
| `TaskTracker.DecodeLines` | src/main/kotlin/com/example/tasktracker/Main.kt:74-81 | Loading a file keeps at most one task per line. |
| `TaskTracker.DecodeLinesKeep` | src/main/kotlin/com/example/tasktracker/Main.kt:74-81 | A line with exactly one vertical bar adds its task between the tasks of the lines before it and the tasks of the lines after it. |
| `TaskTracker.DecodeLinesSkip` | src/main/kotlin/com/example/tasktracker/Main.kt:74-81 | Any other line is skipped, and the lines around it decode as if it were absent. |
| `TaskTracker.DecodeEncodeLine` | src/main/kotlin/com/example/tasktracker/Main.kt:75-79 | A saved line decodes to its task when the description contains no vertical bar. |
| `TaskTracker.SaveLoadRoundTrip` | src/main/kotlin/com/example/tasktracker/Main.kt:72-91 | With LF or CR LF as terminator, loading the saved text into an empty list gives back the list, when no description contains a vertical bar, LF or CR. |
| `TaskTracker.LoadedTaskMayBeBlank` | src/main/kotlin/com/example/tasktracker/Main.kt:75-79 | The line `"|true"` loads as a done task with an empty description, which is not trimmed-and-not-blank. Loading does not keep what adding guarantees. |
| `TaskTracker.BuyMilkSession` | src/main/kotlin/com/example/tasktracker/Main.kt:37-70 | Adding `"buy milk"` to an empty list gives one open task, and marking number 1 makes it done. |
| `TaskTracker.BuyMilkListing` | src/main/kotlin/com/example/tasktracker/Main.kt:48-58 | That list prints as `"Tasks:"` then `"1. buy milk [Not done]"` before marking, and as `"Tasks:"` then `"1. buy milk [Done]"` after. |
| `TaskTracker.BuyMilkLines` | src/main/kotlin/com/example/tasktracker/Main.kt:54-55 | The session's task is viewed as `"1. buy milk [Not done]"` when open and as `"1. buy milk [Done]"` when done. |
| `TaskTracker.BuyMilkFile` | src/main/kotlin/com/example/tasktracker/Main.kt:85-91 | With LF as the terminator, the session's list is saved as `"buy milk|true"` followed by LF. |
| `TaskTracker.BuyMilkReload` | src/main/kotlin/com/example/tasktracker/Main.kt:72-91 | The marked list survives a save with LF followed by a load into a fresh list. |

## Left out

- File access (`File.exists`, `readLines`, `writeText`, `printWriter`) is left out. A file is its text, or `None` when it does not exist. Character decoding and encoding are not modelled.
- The platform line terminator that `println` writes is a parameter of `TaskTracker.SaveTasks`, limited to LF or CR LF.
- The `runCatching`/`onFailure` handlers around saving and loading in `Main.kt` are left out. They only print an I/O failure, and the model has no I/O.
- The interactive menu loops in both `main` functions, `readLine`, and the menu dispatch are left out. They are a console shell around the operations modelled here.
- The prompts (`"Enter task description: "`, `"Enter the number of the task to mark as done: "`) are left out because they are console output before input is read. The messages that report an outcome are modelled by the `Output` functions.
- `toIntOrNull` is left out. `TaskTracker.MarkTaskDone` takes the already-parsed number as `Option<int>`, and `TaskManager.MarkDone` takes an `int`.
- Text.IsWhitespace: covers only the ASCII part of Kotlin's `Char.isWhitespace` (TAB, LF, VT, FF, CR, U+001C to U+001F, SPACE). Other Unicode space characters are not treated as whitespace by `Trim` or `IsBlank`.
- Text.ToBoolean: folds case for ASCII letters only. This matches Kotlin on every input, because no non-ASCII character folds to a letter of `"true"`.
