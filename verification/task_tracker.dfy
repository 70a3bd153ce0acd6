/** The `com.example.tasktracker` version of the tracker: the same task list
    driven by top-level functions, saved as one `"<description>|<isDone>"` line
    per task, every line followed by the platform line terminator. */
module TaskTracker {

  import opened Wrappers
  import opened Text
  import opened Lines
  import opened Tasks
  import TaskManager

  /** The listing of an empty task list. */
  const EmptyListing := "No tasks to show."

  /** The header line above a non-empty listing. */
  const ListingHeader := "Tasks:"

  /** Separates the description from the status field in a saved line. */
  const Delimiter := '|'

  /** What `addTask` and `markTaskDone` print. */
  const TaskAdded := "Task added."
  const EmptyDescription := "Task description cannot be empty."
  const TaskMarked := "Task marked as done."
  const InvalidNumber := "Invalid task number."

  /** `addTask`, with the console line as input: a line that is present and not
      empty once trimmed is appended, trimmed, as an open task; a missing line
      or a blank one leaves the list as it is. */
  function AddTask(tasks: seq<Task>, input: Option<string>): (r: seq<Task>)
    ensures input.Some? && !IsBlank(input.value) ==>
      |r| == |tasks| + 1 && r[..|tasks|] == tasks && r[|tasks|] == Task(Trim(input.value), false)
    ensures input.None? || IsBlank(input.value) ==> r == tasks
  {
    var description := match input case Some(s) => Some(Trim(s)) case None => None;
    if description.Some? && description.value != [] then tasks + [Task(description.value, false)]
    else tasks
  }

  /** What `addTask` prints: the acknowledgement when the line is present and
      not blank, the empty-description message otherwise. */
  function AddTaskOutput(input: Option<string>): (r: string)
    ensures r == TaskAdded <==> input.Some? && !IsBlank(input.value)
    ensures r == TaskAdded || r == EmptyDescription
  {
    var description := match input case Some(s) => Some(Trim(s)) case None => None;
    if description.Some? && description.value != [] then TaskAdded else EmptyDescription
  }

  /** The acknowledgement is printed exactly when a task was added, and the
      empty-description message exactly when the list is left as it was. */
  lemma AddTaskReports(tasks: seq<Task>, input: Option<string>)
    ensures AddTaskOutput(input) == TaskAdded <==> |AddTask(tasks, input)| == |tasks| + 1
    ensures AddTaskOutput(input) == EmptyDescription <==> AddTask(tasks, input) == tasks
  {
  }

  /** `markTaskDone`, with the parsed number as input: a number in `1..|tasks|`
      marks that task done and leaves everything else alone; a missing number
      or one out of range changes nothing. No flag is ever reset and no
      description ever changes. */
  function MarkTaskDone(tasks: seq<Task>, number: Option<int>): (r: seq<Task>)
    ensures |r| == |tasks|
    ensures number.Some? && 1 <= number.value <= |tasks| ==>
      && r[number.value - 1] == Task(tasks[number.value - 1].description, true)
      && forall j :: 0 <= j < |r| && j != number.value - 1 ==> r[j] == tasks[j]
    ensures number.None? || !(1 <= number.value <= |tasks|) ==> r == tasks
    ensures forall j :: 0 <= j < |r| ==>
      r[j].description == tasks[j].description && (tasks[j].isDone ==> r[j].isDone)
  {
    if number.Some? && 1 <= number.value <= |tasks| then MarkAt(tasks, number.value - 1)
    else tasks
  }

  /** What `markTaskDone` prints: the acknowledgement exactly when a number
      was given and names a task, the invalid-number message otherwise. */
  function MarkTaskDoneOutput(tasks: seq<Task>, number: Option<int>): (r: string)
    ensures r == TaskMarked <==> number.Some? && 1 <= number.value <= |tasks|
    ensures r == TaskMarked || r == InvalidNumber
  {
    if number.Some? && 1 <= number.value <= |tasks| then TaskMarked else InvalidNumber
  }

  /** The message tells the outcome apart even where the list does not: after
      the acknowledgement the named task is done, after the invalid-number
      message the list is unchanged. */
  lemma MarkTaskDoneReports(tasks: seq<Task>, number: Option<int>)
    ensures MarkTaskDoneOutput(tasks, number) == TaskMarked ==>
      number.Some? && 1 <= number.value <= |tasks| && MarkTaskDone(tasks, number)[number.value - 1].isDone
    ensures MarkTaskDoneOutput(tasks, number) == InvalidNumber ==> MarkTaskDone(tasks, number) == tasks
  {
  }

  /** Both versions report alike: for a parsed number this version acknowledges
      exactly when `TaskManager.markDone` acknowledges the same position. */
  lemma MarkTaskDoneReportsAgree(tasks: seq<Task>, n: int)
    ensures MarkTaskDoneOutput(tasks, Some(n)) == TaskMarked
      <==> TaskManager.MarkDoneOutput(tasks, n) == TaskManager.TaskMarked
  {
  }

  /** Marking the same number twice is the same as marking it once. */
  lemma MarkTaskDoneIdempotent(tasks: seq<Task>, number: Option<int>)
    ensures MarkTaskDone(MarkTaskDone(tasks, number), number) == MarkTaskDone(tasks, number)
  {
  }

  /** Adding keeps every description trimmed and not blank. */
  lemma AddTaskKeepsWellFormed(tasks: seq<Task>, input: Option<string>)
    requires AllWellFormed(tasks)
    ensures AllWellFormed(AddTask(tasks, input))
  {
    if input.Some? {
      TrimIdempotent(input.value);
    }
  }

  /** Both versions add alike: a present console line is added here exactly
      as `TaskManager.addTask` adds the same text (checking for blank text
      there is the same as checking for empty trimmed text here). */
  lemma AddTaskAgrees(tasks: seq<Task>, description: string)
    ensures AddTask(tasks, Some(description)) == TaskManager.AddTask(tasks, description)
  {
  }

  /** Both versions mark alike: a parsed number is marked here exactly as
      `TaskManager.markDone` marks the same position. */
  lemma MarkTaskDoneAgrees(tasks: seq<Task>, n: int)
    ensures MarkTaskDone(tasks, Some(n)) == TaskManager.MarkDone(tasks, n)
  {
  }

  /** The listing line of the task at 0-based `index`: the 1-based position in
      decimal and a period, the description, then the status in brackets. */
  function ViewLine(index: nat, t: Task): (r: string)
    ensures |t.description| + 10 <= |r| && '0' <= r[0] <= '9'
    ensures r[|r| - 1] == ']' && (r[|r| - 5] == 'D' <==> t.isDone)
    ensures var n := NatToString(index + 1); var k := |n| + 2 + |t.description|;
      && k <= |r| && r[..|n|] == n && r[|n|..|n| + 2] == ". "
      && r[|n| + 2..k] == t.description && r[k..] == StatusSuffix(t.isDone)
  {
    NatToString(index + 1) + ". " + t.description + StatusSuffix(t.isDone)
  }

  /** The status at the end of a listing line: a space and the status in
      brackets, whose fifth character from the end is `D` only for a done task. */
  function StatusSuffix(done: bool): (r: string)
    ensures 7 <= |r| && r[..2] == " [" && r[|r| - 1] == ']'
    ensures r[|r| - 5] == 'D' <==> done
  {
    if done then " [Done]" else " [Not done]"
  }

  /** `viewTasks`, as the lines it prints: the empty-list message alone, or the
      header followed by one line per task in list order. */
  function ViewTasks(tasks: seq<Task>): (r: seq<string>)
    ensures tasks == [] ==> r == [EmptyListing]
    ensures tasks != [] ==>
      && |r| == |tasks| + 1
      && r[0] == ListingHeader
      && forall i :: 0 <= i < |tasks| ==> r[i + 1] == ViewLine(i, tasks[i])
  {
    if tasks == [] then [EmptyListing]
    else [ListingHeader] + seq(|tasks|, i requires 0 <= i < |tasks| => ViewLine(i, tasks[i]))
  }

  /** A listing line determines its task: the fifth character from the end is
      `D` exactly for a done task, and the description sits between the
      position and the status. */
  lemma ViewLineInjective(index: nat, a: Task, b: Task)
    requires ViewLine(index, a) == ViewLine(index, b)
    ensures a == b
  {
    var p := NatToString(index + 1) + ". ";
    var line := ViewLine(index, a);
    var suffix := StatusSuffix(a.isDone);
    assert a.isDone == b.isDone;
    assert line == p + a.description + suffix;
    assert line == p + b.description + suffix;
    assert line[|p|..|line| - |suffix|] == a.description;
  }

  /** The listing loses nothing: two task lists with the same listing are equal. */
  lemma ViewTasksInjective(a: seq<Task>, b: seq<Task>)
    requires ViewTasks(a) == ViewTasks(b)
    ensures a == b
  {
    if a != [] && b != [] {
      forall i | 0 <= i < |a| ensures a[i] == b[i] {
        assert ViewTasks(a)[i + 1] == ViewTasks(b)[i + 1];
        ViewLineInjective(i, a[i], b[i]);
      }
    }
  }

  /** The saved line of one task: the description, one delimiter, then the
      status text, which `toBoolean` reads back as the flag; the line has a
      line break only where the description has one. */
  function EncodeLine(t: Task): (r: string)
    ensures var n := |t.description|;
      && n < |r| && r[..n] == t.description && r[n] == Delimiter
      && r[n + 1..] == BoolText(t.isDone)
    ensures HasNoLineBreak(t.description) ==> HasNoLineBreak(r)
  {
    var status := BoolText(t.isDone);
    var r := t.description + [Delimiter] + status;
    assert r[|t.description| + 1..] == status;
    assert HasNoLineBreak([Delimiter] + status);
    NoLineBreakConcat(t.description, [Delimiter] + status);
    assert r == t.description + ([Delimiter] + status);
    r
  }

  /** The saved lines of a list, one per task in list order. */
  function EncodeLines(tasks: seq<Task>): (r: seq<string>)
    ensures |r| == |tasks| && forall i :: 0 <= i < |tasks| ==> r[i] == EncodeLine(tasks[i])
  {
    seq(|tasks|, i requires 0 <= i < |tasks| => EncodeLine(tasks[i]))
  }

  /** `saveTasks`, as the text written to the file: every saved line followed by
      the platform's line terminator. An empty list saves as empty text and
      only an empty list does; any other list saves as text that ends with the
      terminator. */
  function SaveTasks(tasks: seq<Task>, newline: string): (r: string)
    requires IsNewline(newline)
    ensures r == [] <==> tasks == []
    ensures tasks != [] ==> |newline| <= |r| && r[|r| - |newline|..] == newline
  {
    Terminate(EncodeLines(tasks), newline)
  }

  /** Saving one more task appends that task's line and a terminator to the
      text, so every saved line, the last one included, is terminated. */
  lemma SaveTasksAppend(tasks: seq<Task>, t: Task, newline: string)
    requires IsNewline(newline)
    ensures SaveTasks(tasks + [t], newline) == SaveTasks(tasks, newline) + EncodeLine(t) + newline
  {
    assert EncodeLines(tasks + [t]) == EncodeLines(tasks) + [EncodeLine(t)];
    TerminateAppend(EncodeLines(tasks), EncodeLine(t), newline);
  }

  /** The `loadTasks` line decoder: a line with exactly one delimiter gives the
      task whose description is what precedes the delimiter and whose flag is
      what follows it read with `toBoolean`; any other line gives nothing. */
  function DecodeLine(line: string): (r: Option<Task>)
    ensures r.Some? <==> Count(line, Delimiter) == 1
    ensures r.Some? ==> Delimiter in line
    ensures r.Some? ==>
      (var k := IndexOf(line, Delimiter); r.value == Task(line[..k], ToBoolean(line[k + 1..])))
  {
    var parts := Split(line, Delimiter);
    if |parts| == 2 then
      assert line == parts[0] + [Delimiter] + parts[1] by {
        assert parts[1..] == [parts[1]];
      }
      IndexOfAfterPiece(parts[0], Delimiter, parts[1]);
      Some(Task(parts[0], ToBoolean(parts[1])))
    else None
  }

  /** The tasks of the well-formed lines, in line order. */
  function DecodeLines(lines: seq<string>): (r: seq<Task>)
    ensures |r| <= |lines|
  {
    Collect(lines, DecodeLine)
  }

  /** `loadTasks`: a missing file leaves the list as it is (empty at start-up);
      otherwise the tasks decoded from the file's lines are appended. */
  function LoadTasks(tasks: seq<Task>, file: Option<string>): (r: seq<Task>)
    ensures file.None? ==> r == tasks
    ensures |tasks| <= |r| && r[..|tasks|] == tasks
    ensures file.Some? ==> |r| <= |tasks| + |file.value|
  {
    match file
    case None => tasks
    case Some(text) => tasks + DecodeLines(ReadLines(text))
  }

  /** A line with exactly one delimiter contributes its task between the
      tasks of the lines before it and those of the lines after it. */
  lemma {:induction false} DecodeLinesKeep(before: seq<string>, line: string, after: seq<string>)
    requires Count(line, Delimiter) == 1
    ensures DecodeLines(before + [line] + after)
      == DecodeLines(before) + [DecodeLine(line).value] + DecodeLines(after)
  {
    CollectAround(before, line, after, DecodeLine);
  }

  /** Any other line is dropped without disturbing the lines around it. */
  lemma {:induction false} DecodeLinesSkip(before: seq<string>, line: string, after: seq<string>)
    requires Count(line, Delimiter) != 1
    ensures DecodeLines(before + [line] + after) == DecodeLines(before) + DecodeLines(after)
  {
    CollectAround(before, line, after, DecodeLine);
    assert Found(DecodeLine(line)) == [];
    assert DecodeLines(before) + [] == DecodeLines(before);
  }

  /** A saved line reads back as its task when the description has no delimiter. */
  lemma {:induction false} DecodeEncodeLine(t: Task)
    requires Delimiter !in t.description
    ensures DecodeLine(EncodeLine(t)) == Some(t)
  {
    var b := BoolText(t.isDone);
    assert Delimiter !in b;
    SplitAfterPiece(t.description, Delimiter, b);
    SplitNoDelimiter(b, Delimiter);
  }

  /** The file text holds exactly the saved lines, one per task, when no
      description holds a line break. */
  lemma {:induction false} SaveLines(tasks: seq<Task>, newline: string)
    requires IsNewline(newline)
    requires forall i :: 0 <= i < |tasks| ==> HasNoLineBreak(tasks[i].description)
    ensures ReadLines(SaveTasks(tasks, newline)) == EncodeLines(tasks)
  {
    var lines := EncodeLines(tasks);
    assert forall i :: 0 <= i < |lines| ==> lines[i] == EncodeLine(tasks[i]);
    ReadTerminated(lines, newline);
  }

  /** Round trip: loading the saved text into an empty list gives back the
      list, when no description holds the delimiter or a line break. */
  lemma {:induction false} SaveLoadRoundTrip(tasks: seq<Task>, newline: string)
    requires IsNewline(newline)
    requires forall i :: 0 <= i < |tasks| ==>
      Delimiter !in tasks[i].description && HasNoLineBreak(tasks[i].description)
    ensures LoadTasks([], Some(SaveTasks(tasks, newline))) == tasks
  {
    SaveLines(tasks, newline);
    var lines := EncodeLines(tasks);
    forall i | 0 <= i < |lines| ensures DecodeLine(lines[i]) == Some(tasks[i]) {
      DecodeEncodeLine(tasks[i]);
    }
    CollectAll(lines, DecodeLine, tasks);
  }

  /** Loading does not re-establish what adding guarantees: a line with an
      empty description loads as a task with a blank description. */
  lemma LoadedTaskMayBeBlank()
    ensures DecodeLine("|true") == Some(Task("", true))
    ensures !IsWellFormed(Task("", true))
  {
    DecodeEncodeLine(Task("", true));
    assert EncodeLine(Task("", true)) == "|true";
  }

  /** A session, first half: add "buy milk" to an empty list, then mark number 1. */
  lemma {:induction false} BuyMilkSession()
    ensures AddTask([], Some("buy milk")) == [Task("buy milk", false)]
    ensures MarkTaskDone([Task("buy milk", false)], Some(1)) == [Task("buy milk", true)]
  {
    var text := "buy milk";
    assert text[0] == 'b' && text[|text| - 1] == 'k';
    assert !IsBlank(text);
    TrimOfTrimmed(text);
  }

  /** The listing lines of the session's task, open and done. */
  lemma BuyMilkLines()
    ensures ViewLine(0, Task("buy milk", false)) == "1. buy milk [Not done]"
    ensures ViewLine(0, Task("buy milk", true)) == "1. buy milk [Done]"
  {
    var p := NatToString(1) + ". " + "buy milk";
    assert NatToString(1) == "1";
    assert p == "1. buy milk";
    assert p + StatusSuffix(false) == "1. buy milk [Not done]";
    assert p + StatusSuffix(true) == "1. buy milk [Done]";
  }

  /** The listings of that session, before and after marking. */
  lemma BuyMilkListing()
    ensures ViewTasks([Task("buy milk", false)]) == ["Tasks:", "1. buy milk [Not done]"]
    ensures ViewTasks([Task("buy milk", true)]) == ["Tasks:", "1. buy milk [Done]"]
  {
    BuyMilkLines();
    var open := ViewTasks([Task("buy milk", false)]);
    assert |open| == 2 && open[0] == ListingHeader && open[1] == "1. buy milk [Not done]";
    var done := ViewTasks([Task("buy milk", true)]);
    assert |done| == 2 && done[0] == ListingHeader && done[1] == "1. buy milk [Done]";
  }

  /** The file the session saves with LF: one line, description first, LF after it. */
  lemma BuyMilkFile()
    ensures SaveTasks([Task("buy milk", true)], "\n") == "buy milk|true\n"
  {
    var t := Task("buy milk", true);
    SaveTasksAppend([], t, "\n");
    assert [] + [t] == [t];
    assert EncodeLine(t) == "buy milk|true";
  }

  /** The session's list survives a save with LF and a load into a fresh list. */
  lemma {:induction false} BuyMilkReload()
    ensures LoadTasks([], Some(SaveTasks([Task("buy milk", true)], "\n"))) == [Task("buy milk", true)]
  {
    var text := "buy milk";
    assert Delimiter !in text && HasNoLineBreak(text);
    SaveLoadRoundTrip([Task(text, true)], "\n");
  }
}
