/** The `TaskManager` version of the tracker: a task list with add, mark-done and
    listing, saved as one `"<isDone>;<description>"` line per task, the lines
    joined with LF and no terminator after the last one. */
module TaskManager {

  import opened Wrappers
  import opened Text
  import opened Lines
  import opened Tasks

  /** The listing of an empty task list. */
  const EmptyListing := "No tasks yet."

  /** Separates the status field from the description in a saved line. */
  const Delimiter := ';'

  /** What `addTask` and `markDone` print on success and on a bad position. */
  const TaskAdded := "Task added!"
  const TaskMarked := "Task marked as done!"
  const InvalidNumber := "Invalid task number."

  /** The status marks of the listing: a check mark and a ballot X. */
  const DoneMark := '\U{2713}'
  const OpenMark := '\U{2717}'

  /** `addTask`: a description that is not blank is trimmed and appended as an
      open task; a blank one leaves the list as it is. */
  function AddTask(tasks: seq<Task>, description: string): (r: seq<Task>)
    ensures !IsBlank(description) ==>
      |r| == |tasks| + 1 && r[..|tasks|] == tasks && r[|tasks|] == Task(Trim(description), false)
    ensures IsBlank(description) ==> r == tasks
  {
    if !IsBlank(description) then tasks + [Task(Trim(description), false)] else tasks
  }

  /** What `addTask` prints: the acknowledgement for a description that is not
      blank, nothing for a blank one. */
  function AddTaskOutput(description: string): (r: seq<string>)
    ensures r == [TaskAdded] <==> Trim(description) != []
    ensures r == [] <==> IsBlank(description)
  {
    if !IsBlank(description) then [TaskAdded] else []
  }

  /** The acknowledgement is printed exactly when a task was added. */
  lemma AddTaskReports(tasks: seq<Task>, description: string)
    ensures AddTaskOutput(description) == [TaskAdded] <==> |AddTask(tasks, description)| == |tasks| + 1
    ensures AddTaskOutput(description) == [] <==> AddTask(tasks, description) == tasks
  {
  }

  /** Adding keeps every description trimmed and not blank. */
  lemma AddTaskKeepsWellFormed(tasks: seq<Task>, description: string)
    requires AllWellFormed(tasks)
    ensures AllWellFormed(AddTask(tasks, description))
  {
    TrimIdempotent(description);
  }

  /** `markDone`: a 1-based position inside the list marks that task done and
      leaves everything else alone; any other position changes nothing. No
      flag is ever reset and no description ever changes. */
  function MarkDone(tasks: seq<Task>, position: int): (r: seq<Task>)
    ensures |r| == |tasks|
    ensures 1 <= position <= |tasks| ==>
      && r[position - 1] == Task(tasks[position - 1].description, true)
      && forall j :: 0 <= j < |r| && j != position - 1 ==> r[j] == tasks[j]
    ensures !(1 <= position <= |tasks|) ==> r == tasks
    ensures forall j :: 0 <= j < |r| ==>
      r[j].description == tasks[j].description && (tasks[j].isDone ==> r[j].isDone)
  {
    var index := position - 1;
    if 0 <= index < |tasks| then MarkAt(tasks, index) else tasks
  }

  /** What `markDone` prints: the acknowledgement exactly when the position
      names a task, the invalid-number message otherwise. */
  function MarkDoneOutput(tasks: seq<Task>, position: int): (r: string)
    ensures r == TaskMarked <==> 1 <= position <= |tasks|
    ensures r == TaskMarked || r == InvalidNumber
  {
    var index := position - 1;
    if 0 <= index < |tasks| then TaskMarked else InvalidNumber
  }

  /** The message tells the outcome apart even where the list does not: after
      the acknowledgement the named task is done, after the invalid-number
      message the list is unchanged. */
  lemma MarkDoneReports(tasks: seq<Task>, position: int)
    ensures MarkDoneOutput(tasks, position) == TaskMarked ==>
      1 <= position <= |tasks| && MarkDone(tasks, position)[position - 1].isDone
    ensures MarkDoneOutput(tasks, position) == InvalidNumber ==> MarkDone(tasks, position) == tasks
  {
  }

  /** Marking the same position twice is the same as marking it once. */
  lemma MarkDoneIdempotent(tasks: seq<Task>, position: int)
    ensures MarkDone(MarkDone(tasks, position), position) == MarkDone(tasks, position)
  {
  }

  /** Marking keeps every description trimmed and not blank. */
  lemma MarkDoneKeepsWellFormed(tasks: seq<Task>, position: int)
    requires AllWellFormed(tasks)
    ensures AllWellFormed(MarkDone(tasks, position))
  {
  }

  /** The listing line of the task at 0-based `index`: the 1-based position in
      decimal, a period, the status mark in brackets, then the description. */
  function ListingLine(index: nat, t: Task): (r: string)
    ensures var n := NatToString(index + 1);
      && |r| == |n| + 6 + |t.description|
      && r[..|n|] == n && '0' <= r[0] <= '9'
      && r[|n|..|n| + 3] == ". [" && r[|n| + 4..|n| + 6] == "] "
      && r[|n| + 3] == (if t.isDone then DoneMark else OpenMark)
      && r[|n| + 6..] == t.description
  {
    var n := NatToString(index + 1);
    var mark := if t.isDone then DoneMark else OpenMark;
    var r := n + ". [" + [mark] + "] " + t.description;
    assert r[..|n|] == n && r[0] == n[0];
    assert r[|n|..|n| + 3] == ". [" && r[|n| + 3] == mark;
    assert r[|n| + 4..|n| + 6] == "] " && r[|n| + 6..] == t.description;
    r
  }

  /** `listTasks`, as the lines it prints: the empty-list message alone, or one
      line per task in list order. */
  function ListTasks(tasks: seq<Task>): (r: seq<string>)
    ensures tasks == [] ==> r == [EmptyListing]
    ensures tasks != [] ==> |r| == |tasks| && forall i :: 0 <= i < |tasks| ==> r[i] == ListingLine(i, tasks[i])
  {
    if tasks == [] then [EmptyListing]
    else seq(|tasks|, i requires 0 <= i < |tasks| => ListingLine(i, tasks[i]))
  }

  /** A listing line determines its task. */
  lemma ListingLineInjective(index: nat, a: Task, b: Task)
    requires ListingLine(index, a) == ListingLine(index, b)
    ensures a == b
  {
    var p := NatToString(index + 1) + ". [";
    var la := ListingLine(index, a);
    var lb := ListingLine(index, b);
    assert la[|p|] == (if a.isDone then DoneMark else OpenMark);
    assert lb[|p|] == (if b.isDone then DoneMark else OpenMark);
    assert la[|p| + 3..] == a.description;
    assert lb[|p| + 3..] == b.description;
  }

  /** A listing line starts with a digit, so it never reads as the empty-list message. */
  lemma ListingLineIsNotEmptyListing(index: nat, t: Task)
    ensures ListingLine(index, t) != EmptyListing
  {
    assert ListingLine(index, t)[0] == NatToString(index + 1)[0];
  }

  /** The listing loses nothing: two task lists with the same listing are equal. */
  lemma ListTasksInjective(a: seq<Task>, b: seq<Task>)
    requires ListTasks(a) == ListTasks(b)
    ensures a == b
  {
    if a != [] {
      ListingLineIsNotEmptyListing(0, a[0]);
    }
    if b != [] {
      ListingLineIsNotEmptyListing(0, b[0]);
    }
    if a != [] && b != [] {
      forall i | 0 <= i < |a| ensures a[i] == b[i] {
        ListingLineInjective(i, a[i], b[i]);
      }
    }
  }

  /** The saved line of one task: status, delimiter, description. The first
      delimiter of the line separates the status text from the description,
      and the line has a line break only where the description has one. */
  function EncodeLine(t: Task): (r: string)
    ensures r != [] && Delimiter in r
    ensures var k := IndexOf(r, Delimiter); r[..k] == BoolText(t.isDone) && r[k + 1..] == t.description
    ensures HasNoLineBreak(t.description) ==> HasNoLineBreak(r)
  {
    var status := BoolText(t.isDone);
    assert Delimiter !in status;
    IndexOfAfterPiece(status, Delimiter, t.description);
    assert HasNoLineBreak(status + [Delimiter]);
    NoLineBreakConcat(status + [Delimiter], t.description);
    status + [Delimiter] + t.description
  }

  /** The saved lines of a list, one per task in list order. */
  function EncodeLines(tasks: seq<Task>): (r: seq<string>)
    ensures |r| == |tasks| && forall i :: 0 <= i < |tasks| ==> r[i] == EncodeLine(tasks[i])
  {
    seq(|tasks|, i requires 0 <= i < |tasks| => EncodeLine(tasks[i]))
  }

  /** `save`, as the text written to the file: the saved lines joined with LF.
      An empty list saves as empty text and only an empty list does. */
  function Save(tasks: seq<Task>): (r: string)
    ensures r == [] <==> tasks == []
  {
    var lines := EncodeLines(tasks);
    assert |lines| >= 2 ==> |Join(lines, "\n")| >= |lines[0]| + 1;
    Join(lines, "\n")
  }

  /** The file layout of `save`: with no line break in any description, a
      non-empty list is saved with one LF between neighbouring lines, none
      after the last line, and no CR anywhere. */
  lemma SaveLayout(tasks: seq<Task>)
    requires tasks != []
    requires forall i :: 0 <= i < |tasks| ==> HasNoLineBreak(tasks[i].description)
    ensures var s := Save(tasks);
      && Count(s, '\n') == |tasks| - 1
      && '\r' !in s
      && |s| >= 1 && !IsLineBreak(s[|s| - 1])
  {
    JoinedLayout(EncodeLines(tasks));
  }

  /** Saving one more task appends an LF and that task's line to the text. */
  lemma SaveAppend(tasks: seq<Task>, t: Task)
    requires tasks != []
    ensures Save(tasks + [t]) == Save(tasks) + "\n" + EncodeLine(t)
  {
    assert EncodeLines(tasks + [t]) == EncodeLines(tasks) + [EncodeLine(t)];
    JoinAppend(EncodeLines(tasks), EncodeLine(t), "\n");
  }

  /** The `load` line decoder: a line with exactly one delimiter gives the task
      whose description is what follows the delimiter and whose flag is what
      precedes it read with `toBoolean`; any other line gives nothing. */
  function DecodeLine(line: string): (r: Option<Task>)
    ensures r.Some? <==> Count(line, Delimiter) == 1
    ensures r.Some? ==> Delimiter in line
    ensures r.Some? ==>
      (var k := IndexOf(line, Delimiter); r.value == Task(line[k + 1..], ToBoolean(line[..k])))
  {
    var parts := Split(line, Delimiter);
    if |parts| == 2 then
      assert line == parts[0] + [Delimiter] + parts[1] by {
        assert parts[1..] == [parts[1]];
      }
      IndexOfAfterPiece(parts[0], Delimiter, parts[1]);
      Some(Task(parts[1], ToBoolean(parts[0])))
    else None
  }

  /** The tasks of the well-formed lines, in line order. */
  function DecodeLines(lines: seq<string>): (r: seq<Task>)
    ensures |r| <= |lines|
  {
    Collect(lines, DecodeLine)
  }

  /** `load`: a missing file leaves the list as it is; otherwise the tasks
      decoded from the file's lines are appended after the existing ones. */
  function Load(tasks: seq<Task>, file: Option<string>): (r: seq<Task>)
    ensures file.None? ==> r == tasks
    ensures |tasks| <= |r| && r[..|tasks|] == tasks
    ensures file.Some? ==> |r| <= |tasks| + |file.value|
  {
    match file
    case None => tasks
    case Some(text) => tasks + DecodeLines(ReadLines(text))
  }

  /** Lines are decoded independently: a block of lines decodes to the
      concatenation of what its parts decode to. */
  lemma DecodeLinesAppend(a: seq<string>, b: seq<string>)
    ensures DecodeLines(a + b) == DecodeLines(a) + DecodeLines(b)
  {
    CollectAppend(a, b, DecodeLine);
  }

  /** A line with exactly one delimiter contributes its task between the
      tasks of the lines before it and those of the lines after it. */
  lemma {:induction false} DecodeLinesKeep(before: seq<string>, line: string, after: seq<string>)
    requires Count(line, Delimiter) == 1
    ensures DecodeLines(before + [line] + after)
      == DecodeLines(before) + [DecodeLine(line).value] + DecodeLines(after)
  {
    CollectAround(before, line, after, DecodeLine);
  }

  /** Any other line is dropped without disturbing the lines around it. */
  lemma {:induction false} DecodeLinesSkip(before: seq<string>, line: string, after: seq<string>)
    requires Count(line, Delimiter) != 1
    ensures DecodeLines(before + [line] + after) == DecodeLines(before) + DecodeLines(after)
  {
    CollectAround(before, line, after, DecodeLine);
    assert Found(DecodeLine(line)) == [];
    assert DecodeLines(before) + [] == DecodeLines(before);
  }

  /** A saved line reads back as its task when the description has no delimiter. */
  lemma {:induction false} DecodeEncodeLine(t: Task)
    requires Delimiter !in t.description
    ensures DecodeLine(EncodeLine(t)) == Some(t)
  {
    var b := BoolText(t.isDone);
    assert Delimiter !in b;
    SplitAfterPiece(b, Delimiter, t.description);
    SplitNoDelimiter(t.description, Delimiter);
  }

  /** The file text holds exactly the saved lines, one per task, when no
      description holds a line break. */
  lemma {:induction false} SaveLines(tasks: seq<Task>)
    requires forall i :: 0 <= i < |tasks| ==> HasNoLineBreak(tasks[i].description)
    ensures ReadLines(Save(tasks)) == EncodeLines(tasks)
  {
    var lines := EncodeLines(tasks);
    assert forall i :: 0 <= i < |lines| ==> lines[i] == EncodeLine(tasks[i]);
    ReadJoined(lines);
  }

  /** Round trip: loading the saved text into an empty list gives back the
      list, when no description holds the delimiter or a line break. */
  lemma {:induction false} SaveLoadRoundTrip(tasks: seq<Task>)
    requires forall i :: 0 <= i < |tasks| ==>
      Delimiter !in tasks[i].description && HasNoLineBreak(tasks[i].description)
    ensures Load([], Some(Save(tasks))) == tasks
  {
    SaveLines(tasks);
    var lines := EncodeLines(tasks);
    forall i | 0 <= i < |lines| ensures DecodeLine(lines[i]) == Some(tasks[i]) {
      DecodeEncodeLine(tasks[i]);
    }
    CollectAll(lines, DecodeLine, tasks);
  }

  /** The side condition of the round trip is needed: a task whose description
      holds the delimiter is saved as a line with two delimiters, which loading
      skips, so the task is lost. */
  lemma {:induction false} DelimiterInDescriptionIsLost()
    ensures Load([], Some(Save([Task("a;b", false)]))) == []
  {
    var tasks := [Task("a;b", false)];
    var line := EncodeLine(tasks[0]);
    assert line == "false" + [Delimiter] + ("a" + [Delimiter] + "b");
    SplitAfterPiece("false", Delimiter, "a" + [Delimiter] + "b");
    SplitAfterPiece("a", Delimiter, "b");
    SplitNoDelimiter("b", Delimiter);
    assert DecodeLine(line) == None;
    var d := tasks[0].description;
    assert d[0] == 'a' && d[1] == Delimiter && d[2] == 'b';
    assert HasNoLineBreak(d);
    SaveLines(tasks);
    CollectOne(line, DecodeLine);
  }

  /** Loading does not re-establish what adding guarantees: a line with an
      empty description loads as a task with a blank description. */
  lemma LoadedTaskMayBeBlank()
    ensures DecodeLine("true;") == Some(Task("", true))
    ensures !IsWellFormed(Task("", true))
  {
    var line := "true;";
    assert line == "true" + [Delimiter] + "";
    assert Delimiter !in "true";
    SplitAfterPiece("true", Delimiter, "");
  }

  /** A session, first half: add "buy milk" to an empty list, then mark position 1. */
  lemma BuyMilkSession()
    ensures AddTask([], "buy milk") == [Task("buy milk", false)]
    ensures MarkDone([Task("buy milk", false)], 1) == [Task("buy milk", true)]
  {
    var text := "buy milk";
    assert text[0] == 'b' && text[|text| - 1] == 'k';
    assert !IsBlank(text);
    TrimOfTrimmed(text);
  }

  /** The listings of that session, before and after marking. */
  lemma BuyMilkListing()
    ensures ListTasks([Task("buy milk", false)]) == ["1. [\U{2717}] buy milk"]
    ensures ListTasks([Task("buy milk", true)]) == ["1. [\U{2713}] buy milk"]
  {
    var p := NatToString(1) + ". [";
    assert NatToString(1) == "1";
    assert p == "1. [";
    assert p + [OpenMark] + "] " + "buy milk" == "1. [\U{2717}] buy milk";
    assert p + [DoneMark] + "] " + "buy milk" == "1. [\U{2713}] buy milk";
    var open := ListTasks([Task("buy milk", false)]);
    assert |open| == 1 && open[0] == "1. [\U{2717}] buy milk";
    var done := ListTasks([Task("buy milk", true)]);
    assert |done| == 1 && done[0] == "1. [\U{2713}] buy milk";
  }

  /** The file the session saves: one line, status first, no terminator. */
  lemma BuyMilkFile()
    ensures Save([Task("buy milk", true)]) == "true;buy milk"
  {
    var t := Task("buy milk", true);
    var lines := EncodeLines([t]);
    assert |lines| == 1 && lines[0] == EncodeLine(t);
    assert EncodeLine(t) == "true;buy milk";
  }

  /** The session's list survives a save and a load into a fresh list. */
  lemma {:induction false} BuyMilkReload()
    ensures Load([], Some(Save([Task("buy milk", true)]))) == [Task("buy milk", true)]
  {
    var text := "buy milk";
    assert Delimiter !in text && HasNoLineBreak(text);
    SaveLoadRoundTrip([Task(text, true)]);
  }
}
