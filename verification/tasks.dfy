/** The task record both versions of the tracker share, the point update that
    marks one task done, and the filtering decoder both loaders are built on. */
module Tasks {

  import opened Wrappers
  import opened Text

  /** A task: its text and whether it has been completed. */
  datatype Task = Task(description: string, isDone: bool)

  /** What adding a task guarantees of its description: not blank, already trimmed. */
  predicate IsWellFormed(t: Task) {
    !IsBlank(t.description) && Trim(t.description) == t.description
  }

  predicate AllWellFormed(tasks: seq<Task>) {
    forall i :: 0 <= i < |tasks| ==> IsWellFormed(tasks[i])
  }

  /** Sets the done flag of the task at 0-based `index`; every other task, the
      length and the marked task's description stay as they were. */
  function MarkAt(tasks: seq<Task>, index: nat): (r: seq<Task>)
    requires index < |tasks|
    ensures |r| == |tasks|
    ensures r[index].isDone && r[index].description == tasks[index].description
    ensures forall j :: 0 <= j < |r| && j != index ==> r[j] == tasks[j]
  {
    tasks[index := tasks[index].(isDone := true)]
  }

  /** Decodes every line with `decode` and keeps the tasks of the lines that
      decode, in line order; the other lines are skipped. There are no more
      tasks than lines, and none when no line decodes. */
  function Collect(lines: seq<string>, decode: string -> Option<Task>): (r: seq<Task>)
    ensures |r| <= |lines|
    ensures (forall i :: 0 <= i < |lines| ==> decode(lines[i]).None?) ==> r == []
    decreases |lines|
  {
    if lines == [] then []
    else
      Found(decode(lines[0])) + Collect(lines[1..], decode)
  }

  /** The task a decoded line contributes: its own, or none. */
  function Found(o: Option<Task>): (r: seq<Task>)
    ensures |r| <= 1
  {
    match o
    case Some(t) => [t]
    case None => []
  }

  /** Each line is decoded on its own: decoding a concatenation of two blocks
      of lines concatenates their results. */
  lemma {:induction false} CollectAppend(a: seq<string>, b: seq<string>, decode: string -> Option<Task>)
    ensures Collect(a + b, decode) == Collect(a, decode) + Collect(b, decode)
    decreases |a|
  {
    if a == [] {
      assert a + b == b;
    } else {
      CollectAppend(a[1..], b, decode);
      assert (a + b)[0] == a[0];
      assert (a + b)[1..] == a[1..] + b;
    }
  }

  /** One line yields its task when it decodes and nothing otherwise. */
  lemma CollectOne(line: string, decode: string -> Option<Task>)
    ensures decode(line).Some? ==> Collect([line], decode) == [decode(line).value]
    ensures decode(line).None? ==> Collect([line], decode) == []
  {
    assert [line][1..] == [];
  }

  /** A line contributes its own task, or nothing, between what the lines
      before it and the lines after it contribute. */
  lemma CollectAround(before: seq<string>, line: string, after: seq<string>, decode: string -> Option<Task>)
    ensures Collect(before + [line] + after, decode)
      == Collect(before, decode) + Found(decode(line)) + Collect(after, decode)
  {
    CollectAppend(before + [line], after, decode);
    CollectAppend(before, [line], decode);
    assert [line][1..] == [];
  }

  /** When every line decodes, the result holds their tasks in line order. */
  lemma {:induction false} CollectAll(lines: seq<string>, decode: string -> Option<Task>, tasks: seq<Task>)
    requires |lines| == |tasks|
    requires forall i :: 0 <= i < |lines| ==> decode(lines[i]) == Some(tasks[i])
    ensures Collect(lines, decode) == tasks
    decreases |lines|
  {
    if lines != [] {
      CollectAll(lines[1..], decode, tasks[1..]);
      assert [tasks[0]] + tasks[1..] == tasks;
    }
  }
}
