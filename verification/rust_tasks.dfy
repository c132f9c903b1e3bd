/** The Rust to-do list (rust/todo_app/src/tasks.rs): a task is a
    description and a completion flag; the manager keeps them in a vector,
    lists them, and saves them to and loads them from a text file with one
    `description|flag` line per task.

    The file is its text: saving returns the text written, or None when the
    file cannot be created; loading takes the file's text, or None when it
    cannot be opened. */
module RustTasks {
  import opened Text
  import opened Seqs

  /** `Task`: `PartialEq` is derived, so two tasks are equal exactly when
      both fields are. */
  datatype Task = Task(description: string, completed: bool)

  /** `Task::new`: a fresh task is not completed. */
  function NewTask(description: string): (t: Task)
    ensures t.description == description && !t.completed
  {
    Task(description, false)
  }

  // ---------------------------------------------------------------------
  // Listing

  /** One entry of `list_tasks`: `[x] ` or `[ ] `, then the description. */
  function Listed(t: Task): string
  {
    (if t.completed then "[x] " else "[ ] ") + t.description
  }

  /** An entry can be read back: its fifth character onwards is the
      description, its second character is `x` when the task is completed and
      a space otherwise, and the brackets and a space frame it. */
  lemma ListedDecodes(t: Task)
    ensures |Listed(t)| == |t.description| + 4
    ensures Listed(t)[4..] == t.description
    ensures Listed(t)[1] == if t.completed then 'x' else ' '
    ensures Listed(t)[0] == '[' && Listed(t)[2] == ']' && Listed(t)[3] == ' '
  {
    var mark := if t.completed then "[x] " else "[ ] ";
    assert Listed(t) == mark + t.description;
    assert Listed(t)[..4] == mark;
  }

  /** Different tasks are listed differently. */
  lemma ListedInjective(t: Task, u: Task)
    requires Listed(t) == Listed(u)
    ensures t == u
  {
    ListedDecodes(t);
    ListedDecodes(u);
  }

  // ---------------------------------------------------------------------
  // The file format

  /** How `{}` displays a bool. */
  function BoolText(b: bool): string
  {
    if b then "true" else "false"
  }

  /** The line `save_tasks` writes for a task, without its line break. */
  function SaveLine(t: Task): string
  {
    t.description + "|" + BoolText(t.completed)
  }

  /** The lines `save_tasks` writes, one per task, in order. */
  function SavedLines(ts: seq<Task>): (lines: seq<string>)
    ensures |lines| == |ts|
  {
    seq(|ts|, k requires 0 <= k < |ts| => SaveLine(ts[k]))
  }

  /** A line read back: split at `|`, and a task only when there are exactly
      two parts. */
  function ParseLine(line: string): (r: Option<Task>)
    ensures r.Some? ==> '|' !in r.value.description && |r.value.description| < |line|
  {
    SplitMeaning(line, '|');
    var parts := Split(line, '|');
    assert |parts| == 2 ==> JoinWith(parts, '|') == parts[0] + "|" + parts[1];
    if |parts| == 2 then Some(Task(parts[0], parts[1] == "true")) else None
  }

  /** A line yields a task exactly when it holds exactly one `|`; the
      description is the text before it, and the task is completed exactly
      when the text after it is `true`. */
  lemma ParseLineMeaning(line: string)
    ensures var r := ParseLine(line);
      && (r.Some? <==> multiset(line)['|'] == 1)
      && (r.Some? ==>
            var d := r.value.description;
            && '|' !in d && |d| < |line| && line[..|d|] == d && line[|d|] == '|'
            && (r.value.completed <==> line[|d| + 1..] == "true"))
  {
    var parts := Split(line, '|');
    SplitMeaning(line, '|');
    if |parts| == 2 {
      assert JoinWith(parts, '|') == parts[0] + "|" + parts[1];
      assert (parts[0] + "|" + parts[1])[..|parts[0]|] == parts[0];
      assert (parts[0] + "|" + parts[1])[|parts[0]| + 1..] == parts[1];
    }
  }

  /** Strips the carriage return of a CRLF line ending. */
  function DropCarriageReturn(line: string): string
  {
    if line != [] && line[|line| - 1] == '\r' then line[..|line| - 1] else line
  }

  predicate EndsWithBreak(text: string)
  {
    text != [] && text[|text| - 1] == '\n'
  }

  /** `BufRead::lines`: the text split at line breaks, a final break not
      starting another line, and a carriage return dropped from the end of a
      line only when a line break follows it. No line read holds a break,
      and each is the text's line or that line less a final carriage
      return. */
  function ReadLines(text: string): (lines: seq<string>)
    ensures |lines| == |Lines(text)|
    ensures forall k :: 0 <= k < |lines| ==> '\n' !in lines[k]
    ensures forall k :: 0 <= k < |lines| ==>
              lines[k] == Lines(text)[k] || lines[k] + "\r" == Lines(text)[k]
  {
    var ls := Lines(text);
    seq(|ls|, k requires 0 <= k < |ls| =>
      if k < |ls| - 1 || EndsWithBreak(text) then DropCarriageReturn(ls[k]) else ls[k])
  }

  /** Lines written each with its own break read back unchanged, provided
      none holds a break or ends in a carriage return. */
  lemma ReadLinesOfUnlines(ls: seq<string>)
    requires forall k :: 0 <= k < |ls| ==> '\n' !in ls[k] && (ls[k] == [] || ls[k][|ls[k]| - 1] != '\r')
    ensures ReadLines(Unlines(ls)) == ls
  {
    LinesOfUnlines(ls);
  }

  /** Lines written with CRLF endings read back without the carriage
      returns. */
  lemma ReadLinesOfCrlf(ls: seq<string>)
    requires forall k :: 0 <= k < |ls| ==> '\n' !in ls[k]
    ensures ReadLines(Unlines(seq(|ls|, k requires 0 <= k < |ls| => ls[k] + "\r"))) == ls
  {
    var crlf := seq(|ls|, k requires 0 <= k < |ls| => ls[k] + "\r");
    forall k | 0 <= k < |crlf|
      ensures '\n' !in crlf[k] && DropCarriageReturn(crlf[k]) == ls[k]
    {
      DropAddedCarriageReturn(ls[k]);
    }
    LinesOfUnlines(crlf);
    if ls != [] {
      UnlinesEnd(crlf);
    }
  }

  lemma DropAddedCarriageReturn(line: string)
    requires '\n' !in line
    ensures '\n' !in line + "\r" && DropCarriageReturn(line + "\r") == line
  {
    assert (line + "\r")[..|line|] == line;
  }

  /** The tasks `load_tasks` collects from the lines read: one per line that
      parses, in order; the other lines are dropped. */
  function LoadedTasks(lines: seq<string>): (ts: seq<Task>)
    ensures |ts| <= |lines|
  {
    if lines == [] then []
    else
      var rest := LoadedTasks(lines[..|lines| - 1]);
      match ParseLine(lines[|lines| - 1])
      case Some(t) => rest + [t]
      case None => rest
  }

  /** When every line parses, each line gives exactly one task, at its own
      position. */
  lemma {:induction false} LoadedAllParse(lines: seq<string>)
    requires forall k :: 0 <= k < |lines| ==> ParseLine(lines[k]).Some?
    ensures |LoadedTasks(lines)| == |lines|
    ensures forall k :: 0 <= k < |lines| ==> LoadedTasks(lines)[k] == ParseLine(lines[k]).value
    decreases |lines|
  {
    if lines != [] {
      var n := |lines|;
      var init := lines[..n - 1];
      LoadedAllParse(init);
      assert LoadedTasks(lines) == LoadedTasks(init) + [ParseLine(lines[n - 1]).value];
      forall k | 0 <= k < n - 1
        ensures LoadedTasks(lines)[k] == ParseLine(lines[k]).value
      {
        assert init[k] == lines[k];
      }
    }
  }

  /** A line holding no `|` and a line holding two or more are dropped. */
  lemma DroppedLines(lines: seq<string>, line: string)
    requires multiset(line)['|'] != 1
    ensures LoadedTasks(lines + [line]) == LoadedTasks(lines)
  {
    ParseLineMeaning(line);
    assert (lines + [line])[..|lines|] == lines;
  }

  /** A saved line parses back to its task when the description holds no
      `|`. */
  lemma ParseSaveLine(t: Task)
    requires '|' !in t.description
    ensures ParseLine(SaveLine(t)) == Some(t)
  {
    var flag := BoolText(t.completed);
    assert '|' !in flag;
    SplitAtFirst(t.description, flag, '|');
    SplitWithout(flag, '|');
    assert SaveLine(t) == t.description + ['|'] + flag;
  }

  /** A saved line never ends with a carriage return. */
  lemma SaveLineKeepsEnd(t: Task)
    ensures SaveLine(t) != [] && SaveLine(t)[|SaveLine(t)| - 1] != '\r'
    ensures DropCarriageReturn(SaveLine(t)) == SaveLine(t)
  {
    var flag := BoolText(t.completed);
    assert SaveLine(t)[|SaveLine(t)| - 1] == flag[|flag| - 1];
  }

  /** Saving then loading restores the task list, provided no description
      holds a `|` or a line break. */
  lemma SaveLoadRoundTrip(ts: seq<Task>)
    requires forall k :: 0 <= k < |ts| ==> '|' !in ts[k].description && '\n' !in ts[k].description
    ensures LoadedTasks(ReadLines(Unlines(SavedLines(ts)))) == ts
  {
    var lines := SavedLines(ts);
    forall k | 0 <= k < |lines|
      ensures '\n' !in lines[k]
    {
      assert '\n' !in BoolText(ts[k].completed);
    }
    forall k | 0 <= k < |lines|
      ensures lines[k] == [] || lines[k][|lines[k]| - 1] != '\r'
    {
      SaveLineKeepsEnd(ts[k]);
    }
    ReadLinesOfUnlines(lines);
    forall k | 0 <= k < |lines|
      ensures ParseLine(lines[k]) == Some(ts[k])
    {
      ParseSaveLine(ts[k]);
    }
    LoadedAllParse(lines);
  }

  // ---------------------------------------------------------------------
  // The manager

  /** `TaskManager`: the task vector, updated in place. */
  class TaskManager {
    var tasks: seq<Task>

    /** `TaskManager::new`: no tasks. */
    constructor ()
      ensures tasks == []
    {
      tasks := [];
    }

    /** `add_task`: a new, uncompleted task with the given description goes
        last; the tasks before it are untouched. */
    method AddTask(description: string)
      modifies this
      ensures |tasks| == |old(tasks)| + 1
      ensures tasks[..|old(tasks)|] == old(tasks)
      ensures tasks[|tasks| - 1] == NewTask(description)
      ensures !tasks[|tasks| - 1].completed && tasks[|tasks| - 1].description == description
    {
      var task := NewTask(description);
      tasks := tasks + [task];
    }

    /** `complete_task`: with an index inside the list, that task becomes
        completed and nothing else changes; with an index past the end,
        nothing changes. */
    method CompleteTask(index: nat)
      modifies this
      ensures |tasks| == |old(tasks)|
      ensures forall k :: 0 <= k < |tasks| ==> tasks[k].description == old(tasks)[k].description
      ensures forall k :: 0 <= k < |tasks| && k != index ==> tasks[k] == old(tasks)[k]
      ensures index < |tasks| ==> tasks[index].completed
      ensures index >= |old(tasks)| ==> tasks == old(tasks)
    {
      if index < |tasks| {
        tasks := tasks[index := tasks[index].(completed := true)];
      }
    }

    /** `list_tasks`: one entry per task, in order; the list is only read. */
    function ListTasks(): (out: seq<string>)
      reads this
      ensures |out| == |tasks|
      ensures forall k :: 0 <= k < |tasks| ==>
                |out[k]| == |tasks[k].description| + 4 && out[k][4..] == tasks[k].description
                && out[k][0] == '[' && out[k][2] == ']' && out[k][3] == ' '
                && out[k][1] == (if tasks[k].completed then 'x' else ' ')
    {
      var out := seq(|tasks|, k requires 0 <= k < |tasks| reads this => Listed(tasks[k]));
      assert forall k :: 0 <= k < |tasks| ==>
        |out[k]| == |tasks[k].description| + 4 && out[k][4..] == tasks[k].description
        && out[k][0] == '[' && out[k][2] == ']' && out[k][3] == ' '
        && out[k][1] == (if tasks[k].completed then 'x' else ' ') by {
        forall k | 0 <= k < |tasks| {
          ListedDecodes(tasks[k]);
        }
      }
      out
    }

    /** `save_tasks`: when the file cannot be created, an error and nothing
        written; otherwise one `description|flag` line per task, in order. */
    method SaveTasks(canCreate: bool) returns (file: Option<string>)
      ensures file.None? <==> !canCreate
      ensures file.Some? ==> file.value == Unlines(SavedLines(tasks))
    {
      if !canCreate {
        return None;
      }
      var text := "";
      for k := 0 to |tasks|
        invariant text == Unlines(SavedLines(tasks[..k]))
      {
        assert SavedLines(tasks[..k + 1]) == SavedLines(tasks[..k]) + [SaveLine(tasks[k])];
        UnlinesSnoc(SavedLines(tasks[..k]), SaveLine(tasks[k]));
        text := text + SaveLine(tasks[k]) + "\n";
      }
      assert tasks[..|tasks|] == tasks;
      return Some(text);
    }

    /** `load_tasks`: when the file cannot be opened, an error and the list
        unchanged; otherwise the list is cleared and refilled with the tasks
        of the lines that split into exactly two parts at `|`. */
    method LoadTasks(file: Option<string>) returns (ok: bool)
      modifies this
      ensures ok <==> file.Some?
      ensures !ok ==> tasks == old(tasks)
      ensures ok ==> tasks == LoadedTasks(ReadLines(file.value))
    {
      if file.None? {
        return false;
      }
      var lines := ReadLines(file.value);
      tasks := [];
      for i := 0 to |lines|
        invariant tasks == LoadedTasks(lines[..i])
      {
        var parts := Split(lines[i], '|');
        assert lines[..i + 1][..i] == lines[..i];
        if |parts| == 2 {
          var task := Task(parts[0], parts[1] == "true");
          tasks := tasks + [task];
        }
      }
      assert lines[..|lines|] == lines;
      return true;
    }
  }
}
