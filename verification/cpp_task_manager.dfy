/** The C++ to-do list (cpp/TaskManager.h, cpp/TaskManager.cpp): a vector of
    task objects that the manager owns and updates in place, a numbered
    listing, and a text file with one `description|flag` line per task, the
    flag written as `1` or `0`.

    Streams are their text: listing returns the text written to the stream;
    saving returns the text written, or None when the file cannot be opened
    (nothing is written and no error is reported); loading takes the file's
    text, or None when it cannot be opened. */
module CppTaskManager {
  import opened Text
  import opened Seqs
  import opened CppTask

  // ---------------------------------------------------------------------
  // The std::string operations loading uses, on a 64-bit size_t

  /** `std::string::npos`, the largest size_t. */
  const NPOS: nat := 0xFFFF_FFFF_FFFF_FFFF

  /** size_t addition of one, which wraps from npos to 0. */
  function SizeSucc(p: nat): (r: nat)
    requires p <= NPOS
    ensures r <= NPOS
    ensures p < NPOS ==> r == p + 1
    ensures p == NPOS ==> r == 0
  {
    (p + 1) % (NPOS + 1)
  }

  /** `find(c)`: the position of the first `c`, or npos when there is none. */
  function FindPos(s: string, c: char): (pos: nat)
    requires |s| < NPOS
    ensures pos == NPOS <==> c !in s
    ensures pos != NPOS ==> pos < |s| && s[pos] == c && c !in s[..pos]
  {
    match Find(s, c)
    case None => NPOS
    case Some(i) => i
  }

  /** `substr(pos, count)`: the characters from `pos`, at most `count` of
      them; a start past the end throws, which loading never reaches. */
  function Substr(s: string, pos: nat, count: nat): (r: string)
    requires pos <= |s|
    ensures |r| == if count < |s| - pos then count else |s| - pos
    ensures r == s[pos..pos + |r|]
  {
    if count < |s| - pos then s[pos..pos + count] else s[pos..]
  }

  // ---------------------------------------------------------------------
  // The file format

  /** How `<<` writes a bool without `std::boolalpha`. */
  function FlagText(b: bool): string
  {
    if b then "1" else "0"
  }

  /** The line `saveTasks` writes for a task, without its line break. */
  function SaveLine(s: TaskState): string
  {
    s.description + "|" + FlagText(s.completed)
  }

  /** The lines `saveTasks` writes, one per task, in order. */
  function SavedLines(vs: seq<TaskState>): (lines: seq<string>)
    ensures |lines| == |vs|
  {
    seq(|vs|, k requires 0 <= k < |vs| => SaveLine(vs[k]))
  }

  /** A line that fits in a std::string. */
  predicate Fits(line: string)
  {
    |line| < NPOS
  }

  /** The task `loadTasks` builds from one line: the text before the first
      `|` is the description and the task is completed when the text after
      it is `1`. With no `|`, `find` gives npos, the description is the whole
      line, and npos + 1 wraps to 0 so the whole line is also compared with
      `1`. */
  function ParseLine(line: string): (r: TaskState)
    requires Fits(line)
    ensures '|' !in r.description && |r.description| <= |line|
  {
    var delimiterPos := FindPos(line, '|');
    var description := Substr(line, 0, delimiterPos);
    var completed := Substr(line, SizeSucc(delimiterPos), NPOS) == "1";
    TaskState(description, completed)
  }

  /** Every line yields a task. Without a `|`, its description is the whole
      line and it is completed exactly when the line is `1`; with one, its
      description is the `|`-free text before the first `|` and it is
      completed exactly when the rest of the line is `1`. */
  lemma ParseLineMeaning(line: string)
    requires Fits(line)
    ensures var r := ParseLine(line);
      && ('|' !in line ==> r.description == line && (r.completed <==> line == "1"))
      && ('|' in line ==>
            var d := r.description;
            && '|' !in d && |d| < |line| && line[..|d|] == d && line[|d|] == '|'
            && (r.completed <==> line[|d| + 1..] == "1"))
  {
    var pos := FindPos(line, '|');
    if pos == NPOS {
      assert line[0..|line|] == line;
    } else {
      assert Substr(line, 0, pos) == line[..pos];
      assert Substr(line, pos + 1, NPOS) == line[pos + 1..];
    }
  }

  /** The tasks `loadTasks` builds from the lines read: one per line, in
      order. */
  function LoadedStates(lines: seq<string>): (vs: seq<TaskState>)
    requires forall k :: 0 <= k < |lines| ==> Fits(lines[k])
    ensures |vs| == |lines|
  {
    seq(|lines|, k requires 0 <= k < |lines| && Fits(lines[k]) => ParseLine(lines[k]))
  }

  /** A saved line parses back to its task when the description holds no
      `|`. */
  lemma ParseSaveLine(s: TaskState)
    requires '|' !in s.description && |s.description| + 2 < NPOS
    ensures Fits(SaveLine(s)) && ParseLine(SaveLine(s)) == s
  {
    var line := SaveLine(s);
    var flag := FlagText(s.completed);
    assert line == s.description + ['|'] + flag;
    FindAfter(s.description, flag, '|');
    assert line[..|s.description|] == s.description;
    assert line[|s.description| + 1..] == flag;
  }

  /** Saving then loading restores the tasks, provided no description holds
      a `|` or a line break (or is too long for a std::string). */
  lemma SaveLoadRoundTrip(vs: seq<TaskState>)
    requires forall k :: 0 <= k < |vs| ==>
               '|' !in vs[k].description && '\n' !in vs[k].description
               && |vs[k].description| + 2 < NPOS
    ensures var lines := Lines(Unlines(SavedLines(vs)));
      && (forall k :: 0 <= k < |lines| ==> Fits(lines[k]))
      && LoadedStates(lines) == vs
  {
    var lines := SavedLines(vs);
    forall k | 0 <= k < |lines|
      ensures '\n' !in lines[k]
    {
      assert '\n' !in FlagText(vs[k].completed);
    }
    LinesOfUnlines(lines);
    forall k | 0 <= k < |lines|
      ensures Fits(lines[k]) && ParseLine(lines[k]) == vs[k]
    {
      ParseSaveLine(vs[k]);
    }
  }

  // ---------------------------------------------------------------------
  // The listing

  /** Line `number` of `listTasks`: the number, `. [`, `x` or a space, `] `,
      then the description. */
  function ListingLine(number: nat, s: TaskState): string
  {
    NatToString(number) + ". [" + (if s.completed then "x" else " ") + "] " + s.description
  }

  /** The lines `listTasks` writes, numbered from 1. */
  function Listing(vs: seq<TaskState>): (lines: seq<string>)
    ensures |lines| == |vs|
  {
    seq(|vs|, k requires 0 <= k < |vs| => ListingLine(k + 1, vs[k]))
  }

  /** The digits a line starts with. */
  function LeadingDigits(s: string): (d: string)
    ensures |d| <= |s| && d == s[..|d|]
    ensures forall k :: 0 <= k < |d| ==> IsDigit(d[k])
  {
    if s == [] || !IsDigit(s[0]) then [] else [s[0]] + LeadingDigits(s[1..])
  }

  /** The leading digits of a numeral followed by a non-digit are the
      numeral. */
  lemma {:induction false} LeadingDigitsOf(a: string, b: string)
    requires forall k :: 0 <= k < |a| ==> IsDigit(a[k])
    requires b != [] && !IsDigit(b[0])
    ensures LeadingDigits(a + b) == a
    decreases |a|
  {
    if a != [] {
      assert (a + b)[1..] == a[1..] + b;
      LeadingDigitsOf(a[1..], b);
    }
  }

  /** A listing line can be read back: after its number comes `. [`; the
      character after that is `x` when the task is completed and a space
      otherwise, and the description follows `] `. */
  lemma ListingLineDecodes(number: nat, s: TaskState)
    ensures var line := ListingLine(number, s);
      var w := |NatToString(number)|;
      && |line| == w + 6 + |s.description|
      && line[w..w + 3] == ". ["
      && line[w + 3] == (if s.completed then 'x' else ' ')
      && line[w + 4..w + 6] == "] "
      && line[w + 6..] == s.description
  {
    var num := NatToString(number);
    var mark := if s.completed then "x" else " ";
    var rest := ". [" + mark + "] " + s.description;
    var line := ListingLine(number, s);
    assert line == num + rest;
    assert line[|num|..] == rest;
  }

  /** A listing line starts with the numeral of its number. */
  lemma ListingLineNumber(number: nat, s: TaskState)
    ensures DecimalValue(LeadingDigits(ListingLine(number, s))) == number
  {
    var num := NatToString(number);
    var rest := ". [" + (if s.completed then "x" else " ") + "] " + s.description;
    assert ListingLine(number, s) == num + rest;
    LeadingDigitsOf(num, rest);
    DecimalValueOfNatToString(number);
  }

  /** Line k of the listing (counting from 0) carries the number k + 1 and
      the flag and description of task k. */
  lemma ListingNumbered(vs: seq<TaskState>, k: nat)
    requires k < |vs|
    ensures var line := Listing(vs)[k];
      var w := |NatToString(k + 1)|;
      && DecimalValue(LeadingDigits(line)) == k + 1
      && |line| == w + 6 + |vs[k].description|
      && line[w..w + 3] == ". ["
      && line[w + 3] == (if vs[k].completed then 'x' else ' ')
      && line[w + 4..w + 6] == "] "
      && line[w + 6..] == vs[k].description
  {
    var line := Listing(vs)[k];
    assert line == ListingLine(k + 1, vs[k]);
    ListingLineDecodes(k + 1, vs[k]);
    ListingLineNumber(k + 1, vs[k]);
  }

  // ---------------------------------------------------------------------
  // The manager

  /** `TaskManager`: the vector of tasks, each an object the manager owns. */
  class TaskManager {
    var tasks: seq<Task>

    /** The vector holds its tasks by value, so no two entries are the same
        object. */
    ghost predicate Valid()
      reads this
    {
      forall i, j :: 0 <= i < j < |tasks| ==> tasks[i] != tasks[j]
    }

    /** `getTasks`: the tasks in order, as values. */
    function GetTasks(): (vs: seq<TaskState>)
      reads this, tasks
      ensures |vs| == |tasks|
      ensures forall k :: 0 <= k < |tasks| ==> vs[k] == tasks[k].State()
    {
      seq(|tasks|, k requires 0 <= k < |tasks| reads this, tasks => tasks[k].State())
    }

    /** `TaskManager()`: no tasks. */
    constructor ()
      ensures Valid() && GetTasks() == []
    {
      tasks := [];
    }

    /** `addTask`: a new, uncompleted task with the given description goes
        last; the tasks before it are untouched. */
    method AddTask(description: string)
      requires Valid()
      modifies this
      ensures Valid()
      ensures |tasks| == |old(tasks)| + 1 && tasks[..|old(tasks)|] == old(tasks)
      ensures fresh(tasks[|tasks| - 1])
      ensures GetTasks() == old(GetTasks()) + [TaskState(description, false)]
    {
      var task := new Task(description);
      tasks := tasks + [task];
      assert tasks[..|old(tasks)|] == old(tasks);
    }

    /** `completeTask`: the index counts from 1; with an index in 1..size,
        that task becomes completed and nothing else changes; any other
        index changes nothing. */
    method CompleteTask(index: int)
      requires Valid()
      modifies tasks
      ensures Valid() && tasks == old(tasks)
      ensures 0 < index <= |tasks| ==>
        GetTasks() == old(GetTasks())[index - 1 := WithCompleted(old(GetTasks())[index - 1], true)]
      ensures !(0 < index <= |tasks|) ==> GetTasks() == old(GetTasks())
    {
      if index > 0 && index <= |tasks| {
        tasks[index - 1].SetCompleted(true);
      }
    }

    /** `listTasks`: the text written to the stream, one numbered line per
        task. */
    method ListTasks() returns (out: string)
      ensures out == Unlines(Listing(GetTasks()))
    {
      ghost var vs := GetTasks();
      out := "";
      for i := 0 to |tasks|
        invariant out == Unlines(Listing(vs)[..i])
      {
        var line := NatToString(i + 1) + ". [" + (if tasks[i].IsCompleted() then "x" else " ")
                    + "] " + tasks[i].GetDescription();
        assert line == Listing(vs)[i];
        assert Listing(vs)[..i + 1] == Listing(vs)[..i] + [line];
        UnlinesSnoc(Listing(vs)[..i], line);
        out := out + line + "\n";
      }
      assert Listing(vs)[..|tasks|] == Listing(vs);
    }

    /** `saveTasks`: when the file cannot be opened nothing is written;
        otherwise one `description|flag` line per task, in order. */
    method SaveTasks(canOpen: bool) returns (file: Option<string>)
      ensures file.None? <==> !canOpen
      ensures file.Some? ==> file.value == Unlines(SavedLines(GetTasks()))
    {
      if !canOpen {
        return None;
      }
      ghost var vs := GetTasks();
      var text := "";
      for i := 0 to |tasks|
        invariant text == Unlines(SavedLines(vs)[..i])
      {
        var line := tasks[i].GetDescription() + "|" + (if tasks[i].IsCompleted() then "1" else "0");
        assert line == SavedLines(vs)[i];
        assert SavedLines(vs)[..i + 1] == SavedLines(vs)[..i] + [line];
        UnlinesSnoc(SavedLines(vs)[..i], line);
        text := text + line + "\n";
      }
      assert SavedLines(vs)[..|tasks|] == SavedLines(vs);
      return Some(text);
    }

    /** `loadTasks`: when the file cannot be opened, the tasks are unchanged;
        otherwise they are replaced by one new task per line of the file. */
    method LoadTasks(file: Option<string>)
      requires Valid()
      requires file.Some? ==> forall k :: 0 <= k < |Lines(file.value)| ==> Fits(Lines(file.value)[k])
      modifies this
      ensures Valid()
      ensures file.None? ==> tasks == old(tasks) && GetTasks() == old(GetTasks())
      ensures file.Some? ==> |tasks| == |Lines(file.value)|
      ensures file.Some? ==> GetTasks() == LoadedStates(Lines(file.value))
      ensures file.Some? ==> forall k :: 0 <= k < |tasks| ==> fresh(tasks[k])
    {
      if file.None? {
        return;
      }
      var lines := Lines(file.value);
      var loaded: seq<Task> := [];
      for i := 0 to |lines|
        invariant |loaded| == i
        invariant forall k :: 0 <= k < i ==> fresh(loaded[k])
        invariant forall j, k :: 0 <= j < k < i ==> loaded[j] != loaded[k]
        invariant forall k :: 0 <= k < i ==> loaded[k].State() == ParseLine(lines[k])
      {
        var task := LoadTask(lines[i]);
        loaded := loaded + [task];
      }
      tasks := loaded;
    }

    /** The body of the `loadTasks` loop: a new task from one line. */
    static method LoadTask(line: string) returns (task: Task)
      requires Fits(line)
      ensures fresh(task) && task.State() == ParseLine(line)
    {
      var delimiterPos := FindPos(line, '|');
      var description := Substr(line, 0, delimiterPos);
      var completed := Substr(line, SizeSucc(delimiterPos), NPOS) == "1";
      task := new Task(description, completed);
    }
  }
}
