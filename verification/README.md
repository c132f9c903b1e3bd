# Coverage-overhead benchmark: test corpus and to-do list task managers

This project models, in Dafny, the sequential logic of a benchmark that
measures how much coverage tools slow down the tests of two small to-do list
programs, one in Rust and one in C++.

- **Test-corpus generator** (`gen_rust_tests` in `main.py`). For a workload
  size N it writes a Rust test module with the test functions `test1Tasks` ..
  `test{N}Tasks`. The body of test i follows a three-way rule:
  - i a multiple of 3: check the description;
  - otherwise i even: check the flag is initially false;
  - otherwise: set the flag, then check it.

  The command line accepts only the sizes in `WORKLOAD`. The generator is a
  loop of writes (`RustTestCorpus.GenRustTests`). It is proved equal to a
  pure description of the file (`Corpus`), and the shape of that file is
  proved: header, one block per index, closing brace, declared tests and
  balanced braces.
- **Rust task manager** (`rust/todo_app/src/tasks.rs`, module `RustTasks`).
  A task is a value: a description and a completion flag. The manager is a
  class whose `tasks` field is the vector. Indices are 0-based. The listing
  is `[x] desc` or `[ ] desc`. The file format is `desc|true` or
  `desc|false`. Loading keeps only lines that split into exactly two parts
  at `|`.
- **C++ task manager** (`cpp/Task.cpp`, `cpp/TaskManager.cpp`, modules
  `CppTask` and `CppTaskManager`). A task is an object whose flag
  `setCompleted` overwrites. The manager owns a vector of distinct task
  objects. Indices are 1-based. The listing is numbered, `k. [x] desc`. The
  file format is `desc|1` or `desc|0`. Loading turns every line into a task,
  splitting at the first `|`. It also models the `npos + 1` wrap-around that
  makes a line without `|` both the description and the text compared with
  `1`.

Files are represented by their text:
- writing returns the text written, or `None` when the file cannot be
  created or opened;
- reading takes the file's text, or `None` when it cannot be opened.

Both readers are modelled on their line readers:
- Rust's `BufRead::lines` splits at `\n`, does not start a line after a final
  break, and drops a `\r` before a `\n`;
- C++'s `std::getline` does the same but keeps every `\r`.

The shared text primitives are in module `Text`: search, split, lines and
decimal numerals. Module `Seqs` holds generic sequence facts.

## Model

| member | source | states |
|---|---|---|
| RustTestCorpus.GenRustTests | main.py:100-127 | the lines written, in order, are exactly the rendered lines of `Corpus(N)`: the four header lines, the block of each test 1..N in index order, then the closing `}`; a negative count writes no tests |
| RustTestCorpus.WriteTest | main.py:111-123 | one loop iteration appends exactly the rendered block of test i: attribute, signature, construction, the checks the three-way rule picks, `\t}` |
| RustTestCorpus.Write | main.py:107-125 | each line write appends exactly one rendered line after what was written before; every `f.write` is one line write, except the one at main.py:108, which writes `mod tests {` and a blank line and is modelled as two line writes giving the same text |
| RustTestCorpus.GenRustTestsOption | main.py:10 | `--gen-rust-tests` with a value outside `WORKLOAD` is rejected before generating (usage error); an accepted value (100, 1000 or 10000) generates exactly that many tests; without the option nothing is generated |
| RustTestCorpus.CorpusFrame | main.py:106-109 | the file starts with `#[cfg(test)]`, `mod tests {`, a blank line and the `use crate::tasks::{Task, TaskManager};` line, and ends with the module's `}` |
| RustTestCorpus.TestAt | main.py:111-123 | for every i in 1..N, the block starting after the lines of tests 1..i-1 is attribute, `test{i}Tasks` signature, `Task::new("Test Task"...)`, then: a description check only when i % 3 == 0 (even for even i); a `!task.completed` check when i is even and not a multiple of 3; otherwise `task.completed = true` then its check; then `\t}` |
| RustTestCorpus.BlockInCorpus | main.py:111-124 | the block of test i sits in the file right after the header and the blocks of tests 1..i-1 |
| RustTestCorpus.TestBlocksLength | main.py:111-123 | tests 1..m take 5m lines plus one for each index that is odd and not a multiple of 3 |
| RustTestCorpus.SetsFlagExactly | main.py:115-119 | the indices that reach the final branch (not a multiple of 3, not even) are exactly those that are 1 or 5 modulo 6 |
| RustTestCorpus.CorpusDeclaresTests | main.py:111-113 | the test functions the text declares are test1Tasks .. test{N}Tasks, each once, in increasing order; read back from the text, not from the generator's indices |
| RustTestCorpus.RenderDeclares | main.py:107-125 | only the signature line declares a test, and it declares its own index |
| RustTestCorpus.SignatureDeclares | main.py:113 | the signature written for index i reads back as index i |
| RustTestCorpus.CorpusBalanced | main.py:107-125 | scanning the whole file character by character, no `}` closes a brace that is not open, and every brace is closed by the end |
| RustTestCorpus.NestWritten | main.py:106-125 | the character-level brace scan of the written text agrees with the line-level count of braces opened and closed |
| RustTestCorpus.NestRender | main.py:107-125 | each line opens one brace (module and test headers), closes one (`\t}` and `}`), or neither, including the `{` and `}` of the import line |
| RustTestCorpus.BlockNest | main.py:112-123 | each test block closes the brace it opens |
| Text.Find | cpp/TaskManager.cpp:37 | the position found holds the character and no earlier position does; no position means the character is absent |
| Text.SplitMeaning | rust/todo_app/src/tasks.rs:66 | splitting at `c` gives one more piece than `c` occurs, no piece holds `c`, and joining the pieces with `c` gives the text back |
| Text.SplitJoinWith | rust/todo_app/src/tasks.rs:66 | splitting undoes joining for pieces free of the separator |
| Text.Lines | rust/todo_app/src/tasks.rs:64 | no line read holds a line break |
| Text.LinesOfUnlines | rust/todo_app/src/tasks.rs:54-64 | reading back lines written each with its own break gives the same lines |
| Text.UnlinesOfLines | cpp/TaskManager.cpp:36 | writing back the lines read gives the text, except that a last line lacking its break gets one |
| Text.NatToString | main.py:113 | a numeral is digits only, and starts with 0 only for zero |
| Text.DecimalValueOfNatToString | cpp/TaskManager.cpp:20 | the numeral of n reads back as n |
| Text.NatToStringInjective | main.py:113 | distinct numbers get distinct numerals, so no two tests share a name |
| RustTasks.ListedDecodes | rust/todo_app/src/tasks.rs:40-48 | a listing entry is `[`, a mark, `]`, a space, then the description; the mark is `x` for a completed task and a space otherwise |
| RustTasks.ListedInjective | rust/todo_app/src/tasks.rs:40-48 | different tasks give different entries |
| RustTasks.TaskManager.ListTasks | rust/todo_app/src/tasks.rs:40-48 | one entry per task in order: `[`, then `x` for a completed task and a space otherwise, then `] `, then the task's description; the list is only read |
| RustTasks.NewTask | rust/todo_app/src/tasks.rs:12-17 | a new task has the given description and is not completed |
| RustTasks.TaskManager.constructor | rust/todo_app/src/tasks.rs:25-27 | a new manager has no tasks |
| RustTasks.TaskManager.AddTask | rust/todo_app/src/tasks.rs:12-32 | one more task, the earlier ones unchanged, the new one last with the given description and not completed |
| RustTasks.TaskManager.CompleteTask | rust/todo_app/src/tasks.rs:34-38 | an index below the length marks that task completed and changes no other task; no description or length ever changes; an index past the end changes nothing |
| RustTasks.SavedLines | rust/todo_app/src/tasks.rs:53-55 | one saved line per task |
| RustTasks.TaskManager.SaveTasks | rust/todo_app/src/tasks.rs:50-57 | if the file cannot be created, an error and nothing written; otherwise the text is the tasks' description-bar-flag lines (flag `true` or `false`), in order, each ending in a line break |
| RustTasks.ParseLine | rust/todo_app/src/tasks.rs:66-71 | a task read from a line has a bar-free description shorter than the line |
| RustTasks.ParseLineMeaning | rust/todo_app/src/tasks.rs:66-71 | a line yields a task exactly when it holds exactly one bar; the description is the text before it, and the task is completed exactly when the text after it is `true` |
| RustTasks.ReadLines | rust/todo_app/src/tasks.rs:62-65 | one line read per line of the text; none holds a break; each is the text's line, or that line less a final `\r` |
| RustTasks.ReadLinesOfUnlines | rust/todo_app/src/tasks.rs:54-65 | lines written by `writeln!` read back unchanged when none holds a break or ends in `\r` |
| RustTasks.ReadLinesOfCrlf | rust/todo_app/src/tasks.rs:62-65 | lines written with CRLF endings read back without the `\r` |
| RustTasks.LoadedTasks | rust/todo_app/src/tasks.rs:63-74 | loading never yields more tasks than lines |
| RustTasks.LoadedAllParse | rust/todo_app/src/tasks.rs:63-74 | when every line parses, task k comes from line k |
| RustTasks.DroppedLines | rust/todo_app/src/tasks.rs:66-67 | a line without exactly one bar adds no task |
| RustTasks.ParseSaveLine | rust/todo_app/src/tasks.rs:54-71 | a saved line parses back to its task when the description has no bar |
| RustTasks.SaveLineKeepsEnd | rust/todo_app/src/tasks.rs:54 | a saved line is not empty and does not end in `\r`, so reading does not shorten it |
| RustTasks.SaveLoadRoundTrip | rust/todo_app/src/tasks.rs:50-75 | loading the text that saving writes restores the task list when no description holds a bar or a line break |
| RustTasks.TaskManager.LoadTasks | rust/todo_app/src/tasks.rs:59-76 | if the file cannot be opened, an error and the tasks unchanged; otherwise the tasks are exactly those of the file's lines that parse, in file order |
| CppTask.WithCompleted | cpp/Task.cpp:16-18 | setting the flag to b leaves the flag b and keeps the description |
| CppTask.WithCompletedIdempotent | cpp/Task.cpp:16-18 | setting the same flag twice is setting it once, and of two settings the last wins |
| CppTask.Task.constructor | cpp/Task.cpp:5-6 | the task holds the given description and flag, the flag false when omitted |
| CppTask.Task.SetCompleted | cpp/Task.cpp:16-18 | afterwards `isCompleted()` is b and the description is unchanged |
| CppTaskManager.SizeSucc | cpp/TaskManager.cpp:39 | size_t `+ 1`: one more below npos, and npos wraps to 0 |
| CppTaskManager.FindPos | cpp/TaskManager.cpp:37 | `find` of the bar gives the first bar, or npos exactly when there is none |
| CppTaskManager.Substr | cpp/TaskManager.cpp:38-39 | `substr` takes the characters from the start position, at most `count` of them |
| CppTaskManager.ParseLine | cpp/TaskManager.cpp:37-40 | a task read from a line has a bar-free description no longer than the line |
| CppTaskManager.ParseLineMeaning | cpp/TaskManager.cpp:37-40 | every line yields a task; with a bar, the description is the bar-free text before the first one and the task is completed exactly when the rest is `1`; without one, the description is the whole line and the task is completed exactly when the line is `1` |
| CppTaskManager.LoadedStates | cpp/TaskManager.cpp:36-42 | one task per line read |
| CppTaskManager.SavedLines | cpp/TaskManager.cpp:26-28 | one saved line per task |
| CppTaskManager.ParseSaveLine | cpp/TaskManager.cpp:27-39 | a saved line parses back to its task when the description has no bar |
| CppTaskManager.SaveLoadRoundTrip | cpp/TaskManager.cpp:24-43 | loading the text that saving writes restores the tasks when no description holds a bar or a line break |
| CppTaskManager.ListingLineDecodes | cpp/TaskManager.cpp:20 | after the number come `. [`, then `x` for a completed task and a space otherwise, then `] `, then the description |
| CppTaskManager.ListingLineNumber | cpp/TaskManager.cpp:20 | a listing line starts with the numeral of its number |
| CppTaskManager.ListingNumbered | cpp/TaskManager.cpp:19-20 | line k of the listing, counting from 0, reads back as number k + 1, followed by `. [`, `x` for a completed task and a space otherwise, `] ` and task k's description |
| CppTaskManager.TaskManager.GetTasks | cpp/TaskManager.cpp:46-48 | the tasks' values, in order; it only reads |
| CppTaskManager.TaskManager.constructor | cpp/TaskManager.cpp:5 | a new manager has no tasks |
| CppTaskManager.TaskManager.AddTask | cpp/TaskManager.cpp:7-10 | one new task object goes last, with the given description and not completed; earlier tasks are unchanged |
| CppTaskManager.TaskManager.CompleteTask | cpp/TaskManager.cpp:12-16 | an index in 1..size marks task index-1 completed and changes no other task; any other index changes nothing; the list and descriptions never change |
| CppTaskManager.TaskManager.ListTasks | cpp/TaskManager.cpp:18-22 | the text written is the numbered listing, one line per task, in order |
| CppTaskManager.TaskManager.SaveTasks | cpp/TaskManager.cpp:24-29 | if the file cannot be opened, nothing is written; otherwise the text is the tasks' description-bar-flag lines (flag `1` or `0`), in order |
| CppTaskManager.TaskManager.LoadTasks | cpp/TaskManager.cpp:31-44 | if the file cannot be opened, the tasks are unchanged; otherwise they are new task objects, one per line of the file, each parsed from its line |
| CppTaskManager.TaskManager.LoadTask | cpp/TaskManager.cpp:37-41 | the loop body builds a new task parsed from one line |

## Left out

- The installers, logging setup, log-file naming and directory constants of `main.py` are shell and I/O plumbing and are not part of this model.
- The timing, log-scraping and statistics stages of the benchmark are not part of this model.
- The interactive programs (`rust/todo_app/src/main.rs`, `rust/todo_app/src/ui.rs`, `cpp/main.cpp`) are console loops and are not part of this model.
- Opening, truncating and closing files is not modelled. A file is its text, and "cannot be opened or created" is a `None` input or a `false` flag.
- Read and write errors in the middle of a file are not modelled. Neither is invalid UTF-8, which makes Rust's `lines` fail.
- RustTestCorpus.GenRustTestsOption: argparse's conversion of the argument text to an int is not modelled; the option starts from the integer.
- CppTaskManager.TaskManager.LoadTasks: requires every line to be shorter than npos. `std::getline` stops at `max_size()` characters, and a longer line is not modelled.
- CppTaskManager.SaveLoadRoundTrip: also requires each description to be shorter than npos - 2 characters, so that its saved line fits in a std::string.
- CppTaskManager.TaskManager.GetTasks: returns the tasks' values, not a reference to the vector. A caller holding that reference and mutating through it is not modelled.
- CppTask.Task.GetDescription and CppTask.Task.IsCompleted are plain accessors and have no contract of their own. The description never changes because the field is `const` in the model. That `isCompleted` has no side effect follows from its being a function.
- CppTaskManager.TaskManager.ListTasks: a size_t overflow of `i + 1` would need 2^64 tasks, so it is not modelled.
- The copy `push_back` makes of a task is modelled as a fresh object, because the local copy is never used again.
