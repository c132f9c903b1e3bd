/** The synthetic Rust test corpus of the benchmark driver (main.py): a test
    module with one test function per index 1..N, whose body follows a
    three-way rule keyed by the index, and the command-line restriction of N
    to the fixed workload sizes.

    The generator's output is described twice: as a sequence of `Line`
    values saying which line is written where, and as the strings those lines
    render to. Every write of the generator ends in a line break, so the text
    of the generated file is `Unlines` of the rendered lines. */
module RustTestCorpus {
  import opened Text
  import opened Seqs

  /** The workload sizes the command line accepts. */
  const WORKLOAD: seq<int> := [100, 1000, 10000]

  /** The kinds of line the generator writes. */
  datatype Line =
    | CfgTest | OpenModule | Blank | UseTasks
    | TestAttribute | Signature(index: nat) | ConstructTask
    | AssertDescription | AssertNotCompleted | MarkCompleted | AssertCompleted
    | CloseTest | CloseModule

  const SignaturePrefix: string := "\tfn test"
  const SignatureSuffix: string := "Tasks() " + "{"

  /** The text of each line, without its line break. A literal holding a
      brace is split just before it, so the brace-balance lemmas below can
      name the text on either side of each brace. */
  function Render(line: Line): string
  {
    match line
    case CfgTest => "#[cfg(test)]"
    case OpenModule => "mod tests " + "{"
    case Blank => ""
    case UseTasks => "\tuse crate::tasks::" + "{" + "Task, TaskManager" + "}" + ";"
    case TestAttribute => "\t#[test]"
    case Signature(i) => SignaturePrefix + NatToString(i) + SignatureSuffix
    case ConstructTask => "\t\tlet mut task = " + "Task::new(\"Test Task\"" + ".to_string());"
    case AssertDescription => "\t\tassert_eq!(" + "task.description, \"Test Task\");"
    case AssertNotCompleted => "\t\tassert!(" + "!task.completed);"
    case MarkCompleted => "\t\ttask.completed" + " = true;"
    case AssertCompleted => "\t\tassert!(" + "task.completed);"
    case CloseTest => "\t" + "}"
    case CloseModule => "}"
  }

  /** The strings written for a sequence of lines. */
  function Written(lines: seq<Line>): (out: seq<string>)
    ensures |out| == |lines|
  {
    seq(|lines|, k requires 0 <= k < |lines| => Render(lines[k]))
  }

  /** The lines written before the first test. */
  function Header(): seq<Line>
  {
    [CfgTest, OpenModule, Blank, UseTasks]
  }

  /** The checks test `i` makes on its freshly constructed task. */
  function TestBody(i: nat): seq<Line>
  {
    if i % 3 == 0 then [AssertDescription]
    else if i % 2 == 0 then [AssertNotCompleted]
    else [MarkCompleted, AssertCompleted]
  }

  /** All lines written for test `i`. */
  function TestBlock(i: nat): seq<Line>
  {
    [TestAttribute, Signature(i), ConstructTask] + TestBody(i) + [CloseTest]
  }

  /** The lines written for tests 1..n, in index order. */
  function TestBlocks(n: nat): seq<Line>
  {
    if n == 0 then [] else TestBlocks(n - 1) + TestBlock(n)
  }

  /** The whole generated module for `n` tests. */
  function Corpus(n: nat): seq<Line>
  {
    Header() + TestBlocks(n) + [CloseModule]
  }

  /** gen_rust_tests: writes the header, then one block per index in a loop,
      then the closing brace of the module. A negative count makes the range
      of indices empty. */
  method GenRustTests(numTests: int) returns (out: seq<string>)
    ensures out == Written(Corpus(if numTests < 0 then 0 else numTests))
  {
    ghost var n: nat := if numTests < 0 then 0 else numTests;
    ghost var lines: seq<Line> := [];
    out, lines := Write([], [], [], CfgTest);
    // The single write of `mod tests {` followed by two breaks is modelled
    // as two line writes; the text written is the same.
    out, lines := Write([], out, lines, OpenModule);
    out, lines := Write([], out, lines, Blank);
    out, lines := Write([], out, lines, UseTasks);
    assert lines == Header() + TestBlocks(0) by {
      assert TestBlocks(0) == [];
    }
    var i := 1;
    while i < numTests + 1
      invariant 1 <= i <= n + 1
      invariant out == Written(Header() + TestBlocks(i - 1))
    {
      out := WriteTest(out, i);
      WrittenAppend(Header() + TestBlocks(i - 1), TestBlock(i));
      Regroup(Header(), TestBlocks(i - 1), TestBlock(i));
      i := i + 1;
    }
    lines := Header() + TestBlocks(n);
    assert out == [] + Written(lines);
    out, lines := Write([], out, lines, CloseModule);
    assert lines == Corpus(n);
  }

  /** The writes for test `i`: attribute, signature, construction, the
      checks the three-way rule picks, closing brace. */
  method WriteTest(out: seq<string>, i: nat) returns (out': seq<string>)
    ensures out' == out + Written(TestBlock(i))
  {
    ghost var block: seq<Line> := [];
    out', block := Write(out, out, [], TestAttribute);
    out', block := Write(out, out', block, Signature(i));
    out', block := Write(out, out', block, ConstructTask);
    if i % 3 == 0 {
      out', block := Write(out, out', block, AssertDescription);
    } else if i % 2 == 0 {
      out', block := Write(out, out', block, AssertNotCompleted);
    } else {
      out', block := Write(out, out', block, MarkCompleted);
      out', block := Write(out, out', block, AssertCompleted);
    }
    out', block := Write(out, out', block, CloseTest);
    assert block == TestBlock(i);
  }

  /** One write of the generator: the rendered line goes out after what was
      written before; the ghost `lines` accounts for the writes made since
      `start`. */
  method Write(start: seq<string>, out: seq<string>, ghost lines: seq<Line>, line: Line)
    returns (out': seq<string>, ghost lines': seq<Line>)
    requires out == start + Written(lines)
    ensures out' == out + [Render(line)]
    ensures lines' == lines + [line] && out' == start + Written(lines')
  {
    out' := out + [Render(line)];
    lines' := lines + [line];
    assert Written(lines') == Written(lines) + [Render(line)];
  }

  lemma WrittenAppend(a: seq<Line>, b: seq<Line>)
    ensures Written(a + b) == Written(a) + Written(b)
  {
  }

  /** Outcome of the corpus-generation option of the command line. */
  datatype CliOutcome =
    | NotRequested            // the option was not given
    | InvalidChoice           // argparse rejects the value: usage error, nothing runs
    | Generated(lines: seq<string>)

  /** The `--gen-rust-tests` option: a value outside WORKLOAD is rejected
      before anything is generated; an accepted value generates exactly that
      many tests. */
  method GenRustTestsOption(arg: Option<int>) returns (outcome: CliOutcome)
    ensures outcome.NotRequested? <==> arg.None?
    ensures outcome.InvalidChoice? <==> arg.Some? && arg.value !in WORKLOAD
    ensures outcome.Generated? ==>
              arg.Some? && arg.value in {100, 1000, 10000} && outcome.lines == Written(Corpus(arg.value))
  {
    if arg.None? {
      return NotRequested;
    }
    if arg.value !in WORKLOAD {
      return InvalidChoice;
    }
    var lines := GenRustTests(arg.value);
    return Generated(lines);
  }

  // ---------------------------------------------------------------------
  // Shape of the corpus

  /** The module opens with the cfg attribute, the module line, a blank line
      and the import, and ends with the module's closing brace. */
  lemma CorpusFrame(n: nat)
    ensures |Corpus(n)| >= 5
    ensures Corpus(n)[..4] == [CfgTest, OpenModule, Blank, UseTasks]
    ensures Corpus(n)[|Corpus(n)| - 1] == CloseModule
  {
    assert Corpus(n)[..4] == Header();
  }

  /** Number of lines written for tests 1..m: five per test, plus one for each
      index that is odd and not a multiple of 3 (those set the flag first). */
  function BlocksLength(m: nat): nat
  {
    5 * m + 2 * (m / 6) + (if m % 6 >= 1 then 1 else 0) + (if m % 6 == 5 then 1 else 0)
  }

  lemma {:induction false} TestBlocksLength(m: nat)
    ensures |TestBlocks(m)| == BlocksLength(m)
    decreases m
  {
    if m > 0 {
      TestBlocksLength(m - 1);
      BlocksLengthStep(m);
      SetsFlagExactly(m);
      assert |TestBlocks(m)| == |TestBlocks(m - 1)| + |TestBlock(m)|;
    }
  }

  lemma BlocksLengthStep(m: nat)
    requires m > 0
    ensures BlocksLength(m) == BlocksLength(m - 1) + (if m % 6 == 1 || m % 6 == 5 then 6 else 5)
  {
    var q, r := (m - 1) / 6, (m - 1) % 6;
    assert m - 1 == 6 * q + r;
    if r == 5 {
      assert m == 6 * (q + 1);
      assert m / 6 == q + 1 && m % 6 == 0;
    } else {
      assert m == 6 * q + (r + 1);
      assert m / 6 == q && m % 6 == r + 1;
    }
  }

  /** The tests that set the flag before checking it (odd, not a multiple of
      3) are those whose index is 1 or 5 modulo 6. */
  lemma SetsFlagExactly(m: nat)
    ensures (m % 3 != 0 && m % 2 != 0) <==> (m % 6 == 1 || m % 6 == 5)
  {
    var q, r := m / 6, m % 6;
    if r == 0 {
      RemainderByThree(m, 2 * q, 0);
    } else if r == 1 {
      RemainderByThree(m, 2 * q, 1);
      RemainderByTwo(m, 3 * q, 1);
    } else if r == 2 {
      RemainderByTwo(m, 3 * q + 1, 0);
    } else if r == 3 {
      RemainderByThree(m, 2 * q + 1, 0);
    } else if r == 4 {
      RemainderByTwo(m, 3 * q + 2, 0);
    } else {
      RemainderByThree(m, 2 * q + 1, 2);
      RemainderByTwo(m, 3 * q + 2, 1);
    }
  }

  lemma RemainderByThree(m: nat, q: nat, r: nat)
    requires r < 3 && m == 3 * q + r
    ensures m % 3 == r
  {
  }

  lemma RemainderByTwo(m: nat, q: nat, r: nat)
    requires r < 2 && m == 2 * q + r
    ensures m % 2 == r
  {
  }

  /** The blocks of the first i tests are a prefix of those of the first n. */
  lemma {:induction false} TestBlocksPrefix(i: nat, n: nat)
    requires i <= n
    ensures |TestBlocks(i)| <= |TestBlocks(n)|
    ensures TestBlocks(n)[..|TestBlocks(i)|] == TestBlocks(i)
    decreases n
  {
    if i < n {
      TestBlocksPrefix(i, n - 1);
      assert TestBlocks(n)[..|TestBlocks(n - 1)|] == TestBlocks(n - 1);
    }
  }

  /** Test i's block sits in the corpus right after the header and the
      blocks of tests 1..i-1. */
  lemma BlockInCorpus(n: nat, i: nat)
    requires 1 <= i <= n
    ensures var o := 4 + |TestBlocks(i - 1)|;
      o + |TestBlock(i)| < |Corpus(n)| && Corpus(n)[o..o + |TestBlock(i)|] == TestBlock(i)
  {
    TestBlocksPrefix(i, n);
    var rest := TestBlocks(n)[|TestBlocks(i)|..];
    PrefixThenRest(TestBlocks(n), |TestBlocks(i)|);
    SliceMiddle(Header(), TestBlocks(i - 1), TestBlock(i), rest, [CloseModule]);
  }

  /** Every test i in 1..n starts right after the header and the lines of
      tests 1..i-1 (line 4 + BlocksLength(i - 1), by TestBlocksLength): the
      attribute, then the signature of `test{i}Tasks`, then the task
      construction, then the checks the three-way rule picks (a multiple
      of 3 only checks the description, even when it is also even), then the
      closing brace of the test. */
  lemma TestAt(n: nat, i: nat)
    requires 1 <= i <= n
    ensures var o, c := 4 + |TestBlocks(i - 1)|, Corpus(n);
      && o + 5 < |c|
      && (i % 3 == 0 ==>
            c[o..o + 5] == [TestAttribute, Signature(i), ConstructTask, AssertDescription, CloseTest])
      && (i % 3 != 0 && i % 2 == 0 ==>
            c[o..o + 5] == [TestAttribute, Signature(i), ConstructTask, AssertNotCompleted, CloseTest])
      && (i % 3 != 0 && i % 2 != 0 ==>
            c[o..o + 6] == [TestAttribute, Signature(i), ConstructTask, MarkCompleted, AssertCompleted, CloseTest])
  {
    var o := 4 + |TestBlocks(i - 1)|;
    var b := TestBlock(i);
    BlockInCorpus(n, i);
    BlockShape(i);
    SlicePrefix(Corpus(n), o, b, 5);
    if |b| >= 6 {
      SlicePrefix(Corpus(n), o, b, 6);
    }
  }

  /** The three shapes of a test block. */
  lemma BlockShape(i: nat)
    ensures |TestBlock(i)| >= 5
    ensures i % 3 == 0 ==>
      TestBlock(i)[..5] == [TestAttribute, Signature(i), ConstructTask, AssertDescription, CloseTest]
    ensures i % 3 != 0 && i % 2 == 0 ==>
      TestBlock(i)[..5] == [TestAttribute, Signature(i), ConstructTask, AssertNotCompleted, CloseTest]
    ensures i % 3 != 0 && i % 2 != 0 ==>
      |TestBlock(i)| >= 6 &&
      TestBlock(i)[..6] == [TestAttribute, Signature(i), ConstructTask, MarkCompleted, AssertCompleted, CloseTest]
  {
  }

  // ---------------------------------------------------------------------
  // The tests the generated text declares

  /** The index a test-signature line declares, if the line is one:
      `\tfn test`, a decimal numeral, `Tasks() {`. */
  function SignatureIndex(text: string): Option<nat>
  {
    var p, s := |SignaturePrefix|, |SignatureSuffix|;
    if |text| >= p + s + 1 && text[..p] == SignaturePrefix && text[|text| - s..] == SignatureSuffix
       && IsDecimal(text[p..|text| - s])
    then Some(DecimalValue(text[p..|text| - s]))
    else None
  }

  /** The indices of the test functions declared by the lines of a text, in
      order. */
  function DeclaredTests(texts: seq<string>): seq<nat>
  {
    if texts == [] then []
    else (match SignatureIndex(texts[0]) case Some(i) => [i] case None => [])
         + DeclaredTests(texts[1..])
  }

  /** A line whose second character is not 'f' declares no test. */
  lemma NotSignature(text: string)
    requires |text| < |SignaturePrefix| + |SignatureSuffix| + 1 || text[1] != 'f'
    ensures SignatureIndex(text) == None
  {
    if |text| >= |SignaturePrefix| + |SignatureSuffix| + 1 {
      assert text[..|SignaturePrefix|][1] != SignaturePrefix[1];
    }
  }

  /** A rendered line declares a test exactly when it is a signature, and
      then it declares the signature's own index. */
  lemma RenderDeclares(line: Line)
    ensures SignatureIndex(Render(line)) == if line.Signature? then Some(line.index) else None
  {
    match line
    case Signature(i) => SignatureDeclares(i);
    case CfgTest => NotSignature(Render(line));
    case OpenModule => NotSignature(Render(line));
    case Blank => NotSignature(Render(line));
    case UseTasks => NotSignature(Render(line));
    case TestAttribute => NotSignature(Render(line));
    case ConstructTask => NotSignature(Render(line));
    case AssertDescription => NotSignature(Render(line));
    case AssertNotCompleted => NotSignature(Render(line));
    case MarkCompleted => NotSignature(Render(line));
    case AssertCompleted => NotSignature(Render(line));
    case CloseTest => NotSignature(Render(line));
    case CloseModule => NotSignature(Render(line));
  }

  lemma SignatureDeclares(i: nat)
    ensures SignatureIndex(Render(Signature(i))) == Some(i)
  {
    var text := Render(Signature(i));
    var p, s := |SignaturePrefix|, |SignatureSuffix|;
    assert text[..p] == SignaturePrefix;
    assert text[|text| - s..] == SignatureSuffix;
    assert text[p..|text| - s] == NatToString(i);
    DecimalValueOfNatToString(i);
  }

  /** The indices of the signature lines among `lines`, in order. */
  function SignatureIndices(lines: seq<Line>): seq<nat>
  {
    if lines == [] then []
    else (if lines[0].Signature? then [lines[0].index] else []) + SignatureIndices(lines[1..])
  }

  lemma {:induction false} DeclaredWritten(lines: seq<Line>)
    ensures DeclaredTests(Written(lines)) == SignatureIndices(lines)
    decreases |lines|
  {
    if lines != [] {
      assert Written(lines)[1..] == Written(lines[1..]);
      RenderDeclares(lines[0]);
      DeclaredWritten(lines[1..]);
    }
  }

  lemma {:induction false} SignatureIndicesAppend(a: seq<Line>, b: seq<Line>)
    ensures SignatureIndices(a + b) == SignatureIndices(a) + SignatureIndices(b)
    decreases |a|
  {
    if a == [] {
      assert a + b == b;
    } else {
      assert (a + b)[1..] == a[1..] + b;
      SignatureIndicesAppend(a[1..], b);
    }
  }

  lemma {:induction false} NoSignatures(lines: seq<Line>)
    requires forall k :: 0 <= k < |lines| ==> !lines[k].Signature?
    ensures SignatureIndices(lines) == []
    decreases |lines|
  {
    if lines != [] {
      NoSignatures(lines[1..]);
    }
  }

  lemma BlockSignatures(i: nat)
    ensures SignatureIndices(TestBlock(i)) == [i]
  {
    var rest := [ConstructTask] + TestBody(i) + [CloseTest];
    NoSignatures(rest);
    assert TestBlock(i) == [TestAttribute] + ([Signature(i)] + rest);
    SignatureIndicesAppend([TestAttribute], [Signature(i)] + rest);
  }

  lemma {:induction false} BlocksSignatures(n: nat)
    ensures SignatureIndices(TestBlocks(n)) == seq(n, k => k + 1)
    decreases n
  {
    if n > 0 {
      BlocksSignatures(n - 1);
      SignatureIndicesAppend(TestBlocks(n - 1), TestBlock(n));
      BlockSignatures(n);
    }
  }

  /** The generated text declares exactly the tests test1Tasks ..
      test{n}Tasks, each once, in increasing index order. */
  lemma CorpusDeclaresTests(n: nat)
    ensures DeclaredTests(Written(Corpus(n))) == seq(n, k => k + 1)
  {
    DeclaredWritten(Corpus(n));
    NoSignatures(Header());
    SignatureIndicesAppend(Header() + TestBlocks(n), [CloseModule]);
    SignatureIndicesAppend(Header(), TestBlocks(n));
    BlocksSignatures(n);
  }

  // ---------------------------------------------------------------------
  // Brace balance of the generated text

  /** Brace depth after scanning `s` from depth `depth`, or None when a
      closing brace has no open partner. */
  function Nest(s: string, depth: nat): Option<nat>
  {
    if s == [] then Some(depth)
    else if s[0] == '{' then Nest(s[1..], depth + 1)
    else if s[0] == '}' then (if depth == 0 then None else Nest(s[1..], depth - 1))
    else Nest(s[1..], depth)
  }

  lemma {:induction false} NestAppend(a: string, b: string, depth: nat)
    ensures Nest(a + b, depth) == match Nest(a, depth) case None => None case Some(e) => Nest(b, e)
    decreases |a|
  {
    if a == [] {
      assert a + b == b;
    } else {
      assert (a + b)[1..] == a[1..] + b;
      assert (a + b)[0] == a[0];
      if a[0] == '{' {
        NestAppend(a[1..], b, depth + 1);
      } else if a[0] == '}' {
        if depth > 0 {
          NestAppend(a[1..], b, depth - 1);
        }
      } else {
        NestAppend(a[1..], b, depth);
      }
    }
  }

  /** Scanning on after a prefix that scans cleanly. */
  lemma NestThen(a: string, b: string, depth: nat, mid: nat)
    requires Nest(a, depth) == Some(mid)
    ensures Nest(a + b, depth) == Nest(b, mid)
  {
    NestAppend(a, b, depth);
  }

  /** Text holding neither brace. */
  predicate BraceFree(s: string)
  {
    forall k :: 0 <= k < |s| ==> s[k] != '{' && s[k] != '}'
  }

  lemma {:induction false} NestBraceFree(s: string, depth: nat)
    requires BraceFree(s)
    ensures Nest(s, depth) == Some(depth)
    decreases |s|
  {
    if s != [] {
      assert BraceFree(s[1..]) by {
        assert forall k :: 0 <= k < |s| - 1 ==> s[1..][k] == s[k + 1];
      }
      NestBraceFree(s[1..], depth);
    }
  }

  lemma NestOpen(a: string, depth: nat)
    requires BraceFree(a)
    ensures Nest(a + "{", depth) == Some(depth + 1)
  {
    NestBraceFree(a, depth);
    NestThen(a, "{", depth, depth);
  }

  lemma NestClose(a: string, depth: nat)
    requires BraceFree(a)
    ensures Nest(a + "}", depth + 1) == Some(depth)
  {
    NestBraceFree(a, depth + 1);
    NestThen(a, "}", depth + 1, depth + 1);
  }

  /** How a line changes the brace depth: the module and test headers open
      one, the two closing lines close one. */
  function Net(line: Line): int
  {
    match line
    case OpenModule => 1
    case Signature(_) => 1
    case CloseTest => -1
    case CloseModule => -1
    case _ => 0
  }

  /** Each rendered line changes the depth by its Net, and only the closing
      lines can close a brace that is not open. */
  lemma NestRender(line: Line, depth: nat)
    ensures Nest(Render(line), depth) ==
              if depth + Net(line) >= 0 then Some(depth + Net(line)) else None
  {
    if line.OpenModule? || line.Signature? || line.CloseTest? || line.CloseModule? {
      NestScopeLine(line, depth);
    } else if line.CfgTest? || line.Blank? || line.UseTasks? || line.TestAttribute? {
      NestHeaderLine(line, depth);
    } else {
      NestBodyLine(line, depth);
    }
  }

  lemma NestScopeLine(line: Line, depth: nat)
    requires line.OpenModule? || line.Signature? || line.CloseTest? || line.CloseModule?
    ensures Nest(Render(line), depth) ==
              if depth + Net(line) >= 0 then Some(depth + Net(line)) else None
  {
    match line
    case OpenModule => NestOpen("mod tests ", depth);
    case Signature(i) => SignatureNest(i, depth);
    case CloseTest => CloseTestNest(depth);
    case CloseModule =>
  }

  lemma NestHeaderLine(line: Line, depth: nat)
    requires line.CfgTest? || line.Blank? || line.UseTasks? || line.TestAttribute?
    ensures Nest(Render(line), depth) == Some(depth)
  {
    match line
    case UseTasks => UseTasksNest(depth);
    case CfgTest => NestBraceFree("#[cfg(test)]", depth);
    case Blank => NestBraceFree("", depth);
    case TestAttribute => NestBraceFree("\t#[test]", depth);
  }

  lemma NestBodyLine(line: Line, depth: nat)
    requires line.ConstructTask? || line.AssertDescription? || line.AssertNotCompleted?
             || line.MarkCompleted? || line.AssertCompleted?
    ensures Nest(Render(line), depth) == Some(depth)
  {
    match line
    case ConstructTask => ConstructTaskNest(depth);
    case AssertDescription => AssertDescriptionNest(depth);
    case AssertNotCompleted => NestPlain("\t\tassert!(", "!task.completed);", depth);
    case MarkCompleted => NestPlain("\t\ttask.completed", " = true;", depth);
    case AssertCompleted => NestPlain("\t\tassert!(", "task.completed);", depth);
  }

  lemma ConstructTaskNest(depth: nat)
    ensures Nest(Render(ConstructTask), depth) == Some(depth)
  {
    var a := "\t\tlet mut task = ";
    NestPlain(a, "Task::new(\"Test Task\"", depth);
    NestPlain(a + "Task::new(\"Test Task\"", ".to_string());", depth);
  }

  lemma AssertDescriptionNest(depth: nat)
    ensures Nest(Render(AssertDescription), depth) == Some(depth)
  {
    NestPlain("\t\tassert_eq!(", "task.description, \"Test Task\");", depth);
  }

  /** Two brace-free pieces leave the depth as it is. */
  lemma NestPlain(a: string, b: string, depth: nat)
    requires BraceFree(a) && BraceFree(b)
    ensures Nest(a + b, depth) == Some(depth)
  {
    assert BraceFree(a + b) by {
      assert forall k :: 0 <= k < |b| ==> (a + b)[|a| + k] == b[k];
    }
    NestBraceFree(a + b, depth);
  }

  lemma UseTasksNest(depth: nat)
    ensures Nest(Render(UseTasks), depth) == Some(depth)
  {
    var a := "\tuse crate::tasks::";
    NestOpen(a, depth);
    NestBraceFree("Task, TaskManager", depth + 1);
    NestThen(a + "{", "Task, TaskManager", depth, depth + 1);
    NestClose("", depth);
    assert "" + "}" == "}";
    NestThen(a + "{" + "Task, TaskManager", "}", depth, depth + 1);
    NestBraceFree(";", depth);
    NestThen(a + "{" + "Task, TaskManager" + "}", ";", depth, depth);
  }

  lemma SignatureNest(i: nat, depth: nat)
    ensures Nest(Render(Signature(i)), depth) == Some(depth + 1)
  {
    var num := NatToString(i);
    assert BraceFree(num) by {
      assert forall k :: 0 <= k < |num| ==> IsDigit(num[k]);
    }
    NestBraceFree(SignaturePrefix, depth);
    NestBraceFree(num, depth);
    NestThen(SignaturePrefix, num, depth, depth);
    NestOpen("Tasks() ", depth);
    NestThen(SignaturePrefix + num, SignatureSuffix, depth, depth);
  }

  lemma CloseTestNest(depth: nat)
    ensures Nest(Render(CloseTest), depth) == if depth > 0 then Some(depth - 1) else None
  {
    if depth > 0 {
      NestClose("\t", depth - 1);
    } else {
      NestBraceFree("\t", 0);
      NestAppend("\t", "}", 0);
    }
  }

  /** Brace depth across a sequence of lines, or None when some line closes
      a brace that is not open. */
  function LinesNest(lines: seq<Line>, depth: nat): Option<nat>
  {
    if lines == [] then Some(depth)
    else if depth + Net(lines[0]) < 0 then None
    else LinesNest(lines[1..], depth + Net(lines[0]))
  }

  /** Scanning the written text brace by brace agrees with the line-level
      account. */
  lemma {:induction false} NestWritten(lines: seq<Line>, depth: nat)
    ensures Nest(Unlines(Written(lines)), depth) == LinesNest(lines, depth)
    decreases |lines|
  {
    if lines != [] {
      var w := Written(lines);
      assert w[1..] == Written(lines[1..]);
      assert Unlines(w) == Render(lines[0]) + ("\n" + Unlines(w[1..]));
      NestRender(lines[0], depth);
      NestAppend(Render(lines[0]), "\n" + Unlines(w[1..]), depth);
      if depth + Net(lines[0]) >= 0 {
        var e := depth + Net(lines[0]);
        NestAppend("\n", Unlines(w[1..]), e);
        NestBraceFree("\n", e);
        NestWritten(lines[1..], e);
      }
    }
  }

  lemma {:induction false} LinesNestAppend(a: seq<Line>, b: seq<Line>, depth: nat, mid: nat)
    requires LinesNest(a, depth) == Some(mid)
    ensures LinesNest(a + b, depth) == LinesNest(b, mid)
    decreases |a|
  {
    if a == [] {
      assert a + b == b;
    } else {
      assert (a + b)[1..] == a[1..] + b;
      LinesNestAppend(a[1..], b, depth + Net(a[0]), mid);
    }
  }

  lemma LinesNestSingle(line: Line, depth: nat)
    requires depth + Net(line) >= 0
    ensures LinesNest([line], depth) == Some(depth + Net(line))
  {
    assert [line][1..] == [];
  }

  lemma {:induction false} LinesNestFlat(lines: seq<Line>, depth: nat)
    requires forall k :: 0 <= k < |lines| ==> Net(lines[k]) == 0
    ensures LinesNest(lines, depth) == Some(depth)
    decreases |lines|
  {
    if lines != [] {
      LinesNestFlat(lines[1..], depth);
    }
  }

  lemma BlockNest(i: nat, depth: nat)
    ensures LinesNest(TestBlock(i), depth) == Some(depth)
  {
    var body := [ConstructTask] + TestBody(i);
    assert LinesNest(body + [CloseTest], depth + 1) == Some(depth) by {
      LinesNestFlat(body, depth + 1);
      LinesNestAppend(body, [CloseTest], depth + 1, depth + 1);
    }
    assert TestBlock(i) == [TestAttribute, Signature(i)] + (body + [CloseTest]);
    assert LinesNest([TestAttribute, Signature(i)], depth) == Some(depth + 1) by {
      LinesNestSingle(TestAttribute, depth);
      LinesNestSingle(Signature(i), depth);
      LinesNestAppend([TestAttribute], [Signature(i)], depth, depth);
    }
    LinesNestAppend([TestAttribute, Signature(i)], body + [CloseTest], depth, depth + 1);
  }

  lemma {:induction false} BlocksNest(n: nat, depth: nat)
    ensures LinesNest(TestBlocks(n), depth) == Some(depth)
    decreases n
  {
    if n > 0 {
      BlocksNest(n - 1, depth);
      BlockNest(n, depth);
      LinesNestAppend(TestBlocks(n - 1), TestBlock(n), depth, depth);
    }
  }

  /** The generated text's braces are balanced: scanning it never meets a
      closing brace with nothing open, and everything opened is closed by the
      end. */
  lemma CorpusBalanced(n: nat)
    ensures Nest(Unlines(Written(Corpus(n))), 0) == Some(0)
  {
    CorpusNest(n, 0);
    NestWritten(Corpus(n), 0);
  }

  lemma CorpusNest(n: nat, depth: nat)
    ensures LinesNest(Corpus(n), depth) == Some(depth)
  {
    assert LinesNest(Header(), depth) == Some(depth + 1) by {
      LinesNestFlat([Blank, UseTasks], depth + 1);
      LinesNestSingle(CfgTest, depth);
      LinesNestSingle(OpenModule, depth);
      LinesNestAppend([CfgTest], [OpenModule], depth, depth);
      LinesNestAppend([CfgTest, OpenModule], [Blank, UseTasks], depth, depth + 1);
      assert [CfgTest, OpenModule] + [Blank, UseTasks] == Header();
    }
    BlocksNest(n, depth + 1);
    LinesNestAppend(Header(), TestBlocks(n), depth, depth + 1);
    LinesNestAppend(Header() + TestBlocks(n), [CloseModule], depth, depth + 1);
  }
}
