/** Character-level text primitives shared by the models: searching for a
    character, splitting at a separator, reading a file's text as lines, and
    rendering and reading back decimal numerals. */
module Text {
  import opened Seqs

  datatype Option<T> = None | Some(value: T)

  /** Position of the first occurrence of `c` in `s`, if any. */
  function Find(s: string, c: char): (r: Option<nat>)
    ensures r.None? <==> c !in s
    ensures r.Some? ==> r.value < |s| && s[r.value] == c && c !in s[..r.value]
  {
    if s == [] then None
    else if s[0] == c then Some(0)
    else match Find(s[1..], c)
      case None =>
        assert s == [s[0]] + s[1..];
        None
      case Some(i) =>
        assert s[..i + 1] == [s[0]] + s[1..][..i];
        Some(i + 1)
  }

  /** The pieces of `parts` glued together with `c` between neighbours. */
  function JoinWith(parts: seq<string>, c: char): string
  {
    if parts == [] then ""
    else if |parts| == 1 then parts[0]
    else parts[0] + [c] + JoinWith(parts[1..], c)
  }

  /** The pieces of `s` between occurrences of `c`, in order. */
  function Split(s: string, c: char): (parts: seq<string>)
    ensures |parts| >= 1
    decreases |s|
  {
    match Find(s, c)
    case None => [s]
    case Some(i) => [s[..i]] + Split(s[i + 1..], c)
  }

  /** Splitting at every `c`: one more piece than there are separators, no
      piece holds `c`, and joining the pieces back with `c` gives `s` again. */
  lemma {:induction false} SplitMeaning(s: string, c: char)
    ensures |Split(s, c)| == multiset(s)[c] + 1
    ensures forall k :: 0 <= k < |Split(s, c)| ==> c !in Split(s, c)[k]
    ensures JoinWith(Split(s, c), c) == s
    decreases |s|
  {
    match Find(s, c)
    case None =>
      assert multiset(s)[c] == 0;
    case Some(i) =>
      var rest := Split(s[i + 1..], c);
      SplitMeaning(s[i + 1..], c);
      assert s == s[..i] + [c] + s[i + 1..];
      assert multiset(s) == multiset(s[..i]) + multiset([c]) + multiset(s[i + 1..]);
      assert ([s[..i]] + rest)[1..] == rest;
  }

  /** Text without the separator is a single piece. */
  lemma SplitWithout(s: string, c: char)
    requires c !in s
    ensures Split(s, c) == [s]
  {
    assert Find(s, c).None?;
  }

  /** Splitting at the first separator only peels off the text before it. */
  lemma SplitAtFirst(a: string, b: string, c: char)
    requires c !in a
    ensures Split(a + [c] + b, c) == [a] + Split(b, c)
  {
    var s := a + [c] + b;
    FindAfter(a, b, c);
    assert s[..|a|] == a && s[|a| + 1..] == b;
  }

  /** The first `c` after a `c`-free prefix is the one right after it. */
  lemma FindAfter(a: string, b: string, c: char)
    requires c !in a
    ensures Find(a + [c] + b, c) == Some(|a|)
  {
    var s := a + [c] + b;
    var r := Find(s, c);
    assert s[|a|] == c;
    assert forall j :: 0 <= j < |a| ==> s[j] == a[j];
  }

  /** Split is the inverse of JoinWith on pieces free of the separator. */
  lemma {:induction false} SplitJoinWith(parts: seq<string>, c: char)
    requires |parts| >= 1
    requires forall k :: 0 <= k < |parts| ==> c !in parts[k]
    ensures Split(JoinWith(parts, c), c) == parts
    decreases |parts|
  {
    if |parts| == 1 {
      assert Find(parts[0], c).None?;
    } else {
      SplitJoinWith(parts[1..], c);
      SplitAtFirst(parts[0], JoinWith(parts[1..], c), c);
    }
  }

  /** Gluing on one more piece at the end. */
  lemma {:induction false} JoinWithSnoc(parts: seq<string>, q: string, c: char)
    requires |parts| >= 1
    ensures JoinWith(parts + [q], c) == JoinWith(parts, c) + [c] + q
    decreases |parts|
  {
    if |parts| > 1 {
      assert (parts + [q])[1..] == parts[1..] + [q];
      JoinWithSnoc(parts[1..], q, c);
    }
  }

  /** The text a writer produces for `lines`, each line followed by a line
      break. */
  function Unlines(lines: seq<string>): string
  {
    if lines == [] then "" else lines[0] + "\n" + Unlines(lines[1..])
  }

  /** Writing lines one at a time: each write appends one terminated line. */
  lemma {:induction false} UnlinesSnoc(lines: seq<string>, l: string)
    ensures Unlines(lines + [l]) == Unlines(lines) + l + "\n"
    decreases |lines|
  {
    if lines != [] {
      assert (lines + [l])[1..] == lines[1..] + [l];
      UnlinesSnoc(lines[1..], l);
    }
  }

  /** Text written as terminated lines ends with a break, unless there are
      no lines. */
  lemma UnlinesEnd(lines: seq<string>)
    requires lines != []
    ensures Unlines(lines) != [] && Unlines(lines)[|Unlines(lines)| - 1] == '\n'
  {
    var n := |lines|;
    assert lines == lines[..n - 1] + [lines[n - 1]];
    UnlinesSnoc(lines[..n - 1], lines[n - 1]);
  }

  /** Terminated lines are the separator-joined lines with an empty piece last. */
  lemma {:induction false} UnlinesAsJoin(lines: seq<string>)
    ensures Unlines(lines) == JoinWith(lines + [""], '\n')
    decreases |lines|
  {
    if lines != [] {
      assert (lines + [""])[1..] == lines[1..] + [""];
      UnlinesAsJoin(lines[1..]);
    }
  }

  /** The lines of a file as a line reader that splits at '\n' and does not
      keep the break returns them: a final break does not start another line,
      and empty text has no lines. */
  function Lines(s: string): (lines: seq<string>)
    ensures forall k :: 0 <= k < |lines| ==> '\n' !in lines[k]
  {
    SplitMeaning(s, '\n');
    var p := Split(s, '\n');
    if p[|p| - 1] == "" then p[..|p| - 1] else p
  }

  /** Lines is the inverse of Unlines on break-free lines. */
  lemma LinesOfUnlines(lines: seq<string>)
    requires forall k :: 0 <= k < |lines| ==> '\n' !in lines[k]
    ensures Lines(Unlines(lines)) == lines
  {
    UnlinesAsJoin(lines);
    SplitJoinWith(lines + [""], '\n');
    assert (lines + [""])[..|lines|] == lines;
  }

  /** Reading the lines of a text and writing them back reproduces the text,
      except that a last line lacking its break gets one. */
  lemma UnlinesOfLines(s: string)
    ensures Unlines(Lines(s)) == if s == [] || s[|s| - 1] == '\n' then s else s + "\n"
  {
    var p := Split(s, '\n');
    SplitMeaning(s, '\n');
    if p[|p| - 1] == "" {
      assert Lines(s) == p[..|p| - 1];
      UnlinesOfTerminated(s, p);
    } else {
      assert Lines(s) == p;
      UnlinesOfUnterminated(s, p);
      UnterminatedLast(s, p);
    }
  }

  /** The last piece is empty: the text is empty or ends in a break. */
  lemma UnlinesOfTerminated(s: string, p: seq<string>)
    requires |p| >= 1 && JoinWith(p, '\n') == s && p[|p| - 1] == ""
    ensures Unlines(p[..|p| - 1]) == s
    ensures s == [] || s[|s| - 1] == '\n'
  {
    var n := |p|;
    if n > 1 {
      UnlinesAsJoin(p[..n - 1]);
      PrefixThenLast(p);
      JoinWithSnoc(p[..n - 1], "", '\n');
    }
  }

  /** The last piece is not empty: writing the lines back adds a break. */
  lemma UnlinesOfUnterminated(s: string, p: seq<string>)
    requires |p| >= 1 && JoinWith(p, '\n') == s
    ensures Unlines(p) == s + "\n"
  {
    UnlinesAsJoin(p);
    JoinWithSnoc(p, "", '\n');
  }

  /** A non-empty last piece free of breaks: the text does not end in one. */
  lemma UnterminatedLast(s: string, p: seq<string>)
    requires |p| >= 1 && JoinWith(p, '\n') == s
    requires p[|p| - 1] != "" && '\n' !in p[|p| - 1]
    ensures s != [] && s[|s| - 1] != '\n'
  {
    var last := p[|p| - 1];
    JoinWithEndsWithLast(p, '\n');
    assert s[|s| - 1] == s[|s| - |last|..][|last| - 1];
    assert last[|last| - 1] in last;
  }

  /** The joined text ends with the last piece. */
  lemma {:induction false} JoinWithEndsWithLast(parts: seq<string>, c: char)
    requires |parts| >= 1
    ensures |JoinWith(parts, c)| >= |parts[|parts| - 1]|
    ensures JoinWith(parts, c)[|JoinWith(parts, c)| - |parts[|parts| - 1]|..] == parts[|parts| - 1]
    decreases |parts|
  {
    if |parts| > 1 {
      JoinWithEndsWithLast(parts[1..], c);
    }
  }

  predicate IsDigit(ch: char) { '0' <= ch <= '9' }

  predicate IsDecimal(s: string)
  {
    |s| >= 1 && forall k :: 0 <= k < |s| ==> IsDigit(s[k])
  }

  function DigitChar(d: nat): (ch: char)
    requires d < 10
    ensures IsDigit(ch)
  {
    ('0' as int + d) as char
  }

  /** The shortest decimal numeral of `n`, as Python's str() of an int and a
      C++ stream insertion of an unsigned integer write it. */
  function NatToString(n: nat): (s: string)
    ensures IsDecimal(s)
    ensures s[0] == '0' ==> n == 0
    decreases n
  {
    if n < 10 then [DigitChar(n)] else NatToString(n / 10) + [DigitChar(n % 10)]
  }

  function DigitValue(ch: char): (d: nat)
    requires IsDigit(ch)
    ensures d < 10 && DigitChar(d) == ch
  {
    ch as int - '0' as int
  }

  /** The value of a decimal numeral. */
  function DecimalValue(s: string): nat
    requires forall k :: 0 <= k < |s| ==> IsDigit(s[k])
  {
    if s == [] then 0
    else DecimalValue(s[..|s| - 1]) * 10 + DigitValue(s[|s| - 1])
  }

  /** Reading a rendered numeral back gives the number. */
  lemma {:induction false} DecimalValueOfNatToString(n: nat)
    ensures DecimalValue(NatToString(n)) == n
    decreases n
  {
    var s := NatToString(n);
    if n >= 10 {
      DecimalValueOfNatToString(n / 10);
      assert s[..|s| - 1] == NatToString(n / 10);
    } else {
      assert s[..|s| - 1] == [];
    }
  }

  /** Distinct numbers have distinct numerals. */
  lemma NatToStringInjective(m: nat, n: nat)
    requires NatToString(m) == NatToString(n)
    ensures m == n
  {
    DecimalValueOfNatToString(m);
    DecimalValueOfNatToString(n);
  }
}
