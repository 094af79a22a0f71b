/**
 * The runner, `autotester.py`: checks that the executable and the test
 * directories exist, pairs `input/` with `output/` by sorted position, runs
 * the program on every input and compares its output with the expected file.
 */
module Autotester {
  import opened Results
  import opened Text
  import opened StableSort
  import opened FileNames
  import opened Harness

  /** `tests/`, with its `input/` and `output/` sub-directories when they
      exist. */
  datatype TestsDir = TestsDir(input: Option<Dir>, output: Option<Dir>)

  /** Both listings as `load_tests` returns them, and whether it printed
      the bad-file warning. */
  datatype Sorted = Sorted(inputs: seq<Name>, outputs: seq<Name>, warned: bool)

  /** The `try` block that sorts both listings by integer stem. The input
      listing is sorted first; when one of its stems is not an integer the
      output sort never runs, so both stay in listing order. */
  function SortListings(ins: seq<Name>, outs: seq<Name>): (r: Sorted)
    ensures multiset(r.inputs) == multiset(ins) && multiset(r.outputs) == multiset(outs)
    ensures r.warned <==> !AllStemsParse(ins) || !AllStemsParse(outs)
    ensures AllStemsParse(ins) ==> StableSortOf(r.inputs, ins, StemKey)
    ensures !AllStemsParse(ins) ==> r.inputs == ins && r.outputs == outs
    ensures AllStemsParse(ins) && AllStemsParse(outs) ==> StableSortOf(r.outputs, outs, StemKey)
    ensures AllStemsParse(ins) && !AllStemsParse(outs) ==> r.outputs == outs
  {
    match SortByStem(ins)
    case None => Sorted(ins, outs, true)
    case Some(si) =>
      match SortByStem(outs)
      case None => Sorted(si, outs, true)
      case Some(so) => Sorted(si, so, false)
  }

  /** All three directories exist. */
  predicate Present(t: Option<TestsDir>) {
    t.Some? && t.value.input.Some? && t.value.output.Some?
  }

  /** `load_tests`: each `assert` in turn, then the sort, then the count. */
  function LoadTests(t: Option<TestsDir>): (r: Result<Sorted, LoadError>)
    ensures r == Failure(NoTestsDir) <==> t.None?
    ensures r == Failure(NoInputDir) <==> t.Some? && t.value.input.None?
    ensures r == Failure(NoOutputDir) <==> t.Some? && t.value.input.Some? && t.value.output.None?
    ensures r == Failure(EmptyInputDir) <==> Present(t) && |t.value.input.value.listing| == 0
    ensures r == Failure(EmptyOutputDir)
        <==> Present(t) && |t.value.input.value.listing| > 0 && |t.value.output.value.listing| == 0
    ensures r == Failure(CountMismatch)
        <==> Present(t) && |t.value.input.value.listing| > 0 && |t.value.output.value.listing| > 0
             && |t.value.input.value.listing| != |t.value.output.value.listing|
    ensures r.Success? ==> Present(t) && r.value == SortListings(t.value.input.value.listing, t.value.output.value.listing)
    ensures r.Success? ==> 0 < |r.value.inputs| == |r.value.outputs|
  {
    match t
    case None => Failure(NoTestsDir)
    case Some(d) =>
      if d.input.None? then Failure(NoInputDir)
      else if d.output.None? then Failure(NoOutputDir)
      else if |d.input.value.listing| == 0 then Failure(EmptyInputDir)
      else if |d.output.value.listing| == 0 then Failure(EmptyOutputDir)
      else
        var s := SortListings(d.input.value.listing, d.output.value.listing);
        assert |s.inputs| == |multiset(s.inputs)| && |s.outputs| == |multiset(s.outputs)|;
        if |s.inputs| != |s.outputs| then Failure(CountMismatch) else Success(s)
  }

  /** What one test case prints. */
  datatype Verdict = Correct | WrongAnswer | RuntimeFailure(stderr: string) | TimedOut

  /** The verdict for one case: the program's output with the ends stripped
      against the expected file, read in text mode, with every line stripped
      and the lines joined by `\n`. The program's output is decoded but not
      newline-translated. A runtime error shows standard error, stripped. */
  function Judge(o: Outcome, expected: string): (v: Verdict)
    ensures v == Correct <==> o.Returned? && Strip(o.out) == ExpectedText(ReadText(expected))
    ensures v == WrongAnswer <==> o.Returned? && Strip(o.out) != ExpectedText(ReadText(expected))
    ensures v.RuntimeFailure? <==> o.RuntimeError?
    ensures v.RuntimeFailure? ==> IsStripOf(v.stderr, o.err)
    ensures v == TimedOut <==> o.Timeout?
  {
    match o
    case Returned(out) => if Strip(out) == ExpectedText(ReadText(expected)) then Correct else WrongAnswer
    case RuntimeError(err) => RuntimeFailure(Strip(err))
    case Timeout => TimedOut
  }

  /** `no_of_good_tests` after the verdicts `vs`. */
  function Passed(vs: seq<Verdict>): (n: nat)
    ensures n <= |vs|
    ensures n == |vs| <==> forall j :: 0 <= j < |vs| ==> vs[j] == Correct
  {
    if vs == [] then 0
    else Passed(vs[..|vs| - 1]) + (if vs[|vs| - 1] == Correct then 1 else 0)
  }

  /** The counter is the number of `Correct` verdicts. */
  lemma {:induction false} PassedCountsCorrect(vs: seq<Verdict>)
    ensures Passed(vs) == multiset(vs)[Correct]
    decreases |vs|
  {
    if vs != [] {
      var p := vs[..|vs| - 1];
      PassedCountsCorrect(p);
      assert vs == p + [vs[|vs| - 1]];
    }
  }

  /** The first position where the two listings name different files, or
      their length when they agree everywhere. */
  function FirstMismatch(a: seq<Name>, b: seq<Name>): (k: nat)
    requires |a| == |b|
    ensures k <= |a|
    ensures forall j :: 0 <= j < k ==> a[j] == b[j]
    ensures k < |a| ==> a[k] != b[k]
  {
    if a == [] || a[0] != b[0] then 0 else 1 + FirstMismatch(a[1..], b[1..])
  }

  /** The verdicts for the cases `names`, in order; case `n` feeds
      `input/n` to the program and compares with `output/n`. */
  function JudgeAll(line: string, names: seq<Name>, input: Dir, output: Dir,
                    run: (string, string) -> Outcome): (vs: seq<Verdict>)
    requires forall i :: 0 <= i < |names| ==> names[i] in input.files && names[i] in output.files
    ensures |vs| == |names|
    ensures forall i :: 0 <= i < |names| ==>
      vs[i] == Judge(run(line, input.files[names[i]]), output.files[names[i]])
  {
    if names == [] then []
    else
      var first := Judge(run(line, input.files[names[0]]), output.files[names[0]]);
      var rest := JudgeAll(line, names[1..], input, output, run);
      assert forall i :: 1 <= i < |names| ==> ([first] + rest)[i] == rest[i - 1] && names[i] == names[1..][i - 1];
      [first] + rest
  }

  /** Why the runner stopped early. */
  datatype Abort =
    | MissingExecutable
    | LoadFailed(error: LoadError)
    | NameMismatch(index: nat, input: Name, output: Name)

  /** What `run_tests` reports: every verdict and the pass count (the total
      is the number of verdicts), or the verdicts printed before it
      stopped. */
  datatype Report =
    | Finished(verdicts: seq<Verdict>, passed: nat)
    | Aborted(reason: Abort, verdicts: seq<Verdict>)

  /** The directories the runner can read. */
  predicate Readable(t: Option<TestsDir>) {
    && (t.Some? && t.value.input.Some? ==> Listed(t.value.input.value))
    && (t.Some? && t.value.output.Some? ==> Listed(t.value.output.value))
  }

  /** Both listings name only files of their directories. */
  predicate Opens(s: Sorted, input: Dir, output: Dir) {
    && |s.inputs| == |s.outputs|
    && (forall i :: 0 <= i < |s.inputs| ==> s.inputs[i] in input.files)
    && (forall i :: 0 <= i < |s.outputs| ==> s.outputs[i] in output.files)
  }

  /** The loop of `run_tests` over the loaded listings: cases run in order
      until the first position whose two names differ, where the `assert`
      ends the run; the cases before it have been judged. */
  function Session(line: string, s: Sorted, input: Dir, output: Dir, run: (string, string) -> Outcome): (r: Report)
    requires Opens(s, input, output)
    ensures var k := FirstMismatch(s.inputs, s.outputs);
      && (r.Aborted? <==> k < |s.inputs|)
      && (r.Aborted? ==> r.reason == NameMismatch(k, s.inputs[k], s.outputs[k]))
      && (r.Finished? ==> s.inputs == s.outputs && r.passed == Passed(r.verdicts))
      && r.verdicts == JudgeAll(line, s.inputs[..k], input, output, run)
  {
    var k := FirstMismatch(s.inputs, s.outputs);
    var vs := JudgeAll(line, s.inputs[..k], input, output, run);
    if k < |s.inputs| then Aborted(NameMismatch(k, s.inputs[k], s.outputs[k]), vs)
    else
      assert s.inputs == s.outputs;
      Finished(vs, Passed(vs))
  }

  /** When every position pairs equal names, every case is judged. */
  lemma SessionWhenPaired(line: string, s: Sorted, input: Dir, output: Dir, run: (string, string) -> Outcome)
    requires Opens(s, input, output)
    requires s.inputs == s.outputs
    ensures var vs := JudgeAll(line, s.inputs, input, output, run);
            Session(line, s, input, output, run) == Finished(vs, Passed(vs))
  {
    var k := FirstMismatch(s.inputs, s.outputs);
    assert k == |s.inputs|;
    assert s.inputs[..k] == s.inputs;
  }

  /** `run_tests`: `check_exec`, then `load_tests`, then the loop. */
  function RunTests(cmd: string, exec: Name, cwd: set<Name>, t: Option<TestsDir>,
                    run: (string, string) -> Outcome): (r: Report)
    requires Readable(t)
    ensures r == Aborted(MissingExecutable, []) <==> exec !in cwd
    ensures r.Aborted? && r.reason.LoadFailed? <==> exec in cwd && LoadTests(t).Failure?
    ensures r.Aborted? && r.reason.LoadFailed? ==> r == Aborted(LoadFailed(LoadTests(t).error), [])
    ensures exec in cwd && LoadTests(t).Success? ==>
      && Opens(LoadTests(t).value, t.value.input.value, t.value.output.value)
      && r == Session(CommandLine(cmd, exec), LoadTests(t).value, t.value.input.value, t.value.output.value, run)
  {
    if exec !in cwd then Aborted(MissingExecutable, [])
    else
      match LoadTests(t)
      case Failure(e) => Aborted(LoadFailed(e), [])
      case Success(s) =>
        var input, output := t.value.input.value, t.value.output.value;
        PermutedListed(input, s.inputs);
        PermutedListed(output, s.outputs);
        Session(CommandLine(cmd, exec), s, input, output, run)
  }

  /** A tests directory listing `ins` in `input/` and `outs` in `output/`,
      every file empty. */
  function ListedTree(ins: seq<Name>, outs: seq<Name>): (t: Option<TestsDir>)
    ensures Readable(t) && Present(t)
    ensures t.value.input.value.listing == ins && t.value.output.value.listing == outs
  {
    Some(TestsDir(Some(Dir(ins, map n | n in ins :: "")), Some(Dir(outs, map n | n in outs :: ""))))
  }

  /** Inputs `a b c` against outputs `a b d`, each list already in stem
      order: both load unchanged, and the run judges two cases before the
      third pairing aborts it. */
  lemma MismatchAtThird(cmd: string, exec: Name, cwd: set<Name>, run: (string, string) -> Outcome,
                        a: Name, b: Name, c: Name, d: Name)
    requires exec in cwd && c != d
    requires StemValue(a).Some? && StemValue(b).Some? && StemValue(c).Some? && StemValue(d).Some?
    requires StemKey(a) <= StemKey(b) <= StemKey(c) && StemKey(b) <= StemKey(d)
    ensures var r := RunTests(cmd, exec, cwd, ListedTree([a, b, c], [a, b, d]), run);
            r.Aborted? && r.reason == NameMismatch(2, c, d) && |r.verdicts| == 2
  {
    InOrderThree(a, b, c);
    InOrderThree(a, b, d);
    var t, s := ListedTree([a, b, c], [a, b, d]), Sorted([a, b, c], [a, b, d], false);
    LoadsInOrder([a, b, c], [a, b, d]);
    MismatchAtLast(a, b, c, d);
    RunAbortsAtMismatch(cmd, exec, cwd, t, run, s);
  }

  /** Listings already in stem order load unchanged, without a warning. */
  lemma LoadsInOrder(ins: seq<Name>, outs: seq<Name>)
    requires 0 < |ins| == |outs|
    requires SortByStem(ins) == Some(ins) && SortByStem(outs) == Some(outs)
    ensures LoadTests(ListedTree(ins, outs)) == Success(Sorted(ins, outs, false))
  {
    assert SortListings(ins, outs) == Sorted(ins, outs, false);
  }

  lemma MismatchAtLast(a: Name, b: Name, c: Name, d: Name)
    requires c != d
    ensures FirstMismatch([a, b, c], [a, b, d]) == 2
  {
    assert [a, b, c][1..] == [b, c] && [a, b, d][1..] == [b, d];
    assert [b, c][1..] == [c] && [b, d][1..] == [d];
    assert FirstMismatch([c], [d]) == 0;
    assert FirstMismatch([b, c], [b, d]) == 1;
  }

  /** Inputs `1.txt 2.txt 3.txt` against outputs `1.txt 2.txt 4.txt`: the
      first two cases are judged before the third pairing aborts the run. */
  lemma MismatchAfterTwoCases(cmd: string, exec: Name, cwd: set<Name>, run: (string, string) -> Outcome)
    requires exec in cwd
    ensures var r := RunTests(cmd, exec, cwd, ListedTree(["1.txt", "2.txt", "3.txt"], ["1.txt", "2.txt", "4.txt"]), run);
            r.Aborted? && r.reason == NameMismatch(2, "3.txt", "4.txt") && |r.verdicts| == 2
  {
    KeyOf1Txt(); KeyOf2Txt(); KeyOf3Txt(); KeyOf4Txt();
    assert "3.txt" != "4.txt" by { assert "3.txt"[0] != "4.txt"[0]; }
    MismatchAtThird(cmd, exec, cwd, run, "1.txt", "2.txt", "3.txt", "4.txt");
  }

  /** A load whose lists first differ at `k` ends the run there, after `k`
      verdicts. */
  lemma RunAbortsAtMismatch(cmd: string, exec: Name, cwd: set<Name>, t: Option<TestsDir>,
                            run: (string, string) -> Outcome, s: Sorted)
    requires exec in cwd && Readable(t) && LoadTests(t) == Success(s)
    requires FirstMismatch(s.inputs, s.outputs) < |s.inputs|
    ensures var r := RunTests(cmd, exec, cwd, t, run);
            var k := FirstMismatch(s.inputs, s.outputs);
            r.Aborted? && r.reason == NameMismatch(k, s.inputs[k], s.outputs[k]) && |r.verdicts| == k
  {
  }

  /** Output `"hello\n"` against an expected file `"hello"` is correct. */
  lemma HelloIsCorrect()
    ensures Judge(Returned("hello\n"), "hello") == Correct
  {
    HelloOutput();
    HelloExpected();
  }

  lemma HelloOutput()
    ensures Strip("hello\n") == "hello"
  {
    assert "hello" + "\n" == "hello\n";
    StripSkipsTrailingWs("hello", "\n");
    HelloStripped();
  }

  lemma HelloExpected()
    ensures ExpectedText(ReadText("hello")) == "hello"
  {
    assert '\r' !in "hello";
    SingleLineText("hello");
    HelloStripped();
  }

  lemma HelloStripped()
    ensures Strip("hello") == "hello"
  {
    assert Stripped("hello");
    StrippedIsFixedPoint("hello");
  }

  /** A newline at the end of the expected file does not change a verdict. */
  lemma JudgeIgnoresFinalNewline(o: Outcome, expected: string)
    requires expected == [] || expected[|expected| - 1] != '\n'
    ensures Judge(o, expected + "\n") == Judge(o, expected)
  {
    ReadFinalNewline(expected);
  }

  /** Whitespace around the program's output does not change a verdict. */
  lemma JudgeIgnoresOuterWs(w1: string, out: string, w2: string, expected: string)
    requires WsOutside(w1, 0, 0) && WsOutside(w2, 0, 0)
    ensures Judge(Returned(w1 + out + w2), expected) == Judge(Returned(out), expected)
  {
    StripSkipsTrailingWs(w1 + out, w2);
    StripSkipsLeadingWs(w1, out);
  }
}
