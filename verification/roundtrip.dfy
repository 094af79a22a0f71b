/**
 * Generating the expected outputs with `generator.py` and then running the
 * same program with `autotester.py` passes every test, under conditions the
 * scripts do not check themselves. Four of the conditions are shown to be
 * needed: lines without whitespace at their ends, no `\r`, stems that are
 * integers with distinct values (both halves), and no stale file in
 * `output/`.
 */
module RoundTrip {
  import opened Results
  import opened Text
  import opened StableSort
  import opened FileNames
  import opened Harness
  import Autotester
  import Generator

  /** The conditions on the program's output: every run succeeds, the
      stripped output holds no `\r` (which reading the written file turns
      into a newline), and no line of it has whitespace at either end. */
  predicate CleanRuns(line: string, d: Dir, run: (string, string) -> Completion) {
    forall n :: n in d.files ==>
      && run(line, d.files[n]).Returned?
      && '\r' !in Strip(run(line, d.files[n]).out)
      && AllStripped(SplitLines(Strip(run(line, d.files[n]).out)))
  }

  /** `output/` holds, for every input, the stripped output of its run. */
  predicate WrittenFrom(written: map<Name, string>, line: string, d: Dir, run: (string, string) -> Completion) {
    && written.Keys == d.files.Keys
    && forall n :: n in written ==> run(line, d.files[n]).Returned? && written[n] == Strip(run(line, d.files[n]).out)
  }

  /** The runner's view of `tests/`: `input/` and an `output/` listed in
      the order `listing`. */
  function Tree(d: Dir, written: map<Name, string>, listing: seq<Name>): (t: Option<Autotester.TestsDir>)
    ensures t.Some? && t.value.input == Some(d) && t.value.output == Some(Dir(listing, written))
  {
    Some(Autotester.TestsDir(Some(d), Some(Dir(listing, written))))
  }

  /** With every run successful and no stale file in `output/`, the
      generator writes exactly one file per input. */
  lemma GeneratorWritesEveryInput(cmd: string, exec: Name, cwd: set<Name>, d: Dir,
                                  out: Option<map<Name, string>>, run: (string, string) -> Completion)
    requires exec in cwd
    requires ListsExactly(d.listing, d.files) && |d.listing| > 0
    requires out.Some? ==> out.value.Keys <= d.files.Keys
    requires forall n :: n in d.files ==> run(CommandLine(cmd, exec), d.files[n]).Returned?
    ensures var g := Generator.Generate(cmd, exec, cwd, Some(Generator.GenTree(Some(d), out)), run);
            g.Done? && WrittenFrom(g.output, CommandLine(cmd, exec), d, run)
  {
    var line := CommandLine(cmd, exec);
    var t := Some(Generator.GenTree(Some(d), out));
    var p := Generator.LoadTests(t);
    assert p.Success?;
    var before := p.value.output;
    assert before.Keys <= d.files.Keys;
    var g := Generator.Generate(cmd, exec, cwd, t, run);
    assert g.Done?;
    WrittenEverywhere(g.output, before, line, d, run);
  }

  /** A plan that writes every input, over a directory holding no other
      name, leaves exactly the written files. */
  lemma WrittenEverywhere(r: map<Name, string>, before: map<Name, string>, line: string, d: Dir,
                          run: (string, string) -> Completion)
    requires ListsExactly(d.listing, d.files)
    requires before.Keys <= d.files.Keys
    requires forall n :: n in d.files ==> run(line, d.files[n]).Returned?
    requires forall n :: n in r <==> n in before || Generator.Writes(line, d.listing, d.files, run, n)
    requires forall n :: n in r && Generator.Writes(line, d.listing, d.files, run, n)
               ==> r[n] == Strip(run(line, d.files[n]).out)
    ensures WrittenFrom(r, line, d, run)
  {
    assert forall n :: n in d.files ==> Generator.Writes(line, d.listing, d.files, run, n);
  }

  /** The runner's runs end as the generator's did: in particular none
      of them exceeds the time limit. */
  predicate SameRuns(line: string, d: Dir, gen: (string, string) -> Completion, test: (string, string) -> Outcome) {
    forall n :: n in d.files ==> test(line, d.files[n]) == gen(line, d.files[n])
  }

  /** The runner, given an `output/` written from every input's run, finds
      every case `Correct`, however `output/` happens to be listed. */
  lemma RunnerPassesAll(cmd: string, exec: Name, cwd: set<Name>, d: Dir, written: map<Name, string>,
                        listing: seq<Name>, gen: (string, string) -> Completion, test: (string, string) -> Outcome)
    requires exec in cwd
    requires ListsExactly(d.listing, d.files) && |d.listing| > 0
    requires AllStemsParse(d.listing) && DistinctKeys(d.listing, StemKey)
    requires CleanRuns(CommandLine(cmd, exec), d, gen)
    requires WrittenFrom(written, CommandLine(cmd, exec), d, gen)
    requires SameRuns(CommandLine(cmd, exec), d, gen, test)
    requires ListsExactly(listing, written)
    ensures var r := Autotester.RunTests(cmd, exec, cwd, Tree(d, written, listing), test);
            && r.Finished?
            && |r.verdicts| == |d.listing|
            && r.passed == |r.verdicts|
  {
    var line := CommandLine(cmd, exec);
    var t := Tree(d, written, listing);
    ListingsPermute(d.listing, d.files, listing, written);
    var s := LoadingPairsNames(d, written, listing);
    PermutedListed(d, s.inputs);
    Autotester.SessionWhenPaired(line, s, d, Dir(listing, written), test);
    EveryCaseCorrect(line, s.inputs, d, written, listing, gen, test);
  }

  /** Each case compares the stripped output with the file written from it. */
  lemma EveryCaseCorrect(line: string, names: seq<Name>, d: Dir, written: map<Name, string>, listing: seq<Name>,
                         gen: (string, string) -> Completion, test: (string, string) -> Outcome)
    requires CleanRuns(line, d, gen)
    requires WrittenFrom(written, line, d, gen)
    requires SameRuns(line, d, gen, test)
    requires forall i :: 0 <= i < |names| ==> names[i] in d.files
    ensures forall i :: 0 <= i < |names| ==> names[i] in Dir(listing, written).files
    ensures var vs := Autotester.JudgeAll(line, names, d, Dir(listing, written), test);
            forall j :: 0 <= j < |vs| ==> vs[j] == Autotester.Correct
  {
    var vs := Autotester.JudgeAll(line, names, d, Dir(listing, written), test);
    forall j | 0 <= j < |vs| ensures vs[j] == Autotester.Correct {
      var n := names[j];
      var o := gen(line, d.files[n]);
      assert o.Returned? && written[n] == Strip(o.out) && test(line, d.files[n]) == o;
      CleanRunPasses(o.out);
    }
  }

  /** The runner's loader sorts both listings into the same order. */
  lemma LoadingPairsNames(d: Dir, written: map<Name, string>, listing: seq<Name>) returns (s: Autotester.Sorted)
    requires ListsExactly(d.listing, d.files) && |d.listing| > 0
    requires AllStemsParse(d.listing) && DistinctKeys(d.listing, StemKey)
    requires ListsExactly(listing, written) && written.Keys == d.files.Keys
    requires multiset(d.listing) == multiset(listing)
    ensures Autotester.LoadTests(Tree(d, written, listing)) == Success(s)
    ensures s.inputs == s.outputs && multiset(s.inputs) == multiset(d.listing)
    ensures Autotester.FirstMismatch(s.inputs, s.outputs) == |s.inputs|
  {
    assert |listing| == |multiset(listing)| == |multiset(d.listing)| == |d.listing|;
    forall i | 0 <= i < |listing| ensures StemValue(listing[i]).Some? {
      assert listing[i] in multiset(d.listing);
      var j :| 0 <= j < |d.listing| && d.listing[j] == listing[i];
    }
    SortByIgnoresListingOrder(d.listing, listing, StemKey);
    s := Autotester.SortListings(d.listing, listing);
    SortByIsTheStableSort(s.inputs, d.listing, StemKey);
    SortByIsTheStableSort(s.outputs, listing, StemKey);
  }

  /** The runner accepts a generated file exactly when the stripped output
      holds no `\r` and no line of it has whitespace at either end: the
      output is stripped as one block, the expected file is read in text
      mode and stripped line by line. */
  lemma GeneratedCaseVerdict(out: string)
    ensures Autotester.Judge(Returned(out), Strip(out)) == Autotester.Correct
        <==> '\r' !in Strip(out) && AllStripped(SplitLines(Strip(out)))
  {
    var s := Strip(out);
    StripIdempotent(out);
    if '\r' in s {
      ReadExpectedHasNoCr(s);
    } else {
      ExpectedTextFixedPoint(s);
    }
  }

  lemma CleanRunPasses(out: string)
    requires '\r' !in Strip(out) && AllStripped(SplitLines(Strip(out)))
    ensures Autotester.Judge(Returned(out), Strip(out)) == Autotester.Correct
  {
    GeneratedCaseVerdict(out);
  }

  /** Generate, then run: every test passes, for any listing order of the
      generated `output/`. */
  lemma GenerateThenRun(cmd: string, exec: Name, cwd: set<Name>, d: Dir, out: Option<map<Name, string>>,
                        gen: (string, string) -> Completion, test: (string, string) -> Outcome)
    requires exec in cwd
    requires ListsExactly(d.listing, d.files) && |d.listing| > 0
    requires AllStemsParse(d.listing) && DistinctKeys(d.listing, StemKey)
    requires out.Some? ==> out.value.Keys <= d.files.Keys
    requires CleanRuns(CommandLine(cmd, exec), d, gen)
    requires SameRuns(CommandLine(cmd, exec), d, gen, test)
    ensures var g := Generator.Generate(cmd, exec, cwd, Some(Generator.GenTree(Some(d), out)), gen);
            && g.Done?
            && forall listing :: ListsExactly(listing, g.output) ==>
                 var r := Autotester.RunTests(cmd, exec, cwd, Tree(d, g.output, listing), test);
                 r.Finished? && r.passed == |r.verdicts| == |d.listing|
  {
    GeneratorWritesEveryInput(cmd, exec, cwd, d, out, gen);
    var g := Generator.Generate(cmd, exec, cwd, Some(Generator.GenTree(Some(d), out)), gen);
    forall listing | ListsExactly(listing, g.output)
      ensures var r := Autotester.RunTests(cmd, exec, cwd, Tree(d, g.output, listing), test);
              r.Finished? && r.passed == |r.verdicts| == |d.listing|
    {
      RunnerPassesAll(cmd, exec, cwd, d, g.output, listing, gen, test);
    }
  }

  /** The output `"a \nb"` is already stripped, so the generator writes it
      unchanged; but its first line ends with a space, which the runner
      strips from the expected file only, so the case is judged wrong. */
  lemma InnerSpaceBreaksRoundTrip()
    ensures Strip("a \nb") == "a \nb"
    ensures Autotester.Judge(Returned("a \nb"), Strip("a \nb")) == Autotester.WrongAnswer
  {
    InnerSpaceIsStripped();
    InnerSpaceLineNotStripped();
    GeneratedCaseVerdict("a \nb");
  }

  lemma InnerSpaceIsStripped()
    ensures Strip("a \nb") == "a \nb"
  {
    var s := "a \nb";
    assert s[0] == 'a' && s[|s| - 1] == 'b';
    StrippedIsFixedPoint(s);
  }

  lemma InnerSpaceLineNotStripped()
    ensures !AllStripped(SplitLines("a \nb"))
  {
    assert "a " + "\n" + "b" == "a \nb";
    SplitLinesCons("a ", "b");
    assert "a "[1] == ' ';
    assert !Stripped(SplitLines("a \nb")[0]);
  }

  /** The output `"a\rb"` is already stripped, so the generator writes it
      unchanged; but the runner reads the file in text mode, where the `\r`
      becomes a newline, so the case is judged wrong. */
  lemma CarriageReturnBreaksRoundTrip()
    ensures Strip("a\rb") == "a\rb"
    ensures Autotester.Judge(Returned("a\rb"), Strip("a\rb")) == Autotester.WrongAnswer
  {
    CarriageReturnIsStripped();
    CarriageReturnJudgedWrong("a\rb");
  }

  lemma CarriageReturnIsStripped()
    ensures Strip("a\rb") == "a\rb" && '\r' in "a\rb"
  {
    var s := "a\rb";
    assert s[0] == 'a' && s[|s| - 1] == 'b' && s[1] == '\r';
    StrippedIsFixedPoint(s);
  }

  /** Any output whose stripped form holds a `\r` fails against the file
      written from it. */
  lemma CarriageReturnJudgedWrong(out: string)
    requires '\r' in Strip(out)
    ensures Autotester.Judge(Returned(out), Strip(out)) == Autotester.WrongAnswer
  {
    GeneratedCaseVerdict(out);
  }

  /** Two inputs with the same integer stem keep their listing order when
      sorted; when `output/` lists them the other way round, the very first
      pairing fails although both directories hold the same names. */
  lemma SharedStemBreaksPairing(cmd: string, exec: Name, cwd: set<Name>, a: Name, b: Name,
                                files: map<Name, string>, run: (string, string) -> Outcome)
    requires exec in cwd
    requires a != b && a in files && b in files
    requires StemValue(a).Some? && StemValue(a) == StemValue(b)
    ensures var t := Some(Autotester.TestsDir(Some(Dir([a, b], files)), Some(Dir([b, a], files))));
            Autotester.RunTests(cmd, exec, cwd, t, run) == Autotester.Aborted(Autotester.NameMismatch(0, a, b), [])
  {
    var t := Some(Autotester.TestsDir(Some(Dir([a, b], files)), Some(Dir([b, a], files))));
    SameStemInOrder(a, b);
    SameStemInOrder(b, a);
    assert Autotester.LoadTests(t) == Success(Autotester.Sorted([a, b], [b, a], false));
    assert Autotester.FirstMismatch([a, b], [b, a]) == 0;
  }

  /** When a stem is not an integer, neither listing is sorted; listed in
      opposite orders, the very first pairing fails although both
      directories hold the same names. */
  lemma NonIntegerStemBreaksPairing(cmd: string, exec: Name, cwd: set<Name>, a: Name, b: Name,
                                    files: map<Name, string>, run: (string, string) -> Outcome)
    requires exec in cwd
    requires a != b && a in files && b in files
    requires StemValue(a).None?
    ensures var t := Some(Autotester.TestsDir(Some(Dir([a, b], files)), Some(Dir([b, a], files))));
            && Autotester.LoadTests(t) == Success(Autotester.Sorted([a, b], [b, a], true))
            && Autotester.RunTests(cmd, exec, cwd, t, run) == Autotester.Aborted(Autotester.NameMismatch(0, a, b), [])
  {
    var t := Some(Autotester.TestsDir(Some(Dir([a, b], files)), Some(Dir([b, a], files))));
    assert !AllStemsParse([a, b]) by { assert [a, b][0] == a; }
    assert Autotester.LoadTests(t) == Success(Autotester.Sorted([a, b], [b, a], true));
    assert Autotester.FirstMismatch([a, b], [b, a]) == 0;
  }

  /** Two names of the same stem stay in the order they are listed. */
  lemma SameStemInOrder(x: Name, y: Name)
    requires StemValue(x).Some? && StemValue(x) == StemValue(y)
    ensures SortByStem([x, y]) == Some([x, y])
  {
    assert AllStemsParse([x, y]);
    assert SortedBy([x, y], StemKey);
    SortByKeepsSorted([x, y], StemKey);
  }

  /** `1.a` and `1.b` share the stem `1`. */
  lemma SharedStemExample()
    ensures StemValue("1.a") == StemValue("1.b") == Some(1)
  {
    KeyOf1A();
    KeyOf1B();
  }

  lemma KeyOf1A() ensures StemValue("1.a") == Some(1) {
    KeyOfDigitName("1", ".a");
    assert "1" + ".a" == "1.a";
  }

  lemma KeyOf1B() ensures StemValue("1.b") == Some(1) {
    KeyOfDigitName("1", ".b");
    assert "1" + ".b" == "1.b";
  }

  /** A file `b` left in `output/` from an earlier run survives generation,
      and the runner then finds more outputs than inputs. */
  lemma StaleOutputBreaksCount(cmd: string, exec: Name, cwd: set<Name>, a: Name, b: Name, x: string, y: string,
                               gen: (string, string) -> Completion, test: (string, string) -> Outcome)
    requires exec in cwd && a != b
    requires gen(CommandLine(cmd, exec), x).Returned?
    ensures var d := Dir([a], map[a := x]);
            var g := Generator.Generate(cmd, exec, cwd, Some(Generator.GenTree(Some(d), Some(map[b := y]))), gen);
            && g.Done? && g.output.Keys == {a, b}
            && forall listing :: ListsExactly(listing, g.output) ==>
                 Autotester.RunTests(cmd, exec, cwd, Tree(d, g.output, listing), test)
                 == Autotester.Aborted(Autotester.LoadFailed(CountMismatch), [])
  {
    var d := Dir([a], map[a := x]);
    var g := Generator.Generate(cmd, exec, cwd, Some(Generator.GenTree(Some(d), Some(map[b := y]))), gen);
    StaleFileKept(cmd, exec, cwd, a, b, x, y, gen);
    forall listing | ListsExactly(listing, g.output)
      ensures Autotester.RunTests(cmd, exec, cwd, Tree(d, g.output, listing), test)
           == Autotester.Aborted(Autotester.LoadFailed(CountMismatch), [])
    {
      TwoNamesListed(listing, g.output, a, b);
      assert Autotester.LoadTests(Tree(d, g.output, listing)) == Failure(CountMismatch);
    }
  }

  /** The generator writes `a` and leaves the stale `b`. */
  lemma StaleFileKept(cmd: string, exec: Name, cwd: set<Name>, a: Name, b: Name, x: string, y: string,
                      gen: (string, string) -> Completion)
    requires exec in cwd && a != b
    requires gen(CommandLine(cmd, exec), x).Returned?
    ensures var d := Dir([a], map[a := x]);
            var g := Generator.Generate(cmd, exec, cwd, Some(Generator.GenTree(Some(d), Some(map[b := y]))), gen);
            g.Done? && g.output.Keys == {a, b}
  {
    var d := Dir([a], map[a := x]);
    var t := Some(Generator.GenTree(Some(d), Some(map[b := y])));
    var line := CommandLine(cmd, exec);
    var g := Generator.Generate(cmd, exec, cwd, t, gen);
    assert Generator.LoadTests(t).Success? && Generator.LoadTests(t).value.output == map[b := y];
    OnlyOneWrite(line, a, x, gen);
    KeysAfterWrite(g.output, map[b := y], line, d, gen, a);
  }

  /** With one input `a` whose run succeeds, `a` is the one name written. */
  lemma OnlyOneWrite(line: string, a: Name, x: string, gen: (string, string) -> Completion)
    requires gen(line, x).Returned?
    ensures forall n :: Generator.Writes(line, [a], map[a := x], gen, n) <==> n == a
  {
  }

  lemma KeysAfterWrite(r: map<Name, string>, before: map<Name, string>, line: string, d: Dir,
                       gen: (string, string) -> Completion, a: Name)
    requires forall n :: Generator.Writes(line, d.listing, d.files, gen, n) <==> n == a
    requires forall n :: n in r <==> n in before || Generator.Writes(line, d.listing, d.files, gen, n)
    ensures r.Keys == before.Keys + {a}
  {
  }

  /** A listing of a directory holding two different names has at least two
      entries. */
  lemma TwoNamesListed(listing: seq<Name>, files: map<Name, string>, a: Name, b: Name)
    requires ListsExactly(listing, files)
    requires a != b && a in files && b in files
    ensures |listing| >= 2
  {
    var i :| 0 <= i < |listing| && listing[i] == a;
    var j :| 0 <= j < |listing| && listing[j] == b;
    assert i != j;
  }
}
