/**
 * The generator, `generator.py`: runs a reference program on every file of
 * `input/` and writes its stripped output to the file of the same name in
 * `output/`, creating `output/` when it is missing.
 */
module Generator {
  import opened Results
  import opened Text
  import opened StableSort
  import opened FileNames
  import opened Harness

  /** `tests/`, with `input/` and with the contents of `output/`, when they
      exist. The listing order of `output/` plays no part here. */
  datatype GenTree = GenTree(input: Option<Dir>, output: Option<map<Name, string>>)

  /** What `load_tests` hands to the loop: the input names, whether it
      printed the bad-file warning, and `output/` (created empty if it was
      missing). */
  datatype Prepared = Prepared(inputs: seq<Name>, warned: bool, output: map<Name, string>)

  /** `load_tests`: the three `assert`s, then `output/` is created when
      missing, then the input listing is sorted by integer stem. */
  function LoadTests(t: Option<GenTree>): (r: Result<Prepared, LoadError>)
    ensures r == Failure(NoTestsDir) <==> t.None?
    ensures r == Failure(NoInputDir) <==> t.Some? && t.value.input.None?
    ensures r == Failure(EmptyInputDir) <==> t.Some? && t.value.input.Some? && |t.value.input.value.listing| == 0
    ensures r.Failure? ==> r.error in {NoTestsDir, NoInputDir, EmptyInputDir}
    ensures r.Success? ==>
      var listing := t.value.input.value.listing;
      && t.Some? && t.value.input.Some? && |listing| > 0
      && r.value.output == (if t.value.output.Some? then t.value.output.value else map[])
      && (r.value.warned <==> !AllStemsParse(listing))
      && multiset(r.value.inputs) == multiset(listing)
      && (AllStemsParse(listing) ==> StableSortOf(r.value.inputs, listing, StemKey))
      && (!AllStemsParse(listing) ==> r.value.inputs == listing)
  {
    match t
    case None => Failure(NoTestsDir)
    case Some(d) =>
      if d.input.None? then Failure(NoInputDir)
      else if |d.input.value.listing| == 0 then Failure(EmptyInputDir)
      else
        var output := if d.output.Some? then d.output.value else map[];
        var listing := d.input.value.listing;
        Success(Prepared(SortedOrListed(listing), !AllStemsParse(listing), output))
  }

  /** Case `n` is among `names` and its run succeeds, so `output/n` is
      written. */
  predicate Writes(line: string, names: seq<Name>, input: map<Name, string>,
                   run: (string, string) -> Completion, n: Name) {
    n in names && n in input && run(line, input[n]).Returned?
  }

  /** The loop of `run_tests` over `names`, starting from the contents
      `out` of `output/`: a successful run overwrites `output/n` with its
      output stripped; a failed run writes nothing. */
  function WritePlan(line: string, names: seq<Name>, input: map<Name, string>,
                     run: (string, string) -> Completion, out: map<Name, string>): (r: map<Name, string>)
    requires forall i :: 0 <= i < |names| ==> names[i] in input
    ensures forall n :: n in r <==> n in out || Writes(line, names, input, run, n)
    ensures forall n :: n in r && Writes(line, names, input, run, n) ==> r[n] == Strip(run(line, input[n]).out)
    ensures forall n :: n in r && !Writes(line, names, input, run, n) ==> r[n] == out[n]
  {
    if names == [] then out
    else
      var n := names[0];
      var o := run(line, input[n]);
      var next := if o.Returned? then out[n := Strip(o.out)] else out;
      var r := WritePlan(line, names[1..], input, run, next);
      assert forall m :: m in names <==> m == n || m in names[1..];
      r
  }

  /** Writing the same plan over its own result changes nothing. */
  lemma WritePlanIdempotent(line: string, names: seq<Name>, input: map<Name, string>,
                            run: (string, string) -> Completion, out: map<Name, string>)
    requires forall i :: 0 <= i < |names| ==> names[i] in input
    ensures WritePlan(line, names, input, run, WritePlan(line, names, input, run, out))
         == WritePlan(line, names, input, run, out)
  {
    var once := WritePlan(line, names, input, run, out);
    SameOutput(WritePlan(line, names, input, run, once), once, line, names, input, run);
  }

  /** The order in which cases run does not matter: only which names are
      listed. */
  lemma WritePlanIgnoresOrder(line: string, names: seq<Name>, others: seq<Name>, input: map<Name, string>,
                              run: (string, string) -> Completion, out: map<Name, string>)
    requires forall i :: 0 <= i < |names| ==> names[i] in input
    requires multiset(names) == multiset(others)
    ensures forall i :: 0 <= i < |others| ==> others[i] in input
    ensures WritePlan(line, names, input, run, out) == WritePlan(line, others, input, run, out)
  {
    SameMembers(names, others);
    forall i | 0 <= i < |others| ensures others[i] in input {
      assert others[i] in names;
    }
    SamePlan(WritePlan(line, names, input, run, out), WritePlan(line, others, input, run, out),
             line, names, others, input, run, out);
  }

  lemma SameMembers(names: seq<Name>, others: seq<Name>)
    requires multiset(names) == multiset(others)
    ensures forall n :: n in names <==> n in others
  {
    forall n ensures n in names <==> n in others {
      assert n in names <==> n in multiset(names);
      assert n in others <==> n in multiset(others);
    }
  }

  /** Two maps written by plans over the same names are equal. */
  lemma SamePlan(a: map<Name, string>, b: map<Name, string>, line: string, names: seq<Name>, others: seq<Name>,
                 input: map<Name, string>, run: (string, string) -> Completion, out: map<Name, string>)
    requires forall n :: n in names <==> n in others
    requires forall n :: n in a <==> n in out || Writes(line, names, input, run, n)
    requires forall n :: n in a && Writes(line, names, input, run, n) ==> a[n] == Strip(run(line, input[n]).out)
    requires forall n :: n in a && !Writes(line, names, input, run, n) ==> a[n] == out[n]
    requires forall n :: n in b <==> n in out || Writes(line, others, input, run, n)
    requires forall n :: n in b && Writes(line, others, input, run, n) ==> b[n] == Strip(run(line, input[n]).out)
    requires forall n :: n in b && !Writes(line, others, input, run, n) ==> b[n] == out[n]
    ensures a == b
  {
    assert forall n :: Writes(line, names, input, run, n) == Writes(line, others, input, run, n);
    assert a.Keys == b.Keys;
  }

  /** Why the generator stopped before its loop. */
  datatype Abort = MissingExecutable | LoadFailed(error: LoadError)

  /** What `run_tests` leaves behind: the new contents of `output/`. */
  datatype Report = Done(output: map<Name, string>) | Aborted(reason: Abort)

  /** The directories the generator can read. */
  predicate Readable(t: Option<GenTree>) {
    t.Some? && t.value.input.Some? ==> Listed(t.value.input.value)
  }

  /** `run_tests`. The resulting `output/` holds, for every input whose run
      succeeds, the stripped output under the input's own file name, and
      otherwise what was there before. */
  function Generate(cmd: string, exec: Name, cwd: set<Name>, t: Option<GenTree>,
                    run: (string, string) -> Completion): (r: Report)
    requires Readable(t)
    ensures r == Aborted(MissingExecutable) <==> exec !in cwd
    ensures r.Aborted? && r.reason.LoadFailed? <==> exec in cwd && LoadTests(t).Failure?
    ensures r.Aborted? && r.reason.LoadFailed? ==> r.reason.error == LoadTests(t).error
    ensures r.Done? ==>
      && exec in cwd && LoadTests(t).Success?
      && var before := LoadTests(t).value.output;
         var d := t.value.input.value;
         var line := CommandLine(cmd, exec);
         && (forall n :: n in r.output <==> n in before || Writes(line, d.listing, d.files, run, n))
         && (forall n :: n in r.output && Writes(line, d.listing, d.files, run, n)
               ==> r.output[n] == Strip(run(line, d.files[n]).out))
         && (forall n :: n in r.output && !Writes(line, d.listing, d.files, run, n) ==> r.output[n] == before[n])
  {
    if exec !in cwd then Aborted(MissingExecutable)
    else
      match LoadTests(t)
      case Failure(e) => Aborted(LoadFailed(e))
      case Success(p) =>
        var d := t.value.input.value;
        var line := CommandLine(cmd, exec);
        PermutedListed(d, p.inputs);
        WritePlanIgnoresOrder(line, p.inputs, d.listing, d.files, run, p.output);
        Done(WritePlan(line, p.inputs, d.files, run, p.output))
  }

  /** Running the generator again on what it wrote writes the same files. */
  lemma GenerateIdempotent(cmd: string, exec: Name, cwd: set<Name>, d: Dir, out: Option<map<Name, string>>,
                           run: (string, string) -> Completion)
    requires Listed(d)
    requires Generate(cmd, exec, cwd, Some(GenTree(Some(d), out)), run).Done?
    ensures var once := Generate(cmd, exec, cwd, Some(GenTree(Some(d), out)), run).output;
            Generate(cmd, exec, cwd, Some(GenTree(Some(d), Some(once))), run) == Done(once)
  {
    var once := Generate(cmd, exec, cwd, Some(GenTree(Some(d), out)), run).output;
    var t2 := Some(GenTree(Some(d), Some(once)));
    var twice := Generate(cmd, exec, cwd, t2, run);
    var line := CommandLine(cmd, exec);
    assert LoadTests(t2).Success? && LoadTests(t2).value.output == once;
    SameOutput(twice.output, once, line, d.listing, d.files, run);
  }

  /** A second pass finds every file it would write already written. */
  lemma SameOutput(again: map<Name, string>, once: map<Name, string>, line: string, names: seq<Name>,
                   input: map<Name, string>, run: (string, string) -> Completion)
    requires forall n :: n in once && Writes(line, names, input, run, n) ==> once[n] == Strip(run(line, input[n]).out)
    requires forall n :: Writes(line, names, input, run, n) ==> n in once
    requires forall n :: n in again <==> n in once || Writes(line, names, input, run, n)
    requires forall n :: n in again && Writes(line, names, input, run, n) ==> again[n] == Strip(run(line, input[n]).out)
    requires forall n :: n in again && !Writes(line, names, input, run, n) ==> again[n] == once[n]
    ensures again == once
  {
    assert again.Keys == once.Keys;
  }
}
