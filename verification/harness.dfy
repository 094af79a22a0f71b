/**
 * What the runner and the generator share: the outcome of running the
 * program under test on one input, the command line they build, and the
 * test directories they read.
 *
 * The child process is not modelled: each script takes `run`, a function
 * from the command line and the text fed to standard input to an
 * `Outcome`. Each script takes its own `run`; that the program behaves
 * the same when the generator and the runner start it is an assumption of
 * the round-trip theorem (`RoundTrip.SameRuns`), not something either
 * script ensures.
 */
module Harness {
  import opened Text
  import opened FileNames
  import opened StableSort

  /** How `subprocess.check_output` ended: it returned standard output, or
      raised `CalledProcessError` (non-zero exit, standard error kept), or
      raised `TimeoutExpired`. */
  datatype Outcome = Returned(out: string) | RuntimeError(err: string) | Timeout

  /** The generator passes no time limit, so its runs always complete. */
  type Completion = o: Outcome | !o.Timeout? witness Returned("")

  /** A directory: the names in `os.listdir` order, and each file's text. */
  datatype Dir = Dir(listing: seq<Name>, files: map<Name, string>)

  /** Every listed name can be opened. */
  predicate Listed(d: Dir) {
    forall i :: 0 <= i < |d.listing| ==> d.listing[i] in d.files
  }

  /** `listing` names each file of `files` exactly once: a possible
      `os.listdir` result for a directory holding `files`. */
  predicate ListsExactly(listing: seq<Name>, files: map<Name, string>) {
    && (forall i, j :: 0 <= i < j < |listing| ==> listing[i] != listing[j])
    && (forall i :: 0 <= i < |listing| ==> listing[i] in files)
    && (forall n :: n in files ==> n in listing)
  }

  /** The failed `assert`s of the two `load_tests` functions, in the order
      they are checked. The generator uses the first, second and fourth. */
  datatype LoadError =
    | NoTestsDir
    | NoInputDir
    | NoOutputDir
    | EmptyInputDir
    | EmptyOutputDir
    | CountMismatch

  /** `f'{cmd} {exec_path}'.strip()`. */
  function CommandLine(cmd: string, exec: Name): (r: string)
    ensures IsStripOf(r, cmd + " " + exec)
  {
    Strip(cmd + " " + exec)
  }

  /** An empty (or blank) `cmd` runs `exec` on its own. */
  lemma CommandLineWithoutCmd(cmd: string, exec: Name)
    requires WsOutside(cmd, 0, 0)
    ensures CommandLine(cmd, exec) == Strip(exec)
  {
    var w := cmd + " ";
    assert WsOutside(w, 0, 0) by {
      forall k | 0 <= k < |w| ensures IsWs(w[k]) {
        if k < |cmd| { assert w[k] == cmd[k]; }
      }
    }
    assert cmd + " " + exec == w + exec;
    StripSkipsLeadingWs(w, exec);
  }

  /** When `cmd` starts and `exec` ends with a visible character, the
      command line is the two joined by one space. */
  lemma CommandLineJoins(cmd: string, exec: Name)
    requires cmd != [] && !IsWs(cmd[0])
    requires exec != [] && !IsWs(exec[|exec| - 1])
    ensures CommandLine(cmd, exec) == cmd + " " + exec
  {
    var s := cmd + " " + exec;
    assert s[0] == cmd[0] && s[|s| - 1] == exec[|exec| - 1];
    StrippedIsFixedPoint(s);
  }

  /** A reordering of a listing names only files of the directory. */
  lemma PermutedListed(d: Dir, names: seq<Name>)
    requires Listed(d)
    requires multiset(names) == multiset(d.listing)
    ensures forall i :: 0 <= i < |names| ==> names[i] in d.files
  {
    forall i | 0 <= i < |names| ensures names[i] in d.files {
      assert names[i] in multiset(d.listing);
      var j :| 0 <= j < |d.listing| && d.listing[j] == names[i];
    }
  }

  /** A listing without repeats holds each of its names once. */
  lemma {:induction false} DistinctCount(s: seq<Name>, x: Name)
    requires forall i, j :: 0 <= i < j < |s| ==> s[i] != s[j]
    ensures multiset(s)[x] == if x in s then 1 else 0
    decreases |s|
  {
    if s != [] {
      DistinctCount(s[1..], x);
      assert s == [s[0]] + s[1..];
      assert s[0] !in s[1..] by {
        forall j | 0 <= j < |s[1..]| ensures s[1..][j] != s[0] {
          assert s[1..][j] == s[j + 1];
        }
      }
    }
  }

  /** Two listings of directories holding the same names are reorderings
      of each other. */
  lemma ListingsPermute(a: seq<Name>, fa: map<Name, string>, b: seq<Name>, fb: map<Name, string>)
    requires ListsExactly(a, fa) && ListsExactly(b, fb)
    requires fa.Keys == fb.Keys
    ensures multiset(a) == multiset(b)
  {
    forall x ensures multiset(a)[x] == multiset(b)[x] {
      DistinctCount(a, x);
      DistinctCount(b, x);
    }
    MultisetsAgree(a, b);
  }
}
