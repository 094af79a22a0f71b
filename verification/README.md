# autotester: a Dafny model of the runner and the generator

`autotester.py` runs a program on every file of `tests/input/` and compares
its standard output with the file of the same position in `tests/output/`.
`generator.py` fills `tests/output/` by running a reference program on every
input. This project models the decision layer of both scripts as pure
functions, with the environment passed in as data. It then proves what each
step promises and what the two scripts together do.

The environment is modelled as follows:
- a directory is a listing in `os.listdir` order plus a map from names to file text;
- the working directory is the set of names `check_exec` looks in;
- the child process is a function `run` from the command line and the text
  fed to standard input to an outcome: it returned output, it failed with
  standard error, or it timed out.

Modules, in dependency order:
- `Results` (results.dfy): `Option` and `Result`.
- `Integers` (integers.dfy): `int()` on a stem, as a partial function.
- `StableSort` (stablesort.dfy): `list.sort(key=...)`.
  - `StableSortOf` specifies a stable ascending sort.
  - `SortBy` meets it, and nothing else does.
- `FileNames` (filenames.dfy):
  - `os.path.splitext` and the integer stem key;
  - the sort-or-keep-listing-order step of both `load_tests`.
- `Text` (text.dfy):
  - `str.strip()`, over the characters `str.isspace()` accepts;
  - reading a file in text mode, where `\r\n` and `\r` become `\n`;
  - `readlines()`;
  - `'\n'.join(map(str.strip, ...))`, the normalisation of an expected file;
  - `split('\n')`, used only to state properties.
- `Harness` (harness.dfy): what both scripts share.
  - the `Outcome` of a run;
  - the command line `f'{cmd} {exec_path}'.strip()`;
  - directories and the load errors.
- `Autotester` (autotester.dfy): `load_tests` and `run_tests` of the runner.
- `Generator` (generator.dfy): `load_tests` and `run_tests` of the generator.
- `RoundTrip` (roundtrip.dfy): running the generator and then the runner.
  - When every case passes.
  - Five ways it fails when the conditions do not hold.

Five facts about the code that a reader of the scripts can miss:
- **Pairing check.** The name check is in the loop, not in `load_tests`.
  Inputs `1.txt 2.txt 3.txt` against outputs `1.txt 2.txt 4.txt` load,
  because only the counts are compared there. Two cases are judged, then
  the run aborts at the third (`Autotester.MismatchAfterTwoCases`).
- **Fallback order.** When a stem is not an integer, `sort` raises and the
  list keeps its `os.listdir` order. Directories listed in different orders
  then fail the pairing (`RoundTrip.NonIntegerStemBreaksPairing`).
- **Written file name.** The generator writes `output/<input file name>`,
  extension included, not the stem.
- **Shared stems.** Nothing in the code makes integer stems unique. Two
  inputs `1.a` and `1.b` share key 1.
  - The stable sort keeps each directory's own listing order, so the pairing
    can fail on directories that hold the same names
    (`RoundTrip.SharedStemBreaksPairing`).
- **Newlines on reading.** The runner reads the expected file in text
  mode, where a `\r` becomes a newline, but compares it with the program's
  output decoded as it is. A generated file whose stripped output holds a
  `\r` therefore fails (`RoundTrip.CarriageReturnBreaksRoundTrip`).

## Model

| member | source | states |
|---|---|---|
| Integers.ParseInt | autotester.py:63 | `int(stem)` succeeds exactly on an optional sign followed by decimal digits, and the sign decides the sign of the value |
| Integers.ParseShowInt | autotester.py:63 | every integer is the key of the stem that spells it: parsing `str(n)` gives `n` back |
| Integers.ParseLeadingZero | autotester.py:63 | for every digit string `s`, `int('0' + s) == int(s)`: leading zeros never change a stem's key |
| Integers.ParsePlusSign | autotester.py:63 | for every digit string `s`, `int('+' + s) == int(s)` |
| Integers.ParseMinusSign | autotester.py:63 | for every digit string `s`, `int('-' + s) == -int(s)` |
| Integers.LeadingZerosAndSign | autotester.py:63 | `7`, `07` and `+7` all parse to 7 and `-0` to 0, so different stems can share a key; the empty string, a lone sign and `x1` raise |
| FileNames.SplitExt | autotester.py:63 | `os.path.splitext`: the two parts concatenate to the name; a non-empty extension starts at the last dot and only when something other than a dot precedes it; with no extension, no dot follows a non-dot |
| FileNames.Stem | autotester.py:63 | `os.path.splitext(n)[0]` is a prefix of the name; when shorter it stops at a dot after which no dot follows; a name without a dot is its own stem |
| FileNames.StemValue | autotester.py:63 | `int()` of the stem succeeds exactly when the stem is an optional sign followed by decimal digits |
| FileNames.StemKey | autotester.py:63 | when the stem is an integer literal, the key is the value `int()` gives it |
| FileNames.DotfileHasNoExtension | autotester.py:63 | `.txt` has no extension, `1.tar.gz` splits before `.gz`, `7` has none |
| FileNames.SortByStem | autotester.py:63 | the keyed sort raises exactly when some stem does not parse; otherwise it is the stable ascending sort by integer stem and a permutation of the listing |
| FileNames.SortedOrListed | generator.py:59-64 | the input list after the `try`: the stable sort by stem when every stem parses, otherwise the listing unchanged; a permutation either way |
| FileNames.NumericOrderExample | autotester.py:60-64 | `["2.txt", "10.txt", "1.txt"]` sorts to `["1.txt", "2.txt", "10.txt"]`: numeric, not lexical |
| StableSort.SortBy | autotester.py:63-64 | the insertion sort is sorted by key, keeps the relative order of equal keys, and permutes its input |
| StableSort.SortByIsTheStableSort | autotester.py:63 | any sequence that is sorted by key and keeps equal-key order is exactly `SortBy`'s result: the stable sort is unique |
| StableSort.SortByKeepsSorted | autotester.py:63 | a listing already in key order is left as it is |
| StableSort.SortByIgnoresListingOrder | autotester.py:60-64 | with distinct keys, two listings of the same names sort to the same list |
| Text.Strip | autotester.py:106 | `strip()` removes whitespace from both ends and nothing else: the result is a slice of the input, its ends are not whitespace and everything cut is |
| Text.StripOfUnique | autotester.py:106 | at most one string is the strip of a given string, so `IsStripOf` determines `strip()` |
| Text.StrippedIsFixedPoint | autotester.py:106 | `strip(s) == s` exactly when `s` is empty or neither end is whitespace |
| Text.StripIdempotent | generator.py:94 | stripping twice is stripping once |
| Text.StripSkipsLeadingWs | autotester.py:91 | whitespace put in front of a string does not change its strip |
| Text.StripSkipsTrailingWs | autotester.py:108 | whitespace put after a string does not change its strip |
| Text.StripKeepsOnlyCharsOf | autotester.py:106 | every character of `strip(s)` occurs in `s` |
| Text.ReadText | autotester.py:107-108 | the text read in text mode holds no `\r`, and a file without a `\r` is read unchanged |
| Text.ReadTextCrLf | autotester.py:107-108 | in text mode a `\r\n` pair reads as one newline, then the rest is read |
| Text.ReadTextStep | autotester.py:107-108 | in text mode a lone `\r` reads as a newline and any other character, not starting a `\r\n` pair, reads as itself, then the rest is read |
| Text.ReadTextSnoc | autotester.py:107-108 | reading a file in text mode keeps a final character unchanged unless it is a `\r`, or a `\n` after a `\r` |
| Text.ReadTextAfterCr | autotester.py:107-108 | in text mode a `\n` after a final `\r` adds nothing: the pair reads as one newline |
| Text.ReadLines | autotester.py:108 | `readlines()` of an empty file is empty, and of a non-empty file is non-empty |
| Text.ReadLinesConcat | autotester.py:108 | the lines `readlines()` returns concatenate back to the file: nothing is lost or added |
| Text.ReadLinesShape | autotester.py:108 | each line is non-empty and holds one newline, at its end; only the last line may lack it |
| Text.ReadLinesCons | autotester.py:108 | `readlines()` of a first line, its newline and the rest is that line with its newline, then the lines of the rest |
| Text.ExpectedTextCons | autotester.py:108 | for a first line without a newline and a non-empty rest, the normalised expected file is the first line stripped, a newline, then the normalised rest |
| Text.ExpectedText | autotester.py:108 | after joining the stripped lines, no line of the result, split at `\n`, has whitespace at either end |
| Text.SingleLineText | autotester.py:108 | an expected file without a newline normalises to its strip |
| Text.ExpectedTextFixedPoint | autotester.py:106-111 | normalising a text that does not end in a newline leaves it unchanged exactly when none of its lines has whitespace at either end |
| Text.ExpectedTextTrailingNewline | autotester.py:108 | a newline added at the end of an expected file that does not already end in a newline does not change its normalisation |
| Text.ExpectedTextKeepsOnlyCharsOf | autotester.py:108 | the normalised expected text holds no character other than a newline that is not in the file |
| Text.ReadExpectedHasNoCr | autotester.py:107-108 | what the runner compares against never holds a `\r` |
| Harness.CommandLine | autotester.py:91 | the command is the strip of `cmd`, a space and the executable's name |
| Harness.CommandLineWithoutCmd | autotester.py:91 | with an empty or blank `cmd`, the command is the executable's name stripped |
| Harness.CommandLineJoins | generator.py:83 | when `cmd` starts and the name ends with a visible character, the command is the two joined by one space |
| Harness.ListingsPermute | autotester.py:60-61 | two listings without repeats of directories holding the same names are permutations of each other |
| Autotester.SortListings | autotester.py:62-66 | the input list is sorted first; if one of its stems raises, neither list is reordered; if only an output stem raises, only the input list is sorted; the warning is printed exactly when some stem of a sorted list raises |
| Autotester.LoadTests | autotester.py:55-68 | each load error happens exactly when its `assert` is the first to fail, in the order of the code; on success both lists are the sorted listings, of equal non-zero length |
| Autotester.Judge | autotester.py:92-115 | `Correct` exactly when the run returned and its stripped output equals the expected file read in text mode and normalised line by line; `Wrong answer` exactly when it returned and they differ; a runtime error shows standard error stripped; a timeout is reported as such |
| Autotester.HelloIsCorrect | autotester.py:106-111 | output `"hello\n"` against expected file `"hello"` is correct |
| Autotester.JudgeIgnoresFinalNewline | autotester.py:107-108 | a newline added at the end of an expected file that does not already end in a newline does not change a verdict, even after a final `\r` |
| Autotester.JudgeIgnoresOuterWs | autotester.py:106 | whitespace before and after the program's output, of any two kinds, does not change a verdict |
| Autotester.Passed | autotester.py:111-117 | the pass counter never exceeds the number of cases, and equals it exactly when every verdict is `Correct` |
| Autotester.PassedCountsCorrect | autotester.py:111-113 | the counter is the number of `Correct` verdicts: runtime errors, timeouts and wrong answers add nothing |
| Autotester.FirstMismatch | autotester.py:83-87 | the first position whose two names differ, or the number of cases when none does |
| Autotester.JudgeAll | autotester.py:83-115 | one verdict per case, in list order; verdict `i` judges the run on input `i` against output `i` |
| Autotester.Session | autotester.py:82-117 | the run aborts exactly when some pair of names differs, naming the first such position and its two names, after judging the cases before it; otherwise the two lists are equal and every case is judged and counted |
| Autotester.SessionWhenPaired | autotester.py:83-117 | when the two lists are equal, every case is judged and the run finishes with the count of correct cases |
| Autotester.RunTests | autotester.py:80-81 | a missing executable aborts before loading; a failed load aborts with its error and no verdict; otherwise the result is the session over the loaded lists with the stripped command |
| Autotester.MismatchAtThird | autotester.py:62-87 | inputs `a b c` against outputs `a b d`, each in stem order and with `c != d`, load unchanged; two cases are judged and the run aborts at position 2, naming `c` and `d` |
| Autotester.MismatchAfterTwoCases | autotester.py:87 | inputs `1.txt 2.txt 3.txt` against outputs `1.txt 2.txt 4.txt` abort at position 2, naming `3.txt` and `4.txt`, after two verdicts |
| Generator.LoadTests | generator.py:54-64 | each load error happens exactly when its `assert` is the first to fail; a missing `output/` is created empty; the input list is sorted by stem, or kept in listing order with the warning |
| Generator.WritePlan | generator.py:77-97 | the files after the loop are those before it plus every case whose run succeeded; a written file holds the stripped output under the input's full file name; every other file is unchanged |
| Generator.WritePlanIdempotent | generator.py:95-96 | running the loop again over its own result changes nothing |
| Generator.WritePlanIgnoresOrder | generator.py:77-97 | the order in which cases run does not change the files written |
| Generator.Generate | generator.py:75-97 | a missing executable or a failed load aborts; otherwise `output/` gains exactly the stripped output of every input whose run succeeded, and keeps every other file |
| Generator.GenerateIdempotent | generator.py:95-96 | running the generator a second time on the same inputs leaves `output/` as the first run left it |
| RoundTrip.GeneratorWritesEveryInput | generator.py:77-97 | when every run succeeds and `output/` holds no stale file, `output/` ends up holding exactly one file per input, with its run's stripped output |
| RoundTrip.LoadingPairsNames | autotester.py:60-67 | when stems parse and are distinct, the runner's loader sorts the input and output listings of the same names into the same list |
| RoundTrip.RunnerPassesAll | autotester.py:80-117 | on an `output/` written from every input's run, the runner finishes with every case correct, whatever the listing order of `output/`, provided every generator run returned and its stripped output holds no `\r` and no line with whitespace at its ends (`CleanRuns`), every input stem is an integer (`AllStemsParse`) and no two share a value (`DistinctKeys`), and the runner's run of each input ends as the generator's did (`SameRuns`) |
| RoundTrip.GeneratedCaseVerdict | generator.py:94-96 | a generated file passes exactly when the stripped output holds no `\r` and no line of it has whitespace at either end |
| RoundTrip.GenerateThenRun | generator.py:94-96 | generate, then run: every test passes, for any listing order, when every run succeeds, the stripped outputs hold no `\r` and no line with whitespace at its ends, stems are distinct integers, `output/` held no stale file, and the runner's run of each input ends as the generator's did (`SameRuns`) |
| RoundTrip.InnerSpaceBreaksRoundTrip | generator.py:94-96 | the output `"a \nb"` is written unchanged and then judged `Wrong answer` |
| RoundTrip.CarriageReturnBreaksRoundTrip | generator.py:94-96 | the output `"a\rb"` is written unchanged, read back by the runner as two lines, and judged `Wrong answer` |
| RoundTrip.SharedStemBreaksPairing | autotester.py:87 | inputs listed `1.a 1.b` and outputs listed `1.b 1.a`, all of stem 1, abort at the first pairing |
| RoundTrip.NonIntegerStemBreaksPairing | autotester.py:62-87 | when one stem is not an integer, two inputs listed `a b` and outputs listed `b a` keep listing order, with the warning, and the run aborts at the first pairing before any verdict |
| RoundTrip.SharedStemExample | autotester.py:63 | `1.a` and `1.b` have the same key, 1 |
| RoundTrip.StaleOutputBreaksCount | autotester.py:67 | a stale file left in `output/` survives generation, and the runner then stops on the file counts |

## Left out

- Child processes are not run. Neither script starts a shell: both pass
  the command string to `subprocess.check_output` without `shell=True`
  (autotester.py:93, generator.py:85). On POSIX the whole string is then
  taken as the name of one program, so a run with a non-empty `cmd` such
  as `python` cannot start. The wall-clock limit and killing are left out
  as well. Each run is the value of the `run` parameter on the command line
  and the input text. A run that exceeds the limit is the `Timeout` outcome. The generator passes no time limit, so its
  runs range over `Completion`, which has no `Timeout`.
- A run that cannot start is not modelled. `FileNotFoundError` or another
  `OSError` from `check_output` is not caught by either script, whose
  `except` clauses name only `CalledProcessError` and `TimeoutExpired`; the
  script stops with a traceback, and no `Outcome` stands for that.
- `assert` statements are taken to be enabled. Under `python -O` the load
  checks (autotester.py:55-67, generator.py:54-56) and the pairing check
  (autotester.py:87) do not run, while the model reports each as a
  `Results.Failure`.
- The `__main__` blocks and argument parsing are left out. When `-tl` is
  omitted the runner receives `None`, not the default of one second. Either
  way the limit only shows up as which runs end in `Timeout`.
- The file system is data. This leaves out `isdir`, `mkdir`, opening and
  closing files, and the handles closed on every path.
  - `os.listdir` is a listing. Both scripts call it twice on `input/`, and
    the runner twice on `output/` as well. Both calls on a directory are
    assumed to return the same names in the same order.
  - `check_exec` is membership of the executable's name in the set of names
    of the working directory.
  - Every listed name is taken to be a readable file (`Autotester.Readable`,
    `Generator.Readable`).
    In the scripts a subdirectory of `input/` or `output/` is listed and
    sorted like a file, and `open()` on it then raises and stops the script
    with a traceback; that path is not modelled.
- Byte decoding is left out; texts are already decoded. Reading the
  expected file in text mode is modelled (`Text.ReadText`). Writing in text
  mode is taken to leave `\n` as it is, as it does where the line separator
  is `\n`.
- `Integers.ParseInt` rejects surrounding whitespace, `_` between digits and
  non-ASCII digits, all of which Python's `int()` accepts.
- Printed text is left out: separators, test numbers, `Generated`, `Done`
  and the summary line. The runner's result is its list of verdicts and
  the count. The bad-file warning is a flag on the loaded lists.
