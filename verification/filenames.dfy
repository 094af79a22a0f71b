/**
 * Ordering of a directory listing, shared by both scripts' `load_tests`:
 * `names.sort(key=lambda x: int(os.path.splitext(x)[0]))`.
 *
 * Names come from `os.listdir`, so they never contain the path separator.
 */
module FileNames {
  import opened Results
  import opened Integers
  import opened StableSort

  type Name = string

  /** Index of the last `c` in `s`, or -1. */
  function LastIndexOf(s: string, c: char): (k: int)
    ensures -1 <= k < |s|
    ensures k >= 0 ==> s[k] == c
    ensures forall j :: k < j < |s| ==> s[j] != c
  {
    if s == [] then -1
    else if s[|s| - 1] == c then |s| - 1
    else LastIndexOf(s[..|s| - 1], c)
  }

  predicate AllDots(s: string) {
    forall i :: 0 <= i < |s| ==> s[i] == '.'
  }

  /** `os.path.splitext(n)`: the extension starts at the last dot, unless
      only dots precede that dot (as in `.bashrc` or `..x`), in which case
      there is no extension. */
  function SplitExt(n: Name): (r: (string, string))
    ensures r.0 + r.1 == n
    ensures r.1 != [] ==> r.1[0] == '.' && '.' !in r.1[1..] && !AllDots(r.0)
    ensures r.1 == [] ==> forall i, j :: 0 <= j < i < |n| && n[i] == '.' ==> n[j] == '.'
  {
    var d := LastIndexOf(n, '.');
    if d >= 0 && !AllDots(n[..d]) then
      assert forall j :: 0 <= j < |n[d..]| - 1 ==> n[d..][1..][j] == n[d + 1 + j];
      (n[..d], n[d..])
    else
      assert forall i, j :: 0 <= j < i < |n| && n[i] == '.' ==> n[..d][j] == n[j];
      (n, [])
  }

  /** `os.path.splitext(n)[0]`: a prefix of the name, followed in it by
      nothing or by a dot and a dot-free extension; a name without a dot is
      its own stem. */
  function Stem(n: Name): (r: string)
    ensures |r| <= |n| && r == n[..|r|]
    ensures |r| < |n| ==> n[|r|] == '.' && '.' !in n[|r| + 1..]
    ensures '.' !in n ==> r == n
  {
    var (base, ext) := SplitExt(n);
    assert n[..|base|] == base && n[|base|..] == ext;
    assert ext != [] ==> n[|base| + 1..] == ext[1..];
    base
  }

  /** The stem's integer value, when `int()` accepts it. */
  function StemValue(n: Name): (r: Option<int>)
    ensures r.Some? <==> IsIntLiteral(Stem(n))
  {
    ParseInt(Stem(n))
  }

  /** The sort key `int(os.path.splitext(n)[0])`; only consulted when every
      stem parses. */
  function StemKey(n: Name): (k: int)
    ensures IsIntLiteral(Stem(n)) ==> ParseInt(Stem(n)) == Some(k)
  {
    match StemValue(n)
    case Some(v) => v
    case None => 0
  }

  /** True when no key computation raises `ValueError`. */
  predicate AllStemsParse(names: seq<Name>) {
    forall i :: 0 <= i < |names| ==> StemValue(names[i]).Some?
  }

  /** `names.sort(key=...)`: Python computes every key before sorting, and a
      key that raises leaves the list as it was; `None` stands for that raise. */
  function SortByStem(names: seq<Name>): (r: Option<seq<Name>>)
    ensures r.Some? <==> AllStemsParse(names)
    ensures r.Some? ==> StableSortOf(r.value, names, StemKey) && multiset(r.value) == multiset(names)
  {
    if AllStemsParse(names) then Some(SortBy(names, StemKey)) else None
  }

  /** The sort result, or the listing unchanged after the warning. */
  function SortedOrListed(names: seq<Name>): (r: seq<Name>)
    ensures multiset(r) == multiset(names)
    ensures AllStemsParse(names) ==> StableSortOf(r, names, StemKey)
    ensures !AllStemsParse(names) ==> r == names
  {
    match SortByStem(names)
    case Some(s) => s
    case None => names
  }

  /** A name splits before its last dot when something other than a dot
      comes earlier. */
  lemma SplitAtLastDot(stem: string, ext: string)
    requires !AllDots(stem)
    requires ext != [] && ext[0] == '.' && '.' !in ext[1..]
    ensures SplitExt(stem + ext) == (stem, ext)
  {
    var n := stem + ext;
    var k := LastIndexOf(n, '.');
    assert n[|stem|] == '.';
    forall j | |stem| < j < |n| ensures n[j] != '.' {
      assert n[j] == ext[1..][j - |stem| - 1];
    }
    assert k == |stem|;
    assert n[..k] == stem;
  }

  lemma WithKeyOfThree<T>(a: T, b: T, c: T, key: T -> int, k: int)
    ensures WithKey([a, b, c], key, k)
         == (if key(a) == k then [a] else []) + (if key(b) == k then [b] else []) + (if key(c) == k then [c] else [])
  {
    assert [a, b, c][1..] == [b, c] && [b, c][1..] == [c] && [c][1..] == [];
    assert WithKey([c], key, k) == (if key(c) == k then [c] else []) + WithKey([], key, k);
    assert WithKey([b, c], key, k) == (if key(b) == k then [b] else []) + WithKey([c], key, k);
  }

  /** A digit stem followed by a one-dot extension has the digits' value. */
  lemma KeyOfDigitName(digits: string, ext: string)
    requires IsDigits(digits)
    requires ext != [] && ext[0] == '.' && '.' !in ext[1..]
    ensures StemValue(digits + ext) == Some(DigitsValue(digits))
    ensures StemKey(digits + ext) == DigitsValue(digits)
  {
    assert !AllDots(digits) by { assert IsDigit(digits[0]); }
    SplitAtLastDot(digits, ext);
  }

  lemma SortedThree<T>(a: T, b: T, c: T, key: T -> int)
    requires key(a) <= key(b) <= key(c)
    ensures SortedBy([a, b, c], key)
  {
  }

  /** Three names already in stem order are left in place. */
  lemma InOrderThree(a: Name, b: Name, c: Name)
    requires StemValue(a).Some? && StemValue(b).Some? && StemValue(c).Some?
    requires StemKey(a) <= StemKey(b) <= StemKey(c)
    ensures SortByStem([a, b, c]) == Some([a, b, c])
  {
    AllParseThree(a, b, c);
    SortedThree(a, b, c, StemKey);
    SortByKeepsSorted([a, b, c], StemKey);
  }

  lemma AllParseThree(a: Name, b: Name, c: Name)
    requires StemValue(a).Some? && StemValue(b).Some? && StemValue(c).Some?
    ensures AllStemsParse([a, b, c])
  {
    var s := [a, b, c];
    assert forall i :: 0 <= i < 3 ==> s[i] == a || s[i] == b || s[i] == c;
  }

  lemma KeyOf1Txt() ensures StemValue("1.txt") == Some(1) {
    KeyOfDigitName("1", ".txt");
    assert "1" + ".txt" == "1.txt";
  }

  lemma KeyOf2Txt() ensures StemValue("2.txt") == Some(2) {
    KeyOfDigitName("2", ".txt");
    assert "2" + ".txt" == "2.txt";
  }

  lemma KeyOf10Txt() ensures StemValue("10.txt") == Some(10) {
    KeyOfDigitName("10", ".txt");
    assert "10" + ".txt" == "10.txt";
    assert "10"[..1] == "1";
  }

  lemma KeyOf3Txt() ensures StemValue("3.txt") == Some(3) {
    KeyOfDigitName("3", ".txt");
    assert "3" + ".txt" == "3.txt";
  }

  lemma KeyOf4Txt() ensures StemValue("4.txt") == Some(4) {
    KeyOfDigitName("4", ".txt");
    assert "4" + ".txt" == "4.txt";
  }

  /** Numeric, not lexical: `["2.txt", "10.txt", "1.txt"]` sorts to
      `["1.txt", "2.txt", "10.txt"]`. */
  lemma NumericOrderExample()
    ensures SortByStem(["2.txt", "10.txt", "1.txt"]) == Some(["1.txt", "2.txt", "10.txt"])
  {
    KeyOf1Txt();
    KeyOf2Txt();
    KeyOf10Txt();
    var s := ["2.txt", "10.txt", "1.txt"];
    var r := ["1.txt", "2.txt", "10.txt"];
    AllParseThree("2.txt", "10.txt", "1.txt");
    SortedThree("1.txt", "2.txt", "10.txt", StemKey);
    forall k ensures WithKey(r, StemKey, k) == WithKey(s, StemKey, k) {
      WithKeyOfThree("1.txt", "2.txt", "10.txt", StemKey, k);
      WithKeyOfThree("2.txt", "10.txt", "1.txt", StemKey, k);
    }
    SortByIsTheStableSort(r, s, StemKey);
  }

  /** A name with no dot after its first character is its own stem; e.g. a
      name that starts with a dot has no extension. */
  lemma DotfileHasNoExtension()
    ensures SplitExt(".txt") == (".txt", "")
    ensures SplitExt("1.tar.gz") == ("1.tar", ".gz")
    ensures SplitExt("7") == ("7", "")
  {
    assert LastIndexOf(".txt", '.') == 0 by {
      assert ".txt"[0] == '.';
    }
    assert ".txt"[..0] == "";
    assert "1.tar"[0] != '.';
    SplitAtLastDot("1.tar", ".gz");
    assert "1.tar" + ".gz" == "1.tar.gz";
  }
}
