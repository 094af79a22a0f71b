/**
 * Text normalisation shared by both scripts: Python's `str.strip()`,
 * reading a file in text mode, `readlines()` and `'\n'.join(...)`.
 */
module Text {

  /** The characters `str.strip()` removes, those for which `str.isspace()`
      holds: tab to carriage return, the four separators U+001C to U+001F,
      space, U+0085, no-break space, and the Unicode space separators, line
      and paragraph separators. */
  predicate IsWs(c: char) {
    var n := c as int;
    || 0x09 <= n <= 0x0D || 0x1C <= n <= 0x20
    || n == 0x85 || n == 0xA0 || n == 0x1680
    || 0x2000 <= n <= 0x200A || n == 0x2028 || n == 0x2029
    || n == 0x202F || n == 0x205F || n == 0x3000
  }

  /** A string `strip()` leaves unchanged: empty, or neither end is whitespace. */
  predicate Stripped(s: string) {
    s == [] || (!IsWs(s[0]) && !IsWs(s[|s| - 1]))
  }

  /** Every character of `s` outside positions `i .. j-1` is whitespace. */
  predicate WsOutside(s: string, i: int, j: int) {
    forall k :: 0 <= k < |s| && (k < i || j <= k) ==> IsWs(s[k])
  }

  /** `r` is `s` with only whitespace removed from its two ends, and no more
      than that: the defining property of `s.strip()`. */
  ghost predicate IsStripOf(r: string, s: string) {
    Stripped(r) && exists i :: CutAt(r, s, i)
  }

  /** `r` is the slice of `s` starting at `i`, with only whitespace around it. */
  predicate CutAt(r: string, s: string, i: int) {
    0 <= i <= |s| - |r| && r == s[i..i + |r|] && WsOutside(s, i, i + |r|)
  }

  function LeadingWs(s: string): (k: nat)
    ensures k <= |s|
    ensures forall m :: 0 <= m < k ==> IsWs(s[m])
    ensures k < |s| ==> !IsWs(s[k])
  {
    if s == [] || !IsWs(s[0]) then 0 else 1 + LeadingWs(s[1..])
  }

  function TrailingWs(s: string): (k: nat)
    ensures k <= |s|
    ensures forall m :: |s| - k <= m < |s| ==> IsWs(s[m])
    ensures k < |s| ==> !IsWs(s[|s| - k - 1])
  {
    if s == [] || !IsWs(s[|s| - 1]) then 0 else 1 + TrailingWs(s[..|s| - 1])
  }

  /** Python's `s.strip()`. */
  function Strip(s: string): (r: string)
    ensures IsStripOf(r, s)
  {
    var i := LeadingWs(s);
    var j := TrailingWs(s[i..]);
    var r := s[i..|s| - j];
    assert CutAt(r, s, i) by {
      forall k | 0 <= k < |s| && (k < i || |s| - j <= k) ensures IsWs(s[k]) {
        if i <= k { assert s[k] == s[i..][k - i]; }
      }
    }
    assert r != [] ==> r[|r| - 1] == s[i..][|s[i..]| - j - 1];
    r
  }

  /** Only one string satisfies `IsStripOf`, so it is a complete description
      of `strip()`. */
  lemma StripOfUnique(r1: string, r2: string, s: string)
    requires IsStripOf(r1, s) && IsStripOf(r2, s)
    ensures r1 == r2
  {
    var i1 :| CutAt(r1, s, i1);
    var i2 :| CutAt(r2, s, i2);
    if r1 != [] && r2 != [] {
      assert s[i1] == r1[0] && s[i2] == r2[0];
      assert i1 == i2;
      assert s[i1 + |r1| - 1] == r1[|r1| - 1] && s[i2 + |r2| - 1] == r2[|r2| - 1];
    }
  }

  lemma StrippedIsFixedPoint(s: string)
    ensures Strip(s) == s <==> Stripped(s)
  {
    if Stripped(s) {
      assert s[0..0 + |s|] == s;
      StripOfUnique(Strip(s), s, s);
    }
  }

  lemma StripIdempotent(s: string)
    ensures Strip(Strip(s)) == Strip(s)
  {
    StrippedIsFixedPoint(Strip(s));
  }

  /** Whitespace in front of a string does not change what `strip()` gives. */
  lemma StripSkipsLeadingWs(w: string, s: string)
    requires WsOutside(w, 0, 0)
    ensures Strip(w + s) == Strip(s)
  {
    var r := Strip(s);
    var i :| CutAt(r, s, i);
    CutAfterWs(w, s, r, i);
    StripOfUnique(Strip(w + s), r, w + s);
  }

  lemma CutAfterWs(w: string, s: string, r: string, i: int)
    requires WsOutside(w, 0, 0) && CutAt(r, s, i)
    ensures CutAt(r, w + s, |w| + i)
  {
    var t, k := w + s, |w| + i;
    assert t[k..k + |r|] == s[i..i + |r|];
    forall m | 0 <= m < |t| && (m < k || k + |r| <= m) ensures IsWs(t[m]) {
      if m < |w| { assert t[m] == w[m]; } else { assert t[m] == s[m - |w|]; }
    }
  }

  /** Whitespace after a string does not change what `strip()` gives. */
  lemma StripSkipsTrailingWs(s: string, w: string)
    requires WsOutside(w, 0, 0)
    ensures Strip(s + w) == Strip(s)
  {
    var r := Strip(s);
    var i :| CutAt(r, s, i);
    CutBeforeWs(s, w, r, i);
    StripOfUnique(Strip(s + w), r, s + w);
  }

  lemma CutBeforeWs(s: string, w: string, r: string, i: int)
    requires WsOutside(w, 0, 0) && CutAt(r, s, i)
    ensures CutAt(r, s + w, i)
  {
    var t := s + w;
    assert t[i..i + |r|] == s[i..i + |r|];
    forall m | 0 <= m < |t| && (m < i || i + |r| <= m) ensures IsWs(t[m]) {
      if m < |s| { assert t[m] == s[m]; } else { assert t[m] == w[m - |s|]; }
    }
  }

  /** Every character of `strip(s)` occurs in `s`. */
  lemma StripKeepsOnlyCharsOf(s: string, c: char)
    requires c in Strip(s)
    ensures c in s
  {
    var r := Strip(s);
    var i :| CutAt(r, s, i);
    var p :| 0 <= p < |r| && r[p] == c;
    assert s[i + p] == c;
  }

  // ----- lines -----

  /** Index of the first `c` in `s`, or -1. */
  function IndexOf(s: string, c: char): (k: int)
    ensures -1 <= k < |s|
    ensures k >= 0 ==> s[k] == c
    ensures forall j :: 0 <= j < |s| && (k < 0 || j < k) ==> s[j] != c
  {
    if s == [] then -1
    else if s[0] == c then 0
    else
      var k := IndexOf(s[1..], c);
      if k < 0 then -1 else k + 1
  }

  /** `'\n'.join(xs)`. */
  function JoinLines(xs: seq<string>): string
  {
    if |xs| == 0 then []
    else if |xs| == 1 then xs[0]
    else xs[0] + "\n" + JoinLines(xs[1..])
  }

  /** `s.split('\n')`: the pieces between newlines (always at least one). */
  function SplitLines(s: string): (r: seq<string>)
    ensures |r| > 0
    ensures forall i :: 0 <= i < |r| ==> '\n' !in r[i]
    ensures JoinLines(r) == s
    decreases |s|
  {
    var k := IndexOf(s, '\n');
    if k < 0 then [s]
    else
      var rest := SplitLines(s[k + 1..]);
      assert s == s[..k] + "\n" + s[k + 1..];
      [s[..k]] + rest
  }

  /** A text without a newline is a single line. */
  lemma NoNewlineOneLine(s: string)
    requires '\n' !in s
    ensures IndexOf(s, '\n') < 0
    ensures SplitLines(s) == [s]
    ensures s != [] ==> ReadLines(s) == [s]
  {
    var k := IndexOf(s, '\n');
    if k >= 0 {
      assert false;
    }
  }

  /** Cuts a text holding a newline at its first newline. */
  lemma CutFirstLine(s: string) returns (a: string, rest: string)
    requires '\n' in s
    ensures s == a + "\n" + rest && '\n' !in a
  {
    var j :| 0 <= j < |s| && s[j] == '\n';
    var k := IndexOf(s, '\n');
    assert k >= 0;
    a, rest := s[..k], s[k + 1..];
    assert forall m :: 0 <= m < k ==> a[m] == s[m];
    assert s == a + "\n" + rest;
  }

  /** The last character of a first line, a newline and a rest. */
  lemma LastOfCons(a: string, rest: string)
    ensures var s := a + "\n" + rest; s[|s| - 1] == if rest == [] then '\n' else rest[|rest| - 1]
  {
  }

  /** The text `open(path, 'r')` reads from a file: universal newlines turn
      `\r\n` and a lone `\r` into `\n`. */
  function ReadText(s: string): (r: string)
    ensures '\r' !in r
    ensures '\r' !in s ==> r == s
    decreases |s|
  {
    if s == [] then []
    else if s[0] == '\r' then
      if |s| > 1 && s[1] == '\n' then "\n" + ReadText(s[2..]) else "\n" + ReadText(s[1..])
    else
      assert '\r' !in s ==> '\r' !in s[1..];
      [s[0]] + ReadText(s[1..])
  }

  /** Reading a `\r\n` pair. */
  lemma ReadTextCrLf(rest: string)
    ensures ReadText("\r\n" + rest) == "\n" + ReadText(rest)
  {
    assert ("\r\n" + rest)[2..] == rest;
  }

  /** Reading one character that does not start a `\r\n` pair. */
  lemma ReadTextStep(x: char, rest: string)
    requires !(x == '\r' && rest != [] && rest[0] == '\n')
    ensures ReadText([x] + rest) == (if x == '\r' then "\n" else [x]) + ReadText(rest)
  {
    assert ([x] + rest)[1..] == rest;
  }

  /** A character other than `\r`, and not a newline completing `\r\n`,
      reads as itself at the end of a file. */
  lemma {:induction false} ReadTextSnoc(p: string, c: char)
    requires c != '\r'
    requires c == '\n' ==> p == [] || p[|p| - 1] != '\r'
    ensures ReadText(p + [c]) == ReadText(p) + [c]
    decreases |p|
  {
    if p == [] {
      ReadTextStep(c, []);
      assert p + [c] == [c] + [];
    } else if p[0] == '\r' && |p| > 1 && p[1] == '\n' {
      var q := p[2..];
      assert p == "\r\n" + q;
      ReadTextSnoc(q, c);
      SnocAfterCrLf(q, c);
    } else {
      var q := p[1..];
      assert p == [p[0]] + q;
      ReadTextSnoc(q, c);
      SnocAfterStep(p[0], q, c);
    }
  }

  lemma SnocAfterCrLf(q: string, c: char)
    requires ReadText(q + [c]) == ReadText(q) + [c]
    ensures ReadText("\r\n" + q + [c]) == ReadText("\r\n" + q) + [c]
  {
    assert "\r\n" + q + [c] == "\r\n" + (q + [c]);
    ReadTextCrLf(q + [c]);
    ReadTextCrLf(q);
    Reassociate("\n", ReadText(q), [c]);
  }

  lemma SnocAfterStep(x: char, q: string, c: char)
    requires !(x == '\r' && q != [] && q[0] == '\n')
    requires !(x == '\r' && q == [] && c == '\n')
    requires ReadText(q + [c]) == ReadText(q) + [c]
    ensures ReadText([x] + q + [c]) == ReadText([x] + q) + [c]
  {
    var h: string := if x == '\r' then "\n" else [x];
    assert [x] + q + [c] == [x] + (q + [c]);
    ReadTextStep(x, q + [c]);
    ReadTextStep(x, q);
    Reassociate(h, ReadText(q), [c]);
  }

  lemma Reassociate(a: string, b: string, c: string)
    ensures a + (b + c) == (a + b) + c
  {
  }

  /** A newline after a final `\r` is absorbed into it. */
  lemma {:induction false} ReadTextAfterCr(s: string)
    requires s != [] && s[|s| - 1] == '\r'
    ensures ReadText(s + "\n") == ReadText(s)
    decreases |s|
  {
    if |s| == 1 {
      assert s + "\n" == "\r\n" + [] && s == ['\r'] + [];
      ReadTextCrLf([]);
      ReadTextStep('\r', []);
    } else if s[0] == '\r' && s[1] == '\n' {
      var q := s[2..];
      assert s == "\r\n" + q && s + "\n" == "\r\n" + (q + "\n");
      ReadTextCrLf(q);
      ReadTextCrLf(q + "\n");
      ReadTextAfterCr(q);
    } else {
      var q := s[1..];
      assert s == [s[0]] + q && s + "\n" == [s[0]] + (q + "\n");
      ReadTextStep(s[0], q);
      ReadTextStep(s[0], q + "\n");
      ReadTextAfterCr(q);
    }
  }

  /** `f.readlines()` on the text `ReadText` gives: lines in order, each
      keeping its terminating newline except possibly the last; an empty
      file has no lines. */
  function ReadLines(s: string): (r: seq<string>)
    ensures s == [] <==> r == []
    decreases |s|
  {
    if s == [] then []
    else
      var k := IndexOf(s, '\n');
      if k < 0 then [s] else [s[..k + 1]] + ReadLines(s[k + 1..])
  }

  /** `readlines()` on a first line, its newline and the rest of the file. */
  lemma ReadLinesCons(a: string, rest: string)
    requires '\n' !in a
    ensures ReadLines(a + "\n" + rest) == [a + "\n"] + ReadLines(rest)
  {
    var s := a + "\n" + rest;
    var k := |a|;
    assert IndexOf(s, '\n') == k by {
      assert forall j :: 0 <= j < k ==> s[j] == a[j];
      assert s[k] == '\n';
    }
    assert s[..k + 1] == a + "\n" && s[k + 1..] == rest;
  }

  function Concat(xs: seq<string>): string
  {
    if xs == [] then [] else xs[0] + Concat(xs[1..])
  }

  lemma ConcatCons(x: string, ys: seq<string>)
    ensures Concat([x] + ys) == x + Concat(ys)
  {
    assert ([x] + ys)[1..] == ys;
  }

  /** The lines put back together are the file: nothing is lost. */
  lemma {:induction false} ReadLinesConcat(s: string)
    ensures Concat(ReadLines(s)) == s
    decreases |s|
  {
    if '\n' in s {
      var a, rest := CutFirstLine(s);
      ReadLinesConcat(rest);
      ReadLinesCons(a, rest);
      ConcatCons(a + "\n", ReadLines(rest));
    } else if s != [] {
      NoNewlineOneLine(s);
      ConcatCons(s, []);
    }
  }

  /** A line of `readlines()`: non-empty, with no newline before its last
      character, which is a newline unless it is the file's last line. */
  predicate LineShape(line: string, last: bool) {
    && line != []
    && '\n' !in line[..|line| - 1]
    && (!last ==> line[|line| - 1] == '\n')
  }

  /** Each line is non-empty, ends with its only newline, and only the
      last line may lack one. */
  lemma {:induction false} ReadLinesShape(s: string, i: int)
    requires 0 <= i < |ReadLines(s)|
    ensures LineShape(ReadLines(s)[i], i == |ReadLines(s)| - 1)
    decreases |s|, 1
  {
    if '\n' in s {
      var a, rest := CutFirstLine(s);
      LinesShapeCons(a, rest, i);
    } else {
      NoNewlineOneLine(s);
      OnlyLineShape(s);
    }
  }

  /** `ReadLinesShape` for a text cut at its first newline. */
  lemma {:induction false} LinesShapeCons(a: string, rest: string, i: int)
    requires '\n' !in a
    requires 0 <= i < |ReadLines(a + "\n" + rest)|
    ensures LineShape(ReadLines(a + "\n" + rest)[i], i == |ReadLines(a + "\n" + rest)| - 1)
    decreases |a + "\n" + rest|, 0
  {
    if i == 0 {
      FirstLineShape(a, rest);
    } else {
      assert i - 1 < |ReadLines(rest)| by {
        ReadLinesCons(a, rest);
      }
      ReadLinesShape(rest, i - 1);
      LaterLineShape(a, rest, i);
    }
  }

  lemma FirstLineShape(a: string, rest: string)
    requires '\n' !in a
    ensures LineShape(ReadLines(a + "\n" + rest)[0], false)
  {
    ReadLinesCons(a, rest);
    var line := a + "\n";
    assert line[..|line| - 1] == a;
  }

  lemma LaterLineShape(a: string, rest: string, i: int)
    requires '\n' !in a
    requires 1 <= i <= |ReadLines(rest)|
    requires LineShape(ReadLines(rest)[i - 1], i - 1 == |ReadLines(rest)| - 1)
    ensures i < |ReadLines(a + "\n" + rest)|
         && LineShape(ReadLines(a + "\n" + rest)[i], i == |ReadLines(a + "\n" + rest)| - 1)
  {
    ReadLinesCons(a, rest);
  }

  lemma OnlyLineShape(s: string)
    requires s != [] && '\n' !in s
    ensures LineShape(s, true)
  {
    assert forall j :: 0 <= j < |s| - 1 ==> s[..|s| - 1][j] == s[j];
  }

  /** What the runner compares a candidate's output against:
      `'\n'.join(map(str.strip, f.readlines()))`, where `content` is the
      text read from the expected file `f`. No line of the result has
      whitespace at either end. */
  function ExpectedText(content: string): (r: string)
    ensures AllStripped(SplitLines(r))
  {
    var ys := StripEach(ReadLines(content));
    StrippedLinesOf(content, ys);
    JoinedLinesStripped(ys);
    JoinLines(ys)
  }

  /** Every stripped line of `readlines()` is free of newlines and of
      whitespace at its ends. */
  lemma StrippedLinesOf(content: string, ys: seq<string>)
    requires ys == StripEach(ReadLines(content))
    ensures forall i :: 0 <= i < |ys| ==> '\n' !in ys[i] && Stripped(ys[i])
  {
    var xs := ReadLines(content);
    forall i | 0 <= i < |ys| ensures '\n' !in ys[i] && Stripped(ys[i]) {
      ReadLinesShape(content, i);
      StripEachAt(xs, i);
      StripLineNoNewline(xs[i]);
    }
  }

  lemma {:induction false} StripEachAt(xs: seq<string>, i: int)
    requires 0 <= i < |xs|
    ensures StripEach(xs)[i] == Strip(xs[i])
    decreases |xs|
  {
    if i > 0 {
      StripEachAt(xs[1..], i - 1);
    }
  }

  /** A line of `readlines()`, stripped, holds no newline. */
  lemma StripLineNoNewline(line: string)
    requires line != [] && '\n' !in line[..|line| - 1]
    ensures '\n' !in Strip(line)
  {
    var a := line[..|line| - 1];
    if line[|line| - 1] == '\n' {
      assert line == a + "\n";
      StripSkipsTrailingWs(a, "\n");
      if '\n' in Strip(a) {
        StripKeepsOnlyCharsOf(a, '\n');
        assert false;
      }
    } else {
      assert '\n' !in line by {
        assert forall j :: 0 <= j < |line| - 1 ==> line[j] == a[j];
      }
      if '\n' in Strip(line) {
        StripKeepsOnlyCharsOf(line, '\n');
        assert false;
      }
    }
  }

  /** Joining stripped pieces without newlines gives a text whose lines are
      those pieces. */
  lemma JoinedLinesStripped(ys: seq<string>)
    requires forall i :: 0 <= i < |ys| ==> '\n' !in ys[i] && Stripped(ys[i])
    ensures AllStripped(SplitLines(JoinLines(ys)))
  {
    if ys == [] {
      NoNewlineOneLine([]);
      AllStrippedOne([]);
    } else {
      SplitJoin(ys);
    }
  }

  /** Splitting undoes joining when no piece holds a newline. */
  lemma {:induction false} SplitJoin(xs: seq<string>)
    requires |xs| > 0
    requires forall i :: 0 <= i < |xs| ==> '\n' !in xs[i]
    ensures SplitLines(JoinLines(xs)) == xs
    decreases |xs|
  {
    if |xs| == 1 {
      NoNewlineOneLine(xs[0]);
    } else {
      SplitJoin(xs[1..]);
      SplitLinesCons(xs[0], JoinLines(xs[1..]));
      assert xs == [xs[0]] + xs[1..];
    }
  }

  /** `map(str.strip, xs)`. */
  function StripEach(xs: seq<string>): (r: seq<string>)
    ensures |r| == |xs|
  {
    if xs == [] then [] else [Strip(xs[0])] + StripEach(xs[1..])
  }

  /** Two newline-separated strings agree exactly when both their first
      lines and the remainders agree. */
  lemma SplitAtNewline(x: string, y: string, a: string, b: string)
    requires '\n' !in x && '\n' !in a
    ensures x + "\n" + y == a + "\n" + b <==> x == a && y == b
  {
    var l, r := x + "\n" + y, a + "\n" + b;
    if l == r {
      assert forall j :: 0 <= j < |x| ==> l[j] != '\n';
      assert forall j :: 0 <= j < |a| ==> r[j] != '\n';
      assert l[|x|] == '\n' && r[|a|] == '\n';
      assert |x| == |a|;
      assert x == l[..|x|] && a == r[..|a|];
      assert y == l[|x| + 1..] && b == r[|a| + 1..];
    }
  }

  lemma JoinLinesCons(x: string, ys: seq<string>)
    requires |ys| >= 1
    ensures JoinLines([x] + ys) == x + "\n" + JoinLines(ys)
  {
    assert ([x] + ys)[1..] == ys;
  }

  lemma StripEachCons(x: string, ys: seq<string>)
    ensures StripEach([x] + ys) == [Strip(x)] + StripEach(ys)
  {
    assert ([x] + ys)[1..] == ys;
  }

  /** `ExpectedText` on a first line, a newline and a non-empty rest: the
      first line stripped, then the rest normalised. */
  lemma ExpectedTextCons(a: string, rest: string)
    requires '\n' !in a && rest != []
    ensures ExpectedText(a + "\n" + rest) == Strip(a) + "\n" + ExpectedText(rest)
  {
    ReadLinesCons(a, rest);
    var tail := ReadLines(rest);
    StripSkipsTrailingWs(a, "\n");
    StripEachCons(a + "\n", tail);
    JoinLinesCons(Strip(a), StripEach(tail));
  }

  /** `ExpectedText` of a text without a newline is the text stripped. */
  lemma SingleLineText(s: string)
    requires '\n' !in s
    ensures ExpectedText(s) == Strip(s)
  {
    if s == [] {
      StrippedIsFixedPoint(s);
    } else {
      NoNewlineOneLine(s);
      StripEachCons(s, []);
    }
  }

  /** `SplitLines` on a first line, a newline and the rest. */
  lemma SplitLinesCons(a: string, rest: string)
    requires '\n' !in a
    ensures SplitLines(a + "\n" + rest) == [a] + SplitLines(rest)
  {
    var s := a + "\n" + rest;
    var k := |a|;
    assert IndexOf(s, '\n') == k by {
      assert forall j :: 0 <= j < k ==> s[j] == a[j];
      assert s[k] == '\n';
    }
    assert s[..k] == a && s[k + 1..] == rest;
  }

  predicate AllStripped(xs: seq<string>) {
    forall i :: 0 <= i < |xs| ==> Stripped(xs[i])
  }

  lemma AllStrippedCons(x: string, ys: seq<string>)
    ensures AllStripped([x] + ys) <==> Stripped(x) && AllStripped(ys)
  {
    var xs := [x] + ys;
    assert xs[0] == x;
    assert forall i :: 0 <= i < |ys| ==> ys[i] == xs[i + 1];
    if Stripped(x) && AllStripped(ys) {
      forall i | 0 <= i < |xs| ensures Stripped(xs[i]) {
        if i > 0 { assert xs[i] == ys[i - 1]; }
      }
    }
  }

  /** The per-line normalisation of the expected file leaves a text unchanged
      exactly when none of its lines has whitespace at either end. The text
      must not end with a newline (a stripped text never does). */
  lemma {:induction false} ExpectedTextFixedPoint(s: string)
    requires s == [] || s[|s| - 1] != '\n'
    ensures ExpectedText(s) == s <==> AllStripped(SplitLines(s))
    decreases |s|
  {
    if '\n' in s {
      var a, rest := CutFirstLine(s);
      LastOfCons(a, rest);
      ExpectedTextFixedPoint(rest);
      FixedPointStep(a, rest);
    } else {
      OneLineFixedPoint(s);
    }
  }

  lemma OneLineFixedPoint(s: string)
    requires '\n' !in s
    ensures ExpectedText(s) == s <==> AllStripped(SplitLines(s))
  {
    assert ExpectedText(s) == s <==> Stripped(s) by {
      SingleLineText(s);
      StrippedIsFixedPoint(s);
    }
    assert AllStripped(SplitLines(s)) <==> Stripped(s) by {
      NoNewlineOneLine(s);
      AllStrippedOne(s);
    }
  }

  lemma AllStrippedOne(s: string)
    ensures AllStripped([s]) <==> Stripped(s)
  {
    assert [s][0] == s;
  }

  /** The first line is unchanged and the rest is unchanged exactly when
      the whole is. */
  lemma FixedPointStep(a: string, rest: string)
    requires '\n' !in a && rest != []
    requires ExpectedText(rest) == rest <==> AllStripped(SplitLines(rest))
    ensures ExpectedText(a + "\n" + rest) == a + "\n" + rest <==> AllStripped(SplitLines(a + "\n" + rest))
  {
    ExpectedTextCons(a, rest);
    SplitLinesCons(a, rest);
    assert '\n' !in Strip(a) by {
      if '\n' in Strip(a) { StripKeepsOnlyCharsOf(a, '\n'); }
    }
    SplitAtNewline(Strip(a), ExpectedText(rest), a, rest);
    StrippedIsFixedPoint(a);
    AllStrippedCons(a, SplitLines(rest));
  }

  /** A newline at the end of the expected file makes no difference. */
  lemma {:induction false} ExpectedTextTrailingNewline(s: string)
    requires s == [] || s[|s| - 1] != '\n'
    ensures ExpectedText(s + "\n") == ExpectedText(s)
    decreases |s|
  {
    if '\n' in s {
      var a, rest := CutFirstLine(s);
      LastOfCons(a, rest);
      ExpectedTextTrailingNewline(rest);
      NewlineBeforeEnd(a, rest);
    } else {
      LastLineText(s);
    }
  }

  /** A last line without a newline reads the same as with one. */
  lemma LastLineText(s: string)
    requires '\n' !in s
    ensures ExpectedText(s + "\n") == ExpectedText(s)
  {
    ReadLinesCons(s, []);
    assert s + "\n" + [] == s + "\n";
    StripSkipsTrailingWs(s, "\n");
    StripEachCons(s + "\n", []);
    SingleLineText(s);
  }

  lemma NewlineBeforeEnd(a: string, rest: string)
    requires '\n' !in a && rest != []
    requires ExpectedText(rest + "\n") == ExpectedText(rest)
    ensures ExpectedText(a + "\n" + rest + "\n") == ExpectedText(a + "\n" + rest)
  {
    assert a + "\n" + rest + "\n" == a + "\n" + (rest + "\n");
    ExpectedTextCons(a, rest + "\n");
    ExpectedTextCons(a, rest);
  }

  /** Normalising the expected file adds no character other than newlines. */
  lemma {:induction false} ExpectedTextKeepsOnlyCharsOf(s: string, c: char)
    requires c != '\n' && c in ExpectedText(s)
    ensures c in s
    decreases |s|
  {
    if '\n' in s {
      var a, rest := CutFirstLine(s);
      if rest == [] {
        KeepsCharsOfLast(a, c);
      } else {
        KeepsCharsOfCons(a, rest, c);
        if c !in a {
          ExpectedTextKeepsOnlyCharsOf(rest, c);
        }
      }
      InCons(a, rest, c);
    } else {
      SingleLineText(s);
      StripKeepsOnlyCharsOf(s, c);
    }
  }

  lemma InCons(a: string, rest: string, c: char)
    requires c in a || c in rest
    ensures c in a + "\n" + rest
  {
  }

  lemma KeepsCharsOfLast(a: string, c: char)
    requires '\n' !in a && c != '\n' && c in ExpectedText(a + "\n" + [])
    ensures c in a
  {
    assert a + "\n" + [] == a + "\n";
    LastLineText(a);
    SingleLineText(a);
    StripKeepsOnlyCharsOf(a, c);
  }

  lemma KeepsCharsOfCons(a: string, rest: string, c: char)
    requires '\n' !in a && rest != [] && c != '\n' && c in ExpectedText(a + "\n" + rest)
    ensures c in a || c in ExpectedText(rest)
  {
    ExpectedTextCons(a, rest);
    if c in Strip(a) {
      StripKeepsOnlyCharsOf(a, c);
    }
  }

  /** A newline at the end of an expected file that does not already end
      with one makes no difference, once the file is read in text mode. */
  lemma ReadFinalNewline(s: string)
    requires s == [] || s[|s| - 1] != '\n'
    ensures ExpectedText(ReadText(s + "\n")) == ExpectedText(ReadText(s))
  {
    if s != [] && s[|s| - 1] == '\r' {
      ReadTextAfterCr(s);
    } else {
      var r := ReadTextPlain(s);
      ExpectedTextTrailingNewline(r);
    }
  }

  /** A file that ends with neither `\r` nor `\n` reads to a text that does
      not end with a newline, and a final newline reads as one. */
  lemma ReadTextPlain(s: string) returns (r: string)
    requires s == [] || (s[|s| - 1] != '\n' && s[|s| - 1] != '\r')
    ensures r == ReadText(s) && ReadText(s + "\n") == r + "\n"
    ensures r == [] || r[|r| - 1] != '\n'
  {
    r := ReadText(s);
    ReadTextSnoc(s, '\n');
    assert s + "\n" == s + ['\n'];
    if s != [] {
      var p, c := s[..|s| - 1], s[|s| - 1];
      assert s == p + [c];
      ReadTextSnoc(p, c);
    }
  }

  /** What the runner compares against never holds a `\r`: reading turns
      every `\r` into a newline and normalising adds none back. */
  lemma ReadExpectedHasNoCr(s: string)
    ensures '\r' !in ExpectedText(ReadText(s))
  {
    if '\r' in ExpectedText(ReadText(s)) {
      ExpectedTextKeepsOnlyCharsOf(ReadText(s), '\r');
      assert false;
    }
  }
}
