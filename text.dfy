/**
 * The pieces of Python's `str` behaviour that the text-processing code relies
 * on: whitespace, `strip`, `split`/`join` on one separator character, `find`,
 * `in` on substrings, `replace`, and the filters the code writes as list
 * comprehensions.  Strings are sequences of Unicode scalar values, so `|s|`
 * is Python's `len(s)`.
 */
module Text {

  /** Python's `str.isspace()` on one character; `\s` in a `str` pattern matches the same set. */
  predicate IsSpace(c: char) {
    ('\t' <= c <= '\r') || ('\U{1C}' <= c <= ' ') || c == '\U{85}' || c == '\U{A0}' ||
    c == '\U{1680}' || ('\U{2000}' <= c <= '\U{200A}') || c == '\U{2028}' || c == '\U{2029}' ||
    c == '\U{202F}' || c == '\U{205F}' || c == '\U{3000}'
  }

  /** A string made of whitespace only (the empty string included). */
  predicate IsBlank(s: string) {
    forall i :: 0 <= i < |s| ==> IsSpace(s[i])
  }

  // ---------------------------------------------------------------- strip

  /** How many whitespace characters `s` starts with. */
  function LeadingSpaces(s: string): (k: nat)
    ensures k <= |s| && IsBlank(s[..k])
    ensures k < |s| ==> !IsSpace(s[k])
  {
    if |s| > 0 && IsSpace(s[0]) then
      var k := 1 + LeadingSpaces(s[1..]);
      assert forall i :: 1 <= i < k ==> s[..k][i] == s[1..][..k - 1][i - 1];
      k
    else 0
  }

  /** Where the whitespace that `s` ends with begins. */
  function ContentEnd(s: string): (k: nat)
    ensures k <= |s| && IsBlank(s[k..])
    ensures 0 < k ==> !IsSpace(s[k - 1])
  {
    if |s| > 0 && IsSpace(s[|s| - 1]) then
      var k := ContentEnd(s[..|s| - 1]);
      assert s[k..] == s[..|s| - 1][k..] + [s[|s| - 1]];
      k
    else |s|
  }

  /** `s.lstrip()`. */
  function TrimLeft(s: string): string {
    s[LeadingSpaces(s)..]
  }

  /** `s.rstrip()`. */
  function TrimRight(s: string): string {
    s[..ContentEnd(s)]
  }

  /** `s.strip()`: `s` without leading and trailing whitespace. */
  function Strip(s: string): (r: string)
    ensures r == [] || (!IsSpace(r[0]) && !IsSpace(r[|r| - 1]))
    ensures |r| <= |s|
    ensures exists i, j :: 0 <= i <= j <= |s| && r == s[i..j] && IsBlank(s[..i]) && IsBlank(s[j..])
  {
    var i := LeadingSpaces(s);
    var j := i + ContentEnd(s[i..]);
    assert s[j..] == s[i..][ContentEnd(s[i..])..];
    assert TrimRight(TrimLeft(s)) == s[i..j];
    TrimRight(TrimLeft(s))
  }

  /** `s.strip()` is empty exactly when `s` is whitespace only. */
  lemma {:induction false} StripEmptyIffBlank(s: string)
    ensures Strip(s) == [] <==> IsBlank(s)
  {
    var l := TrimLeft(s);
    if l == [] {
      assert s[..|s|] == s;
    } else {
      assert !IsSpace(s[|s| - |l|]);
    }
  }

  /** A string that starts and ends with non-whitespace is left alone by `strip`. */
  lemma {:induction false} StripFixed(s: string)
    requires s == [] || (!IsSpace(s[0]) && !IsSpace(s[|s| - 1]))
    ensures Strip(s) == s
  {
  }

  /** Every character of a blank prefix is whitespace. */
  lemma BlankPrefix(s: string, k: nat)
    requires k <= |s| && IsBlank(s[..k])
    ensures forall j :: 0 <= j < k ==> IsSpace(s[j])
  {
    forall j | 0 <= j < k
      ensures IsSpace(s[j])
    {
      assert s[..k][j] == s[j];
    }
  }

  /** Every character of a blank suffix is whitespace. */
  lemma BlankSuffix(s: string, k: nat)
    requires k <= |s| && IsBlank(s[k..])
    ensures forall j :: k <= j < |s| ==> IsSpace(s[j])
  {
    forall j | k <= j < |s|
      ensures IsSpace(s[j])
    {
      assert s[k..][j - k] == s[j];
    }
  }

  /** Removing trailing whitespace first makes no difference to `strip`. */
  lemma StripTrimRight(s: string)
    ensures Strip(TrimRight(s)) == Strip(s)
  {
    var e := ContentEnd(s);
    if IsBlank(s) {
      BlankSuffix(s, e);
      assert TrimRight(s) == [];
      StripEmptyIffBlank(s);
    } else {
      var t := TrimRight(s);
      StripBounds(s);
      assert s == t + s[e..];
      assert t[e - 1] == s[e - 1];
      TrimLeftConcat(t, s[e..]);
      TrimRightBlankTail(TrimLeft(t), s[e..]);
    }
  }

  /** In a string that is not blank, the leading whitespace ends before the trailing whitespace starts. */
  lemma StripBounds(s: string)
    requires !IsBlank(s)
    ensures LeadingSpaces(s) < ContentEnd(s)
  {
    BlankPrefix(s, LeadingSpaces(s));
    BlankSuffix(s, ContentEnd(s));
    var i :| 0 <= i < |s| && !IsSpace(s[i]);
  }

  /** Trailing whitespace removal ignores a blank tail. */
  lemma {:induction false} TrimRightBlankTail(x: string, y: string)
    requires IsBlank(y)
    ensures TrimRight(x + y) == TrimRight(x)
    decreases |y|
  {
    if y == [] {
      assert x + y == x;
    } else {
      var y' := y[..|y| - 1];
      assert (x + y)[..|x + y| - 1] == x + y';
      assert forall i :: 0 <= i < |y'| ==> y'[i] == y[i];
      TrimRightBlankTail(x, y');
      var k := ContentEnd(x + y);
      assert k == ContentEnd(x + y');
      assert (x + y)[..k] == (x + y')[..k];
    }
  }

  /** `strip` is idempotent. */
  lemma StripIdempotent(s: string)
    ensures Strip(Strip(s)) == Strip(s)
  {
    StripFixed(Strip(s));
  }

  /** Index of the last `c` in `s`, or -1 when there is none. */
  function LastIndexOf(s: string, c: char): (i: int)
    ensures -1 <= i < |s|
    ensures 0 <= i ==> s[i] == c
    ensures forall j :: i < j < |s| ==> s[j] != c
  {
    if s == [] then -1
    else if s[|s| - 1] == c then |s| - 1
    else LastIndexOf(s[..|s| - 1], c)
  }

  // ---------------------------------------------------------------- split / join

  /** Index of the first `c` in `s`, or `|s|` when there is none. */
  function IndexOf(s: string, c: char): (i: nat)
    ensures i <= |s|
    ensures i < |s| ==> s[i] == c
    ensures c !in s[..i]
  {
    if s == [] || s[0] == c then 0 else 1 + IndexOf(s[1..], c)
  }

  /** `s.split(sep)` for a one-character separator: never empty, `""` gives `[""]`. */
  function Split(s: string, sep: char): (parts: seq<string>)
    ensures |parts| >= 1
    ensures forall p :: p in parts ==> sep !in p
    decreases |s|
  {
    var i := IndexOf(s, sep);
    if i == |s| then
      assert s[..i] == s;
      [s]
    else [s[..i]] + Split(s[i + 1..], sep)
  }

  /** `sep.join(parts)` for a one-character separator. */
  function Join(parts: seq<string>, sep: char): string
  {
    if parts == [] then ""
    else if |parts| == 1 then parts[0]
    else parts[0] + [sep] + Join(parts[1..], sep)
  }

  /** Splitting a joined list gives the list back when no part holds the separator. */
  lemma {:induction false} SplitJoin(parts: seq<string>, sep: char)
    requires |parts| >= 1
    requires forall p :: p in parts ==> sep !in p
    ensures Split(Join(parts, sep), sep) == parts
  {
    var s := Join(parts, sep);
    if |parts| == 1 {
      assert sep !in parts[0];
    } else {
      var p := parts[0];
      assert sep !in p;
      assert s == p + [sep] + Join(parts[1..], sep);
      assert forall k :: 0 <= k < |p| ==> s[k] == p[k];
      assert s[|p|] == sep;
      var i := IndexOf(s, sep);
      assert s[..i] == p;
      assert s[i + 1..] == Join(parts[1..], sep);
      SplitJoin(parts[1..], sep);
    }
  }

  /** Joining the parts of a split gives the string back. */
  lemma {:induction false} JoinSplit(s: string, sep: char)
    ensures Join(Split(s, sep), sep) == s
    decreases |s|
  {
    var i := IndexOf(s, sep);
    if i < |s| {
      var rest := Split(s[i + 1..], sep);
      var parts := Split(s, sep);
      assert parts == [s[..i]] + rest;
      assert parts[0] == s[..i] && parts[1..] == rest && |parts| >= 2;
      JoinSplit(s[i + 1..], sep);
      assert Join(parts, sep) == s[..i] + [sep] + s[i + 1..];
      assert s == s[..i] + [sep] + s[i + 1..];
    } else {
      assert s[..i] == s;
    }
  }

  /** The length of a joined list: every part plus one separator between neighbours. */
  function Cost(parts: seq<string>): (n: nat)
    ensures n >= |parts|
  {
    if parts == [] then 0 else Cost(parts[..|parts| - 1]) + |parts[|parts| - 1]| + 1
  }

  lemma {:induction false} CostAppend(parts: seq<string>, p: string)
    ensures Cost(parts + [p]) == Cost(parts) + |p| + 1
  {
    assert (parts + [p])[..|parts|] == parts;
  }

  /** `Cost` grows along prefixes. */
  lemma {:induction false} CostMonotone(parts: seq<string>, i: nat, j: nat)
    requires i <= j <= |parts|
    ensures Cost(parts[..i]) + (j - i) <= Cost(parts[..j])
    decreases j - i
  {
    if i < j {
      CostMonotone(parts, i, j - 1);
      assert parts[..j] == parts[..j - 1] + [parts[j - 1]];
      CostAppend(parts[..j - 1], parts[j - 1]);
    }
  }

  /** A non-empty join is one character shorter than its `Cost`. */
  lemma {:induction false} JoinLength(parts: seq<string>, sep: char)
    requires |parts| >= 1
    ensures |Join(parts, sep)| == Cost(parts) - 1
  {
    if |parts| == 1 {
      assert parts[..0] == [];
    } else {
      JoinLength(parts[1..], sep);
      CostFront(parts);
    }
  }

  lemma {:induction false} CostFront(parts: seq<string>)
    requires |parts| >= 1
    ensures Cost(parts) == |parts[0]| + 1 + Cost(parts[1..])
    decreases |parts|
  {
    if |parts| > 1 {
      var init := parts[..|parts| - 1];
      CostFront(init);
      assert init[1..] == parts[1..][..|parts| - 2];
    } else {
      assert parts[..0] == [];
      assert parts[1..] == [];
    }
  }

  /** `s.split('\n')`. */
  function Lines(s: string): (ls: seq<string>)
    ensures |ls| >= 1
    ensures forall l :: l in ls ==> '\n' !in l
  {
    Split(s, '\n')
  }

  /** No line of `s` is made of whitespace only. */
  predicate NoBlankLine(s: string) {
    forall l :: l in Lines(s) ==> !IsBlank(l)
  }

  /** A line as the cleaners keep it: no line break inside and not whitespace only. */
  predicate ContentLine(p: string) {
    '\n' !in p && !IsBlank(p)
  }

  /** Joining a list whose parts are non-blank gives a string whose lines are exactly those parts. */
  lemma JoinedLines(parts: seq<string>)
    requires |parts| >= 1
    requires forall p :: p in parts ==> ContentLine(p)
    ensures Lines(Join(parts, '\n')) == parts
    ensures NoBlankLine(Join(parts, '\n'))
  {
    SplitJoin(parts, '\n');
  }

  lemma {:induction false} JoinSnoc(parts: seq<string>, sep: char)
    requires |parts| >= 2
    ensures Join(parts, sep) == Join(parts[..|parts| - 1], sep) + [sep] + parts[|parts| - 1]
    decreases |parts|
  {
    if |parts| > 2 {
      JoinSnoc(parts[1..], sep);
      assert parts[1..][..|parts| - 2] == parts[..|parts| - 1][1..];
    }
  }

  /** Leading whitespace removal stops inside a first part that is not blank. */
  lemma {:induction false} TrimLeftConcat(a: string, b: string)
    requires !IsBlank(a)
    ensures TrimLeft(a + b) == TrimLeft(a) + b
    decreases |a|
  {
    if IsSpace(a[0]) {
      assert (a + b)[1..] == a[1..] + b;
      TrimLeftConcat(a[1..], b);
    }
  }

  /** Trailing whitespace removal stops inside a last part that is not blank. */
  lemma {:induction false} TrimRightConcat(a: string, b: string)
    requires !IsBlank(b)
    ensures TrimRight(a + b) == a + TrimRight(b)
    decreases |b|
  {
    if IsSpace(b[|b| - 1]) {
      assert (a + b)[..|a + b| - 1] == a + b[..|b| - 1];
      TrimRightConcat(a, b[..|b| - 1]);
    }
  }

  /**
   * Stripping the join of non-blank lines strips only the first line's start
   * and the last line's end, so every line of the result is still non-blank.
   */
  lemma StripJoinedLines(parts: seq<string>)
    requires |parts| >= 1
    requires forall p :: p in parts ==> ContentLine(p)
    ensures Strip(Join(parts, '\n')) != []
    ensures Lines(Strip(Join(parts, '\n'))) == StrippedEnds(parts)
    ensures NoBlankLine(Strip(Join(parts, '\n')))
  {
    var ps2 := StrippedEnds(parts);
    StrippedEndsContent(parts);
    if |parts| == 1 {
      StripOneLine(parts);
    } else {
      StripManyLines(parts);
    }
    var r := Strip(Join(parts, '\n'));
    assert r == Join(ps2, '\n');
    JoinedLines(ps2);
    assert ps2[0] in ps2;
    JoinNonEmpty(ps2, '\n');
  }

  lemma JoinNonEmpty(ps: seq<string>, sep: char)
    requires |ps| >= 1 && ps[0] != []
    ensures Join(ps, sep) != []
  {
    if |ps| > 1 {
      assert Join(ps, sep)[0] == ps[0][0];
    }
  }

  /**
   * `'\n'.join(ps).strip()` for content lines: empty exactly when there are no
   * lines, otherwise the lines of `StrippedEnds`, none of them blank.
   */
  function StripJoined(ps: seq<string>): (r: string)
    requires forall p :: p in ps ==> ContentLine(p)
    ensures r == [] || (!IsSpace(r[0]) && !IsSpace(r[|r| - 1]))
    ensures r == [] <==> ps == []
    ensures ps != [] ==> NoBlankLine(r) && Lines(r) == StrippedEnds(ps)
  {
    if ps != [] then
      StripJoinedLines(ps);
      Strip(Join(ps, '\n'))
    else
      Strip(Join(ps, '\n'))
  }

  lemma StripOneLine(parts: seq<string>)
    requires |parts| == 1
    requires forall p :: p in parts ==> ContentLine(p)
    ensures Strip(Join(parts, '\n')) == Join(StrippedEnds(parts), '\n')
  {
    assert StrippedEnds(parts) == [Strip(parts[0])];
  }

  lemma StripManyLines(parts: seq<string>)
    requires |parts| >= 2
    requires forall p :: p in parts ==> ContentLine(p)
    ensures Strip(Join(parts, '\n')) == Join(StrippedEnds(parts), '\n')
  {
    EndsNonBlank(parts);
    StripJoinShape(parts);
  }

  lemma EndsNonBlank(parts: seq<string>)
    requires |parts| >= 1
    requires forall p :: p in parts ==> ContentLine(p)
    ensures !IsBlank(parts[0]) && !IsBlank(parts[|parts| - 1])
  {
    assert parts[0] in parts && parts[|parts| - 1] in parts;
  }

  /**
   * The lines of `strip` applied to a join of content lines: the first line
   * loses its leading whitespace and the last its trailing whitespace.
   */
  function StrippedEnds(parts: seq<string>): (r: seq<string>)
    requires |parts| >= 1
    ensures |r| == |parts|
    ensures forall i :: 0 < i < |parts| - 1 ==> r[i] == parts[i]
  {
    var n := |parts|;
    if n == 1 then
      [Strip(parts[0])]
    else
      Reframe(parts, TrimLeft(parts[0]), TrimRight(parts[n - 1]));
      [TrimLeft(parts[0])] + parts[1..n - 1] + [TrimRight(parts[n - 1])]
  }

  /** The lines `StrippedEnds` gives for content lines are content lines. */
  lemma StrippedEndsContent(parts: seq<string>)
    requires |parts| >= 1
    requires forall p :: p in parts ==> ContentLine(p)
    ensures forall p :: p in StrippedEnds(parts) ==> ContentLine(p)
  {
    if |parts| == 1 {
      assert parts[0] in parts;
      OneStrippedEndContent(parts);
    } else {
      EndsContent(parts);
      MidContent(parts);
      var n := |parts|;
      AllContentConcat([TrimLeft(parts[0])], parts[1..n - 1]);
      AllContentConcat([TrimLeft(parts[0])] + parts[1..n - 1], [TrimRight(parts[n - 1])]);
    }
  }

  lemma OneStrippedEndContent(parts: seq<string>)
    requires |parts| == 1 && ContentLine(parts[0])
    ensures forall p :: p in StrippedEnds(parts) ==> ContentLine(p)
  {
    ContentLineTrims(parts[0]);
  }

  lemma EndsContent(parts: seq<string>)
    requires |parts| >= 2
    requires forall p :: p in parts ==> ContentLine(p)
    ensures ContentLine(TrimLeft(parts[0])) && ContentLine(TrimRight(parts[|parts| - 1]))
  {
    assert parts[0] in parts && parts[|parts| - 1] in parts;
    ContentLineTrims(parts[0]);
    ContentLineTrims(parts[|parts| - 1]);
  }

  lemma MidContent(parts: seq<string>)
    requires |parts| >= 2
    requires forall p :: p in parts ==> ContentLine(p)
    ensures forall p :: p in parts[1..|parts| - 1] ==> ContentLine(p)
  {
    assert forall p :: p in parts[1..|parts| - 1] ==> p in parts;
  }

  lemma AllContentConcat(xs: seq<string>, ys: seq<string>)
    requires forall p :: p in xs ==> ContentLine(p)
    requires forall p :: p in ys ==> ContentLine(p)
    ensures forall p :: p in xs + ys ==> ContentLine(p)
  {
  }

  /** Replacing the two ends of a sequence keeps its length and its middle. */
  lemma Reframe<T>(xs: seq<T>, a: T, b: T)
    requires |xs| >= 2
    ensures var r := [a] + xs[1..|xs| - 1] + [b];
            |r| == |xs| && (forall i :: 0 < i < |xs| - 1 ==> r[i] == xs[i]) &&
            (forall x :: x in r ==> x == a || x == b || x in xs)
  {
    var r := [a] + xs[1..|xs| - 1] + [b];
    forall x | x in r
      ensures x == a || x == b || x in xs
    {
      var i :| 0 <= i < |r| && r[i] == x;
      if 0 < i < |xs| - 1 {
        assert r[i] == xs[i];
      }
    }
  }

  /** Trimming a content line leaves a content line. */
  lemma ContentLineTrims(p: string)
    requires ContentLine(p)
    ensures ContentLine(TrimLeft(p)) && ContentLine(TrimRight(p)) && ContentLine(Strip(p))
  {
    NonBlankTrims(p);
    TrimsKeepOut(p, '\n');
    StripKeepsOut(p, '\n');
  }

  lemma StripJoinShape(parts: seq<string>)
    requires |parts| >= 2
    requires !IsBlank(parts[0]) && !IsBlank(parts[|parts| - 1])
    ensures Strip(Join(parts, '\n'))
         == Join([TrimLeft(parts[0])] + parts[1..|parts| - 1] + [TrimRight(parts[|parts| - 1])], '\n')
  {
    var j := Join(parts, '\n');
    var ps1 := [TrimLeft(parts[0])] + parts[1..];
    FrontReplaced(parts, TrimLeft(parts[0]));
    TrimLeftJoin(parts);
    TrimRightJoin(ps1);
    assert Strip(j) == TrimRight(TrimLeft(j));
  }

  /** Replacing the first element keeps the length, the last element and the middle. */
  lemma FrontReplaced<T>(xs: seq<T>, a: T)
    requires |xs| >= 2
    ensures var ys := [a] + xs[1..];
            |ys| == |xs| && ys[|xs| - 1] == xs[|xs| - 1] && ys[..|xs| - 1] == [a] + xs[1..|xs| - 1]
  {
    var ys := [a] + xs[1..];
    assert ys[..|xs| - 1] == [a] + xs[1..|xs| - 1];
  }

  lemma TrimLeftJoin(parts: seq<string>)
    requires |parts| >= 2 && !IsBlank(parts[0])
    ensures TrimLeft(Join(parts, '\n')) == Join([TrimLeft(parts[0])] + parts[1..], '\n')
  {
    var tail := Join(parts[1..], '\n');
    TrimLeftConcat(parts[0], ['\n'] + tail);
    assert parts[0] + ['\n'] + tail == parts[0] + (['\n'] + tail);
    assert ([TrimLeft(parts[0])] + parts[1..])[1..] == parts[1..];
  }

  lemma TrimRightJoin(parts: seq<string>)
    requires |parts| >= 2 && !IsBlank(parts[|parts| - 1])
    ensures TrimRight(Join(parts, '\n')) == Join(parts[..|parts| - 1] + [TrimRight(parts[|parts| - 1])], '\n')
  {
    var n := |parts|;
    JoinSnoc(parts, '\n');
    TrimRightConcat(Join(parts[..n - 1], '\n') + ['\n'], parts[n - 1]);
    var ps := parts[..n - 1] + [TrimRight(parts[n - 1])];
    JoinSnoc(ps, '\n');
    assert ps[..n - 1] == parts[..n - 1];
  }

  /** Trimming a non-blank string leaves a non-blank string. */
  lemma NonBlankTrims(s: string)
    requires !IsBlank(s)
    ensures !IsBlank(TrimLeft(s)) && !IsBlank(TrimRight(s)) && !IsBlank(Strip(s))
  {
    assert s[..|s|] == s && s[0..] == s;
    var l := TrimLeft(s);
    assert !IsSpace(l[0]);
    var r := TrimRight(l);
    assert l[|l| - 1] == l[|l| - 1..][0];
    assert !IsSpace(r[|r| - 1]);
    assert !IsSpace(TrimRight(s)[|TrimRight(s)| - 1]) by {
      assert s[|s| - 1..][0] == s[|s| - 1];
    }
  }

  /** Trimming only removes characters. */
  lemma {:induction false} TrimsKeepOut(s: string, c: char)
    requires c !in s
    ensures c !in TrimLeft(s) && c !in TrimRight(s)
    decreases |s|
  {
    if |s| > 0 {
      assert c !in s[1..] && c !in s[..|s| - 1];
      TrimsKeepOut(s[1..], c);
      TrimsKeepOut(s[..|s| - 1], c);
    }
  }

  lemma StripKeepsOut(s: string, c: char)
    requires c !in s
    ensures c !in Strip(s)
  {
    TrimsKeepOut(s, c);
    TrimsKeepOut(TrimLeft(s), c);
  }

  // ---------------------------------------------------------------- comprehensions

  /** `[p for p in parts if p.strip()]`. */
  function NonBlank(parts: seq<string>): (r: seq<string>)
    ensures forall p :: p in r ==> p in parts && Strip(p) != []
    ensures forall p :: p in parts && Strip(p) != [] ==> p in r
  {
    if parts == [] then []
    else (if Strip(parts[0]) != [] then [parts[0]] else []) + NonBlank(parts[1..])
  }

  /** `[p.strip() for p in parts if p.strip()]`. */
  function StrippedNonEmpty(parts: seq<string>): (r: seq<string>)
    ensures forall p :: p in r ==> p != [] && Strip(p) == p
  {
    if parts == [] then []
    else
      var p := Strip(parts[0]);
      StripIdempotent(parts[0]);
      (if p != [] then [p] else []) + StrippedNonEmpty(parts[1..])
  }

  // ---------------------------------------------------------------- substrings

  /** `pat` occurs in `s` starting at index `i`. */
  predicate OccursAt(s: string, pat: string, i: nat) {
    i + |pat| <= |s| && s[i..i + |pat|] == pat
  }

  /** Python's `pat in s`. */
  predicate Contains(s: string, pat: string) {
    exists i :: 0 <= i <= |s| && OccursAt(s, pat, i)
  }

  /** Python's `s.find(pat, start)`: the first occurrence at or after `start`, or -1. */
  function FindFrom(s: string, pat: string, start: nat): (r: int)
    ensures r == -1 || (start <= r && OccursAt(s, pat, r))
    ensures forall i :: start <= i && (r == -1 || i < r) ==> !OccursAt(s, pat, i)
    decreases |s| - start
  {
    if start + |pat| > |s| then -1
    else if OccursAt(s, pat, start) then start
    else FindFrom(s, pat, start + 1)
  }

  /** Python's `s.find(pat)`: -1 exactly when `pat` does not occur. */
  function Find(s: string, pat: string): (r: int)
    ensures r == -1 <==> !Contains(s, pat)
    ensures r >= 0 ==> OccursAt(s, pat, r as nat) && forall i :: 0 <= i < r ==> !OccursAt(s, pat, i)
  {
    FindFrom(s, pat, 0)
  }

  /** Python's `s.replace(pat, "")`: every non-overlapping occurrence, scanned left to right, is removed. */
  function RemoveAll(s: string, pat: string): (r: string)
    ensures |r| <= |s|
    ensures pat == [] ==> r == s
    ensures forall c :: c in r ==> c in s
    decreases |s|
  {
    if pat == [] || |s| < |pat| then s
    else if s[..|pat|] == pat then RemoveAll(s[|pat|..], pat)
    else [s[0]] + RemoveAll(s[1..], pat)
  }

  /** A pattern no proper suffix of which starts it: two copies can never overlap. */
  predicate Unbordered(pat: string) {
    pat != [] && forall d :: 1 <= d < |pat| ==> pat[d] != pat[0]
  }

  /**
   * `replace(pat, "")` on `a + pat + b`, with no copy in `a`: `a` is kept and
   * the scan removes that copy and goes on in `b`, so every later copy goes too.
   */
  lemma RemoveAllSkip(a: string, pat: string, b: string)
    requires Unbordered(pat) && !Contains(a, pat)
    ensures RemoveAll(a + pat + b, pat) == a + RemoveAll(b, pat)
  {
    var s := a + pat + b;
    var k := |a|;
    assert OccursAt(s, pat, k) by {
      assert s[k..k + |pat|] == pat;
    }
    forall i | 0 <= i < k
      ensures !OccursAt(s, pat, i)
    {
      NoCopyBefore(a, pat, b, i);
    }
    assert s[k + |pat|..] == b;
    RemoveAllSkipAt(s, pat, k, b);
    assert s[..k] == a;
  }

  /** No copy starts inside `a`: it would lie in `a`, or the next copy's first character would be in its middle. */
  lemma NoCopyBefore(a: string, pat: string, b: string, i: nat)
    requires Unbordered(pat) && !Contains(a, pat) && i < |a|
    ensures !OccursAt(a + pat + b, pat, i)
  {
    var s := a + pat + b;
    if i + |pat| <= |a| {
      assert s[i..i + |pat|] == a[i..i + |pat|];
      assert !OccursAt(a, pat, i);
    } else if i + |pat| <= |s| {
      var d := |a| - i;
      assert s[i..i + |pat|][d] == s[|a|] == pat[0] != pat[d];
    }
  }

  /**
   * `replace(pat, "")` on a string whose first copy of `pat` starts at `k`:
   * everything before it is kept and the scan resumes after it.
   */
  lemma {:induction false} RemoveAllSkipAt(s: string, pat: string, k: nat, rest: string)
    requires pat != [] && OccursAt(s, pat, k) && rest == s[k + |pat|..]
    requires forall i :: 0 <= i < k ==> !OccursAt(s, pat, i)
    ensures RemoveAll(s, pat) == s[..k] + RemoveAll(rest, pat)
    decreases k
  {
    if k == 0 {
      assert s[..|pat|] == pat;
    } else {
      var t := s[1..];
      ShiftedSearch(s, pat, k, rest);
      RemoveAllSkipAt(t, pat, k - 1, rest);
      ShiftedResult(s, pat, k, RemoveAll(rest, pat));
    }
  }

  /** The search for the first copy, moved one character on. */
  lemma ShiftedSearch(s: string, pat: string, k: nat, rest: string)
    requires pat != [] && 0 < k && OccursAt(s, pat, k) && rest == s[k + |pat|..]
    requires forall i :: 0 <= i < k ==> !OccursAt(s, pat, i)
    ensures OccursAt(s[1..], pat, k - 1) && rest == s[1..][k - 1 + |pat|..]
    ensures forall i :: 0 <= i < k - 1 ==> !OccursAt(s[1..], pat, i)
  {
    forall i | 0 <= i < k - 1
      ensures !OccursAt(s[1..], pat, i)
    {
      ShiftOccurs(s, pat, i);
    }
    ShiftOccurs(s, pat, k - 1);
    DropShift(s, k - 1 + |pat|);
  }

  /** Keeping the first character, which starts no copy, and going on with the rest. */
  lemma ShiftedResult(s: string, pat: string, k: nat, rr: string)
    requires pat != [] && 0 < k && k + |pat| <= |s| && !OccursAt(s, pat, 0)
    requires RemoveAll(s[1..], pat) == s[1..][..k - 1] + rr
    ensures RemoveAll(s, pat) == s[..k] + rr
  {
    RemoveAllFront(s, pat);
    TakeShift(s, k);
    ConsChain(s[..k], s[0], s[1..][..k - 1], rr, RemoveAll(s, pat), RemoveAll(s[1..], pat));
  }

  lemma DropShift<T>(s: seq<T>, i: nat)
    requires i < |s|
    ensures s[1..][i..] == s[i + 1..]
  {
  }

  lemma TakeShift<T>(s: seq<T>, k: nat)
    requires 0 < k <= |s|
    ensures s[..k] == [s[0]] + s[1..][..k - 1]
  {
  }

  lemma ConsChain<T>(x: seq<T>, c: T, y: seq<T>, rest: seq<T>, rx: seq<T>, ry: seq<T>)
    requires rx == [c] + ry && ry == y + rest && x == [c] + y
    ensures rx == x + rest
  {
  }

  lemma ShiftOccurs(s: string, pat: string, i: nat)
    requires s != []
    ensures OccursAt(s[1..], pat, i) <==> OccursAt(s, pat, i + 1)
  {
    if i + |pat| <= |s| - 1 {
      assert s[1..][i..i + |pat|] == s[i + 1..i + 1 + |pat|];
    }
  }

  /** A front character that does not start a copy is kept. */
  lemma RemoveAllFront(s: string, pat: string)
    requires pat != [] && |s| >= |pat| && s[..|pat|] != pat
    ensures RemoveAll(s, pat) == [s[0]] + RemoveAll(s[1..], pat)
  {
  }

  /** A copy of `pat` inside `y` is also one inside `x + y` and `y + x`. */
  lemma ContainsWithin(x: string, y: string, pat: string)
    requires Contains(y, pat)
    ensures Contains(x + y, pat) && Contains(y + x, pat)
  {
    var i :| 0 <= i <= |y| && OccursAt(y, pat, i);
    assert (x + y)[|x| + i..|x| + i + |pat|] == y[i..i + |pat|];
    assert OccursAt(x + y, pat, |x| + i);
    assert (y + x)[i..i + |pat|] == y[i..i + |pat|];
    assert OccursAt(y + x, pat, i);
  }

  /** The lines of `h + "\n" + b`, for a line `h`, are `h` followed by the lines of `b`. */
  lemma LinesCons(h: string, b: string)
    requires '\n' !in h
    ensures Lines(h + "\n" + b) == [h] + Lines(b)
  {
    var ps := Lines(b);
    JoinSplit(b, '\n');
    assert ([h] + ps)[1..] == ps;
    assert Join([h] + ps, '\n') == h + "\n" + b;
    SplitJoin([h] + ps, '\n');
  }

  /** The lines of `b + "\n" + n`, for a line `n`, are the lines of `b` followed by `n`. */
  lemma LinesSnoc(b: string, n: string)
    requires '\n' !in n
    ensures Lines(b + "\n" + n) == Lines(b) + [n]
  {
    var ps := Lines(b);
    var qs := ps + [n];
    JoinSplit(b, '\n');
    JoinSnoc(qs, '\n');
    assert qs[..|qs| - 1] == ps;
    SplitJoin(qs, '\n');
  }

  /** A string without line breaks is one line. */
  lemma LinesOne(p: string)
    requires '\n' !in p
    ensures Lines(p) == [p]
  {
    SplitJoin([p], '\n');
  }

  /** Splitting at one line break splits the two sides apart: `(x + "\n" + y).split("\n")` is `x.split("\n") + y.split("\n")`. */
  lemma {:induction false} LinesConcat(x: string, y: string)
    ensures Lines(x + "\n" + y) == Lines(x) + Lines(y)
    decreases |x|
  {
    var i := IndexOf(x, '\n');
    if i == |x| {
      LinesConcatOne(x, y);
    } else {
      var h, t := x[..i], x[i + 1..];
      assert '\n' !in h;
      BreakAt(x, i, y);
      LinesCons(h, t);
      LinesConcat(t, y);
      LinesCons(h, t + "\n" + y);
    }
  }

  lemma LinesConcatOne(x: string, y: string)
    requires IndexOf(x, '\n') == |x|
    ensures Lines(x + "\n" + y) == Lines(x) + Lines(y)
  {
    assert x[..|x|] == x;
    LinesCons(x, y);
    LinesOne(x);
  }

  /** Cutting `x` at a line break. */
  lemma BreakAt(x: string, i: nat, y: string)
    requires i < |x| && x[i] == '\n'
    ensures x == x[..i] + "\n" + x[i + 1..]
    ensures x + "\n" + y == x[..i] + "\n" + (x[i + 1..] + "\n" + y)
  {
    var h, t := x[..i], x[i + 1..];
    assert x == h + [x[i]] + t;
  }

  /** The comprehension `[p.strip() for p in parts if p.strip()]` works part by part. */
  lemma {:induction false} StrippedNonEmptyConcat(xs: seq<string>, ys: seq<string>)
    ensures StrippedNonEmpty(xs + ys) == StrippedNonEmpty(xs) + StrippedNonEmpty(ys)
    decreases |xs|
  {
    if xs != [] {
      var p := Strip(xs[0]);
      var head := if p != [] then [p] else [];
      assert (xs + ys)[0] == xs[0];
      assert (xs + ys)[1..] == xs[1..] + ys;
      StrippedNonEmptyConcat(xs[1..], ys);
      assert StrippedNonEmpty(xs + ys) == head + (StrippedNonEmpty(xs[1..]) + StrippedNonEmpty(ys));
      assert StrippedNonEmpty(xs) == head + StrippedNonEmpty(xs[1..]);
    } else {
      assert xs + ys == ys;
    }
  }

  /** `replace` leaves a string without occurrences of the pattern alone. */
  lemma {:induction false} RemoveAllAbsent(s: string, pat: string)
    requires !Contains(s, pat)
    ensures RemoveAll(s, pat) == s
    decreases |s|
  {
    assert !OccursAt(s, pat, 0);
    if pat != [] && |s| >= |pat| {
      forall i | 0 <= i <= |s[1..]|
        ensures !OccursAt(s[1..], pat, i)
      {
        assert !OccursAt(s, pat, i + 1);
        if i + |pat| <= |s[1..]| {
          assert s[1..][i..i + |pat|] == s[i + 1..i + 1 + |pat|];
        }
      }
      RemoveAllAbsent(s[1..], pat);
      assert s == [s[0]] + s[1..];
    }
  }
}
