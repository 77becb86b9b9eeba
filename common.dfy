/**
 * The text helpers of the legal-consultation service: removing the model's
 * reasoning block from an answer, extracting the body of a generated summary,
 * and shortening a judgment to a length budget at paragraph boundaries.
 */
module Common {
  import opened Wrappers
  import opened Text

  const Open: string := "<think>"
  const Close: string := "</think>"

  /** Neither tag overlaps a later copy of itself: no character after the first is `<`. */
  lemma TagsUnbordered()
    ensures forall d :: 1 <= d < |Open| ==> Open[d] != Open[0]
    ensures forall d :: 1 <= d < |Close| ==> Close[d] != Close[0]
  {
    assert Open == ['<', 't', 'h', 'i', 'n', 'k', '>'];
    assert Close == ['<', '/', 't', 'h', 'i', 'n', 'k', '>'];
  }

  /**
   * The first tag found from `start` is the one at `k` when no whole copy of
   * the tag lies between `start` and `k`: a copy that straddles `k` would need
   * a second `<` inside the tag.
   */
  lemma FirstTagFrom(s: string, tag: string, start: nat, k: nat)
    requires tag == Open || tag == Close
    requires start <= k && OccursAt(s, tag, k)
    requires forall i :: start <= i && i + |tag| <= k ==> !OccursAt(s, tag, i)
    ensures FindFrom(s, tag, start) == k
  {
    TagsUnbordered();
    forall i | start <= i < k
      ensures !OccursAt(s, tag, i)
    {
      if k < i + |tag| <= |s| {
        assert s[i..i + |tag|][k - i] == s[k] == s[k..k + |tag|][0] == tag[0];
        assert tag[k - i] != tag[0];
      }
    }
  }

  // ---------------------------------------------------------------- clean_response

  /** The answer with everything from the first `<think>` to the end of the first `</think>` cut out. */
  function ThinkExcised(response: string): string
    requires Contains(response, Open) && Contains(response, Close)
  {
    var i := Find(response, Open);
    var j := Find(response, Close);
    response[..i] + response[j + |Close|..]
  }

  /** The non-blank lines of a text have no line break inside and are not blank. */
  lemma NonBlankAreContent(ls: seq<string>)
    requires forall l :: l in ls ==> '\n' !in l
    ensures forall p :: p in NonBlank(ls) ==> ContentLine(p)
  {
    forall p | p in NonBlank(ls)
      ensures ContentLine(p)
    {
      StripEmptyIffBlank(p);
    }
  }

  /**
   * `clean_response`: an answer holding both tags loses its reasoning block
   * and its blank lines; the lines that remain are the non-blank lines of the
   * rest, in order.  Any other answer is returned as it is.
   */
  function CleanResponse(response: string): (r: string)
    ensures !(Contains(response, Open) && Contains(response, Close)) ==> r == response
    ensures Contains(response, Open) && Contains(response, Close) ==>
      var kept := NonBlank(Lines(ThinkExcised(response)));
      (r == [] <==> kept == []) &&
      (r != [] ==> Lines(r) == kept && NoBlankLine(r))
  {
    if Contains(response, Open) && Contains(response, Close) then
      var kept := NonBlank(Lines(ThinkExcised(response)));
      NonBlankAreContent(Lines(ThinkExcised(response)));
      if kept == [] then ""
      else
        JoinedLines(kept);
        assert kept[0] != [] by { assert ContentLine(kept[0]); }
        Join(kept, '\n')
    else response
  }

  /** An answer that opens with its reasoning block comes back as the non-blank lines of what follows it. */
  lemma CleanResponseDropsLeadingThink(m: string, b: string)
    requires !Contains(m, Close)
    ensures CleanResponse(Open + m + Close + b) == Join(NonBlank(Lines(b)), '\n')
  {
    var s := Open + m + Close + b;
    var k := |Open| + |m|;
    assert s[..|Open|] == Open;
    assert OccursAt(s, Open, 0);
    FirstTagFrom(s, Open, 0, 0);
    assert s[k..k + |Close|] == Close;
    forall i | 0 <= i && i + |Close| <= k
      ensures !OccursAt(s, Close, i)
    {
      if i == 0 {
        assert s[0..|Close|][1] == 't' != Close[1];
      } else if i < |Open| {
        assert s[i..i + |Close|][0] == Open[i] != Close[0];
      } else {
        assert s[i..i + |Close|] == m[i - |Open|..i - |Open| + |Close|];
        assert !OccursAt(m, Close, i - |Open|);
      }
    }
    FirstTagFrom(s, Close, 0, k);
    assert ThinkExcised(s) == b by {
      assert s[k + |Close|..] == b;
    }
  }

  /**
   * When the first `</think>` comes before the first `<think>`, the cut keeps
   * both tags and writes the text between them twice, so the answer grows.
   */
  lemma ThinkExcisedOutOfOrder(a: string, m: string, b: string)
    requires !Contains(a, Close) && !Contains(a + Close + m, Open)
    ensures Contains(a + Close + m + Open + b, Open) && Contains(a + Close + m + Open + b, Close)
    ensures ThinkExcised(a + Close + m + Open + b) == a + Close + m + m + Open + b
  {
    OutOfOrderFound(a, m, b);
    ExcisedAt(a + Close + m + Open + b, |a| + |Close| + |m|, |a|);
    FiveParts(a, Close, m, Open, b);
  }

  /** `ThinkExcised` in terms of where the two searches land. */
  lemma ExcisedAt(s: string, i: nat, j: nat)
    requires Find(s, Open) == i && Find(s, Close) == j
    ensures Contains(s, Open) && Contains(s, Close)
    ensures j + |Close| <= |s| && ThinkExcised(s) == s[..i] + s[j + |Close|..]
  {
  }

  /** Where the two searches of `clean_response` land on an out-of-order answer. */
  lemma OutOfOrderFound(a: string, m: string, b: string)
    requires !Contains(a, Close) && !Contains(a + Close + m, Open)
    ensures Find(a + Close + m + Open + b, Open) == |a| + |Close| + |m|
    ensures Find(a + Close + m + Open + b, Close) == |a|
  {
    OpenFoundAfter(a + Close + m, b);
    Regroup(a, Close, m, Open, b);
    CloseFoundFirst(a, m + Open + b);
  }

  lemma Regroup<T>(a: seq<T>, x: seq<T>, m: seq<T>, y: seq<T>, b: seq<T>)
    ensures a + x + m + y + b == a + x + (m + y + b)
  {
  }

  /** In `a + </think> + t`, with no `</think>` in `a`, the first `</think>` is at `|a|`. */
  lemma CloseFoundFirst(a: string, t: string)
    requires !Contains(a, Close)
    ensures Find(a + Close + t, Close) == |a|
  {
    CloseFoundAfter([], a, t);
    assert [] + a + Close + t == a + Close + t;
  }

  lemma FiveParts<T>(a: seq<T>, x: seq<T>, m: seq<T>, y: seq<T>, b: seq<T>)
    ensures var s := a + x + m + y + b;
            s[..|a| + |x| + |m|] + s[|a| + |x|..] == a + x + m + m + y + b
  {
    var s := a + x + m + y + b;
    assert s[..|a| + |x| + |m|] == a + x + m;
    assert s[|a| + |x|..] == m + y + b;
  }

  /**
   * The cut `clean_response` evidently intends: from the first `<think>` to
   * the end of the first `</think>` after it, as the substitution in `clean`
   * does, and nothing when there is no such pair.  It only ever removes one
   * span that opens with `<think>` and closes with `</think>`.
   */
  function ThinkExcisedInOrder(response: string): (r: string)
    ensures |r| <= |response|
    ensures r == response || exists i, k :: CutsSection(response, r, i, k)
    ensures Contains(response, Open) && Contains(response, Close) &&
            Find(response, Close) >= Find(response, Open) + |Open|
            ==> r == ThinkExcised(response)
  {
    var i := Find(response, Open);
    if i < 0 then response
    else
      CloseFromStart(response, i + |Open|);
      var j := FindFrom(response, Close, i + |Open|);
      if j < 0 then response
      else
        var r := Cut(response, i, j + |Close|);
        assert CutsSection(response, r, i, j + |Close|);
        r
  }

  /** `r` is `response` without the span `response[i..k]`, which opens with `<think>` and closes with `</think>`. */
  predicate CutsSection(response: string, r: string, i: nat, k: nat) {
    i + |Open| + |Close| <= k <= |response| &&
    OccursAt(response, Open, i) && OccursAt(response, Close, k - |Close|) &&
    r == Cut(response, i, k)
  }

  /** `s` without the span `s[i..k]`. */
  function Cut(s: string, i: nat, k: nat): (r: string)
    requires i <= k <= |s|
    ensures |r| == |s| - (k - i)
  {
    s[..i] + s[k..]
  }

  /** Searching for `</think>` from `start` finds the first one when it lies at or after `start`. */
  lemma CloseFromStart(response: string, start: nat)
    ensures Contains(response, Close) && Find(response, Close) >= start ==>
            FindFrom(response, Close, start) == Find(response, Close)
  {
    if Contains(response, Close) && Find(response, Close) >= start {
      FirstTagFrom(response, Close, start, Find(response, Close));
    }
  }

  /** The intended cut removes the first reasoning section, both tags included, and nothing else. */
  lemma ThinkExcisedInOrderCuts(a: string, m: string, b: string)
    requires !Contains(a, Open) && !Contains(m, Close)
    ensures ThinkExcisedInOrder(a + Open + m + Close + b) == a + b
  {
    var s := a + Open + m + Close + b;
    var k := |a| + |Open| + |m|;
    OpenFoundAfter(a, m + Close + b);
    assert s == a + Open + (m + Close + b);
    CloseFoundAfter(a + Open, m, b);
    assert s[..|a|] == a;
    assert s[k + |Close|..] == b;
  }

  /** On the out-of-order answer with no later `</think>`, the intended cut changes nothing. */
  lemma ThinkExcisedInOrderOutOfOrder(a: string, m: string, b: string)
    requires !Contains(a + Close + m, Open) && !Contains(b, Close)
    ensures ThinkExcisedInOrder(a + Close + m + Open + b) == a + Close + m + Open + b
  {
    var s := a + Close + m + Open + b;
    OpenFoundAfter(a + Close + m, b);
    var j := FindFrom(s, Close, |a + Close + m + Open|);
    if j >= 0 {
      OccursInSuffix(a + Close + m + Open, b, Close, j);
    }
  }

  /** A copy that starts in the second part of `p + b` is a copy in `b`. */
  lemma OccursInSuffix(p: string, b: string, pat: string, j: nat)
    requires OccursAt(p + b, pat, j) && j >= |p|
    ensures OccursAt(b, pat, j - |p|)
  {
    assert (p + b)[j..j + |pat|] == b[j - |p|..j - |p| + |pat|];
  }

  // ---------------------------------------------------------------- remove_last_parentheses_part

  /** Whether `s` ends with a full-width closing bracket and holds a full-width opening one. */
  predicate EndsWithBracketGroup(s: string) {
    |s| > 0 && s[|s| - 1] == '）' && LastIndexOf(s, '（') >= 0
  }

  /**
   * `remove_last_parentheses_part`: when `s` ends with `）` and holds `（`,
   * the bracket group that closes the string is cut off, starting at the last
   * `（`; otherwise `s` is unchanged.
   */
  function RemoveLastParenthesesPart(s: string): (r: string)
    ensures |r| <= |s| && r == s[..|r|]
    ensures r == s <==> !EndsWithBracketGroup(s)
    ensures EndsWithBracketGroup(s) ==>
      s[|r|] == '（' && forall i :: |r| < i < |s| ==> s[i] != '（'
  {
    if EndsWithBracketGroup(s) then s[..LastIndexOf(s, '（')] else s
  }

  /** Cutting a bracket group off keeps the line free of line breaks. */
  lemma RemoveLastParenthesesPartKeepsOut(s: string, c: char)
    requires c !in s
    ensures c !in RemoveLastParenthesesPart(s)
  {
    var r := RemoveLastParenthesesPart(s);
    assert forall i :: 0 <= i < |r| ==> r[i] == s[i];
  }

  // ---------------------------------------------------------------- clean

  /**
   * `re.sub(r'<think>.*?</think>', '', s, flags=re.DOTALL)`: every reasoning
   * block, from a `<think>` to the first `</think>` after it, is removed.  A
   * `<think>` with no `</think>` after it ends the scan.
   */
  function RemoveThinkBlocks(s: string): (r: string)
    ensures !Contains(s, Open) ==> r == s
    ensures !Contains(s, Close) ==> r == s
    ensures |r| <= |s|
    decreases |s|
  {
    var i := Find(s, Open);
    if i < 0 then s
    else
      var j := FindFrom(s, Close, i + |Open|);
      if j < 0 then s
      else
        assert OccursAt(s, Close, j);
        s[..i] + RemoveThinkBlocks(s[j + |Close|..])
  }

  /**
   * A `<think>` with no `</think>` after it ends the scan: the text is left as
   * it is, even when a stray `</think>` comes before the tag.
   */
  lemma RemoveThinkBlocksUnclosed(a: string, m: string)
    requires !Contains(a, Open) && !Contains(m, Close)
    ensures RemoveThinkBlocks(a + Open + m) == a + Open + m
  {
    var s := a + Open + m;
    OpenFoundAfter(a, m);
    var j := FindFrom(s, Close, |a + Open|);
    if j >= 0 {
      OccursInSuffix(a + Open, m, Close, j);
    }
  }

  /** A reasoning block after text without `<think>` is removed and the scan goes on after it. */
  lemma RemoveThinkBlocksStep(a: string, m: string, b: string)
    requires !Contains(a, Open) && !Contains(m, Close)
    ensures RemoveThinkBlocks(a + Open + m + Close + b) == a + RemoveThinkBlocks(b)
  {
    var s := a + Open + m + Close + b;
    var k := |a| + |Open| + |m|;
    OpenFoundAfter(a, m + Close + b);
    assert s == a + Open + (m + Close + b);
    CloseFoundAfter(a + Open, m, b);
    assert s[..|a|] == a;
    assert s[k + |Close|..] == b;
  }

  /** In `a + <think> + t`, with no `<think>` in `a`, the first `<think>` is at `|a|`. */
  lemma OpenFoundAfter(a: string, t: string)
    requires !Contains(a, Open)
    ensures Find(a + Open + t, Open) == |a|
  {
    var s := a + Open + t;
    var i := |a|;
    assert s[i..i + |Open|] == Open;
    forall x | 0 <= x && x + |Open| <= i
      ensures !OccursAt(s, Open, x)
    {
      assert s[x..x + |Open|] == a[x..x + |Open|];
      assert !OccursAt(a, Open, x);
    }
    FirstTagFrom(s, Open, 0, i);
  }

  /** In `p + m + </think> + b`, with no `</think>` in `m`, the first `</think>` from `|p|` is right after `m`. */
  lemma CloseFoundAfter(p: string, m: string, b: string)
    requires !Contains(m, Close)
    ensures FindFrom(p + m + Close + b, Close, |p|) == |p| + |m|
  {
    var s := p + m + Close + b;
    var k := |p| + |m|;
    assert s[k..k + |Close|] == Close;
    forall x | |p| <= x && x + |Close| <= k
      ensures !OccursAt(s, Close, x)
    {
      assert s[x..x + |Close|] == m[x - |p|..x - |p| + |Close|];
      assert !OccursAt(m, Close, x - |p|);
    }
    FirstTagFrom(s, Close, |p|, k);
  }

  const Summary: string := "摘要："

  /**
   * `re.match(r'^（.*）$', t)`: `t` opens with `（` and closes with `）`,
   * optionally followed by one line break, with no line break in between.
   */
  predicate MatchesBracketedNote(t: string) {
    var e := if |t| > 0 && t[|t| - 1] == '\n' then |t| - 1 else |t|;
    e >= 2 && t[0] == '（' && t[e - 1] == '）' && forall i :: 1 <= i < e - 1 ==> t[i] != '\n'
  }

  /** The first paragraph, stripped, mentions the summary heading. */
  predicate OpensWithHeading(ps: seq<string>) {
    |ps| > 0 && Contains(Strip(ps[0]), Summary)
  }

  /** The last paragraph, stripped, is a bracketed note. */
  predicate ClosesWithNote(ps: seq<string>) {
    |ps| > 0 && MatchesBracketedNote(Strip(ps[|ps| - 1]))
  }

  /** Step 2 of `clean`: a first paragraph mentioning the summary heading is dropped. */
  function AfterSummary(ps: seq<string>): seq<string> {
    if OpensWithHeading(ps) then ps[1..] else ps
  }

  /** Step 3 of `clean`: a last paragraph that is a bracketed note is dropped. */
  function WithoutNote(ps: seq<string>): seq<string> {
    if ClosesWithNote(ps) then ps[..|ps| - 1] else ps
  }

  /** Step 4 of `clean`: the trailing bracket group of every paragraph is cut off. */
  function WithoutBracketGroups(ps: seq<string>): seq<string> {
    seq(|ps|, i requires 0 <= i < |ps| => RemoveLastParenthesesPart(ps[i]))
  }

  /** Steps 2 and 3 only drop paragraphs. */
  lemma EndsDroppedOnly(lines: seq<string>)
    ensures forall p :: p in WithoutNote(AfterSummary(lines)) ==> p in lines
  {
    var a := AfterSummary(lines);
    assert forall p :: p in a ==> p in lines;
    assert forall p :: p in WithoutNote(a) ==> p in a;
  }

  /** Steps 2 to 5 of `clean`, on the lines of the stripped text. */
  function KeptParagraphs(lines: seq<string>): (ps: seq<string>)
    requires forall l :: l in lines ==> '\n' !in l
    ensures forall p :: p in ps ==> ContentLine(p)
  {
    var ps2 := WithoutNote(AfterSummary(lines));
    var ps3 := WithoutBracketGroups(ps2);
    EndsDroppedOnly(lines);
    forall i | 0 <= i < |ps3|
      ensures '\n' !in ps3[i]
    {
      assert ps2[i] in lines;
      RemoveLastParenthesesPartKeepsOut(ps2[i], '\n');
    }
    NonBlankAreContent(ps3);
    NonBlank(ps3)
  }

  /** The paragraphs `clean` keeps, before the final join and strip. */
  function CleanedParagraphs(text: string): (ps: seq<string>)
    ensures forall p :: p in ps ==> ContentLine(p)
  {
    KeptParagraphs(Lines(Strip(RemoveThinkBlocks(text))))
  }

  /**
   * `clean`: the extracted body is stripped, holds no blank line, and is
   * empty exactly when no paragraph survives; its lines are the surviving
   * paragraphs, the first without leading and the last without trailing
   * whitespace.
   */
  function Clean(text: string): (r: string)
    ensures r == [] || (!IsSpace(r[0]) && !IsSpace(r[|r| - 1]))
    ensures r == [] <==> CleanedParagraphs(text) == []
    ensures r != [] ==> NoBlankLine(r) && Lines(r) == StrippedEnds(CleanedParagraphs(text))
  {
    StripJoined(CleanedParagraphs(text))
  }

  /**
   * A heading line that mentions `摘要：` in front of a body is dropped: the
   * text gives the same body as the body alone, when the body's first line
   * does not mention it too.
   */
  lemma CleanDropsSummaryHeading(h: string, b: string)
    requires '\n' !in h && Strip(h) == h && Contains(h, Summary)
    requires b != [] && Strip(b) == b && !OpensWithHeading(Lines(b))
    requires !Contains(h + "\n" + b, Open)
    ensures Clean(h + "\n" + b) == Clean(b)
  {
    NonEmptyWhenContains(h, Summary);
    HeadingPrepared(h, b);
    CleanOfLines(h + "\n" + b, [h] + Lines(b));
    CleanOfLines(b, Lines(b));
    KeptAfterHeading(h, Lines(b));
  }

  lemma NonEmptyWhenContains(s: string, pat: string)
    requires Contains(s, pat) && pat != []
    ensures s != []
  {
  }

  /** Neither text holds a reasoning block or outer whitespace, and the heading is a line of its own. */
  lemma HeadingPrepared(h: string, b: string)
    requires '\n' !in h && h != [] && Strip(h) == h
    requires b != [] && Strip(b) == b
    requires !Contains(h + "\n" + b, Open)
    ensures Lines(Strip(RemoveThinkBlocks(h + "\n" + b))) == [h] + Lines(b)
    ensures Lines(Strip(RemoveThinkBlocks(b))) == Lines(b)
  {
    var s := h + "\n" + b;
    if Contains(b, Open) {
      ContainsWithin(h + "\n", b, Open);
    }
    assert s[0] == h[0] && s[|s| - 1] == b[|b| - 1];
    StripFixed(s);
    LinesCons(h, b);
  }

  lemma KeptAfterHeading(h: string, ls: seq<string>)
    requires '\n' !in h && Contains(Strip(h), Summary)
    requires forall l :: l in ls ==> '\n' !in l
    requires |ls| > 0 && !OpensWithHeading(ls)
    ensures KeptParagraphs([h] + ls) == KeptParagraphs(ls)
  {
    assert ([h] + ls)[0] == h && ([h] + ls)[1..] == ls;
    assert AfterSummary([h] + ls) == ls == AfterSummary(ls);
  }

  /**
   * A closing line that is a bracketed note is dropped: the text gives the
   * same body as the text before it, when that text does not itself end with
   * a note.
   */
  lemma CleanDropsClosingNote(b: string, n: string)
    requires b != [] && Strip(b) == b
    requires '\n' !in n && MatchesBracketedNote(Strip(n))
    requires !ClosesWithNote(Lines(b))
    requires !Contains(b + "\n" + n, Open)
    ensures Clean(b + "\n" + n) == Clean(b)
  {
    NotePrepared(b, n);
    CleanOfLines(b + "\n" + n, Lines(b) + [TrimRight(n)]);
    CleanOfLines(b, Lines(b));
    KeptBeforeNote(Lines(b), TrimRight(n));
  }

  /** `clean` on a text is determined by the lines of the text once blocks and outer whitespace are gone. */
  lemma CleanOfLines(text: string, ls: seq<string>)
    requires Lines(Strip(RemoveThinkBlocks(text))) == ls
    ensures forall l :: l in ls ==> '\n' !in l
    ensures Clean(text) == StripJoined(KeptParagraphs(ls))
  {
  }

  /** The final line keeps its leading whitespace and loses its trailing whitespace to the outer `strip`. */
  lemma NotePrepared(b: string, n: string)
    requires b != [] && Strip(b) == b
    requires '\n' !in n && MatchesBracketedNote(Strip(n))
    requires !Contains(b + "\n" + n, Open)
    ensures Lines(Strip(RemoveThinkBlocks(b + "\n" + n))) == Lines(b) + [TrimRight(n)]
    ensures Lines(Strip(RemoveThinkBlocks(b))) == Lines(b)
    ensures '\n' !in TrimRight(n) && MatchesBracketedNote(Strip(TrimRight(n)))
  {
    var s := b + "\n" + n;
    assert s == b + ("\n" + n);
    if Contains(b, Open) {
      ContainsWithin("\n" + n, b, Open);
    }
    StripEmptyIffBlank(n);
    StripBeforeLine(b, n);
    TrimsKeepOut(n, '\n');
    LinesSnoc(b, TrimRight(n));
    StripTrimRight(n);
  }

  /** A stripped text followed by a line that is not blank: `strip` only trims the line's end. */
  lemma StripBeforeLine(b: string, n: string)
    requires b != [] && Strip(b) == b && !IsBlank(n)
    ensures Strip(b + "\n" + n) == b + "\n" + TrimRight(n)
  {
    var s := b + "\n" + n;
    assert !IsSpace(s[0]) by {
      assert s[0] == b[0] == Strip(b)[0];
    }
    assert TrimLeft(s) == s;
    TrimRightConcat(b + "\n", n);
  }

  lemma KeptBeforeNote(ls: seq<string>, n: string)
    requires |ls| > 0 && (forall l :: l in ls ==> '\n' !in l) && '\n' !in n
    requires MatchesBracketedNote(Strip(n))
    requires !ClosesWithNote(ls)
    ensures KeptParagraphs(ls + [n]) == KeptParagraphs(ls)
  {
    var xs := ls + [n];
    assert xs[0] == ls[0];
    if OpensWithHeading(ls) {
      assert AfterSummary(xs) == ls[1..] + [n];
      NoteDropped(ls[1..], n);
      assert AfterSummary(ls) == ls[1..];
      if |ls| > 1 {
        assert ls[1..][|ls| - 2] == ls[|ls| - 1];
      }
    } else {
      assert AfterSummary(xs) == xs;
      NoteDropped(ls, n);
    }
  }

  lemma NoteDropped(ps: seq<string>, n: string)
    requires MatchesBracketedNote(Strip(n))
    ensures WithoutNote(ps + [n]) == ps
  {
    assert (ps + [n])[|ps|] == n;
    assert (ps + [n])[..|ps|] == ps;
  }

  /**
   * On a one-line text with no heading and no note, the closing bracket
   * group is cut off and what is left is stripped.
   */
  lemma CleanCutsBracketGroup(p: string)
    requires '\n' !in p && Strip(p) == p
    requires !Contains(p, Open) && !Contains(p, Summary) && !MatchesBracketedNote(p)
    ensures Clean(p) == Strip(RemoveLastParenthesesPart(p))
  {
    LinesOne(p);
    var r := RemoveLastParenthesesPart(p);
    assert WithoutBracketGroups([p]) == [r];
    assert KeptParagraphs([p]) == NonBlank([r]);
    if Strip(r) == [] {
      assert NonBlank([r]) == [];
    } else {
      assert NonBlank([r]) == [r];
    }
  }

  // ---------------------------------------------------------------- truncate_text_by_paragraphs

  /** The default budget of `truncate_text_by_paragraphs`. */
  const DefaultMaxLen: int := 15000

  /** A paragraph that opens the court's findings or reasoning. */
  predicate HasTrigger(p: string) {
    Contains(p, "本院认为") || Contains(p, "本院查明")
  }

  /** The stripped, non-empty paragraphs of `text`. */
  function Paragraphs(text: string): seq<string> {
    StrippedNonEmpty(Lines(text))
  }

  /** Index of the first paragraph with a trigger phrase, or `|ps|` when there is none. */
  function TriggerIndex(ps: seq<string>): (t: nat)
    ensures t <= |ps|
    ensures t < |ps| ==> HasTrigger(ps[t])
    ensures forall i :: 0 <= i < t ==> !HasTrigger(ps[i])
  {
    if ps == [] then 0
    else if HasTrigger(ps[0]) then 0
    else 1 + TriggerIndex(ps[1..])
  }

  /**
   * How many paragraphs the greedy selection takes: each paragraph is charged
   * its length plus one for a line break, and selection stops at the first
   * paragraph that would exceed the budget.
   */
  function FittingPrefix(ps: seq<string>, budget: int): (k: nat)
    ensures k <= |ps|
    ensures k == 0 || Cost(ps[..k]) <= budget
    ensures k < |ps| ==> Cost(ps[..k + 1]) > budget
  {
    if ps == [] || |ps[0]| + 1 > budget then
      assert ps != [] ==> Cost(ps[..1]) == Cost(ps[..0]) + |ps[0]| + 1;
      0
    else
      var k := 1 + FittingPrefix(ps[1..], budget - |ps[0]| - 1);
      CostFront(ps[..k]);
      assert ps[..k][1..] == ps[1..][..k - 1];
      assert k < |ps| ==> Cost(ps[..k + 1]) > budget by {
        if k < |ps| {
          CostFront(ps[..k + 1]);
          assert ps[..k + 1][1..] == ps[1..][..k];
        }
      }
      k
  }

  /** The greedy count is the largest prefix that fits, so it is determined by the budget alone. */
  lemma FittingPrefixIsLongest(ps: seq<string>, budget: int, k: nat)
    requires k <= |ps| && 0 < k && Cost(ps[..k]) <= budget
    ensures k <= FittingPrefix(ps, budget)
  {
    var f := FittingPrefix(ps, budget);
    if f < k {
      CostMonotone(ps, f + 1, k);
    }
  }

  /** The text after the trigger search: the paragraphs before the first trigger, joined, or the text itself. */
  function BeforeTrigger(text: string): string {
    var ps := Paragraphs(text);
    var t := TriggerIndex(ps);
    if t < |ps| then Join(ps[..t], '\n') else text
  }

  /** What `truncate_text_by_paragraphs` returns. */
  function Truncated(text: string, maxLen: int): string {
    var text1 := BeforeTrigger(text);
    if |text1| > maxLen then Join(Paragraphs(text)[..FittingPrefix(Paragraphs(text), maxLen)], '\n') else text1
  }

  /** The result fits the budget; a negative budget leaves nothing. */
  lemma TruncatedFits(text: string, maxLen: int)
    ensures maxLen >= 0 ==> |Truncated(text, maxLen)| <= maxLen
    ensures maxLen < 0 ==> Truncated(text, maxLen) == []
  {
    var ps := Paragraphs(text);
    var k := FittingPrefix(ps, maxLen);
    if k > 0 {
      JoinLength(ps[..k], '\n');
    }
  }

  /** A text without trigger phrase that already fits is returned unchanged. */
  lemma TruncatedKeepsShortText(text: string, maxLen: int)
    requires TriggerIndex(Paragraphs(text)) == |Paragraphs(text)|
    requires |text| <= maxLen
    ensures Truncated(text, maxLen) == text
  {
  }

  /**
   * Once a paragraph has a trigger phrase, the result is the join of the
   * paragraphs before the first such one, or of a shorter prefix when that
   * join is over budget: nothing from the trigger paragraph on is kept.
   */
  lemma TruncatedStopsBeforeTrigger(text: string, maxLen: int)
    requires TriggerIndex(Paragraphs(text)) < |Paragraphs(text)|
    ensures exists k :: (0 <= k <= TriggerIndex(Paragraphs(text)) &&
                         Truncated(text, maxLen) == Join(Paragraphs(text)[..k], '\n'))
  {
    var ps := Paragraphs(text);
    var t := TriggerIndex(ps);
    var j := Join(ps[..t], '\n');
    if |j| > maxLen {
      var k := FittingPrefix(ps, maxLen);
      if k > t {
        CostMonotone(ps, t, k);
        if t > 0 {
          JoinLength(ps[..t], '\n');
        }
      }
      assert k <= t;
      assert Truncated(text, maxLen) == Join(ps[..k], '\n');
    } else {
      assert Truncated(text, maxLen) == Join(ps[..t], '\n');
    }
  }

  /**
   * Whenever the greedy selection runs, with or without a trigger phrase, it
   * keeps the greedy prefix of the paragraphs before the first trigger
   * paragraph: the paragraphs from the trigger on play no part, and the next
   * paragraph would not have fitted.
   */
  lemma TruncatedIsGreedy(text: string, maxLen: int)
    requires |BeforeTrigger(text)| > maxLen
    ensures var ps := Paragraphs(text);
            var k := FittingPrefix(ps[..TriggerIndex(ps)], maxLen);
            Truncated(text, maxLen) == Join(ps[..k], '\n') &&
            (k < |ps| ==> Cost(ps[..k + 1]) > maxLen)
  {
    var ps := Paragraphs(text);
    var t := TriggerIndex(ps);
    GreedyBranch(text, maxLen);
    FittingPrefixOfPrefix(ps, t, maxLen);
  }

  /** The greedy branch of `Truncated`, and the greedy count it takes stays before the trigger. */
  lemma GreedyBranch(text: string, maxLen: int)
    requires |BeforeTrigger(text)| > maxLen
    ensures Truncated(text, maxLen) == Join(Paragraphs(text)[..FittingPrefix(Paragraphs(text), maxLen)], '\n')
    ensures FittingPrefix(Paragraphs(text), maxLen) <= TriggerIndex(Paragraphs(text))
  {
    var ps := Paragraphs(text);
    var t := TriggerIndex(ps);
    if t < |ps| {
      GreedyStopsBeforeTrigger(ps, t, maxLen);
    }
  }

  /** An over-budget join of the first `t` paragraphs leaves the greedy count at most `t`. */
  lemma GreedyStopsBeforeTrigger(ps: seq<string>, t: nat, maxLen: int)
    requires t <= |ps| && |Join(ps[..t], '\n')| > maxLen
    ensures FittingPrefix(ps, maxLen) <= t
  {
    var f := FittingPrefix(ps, maxLen);
    if f > t {
      CostMonotone(ps, t, f);
      if t > 0 {
        JoinLength(ps[..t], '\n');
      }
    }
  }

  /** The greedy count does not look past itself: on a prefix at least that long it is the same. */
  lemma FittingPrefixOfPrefix(ps: seq<string>, t: nat, budget: int)
    requires FittingPrefix(ps, budget) <= t <= |ps|
    ensures FittingPrefix(ps[..t], budget) == FittingPrefix(ps, budget)
  {
    var f := FittingPrefix(ps, budget);
    var g := FittingPrefix(ps[..t], budget);
    if g > 0 {
      assert ps[..t][..g] == ps[..g];
      FittingPrefixIsLongest(ps, budget, g);
    }
    if f > 0 {
      assert ps[..t][..f] == ps[..f];
      FittingPrefixIsLongest(ps[..t], budget, f);
    }
  }

  /**
   * When the greedy selection runs on a positive budget, the line break it
   * charges the last kept paragraph is never written: the result is shorter
   * than `max_len`.
   */
  lemma TruncatedGreedyShort(text: string, maxLen: int)
    requires |BeforeTrigger(text)| > maxLen && maxLen >= 1
    ensures |Truncated(text, maxLen)| <= maxLen - 1
  {
    var ps := Paragraphs(text);
    var k := FittingPrefix(ps, maxLen);
    if k > 0 {
      JoinLength(ps[..k], '\n');
    }
  }

  /**
   * The selection loop of `truncate_text_by_paragraphs`: paragraphs are taken
   * in order while the running length, one line break per paragraph included,
   * stays within `maxLen`.
   */
  method SelectParagraphs(paragraphs: seq<string>, maxLen: int) returns (selected: seq<string>)
    ensures selected == paragraphs[..FittingPrefix(paragraphs, maxLen)]
  {
    var currentLen := 0;
    selected := [];
    var k := 0;
    while k < |paragraphs|
      invariant k <= FittingPrefix(paragraphs, maxLen)
      invariant selected == paragraphs[..k]
      invariant currentLen == Cost(selected)
    {
      var paragraph := paragraphs[k];
      CostAppend(selected, paragraph);
      assert selected + [paragraph] == paragraphs[..k + 1];
      if currentLen + |paragraph| + 1 <= maxLen {
        FittingPrefixIsLongest(paragraphs, maxLen, k + 1);
        selected := selected + [paragraph];
        currentLen := currentLen + |paragraph| + 1;
        k := k + 1;
      } else {
        // A longer greedy count would make the first k + 1 paragraphs fit.
        var f := FittingPrefix(paragraphs, maxLen);
        if f > k {
          CostMonotone(paragraphs, k + 1, f);
        }
        break;
      }
    }
  }

  /** `truncate_text_by_paragraphs`: the search for a trigger phrase, then the greedy selection. */
  method TruncateTextByParagraphs(text: string, maxLen: int := DefaultMaxLen) returns (r: string)
    ensures r == Truncated(text, maxLen)
  {
    var paragraphs := Paragraphs(text);
    var triggerIndex: Option<nat> := None;
    var i := 0;
    while i < |paragraphs|
      invariant i <= |paragraphs|
      invariant forall j :: 0 <= j < i ==> !HasTrigger(paragraphs[j])
    {
      if HasTrigger(paragraphs[i]) {
        triggerIndex := Some(i);
        break;
      }
      i := i + 1;
    }
    assert triggerIndex.Some? ==> triggerIndex.value == TriggerIndex(paragraphs);
    assert triggerIndex.None? ==> TriggerIndex(paragraphs) == |paragraphs|;

    r := text;
    if triggerIndex.Some? {
      r := Join(paragraphs[..triggerIndex.value], '\n');
    }

    if |r| > maxLen {
      var selected := SelectParagraphs(paragraphs, maxLen);
      r := Join(selected, '\n');
    }
  }
}
