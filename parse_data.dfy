/**
 * The statute splitter: each line of a statute is normalised by `clean`, and
 * `parse_content` cuts the text into articles, one per `第…条` header, each
 * holding its number and the lines of its body, and reports the length of
 * the longest article.
 */
module ParseData {
  import opened Wrappers
  import opened Text

  // ---------------------------------------------------------------- clean

  /** `re.sub(r"\s+", "", s)`: every whitespace character is dropped. */
  function RemoveSpaces(s: string): (r: string)
    ensures forall i :: 0 <= i < |r| ==> !IsSpace(r[i])
    ensures r == [] <==> IsBlank(s)
    ensures |s| == 1 ==> (r == [] <==> IsSpace(s[0])) && (r != [] ==> r == s)
  {
    if s == [] then []
    else (if IsSpace(s[0]) then [] else [s[0]]) + RemoveSpaces(s[1..])
  }

  /** Whitespace removal works piece by piece, so every other character is kept, in order. */
  lemma {:induction false} RemoveSpacesConcat(a: string, b: string)
    ensures RemoveSpaces(a + b) == RemoveSpaces(a) + RemoveSpaces(b)
    decreases |a|
  {
    if a != [] {
      TailOfConcat(a, b);
      RemoveSpacesConcat(a[1..], b);
      var h := if IsSpace(a[0]) then [] else [a[0]];
      AppendAssoc(h, RemoveSpaces(a[1..]), RemoveSpaces(b));
    } else {
      assert a + b == b;
    }
  }

  /** `s.replace(c, "")` for one character `c`. */
  function RemoveChar(s: string, c: char): (r: string)
    ensures forall i :: 0 <= i < |r| ==> r[i] != c
    ensures c !in s ==> r == s
    ensures |s| == 1 ==> (r == [] <==> s[0] == c) && (r != [] ==> r == s)
  {
    if s == [] then []
    else (if s[0] == c then [] else [s[0]]) + RemoveChar(s[1..], c)
  }

  /** Removing one character works piece by piece, so every other character is kept, in order. */
  lemma {:induction false} RemoveCharConcat(a: string, b: string, c: char)
    ensures RemoveChar(a + b, c) == RemoveChar(a, c) + RemoveChar(b, c)
    decreases |a|
  {
    if a != [] {
      TailOfConcat(a, b);
      RemoveCharConcat(a[1..], b, c);
      var h := if a[0] == c then [] else [a[0]];
      AppendAssoc(h, RemoveChar(a[1..], c), RemoveChar(b, c));
    } else {
      assert a + b == b;
    }
  }

  lemma TailOfConcat<T>(a: seq<T>, b: seq<T>)
    requires a != []
    ensures (a + b)[0] == a[0] && (a + b)[1..] == a[1..] + b
  {
  }

  lemma AppendAssoc<T>(x: seq<T>, y: seq<T>, z: seq<T>)
    ensures x + (y + z) == (x + y) + z
  {
  }

  /** `s.replace(a, b)` for single characters: a one-for-one substitution. */
  function ReplaceChar(s: string, a: char, b: char): string
  {
    seq(|s|, i requires 0 <= i < |s| => if s[i] == a then b else s[i])
  }

  /**
   * `clean`: no whitespace and no ASCII comma is left, and the result is empty
   * exactly when the input was whitespace only.
   */
  function Clean(src: string): (r: string)
    ensures forall i :: 0 <= i < |r| ==> !IsSpace(r[i]) && r[i] != ','
    ensures r == [] <==> IsBlank(src)
  {
    var s := RemoveSpaces(src);
    assert '\U{3000}' !in s by {
      assert IsSpace('\U{3000}');
    }
    ReplaceChar(RemoveChar(s, '\U{3000}'), ',', '，')
  }

  /** What `clean` does to one character: whitespace goes, a comma becomes a full-width comma. */
  function CleanChar(c: char): string {
    if IsSpace(c) then [] else if c == ',' then ['，'] else [c]
  }

  /** The character-by-character reading of `clean`. */
  function CleanCharwise(s: string): string {
    if s == [] then [] else CleanChar(s[0]) + CleanCharwise(s[1..])
  }

  /** `clean` works character by character: it agrees with `CleanCharwise` on every input. */
  lemma {:induction false} CleanIsCharwise(s: string)
    ensures Clean(s) == CleanCharwise(s)
    decreases |s|
  {
    CleanIsReplace(s);
    if s != [] {
      CleanIsCharwise(s[1..]);
      CleanIsReplace(s[1..]);
      var h := if IsSpace(s[0]) then [] else [s[0]];
      assert RemoveSpaces(s) == h + RemoveSpaces(s[1..]);
      ReplaceCharConcat(h, RemoveSpaces(s[1..]), ',', '，');
      assert ReplaceChar(h, ',', '，') == CleanChar(s[0]);
    }
  }

  /** Once whitespace is gone there is no U+3000 left, so `clean` is the comma substitution after `RemoveSpaces`. */
  lemma CleanIsReplace(s: string)
    ensures Clean(s) == ReplaceChar(RemoveSpaces(s), ',', '，')
  {
    assert IsSpace('\U{3000}');
    assert '\U{3000}' !in RemoveSpaces(s);
  }

  lemma ReplaceCharConcat(a: string, b: string, x: char, y: char)
    ensures ReplaceChar(a + b, x, y) == ReplaceChar(a, x, y) + ReplaceChar(b, x, y)
  {
  }

  /** `clean` distributes over concatenation. */
  lemma {:induction false} CleanConcat(a: string, b: string)
    ensures Clean(a + b) == Clean(a) + Clean(b)
    decreases |a|
  {
    CleanIsCharwise(a + b);
    CleanIsCharwise(a);
    CleanIsCharwise(b);
    CharwiseConcat(a, b);
  }

  lemma {:induction false} CharwiseConcat(a: string, b: string)
    ensures CleanCharwise(a + b) == CleanCharwise(a) + CleanCharwise(b)
    decreases |a|
  {
    if a != [] {
      assert (a + b)[0] == a[0];
      assert (a + b)[1..] == a[1..] + b;
      CharwiseConcat(a[1..], b);
      calc {
        CleanCharwise(a + b);
        CleanChar(a[0]) + CleanCharwise(a[1..] + b);
        CleanChar(a[0]) + (CleanCharwise(a[1..]) + CleanCharwise(b));
        (CleanChar(a[0]) + CleanCharwise(a[1..])) + CleanCharwise(b);
        CleanCharwise(a) + CleanCharwise(b);
      }
    } else {
      assert a + b == b;
    }
  }

  /** A string with no whitespace and no comma is left alone by `clean`. */
  lemma {:induction false} CleanFixed(s: string)
    requires forall i :: 0 <= i < |s| ==> !IsSpace(s[i]) && s[i] != ','
    ensures Clean(s) == s
    decreases |s|
  {
    CleanIsCharwise(s);
    CharwiseFixed(s);
  }

  lemma {:induction false} CharwiseFixed(s: string)
    requires forall i :: 0 <= i < |s| ==> !IsSpace(s[i]) && s[i] != ','
    ensures CleanCharwise(s) == s
    decreases |s|
  {
    if s != [] {
      assert !IsSpace(s[0]) && s[0] != ',';
      CharwiseFixed(s[1..]);
    }
  }

  /** `clean` is idempotent. */
  lemma CleanIdempotent(s: string)
    ensures Clean(Clean(s)) == Clean(s)
  {
    CleanFixed(Clean(s));
  }

  // ---------------------------------------------------------------- header patterns

  /** One of the characters of `[零一二三四五六七八九十百千]`. */
  predicate IsNumeral(c: char) {
    c == '零' || c == '一' || c == '二' || c == '三' || c == '四' || c == '五' || c == '六' ||
    c == '七' || c == '八' || c == '九' || c == '十' || c == '百' || c == '千'
  }

  /** How many numerals `s` holds in a row from index `from` on. */
  function NumeralRun(s: string, from: nat): (n: nat)
    requires from <= |s|
    ensures from + n <= |s|
    ensures forall i :: from <= i < from + n ==> IsNumeral(s[i])
    ensures from + n < |s| ==> !IsNumeral(s[from + n])
    decreases |s| - from
  {
    if from < |s| && IsNumeral(s[from]) then 1 + NumeralRun(s, from + 1) else 0
  }

  /** A whole word of the form `第[零一二三四五六七八九十百千]+条`. */
  predicate IsArticleNumber(w: string) {
    |w| >= 3 && w[0] == '第' && w[|w| - 1] == '条' &&
    forall i :: 1 <= i < |w| - 1 ==> IsNumeral(w[i])
  }

  /**
   * `re.match(r'(^第[零一二三四五六七八九十百千]+条)', line)`: the prefix of
   * `line` that is an article number, if there is one.  There is at most one,
   * because `条` is not a numeral.
   */
  function ArticleHeader(line: string): (r: Option<string>)
    ensures r.Some? ==> IsArticleNumber(r.value) && |r.value| <= |line| && r.value == line[..|r.value|]
    ensures r.Some? ==> forall k :: 3 <= k <= |line| && IsArticleNumber(line[..k]) ==> k == |r.value|
    ensures r.None? ==> forall k :: 3 <= k <= |line| ==> !IsArticleNumber(line[..k])
  {
    if |line| > 0 && line[0] == '第' then
      var n := NumeralRun(line, 1);
      if n >= 1 && n + 1 < |line| && line[n + 1] == '条' then
        var w := line[..n + 2];
        assert forall i :: 1 <= i < |w| - 1 ==> w[i] == line[i];
        assert forall k :: 3 <= k <= |line| && IsArticleNumber(line[..k]) ==> k == n + 2 by {
          forall k | 3 <= k <= |line| && IsArticleNumber(line[..k])
            ensures k == n + 2
          {
            assert line[..k][k - 1] == line[k - 1];
            assert forall i :: 1 <= i < k - 1 ==> line[..k][i] == line[i];
          }
        }
        Some(w)
      else
        assert forall k :: 3 <= k <= |line| ==> !IsArticleNumber(line[..k]) by {
          forall k | 3 <= k <= |line|
            ensures !IsArticleNumber(line[..k])
          {
            assert line[..k][k - 1] == line[k - 1];
            assert forall i :: 1 <= i < k - 1 ==> line[..k][i] == line[i];
          }
        }
        None
    else
      assert forall k :: 3 <= k <= |line| ==> line[..k][0] == line[0];
      None
  }

  /** `.+$`: a non-empty run without line breaks, optionally followed by one final line break. */
  predicate DotPlusEnd(x: string) {
    (|x| >= 1 && '\n' !in x) || (|x| >= 2 && x[|x| - 1] == '\n' && '\n' !in x[..|x| - 1])
  }

  /** `re.match(r'^第[零一二三四五六七八九十百千]+章\s+(.+)$', line)`. */
  predicate MatchesChapterHeading(line: string) {
    |line| > 0 && line[0] == '第' &&
    var n := NumeralRun(line, 1);
    var p := n + 1;
    n >= 1 && p < |line| && line[p] == '章' &&
    exists q :: p + 1 < q <= |line| && IsBlank(line[p + 1..q]) && DotPlusEnd(line[q..])
  }

  /** A chapter heading has whitespace right after `章`. */
  lemma ChapterHasSpace(line: string)
    requires MatchesChapterHeading(line)
    ensures exists i :: 0 <= i < |line| && IsSpace(line[i])
  {
    var p := NumeralRun(line, 1) + 1;
    var q :| p + 1 < q <= |line| && IsBlank(line[p + 1..q]) && DotPlusEnd(line[q..]);
    assert line[p + 1..q][0] == line[p + 1];
  }

  /**
   * A cleaned line holds no whitespace, while a chapter heading needs some
   * after `章`: the chapter test never succeeds on the lines it is applied to.
   */
  lemma CleanedLineNeverChapter(raw: string)
    ensures !MatchesChapterHeading(Clean(raw))
  {
    if MatchesChapterHeading(Clean(raw)) {
      ChapterHasSpace(Clean(raw));
    }
  }

  // ---------------------------------------------------------------- parse_content

  /** One parsed article: its number (`第…条`) and its body, lines joined by `\n`. */
  datatype Article = Article(number: string, content: string)

  /** The article being read: its number and the body lines seen so far. */
  datatype Draft = Draft(number: string, lines: seq<string>)

  /** The variables of the parsing loop: `current_article`, `articles`, `max_len`. */
  datatype ParseState = ParseState(current: Option<Draft>, articles: seq<Article>, maxLen: nat)

  const Init: ParseState := ParseState(None, [], 0)

  /** The lines the loop visits: stripped, blank ones left out. */
  function SourceLines(text: string): seq<string> {
    StrippedNonEmpty(Lines(text))
  }

  /** Saving the article being read, if any, and updating the longest length. */
  function Flush(st: ParseState): (r: ParseState)
    ensures r.current == None
  {
    match st.current
    case None => st
    case Some(d) =>
      var content := Join(d.lines, '\n');
      ParseState(None, st.articles + [Article(d.number, content)],
                 if |content| > st.maxLen then |content| else st.maxLen)
  }

  /** The body a header line opens with: the line without its number, cleaned, if anything is left. */
  function FirstLines(line: string, number: string): seq<string> {
    var content := Clean(RemoveAll(line, number));
    if |content| > 0 then [content] else []
  }

  /** One iteration of the loop, on one (stripped) line. */
  function Step(st: ParseState, raw: string): ParseState {
    var line := Clean(raw);
    if line == [] || MatchesChapterHeading(line) then st
    else
      var header := ArticleHeader(line);
      if header.Some? then
        var saved := Flush(st);
        var number := Clean(header.value);
        ParseState(Some(Draft(number, FirstLines(line, number))), saved.articles, saved.maxLen)
      else if st.current.Some? then
        st.(current := Some(st.current.value.(lines := st.current.value.lines + [line])))
      else st
  }

  /** The loop over a sequence of lines. */
  function StepAll(st: ParseState, xs: seq<string>): ParseState {
    if xs == [] then st else Step(StepAll(st, xs[..|xs| - 1]), xs[|xs| - 1])
  }

  /** `parse_content`: the loop over the lines of `text`, then saving the last article. */
  function Parse(text: string): ParseState {
    Flush(StepAll(Init, SourceLines(text)))
  }

  /** A line of whitespace only, or an empty one, makes no difference to what is parsed. */
  lemma BlankLineIgnored(x: string, w: string, y: string)
    requires '\n' !in w && IsBlank(w)
    ensures Parse(x + "\n" + w + "\n" + y) == Parse(x + "\n" + y)
  {
    BlankLineDropped(x, w, y);
  }

  /** The loop never sees a blank line. */
  lemma BlankLineDropped(x: string, w: string, y: string)
    requires '\n' !in w && IsBlank(w)
    ensures SourceLines(x + "\n" + w + "\n" + y) == SourceLines(x + "\n" + y)
  {
    var lx, ly := Lines(x), Lines(y);
    assert x + "\n" + w + "\n" + y == x + "\n" + (w + "\n" + y);
    LinesConcat(x, w + "\n" + y);
    LinesCons(w, y);
    LinesConcat(x, y);
    assert Lines(x + "\n" + w + "\n" + y) == lx + ([w] + ly);
    StripEmptyIffBlank(w);
    BlankDropped(w, ly);
    StrippedNonEmptyConcat(lx, [w] + ly);
    StrippedNonEmptyConcat(lx, ly);
  }

  lemma BlankDropped(w: string, ls: seq<string>)
    requires Strip(w) == []
    ensures StrippedNonEmpty([w] + ls) == StrippedNonEmpty(ls)
  {
    assert ([w] + ls)[0] == w;
    assert ([w] + ls)[1..] == ls;
  }

  /** `parse_content` as the loop it is. */
  method ParseContent(text: string) returns (articles: seq<Article>, maxLen: nat)
    ensures articles == Parse(text).articles && maxLen == Parse(text).maxLen
  {
    var lines := SourceLines(text);
    var current: Option<Draft> := None;
    articles := [];
    maxLen := 0;
    for i := 0 to |lines|
      invariant ParseState(current, articles, maxLen) == StepAll(Init, lines[..i])
    {
      StepAllTake(Init, lines, i);
      current, articles, maxLen := ParseLine(ParseState(current, articles, maxLen), lines[i]);
    }
    assert lines[..|lines|] == lines;
    articles, maxLen := SaveArticle(current, articles, maxLen);
  }

  /** The body of the loop of `parse_content`, on one stripped line. */
  method ParseLine(st: ParseState, raw: string) returns (current: Option<Draft>, articles: seq<Article>, maxLen: nat)
    ensures ParseState(current, articles, maxLen) == Step(st, raw)
  {
    current, articles, maxLen := st.current, st.articles, st.maxLen;
    var line := Clean(raw);
    if line == [] {
      return;
    }
    if MatchesChapterHeading(line) {
      return;
    }
    var header := ArticleHeader(line);
    if header.Some? {
      articles, maxLen := SaveArticle(current, articles, maxLen);
      var number := Clean(header.value);
      var articleContent := RemoveAll(line, number);
      articleContent := Clean(articleContent);
      var contents := [];
      if |articleContent| > 0 {
        contents := [articleContent];
      }
      current := Some(Draft(number, contents));
    } else if current.Some? {
      current := Some(current.value.(lines := current.value.lines + [line]));
    }
  }

  /** Saving the article being read, if any: its lines are joined and `max_len` is updated. */
  method SaveArticle(current: Option<Draft>, articles0: seq<Article>, maxLen0: nat)
    returns (articles: seq<Article>, maxLen: nat)
    ensures ParseState(None, articles, maxLen) == Flush(ParseState(current, articles0, maxLen0))
  {
    articles, maxLen := articles0, maxLen0;
    if current.Some? {
      var content := Join(current.value.lines, '\n');
      if |content| > maxLen {
        maxLen := |content|;
      }
      articles := articles + [Article(current.value.number, content)];
    }
  }

  // ---------------------------------------------------------------- properties

  /** Every line the loop visits is non-empty after `clean`, so the `continue` on an empty line never fires. */
  lemma SourceLinesCleanNonEmpty(text: string)
    ensures forall x :: x in SourceLines(text) ==> Clean(x) != []
  {
    forall x | x in SourceLines(text)
      ensures Clean(x) != []
    {
      StripEmptyIffBlank(x);
    }
  }

  /** A line that opens an article. */
  predicate IsHeaderLine(raw: string) {
    var line := Clean(raw);
    line != [] && !MatchesChapterHeading(line) && ArticleHeader(line).Some?
  }

  /** The number a header line opens. */
  function HeaderNumber(raw: string): string
    requires IsHeaderLine(raw)
  {
    Clean(ArticleHeader(Clean(raw)).value)
  }

  /** The number of a header line is the `第…条` prefix of the cleaned line: cleaning it again changes nothing. */
  lemma HeaderNumberIsPrefix(raw: string)
    requires IsHeaderLine(raw)
    ensures HeaderNumber(raw) == ArticleHeader(Clean(raw)).value
    ensures IsArticleNumber(HeaderNumber(raw))
    ensures HeaderNumber(raw) == Clean(raw)[..|HeaderNumber(raw)|]
  {
    var line := Clean(raw);
    var w := ArticleHeader(line).value;
    assert forall i :: 0 <= i < |w| ==> w[i] == line[i];
    CleanFixed(w);
  }

  /** The numbers of the header lines among `xs`, in order. */
  function HeaderNumbers(xs: seq<string>): seq<string> {
    if xs == [] then []
    else
      var last := xs[|xs| - 1];
      HeaderNumbers(xs[..|xs| - 1]) + (if IsHeaderLine(last) then [HeaderNumber(last)] else [])
  }

  function Numbers(articles: seq<Article>): (ns: seq<string>)
    ensures |ns| == |articles|
    ensures forall i :: 0 <= i < |articles| ==> ns[i] == articles[i].number
  {
    seq(|articles|, i requires 0 <= i < |articles| => articles[i].number)
  }

  /** The numbers of the saved articles and of the one being read. */
  function Pending(st: ParseState): seq<string> {
    Numbers(st.articles) + (if st.current.Some? then [st.current.value.number] else [])
  }

  lemma FlushPending(st: ParseState)
    ensures Numbers(Flush(st).articles) == Pending(st)
  {
  }

  lemma StepPending(st: ParseState, raw: string)
    ensures Pending(Step(st, raw)) == Pending(st) + (if IsHeaderLine(raw) then [HeaderNumber(raw)] else [])
  {
    if IsHeaderLine(raw) {
      FlushPending(st);
    }
  }

  lemma {:induction false} StepAllPending(st: ParseState, xs: seq<string>)
    ensures Pending(StepAll(st, xs)) == Pending(st) + HeaderNumbers(xs)
    decreases |xs|
  {
    if xs != [] {
      StepAllPending(st, xs[..|xs| - 1]);
      StepPending(StepAll(st, xs[..|xs| - 1]), xs[|xs| - 1]);
    }
  }

  /**
   * One article per header line, in input order, numbered by its header: the
   * article count is the number of header lines.
   */
  lemma ParseNumbers(text: string)
    ensures Numbers(Parse(text).articles) == HeaderNumbers(SourceLines(text))
    ensures |Parse(text).articles| == |HeaderNumbers(SourceLines(text))|
  {
    RunNumbers(SourceLines(text));
  }

  lemma RunNumbers(xs: seq<string>)
    ensures Numbers(Flush(StepAll(Init, xs)).articles) == HeaderNumbers(xs)
  {
    var st := StepAll(Init, xs);
    StepAllPending(Init, xs);
    FlushPending(st);
    PendingInit();
    assert [] + HeaderNumbers(xs) == HeaderNumbers(xs);
  }

  lemma PendingInit()
    ensures Pending(Init) == []
  {
    assert Numbers([]) == [];
  }

  /** The longest content among `articles`, 0 when there are none. */
  function MaxContent(articles: seq<Article>): (m: nat)
    ensures forall i :: 0 <= i < |articles| ==> |articles[i].content| <= m
    ensures articles == [] ==> m == 0
    ensures articles != [] ==> exists i :: 0 <= i < |articles| && |articles[i].content| == m
  {
    if articles == [] then 0
    else
      var init := articles[..|articles| - 1];
      var last := |articles[|articles| - 1].content|;
      var m := MaxContent(init);
      assert forall i :: 0 <= i < |init| ==> articles[i] == init[i];
      if last > m then last else m
  }

  /** `max_len` is the longest content of the articles saved so far. */
  predicate MaxTracked(st: ParseState) {
    st.maxLen == MaxContent(st.articles)
  }

  lemma FlushKeepsMax(st: ParseState)
    requires MaxTracked(st)
    ensures MaxTracked(Flush(st))
  {
    if st.current.Some? {
      var a := Article(st.current.value.number, Join(st.current.value.lines, '\n'));
      assert (st.articles + [a])[..|st.articles|] == st.articles;
    }
  }

  lemma {:induction false} StepAllKeepsMax(st: ParseState, xs: seq<string>)
    requires MaxTracked(st)
    ensures MaxTracked(StepAll(st, xs))
    decreases |xs|
  {
    if xs != [] {
      StepAllKeepsMax(st, xs[..|xs| - 1]);
      FlushKeepsMax(StepAll(st, xs[..|xs| - 1]));
    }
  }

  /** The returned `max_len` is the longest article content, or 0 when there is no article. */
  lemma ParseMaxLen(text: string)
    ensures Parse(text).maxLen == MaxContent(Parse(text).articles)
  {
    StepAllKeepsMax(Init, SourceLines(text));
    FlushKeepsMax(StepAll(Init, SourceLines(text)));
  }

  /** The loop over a concatenation is the loop over the second part, started where the first part ended. */
  lemma {:induction false} StepAllAppend(st: ParseState, xs: seq<string>, ys: seq<string>)
    ensures StepAll(st, xs + ys) == StepAll(StepAll(st, xs), ys)
    decreases |ys|
  {
    if ys == [] {
      assert xs + ys == xs;
    } else {
      var init, y := ys[..|ys| - 1], ys[|ys| - 1];
      LastSplit(ys);
      SnocAssoc(xs, init, y);
      StepAllAppend(st, xs, init);
      StepAllSnoc(st, xs + init, y);
      StepAllSnoc(StepAll(st, xs), init, y);
    }
  }

  /** Lines before any header leave the initial state as it was. */
  lemma {:induction false} PreambleNoEffect(xs: seq<string>)
    requires forall x :: x in xs ==> !IsHeaderLine(x)
    ensures StepAll(Init, xs) == Init
    decreases |xs|
  {
    if xs != [] {
      assert xs[|xs| - 1] in xs;
      assert forall x :: x in xs[..|xs| - 1] ==> x in xs;
      PreambleNoEffect(xs[..|xs| - 1]);
    }
  }

  /** Lines that come before the first article header are discarded. */
  lemma PreambleDiscarded(xs: seq<string>, ys: seq<string>)
    requires forall x :: x in xs ==> !IsHeaderLine(x)
    ensures StepAll(Init, xs + ys) == StepAll(Init, ys)
  {
    StepAllAppend(Init, xs, ys);
    PreambleNoEffect(xs);
  }

  /** Every line of `xs`, cleaned. */
  function CleanAll(xs: seq<string>): (r: seq<string>)
    ensures |r| == |xs|
  {
    if xs == [] then [] else CleanAll(xs[..|xs| - 1]) + [Clean(xs[|xs| - 1])]
  }

  /** A body line: not empty once cleaned, and not an article header. */
  predicate IsBodyLine(raw: string) {
    Clean(raw) != [] && ArticleHeader(Clean(raw)).None?
  }

  /** A body line is added to the article being read. */
  lemma StepBody(st: ParseState, b: string)
    requires st.current.Some? && IsBodyLine(b)
    ensures Step(st, b) == st.(current := Some(st.current.value.(lines := st.current.value.lines + [Clean(b)])))
  {
    CleanedLineNeverChapter(b);
  }

  /** A header line saves the article being read and opens a new one. */
  lemma StepHeader(st: ParseState, h: string)
    requires IsHeaderLine(h)
    ensures Step(st, h) ==
            ParseState(Some(Draft(HeaderNumber(h), FirstLines(Clean(h), HeaderNumber(h)))),
                       Flush(st).articles, Flush(st).maxLen)
  {
  }

  lemma {:induction false} ReadBody(st: ParseState, h: string, bs: seq<string>)
    requires IsHeaderLine(h)
    requires forall b :: b in bs ==> IsBodyLine(b)
    ensures StepAll(st, [h] + bs).articles == Flush(st).articles
    ensures StepAll(st, [h] + bs).current ==
            Some(Draft(HeaderNumber(h), FirstLines(Clean(h), HeaderNumber(h)) + CleanAll(bs)))
    decreases |bs|
  {
    if bs == [] {
      ReadHeader(st, h);
    } else {
      var init, b := bs[..|bs| - 1], bs[|bs| - 1];
      LastSplit(bs);
      assert forall x :: x in init ==> x in bs;
      ReadBody(st, h, init);
      ReadBodyExtend(st, h, init, b);
    }
  }

  /** The step of `ReadBody`: one more body line extends the article being read. */
  lemma ReadBodyExtend(st: ParseState, h: string, init: seq<string>, b: string)
    requires IsHeaderLine(h) && IsBodyLine(b)
    requires StepAll(st, [h] + init).articles == Flush(st).articles
    requires StepAll(st, [h] + init).current ==
             Some(Draft(HeaderNumber(h), FirstLines(Clean(h), HeaderNumber(h)) + CleanAll(init)))
    ensures StepAll(st, [h] + (init + [b])).articles == Flush(st).articles
    ensures StepAll(st, [h] + (init + [b])).current ==
            Some(Draft(HeaderNumber(h), FirstLines(Clean(h), HeaderNumber(h)) + CleanAll(init + [b])))
  {
    SnocAssoc([h], init, b);
    StepAllSnoc(st, [h] + init, b);
    ReadOneMore(StepAll(st, [h] + init), FirstLines(Clean(h), HeaderNumber(h)), init, b);
  }

  lemma SnocAssoc<T>(xs: seq<T>, ys: seq<T>, y: T)
    ensures xs + (ys + [y]) == (xs + ys) + [y]
  {
  }

  lemma LastSplit<T>(ys: seq<T>)
    requires ys != []
    ensures ys == ys[..|ys| - 1] + [ys[|ys| - 1]]
  {
  }

  /** The loop over the first `i + 1` lines is one more step after the loop over the first `i`. */
  lemma StepAllTake(st: ParseState, xs: seq<string>, i: nat)
    requires i < |xs|
    ensures StepAll(st, xs[..i + 1]) == Step(StepAll(st, xs[..i]), xs[i])
  {
    assert xs[..i + 1][..i] == xs[..i];
  }

  /** The loop over `xs` and then one more line. */
  lemma StepAllSnoc(st: ParseState, xs: seq<string>, x: string)
    ensures StepAll(st, xs + [x]) == Step(StepAll(st, xs), x)
  {
    assert (xs + [x])[..|xs|] == xs;
  }

  lemma ReadHeader(st: ParseState, h: string)
    requires IsHeaderLine(h)
    ensures StepAll(st, [h]).articles == Flush(st).articles
    ensures StepAll(st, [h]).current ==
            Some(Draft(HeaderNumber(h), FirstLines(Clean(h), HeaderNumber(h)) + CleanAll([])))
  {
    assert [h][..0] == [];
    assert StepAll(st, [h]) == Step(st, h);
    StepHeader(st, h);
    var first := FirstLines(Clean(h), HeaderNumber(h));
    assert first + CleanAll([]) == first;
  }

  lemma ReadOneMore(before: ParseState, first: seq<string>, xs: seq<string>, b: string)
    requires before.current.Some? && before.current.value.lines == first + CleanAll(xs)
    requires IsBodyLine(b)
    ensures Step(before, b).articles == before.articles
    ensures Step(before, b).current == Some(before.current.value.(lines := first + CleanAll(xs + [b])))
  {
    StepBody(before, b);
    assert (xs + [b])[..|xs|] == xs;
    assert CleanAll(xs + [b]) == CleanAll(xs) + [Clean(b)];
    assert (first + CleanAll(xs)) + [Clean(b)] == first + CleanAll(xs + [b]);
  }

  /**
   * An article's content: the header line without its number (when anything
   * is left of it) followed by the cleaned body lines up to the next header,
   * joined by line breaks.
   */
  lemma ArticleContent(st: ParseState, h: string, bs: seq<string>)
    requires IsHeaderLine(h)
    requires forall b :: b in bs ==> IsBodyLine(b)
    ensures Flush(StepAll(st, [h] + bs)).articles ==
            Flush(st).articles +
            [Article(HeaderNumber(h), Join(FirstLines(Clean(h), HeaderNumber(h)) + CleanAll(bs), '\n'))]
  {
    ReadBody(st, h, bs);
  }

  /**
   * A header line whose number does not come back later in the line opens
   * its article with the rest of the line, when there is any.
   */
  lemma HeaderLineBody(number: string, rest: string)
    requires number != []
    requires forall i :: 0 <= i < |rest| ==> !IsSpace(rest[i]) && rest[i] != ','
    requires !Contains(rest, number)
    ensures FirstLines(number + rest, number) == if rest == [] then [] else [rest]
  {
    var s := number + rest;
    assert s[..|number|] == number && s[|number|..] == rest;
    RemoveAllAbsent(rest, number);
    CleanFixed(rest);
  }

  /** An article number never overlaps a later copy of itself: `第` occurs in it only at the start. */
  lemma ArticleNumberUnbordered(number: string)
    requires IsArticleNumber(number)
    ensures Unbordered(number)
  {
    forall d | 1 <= d < |number|
      ensures number[d] != number[0]
    {
      if d < |number| - 1 {
        assert IsNumeral(number[d]);
      }
    }
  }

  /**
   * `line.replace(article_number, "")` removes every copy of the number, not
   * only the header: a header line `number + m + number + rest` without a copy
   * in `m` keeps `m` and goes on removing copies in `rest`.
   */
  lemma HeaderNumberRemovedEverywhere(number: string, m: string, rest: string)
    requires IsArticleNumber(number) && !Contains(m, number)
    ensures RemoveAll(number + m + number + rest, number) == m + RemoveAll(rest, number)
  {
    ArticleNumberUnbordered(number);
    assert !Contains([], number) by {
      assert forall i :: 0 <= i <= 0 ==> !OccursAt([], number, i);
    }
    assert number + m + number + rest == [] + number + (m + number + rest);
    RemoveAllSkip([], number, m + number + rest);
    RemoveAllSkip(m, number, rest);
  }

  /**
   * A line that is a chapter heading before cleaning is, inside an article,
   * kept as a body line of that article with its whitespace removed.
   */
  lemma ChapterHeadingIsBody(st: ParseState, raw: string)
    requires st.current.Some? && MatchesChapterHeading(raw)
    ensures Step(st, raw) == st.(current := Some(st.current.value.(lines := st.current.value.lines + [Clean(raw)])))
  {
    HeadingIsBody(st, raw, NumeralRun(raw, 1) + 1);
  }

  /** What the proof above needs of a chapter heading: `第`, a numeral run, then `章`. */
  lemma HeadingIsBody(st: ParseState, raw: string, p: nat)
    requires st.current.Some?
    requires 2 <= p < |raw| && raw[0] == '第' && NumeralRun(raw, 1) + 1 == p && raw[p] == '章'
    ensures Step(st, raw) == st.(current := Some(st.current.value.(lines := st.current.value.lines + [Clean(raw)])))
  {
    CleanedHeadingIsBodyLine(raw, p);
    StepBody(st, raw);
  }

  /** Cleaning keeps `第`, the numeral run and `章`, so the cleaned line has no article header. */
  lemma CleanedHeadingIsBodyLine(raw: string, p: nat)
    requires 2 <= p < |raw| && raw[0] == '第' && NumeralRun(raw, 1) + 1 == p && raw[p] == '章'
    ensures IsBodyLine(raw)
  {
    HeadingPrefixPlain(raw, p);
    CleanKeepsPrefix(raw, p + 1);
    var line := Clean(raw);
    NumeralRunAgree(raw, line, 1, p);
    NotArticleHeader(line, p);
  }

  lemma HeadingPrefixPlain(raw: string, p: nat)
    requires 2 <= p < |raw| && raw[0] == '第' && NumeralRun(raw, 1) + 1 == p && raw[p] == '章'
    ensures forall i :: 0 <= i < p + 1 ==> !IsSpace(raw[i]) && raw[i] != ','
  {
    forall i | 0 <= i <= p
      ensures !IsSpace(raw[i]) && raw[i] != ','
    {
      if 1 <= i < p {
        NumeralNotSpace(raw[i]);
      }
    }
  }

  lemma NumeralNotSpace(c: char)
    requires IsNumeral(c)
    ensures !IsSpace(c) && c != ','
  {
  }

  /** A prefix without whitespace and commas comes through `clean` unchanged. */
  lemma CleanKeepsPrefix(raw: string, k: nat)
    requires k <= |raw|
    requires forall i :: 0 <= i < k ==> !IsSpace(raw[i]) && raw[i] != ','
    ensures k <= |Clean(raw)| && forall i :: 0 <= i < k ==> Clean(raw)[i] == raw[i]
  {
    assert raw == raw[..k] + raw[k..];
    CleanFixed(raw[..k]);
    CleanConcat(raw[..k], raw[k..]);
  }

  /** A line whose numeral run after `第` is not closed by `条` has no article header. */
  lemma NotArticleHeader(line: string, p: nat)
    requires 1 <= p < |line| && line[0] == '第' && NumeralRun(line, 1) + 1 == p && line[p] != '条'
    ensures ArticleHeader(line).None?
  {
  }

  /** Two strings that agree up to the end of a numeral run have the same run there. */
  lemma {:induction false} NumeralRunAgree(a: string, b: string, from: nat, p: nat)
    requires from <= p < |a| && p < |b|
    requires forall i :: from <= i <= p ==> a[i] == b[i]
    requires from + NumeralRun(a, from) == p
    ensures NumeralRun(b, from) == NumeralRun(a, from)
    decreases p - from
  {
    if from < p {
      NumeralRunAgree(a, b, from + 1, p);
    }
  }
}
