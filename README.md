# langchain-RAG core, modelled in Dafny

This project models the parts of the langchain-RAG repository that hold logic of their own. That is, the parts that are not wiring around LangChain, an LLM or a web framework. It proves properties of each part.

- **Bounded TTL cache** (`src/practice/ttlcache.py`).
  - A `Cache` holds a map from key to `(value, expire_at)` with a capacity `max_size` and a lifetime `ttl`.
  - `add` overwrites an existing key and answers nothing. It refuses a new key with `FULL` when the map is full and otherwise inserts it with `OK`.
  - `get` and `in` answer from live entries and delete an expired entry they meet.
  - A sweep deletes every entry whose `expire_at <= now`.
  - In Dafny, `TtlCache.Cache` is a class whose `entries` field the methods update in place. Each method is proved equal to a pure transition on maps (`AddEntry`, `GetEntry`, `ContainsKey`, `RemoveExpired`). The lemmas are about those transitions:
    - the sweep agrees with the read path;
    - the sweep is idempotent;
    - a written key lives exactly `ttl`;
    - no run of operations ever breaks the capacity bound.
- **Answer cleaners of the legal-consultation service** (`src/backend/services/legal_consultation/app/common.py`).
  - `clean_response` keeps the text before the first `<think>` and the text after the first `</think>`, then drops blank lines. When the tags come in that order, this cuts out the reasoning section. When the first `</think>` comes first, it does not (see "Findings").
  - `remove_last_parentheses_part` removes a closing full-width bracket group.
  - `clean` extracts the body of a generated summary.
  - `truncate_text_by_paragraphs` cuts a judgment before the court's findings (`本院认为` / `本院查明`) and then to a length budget at paragraph boundaries. It is modelled as methods with loops (`TruncateTextByParagraphs`, `SelectParagraphs`), proved against the specification function `Truncated`.
- **Statute splitter** (`src/backend/services/legal_consultation/app/parse_data.py`).
  - `clean` removes whitespace and turns ASCII commas into full-width ones.
  - `parse_content` cuts a statute into articles at `第…条` headers and reports the longest article.
  - The parsing loop is the method `ParseContent`, proved equal to a left fold `StepAll` of a one-line step `Step`. The lemmas then relate the fold to the input lines: article numbers, contents, maximum length and the discarded preamble.
- **Streaming think-tag filter** (`src/backend/services/legal_consultation/app/chat_general.py`).
  - `ask_stream` and `ask_stream_async` run the same loop over the streamed chunks.
  - The loop hides everything between `<think>` and `</think>` and drops the first `"\n\n"` chunk after `</think>`.
  - `FilterStream` is that loop, proved equal to the recursive `Filtered`.

`Text` gathers the pieces of Python's `str` behaviour the code relies on:
- whitespace as `str.isspace()` defines it;
- `strip`;
- `split` and `join` on one character;
- `find` and `in`;
- `replace(pat, "")`.

Strings are sequences of Unicode scalar values, so `|s|` is Python's `len`. `Wrappers` holds `Option`.

The regular expressions are written out for the patterns used:
- `<think>.*?</think>` with `DOTALL` is `Common.RemoveThinkBlocks`. Each section runs from a `<think>` to the first `</think>` after it.
- `（[^（]*）$` cuts at the last `（`.
- `^（.*）$` is `Common.MatchesBracketedNote`.
- `^第[零一二三四五六七八九十百千]+章\s+(.+)$` is `ParseData.MatchesChapterHeading`.
- `(^第[零一二三四五六七八九十百千]+条)` is `ParseData.ArticleHeader`. It is specified against `IsArticleNumber`, a declarative reading of the same pattern.

Two details of the cache are modelled as the code has them:
- `add` on an existing key overwrites the entry and returns `None`, not a success code (`ttlcache.py:55-71`).
- The constructor stores `max_size` and `ttl` without checking them, so `max_size <= 0` or `ttl <= 0` are accepted (`ttlcache.py:21-31`).

Two behaviours of the code are kept as written and stated as lemmas:
- `parse_data.py` cleans every line, removing all whitespace, before it tries the chapter pattern, which needs whitespace after `章`. So a chapter heading is never skipped. Inside an article it becomes a body line (`CleanedLineNeverChapter`, `ChapterHeadingIsBody`).
- The greedy selection in `truncate_text_by_paragraphs` charges every selected paragraph one line break, the last one included. So when the selection runs and `max_len >= 1`, the result is at most `max_len - 1` characters long (`TruncatedGreedyShort`). A text that needs no selection can be exactly `max_len` long, for example the paragraphs before a trigger when they fit.

## Model

| member | source | states |
|---|---|---|
| `Text.Strip` | src/backend/services/legal_consultation/app/common.py:34 | `s.strip()`: the result is a slice `s[i..j]` of `s` with only whitespace before `i` and after `j`, and it neither starts nor ends with whitespace |
| `Text.StripTrimRight` | src/backend/services/legal_consultation/app/common.py:62 | stripping a line that has already lost its trailing whitespace, as the last line of the stripped text has, gives the same as stripping the line itself |
| `Text.StripEmptyIffBlank` | src/backend/services/legal_consultation/app/common.py:34 | `s.strip()` is empty exactly when `s` is whitespace only, the test the comprehensions use to drop blank lines |
| `Text.SplitJoin` | src/backend/services/legal_consultation/app/common.py:33-35 | splitting a join on a separator that no part contains gives the parts back |
| `Text.JoinSplit` | src/backend/services/legal_consultation/app/common.py:33-35 | joining the parts of a split gives the string back |
| `Text.LinesConcat` | src/backend/services/legal_consultation/app/parse_data.py:31 | `split('\n')` of two parts joined by a line break is the split of the first followed by the split of the second |
| `Text.JoinLength` | src/backend/services/legal_consultation/app/common.py:111-113 | a join of paragraphs is one character shorter than the sum of their lengths plus one each, the quantity the greedy loop tracks |
| `Text.StripJoinedLines` | src/backend/services/legal_consultation/app/common.py:72-74 | stripping a join of non-blank lines changes only the first line's start and the last line's end; the result is non-empty and has no blank line |
| `Text.StripJoined` | src/backend/services/legal_consultation/app/common.py:72-74 | joining content lines and stripping the result: it has no leading or trailing whitespace, it is empty exactly when there are no lines, and otherwise its lines are the given ones with the first left-stripped and the last right-stripped, none of them blank |
| `Text.Find` | src/backend/services/legal_consultation/app/common.py:27-28 | `s.find(pat)` is -1 exactly when `pat` does not occur, and otherwise is the first occurrence |
| `Text.RemoveAllSkip` | src/backend/services/legal_consultation/app/parse_data.py:63 | for a pattern that cannot overlap itself, `replace(pat, "")` on `a + pat + b` with no copy in `a` keeps `a` and goes on removing copies in `b` |
| `Text.RemoveAllAbsent` | src/backend/services/legal_consultation/app/parse_data.py:63 | `replace(pat, "")` leaves a string that does not contain `pat` unchanged |
| `TtlCache.Error.Code` | src/practice/ttlcache.py:14-18 | the integer code of an outcome: positive for `OK` alone, negative for `FULL`, `EXPIRED` and `NOT_FOUND` |
| `TtlCache.AddEntry` | src/practice/ttlcache.py:55-71 | an existing key, stale or not, is overwritten with `(value, now + ttl)`, the size stays and the answer is `None`; a new key on a full map is refused with `FULL` and nothing changes; otherwise it is inserted, the size grows by one and the answer is `OK`; other keys are untouched |
| `TtlCache.GetEntry` | src/practice/ttlcache.py:73-88 | absent key: `NOT_FOUND`, no change; live entry (`now < expire_at`): `OK` with its value, no change; stale entry: `EXPIRED`, no value, and exactly that key is deleted |
| `TtlCache.ContainsKey` | src/practice/ttlcache.py:95-108 | `key in cache` is true exactly when `get` at the same instant answers `OK`, and it has the same deletion side effect |
| `TtlCache.RemoveExpired` | src/practice/ttlcache.py:43-52 | the sweep keeps exactly the entries with `now < expire_at`, unchanged, and never grows the map |
| `TtlCache.SweepAgreesWithReads` | src/practice/ttlcache.py:43-88 | after a sweep no read at the same instant answers `EXPIRED`, and whether a read answers `OK`, and with which value, is unchanged |
| `TtlCache.SweepIdempotent` | src/practice/ttlcache.py:43-52 | a second sweep at the same instant changes nothing |
| `TtlCache.LifetimeAfterAdd` | src/practice/ttlcache.py:55-88 | a key written at `t0` that was not refused answers its value to every `get` before `t0 + ttl` and `EXPIRED`, deleting it, at or after `t0 + ttl` |
| `TtlCache.RunKeepsCapacity` | src/practice/ttlcache.py:55-118 | a map within `max_size` stays within it under any sequence of add, get, contains, sweep and clear |
| `TtlCache.OnlyAddGrows` | src/practice/ttlcache.py:55-118 | only `add` can grow the map, and by at most one entry |
| `TtlCache.Cache.constructor` | src/practice/ttlcache.py:21-31 | the cache keeps `max_size` and `ttl` as given and starts empty |
| `TtlCache.Cache.RemoveExpiredKeys` | src/practice/ttlcache.py:43-52 | the loop that deletes the collected expired keys leaves exactly `RemoveExpired` of the old map and keeps the capacity bound |
| `TtlCache.Cache.Add` | src/practice/ttlcache.py:55-71 | answer and new map are those of `AddEntry`; the capacity bound is kept |
| `TtlCache.Cache.Get` | src/practice/ttlcache.py:73-88 | code, value and new map are those of `GetEntry`; the capacity bound is kept |
| `TtlCache.Cache.IsFull` | src/practice/ttlcache.py:90-93 | true exactly when the map holds at least `max_size` entries |
| `TtlCache.Cache.Contains` | src/practice/ttlcache.py:95-108 | answer and new map are those of `ContainsKey`; the capacity bound is kept |
| `TtlCache.Cache.Len` | src/practice/ttlcache.py:110-113 | the number of entries held, expired ones included |
| `TtlCache.Cache.Clear` | src/practice/ttlcache.py:115-118 | the map becomes empty; capacity and lifetime stay as they were |
| `TtlCache.Demo` | src/practice/ttlcache.py:122-145 | the module's demonstration run, with the clock read at 0, 6 and 12 and no sweep in between: `key1` is present and then gone; with three live keys `key5` is refused with `FULL`; `key2` reads back `value2` and later answers `EXPIRED` |
| `Common.CleanResponse` | src/backend/services/legal_consultation/app/common.py:23-37 | without both tags the answer is returned unchanged; with both, the lines of the result are exactly the non-blank lines of `ThinkExcised`, the text before the first `<think>` followed by the text after the first `</think>`, and the result has no blank line (it is empty exactly when no line survives) |
| `Common.CleanResponseDropsLeadingThink` | src/backend/services/legal_consultation/app/common.py:23-37 | an answer that opens with its reasoning section comes back as the non-blank lines of what follows the section |
| `Common.ThinkExcisedOutOfOrder` | src/backend/services/legal_consultation/app/common.py:27-31 | when the first `</think>` comes before the first `<think>`, the cut keeps both tags and repeats the text between them: `a + </think> + m + <think> + b` becomes `a + </think> + m + m + <think> + b` |
| `Common.ThinkExcisedInOrder` | src/backend/services/legal_consultation/app/common.py:27-31 | the intended cut never lengthens the answer, and it either changes nothing or removes one span that opens with `<think>` and closes with `</think>`; when the first `</think>` starts after the first `<think>` it is exactly the cut `clean_response` makes, so the correction changes only the out-of-order case |
| `Common.ThinkExcisedInOrderCuts` | src/backend/services/legal_consultation/app/common.py:27-31 | with no `<think>` in `a` and no `</think>` in `m`, the intended cut turns `a + <think> + m + </think> + b` into `a + b` |
| `Common.ThinkExcisedInOrderOutOfOrder` | src/backend/services/legal_consultation/app/common.py:27-31 | on the out-of-order answer with no later `</think>`, the intended cut leaves the answer as it is |
| `Common.RemoveLastParenthesesPart` | src/backend/services/legal_consultation/app/common.py:39-44 | the result is a prefix of `s`; it equals `s` exactly when `s` does not end with `）` or holds no `（`; otherwise it stops at a `（` after which `s` holds no other `（` |
| `Common.RemoveThinkBlocks` | src/backend/services/legal_consultation/app/common.py:50 | text without `<think>`, or without `</think>`, is unchanged, and removal never lengthens the text |
| `Common.RemoveThinkBlocksStep` | src/backend/services/legal_consultation/app/common.py:50 | the first section, from the first `<think>` to the first `</think>` after it, is removed, and the scan resumes after it |
| `Common.RemoveThinkBlocksUnclosed` | src/backend/services/legal_consultation/app/common.py:50 | a `<think>` with no `</think>` after it ends the scan and the text is left unchanged, even when a stray `</think>` comes before the tag |
| `Common.CleanedParagraphs` | src/backend/services/legal_consultation/app/common.py:49-69 | every paragraph `clean` keeps is a non-blank line without line breaks |
| `Common.Clean` | src/backend/services/legal_consultation/app/common.py:46-76 | the body is stripped and has no blank line; it is empty exactly when no paragraph survives; its lines are the surviving paragraphs, the first left-stripped and the last right-stripped |
| `Common.CleanDropsSummaryHeading` | src/backend/services/legal_consultation/app/common.py:58-59 | a stripped heading line holding `摘要：` in front of a stripped body gives the same result as the body alone, when the body has no reasoning block and its first line does not hold `摘要：` |
| `Common.CleanDropsClosingNote` | src/backend/services/legal_consultation/app/common.py:62-63 | a last line that is a `（…）` note once stripped, surrounding whitespace allowed, gives the same result as the stripped body before it alone, when the body has no reasoning block and its own last line is not a note |
| `Common.CleanCutsBracketGroup` | src/backend/services/legal_consultation/app/common.py:66-74 | a stripped one-line text with no reasoning block, heading or note comes back as `remove_last_parentheses_part` of it, stripped |
| `Common.TriggerIndex` | src/backend/services/legal_consultation/app/common.py:93-100 | the index of the first paragraph holding `本院认为` or `本院查明`, or the paragraph count when there is none |
| `Common.FittingPrefix` | src/backend/services/legal_consultation/app/common.py:106-115 | the greedy count: the first `k` paragraphs, charged length plus one each, fit the budget, and adding the next one would not |
| `Common.FittingPrefixIsLongest` | src/backend/services/legal_consultation/app/common.py:106-115 | no longer prefix fits the budget, so the greedy choice is the longest fitting prefix |
| `Common.TruncatedFits` | src/backend/services/legal_consultation/app/common.py:106-119 | for `max_len >= 0` the result is at most `max_len` long; for a negative budget it is empty |
| `Common.TruncatedKeepsShortText` | src/backend/services/legal_consultation/app/common.py:96-107 | a text with no trigger phrase that already fits is returned unchanged |
| `Common.TruncatedStopsBeforeTrigger` | src/backend/services/legal_consultation/app/common.py:96-117 | with a trigger phrase, the result is the join of a prefix of the paragraphs before the first trigger paragraph |
| `Common.TruncatedIsGreedy` | src/backend/services/legal_consultation/app/common.py:96-117 | whenever the text after the trigger search is over budget, with or without a trigger, the result joins the greedy prefix of the paragraphs before the first trigger paragraph, and the next paragraph would not have fitted |
| `Common.FittingPrefixOfPrefix` | src/backend/services/legal_consultation/app/common.py:108-115 | the greedy count over a list is the greedy count over any prefix at least that long, so the paragraphs after the selection play no part |
| `Common.TruncatedGreedyShort` | src/backend/services/legal_consultation/app/common.py:106-117 | when the selection runs on a budget `max_len >= 1`, the result is at most `max_len - 1` long |
| `Common.SelectParagraphs` | src/backend/services/legal_consultation/app/common.py:108-115 | the selection loop takes exactly the greedy prefix `FittingPrefix` |
| `Common.TruncateTextByParagraphs` | src/backend/services/legal_consultation/app/common.py:78-119 | the trigger search and the selection loop return `Truncated(text, max_len)`, whose properties are the lemmas above; `max_len` defaults to 15000 |
| `ParseData.RemoveSpaces` | src/backend/services/legal_consultation/app/parse_data.py:23 | no whitespace is left, and the result is empty exactly when the input was whitespace only; a single character is dropped exactly when it is whitespace |
| `ParseData.RemoveSpacesConcat` | src/backend/services/legal_consultation/app/parse_data.py:23 | whitespace removal distributes over concatenation, so with the single-character case every other character is kept, in order |
| `ParseData.RemoveChar` | src/backend/services/legal_consultation/app/parse_data.py:24 | the character is gone, and a string without it is unchanged; a single character is dropped exactly when it is that character |
| `ParseData.RemoveCharConcat` | src/backend/services/legal_consultation/app/parse_data.py:24 | the removal distributes over concatenation, so every other character is kept, in order |
| `ParseData.Clean` | src/backend/services/legal_consultation/app/parse_data.py:21-26 | the result has no whitespace (U+3000 included) and no ASCII comma, and it is empty exactly when the input is blank |
| `ParseData.CleanIsCharwise` | src/backend/services/legal_consultation/app/parse_data.py:21-26 | `clean` equals the character-by-character rewrite: whitespace is dropped, `,` becomes `，`, every other character stays |
| `ParseData.CleanConcat` | src/backend/services/legal_consultation/app/parse_data.py:21-26 | `clean` distributes over concatenation |
| `ParseData.CleanFixed` | src/backend/services/legal_consultation/app/parse_data.py:21-26 | a string without whitespace and commas is unchanged |
| `ParseData.CleanIdempotent` | src/backend/services/legal_consultation/app/parse_data.py:21-26 | cleaning twice is cleaning once |
| `ParseData.NumeralRun` | src/backend/services/legal_consultation/app/parse_data.py:38-39 | the maximal run of `[零一二三四五六七八九十百千]` at a position |
| `ParseData.ArticleHeader` | src/backend/services/legal_consultation/app/parse_data.py:39 | a match is a prefix of the line of the form `第<numerals>条` and is the only such prefix; no match means that no prefix has that form |
| `ParseData.ChapterHasSpace` | src/backend/services/legal_consultation/app/parse_data.py:38 | a line the chapter pattern matches holds whitespace |
| `ParseData.CleanedLineNeverChapter` | src/backend/services/legal_consultation/app/parse_data.py:38-49 | no cleaned line matches the chapter pattern, so the chapter skip never fires |
| `ParseData.ParseContent` | src/backend/services/legal_consultation/app/parse_data.py:28-84 | the loop returns the articles and maximum length of `Parse(text)`, the fold of `Step` over the stripped non-empty lines followed by a final save |
| `ParseData.ParseLine` | src/backend/services/legal_consultation/app/parse_data.py:41-76 | one pass of the loop body leaves exactly the state `Step` gives: skip, open a new article after saving the current one, append a body line, or drop an orphan line |
| `ParseData.SaveArticle` | src/backend/services/legal_consultation/app/parse_data.py:54-58 | saving the article being read (also done after the loop, lines 78-82) leaves exactly the state `Flush` gives: its lines joined by line breaks are appended and `max_len` becomes the larger of itself and the new length |
| `ParseData.SourceLinesCleanNonEmpty` | src/backend/services/legal_consultation/app/parse_data.py:31-44 | every visited line is non-empty after `clean`, so the empty-line skip never fires |
| `ParseData.HeaderNumberIsPrefix` | src/backend/services/legal_consultation/app/parse_data.py:62 | an article's number is the matched `第…条` prefix of the cleaned line; cleaning it again changes nothing |
| `ParseData.BlankLineIgnored` | src/backend/services/legal_consultation/app/parse_data.py:31 | an empty line, or one of whitespace only, between two parts of the text changes nothing in what is parsed |
| `ParseData.ParseNumbers` | src/backend/services/legal_consultation/app/parse_data.py:52-82 | the article numbers are the numbers of the header lines, in input order, so the article count is the header-line count |
| `ParseData.MaxContent` | src/backend/services/legal_consultation/app/parse_data.py:57-58 | the longest content among the articles, attained by one of them, or 0 when there are none |
| `ParseData.ParseMaxLen` | src/backend/services/legal_consultation/app/parse_data.py:35-84 | the returned `max_len` is the longest article content, or 0 when there is no article |
| `ParseData.StepAllAppend` | src/backend/services/legal_consultation/app/parse_data.py:41-76 | the loop over a concatenation is the loop over the second part started from where the first ended |
| `ParseData.PreambleNoEffect` | src/backend/services/legal_consultation/app/parse_data.py:73-76 | lines without a header leave the initial state unchanged |
| `ParseData.PreambleDiscarded` | src/backend/services/legal_consultation/app/parse_data.py:73-76 | lines before the first header contribute nothing |
| `ParseData.ReadBody` | src/backend/services/legal_consultation/app/parse_data.py:53-76 | after a header and body lines, the open article holds the header's number, the rest of the header line if non-empty, then the cleaned body lines |
| `ParseData.ArticleContent` | src/backend/services/legal_consultation/app/parse_data.py:53-82 | that article is saved with exactly this content, joined by line breaks |
| `ParseData.HeaderLineBody` | src/backend/services/legal_consultation/app/parse_data.py:62-68 | a header line whose number does not recur starts its article with the rest of the line, when there is any |
| `ParseData.HeaderNumberRemovedEverywhere` | src/backend/services/legal_consultation/app/parse_data.py:62-63 | `line.replace(article_number, "")` removes every copy of the number: `number + m + number + rest`, with no copy in `m`, becomes `m` followed by `rest` with its copies removed |
| `ParseData.ChapterHeadingIsBody` | src/backend/services/legal_consultation/app/parse_data.py:38-76 | a chapter heading inside an article is appended to it as a body line, its whitespace removed |
| `ChatGeneral.FilterStream` | src/backend/services/legal_consultation/app/chat_general.py:70-94 | the loop with its two flags yields exactly `Filtered(Start, chunks)` |
| `ChatGeneral.OthersIgnored` | src/backend/services/legal_consultation/app/chat_general.py:81 | chunks that are not AI messages do not affect the output |
| `ChatGeneral.NoTagYielded` | src/backend/services/legal_consultation/app/chat_general.py:84-88 | no yielded text is `<think>` or `</think>` |
| `ChatGeneral.FilteredIsSubsequence` | src/backend/services/legal_consultation/app/chat_general.py:81-94 | the output is an order-preserving subsequence of the AI chunk texts, each unchanged |
| `ChatGeneral.InThinkHides` | src/backend/services/legal_consultation/app/chat_general.py:84-90 | inside a reasoning section, chunks up to `</think>` yield nothing and leave the state unchanged |
| `ChatGeneral.ThinkSectionHidden` | src/backend/services/legal_consultation/app/chat_general.py:84-90 | a `<think>` … `</think>` section yields nothing, and what follows is filtered with the blank-line flag set |
| `ChatGeneral.FlagSurvives` | src/backend/services/legal_consultation/app/chat_general.py:86-94 | with the flag set, chunks other than tags and `"\n\n"` pass unchanged and keep the flag |
| `ChatGeneral.FirstBlankLineDropped` | src/backend/services/legal_consultation/app/chat_general.py:86-94 | after `</think>` the first `"\n\n"` chunk is dropped once, whatever passes before it, and the filter is back in its initial state |
| `ChatGeneral.NoTagsPassThrough` | src/backend/services/legal_consultation/app/chat_general.py:81-94 | a stream without tags yields every AI chunk text unchanged, `"\n\n"` included |

## Findings

| source | as written | input that shows it | evidently intended | confidence | as-written member | corrected member |
|---|---|---|---|---|---|---|
| src/backend/services/legal_consultation/app/common.py:27-31 | `response[:start_pos] + response[end_pos+len(end_tag):]` with both positions taken by `find` from the start | `"a</think>b<think>c"` becomes `"a</think>bb<think>c"`: both tags stay and `b` is written twice | cut from the first `<think>` to the end of the first `</think>` after it, as `clean` does with its substitution, and leave the answer alone when there is no such pair; this differs from the code only when `</think>` comes first | not executed | `Common.ThinkExcisedOutOfOrder` | `Common.ThinkExcisedInOrder` |

`Common.CleanResponse` keeps the code as written. The corrected cut is stated beside it and is not used by `CleanResponse`.

## Left out

**Cache (`ttlcache.py`)**
- The lock, the daemon cleanup thread, `time.sleep` and `time.time`. Operations are sequential here, and the current time is a parameter `now` of each operation that reads the clock.
- The printouts.
- `Demo` runs the `__main__` demonstration without the background sweeper that the constructor starts (`ttlcache.py:31-41`). In a real run the sweeper wakes every second during `time.sleep(6)`, so the second `get("key2")` may find the entry already swept and answer `NOT_FOUND` where `Demo` answers `EXPIRED`.
- Expiry instants are `real` numbers, with no floating-point rounding.

**Answer cleaners (`common.py`)**
- `common.py`'s `MessageRequest` and `TranslateRequest` pydantic models, `simple_token_counter`, `get_trimmer`, `test_trimmer` and the `__main__` demo. These are LangChain and pydantic wiring.
- Common.RemoveThinkBlocks: no lemma says the result is free of complete `<think>`…`</think>` sections. The Python substitution does not promise that either: removing one section can join the text around it into a new one.

**Statute splitter (`parse_data.py`)**
- `parse()` and the module-level directory setup, which are file and CSV I/O around `parse_content`.

**Stream filter (`chat_general.py`)**
- `build_app`, `ask` and the streaming call itself. The streamed chunks are the input sequence of `FilterStream`.
- The asynchronous iteration of `ask_stream_async`. Its loop body is the same as that of `ask_stream`, so `FilterStream` stands for both.
- A chunk's content is modelled as a string. A LangChain message content that is a list is not modelled.

**Beyond the four core files**
- The regular-expression engine in general. Only the six patterns the code uses are modelled.
- `chat_professional.py`, `summary.py`, `translate.py`, `captcha.py`, `create_db.py`, `main.py`, `config.py` and `util.py` are not part of this model. They are LLM, vector-store, image, web and configuration wiring.
