/**
 * The streaming answer of the general chat service: the chunks the model
 * streams are passed on one by one, except that the reasoning section between
 * `<think>` and `</think>` is hidden and the first `"\n\n"` chunk after it is
 * dropped.
 */
module ChatGeneral {
  import Common

  /** A streamed message chunk: an AI message with its text, or any other message. */
  datatype Chunk = AIChunk(content: string) | OtherChunk

  /** The two flags of the loop: inside a reasoning section, and waiting for the blank line after it. */
  datatype FilterState = FilterState(inThink: bool, isFirstLine: bool)

  const Start: FilterState := FilterState(false, false)

  /** A chunk that is exactly one of the reasoning tags. */
  predicate IsTag(c: Chunk) {
    c.AIChunk? && (c.content == Common.Open || c.content == Common.Close)
  }

  /** The state after one chunk. */
  function Next(st: FilterState, c: Chunk): FilterState {
    if c.OtherChunk? then st
    else if c.content == Common.Open then st.(inThink := true)
    else if c.content == Common.Close then FilterState(false, true)
    else if !st.inThink && st.isFirstLine && c.content == "\n\n" then st.(isFirstLine := false)
    else st
  }

  /** What one chunk yields. */
  function Yield(st: FilterState, c: Chunk): seq<string> {
    if c.OtherChunk? || c.content == Common.Open || c.content == Common.Close || st.inThink then []
    else if st.isFirstLine && c.content == "\n\n" then []
    else [c.content]
  }

  /** Everything yielded for `chunks`, starting in state `st`. */
  function Filtered(st: FilterState, chunks: seq<Chunk>): seq<string>
    decreases |chunks|
  {
    if chunks == [] then [] else Yield(st, chunks[0]) + Filtered(Next(st, chunks[0]), chunks[1..])
  }

  /** The loop of `ask_stream` (and of `ask_stream_async`) over the chunks the model streams. */
  method FilterStream(chunks: seq<Chunk>) returns (out: seq<string>)
    ensures out == Filtered(Start, chunks)
  {
    var inThink := false;
    var isFirstLine := false;
    out := [];
    assert chunks[0..] == chunks;
    for i := 0 to |chunks|
      invariant out + Filtered(FilterState(inThink, isFirstLine), chunks[i..]) == Filtered(Start, chunks)
    {
      ghost var st := FilterState(inThink, isFirstLine);
      ghost var before := out;
      FilteredDrop(st, chunks, i);
      var chunk := chunks[i];
      if chunk.AIChunk? {
        var content := chunk.content;
        if content == Common.Open {
          inThink := true;
        } else if content == Common.Close {
          inThink := false;
          isFirstLine := true;
        } else {
          if !inThink {
            if isFirstLine && content == "\n\n" {
              isFirstLine := false;
            } else {
              out := out + [content];
            }
          }
        }
      }
      assert FilterState(inThink, isFirstLine) == Next(st, chunk);
      assert out == before + Yield(st, chunk);
      Assoc(before, Yield(st, chunk), Filtered(Next(st, chunk), chunks[i + 1..]));
    }
  }

  /** Filtering from position `i` is the yield of chunk `i` followed by filtering from `i + 1`. */
  lemma FilteredDrop(st: FilterState, chunks: seq<Chunk>, i: nat)
    requires i < |chunks|
    ensures Filtered(st, chunks[i..]) == Yield(st, chunks[i]) + Filtered(Next(st, chunks[i]), chunks[i + 1..])
  {
    assert chunks[i..][1..] == chunks[i + 1..];
  }

  lemma Assoc<T>(a: seq<T>, b: seq<T>, c: seq<T>)
    ensures (a + b) + c == a + (b + c)
  {
  }

  // ---------------------------------------------------------------- properties

  /** The texts of the AI chunks, in order. */
  function Contents(chunks: seq<Chunk>): seq<string> {
    if chunks == [] then []
    else (if chunks[0].AIChunk? then [chunks[0].content] else []) + Contents(chunks[1..])
  }

  /** The AI chunks alone. */
  function AIOnly(chunks: seq<Chunk>): seq<Chunk> {
    if chunks == [] then []
    else (if chunks[0].AIChunk? then [chunks[0]] else []) + AIOnly(chunks[1..])
  }

  /** `xs` can be obtained from `ys` by deleting elements. */
  predicate IsSubsequence(xs: seq<string>, ys: seq<string>)
    decreases |ys|
  {
    xs == [] || (ys != [] && ((xs[0] == ys[0] && IsSubsequence(xs[1..], ys[1..])) || IsSubsequence(xs, ys[1..])))
  }

  /** Chunks that are not AI messages never affect the output. */
  lemma {:induction false} OthersIgnored(st: FilterState, chunks: seq<Chunk>)
    ensures Filtered(st, chunks) == Filtered(st, AIOnly(chunks))
    decreases |chunks|
  {
    if chunks != [] {
      OthersIgnored(Next(st, chunks[0]), chunks[1..]);
      if chunks[0].AIChunk? {
        var ai := AIOnly(chunks);
        assert ai == [chunks[0]] + AIOnly(chunks[1..]);
        assert ai[0] == chunks[0] && ai[1..] == AIOnly(chunks[1..]);
        assert Filtered(st, ai) == Yield(st, chunks[0]) + Filtered(Next(st, chunks[0]), AIOnly(chunks[1..]));
      } else {
        assert Next(st, chunks[0]) == st && Yield(st, chunks[0]) == [];
        assert AIOnly(chunks) == AIOnly(chunks[1..]);
      }
    }
  }

  /** A reasoning tag is never passed on. */
  lemma {:induction false} NoTagYielded(st: FilterState, chunks: seq<Chunk>)
    ensures forall x :: x in Filtered(st, chunks) ==> x != Common.Open && x != Common.Close
    decreases |chunks|
  {
    if chunks != [] {
      NoTagYielded(Next(st, chunks[0]), chunks[1..]);
    }
  }

  /** What is passed on is the AI chunks' texts, unchanged, in order, some of them left out. */
  lemma {:induction false} FilteredIsSubsequence(st: FilterState, chunks: seq<Chunk>)
    ensures IsSubsequence(Filtered(st, chunks), Contents(chunks))
    decreases |chunks|
  {
    if chunks != [] {
      var rest := Filtered(Next(st, chunks[0]), chunks[1..]);
      FilteredIsSubsequence(Next(st, chunks[0]), chunks[1..]);
      if chunks[0].AIChunk? {
        var ys := Contents(chunks);
        assert ys == [chunks[0].content] + Contents(chunks[1..]);
        if Yield(st, chunks[0]) == [] {
          assert Filtered(st, chunks) == rest;
          SubsequenceSkip(rest, chunks[0].content, Contents(chunks[1..]));
        } else {
          var xs := Filtered(st, chunks);
          assert xs == [chunks[0].content] + rest;
          assert xs[0] == ys[0] && xs[1..] == rest && ys[1..] == Contents(chunks[1..]);
        }
      } else {
        assert Filtered(st, chunks) == rest;
        assert Contents(chunks) == Contents(chunks[1..]);
      }
    }
  }

  lemma SubsequenceSkip(xs: seq<string>, y: string, ys: seq<string>)
    requires IsSubsequence(xs, ys)
    ensures IsSubsequence(xs, [y] + ys)
  {
    assert ([y] + ys)[1..] == ys;
  }

  /** Inside a reasoning section everything is hidden until `</think>`. */
  lemma {:induction false} InThinkHides(f: bool, body: seq<Chunk>, tail: seq<Chunk>)
    requires forall c :: c in body ==> c != AIChunk(Common.Close)
    ensures Filtered(FilterState(true, f), body + tail) == Filtered(FilterState(true, f), tail)
    decreases |body|
  {
    if body != [] {
      assert body[0] in body;
      assert forall c :: c in body[1..] ==> c in body;
      assert (body + tail)[0] == body[0];
      assert (body + tail)[1..] == body[1..] + tail;
      InThinkHides(f, body[1..], tail);
    } else {
      assert body + tail == tail;
    }
  }

  /**
   * A reasoning section produces nothing, and what follows it is filtered
   * with the blank-line flag set.
   */
  lemma ThinkSectionHidden(st: FilterState, body: seq<Chunk>, rest: seq<Chunk>)
    requires forall c :: c in body ==> c != AIChunk(Common.Close)
    ensures Filtered(st, [AIChunk(Common.Open)] + body + [AIChunk(Common.Close)] + rest)
         == Filtered(FilterState(false, true), rest)
  {
    var s := [AIChunk(Common.Open)] + body + [AIChunk(Common.Close)] + rest;
    assert s[1..] == body + ([AIChunk(Common.Close)] + rest);
    InThinkHides(st.isFirstLine, body, [AIChunk(Common.Close)] + rest);
    assert ([AIChunk(Common.Close)] + rest)[1..] == rest;
  }

  /** With the blank-line flag set, chunks other than tags and `"\n\n"` pass and keep the flag. */
  lemma {:induction false} FlagSurvives(shown: seq<Chunk>, tail: seq<Chunk>)
    requires forall c :: c in shown ==> !IsTag(c) && c != AIChunk("\n\n")
    ensures Filtered(FilterState(false, true), shown + tail) == Contents(shown) + Filtered(FilterState(false, true), tail)
    decreases |shown|
  {
    if shown != [] {
      assert shown[0] in shown;
      assert forall c :: c in shown[1..] ==> c in shown;
      assert (shown + tail)[0] == shown[0];
      assert (shown + tail)[1..] == shown[1..] + tail;
      FlagSurvives(shown[1..], tail);
    } else {
      assert shown + tail == tail;
    }
  }

  /**
   * After `</think>`, the first `"\n\n"` chunk is dropped, however many other
   * chunks are passed before it, and the filter is back in its initial state.
   */
  lemma FirstBlankLineDropped(shown: seq<Chunk>, rest: seq<Chunk>)
    requires forall c :: c in shown ==> !IsTag(c) && c != AIChunk("\n\n")
    ensures Filtered(FilterState(false, true), shown + [AIChunk("\n\n")] + rest)
         == Contents(shown) + Filtered(Start, rest)
  {
    assert shown + [AIChunk("\n\n")] + rest == shown + ([AIChunk("\n\n")] + rest);
    FlagSurvives(shown, [AIChunk("\n\n")] + rest);
    assert ([AIChunk("\n\n")] + rest)[1..] == rest;
  }

  /** A stream without reasoning tags is passed on whole: every AI chunk, unchanged, `"\n\n"` included. */
  lemma {:induction false} NoTagsPassThrough(chunks: seq<Chunk>)
    requires forall c :: c in chunks ==> !IsTag(c)
    ensures Filtered(Start, chunks) == Contents(chunks)
    decreases |chunks|
  {
    if chunks != [] {
      assert chunks[0] in chunks;
      assert forall c :: c in chunks[1..] ==> c in chunks;
      NoTagsPassThrough(chunks[1..]);
    }
  }
}
