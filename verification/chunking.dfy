/** `split_text_with_overlap` and `split_column_content`: cut a text into
    windows of `chunk_size` characters whose starts are `chunk_size - overlap`
    apart. */
module Chunking {
  import opened Base
  import opened Text

  /** The default `chunk_size` and `overlap` of every chunking entry point. */
  const DefaultChunkSize: int := 800
  const DefaultOverlap: int := 100

  /** The defaults are a configuration the model covers, for any text. */
  lemma DefaultsCovered(textLength: nat)
    ensures ChunkConfigOk(textLength, DefaultChunkSize, DefaultOverlap)
  {
  }

  /** The configurations the model covers. With `overlap >= chunk_size` and a
      non-empty text the source loops forever, since `start` never grows. A
      negative `chunk_size` makes Python's slice end count from the end of
      the text, which is not modelled. */
  predicate ChunkConfigOk(textLength: nat, chunkSize: int, overlap: int) {
    0 <= chunkSize && (textLength == 0 || overlap < chunkSize)
  }

  /** The loop from offset `start` on: emit `text[start:start+chunk_size]`,
      then advance by `chunk_size - overlap`. Every chunk is a slice of at
      most `chunk_size` characters; it is non-empty when `chunk_size` is. */
  function SplitFrom(text: string, chunkSize: int, overlap: int, start: nat): (chunks: seq<string>)
    requires 0 <= chunkSize && (start >= |text| || overlap < chunkSize)
    ensures forall i :: 0 <= i < |chunks| ==> |chunks[i]| <= chunkSize
    ensures chunkSize > 0 ==> forall i :: 0 <= i < |chunks| ==> |chunks[i]| > 0
    ensures |chunks| == 0 <==> start >= |text|
    decreases |text| - start
  {
    if start >= |text| then []
    else
      var chunk := text[start..Min(start + chunkSize, |text|)];
      [chunk] + SplitFrom(text, chunkSize, overlap, start + (chunkSize - overlap))
  }

  /** `split_text_with_overlap(text, chunk_size, overlap)`. With
      `step = chunk_size - overlap`, chunk `i` is
      `text[i*step : i*step + chunk_size]` (cut short at the end of the
      text; `Offset(i, step)` is `i * step` by `OffsetIsProduct`); the number of chunks `n` is `ceil(len(text) / step)`, that is
      `(n - 1) * step < len(text) <= n * step`, and there is none for the
      empty text; with a non-negative overlap, the first `step` characters of
      the chunks put back together give the text again. */
  function SplitTextWithOverlap(text: string, chunkSize: int, overlap: int): (chunks: seq<string>)
    requires ChunkConfigOk(|text|, chunkSize, overlap)
    ensures forall i :: 0 <= i < |chunks| ==> |chunks[i]| <= chunkSize
    ensures |chunks| == 0 <==> |text| == 0
    ensures |text| > 0 ==>
      (|chunks| - 1) * (chunkSize - overlap) < |text| <= |chunks| * (chunkSize - overlap)
    ensures forall i: nat :: i < |chunks| ==> IsWindow(chunks, text, chunkSize, overlap, i)
    ensures 0 <= overlap ==> Reassemble(chunks, chunkSize - overlap) == text
  {
    var chunks := SplitFrom(text, chunkSize, overlap, 0);
    ChunkCountStart(text, chunkSize, overlap);
    ChunksAtStart(text, chunkSize, overlap);
    ReassembleStart(text, chunkSize, overlap);
    chunks
  }

  lemma ChunkCountStart(text: string, chunkSize: int, overlap: int)
    requires ChunkConfigOk(|text|, chunkSize, overlap)
    ensures var n := |SplitFrom(text, chunkSize, overlap, 0)|;
      |text| > 0 ==> (n - 1) * (chunkSize - overlap) < |text| <= n * (chunkSize - overlap)
  {
    if |text| > 0 {
      ChunkCountFrom(text, chunkSize, overlap, 0);
    }
  }

  lemma ChunksAtStart(text: string, chunkSize: int, overlap: int)
    requires ChunkConfigOk(|text|, chunkSize, overlap)
    ensures var chunks := SplitFrom(text, chunkSize, overlap, 0);
      forall i: nat :: i < |chunks| ==> IsWindow(chunks, text, chunkSize, overlap, i)
  {
    var chunks := SplitFrom(text, chunkSize, overlap, 0);
    forall i: nat | i < |chunks|
      ensures IsWindow(chunks, text, chunkSize, overlap, i)
    {
      ChunkAtFrom(text, chunkSize, overlap, 0, i);
    }
  }

  /** Chunk `i` is the slice of `text` that starts `i` steps of
      `chunkSize - overlap` in and is at most `chunkSize` long. */
  predicate IsWindow(chunks: seq<string>, text: string, chunkSize: int, overlap: int, i: nat)
    requires i < |chunks|
  {
    var start := Offset(i, chunkSize - overlap);
    0 <= chunkSize && 0 <= start < |text|
    && chunks[i] == text[start..Min(start + chunkSize, |text|)]
  }

  lemma ReassembleStart(text: string, chunkSize: int, overlap: int)
    requires ChunkConfigOk(|text|, chunkSize, overlap)
    ensures 0 <= overlap ==> Reassemble(SplitFrom(text, chunkSize, overlap, 0), chunkSize - overlap) == text
  {
    if 0 <= overlap && |text| > 0 {
      ReassembleFrom(text, chunkSize, overlap, 0);
    }
  }

  /** The first `step` characters of every chunk, concatenated. */
  function Reassemble(chunks: seq<string>, step: int): string
    decreases |chunks|
  {
    if |chunks| == 0 then ""
    else chunks[0][..Min(Max(step, 0), |chunks[0]|)] + Reassemble(chunks[1..], step)
  }

  lemma StepMul(i: nat, step: int)
    requires i > 0
    ensures (i - 1) * step + step == i * step
  {
  }

  /** `i` steps of length `step`, added up one at a time. */
  function Offset(i: nat, step: int): int
    decreases i
  {
    if i == 0 then 0 else Offset(i - 1, step) + step
  }

  lemma {:induction false} OffsetIsProduct(i: nat, step: int)
    ensures Offset(i, step) == i * step
    decreases i
  {
    if i > 0 {
      OffsetIsProduct(i - 1, step);
      StepMul(i, step);
    }
  }

  /** Chunk `i` from offset `start` begins `i` steps further on. */
  lemma {:induction false} ChunkAtFrom(text: string, chunkSize: int, overlap: int, start: nat, i: nat)
    requires 0 <= chunkSize && overlap < chunkSize
    requires i < |SplitFrom(text, chunkSize, overlap, start)|
    ensures 0 <= start + Offset(i, chunkSize - overlap) < |text|
    ensures SplitFrom(text, chunkSize, overlap, start)[i] ==
      text[start + Offset(i, chunkSize - overlap)..Min(start + Offset(i, chunkSize - overlap) + chunkSize, |text|)]
    decreases i
  {
    var step := chunkSize - overlap;
    if i > 0 {
      var rest := SplitFrom(text, chunkSize, overlap, start + step);
      assert SplitFrom(text, chunkSize, overlap, start)[i] == rest[i - 1];
      ChunkAtFrom(text, chunkSize, overlap, start + step, i - 1);
      OffsetShift(i, step);
    }
  }

  lemma {:induction false} OffsetShift(i: nat, step: int)
    requires i > 0
    ensures Offset(i, step) == step + Offset(i - 1, step)
  {
  }

  /** From offset `start` the `n` chunks satisfy
      `(n - 1) * step < len(text) - start <= n * step`. */
  lemma {:induction false} ChunkCountFrom(text: string, chunkSize: int, overlap: int, start: nat)
    requires 0 <= chunkSize && overlap < chunkSize && start < |text|
    ensures var n := |SplitFrom(text, chunkSize, overlap, start)|;
      (n - 1) * (chunkSize - overlap) < |text| - start <= n * (chunkSize - overlap)
    decreases |text| - start
  {
    var step := chunkSize - overlap;
    var n := |SplitFrom(text, chunkSize, overlap, start)|;
    if start + step < |text| {
      ChunkCountFrom(text, chunkSize, overlap, start + step);
      assert n - 1 == |SplitFrom(text, chunkSize, overlap, start + step)|;
      StepMul(n, step);
      StepMul(n - 1, step);
    }
  }

  /** From offset `start`, the chunks' first `step` characters rebuild the
      rest of the text. */
  lemma {:induction false} ReassembleFrom(text: string, chunkSize: int, overlap: int, start: nat)
    requires 0 <= overlap < chunkSize
    ensures Reassemble(SplitFrom(text, chunkSize, overlap, start), chunkSize - overlap) ==
      text[Min(start, |text|)..]
    decreases |text| - start
  {
    var step := chunkSize - overlap;
    if start < |text| {
      var chunk := text[start..Min(start + chunkSize, |text|)];
      var rest := SplitFrom(text, chunkSize, overlap, start + step);
      var m := Min(start + step, |text|);
      calc {
        Reassemble(SplitFrom(text, chunkSize, overlap, start), step);
        { SplitFromCons(text, chunkSize, overlap, start); }
        Reassemble([chunk] + rest, step);
        { ReassembleCons(chunk, rest, step); }
        chunk[..Min(step, |chunk|)] + Reassemble(rest, step);
        { ChunkHead(text, start, chunkSize, step); }
        text[start..m] + Reassemble(rest, step);
        { ReassembleFrom(text, chunkSize, overlap, start + step); }
        text[start..m] + text[m..];
        { SliceSplit(text, start, m); }
        text[start..];
      }
    }
  }

  lemma SliceSplit(s: string, a: nat, m: nat)
    requires a <= m <= |s|
    ensures s[a..m] + s[m..] == s[a..]
  {
  }

  lemma SplitFromCons(text: string, chunkSize: int, overlap: int, start: nat)
    requires 0 <= chunkSize && overlap < chunkSize && start < |text|
    ensures SplitFrom(text, chunkSize, overlap, start) ==
      [text[start..Min(start + chunkSize, |text|)]] + SplitFrom(text, chunkSize, overlap, start + (chunkSize - overlap))
  {
  }

  lemma ReassembleCons(chunk: string, rest: seq<string>, step: int)
    requires step > 0
    ensures Reassemble([chunk] + rest, step) == chunk[..Min(step, |chunk|)] + Reassemble(rest, step)
  {
    assert ([chunk] + rest)[1..] == rest;
  }

  /** The first `step` characters of the chunk at `start`. */
  lemma ChunkHead(text: string, start: nat, chunkSize: int, step: int)
    requires start < |text| && 0 < step <= chunkSize
    ensures var c := text[start..Min(start + chunkSize, |text|)];
      c[..Min(step, |c|)] == text[start..Min(start + step, |text|)]
  {
  }

  /** Consecutive chunks overlap: chunk `i + 1` starts with the part of chunk
      `i` after its first `step` characters, which is at most `overlap`
      characters long and exactly that long when chunk `i` is full. */
  lemma ConsecutiveChunksOverlap(text: string, chunkSize: int, overlap: int, i: nat)
    requires 0 <= overlap < chunkSize
    requires i + 1 < |SplitTextWithOverlap(text, chunkSize, overlap)|
    ensures var chunks := SplitTextWithOverlap(text, chunkSize, overlap);
      && chunkSize - overlap <= |chunks[i]|
      && IsPrefix(chunks[i][chunkSize - overlap..], chunks[i + 1])
      && |chunks[i]| - (chunkSize - overlap) <= overlap
      && (|chunks[i]| == chunkSize ==> |chunks[i]| - (chunkSize - overlap) == overlap)
  {
    var chunks := SplitTextWithOverlap(text, chunkSize, overlap);
    var step := chunkSize - overlap;
    var a := Offset(i, step);
    assert Offset(i + 1, step) == a + step;
    assert IsWindow(chunks, text, chunkSize, overlap, i);
    assert IsWindow(chunks, text, chunkSize, overlap, i + 1);
    WindowsOverlap(text, a, chunkSize, step);
  }

  /** Two windows `step` apart: the first is at least `step` long and its
      part after `step` opens the second. */
  lemma WindowsOverlap(text: string, a: nat, chunkSize: int, step: int)
    requires 0 < step <= chunkSize && a + step < |text|
    ensures var c1 := text[a..Min(a + chunkSize, |text|)];
      var c2 := text[a + step..Min(a + step + chunkSize, |text|)];
      && step <= |c1|
      && IsPrefix(c1[step..], c2)
  {
    var c1 := text[a..Min(a + chunkSize, |text|)];
    var c2 := text[a + step..Min(a + step + chunkSize, |text|)];
    assert c1[step..] == text[a + step..Min(a + chunkSize, |text|)];
    assert c2[..|c1[step..]|] == text[a + step..Min(a + chunkSize, |text|)];
  }

  /** `f"【{column_name}】\n" + "\n".join(values)`. */
  function ColumnText(columnName: string, values: seq<string>): string {
    "【" + columnName + "】\n" + Join("\n", values)
  }

  /** `split_column_content(column_name, values, chunk_size, overlap)`: the
      same loop over the bracketed column name, a line break and the values
      one per line. That text is never empty, so there is always a chunk, the
      first one opens with the bracketed name (as far as it fits), chunk `i`
      is the window of that text `i` steps in, there are
      `ceil(len(text) / step)` of them, and with a non-negative overlap the
      chunks rebuild the text. */
  function SplitColumnContent(columnName: string, values: seq<string>, chunkSize: int, overlap: int)
    : (chunks: seq<string>)
    requires 0 <= chunkSize && overlap < chunkSize
    ensures |chunks| >= 1
    ensures forall i :: 0 <= i < |chunks| ==> |chunks[i]| <= chunkSize
    ensures var text := ColumnText(columnName, values);
      chunks[0] == text[..Min(chunkSize, |text|)]
    ensures forall i: nat :: i < |chunks| ==>
      IsWindow(chunks, ColumnText(columnName, values), chunkSize, overlap, i)
    ensures var text := ColumnText(columnName, values);
      (|chunks| - 1) * (chunkSize - overlap) < |text| <= |chunks| * (chunkSize - overlap)
    ensures 0 <= overlap ==> Reassemble(chunks, chunkSize - overlap) == ColumnText(columnName, values)
  {
    var text := ColumnText(columnName, values);
    var chunks := SplitTextWithOverlap(text, chunkSize, overlap);
    assert IsWindow(chunks, text, chunkSize, overlap, 0);
    chunks
  }
}
