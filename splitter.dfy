/** The fixed-window text splitter `split_text`: a cursor `start` walks the
    text, each pass emits the window `text[start:start + size]` (clamped to
    the text's end, as Python slicing does) and moves the cursor to
    `start + size - overlap`. */
module Splitter {

  /** The defaults of `split_text`, which the chunk assembly relies on. */
  const DefaultChunkSize: int := 1000
  const DefaultChunkOverlap: int := 20

  function Min(a: int, b: int): int
  {
    if a <= b then a else b
  }

  /** What the source needs to terminate: every pass moves the cursor forward
      by `size - overlap`, and a positive `size` keeps the slices' bounds
      non-negative. */
  predicate ValidParams(size: int, overlap: int)
  {
    0 < size && overlap < size
  }

  /** Python's `text[start:end]` for `0 <= start`, `start <= end`. */
  function Slice(text: string, start: nat, end: int): string
    requires start <= end
  {
    if start >= |text| then [] else if end >= |text| then text[start..] else text[start..end]
  }

  /** The chunks the loop emits from the moment its cursor is at `start`. */
  function SplitFrom(text: string, size: int, overlap: int, start: nat): seq<string>
    requires ValidParams(size, overlap)
    decreases |text| - start
  {
    if start >= |text| then []
    else [Slice(text, start, start + size)] + SplitFrom(text, size, overlap, start + size - overlap)
  }

  /** The chunks of `split_text(text, size, overlap)`. */
  function Split(text: string, size: int, overlap: int): seq<string>
    requires ValidParams(size, overlap)
  {
    SplitFrom(text, size, overlap, 0)
  }

  /** The cursor `start` on the loop's i-th pass (counting from 0): i * (size - overlap). */
  function ChunkStart(size: int, overlap: int, i: nat): (start: nat)
    requires ValidParams(size, overlap)
  {
    if i == 0 then 0 else ChunkStart(size, overlap, i - 1) + size - overlap
  }

  lemma {:induction false} ChunkStartIsProduct(size: int, overlap: int, i: nat)
    requires ValidParams(size, overlap)
    ensures ChunkStart(size, overlap, i) == i * (size - overlap)
  {
    if i > 0 {
      ChunkStartIsProduct(size, overlap, i - 1);
    }
  }

  /** ceil(n / step): the number of cursor positions 0, step, 2*step, ... below n. */
  function ChunkCount(n: int, step: int): nat
    requires 0 < step
  {
    if n <= 0 then 0 else (n + step - 1) / step
  }

  /** `split_text` itself. */
  method SplitText(text: string, size: int, overlap: int) returns (chunks: seq<string>)
    requires ValidParams(size, overlap)
    ensures chunks == Split(text, size, overlap)
    ensures |chunks| == ChunkCount(|text|, size - overlap)
  {
    chunks := [];
    var start: nat := 0;
    while start < |text|
      invariant chunks + SplitFrom(text, size, overlap, start) == Split(text, size, overlap)
      decreases |text| - start
    {
      var end := start + size;
      ghost var rest := SplitFrom(text, size, overlap, end - overlap);
      assert SplitFrom(text, size, overlap, start) == [Slice(text, start, end)] + rest;
      assert chunks + ([Slice(text, start, end)] + rest) == (chunks + [Slice(text, start, end)]) + rest;
      chunks := chunks + [Slice(text, start, end)];
      start := end - overlap;
    }
    assert chunks + [] == chunks;
    SplitCount(text, size, overlap);
  }

  lemma {:induction false} MulAtLeast(k: int, d: int)
    requires 1 <= k && 0 < d
    ensures k * d >= d
    decreases k
  {
    if k > 1 {
      MulAtLeast(k - 1, d);
      assert k * d == (k - 1) * d + d;
    }
  }

  /** Quotient and remainder determine the division. */
  lemma DivUnique(x: int, d: int, q: int, r: int)
    requires 0 < d && 0 <= r < d && x == q * d + r
    ensures x / d == q
  {
    var q', r' := x / d, x % d;
    assert x == q' * d + r';
    assert (q - q') * d == r' - r;
    if q > q' {
      MulAtLeast(q - q', d);
    } else if q' > q {
      MulAtLeast(q' - q, d);
    }
  }

  /** One cursor position below m, and the rest are those below m - step. */
  lemma ChunkCountStep(m: int, step: int)
    requires 0 < m && 0 < step
    ensures ChunkCount(m, step) == 1 + ChunkCount(m - step, step)
  {
    var q, r := (m - 1) / step, (m - 1) % step;
    assert m - 1 == q * step + r;
    DivUnique(m + step - 1, step, q + 1, r);
    if m > step {
      DivUnique(m - 1, step, q, r);
    } else {
      DivUnique(m - 1, step, 0, m - 1);
    }
  }

  lemma {:induction false} SplitFromCount(text: string, size: int, overlap: int, start: nat)
    requires ValidParams(size, overlap)
    ensures |SplitFrom(text, size, overlap, start)| == ChunkCount(|text| - start, size - overlap)
    decreases |text| - start
  {
    var step := size - overlap;
    if start < |text| {
      SplitFromCount(text, size, overlap, start + step);
      ChunkCountStep(|text| - start, step);
    }
  }

  /** `split_text` yields no chunk for the empty text and ceil(len(text) / (size - overlap))
      chunks otherwise. */
  lemma SplitCount(text: string, size: int, overlap: int)
    requires ValidParams(size, overlap)
    ensures |Split(text, size, overlap)| == ChunkCount(|text|, size - overlap)
    ensures Split(text, size, overlap) == [] <==> text == []
  {
    SplitFromCount(text, size, overlap, 0);
  }

  lemma {:induction false} SplitFromAt(text: string, size: int, overlap: int, start: nat, i: nat)
    requires ValidParams(size, overlap)
    requires i < |SplitFrom(text, size, overlap, start)|
    ensures start + ChunkStart(size, overlap, i) < |text|
    ensures SplitFrom(text, size, overlap, start)[i]
            == Slice(text, start + ChunkStart(size, overlap, i), start + ChunkStart(size, overlap, i) + size)
    decreases i
  {
    var next := start + size - overlap;
    var chunks, rest := SplitFrom(text, size, overlap, start), SplitFrom(text, size, overlap, next);
    assert start < |text| && chunks == [Slice(text, start, start + size)] + rest;
    if i > 0 {
      SplitFromAt(text, size, overlap, next, i - 1);
      assert chunks[i] == rest[i - 1];
    }
  }

  /** Chunk i is the slice of the text from the i-th cursor position
      i * (size - overlap) to that position plus `size` (clamped to the text's
      end), so every chunk is a non-empty contiguous piece of the text of at
      most `size` characters. */
  lemma SplitChunks(text: string, size: int, overlap: int)
    requires ValidParams(size, overlap)
    ensures forall i :: 0 <= i < |Split(text, size, overlap)| ==>
              && ChunkStart(size, overlap, i) < |text|
              && Split(text, size, overlap)[i]
                 == Slice(text, ChunkStart(size, overlap, i), ChunkStart(size, overlap, i) + size)
              && 0 < |Split(text, size, overlap)[i]| <= size
  {
    forall i | 0 <= i < |Split(text, size, overlap)|
      ensures ChunkStart(size, overlap, i) < |text|
      ensures Split(text, size, overlap)[i]
              == Slice(text, ChunkStart(size, overlap, i), ChunkStart(size, overlap, i) + size)
      ensures 0 < |Split(text, size, overlap)[i]| <= size
    {
      SplitFromAt(text, size, overlap, 0, i);
    }
  }

  /** Two consecutive chunks share exactly the characters from the later one's
      start to the earlier one's end: the earlier chunk minus its first
      `size - overlap` characters is the later chunk's first
      min(overlap, its length) characters. */
  lemma SplitOverlap(text: string, size: int, overlap: int, i: nat)
    requires ValidParams(size, overlap) && 0 <= overlap
    requires i + 1 < |Split(text, size, overlap)|
    ensures size - overlap <= |Split(text, size, overlap)[i]|
    ensures Split(text, size, overlap)[i][size - overlap..]
            == Split(text, size, overlap)[i + 1][..Min(overlap, |Split(text, size, overlap)[i + 1]|)]
  {
    var chunks := Split(text, size, overlap);
    SplitFromAt(text, size, overlap, 0, i);
    SplitFromAt(text, size, overlap, 0, i + 1);
    var s0, s1 := ChunkStart(size, overlap, i), ChunkStart(size, overlap, i + 1);
    assert s1 == s0 + size - overlap;
    var e0 := if s0 + size >= |text| then |text| else s0 + size;
    var e1 := if s1 + size >= |text| then |text| else s1 + size;
    assert chunks[i] == text[s0..e0] && chunks[i + 1] == text[s1..e1];
    assert Min(overlap, |chunks[i + 1]|) == e0 - s1;
    WindowsOverlap(text, s0, e0, s1, e1);
  }

  /** Two windows of one text, the second starting inside the first and
      ending no earlier: the first's tail from the second's start is the
      second's head up to the first's end. */
  lemma WindowsOverlap(text: string, s0: nat, e0: nat, s1: nat, e1: nat)
    requires s0 <= s1 <= e0 <= e1 <= |text|
    ensures text[s0..e0][s1 - s0..] == text[s1..e1][..e0 - s1]
  {
    assert text[s0..e0][s1 - s0..] == text[s1..e0];
    assert text[s1..e1][..e0 - s1] == text[s1..e0];
  }

  /** Non-empty text gives a single chunk exactly when it is no longer than
      `size - overlap`; with a non-negative overlap that chunk is the whole text. */
  lemma SplitSingle(text: string, size: int, overlap: int)
    requires ValidParams(size, overlap)
    requires text != []
    ensures |Split(text, size, overlap)| == 1 <==> |text| <= size - overlap
    ensures 0 <= overlap && |text| <= size - overlap ==> Split(text, size, overlap) == [text]
  {
    var rest := SplitFrom(text, size, overlap, size - overlap);
    assert Split(text, size, overlap) == [Slice(text, 0, size)] + rest;
    assert rest == [] <==> |text| <= size - overlap;
    if 0 <= overlap && |text| <= size - overlap {
      assert Slice(text, 0, size) == text[0..|text|] == text;
    }
  }

  /** With the defaults 1000/20, a text of exactly 1000 characters gives two
      chunks, the second lying inside the first; one of 1050 characters gives
      [0, 1000) and [980, 1050). */
  lemma DefaultSplitExamples(text: string)
    ensures |text| == 1000 ==>
              Split(text, DefaultChunkSize, DefaultChunkOverlap) == [text, text[980..]]
    ensures |text| == 1050 ==>
              Split(text, DefaultChunkSize, DefaultChunkOverlap) == [text[..1000], text[980..]]
  {
    if |text| == 1000 || |text| == 1050 {
      var s := Split(text, DefaultChunkSize, DefaultChunkOverlap);
      assert SplitFrom(text, 1000, 20, 1960) == [];
      assert SplitFrom(text, 1000, 20, 980) == [Slice(text, 980, 1980)];
      assert s == [Slice(text, 0, 1000)] + SplitFrom(text, 1000, 20, 980);
      assert text[0..|text|] == text;
    }
  }

  /** Python's `chunk[overlap:]`. */
  function DropPrefix(chunk: string, overlap: nat): string
  {
    if overlap >= |chunk| then [] else chunk[overlap..]
  }

  /** Every chunk with its first `overlap` characters dropped, concatenated. */
  function JoinTails(chunks: seq<string>, overlap: nat): string
  {
    if chunks == [] then [] else DropPrefix(chunks[0], overlap) + JoinTails(chunks[1..], overlap)
  }

  /** The first chunk followed by the non-overlapping tail of every later one. */
  function Reassemble(chunks: seq<string>, overlap: nat): string
  {
    if chunks == [] then [] else chunks[0] + JoinTails(chunks[1..], overlap)
  }

  lemma {:induction false} JoinTailsFrom(text: string, size: int, overlap: nat, start: nat)
    requires ValidParams(size, overlap)
    ensures JoinTails(SplitFrom(text, size, overlap, start), overlap)
            == text[Min(start + overlap, |text|)..]
    decreases |text| - start
  {
    if start < |text| {
      var next := start + size - overlap;
      var end := if start + size >= |text| then |text| else start + size;
      var from := Min(start + overlap, |text|);
      assert start <= from <= end;
      var chunks, rest := SplitFrom(text, size, overlap, start), SplitFrom(text, size, overlap, next);
      assert Slice(text, start, start + size) == text[start..end];
      assert chunks == [text[start..end]] + rest;
      assert DropPrefix(text[start..end], overlap) == text[from..end];
      JoinTailsFrom(text, size, overlap, next);
      assert JoinTails(chunks, overlap) == text[from..end] + JoinTails(rest, overlap);
      assert text[from..] == text[from..end] + text[end..];
    }
  }

  /** Round trip: the first chunk, then every later chunk minus its first
      `overlap` characters, is the text again. */
  lemma SplitRoundTrip(text: string, size: int, overlap: int)
    requires ValidParams(size, overlap) && 0 <= overlap
    ensures Reassemble(Split(text, size, overlap), overlap) == text
  {
    if text != [] {
      JoinTailsFrom(text, size, overlap, size - overlap);
      var first := Min(size, |text|);
      assert text == text[..first] + text[first..];
    }
  }
}
