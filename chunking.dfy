/**
 * The sliding-window chunker of rag/chunking.py.
 *
 * Every document is cut into windows text[start .. min(start + chunkSize, n)],
 * with `start` running 0, s, 2s, ... while it is below n, where the stride s is
 * chunkSize - overlap. Each window becomes a chunk tagged with its document's
 * path; the chunks of all documents are concatenated in document order.
 */
module Chunking {

  datatype Document = Document(path: string, content: string)

  datatype Chunk = Chunk(text: string, source: string)

  function Min(a: int, b: int): int
  {
    if a <= b then a else b
  }

  /** Where the window starts after j steps of the loop: 0, s, 2s, ... */
  function Offset(j: nat, stride: nat): nat
  {
    if j == 0 then 0 else Offset(j - 1, stride) + stride
  }

  /** The start after j steps is j * s. */
  lemma {:induction false} OffsetIsProduct(j: nat, stride: nat)
    ensures Offset(j, stride) == j * stride
  {
    if j > 0 {
      OffsetIsProduct(j - 1, stride);
      assert j * stride == (j - 1) * stride + stride;
    }
  }

  /** The number of window starts 0, s, 2s, ... that lie below n. */
  function WindowCount(n: nat, stride: nat): nat
    requires stride > 0
    decreases n
  {
    if n == 0 then 0 else if n <= stride then 1 else 1 + WindowCount(n - stride, stride)
  }

  /** Window j starts inside the text exactly when j is below the window count. */
  lemma {:induction false} StartInside(n: nat, stride: nat, j: nat)
    requires stride > 0
    ensures Offset(j, stride) < n <==> j < WindowCount(n, stride)
    decreases j
  {
    if j > 0 && n > stride {
      StartInside(n - stride, stride, j - 1);
    }
  }

  /** The window count is ceil(n / s). */
  lemma WindowCountIsCeiling(n: nat, stride: nat)
    requires stride > 0
    ensures WindowCount(n, stride) == (n + stride - 1) / stride
  {
    var c, r := (n + stride - 1) / stride, (n + stride - 1) % stride;
    assert c * stride + r == n + stride - 1;
    StartInside(n, stride, c);
    OffsetIsProduct(c, stride);
    if c > 0 {
      StartInside(n, stride, c - 1);
      OffsetIsProduct(c - 1, stride);
      assert (c - 1) * stride == c * stride - stride;
    } else {
      StartInside(n, stride, 0);
    }
  }

  /** The text of window j: text[Offset(j) : min(Offset(j) + chunkSize, n)]. */
  function Window(text: string, chunkSize: nat, stride: nat, j: nat): string
    requires chunkSize > 0 && stride > 0
    requires j < WindowCount(|text|, stride)
  {
    StartInside(|text|, stride, j);
    text[Offset(j, stride) .. Min(Offset(j, stride) + chunkSize, |text|)]
  }

  /** The chunks the loop emits for one document, as a closed form over the window index. */
  function DocumentChunks(doc: Document, chunkSize: int, overlap: int): seq<Chunk>
    requires 0 < chunkSize && overlap < chunkSize
  {
    var stride := chunkSize - overlap;
    seq(WindowCount(|doc.content|, stride),
        j requires 0 <= j < WindowCount(|doc.content|, stride) =>
          Chunk(Window(doc.content, chunkSize, stride, j), doc.path))
  }

  /** The chunks of all documents, in document order, then window order. */
  function ChunkDocuments(documents: seq<Document>, chunkSize: int, overlap: int): seq<Chunk>
    requires 0 < chunkSize && overlap < chunkSize
  {
    if documents == [] then []
    else ChunkDocuments(documents[..|documents| - 1], chunkSize, overlap)
         + DocumentChunks(documents[|documents| - 1], chunkSize, overlap)
  }

  /**
   * chunk_text: the source's loop, step by step. The source never checks
   * overlap < chunk_size; with a stride of zero or less its loop never ends,
   * so that is this method's precondition.
   */
  method ChunkText(documents: seq<Document>, chunkSize: int, overlap: int) returns (chunks: seq<Chunk>)
    requires 0 < chunkSize && overlap < chunkSize
    ensures chunks == ChunkDocuments(documents, chunkSize, overlap)
  {
    chunks := [];
    for d := 0 to |documents|
      invariant chunks == ChunkDocuments(documents[..d], chunkSize, overlap)
    {
      chunks := AppendWindows(chunks, documents[d], chunkSize, overlap);
      assert documents[..d + 1][..d] == documents[..d];
    }
    assert documents[..|documents|] == documents;
  }

  /** The body of chunk_text's per-document loop: append the document's windows to `chunks`. */
  method AppendWindows(chunks: seq<Chunk>, doc: Document, chunkSize: int, overlap: int) returns (out: seq<Chunk>)
    requires 0 < chunkSize && overlap < chunkSize
    ensures out == chunks + DocumentChunks(doc, chunkSize, overlap)
  {
    var text := doc.content;
    var totalLen := |text|;
    ghost var stride: nat := chunkSize - overlap;
    ghost var all := DocumentChunks(doc, chunkSize, overlap);
    ghost var j: nat := 0;
    out := chunks;
    var start := 0;
    while start < totalLen
      invariant start == Offset(j, stride)
      invariant j <= |all|
      invariant out == chunks + all[..j]
      decreases totalLen - start
    {
      StartInside(totalLen, stride, j);
      WindowAt(doc, chunkSize, overlap, j);
      var end := Min(start + chunkSize, totalLen);
      assert Chunk(text[start..end], doc.path) == all[j];
      out := out + [Chunk(text[start..end], doc.path)];
      assert all[..j + 1] == all[..j] + [all[j]];
      assert out == chunks + all[..j + 1];
      start := start + (chunkSize - overlap);
      j := j + 1;
      if start >= totalLen {
        break;
      }
    }
    StartInside(totalLen, stride, j);
    assert all[..j] == all;
  }

  /** Chunk j of a document is the window starting at Offset(j). */
  lemma WindowAt(doc: Document, chunkSize: int, overlap: int, j: nat)
    requires 0 < chunkSize && overlap < chunkSize
    requires j < |DocumentChunks(doc, chunkSize, overlap)|
    ensures var a := Offset(j, chunkSize - overlap);
      && a < |doc.content|
      && DocumentChunks(doc, chunkSize, overlap)[j] == Chunk(doc.content[a..Min(a + chunkSize, |doc.content|)], doc.path)
  {
    StartInside(|doc.content|, chunkSize - overlap, j);
  }

  /** The text is a contiguous piece of the content. */
  ghost predicate IsSliceOf(text: string, content: string)
  {
    exists a, b :: 0 <= a <= b <= |content| && text == content[a..b]
  }

  /** Chunk j of a document is text[j*s : min(j*s + chunkSize, n)], tagged with the path, and j*s < n. */
  lemma ChunkWindow(doc: Document, chunkSize: int, overlap: int, j: nat)
    requires 0 < chunkSize && overlap < chunkSize
    requires j < |DocumentChunks(doc, chunkSize, overlap)|
    ensures var s, n := chunkSize - overlap, |doc.content|;
      && j * s < n
      && DocumentChunks(doc, chunkSize, overlap)[j] == Chunk(doc.content[j * s .. Min(j * s + chunkSize, n)], doc.path)
  {
    StartInside(|doc.content|, chunkSize - overlap, j);
    OffsetIsProduct(j, chunkSize - overlap);
  }

  /**
   * Empty content gives no chunk (whitespace-only content is chunked like any
   * other); otherwise the count k is the one with (k - 1) * s < n <= k * s.
   */
  lemma ChunkCount(doc: Document, chunkSize: int, overlap: int)
    requires 0 < chunkSize && overlap < chunkSize
    ensures var k, n, s := |DocumentChunks(doc, chunkSize, overlap)|, |doc.content|, chunkSize - overlap;
      (k == 0 <==> n == 0) && (n > 0 ==> (k - 1) * s < n <= k * s)
  {
    var k, n, s := |DocumentChunks(doc, chunkSize, overlap)|, |doc.content|, chunkSize - overlap;
    StartInside(n, s, 0);
    StartInside(n, s, k);
    OffsetIsProduct(k, s);
    if k > 0 {
      StartInside(n, s, k - 1);
      OffsetIsProduct(k - 1, s);
    }
  }

  /**
   * A document gives a single chunk exactly when it is non-empty and no longer
   * than the stride: shorter than chunkSize is not enough.
   */
  lemma SingleChunkIff(doc: Document, chunkSize: int, overlap: int)
    requires 0 < chunkSize && overlap < chunkSize
    ensures |DocumentChunks(doc, chunkSize, overlap)| == 1 <==> 0 < |doc.content| <= chunkSize - overlap
  {
    var n, s := |doc.content|, chunkSize - overlap;
    StartInside(n, s, 0);
    StartInside(n, s, 1);
  }

  /** Every chunk carries its document's path and holds between 1 and chunkSize characters. */
  lemma ChunkBounds(doc: Document, chunkSize: int, overlap: int)
    requires 0 < chunkSize && overlap < chunkSize
    ensures forall c :: c in DocumentChunks(doc, chunkSize, overlap) ==>
              c.source == doc.path && 0 < |c.text| <= chunkSize && IsSliceOf(c.text, doc.content)
  {
    var cs, n, s := DocumentChunks(doc, chunkSize, overlap), |doc.content|, chunkSize - overlap;
    forall j | 0 <= j < |cs|
      ensures cs[j].source == doc.path && 0 < |cs[j].text| <= chunkSize && IsSliceOf(cs[j].text, doc.content)
    {
      StartInside(n, s, j);
      var a := Offset(j, s);
      assert cs[j].text == doc.content[a..Min(a + chunkSize, n)];
    }
  }

  /** With a non-negative overlap the last chunk ends at the end of the document. */
  lemma LastChunkEndsAtEnd(doc: Document, chunkSize: int, overlap: int)
    requires 0 <= overlap < chunkSize
    requires |doc.content| > 0
    ensures var cs, s := DocumentChunks(doc, chunkSize, overlap), chunkSize - overlap;
      |cs| > 0 && (|cs| - 1) * s + |cs[|cs| - 1].text| == |doc.content|
  {
    var cs, n, s := DocumentChunks(doc, chunkSize, overlap), |doc.content|, chunkSize - overlap;
    StartInside(n, s, 0);
    var j := |cs| - 1;
    StartInside(n, s, j);
    StartInside(n, s, j + 1);
    OffsetIsProduct(j, s);
    var a := Offset(j, s);
    assert cs[j].text == doc.content[a..Min(a + chunkSize, n)];
  }

  /**
   * With a non-negative overlap the windows cover the document: character p
   * lies in the window j with j*s <= p < (j+1)*s, at offset p - j*s of that chunk.
   */
  lemma Coverage(doc: Document, chunkSize: int, overlap: int, p: nat)
    requires 0 <= overlap < chunkSize
    requires p < |doc.content|
    ensures var cs, s := DocumentChunks(doc, chunkSize, overlap), chunkSize - overlap;
      exists j :: 0 <= j < |cs| && j * s <= p < j * s + |cs[j].text| && cs[j].text[p - j * s] == doc.content[p]
  {
    var cs, n, s := DocumentChunks(doc, chunkSize, overlap), |doc.content|, chunkSize - overlap;
    var j := WindowOf(p, s);
    OffsetIsProduct(j, s);
    StartInside(n, s, j);
    WindowAt(doc, chunkSize, overlap, j);
    assert j * s <= p < j * s + |cs[j].text|;
  }

  /** The step j at which the window start passes over position p. */
  lemma {:induction false} WindowOf(p: nat, stride: nat) returns (j: nat)
    requires stride > 0
    ensures Offset(j, stride) <= p < Offset(j, stride) + stride
    decreases p
  {
    if p < stride {
      j := 0;
    } else {
      var i := WindowOf(p - stride, stride);
      j := i + 1;
    }
  }

  /**
   * Consecutive chunks overlap: what chunk j holds past the stride is the start
   * of chunk j + 1. The shared part is exactly `overlap` characters long unless
   * chunk j + 1 is shorter than that, in which case chunk j + 1 lies wholly
   * inside chunk j.
   */
  lemma ConsecutiveOverlap(doc: Document, chunkSize: int, overlap: int, j: nat)
    requires 0 <= overlap < chunkSize
    requires j + 1 < |DocumentChunks(doc, chunkSize, overlap)|
    ensures var cs, s := DocumentChunks(doc, chunkSize, overlap), chunkSize - overlap;
      && s <= |cs[j].text|
      && |cs[j].text| - s == Min(overlap, |cs[j + 1].text|)
      && cs[j + 1].text[..|cs[j].text| - s] == cs[j].text[s..]
      && (|cs[j + 1].text| <= overlap ==> cs[j + 1].text == cs[j].text[s..])
  {
    var s := chunkSize - overlap;
    WindowAt(doc, chunkSize, overlap, j);
    WindowAt(doc, chunkSize, overlap, j + 1);
    ShiftedWindows(doc.content, Offset(j, s), s, chunkSize);
  }

  /** Two windows s apart, as slices: the second starts with the first's part past s. */
  lemma ShiftedWindows(text: string, a: nat, s: nat, size: nat)
    requires 0 < s <= size && a + s < |text|
    ensures var n := |text|;
      var b, b' := Min(a + size, n), Min(a + s + size, n);
      && s <= b - a
      && b - a - s == Min(size - s, b' - (a + s))
      && text[a + s..b'][..b - a - s] == text[a..b][s..]
      && (b' - (a + s) <= size - s ==> text[a + s..b'] == text[a..b][s..])
  {
    var n := |text|;
    var b, b' := Min(a + size, n), Min(a + s + size, n);
    assert text[a..b][s..] == text[a + s..b];
    assert text[a + s..b'][..b - a - s] == text[a + s..b];
  }

  /** The worked case: "AAAABBBB" with chunk size 4 and overlap 2 gives four chunks, the last one short. */
  lemma WorkedExample(path: string)
    ensures DocumentChunks(Document(path, "AAAABBBB"), 4, 2)
            == [Chunk("AAAA", path), Chunk("AABB", path), Chunk("BBBB", path), Chunk("BB", path)]
  {
    var doc := Document(path, "AAAABBBB");
    assert WindowCount(2, 2) == 1 && WindowCount(4, 2) == 2 && WindowCount(6, 2) == 3 && WindowCount(8, 2) == 4;
    assert Offset(1, 2) == 2 && Offset(2, 2) == 4 && Offset(3, 2) == 6;
    var cs := DocumentChunks(doc, 4, 2);
    assert |cs| == 4;
    assert cs[0] == Chunk(doc.content[0..4], path) == Chunk("AAAA", path);
    assert cs[1] == Chunk(doc.content[2..6], path) == Chunk("AABB", path);
    assert cs[2] == Chunk(doc.content[4..8], path) == Chunk("BBBB", path);
    assert cs[3] == Chunk(doc.content[6..8], path) == Chunk("BB", path);
  }

  /**
   * The loop's start after k executions of `start += chunk_size - overlap`,
   * for any integer step (Offset is the same for a positive one).
   */
  function StartAfter(k: nat, step: int): int
  {
    if k == 0 then 0 else StartAfter(k - 1, step) + step
  }

  /** For a non-negative step, StartAfter is the Offset the windows are built on. */
  lemma {:induction false} StartAfterIsOffset(k: nat, stride: nat)
    ensures StartAfter(k, stride) == Offset(k, stride)
  {
    if k > 0 {
      StartAfterIsOffset(k - 1, stride);
    }
  }

  /**
   * Why overlap < chunkSize is required: with chunkSize <= overlap the step is
   * zero or negative, so the start after any number k of steps is still below
   * n, the loop's guard never fails and its break never fires.
   */
  lemma {:induction false} StalledWindow(n: nat, chunkSize: int, overlap: int, k: nat)
    requires chunkSize <= overlap && n > 0
    ensures StartAfter(k, chunkSize - overlap) <= 0 < n
  {
    if k > 0 {
      StalledWindow(n, chunkSize, overlap, k - 1);
    }
  }

  /**
   * The chunks of document d form one contiguous block of the output, in
   * window order, placed after the chunks of all earlier documents.
   */
  lemma {:induction false} ChunkDocumentsBlock(documents: seq<Document>, chunkSize: int, overlap: int, d: nat, j: nat)
    requires 0 < chunkSize && overlap < chunkSize
    requires d < |documents| && j < |DocumentChunks(documents[d], chunkSize, overlap)|
    ensures var offset := |ChunkDocuments(documents[..d], chunkSize, overlap)|;
      && offset + j < |ChunkDocuments(documents, chunkSize, overlap)|
      && ChunkDocuments(documents, chunkSize, overlap)[offset + j] == DocumentChunks(documents[d], chunkSize, overlap)[j]
  {
    var init := documents[..|documents| - 1];
    if d < |documents| - 1 {
      assert init[..d] == documents[..d] && init[d] == documents[d];
      ChunkDocumentsBlock(init, chunkSize, overlap, d, j);
    } else {
      assert init == documents[..d];
    }
  }

  /**
   * Chunks from different documents never merge: every output chunk is a
   * non-empty piece of one document's content, at most chunkSize long, tagged
   * with that document's path.
   */
  lemma {:induction false} ChunkDocumentsSources(documents: seq<Document>, chunkSize: int, overlap: int, i: nat)
    requires 0 < chunkSize && overlap < chunkSize
    requires i < |ChunkDocuments(documents, chunkSize, overlap)|
    ensures var c := ChunkDocuments(documents, chunkSize, overlap)[i];
      exists d :: 0 <= d < |documents| && c.source == documents[d].path
        && 0 < |c.text| <= chunkSize && IsSliceOf(c.text, documents[d].content)
  {
    var init, last := documents[..|documents| - 1], documents[|documents| - 1];
    var c := ChunkDocuments(documents, chunkSize, overlap)[i];
    var head := ChunkDocuments(init, chunkSize, overlap);
    if i < |head| {
      ChunkDocumentsSources(init, chunkSize, overlap, i);
      var d :| 0 <= d < |init| && c.source == init[d].path
        && 0 < |c.text| <= chunkSize && IsSliceOf(c.text, init[d].content);
      assert documents[d] == init[d];
    } else {
      ChunkBounds(last, chunkSize, overlap);
      assert c == DocumentChunks(last, chunkSize, overlap)[i - |head|];
      assert documents[|documents| - 1] == last;
    }
  }
}
