/**
 * The embedding and index steps of rag/index.py.
 *
 * The embedding service is a partial function from text to an opaque vector
 * (None stands for any exception the client raises). A flat L2 index keeps
 * its vectors in the order they were added, so position i of the index is the
 * i-th vector added. The index directory on disk holds two files, the index
 * and the chunk metadata, each of which may be present or absent.
 */
module Index {
  import opened Wrappers
  import opened Chunking

  /** text.replace("\n", " "): every line feed becomes one space, nothing else changes. */
  function ReplaceNewlines(s: string): (r: string)
    ensures |r| == |s|
    ensures forall i :: 0 <= i < |s| ==> r[i] == if s[i] == '\n' then ' ' else s[i]
  {
    if s == [] then [] else [if s[0] == '\n' then ' ' else s[0]] + ReplaceNewlines(s[1..])
  }

  /** The cleaned text holds no line feed, and cleaning it again changes nothing. */
  lemma ReplaceNewlinesClean(s: string)
    ensures '\n' !in ReplaceNewlines(s)
    ensures ReplaceNewlines(ReplaceNewlines(s)) == ReplaceNewlines(s)
  {
  }

  /** Why an embedding run stopped: the position of the first text the service failed on. */
  datatype EmbedError = EmbedError(item: nat)

  /** The outcome of get_embeddings: the full ordered list of vectors, or the first failure. */
  type Embeddings<V> = Result<seq<V>, EmbedError>

  /** A flat L2 index after add(vectors): position i holds the i-th vector added. */
  datatype FlatIndex<V> = FlatIndex(vectors: seq<V>)

  /** Index position i and metadata entry i come from the same chunk. */
  ghost predicate Aligned<V>(index: FlatIndex<V>, metadata: seq<Chunk>, embed: string -> Option<V>)
  {
    && |index.vectors| == |metadata|
    && forall i :: 0 <= i < |metadata| ==> embed(ReplaceNewlines(metadata[i].text)) == Some(index.vectors[i])
  }

  /**
   * get_embeddings: one service call per text, in order, on the text with its
   * line feeds replaced. The first failure aborts the whole call, so the
   * result is either one vector per text or the failing position, never a
   * prefix. `sent` is the sequence of texts handed to the service.
   */
  method GetEmbeddings<V>(texts: seq<string>, embed: string -> Option<V>)
    returns (r: Embeddings<V>, sent: seq<string>)
    ensures r.Success? <==> forall i :: 0 <= i < |texts| ==> embed(ReplaceNewlines(texts[i])).Some?
    ensures r.Success? ==>
      |r.value| == |texts| && forall i :: 0 <= i < |texts| ==> embed(ReplaceNewlines(texts[i])) == Some(r.value[i])
    ensures r.Failure? ==>
      && r.error.item < |texts|
      && embed(ReplaceNewlines(texts[r.error.item])).None?
      && forall i :: 0 <= i < r.error.item ==> embed(ReplaceNewlines(texts[i])).Some?
    ensures |sent| == if r.Success? then |texts| else r.error.item + 1
    ensures forall i :: 0 <= i < |sent| ==> sent[i] == ReplaceNewlines(texts[i])
  {
    var embeddings := [];
    sent := [];
    for i := 0 to |texts|
      invariant |embeddings| == |sent| == i
      invariant forall j :: 0 <= j < i ==> embed(ReplaceNewlines(texts[j])) == Some(embeddings[j])
      invariant forall j :: 0 <= j < i ==> sent[j] == ReplaceNewlines(texts[j])
    {
      var cleanText := ReplaceNewlines(texts[i]);
      sent := sent + [cleanText];
      var response := embed(cleanText);
      if response.None? {
        return Failure(EmbedError(i)), sent;
      }
      embeddings := embeddings + [response.value];
    }
    r := Success(embeddings);
  }

  /** What build_index did. */
  datatype BuildOutcome = NothingToIndex | EmbeddingFailed(error: EmbedError) | Written

  /** The index directory: the index file and the metadata file, each present or absent. */
  class IndexDir<V> {
    var indexFile: Option<FlatIndex<V>>
    var metadataFile: Option<seq<Chunk>>

    constructor (indexFile: Option<FlatIndex<V>>, metadataFile: Option<seq<Chunk>>)
      ensures this.indexFile == indexFile && this.metadataFile == metadataFile
    {
      this.indexFile := indexFile;
      this.metadataFile := metadataFile;
    }

    /**
     * build_index: nothing is written for an empty chunk list or when
     * embedding fails (the exception propagates); otherwise the index of the
     * chunks' vectors and the chunk list itself are written, aligned.
     */
    method BuildIndex(chunks: seq<Chunk>, embed: string -> Option<V>) returns (outcome: BuildOutcome)
      modifies this
      ensures outcome == NothingToIndex <==> chunks == []
      ensures outcome != Written ==> unchanged(this)
      ensures outcome.EmbeddingFailed? ==>
        && outcome.error.item < |chunks|
        && embed(ReplaceNewlines(chunks[outcome.error.item].text)).None?
        && forall i :: 0 <= i < outcome.error.item ==> embed(ReplaceNewlines(chunks[i].text)).Some?
      ensures outcome == Written <==>
        chunks != [] && forall i :: 0 <= i < |chunks| ==> embed(ReplaceNewlines(chunks[i].text)).Some?
      ensures outcome == Written ==>
        && indexFile.Some? && metadataFile == Some(chunks)
        && |chunks| > 0 && Aligned(indexFile.value, chunks, embed)
    {
      if chunks == [] {
        return NothingToIndex;
      }
      var textList := seq(|chunks|, i requires 0 <= i < |chunks| => chunks[i].text);
      assert forall i :: 0 <= i < |chunks| ==> textList[i] == chunks[i].text;
      var embeddings, _ := GetEmbeddings(textList, embed);
      if embeddings.Failure? {
        return EmbeddingFailed(embeddings.error);
      }
      // The source's "no embeddings generated" guard cannot fire here: a
      // successful run returns one vector per chunk, and there is at least one.
      assert |embeddings.value| > 0;
      var index := FlatIndex(embeddings.value);
      indexFile := Some(index);
      metadataFile := Some(chunks);
      outcome := Written;
    }

    /** load_faiss_index: the stored pair when both files exist, the absent pair otherwise. */
    method LoadIndex() returns (index: Option<FlatIndex<V>>, metadata: Option<seq<Chunk>>)
      ensures index.Some? <==> indexFile.Some? && metadataFile.Some?
      ensures metadata.Some? <==> index.Some?
      ensures index.Some? ==> index == indexFile && metadata == metadataFile
    {
      if indexFile.None? || metadataFile.None? {
        return None, None;
      }
      index := indexFile;
      metadata := metadataFile;
    }
  }
}
