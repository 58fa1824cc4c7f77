/**
 * The standalone script rag_chatbot.py. It repeats the package's pipeline
 * with fixed settings: chunks of 1000 characters overlapping by 200, an
 * embedding failure that ends the process with status 1, and a start-up that
 * optionally rebuilds the index, loads it back and enters the chat loop only
 * when both the index and a non-empty metadata list came back.
 */
module Chatbot {
  import opened Wrappers
  import opened Chunking
  import opened Index

  const ChunkSize: int := 1000
  const ChunkOverlap: int := 200

  /** chunk_text: the package's chunker with the script's fixed settings. */
  method ChunkText(documents: seq<Document>) returns (chunks: seq<Chunk>)
    ensures chunks == ChunkDocuments(documents, ChunkSize, ChunkOverlap)
  {
    chunks := Chunking.ChunkText(documents, ChunkSize, ChunkOverlap);
  }

  /**
   * With the fixed settings the stride is 800: a non-empty document of length
   * n gives the k chunks with (k - 1) * 800 < n <= k * 800, each of 1 to 1000
   * characters, all tagged with the document's path.
   */
  lemma FixedChunkCount(doc: Document)
    ensures var cs, n := DocumentChunks(doc, ChunkSize, ChunkOverlap), |doc.content|;
      && (|cs| == 0 <==> n == 0)
      && (n > 0 ==> (|cs| - 1) * 800 < n <= |cs| * 800)
      && forall c :: c in cs ==> c.source == doc.path && 0 < |c.text| <= 1000
  {
    ChunkCount(doc, ChunkSize, ChunkOverlap);
    ChunkBounds(doc, ChunkSize, ChunkOverlap);
  }

  /**
   * A document shorter than the chunk size can still give two chunks: 900
   * characters give the whole text and then its last 100 characters again.
   */
  lemma NineHundredCharacters(doc: Document)
    requires |doc.content| == 900
    ensures DocumentChunks(doc, ChunkSize, ChunkOverlap)
            == [Chunk(doc.content, doc.path), Chunk(doc.content[800..], doc.path)]
  {
    var cs := DocumentChunks(doc, ChunkSize, ChunkOverlap);
    assert |cs| == 2;
    assert cs[0].text == doc.content[0..900];
    assert doc.content[0..900] == doc.content;
    assert cs[1].text == doc.content[800..900];
  }

  /** What create_index did: nothing to index, the process exited, or the pair was saved. */
  datatype CreateOutcome = NoContent | Exit(code: int) | Saved

  /**
   * create_index: like the package's build_index, except that an embedding
   * failure ends the process with status 1; the directory is then untouched.
   */
  method CreateIndex<V>(dir: IndexDir<V>, chunks: seq<Chunk>, embed: string -> Option<V>)
    returns (outcome: CreateOutcome)
    modifies dir
    ensures outcome == NoContent <==> chunks == []
    ensures outcome != Saved ==> unchanged(dir)
    ensures outcome.Exit? <==>
      chunks != [] && exists i :: 0 <= i < |chunks| && embed(ReplaceNewlines(chunks[i].text)).None?
    ensures outcome.Exit? ==> outcome.code == 1
    ensures outcome == Saved ==>
      dir.indexFile.Some? && dir.metadataFile == Some(chunks) && Aligned(dir.indexFile.value, chunks, embed)
  {
    var built := dir.BuildIndex(chunks, embed);
    match built
    case NothingToIndex =>
      outcome := NoContent;
    case EmbeddingFailed(_) =>
      outcome := Exit(1);
    case Written =>
      outcome := Saved;
  }

  /** How start-up ended: in the chat loop over a loaded pair, with "Could not load index", or by exiting. */
  datatype Session<V> = ChatLoop(index: FlatIndex<V>, metadata: seq<Chunk>) | CouldNotLoad | Exited(code: int)

  /**
   * The last part of main: when the user asked for a rebuild (`rebuildFrom`
   * holds the scanned documents), chunk them and create the index; then load
   * the index and enter the chat loop only if both the index and a non-empty
   * metadata list came back. A rebuild that finds no chunks leaves the
   * previous files in place, and those are then loaded.
   */
  method Startup<V>(dir: IndexDir<V>, rebuildFrom: Option<seq<Document>>, embed: string -> Option<V>)
    returns (session: Session<V>)
    modifies dir
    ensures rebuildFrom.None? ==> unchanged(dir)
    ensures session.Exited? ==> session.code == 1 && rebuildFrom.Some? && unchanged(dir)
    ensures session.ChatLoop? <==>
      !session.Exited? && dir.indexFile.Some? && dir.metadataFile.Some? && |dir.metadataFile.value| > 0
    ensures session.ChatLoop? ==> session.index == dir.indexFile.value && session.metadata == dir.metadataFile.value
    ensures rebuildFrom.Some? && ChunkDocuments(rebuildFrom.value, ChunkSize, ChunkOverlap) == [] ==> unchanged(dir)
    ensures rebuildFrom.Some? && !session.Exited? ==>
      var chunks := ChunkDocuments(rebuildFrom.value, ChunkSize, ChunkOverlap);
      chunks != [] ==> session.ChatLoop? && session.metadata == chunks && Aligned(session.index, chunks, embed)
  {
    if rebuildFrom.Some? {
      var chunks := ChunkText(rebuildFrom.value);
      var created := CreateIndex(dir, chunks, embed);
      if created.Exit? {
        return Exited(created.code);
      }
    }
    var index, metadata := dir.LoadIndex();
    if index.Some? && metadata.Some? && |metadata.value| > 0 {
      return ChatLoop(index.value, metadata.value);
    }
    session := CouldNotLoad;
  }
}
