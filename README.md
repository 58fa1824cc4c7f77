# Indexing and retrieval pipeline of a local RAG tool, in Dafny

This project models the part of the `askdir` local retrieval-augmented-generation
tool that turns documents into an index and answers queries from it. It covers the
package `rag/` and the standalone script `rag_chatbot.py`, which holds the same
pipeline with fixed settings.

- **Chunking** (`rag/chunking.py`): `chunk_text` cuts every document into windows
  `text[start : min(start + chunk_size, n)]`, with `start` running 0, s, 2s, … while it
  is below `n` and stride `s = chunk_size - overlap`. Each chunk is tagged with its
  document's path. `Chunking.ChunkText` is the source's loop, including its `break`.
  It is proved equal to a closed form, `DocumentChunks` / `ChunkDocuments`, in which
  chunk `j` is `text[j*s .. min(j*s + chunk_size, n)]` and the count is `ceil(n / s)`.
  The lemmas beside it state the count, the bounds, coverage, overlap and ordering.
- **Embedding and index** (`rag/index.py`): the embedding service is a function
  `string -> Option<V>`, with vectors `V` kept opaque and `None` standing for any
  exception the client raises. `GetEmbeddings` is the per-text loop. It returns
  either one vector per text, in order, or the position of the first failure, and
  never a prefix. A flat L2 index is the sequence of vectors in the order they were
  added. The index directory (`.rag_index/faiss.index` and `.rag_index/metadata.json`)
  is a class `IndexDir` with one field per file, each present or absent.
  `BuildIndex` and `LoadIndex` are `build_index` and `load_faiss_index` with their
  guards.
- **Retrieval** (`rag/retrieve.py`): the query's line feeds become spaces, the query
  is embedded, and a search oracle returns positions (or `None` when it raises).
  The loop keeps `metadata[idx]` for every `idx != -1 and idx < len(metadata)`.
  Python's list indexing is modelled exactly (`PyIndex`): a negative position other
  than -1 wraps from the end, and one below `-len` raises. Any exception empties the
  whole result.
- **Script** (`rag_chatbot.py`): chunk size 1000 and overlap 200. `create_index`
  ends the process with status 1 on an embedding failure. The end of `main` enters
  the chat loop only when the index and a non-empty metadata list both load.

## Model

| member | source | states |
|---|---|---|
| `Chunking.ChunkText` | rag/chunking.py:3-27 | For `0 < chunk_size` and `overlap < chunk_size`, the loop's output is exactly `ChunkDocuments`: document order first, then window order. Chunk `j` of a document is `text[j*s : min(j*s + chunk_size, n)]`, tagged with the document's path. |
| `Chunking.AppendWindows` | rag/chunking.py:8-25 | The per-document `while` loop, with its `break`, appends exactly `DocumentChunks(doc)` to the chunks collected so far, and nothing else. |
| `Chunking.StartInside` | rag/chunking.py:11-25 | After `j` steps the window start (`Offset(j, s)`, equal to `j*s` by `OffsetIsProduct`) is below `n` exactly when `j` is below the window count. So the loop, which stops once `start >= n`, emits exactly `WindowCount(n, s)` windows. |
| `Chunking.WindowCountIsCeiling` | rag/chunking.py:12-25 | The number of windows, one per loop step, is `ceil(n / s)`. |
| `Chunking.ChunkWindow` | rag/chunking.py:11-22 | Chunk `j` of a document is exactly `text[j*s : min(j*s + chunk_size, n)]`, tagged with the document's path, and its start `j*s` is below `n`. |
| `Chunking.ChunkCount` | rag/chunking.py:9-25 | Empty content gives no chunk, and any non-empty content, whitespace-only included, gives at least one. The count `k` of a non-empty document is the one with `(k-1)*s < n <= k*s`. |
| `Chunking.SingleChunkIff` | rag/chunking.py:12-25 | A document gives exactly one chunk if and only if `0 < n <= chunk_size - overlap`. Being shorter than `chunk_size` is not enough. |
| `Chunking.ChunkBounds` | rag/chunking.py:13-19 | Every chunk of a document carries that document's path. It holds between 1 and `chunk_size` characters and is a contiguous slice of the content. |
| `Chunking.LastChunkEndsAtEnd` | rag/chunking.py:22-25 | With `0 <= overlap`, the last chunk of a non-empty document ends at index `n`. |
| `Chunking.Coverage` | rag/chunking.py:12-22 | With `0 <= overlap`, every character `p` of the document lies in some window `j`, at offset `p - j*s` of that chunk's text. |
| `Chunking.ConsecutiveOverlap` | rag/chunking.py:13-22 | With `0 <= overlap`, chunk `j+1` starts with chunk `j`'s text past the stride. The shared part is `min(overlap, len(chunk j+1))` characters, so exactly `overlap` unless the next chunk is shorter. When it is, chunk `j+1` lies wholly inside chunk `j`, as the final `"BB"` does in the worked case. |
| `Chunking.WorkedExample` | rag/chunking.py:11-25 | `"AAAABBBB"` with chunk size 4 and overlap 2 gives `"AAAA"`, `"AABB"`, `"BBBB"`, `"BB"`, all tagged with the document's path. |
| `Chunking.StartAfterIsOffset` | rag/chunking.py:11-22 | The loop's `start` after `k` executions of `start += chunk_size - overlap` is the window offset the chunks are built on, for any non-negative step. |
| `Chunking.StalledWindow` | rag/chunking.py:12-25 | With `chunk_size <= overlap`, the loop's `start` after any number of steps is still at most 0, so below `n` for non-empty content, and the loop never ends. This is why `ChunkText` requires `overlap < chunk_size`. |
| `Chunking.ChunkDocumentsBlock` | rag/chunking.py:7-19 | The chunks of document `d` form one contiguous block of the output, in window order. The block starts right after the chunks of all earlier documents. |
| `Chunking.ChunkDocumentsSources` | rag/chunking.py:7-19 | Chunks from different documents never merge. Every output chunk is a non-empty slice of one document's content, at most `chunk_size` long, and tagged with that document's path. |
| `Index.ReplaceNewlines` | rag/index.py:19 | `text.replace("\n", " ")` keeps the length and turns every line feed into a space. Every other character stays as it is. |
| `Index.ReplaceNewlinesClean` | rag/retrieve.py:8 | The cleaned text (query or chunk) contains no line feed. Cleaning it again changes nothing. |
| `Index.GetEmbeddings` | rag/index.py:12-34 | Succeeds if and only if the service embeds every cleaned text. On success it returns one vector per text, in input order. Otherwise it returns the first failing position, with every earlier text embedded and no partial list. The service is called once per text, in order, on the cleaned text, and is not called after the first failure. |
| `Index.IndexDir.BuildIndex` | rag/index.py:36-62 | An empty chunk list writes nothing, and so does an embedding failure, which propagates and names the first chunk that fails to embed. Otherwise both files are written: the metadata file holds the chunk list, and the index holds one vector per chunk, aligned position by position (`Aligned`). The "no embeddings generated" guard is shown never to fire after the first guard. |
| `Index.IndexDir.LoadIndex` | rag/index.py:64-77 | Returns the stored index and metadata when both files exist, and the absent pair `(None, None)` otherwise. The same guard appears at rag_chatbot.py:172-186. |
| `Retrieve.RetrieveContext` | rag/retrieve.py:5-26 | The step-by-step procedure (default `k = 5`) returns `Retrieval`. If embedding or search raises, the result is `[]`. Otherwise the loop returns the hits, or `[]` when a lookup raises. The script's copy at rag_chatbot.py:188-209 is the same code. |
| `Retrieve.HitsRaisedStays` | rag/retrieve.py:19-26 | Once a lookup has raised, the remaining positions cannot recover: the exception leaves the loop and the result is `[]`. |
| `Retrieve.HitsRaiseIff` | rag/retrieve.py:19-26 | The result is lost to an exception if and only if some returned position other than -1 is below `-len(metadata)`. Other negative positions wrap, as Python indexing does. |
| `Retrieve.ValidPositions` | rag/retrieve.py:20 | The positions a flat index contributes are exactly the returned positions in `[0, len)`, in search order, and there are no more of them than returned positions. |
| `Retrieve.HitsOfSearchPositions` | rag/retrieve.py:18-23 | When every position is -1 or a real position, nothing raises. The result is `metadata[p]` for the positions `p` in `[0, len(metadata))`, in the order the search returned them. The sentinel and out-of-range positions are never dereferenced. |
| `Retrieve.HitsFromMetadata` | rag/retrieve.py:18-23 | Every hit is an entry of `metadata`, and there are no more hits than returned positions. |
| `Retrieve.RetrievalBounded` | rag/retrieve.py:16-23 | A retrieval returns only metadata entries, and at most as many as the search returned positions. When the search returns at most `k` positions (as a FAISS search for `k` neighbours does), it returns at most `k`, so at most 5 with the default. |
| `Retrieve.AlignedRetrieval` | rag/retrieve.py:16-23 | Over an index whose vectors are aligned with the metadata, with a search that returns positions in `[-1, N)`, every retrieved chunk is the metadata entry at a returned position, and the vector stored there is that chunk's own embedding. |
| `Retrieve.PythonIndexingCases` | rag/retrieve.py:19-26 | Concrete cases: -2 picks the second-to-last entry, -4 on three entries empties the result, -1 and 7 are skipped while 2 and 0 are kept in order, and on empty metadata -1 is harmless but -2 raises. |
| `Chatbot.ChunkText` | rag_chatbot.py:83-108 | The script's chunker is the package's loop with `CHUNK_SIZE = 1000` and `CHUNK_OVERLAP = 200` (rag_chatbot.py:34-35). |
| `Chatbot.FixedChunkCount` | rag_chatbot.py:92-106 | With stride 800, a non-empty document of length `n` gives the `k` chunks with `(k-1)*800 < n <= k*800`, that is `ceil(n/800)`. Each chunk holds 1 to 1000 characters and is tagged with its path. Empty content gives none. |
| `Chatbot.NineHundredCharacters` | rag_chatbot.py:92-106 | A 900-character document gives two chunks: the whole text, then its characters from index 800 onward. |
| `Chatbot.CreateIndex` | rag_chatbot.py:139-170 | Empty chunks write nothing. If any chunk fails to embed, `get_embeddings` (rag_chatbot.py:110-137) exits with status 1 and nothing is written. Otherwise the aligned index and metadata are saved. |
| `Chatbot.Startup` | rag_chatbot.py:280-299 | After an optional rebuild, the script loads the index. It enters the chat loop exactly when both files load and the metadata list is non-empty, and otherwise reports "Could not load index". A rebuild whose chunks are all saved is what gets loaded. A rebuild with no chunks leaves the earlier files in place. |

## Where the design description and the code differ

The model follows the code in each case.

- A document shorter than `chunk_size` does not always give one chunk. It does only
  when `n <= chunk_size - overlap`: 900 characters at 1000/200 give two chunks.
- `overlap >= chunk_size` does not fail fast. The loop runs forever, so this is a
  precondition of `ChunkText`.
- Whitespace-only content is chunked like any other. Only the document loader, which
  is not part of this model, drops it.
- The design describes a rebuild state machine (idle, running, success, error) and a
  "busy" answer to queries. No such coordinator exists in the code, so none is
  modelled.

## Left out

- File scanning, extension dispatch and PDF text extraction (`load_files`). The
  documents are an input. In `Chatbot.Startup`, the command-line and y/n prompt
  handling of `main` (rag_chatbot.py:259-291) is reduced to the `rebuildFrom`
  parameter, which holds the scanned documents when a rebuild happens.
- FAISS internals: L2 distances, ranking, float32 storage, and dimension checks on the
  vectors. Vectors are an opaque type, and `search` is an oracle. Numpy's handling of
  vectors of unequal length is not modelled.
- `write_index`, `read_index` and the JSON dump and load are modelled as storing and
  returning the value unchanged. I/O errors, a corrupt file, and a crash between the
  two writes are not modelled.
- The OpenAI client and the model name. The embedding service is a function of the
  text, so it is deterministic and has no notion of retries or timeouts.
- Progress bars and printed messages, the chat REPL and prompt text, the web server,
  the CLI and the YAML configuration.
- `Chunking.ChunkText`: assumes a positive chunk size (`chunk_size > 0`), which the
  source never checks; `cli.py` passes whatever `rag.yaml` holds, and only the default is
  1000. A non-positive size that still satisfies `overlap < chunk_size` needs a negative
  overlap; Python then emits empty slices (`text[start:start]` when the size is 0) or
  slices with a negative end bound. Those outputs are not modelled.
- `Chatbot.Startup`: the test `if index and metadata` treats a loaded FAISS index
  object as truthy. Only the metadata list's emptiness matters.
- `Retrieve.RetrieveContext`: the metadata entries are modelled as chunks, the values
  that were dumped. That `metadata` is not modified follows from value semantics and
  is not stated separately.
