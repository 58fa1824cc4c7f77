/**
 * The retrieval step of rag/retrieve.py: embed the cleaned query, ask the
 * index for the k nearest positions, and map the usable positions back to
 * chunk metadata in the order the search returned them. Any exception on the
 * way (embedding, search or a lookup) makes the whole result empty.
 *
 * The search is an oracle: given the index, a query vector and k, it returns
 * a list of positions, or None when it raises. A flat index pads the list
 * with the sentinel -1 when it holds fewer than k vectors.
 */
module Retrieve {
  import opened Wrappers
  import opened Chunking
  import opened Index

  /** The number of chunks retrieved when the caller does not say. */
  const DefaultTopK: nat := 5

  /**
   * metadata[idx] with Python's list indexing: a negative position counts
   * from the end, and one outside [-len, len) raises (None).
   */
  function PyIndex(metadata: seq<Chunk>, idx: int): Option<Chunk>
  {
    if 0 <= idx < |metadata| then Some(metadata[idx])
    else if -|metadata| <= idx < 0 then Some(metadata[|metadata| + idx])
    else None
  }

  /** A position the loop looks up: not the sentinel and below len(metadata). */
  predicate Passes(idx: int, n: nat)
  {
    idx != -1 && idx < n
  }

  /**
   * The filter loop over the returned positions: the lookups of the passing
   * positions, in order, or None when one of those lookups raises.
   */
  function Hits(positions: seq<int>, metadata: seq<Chunk>): Option<seq<Chunk>>
  {
    if positions == [] then Some([])
    else
      var idx := positions[|positions| - 1];
      match Hits(positions[..|positions| - 1], metadata)
      case None => None
      case Some(kept) =>
        if !Passes(idx, |metadata|) then Some(kept)
        else match PyIndex(metadata, idx)
          case None => None
          case Some(c) => Some(kept + [c])
  }

  /** retrieve_context as a value: the hits, or [] when any step raises. */
  function Retrieval<V>(query: string, index: FlatIndex<V>, metadata: seq<Chunk>,
                        embed: string -> Option<V>, search: (FlatIndex<V>, V, nat) -> Option<seq<int>>,
                        k: nat): seq<Chunk>
  {
    match embed(ReplaceNewlines(query))
    case None => []
    case Some(q) =>
      match search(index, q, k)
      case None => []
      case Some(positions) =>
        match Hits(positions, metadata)
        case None => []
        case Some(results) => results
  }

  /** retrieve_context: the source's steps, with the filter as a loop. */
  method RetrieveContext<V>(query: string, index: FlatIndex<V>, metadata: seq<Chunk>,
                            embed: string -> Option<V>, search: (FlatIndex<V>, V, nat) -> Option<seq<int>>,
                            k: nat := DefaultTopK)
    returns (results: seq<Chunk>)
    ensures results == Retrieval(query, index, metadata, embed, search, k)
  {
    var cleanQuery := ReplaceNewlines(query);
    var response := embed(cleanQuery);
    if response.None? {
      return [];
    }
    var found := search(index, response.value, k);
    if found.None? {
      return [];
    }
    var positions := found.value;
    results := [];
    for i := 0 to |positions|
      invariant Hits(positions[..i], metadata) == Some(results)
    {
      var idx := positions[i];
      assert positions[..i + 1][..i] == positions[..i];
      if idx != -1 && idx < |metadata| {
        var entry := PyIndex(metadata, idx);
        if entry.None? {
          HitsRaisedStays(positions, metadata, i + 1);
          return [];
        }
        results := results + [entry.value];
      }
    }
    assert positions[..|positions|] == positions;
  }

  /** Once a lookup has raised, the rest of the positions cannot undo it. */
  lemma {:induction false} HitsRaisedStays(positions: seq<int>, metadata: seq<Chunk>, i: nat)
    requires i <= |positions|
    requires Hits(positions[..i], metadata).None?
    ensures Hits(positions, metadata).None?
  {
    if i < |positions| {
      var init := positions[..|positions| - 1];
      assert init[..i] == positions[..i];
      HitsRaisedStays(init, metadata, i);
    } else {
      assert positions[..i] == positions;
    }
  }

  /**
   * The whole retrieval is lost exactly when some returned position other
   * than the sentinel lies below -len(metadata), where Python's indexing raises.
   */
  lemma {:induction false} HitsRaiseIff(positions: seq<int>, metadata: seq<Chunk>)
    ensures Hits(positions, metadata).None? <==>
      exists i :: 0 <= i < |positions| && positions[i] != -1 && positions[i] < -|metadata|
  {
    if positions != [] {
      var init := positions[..|positions| - 1];
      HitsRaiseIff(init, metadata);
      if exists i :: 0 <= i < |init| && init[i] != -1 && init[i] < -|metadata| {
        var i :| 0 <= i < |init| && init[i] != -1 && init[i] < -|metadata|;
        assert positions[i] == init[i];
      }
      if exists i :: 0 <= i < |positions| && positions[i] != -1 && positions[i] < -|metadata| {
        var i :| 0 <= i < |positions| && positions[i] != -1 && positions[i] < -|metadata|;
        if i < |init| {
          assert init[i] == positions[i];
        }
      }
    }
  }

  /** The positions a flat index's answer contributes: those in [0, n), in search order. */
  function ValidPositions(positions: seq<int>, n: nat): (r: seq<nat>)
    ensures |r| <= |positions|
    ensures forall i :: 0 <= i < |r| ==> r[i] < n
    ensures forall p :: p in r <==> p in positions && 0 <= p < n
  {
    if positions == [] then []
    else
      var init, p := positions[..|positions| - 1], positions[|positions| - 1];
      assert positions == init + [p];
      if 0 <= p < n then ValidPositions(init, n) + [p] else ValidPositions(init, n)
  }

  /** The metadata entries at the given in-range positions, in that order. */
  function Pick(metadata: seq<Chunk>, valid: seq<nat>): seq<Chunk>
    requires forall i :: 0 <= i < |valid| ==> valid[i] < |metadata|
  {
    seq(|valid|, i requires 0 <= i < |valid| => metadata[valid[i]])
  }

  /**
   * When every position is a real index position or the sentinel, nothing
   * raises and the result is metadata at the positions in [0, len), in the
   * order the search returned them.
   */
  lemma {:induction false} HitsOfSearchPositions(positions: seq<int>, metadata: seq<Chunk>)
    requires forall i :: 0 <= i < |positions| ==> positions[i] >= -1
    ensures var valid := ValidPositions(positions, |metadata|);
      Hits(positions, metadata) == Some(Pick(metadata, valid))
  {
    if positions != [] {
      var init := positions[..|positions| - 1];
      HitsOfSearchPositions(init, metadata);
      var before := ValidPositions(init, |metadata|);
      var valid := ValidPositions(positions, |metadata|);
      var p := positions[|positions| - 1];
      if 0 <= p < |metadata| {
        assert valid == before + [p];
        assert Pick(metadata, valid) == Pick(metadata, before) + [metadata[p]];
      } else {
        assert valid == before;
      }
    }
  }

  /** Every hit is an entry of the metadata, and there are no more hits than positions. */
  lemma {:induction false} HitsFromMetadata(positions: seq<int>, metadata: seq<Chunk>)
    ensures Hits(positions, metadata).Some? ==>
      var r := Hits(positions, metadata).value;
      |r| <= |positions| && forall c :: c in r ==> c in metadata
  {
    if positions != [] {
      HitsFromMetadata(positions[..|positions| - 1], metadata);
    }
  }

  /**
   * Retrieval returns only metadata entries, and never more than the search
   * returned positions, so at most k when the search keeps to k.
   */
  lemma RetrievalBounded<V>(query: string, index: FlatIndex<V>, metadata: seq<Chunk>,
                            embed: string -> Option<V>, search: (FlatIndex<V>, V, nat) -> Option<seq<int>>,
                            k: nat)
    ensures var r := Retrieval(query, index, metadata, embed, search, k);
      && (forall c :: c in r ==> c in metadata)
      && (forall q :: embed(ReplaceNewlines(query)) == Some(q) && search(index, q, k).Some? ==>
            |r| <= |search(index, q, k).value|)
      && (forall q ::
            (embed(ReplaceNewlines(query)) == Some(q) && search(index, q, k).Some? && |search(index, q, k).value| <= k)
            ==> |r| <= k)
  {
    match embed(ReplaceNewlines(query))
    case None =>
    case Some(q) =>
      match search(index, q, k)
      case None =>
      case Some(positions) =>
        HitsFromMetadata(positions, metadata);
  }

  /** Chunk c is metadata entry p, and the index holds c's embedding at position p. */
  ghost predicate StoredAt<V>(c: Chunk, p: int, index: FlatIndex<V>, metadata: seq<Chunk>, embed: string -> Option<V>)
  {
    0 <= p < |metadata| && p < |index.vectors| && c == metadata[p]
    && embed(ReplaceNewlines(c.text)) == Some(index.vectors[p])
  }

  /**
   * Index/metadata alignment carries through retrieval: over a built index
   * whose search returns real positions or the sentinel, each retrieved chunk
   * is the metadata entry at a returned position whose stored vector is that
   * chunk's own embedding.
   */
  lemma AlignedRetrieval<V>(query: string, index: FlatIndex<V>, metadata: seq<Chunk>,
                            embed: string -> Option<V>, search: (FlatIndex<V>, V, nat) -> Option<seq<int>>,
                            k: nat, q: V, positions: seq<int>)
    requires Aligned(index, metadata, embed)
    requires embed(ReplaceNewlines(query)) == Some(q) && search(index, q, k) == Some(positions)
    requires forall i :: 0 <= i < |positions| ==> -1 <= positions[i] < |index.vectors|
    ensures forall c :: c in Retrieval(query, index, metadata, embed, search, k) ==>
      exists p :: p in positions && StoredAt(c, p, index, metadata, embed)
  {
    HitsOfSearchPositions(positions, metadata);
    var valid := ValidPositions(positions, |metadata|);
    var r := Retrieval(query, index, metadata, embed, search, k);
    assert r == Pick(metadata, valid);
    forall c | c in r
      ensures exists p :: p in positions && StoredAt(c, p, index, metadata, embed)
    {
      var i :| 0 <= i < |r| && r[i] == c;
      var p := valid[i];
      assert p in valid;
      assert StoredAt(c, p, index, metadata, embed);
    }
  }

  /**
   * Python's indexing at work: -2 wraps to the second-to-last entry, -4 on
   * three entries raises and empties the result, the sentinel and positions
   * past the end are skipped, and on empty metadata only -1 is harmless.
   */
  lemma PythonIndexingCases(a: Chunk, b: Chunk, c: Chunk)
    ensures Hits([-2], [a, b, c]) == Some([b])
    ensures Hits([-4], [a, b, c]) == None
    ensures Hits([2, -1, 7, 0], [a, b, c]) == Some([c, a])
    ensures Hits([-1, -1], []) == Some([])
    ensures Hits([-2], []) == None
  {
    assert [-2][..0] == [];
    assert [] + [b] == [b];
    assert [2, -1, 7, 0][..3] == [2, -1, 7];
    assert [2, -1, 7][..2] == [2, -1];
    assert [2, -1][..1] == [2];
    assert [2][..0] == [];
    assert [] + [c] == [c];
    assert Hits([2], [a, b, c]) == Some([c]);
    assert Hits([2, -1], [a, b, c]) == Some([c]);
    assert Hits([2, -1, 7], [a, b, c]) == Some([c]);
    assert [c] + [a] == [c, a];
    assert [-1, -1][..1] == [-1];
  }
}
