/**
 * The chunking policy of `store_file` (peace.cpp): the input is read in windows of
 * CHUNK_SIZE bytes; every read that is satisfied in full yields a full chunk, and the
 * read that reaches end of file yields the bytes it got, possibly none.
 */
module Chunker {
  import opened Bytes

  /** `BUFFER_SIZE` in `store_file`. */
  const CHUNK_SIZE: nat := 4096

  /** The chunks `store_file` emits for a file holding `data`, in emission order. */
  function Chunks(data: Bytes): seq<Bytes>
    decreases |data|
  {
    if |data| < CHUNK_SIZE then [data]
    else [data[..CHUNK_SIZE]] + Chunks(data[CHUNK_SIZE..])
  }

  /** One read of the window: a short read yields the rest of the input as the last
      chunk; a full read yields a full chunk and chunking goes on after it. */
  lemma ChunksStep(data: Bytes)
    ensures |data| < CHUNK_SIZE ==> Chunks(data) == [data]
    ensures |data| >= CHUNK_SIZE ==> Chunks(data) == [data[..CHUNK_SIZE]] + Chunks(data[CHUNK_SIZE..])
  {
  }

  /** There are |data| / CHUNK_SIZE + 1 chunks; all but the last are full, and the last
      holds the |data| % CHUNK_SIZE remaining bytes (none when |data| is a multiple). */
  lemma {:induction false} ChunkSizes(data: Bytes)
    ensures |Chunks(data)| == |data| / CHUNK_SIZE + 1
    ensures forall i :: 0 <= i < |Chunks(data)| - 1 ==> |Chunks(data)[i]| == CHUNK_SIZE
    ensures |Chunks(data)[|Chunks(data)| - 1]| == |data| % CHUNK_SIZE
    decreases |data|
  {
    if |data| >= CHUNK_SIZE {
      var rest := data[CHUNK_SIZE..];
      ChunkSizes(rest);
      assert |rest| / CHUNK_SIZE + 1 == |data| / CHUNK_SIZE;
      assert |rest| % CHUNK_SIZE == |data| % CHUNK_SIZE;
      assert Chunks(data) == [data[..CHUNK_SIZE]] + Chunks(rest);
    }
  }

  /** Every chunk fits the window, so the terminator write `buffer[data_size] = 0` stays
      inside the CHUNK_SIZE + 1 byte buffer. */
  lemma {:induction false} ChunksFitWindow(data: Bytes)
    ensures forall c :: c in Chunks(data) ==> |c| <= CHUNK_SIZE
    decreases |data|
  {
    if |data| >= CHUNK_SIZE {
      ChunksFitWindow(data[CHUNK_SIZE..]);
    }
  }

  /** The chunks, in emission order, concatenate to exactly the input. */
  lemma {:induction false} ChunksConcat(data: Bytes)
    ensures Concat(Chunks(data)) == data
    decreases |data|
  {
    if |data| < CHUNK_SIZE {
      assert Concat([data]) == data + Concat([]);
    } else {
      var rest := data[CHUNK_SIZE..];
      ChunksConcat(rest);
      assert Chunks(data)[1..] == Chunks(rest);
      assert data == data[..CHUNK_SIZE] + rest;
    }
  }

  /** The edge cases: an empty file and a file of exactly one window both end in an
      empty chunk; one byte more gives a one-byte final chunk. */
  lemma EdgeChunks(w: Bytes, x: byte)
    requires |w| == CHUNK_SIZE
    ensures Chunks([]) == [[]]
    ensures Chunks(w) == [w, []]
    ensures Chunks(w + [x]) == [w, [x]]
  {
    assert w[..CHUNK_SIZE] == w && w[CHUNK_SIZE..] == [];
    var wx := w + [x];
    assert wx[..CHUNK_SIZE] == w && wx[CHUNK_SIZE..] == [x];
  }
}
