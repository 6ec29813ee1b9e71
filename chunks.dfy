/**
 * The output of a chunked copy loop, seen as the sequence of chunks it wrote.
 */
module Chunks {
  import opened JavaIo

  /** The bytes a sequence of appends leaves in an output, in order. */
  function Concat(chunks: seq<seq<Byte>>): seq<Byte>
  {
    if chunks == [] then [] else chunks[0] + Concat(chunks[1..])
  }

  /** Every chunk is what one successful read into a `max`-byte buffer can return. */
  ghost predicate ChunksWithin(chunks: seq<seq<Byte>>, max: nat)
  {
    forall i :: 0 <= i < |chunks| ==> 1 <= |chunks[i]| <= max
  }

  /** One more chunk of the allowed size keeps every chunk within bounds. */
  lemma ChunksWithinAppend(chunks: seq<seq<Byte>>, c: seq<Byte>, max: nat)
    requires ChunksWithin(chunks, max) && 1 <= |c| <= max
    ensures ChunksWithin(chunks + [c], max)
  {
  }

  /** Appending one more chunk extends the output by exactly that chunk. */
  lemma {:induction false} ConcatAppend(chunks: seq<seq<Byte>>, c: seq<Byte>)
    ensures Concat(chunks + [c]) == Concat(chunks) + c
  {
    if chunks == [] {
      assert chunks + [c] == [c];
      assert [c][1..] == [];
    } else {
      assert (chunks + [c])[1..] == chunks[1..] + [c];
      ConcatAppend(chunks[1..], c);
    }
  }

  /**
   * A copy that wrote `k` chunks, each non-empty and at most `max` bytes,
   * produced between `k` and `k * max` bytes: so copying `n` bytes takes at
   * most `n` writes and at least `n / max` of them.
   */
  lemma {:induction false} ChunkCountBounds(chunks: seq<seq<Byte>>, max: nat)
    requires ChunksWithin(chunks, max)
    ensures |chunks| <= |Concat(chunks)| <= |chunks| * max
  {
    if chunks != [] {
      assert ChunksWithin(chunks[1..], max) by {
        forall i | 0 <= i < |chunks[1..]| ensures 1 <= |chunks[1..][i]| <= max {
          assert chunks[1..][i] == chunks[i + 1];
        }
      }
      ChunkCountBounds(chunks[1..], max);
      assert 1 <= |chunks[0]| <= max;
      assert |chunks| * max == max + (|chunks| - 1) * max;
    }
  }
}
