/** A byte stream cut into the payloads that were accepted for sending, and the offsets of the cuts. */
module Stream {
  import opened Numbers

  type Chunks = seq<seq<u8>>

  ghost predicate NonEmpty(chunks: Chunks) {
    forall i :: 0 <= i < |chunks| ==> chunks[i] != []
  }

  /** Where chunk k starts; for k == |chunks|, where the stream ends. */
  function Off(chunks: Chunks, k: nat): nat
    requires k <= |chunks|
  {
    if k == 0 then 0 else Off(chunks, k - 1) + |chunks[k - 1]|
  }

  function Concat(chunks: Chunks): seq<u8> {
    if chunks == [] then [] else Concat(chunks[..|chunks| - 1]) + chunks[|chunks| - 1]
  }

  lemma {:induction false} OffMonotone(chunks: Chunks, i: nat, j: nat)
    requires i <= j <= |chunks|
    ensures Off(chunks, i) <= Off(chunks, j)
    ensures NonEmpty(chunks) && i < j ==> Off(chunks, i) < Off(chunks, j)
    decreases j
  {
    if i < j {
      OffMonotone(chunks, i, j - 1);
    }
  }

  /** A longer stream has the same cuts where the shorter one has any. */
  lemma {:induction false} OffOfPrefix(chunks: Chunks, longer: Chunks, k: nat)
    requires chunks <= longer && k <= |chunks|
    ensures Off(longer, k) == Off(chunks, k)
    decreases k
  {
    if k > 0 {
      OffOfPrefix(chunks, longer, k - 1);
    }
  }

  lemma {:induction false} ConcatLength(chunks: Chunks)
    ensures |Concat(chunks)| == Off(chunks, |chunks|)
    decreases |chunks|
  {
    if chunks != [] {
      var init := chunks[..|chunks| - 1];
      ConcatLength(init);
      OffOfPrefix(init, chunks, |init|);
    }
  }

  /** Whole chunks in order are a prefix of the bytes. */
  lemma {:induction false} ConcatOfPrefix(chunks: Chunks, longer: Chunks)
    requires chunks <= longer
    ensures Concat(chunks) <= Concat(longer)
    decreases |longer|
  {
    if |chunks| < |longer| {
      ConcatOfPrefix(chunks, longer[..|longer| - 1]);
    } else {
      assert chunks == longer;
    }
  }
}
