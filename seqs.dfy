/** Facts about sequences that the rendering and loading proofs share. */
module Seqs {
  /** The elements of a sequence of chunks, one chunk after another. */
  function Flatten<T>(chunks: seq<seq<T>>): seq<T> {
    if chunks == [] then [] else Flatten(chunks[..|chunks| - 1]) + chunks[|chunks| - 1]
  }

  /** A slice that ends inside the first part of a concatenation lies in that part. */
  lemma SliceOfAppend<T>(a: seq<T>, b: seq<T>, lo: nat, hi: nat)
    requires lo <= hi <= |a|
    ensures (a + b)[lo..hi] == a[lo..hi]
  {
    assert forall k :: lo <= k < hi ==> (a + b)[k] == a[k];
  }

  /** Chunk `i` of seven elements occupies positions `7*i` to `7*i + 6` of the flattening. */
  lemma {:induction false} FlattenLayout<T>(chunks: seq<seq<T>>, i: nat)
    requires forall j :: 0 <= j < |chunks| ==> |chunks[j]| == 7
    requires i < |chunks|
    ensures |Flatten(chunks)| == 7 * |chunks|
    ensures Flatten(chunks)[7 * i .. 7 * i + 7] == chunks[i]
  {
    var init, last := chunks[..|chunks| - 1], chunks[|chunks| - 1];
    assert forall j :: 0 <= j < |init| ==> init[j] == chunks[j];
    var a := Flatten(init);
    if init != [] {
      FlattenLayout(init, if i < |init| then i else 0);
    }
    assert |a| == 7 * |init|;
    assert Flatten(chunks) == a + last;
    if i < |init| {
      SliceOfAppend(a, last, 7 * i, 7 * i + 7);
      assert a[7 * i .. 7 * i + 7] == init[i];
    } else {
      assert (a + last)[|a|..] == last;
    }
  }

  /** Appending five elements one at a time appends them as one chunk. */
  lemma AppendFive<T>(a: seq<T>, x0: T, x1: T, x2: T, x3: T, x4: T)
    ensures a + [x0] + [x1] + [x2] + [x3] + [x4] == a + [x0, x1, x2, x3, x4]
  {
  }

  /** Appending one element after a concatenation appends it to the second part. */
  lemma SnocAssoc<T>(a: seq<T>, b: seq<T>, x: T)
    ensures (a + b) + [x] == a + (b + [x])
  {
  }
}
