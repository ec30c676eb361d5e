/** Sequences of blocks laid out one after the other. */
module Seqs {
  import opened IndexTypes

  /** The blocks one after the other. */
  function Flatten<T>(bs: seq<seq<T>>): seq<T>
  {
    if bs == [] then [] else Flatten(bs[..|bs| - 1]) + bs[|bs| - 1]
  }

  /** Every block has w entries. */
  predicate Uniform<T>(bs: seq<seq<T>>, w: nat)
  {
    forall v :: 0 <= v < |bs| ==> |bs[v]| == w
  }

  lemma {:induction false} FlattenLength<T>(bs: seq<seq<T>>, w: nat)
    requires Uniform(bs, w)
    ensures |Flatten(bs)| == w * |bs|
  {
    if bs != [] {
      FlattenLength(bs[..|bs| - 1], w);
      assert w * |bs| == w * (|bs| - 1) + w;
    }
  }

  /** Entry c of block v sits at offset w v + c. */
  lemma {:induction false} FlattenAt<T>(bs: seq<seq<T>>, w: nat, v: nat, c: nat)
    requires Uniform(bs, w) && v < |bs| && c < w
    ensures w * v + c < |Flatten(bs)| && Flatten(bs)[w * v + c] == bs[v][c]
  {
    var init := bs[..|bs| - 1];
    FlattenLength(init, w);
    if v < |bs| - 1 {
      FlattenAt(init, w, v, c);
      MulLe(v + 1, |init|, w);
    } else {
      assert w * v == |Flatten(init)|;
    }
  }
}
