/** The prepacking sequence of the int8 sparse convolution test: profile the
    weights, skip an all-zero matrix, size the three buffers from the profile
    and run the encoder of the chosen layout. */
module Prepack {
  import opened Weights
  import opened Profiler
  import opened Encoding
  import opened Encoder

  /** The buffers the test hands to the sparse kernel. */
  datatype Buffers = Buffers(values: array<Int8>, oc: array<nat>, diffs: array<int>, firstIc: nat)

  /** Profiles the M x K weights (`ch_out` x `ch_in`, N = `im_size`), returns
      skipped when `weight_num - zero_num <= 0`, and otherwise allocates
      `nonzeros_output` with count_nonzeroes entries, `oc_nonzeros` with
      `ch_out` entries and `ic_diffs` with count_blocks (block layout) or
      count_nonzeroes (unstructured) entries, and fills them. */
  method PrepackWeights(w: seq<Int8>, M: nat, K: nat, N: int, s: int)
    returns (skipped: bool, b: Buffers)
    requires |w| == M * K
    ensures skipped <==> NonzeroCount(w) == 0
    ensures !skipped ==>
      var p := Profile(w, M, K);
      var e := Encode(w, M, K, N, s, LayoutOf(p));
      b.values.Length == p.nonzeroes && b.oc.Length == M && b.diffs.Length == p.blocks &&
      b.values[..] == e.values && b.diffs[..] == e.deltas &&
      |e.prefixCounts| == p.channels <= M && b.oc[..p.channels] == e.prefixCounts &&
      b.firstIc == e.firstCol
  {
    var zeroNum, countNonzeroes, countChannels, countBlocks, fSemi := ComputeSemiSparseZeros(w, M, K);
    var weightNum := M * K;
    var nonzeroNum := weightNum - zeroNum;
    SkipIffAllZero(w, M, K);
    if nonzeroNum <= 0 {
      var values := new Int8[0];
      var oc := new nat[0];
      var diffs := new int[0];
      return true, Buffers(values, oc, diffs, 0);
    }
    skipped := false;
    ghost var p := Profile(w, M, K);
    ProfileCounts(w, M, K);
    EncodeMatchesProfile(w, M, K, N, s);
    var values := new Int8[countNonzeroes];
    var oc := new nat[M];
    var diffs;
    if fSemi == 1 {
      diffs := new int[countBlocks];
    } else {
      diffs := new int[countNonzeroes];
    }
    var firstIc;
    if fSemi == 1 {
      firstIc := ComputeSemiSparseWeight(w, M, K, N, s, values, oc, diffs);
    } else {
      firstIc := ComputeSparseWeight(w, M, K, N, s, values, oc, diffs);
    }
    b := Buffers(values, oc, diffs, firstIc);
  }
}
