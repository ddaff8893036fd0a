/** The sparsity profiler: counts the zeros of a weight matrix and decides
    between the unstructured layout and the 2-row block ("semi") layout. */
module Profiler {
  import opened Weights

  /** The profiler's outputs: the returned zero count and the values written
      through `count_nonzeroes`, `count_channels`, `count_blocks` and
      `flag_semi`. */
  datatype SparsityProfile = SparsityProfile(
    zeros: int,       // height * width - nonzeroes
    nonzeroes: nat,   // length of the packed value buffer
    channels: nat,    // number of row groups
    blocks: nat,      // number of retained units (elements or pair cells)
    semi: bool)       // the block layout was chosen

  /** Nonzeros among columns 0..c-1 of rows r and r+1. */
  function PairNz(w: seq<Int8>, K: nat, r: nat, c: nat): nat {
    if c == 0 then 0
    else PairNz(w, K, r, c - 1)
         + B2I(Cell(w, K, r, c - 1) != 0) + B2I(Cell(w, K, r + 1, c - 1) != 0)
  }

  /** Active cells among columns 0..c-1 of the pair r, r+1: columns where
      either row is nonzero. */
  function PairActive(w: seq<Int8>, K: nat, r: nat, c: nat): nat {
    if c == 0 then 0
    else PairActive(w, K, r, c - 1)
         + B2I(Cell(w, K, r, c - 1) != 0 || Cell(w, K, r + 1, c - 1) != 0)
  }

  /** Full cells among columns 0..c-1 of the pair r, r+1: columns where
      both rows are nonzero. */
  function PairFull(w: seq<Int8>, K: nat, r: nat, c: nat): nat {
    if c == 0 then 0
    else PairFull(w, K, r, c - 1)
         + B2I(Cell(w, K, r, c - 1) != 0 && Cell(w, K, r + 1, c - 1) != 0)
  }

  /** P: nonzeros in the pairs (0,1), (2,3), ... below row `rows`. */
  function PairedNz(w: seq<Int8>, K: nat, rows: nat): nat {
    if rows < 2 then 0 else PairedNz(w, K, rows - 2) + PairNz(w, K, rows - 2, K)
  }

  /** B: active (pair, column) cells in the pairs below row `rows`. */
  function ActiveBlocks(w: seq<Int8>, K: nat, rows: nat): nat {
    if rows < 2 then 0 else ActiveBlocks(w, K, rows - 2) + PairActive(w, K, rows - 2, K)
  }

  /** F: full (pair, column) cells in the pairs below row `rows`. */
  function FullBlocks(w: seq<Int8>, K: nat, rows: nat): nat {
    if rows < 2 then 0 else FullBlocks(w, K, rows - 2) + PairFull(w, K, rows - 2, K)
  }

  /** R: nonzeros of the rows after the last whole pair (the odd last row). */
  function TrailingNz(w: seq<Int8>, M: nat, K: nat): nat {
    RowsNz(w, K, M / 2 * 2, M)
  }

  /** The layout rule: paired rows are at least 90% nonzero over their
      active cells (P / 2B >= 9 / 10) and there are at least two rows. */
  predicate UseSemi(P: nat, B: nat, M: nat) {
    P * 5 >= B * 9 && M > 1
  }

  /** What the profiler reports for an M x K matrix. */
  function Profile(w: seq<Int8>, M: nat, K: nat): SparsityProfile {
    var P := PairedNz(w, K, M / 2 * 2);
    var B := ActiveBlocks(w, K, M / 2 * 2);
    var R := TrailingNz(w, M, K);
    if UseSemi(P, B, M) then
      SparsityProfile(M * K - (2 * B + R), 2 * B + R, M / 2 + M % 2, B + R, true)
    else
      SparsityProfile(M * K - (P + R), P + R, M, P + R, false)
  }

  /** ComputeSparseZeros: the number of zeros among the first num elements. */
  method ComputeSparseZeros(w: seq<Int8>, num: nat) returns (zeroNum: nat)
    requires num <= |w|
    ensures zeroNum == ZeroCount(w[..num])
    ensures zeroNum + NonzeroCount(w[..num]) == num
  {
    zeroNum := 0;
    var i := 0;
    while i < num
      invariant 0 <= i <= num
      invariant zeroNum == ZeroCount(w[..i])
    {
      assert w[..i + 1][..i] == w[..i];
      if w[i] == 0 {
        zeroNum := zeroNum + 1;
      }
      i := i + 1;
    }
    assert w[..num] == w[..i];
    ZeroNonzeroSplit(w[..num]);
  }

  /** `height & -4` and `height & -2` for a non-negative height. */
  lemma Alignments(M: nat)
    ensures M / 4 * 4 % 4 == 0 && M / 4 * 4 <= M / 2 * 2 <= M
    ensures M / 2 * 2 == M / 4 * 4 || M / 2 * 2 == M / 4 * 4 + 2
    ensures M / 2 * 2 + M % 2 == M
  {
    var q := M / 4;
    assert M == 4 * q + M % 4;
    if M % 4 < 2 {
      assert M / 2 == 2 * q;
    } else {
      assert M / 2 == 2 * q + 1;
    }
  }

  /** The column loop over the rows oc..oc+3 of the pair scan: adds the
      nonzeros and the active cells of the pairs (oc, oc+1) and
      (oc+2, oc+3) to the running counts. */
  method ScanQuadColumns(w: seq<Int8>, K: nat, oc: nat, nz0: nat, blocks0: nat)
    returns (numNonzeroes: nat, numNonzeroBlocks2: nat)
    ensures numNonzeroes == nz0 + PairNz(w, K, oc, K) + PairNz(w, K, oc + 2, K)
    ensures numNonzeroBlocks2 == blocks0 + PairActive(w, K, oc, K) + PairActive(w, K, oc + 2, K)
  {
    numNonzeroes, numNonzeroBlocks2 := nz0, blocks0;
    var ic := 0;
    while ic < K
      invariant 0 <= ic <= K
      invariant numNonzeroes == nz0 + PairNz(w, K, oc, ic) + PairNz(w, K, oc + 2, ic)
      invariant numNonzeroBlocks2 == blocks0 + PairActive(w, K, oc, ic) + PairActive(w, K, oc + 2, ic)
    {
      var row0 := Cell(w, K, oc, ic) != 0;
      var row1 := Cell(w, K, oc + 1, ic) != 0;
      var row2 := Cell(w, K, oc + 2, ic) != 0;
      var row3 := Cell(w, K, oc + 3, ic) != 0;
      numNonzeroes := numNonzeroes + B2I(row0) + B2I(row1) + B2I(row2) + B2I(row3);
      numNonzeroBlocks2 := numNonzeroBlocks2 + B2I(row0 || row1) + B2I(row2 || row3);
      ic := ic + 1;
    }
  }

  /** The column loop over the rows oc, oc+1 of the pair scan. */
  method ScanPairColumns(w: seq<Int8>, K: nat, oc: nat, nz0: nat, blocks0: nat)
    returns (numNonzeroes: nat, numNonzeroBlocks2: nat)
    ensures numNonzeroes == nz0 + PairNz(w, K, oc, K)
    ensures numNonzeroBlocks2 == blocks0 + PairActive(w, K, oc, K)
  {
    numNonzeroes, numNonzeroBlocks2 := nz0, blocks0;
    var ic := 0;
    while ic < K
      invariant 0 <= ic <= K
      invariant numNonzeroes == nz0 + PairNz(w, K, oc, ic)
      invariant numNonzeroBlocks2 == blocks0 + PairActive(w, K, oc, ic)
    {
      var row0 := Cell(w, K, oc, ic) != 0;
      var row1 := Cell(w, K, oc + 1, ic) != 0;
      numNonzeroes := numNonzeroes + B2I(row0) + B2I(row1);
      numNonzeroBlocks2 := numNonzeroBlocks2 + B2I(row0 || row1);
      ic := ic + 1;
    }
  }

  /** The pair scan of ComputeSemiSparseZeros: rows 0..(M & -4)-1 four at a
      time, then the pair left before M & -2. Returns P and B. */
  method ScanPairedRows(w: seq<Int8>, M: nat, K: nat)
    returns (numNonzeroes: nat, numNonzeroBlocks2: nat)
    requires |w| == M * K
    ensures numNonzeroes == PairedNz(w, K, M / 2 * 2)
    ensures numNonzeroBlocks2 == ActiveBlocks(w, K, M / 2 * 2)
  {
    numNonzeroes := 0;
    numNonzeroBlocks2 := 0;
    var align4 := M / 4 * 4;
    var align2 := M / 2 * 2;
    Alignments(M);
    var oc := 0;
    ghost var quads := 0;
    while oc < align4
      invariant oc == 4 * quads && quads <= M / 4
      invariant numNonzeroes == PairedNz(w, K, oc)
      invariant numNonzeroBlocks2 == ActiveBlocks(w, K, oc)
    {
      numNonzeroes, numNonzeroBlocks2 := ScanQuadColumns(w, K, oc, numNonzeroes, numNonzeroBlocks2);
      assert PairedNz(w, K, oc + 4) == PairedNz(w, K, oc + 2) + PairNz(w, K, oc + 2, K);
      assert ActiveBlocks(w, K, oc + 4) == ActiveBlocks(w, K, oc + 2) + PairActive(w, K, oc + 2, K);
      oc := oc + 4;
      quads := quads + 1;
    }
    oc := align4;
    while oc < align2
      invariant oc == align4 || oc == align2
      invariant numNonzeroes == PairedNz(w, K, oc)
      invariant numNonzeroBlocks2 == ActiveBlocks(w, K, oc)
    {
      numNonzeroes, numNonzeroBlocks2 := ScanPairColumns(w, K, oc, numNonzeroes, numNonzeroBlocks2);
      oc := oc + 2;
    }
  }

  /** The trailing scan of ComputeSemiSparseZeros: the nonzeros of rows
      M & -2 .. M-1. Returns R. */
  method ScanTrailingRows(w: seq<Int8>, M: nat, K: nat) returns (numNonzeroes: nat)
    requires |w| == M * K
    ensures numNonzeroes == TrailingNz(w, M, K)
  {
    numNonzeroes := 0;
    var align2 := M / 2 * 2;
    var oc := align2;
    while oc < M
      invariant align2 <= oc <= M
      invariant numNonzeroes == RowsNz(w, K, align2, oc)
    {
      var ic := 0;
      while ic < K
        invariant 0 <= ic <= K && align2 <= oc < M
        invariant numNonzeroes == RowsNz(w, K, align2, oc) + RowNz(w, K, oc, ic)
      {
        numNonzeroes := numNonzeroes + B2I(Cell(w, K, oc, ic) != 0);
        ic := ic + 1;
      }
      oc := oc + 1;
    }
  }

  /** ComputeSemiSparseZeros: counts P, B and R, applies the layout rule and
      sets the channel, value and block counts. */
  method ComputeSemiSparseZeros(w: seq<Int8>, M: nat, K: nat)
    returns (zeros: int, countNonzeroes: nat, countChannels: nat, countBlocks: nat, flagSemi: int)
    requires |w| == M * K
    ensures var p := Profile(w, M, K);
      zeros == p.zeros && countNonzeroes == p.nonzeroes && countChannels == p.channels &&
      countBlocks == p.blocks && flagSemi == (if p.semi then 1 else 0)
  {
    var numNonzeroes, numNonzeroBlocks2 := ScanPairedRows(w, M, K);
    var numBlock2Nonzeroes := numNonzeroes;
    var trailing := ScanTrailingRows(w, M, K);
    numNonzeroes := numNonzeroes + trailing;
    flagSemi := 0;
    countChannels := M;
    countNonzeroes := numNonzeroes;
    countBlocks := numNonzeroes;
    if numBlock2Nonzeroes * 5 >= numNonzeroBlocks2 * 9 && M > 1 {
      countChannels := countChannels / 2 + countChannels % 2;
      flagSemi := 1;
      var numRemainingNonzeroes := numNonzeroes - numBlock2Nonzeroes;
      countNonzeroes := numNonzeroBlocks2 * 2 + numRemainingNonzeroes;
      countBlocks := numNonzeroBlocks2 + numRemainingNonzeroes;
    }
    zeros := M * K - countNonzeroes;
  }

  /** Per column of a pair, the nonzeros are the active cells plus the full
      cells, and a full cell is active. */
  lemma {:induction false} PairCellCounts(w: seq<Int8>, K: nat, r: nat, c: nat)
    ensures PairNz(w, K, r, c) == PairActive(w, K, r, c) + PairFull(w, K, r, c)
    ensures PairFull(w, K, r, c) <= PairActive(w, K, r, c)
  {
    if c > 0 {
      PairCellCounts(w, K, r, c - 1);
    }
  }

  /** P == B + F and F <= B, so B <= P <= 2B: each active cell holds one or
      two nonzeros. */
  lemma {:induction false} BlockCounts(w: seq<Int8>, K: nat, rows: nat)
    ensures PairedNz(w, K, rows) == ActiveBlocks(w, K, rows) + FullBlocks(w, K, rows)
    ensures FullBlocks(w, K, rows) <= ActiveBlocks(w, K, rows)
    ensures ActiveBlocks(w, K, rows) <= PairedNz(w, K, rows) <= 2 * ActiveBlocks(w, K, rows)
  {
    if rows >= 2 {
      BlockCounts(w, K, rows - 2);
      PairCellCounts(w, K, rows - 2, K);
    }
  }

  /** A pair's nonzeros are those of its two rows. */
  lemma {:induction false} PairRows(w: seq<Int8>, K: nat, r: nat, c: nat)
    ensures PairNz(w, K, r, c) == RowNz(w, K, r, c) + RowNz(w, K, r + 1, c)
  {
    if c > 0 {
      PairRows(w, K, r, c - 1);
    }
  }

  /** The pair scan over rows 0..rows-1 (rows even) counts the nonzeros of
      those rows: the four-row loop and the two-row loop see the same P as a
      plain row scan. */
  lemma {:induction false} PairedRows(w: seq<Int8>, K: nat, rows: nat)
    requires rows % 2 == 0
    ensures PairedNz(w, K, rows) == RowsNz(w, K, 0, rows)
  {
    if rows >= 2 {
      PairedRows(w, K, rows - 2);
      PairRows(w, K, rows - 2, K);
    }
  }

  /** P + R is the number of nonzero weights. */
  lemma PairedPlusTrailing(w: seq<Int8>, M: nat, K: nat)
    requires |w| == M * K
    ensures PairedNz(w, K, M / 2 * 2) + TrailingNz(w, M, K) == NonzeroCount(w)
  {
    PairedRows(w, K, M / 2 * 2);
    RowsNzSplit(w, K, 0, M / 2 * 2, M);
    MatrixNonzeros(w, M, K);
  }

  /** The counts the profiler reports, in both layouts. The zero count is
      always height * width minus the value count; in the unstructured layout
      it is the true number of zeros (what ComputeSparseZeros returns over the
      whole matrix), there is one group per row and one unit per nonzero; in
      the block layout there are ceil(M/2) groups, 2B + R values and B + R
      units. */
  lemma ProfileCounts(w: seq<Int8>, M: nat, K: nat)
    requires |w| == M * K
    ensures var p := Profile(w, M, K);
      var P := PairedNz(w, K, M / 2 * 2);
      var B := ActiveBlocks(w, K, M / 2 * 2);
      var R := TrailingNz(w, M, K);
      && p.zeros == M * K - p.nonzeroes
      && p.blocks <= p.nonzeroes
      && (p.semi <==> M > 1 && 5 * P >= 9 * B)
      && (!p.semi ==> p.channels == M && p.nonzeroes == p.blocks == NonzeroCount(w)
                      && p.zeros == ZeroCount(w))
      && (p.semi ==> p.channels == (M + 1) / 2 && p.nonzeroes == 2 * B + R && p.blocks == B + R)
  {
    PairedPlusTrailing(w, M, K);
    ZeroNonzeroSplit(w);
  }

  /** In the block layout the zeros stored to fill active pair cells,
      2B - P, are at most a tenth of the 2B paired slots: the chosen blocks
      are at least 90% nonzero. */
  lemma SemiPadding(w: seq<Int8>, M: nat, K: nat)
    requires Profile(w, M, K).semi
    ensures var P := PairedNz(w, K, M / 2 * 2);
      var B := ActiveBlocks(w, K, M / 2 * 2);
      0 <= 2 * B - P && 10 * (2 * B - P) <= 2 * B
  {
    BlockCounts(w, K, M / 2 * 2);
  }

  /** The rule compares the paired nonzeros P with the active cells B; since
      P == B + F, it holds exactly when the full cells F are at least 80% of
      the active cells. */
  lemma DecisionByFullCells(w: seq<Int8>, M: nat, K: nat)
    ensures Profile(w, M, K).semi
            <==> M > 1 && 5 * FullBlocks(w, K, M / 2 * 2) >= 4 * ActiveBlocks(w, K, M / 2 * 2)
  {
    BlockCounts(w, K, M / 2 * 2);
  }

  /** The caller skips encoding when height * width - zeros <= 0; in either
      layout that happens exactly for an all-zero matrix. */
  lemma SkipIffAllZero(w: seq<Int8>, M: nat, K: nat)
    requires |w| == M * K
    ensures M * K - Profile(w, M, K).zeros <= 0 <==> NonzeroCount(w) == 0
  {
    PairedPlusTrailing(w, M, K);
    BlockCounts(w, K, M / 2 * 2);
  }
}
