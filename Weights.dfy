/** The dense weight matrix: an M x K row-major buffer of 8-bit signed
    integers, and counts of its zero and nonzero elements. */
module Weights {

  /** The element type `int8_t` the routines are instantiated with. */
  newtype Int8 = x: int | -128 <= x < 128

  function B2I(b: bool): nat { if b then 1 else 0 }

  /** Element (r, c) of a row-major matrix with K columns, read at
      `r * K + c`; a position past the end of the buffer reads as 0. */
  function Cell(w: seq<Int8>, K: nat, r: nat, c: nat): Int8 {
    if r * K + c < |w| then w[r * K + c] else 0
  }

  /** A product of naturals is a natural. */
  lemma MulNonneg(a: nat, b: nat)
    ensures a * b >= 0
  {
  }

  /** The first r rows of an M x K matrix lie inside the buffer. */
  lemma RowStart(M: nat, K: nat, r: nat)
    requires r <= M
    ensures r * K <= M * K
  {
    MulNonneg(M - r, K);
    assert M * K == r * K + (M - r) * K;
  }

  /** Row r ends where row r + 1 starts. */
  lemma RowEnd(K: nat, r: nat)
    ensures r * K + K == (r + 1) * K
  {
  }

  /** A cell of an M x K matrix lies inside the buffer. */
  lemma CellIndex(M: nat, K: nat, r: nat, c: nat)
    requires r < M && c < K
    ensures r * K + c < M * K
  {
    RowStart(M, K, r + 1);
    RowEnd(K, r);
  }

  /** Reading cell (r, c) of an M x K matrix reads the buffer at r * K + c. */
  lemma CellAt(w: seq<Int8>, M: nat, K: nat, r: nat, c: nat)
    requires |w| == M * K && r < M && c < K
    ensures r * K + c < |w| && Cell(w, K, r, c) == w[r * K + c]
  {
    CellIndex(M, K, r, c);
  }

  /** Number of zero elements of a flat buffer. */
  function ZeroCount(s: seq<Int8>): (n: nat)
    ensures n <= |s|
  {
    if |s| == 0 then 0 else ZeroCount(s[..|s| - 1]) + B2I(s[|s| - 1] == 0)
  }

  /** Number of nonzero elements of a flat buffer. */
  function NonzeroCount(s: seq<Int8>): (n: nat)
    ensures n <= |s|
  {
    if |s| == 0 then 0 else NonzeroCount(s[..|s| - 1]) + B2I(s[|s| - 1] != 0)
  }

  /** The nonzero elements of a flat buffer, in order. */
  function Nonzeros(s: seq<Int8>): seq<Int8> {
    if |s| == 0 then []
    else Nonzeros(s[..|s| - 1]) + (if s[|s| - 1] != 0 then [s[|s| - 1]] else [])
  }

  /** The kept elements are exactly NonzeroCount(s) many, and none is zero. */
  lemma {:induction false} NonzerosFacts(s: seq<Int8>)
    ensures |Nonzeros(s)| == NonzeroCount(s)
    ensures forall i :: 0 <= i < |Nonzeros(s)| ==> Nonzeros(s)[i] != 0
  {
    if |s| > 0 {
      NonzerosFacts(s[..|s| - 1]);
    }
  }

  /** Extending a prefix by one element extends its nonzeros by that element
      when it is nonzero. */
  lemma NonzerosSnoc(s: seq<Int8>, i: nat)
    requires i < |s|
    ensures Nonzeros(s[..i + 1]) == Nonzeros(s[..i]) + (if s[i] != 0 then [s[i]] else [])
  {
    assert s[..i + 1][..i] == s[..i];
  }

  /** Every element is either zero or nonzero. */
  lemma {:induction false} ZeroNonzeroSplit(s: seq<Int8>)
    ensures ZeroCount(s) + NonzeroCount(s) == |s|
  {
    if |s| > 0 {
      ZeroNonzeroSplit(s[..|s| - 1]);
    }
  }

  /** Nonzeros among columns 0..c-1 of row r. */
  function RowNz(w: seq<Int8>, K: nat, r: nat, c: nat): (n: nat)
    ensures n <= c
  {
    if c == 0 then 0 else RowNz(w, K, r, c - 1) + B2I(Cell(w, K, r, c - 1) != 0)
  }

  /** Nonzeros in rows lo..hi-1. */
  function RowsNz(w: seq<Int8>, K: nat, lo: nat, hi: nat): nat
    decreases hi
  {
    if hi <= lo then 0 else RowsNz(w, K, lo, hi - 1) + RowNz(w, K, hi - 1, K)
  }

  /** Counting rows lo..mid-1 and then mid..hi-1 counts rows lo..hi-1. */
  lemma {:induction false} RowsNzSplit(w: seq<Int8>, K: nat, lo: nat, mid: nat, hi: nat)
    requires lo <= mid <= hi
    ensures RowsNz(w, K, lo, mid) + RowsNz(w, K, mid, hi) == RowsNz(w, K, lo, hi)
    decreases hi
  {
    if hi > mid {
      RowsNzSplit(w, K, lo, mid, hi - 1);
    }
  }

  /** The flat prefix up to cell (r, c) holds the nonzeros of the rows
      above r and of the first c columns of row r. */
  lemma {:induction false} PrefixNonzeros(w: seq<Int8>, M: nat, K: nat, r: nat, c: nat)
    requires |w| == M * K
    requires r < M && c <= K
    ensures r * K + c <= |w|
    ensures NonzeroCount(w[..r * K + c]) == RowsNz(w, K, 0, r) + RowNz(w, K, r, c)
    decreases r, c
  {
    if c > 0 {
      PrefixNonzeros(w, M, K, r, c - 1);
      PrefixColumnStep(w, M, K, r, c);
    } else if r > 0 {
      PrefixNonzeros(w, M, K, r - 1, K);
      PrefixRowStep(w, M, K, r);
    } else {
      assert w[..r * K + c] == [];
    }
  }

  /** One more column in the induction of PrefixNonzeros. */
  lemma PrefixColumnStep(w: seq<Int8>, M: nat, K: nat, r: nat, c: nat)
    requires |w| == M * K && r < M && 0 < c <= K
    requires r * K + (c - 1) <= |w|
    requires NonzeroCount(w[..r * K + (c - 1)]) == RowsNz(w, K, 0, r) + RowNz(w, K, r, c - 1)
    ensures r * K + c <= |w|
    ensures NonzeroCount(w[..r * K + c]) == RowsNz(w, K, 0, r) + RowNz(w, K, r, c)
  {
    CellAt(w, M, K, r, c - 1);
    var i := r * K + (c - 1);
    assert w[..i + 1][..i] == w[..i];
  }

  /** The start of the next row in the induction of PrefixNonzeros. */
  lemma PrefixRowStep(w: seq<Int8>, M: nat, K: nat, r: nat)
    requires |w| == M * K && 0 < r < M
    requires (r - 1) * K + K <= |w|
    requires NonzeroCount(w[..(r - 1) * K + K]) == RowsNz(w, K, 0, r - 1) + RowNz(w, K, r - 1, K)
    ensures r * K <= |w|
    ensures NonzeroCount(w[..r * K]) == RowsNz(w, K, 0, r) + RowNz(w, K, r, 0)
  {
    RowEnd(K, r - 1);
  }

  /** The whole buffer holds the nonzeros of all M rows. */
  lemma MatrixNonzeros(w: seq<Int8>, M: nat, K: nat)
    requires |w| == M * K
    ensures NonzeroCount(w) == RowsNz(w, K, 0, M)
  {
    if M > 0 {
      PrefixNonzeros(w, M, K, M - 1, K);
      RowEnd(K, M - 1);
      assert w[..M * K] == w;
    }
  }

  /** Counting more columns of a row counts at least as many nonzeros. */
  lemma {:induction false} RowNzBound(w: seq<Int8>, K: nat, r: nat, c1: nat, c2: nat)
    requires c1 <= c2
    ensures RowNz(w, K, r, c1) <= RowNz(w, K, r, c2)
    decreases c2
  {
    if c1 < c2 {
      RowNzBound(w, K, r, c1, c2 - 1);
    }
  }
}
