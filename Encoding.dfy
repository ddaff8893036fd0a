/** What the sparse encoders produce, as functions of the weight matrix: the
    retained units in scan order, the packed values, the cumulative per-group
    counts and the pointer-advance deltas. */
module Encoding {
  import opened Weights
  import opened Profiler

  /** `flag_semi == 0`: one unit per nonzero element, one group per row.
      `flag_semi == 1`: one unit per active cell of a row pair, one group per
      pair, and the odd last row scanned element by element as a last group. */
  datatype Layout = Unstructured | Semi

  /** A retained unit: the first row of its group and its column. */
  datatype Unit = Unit(row: nat, col: nat)

  /** Number of groups: M rows, or ceil(M/2) pairs and odd last row. */
  function GroupCount(M: nat, L: Layout): nat {
    if L == Unstructured then M else M / 2 + M % 2
  }

  /** First row of group g. */
  function GroupRow(L: Layout, g: nat): nat {
    if L == Unstructured then g else 2 * g
  }

  /** Units of row r among columns 0..c-1: its nonzero cells. */
  function RowScan(w: seq<Int8>, K: nat, r: nat, c: nat): seq<Unit> {
    if c == 0 then []
    else RowScan(w, K, r, c - 1) + (if Cell(w, K, r, c - 1) != 0 then [Unit(r, c - 1)] else [])
  }

  /** Units of the pair r, r+1 among columns 0..c-1: the columns where
      either row is nonzero. */
  function PairScan(w: seq<Int8>, K: nat, r: nat, c: nat): seq<Unit> {
    if c == 0 then []
    else PairScan(w, K, r, c - 1)
         + (if Cell(w, K, r, c - 1) != 0 || Cell(w, K, r + 1, c - 1) != 0 then [Unit(r, c - 1)] else [])
  }

  /** Units of group g among columns 0..c-1: a pair scan for a full row pair,
      a row scan otherwise. */
  function GroupScan(w: seq<Int8>, M: nat, K: nat, L: Layout, g: nat, c: nat): seq<Unit> {
    if L == Semi && 2 * g + 1 < M then PairScan(w, K, 2 * g, c) else RowScan(w, K, GroupRow(L, g), c)
  }

  /** Units of group g. */
  function GroupUnits(w: seq<Int8>, M: nat, K: nat, L: Layout, g: nat): seq<Unit> {
    GroupScan(w, M, K, L, g, K)
  }

  /** Units of groups 0..g-1, in scan order. */
  function Units(w: seq<Int8>, M: nat, K: nat, L: Layout, g: nat): seq<Unit> {
    if g == 0 then [] else Units(w, M, K, L, g - 1) + GroupUnits(w, M, K, L, g - 1)
  }

  /** Cumulative unit counts of groups 0..g-1 (the `oc_nonzeros` entries). */
  function Cum(w: seq<Int8>, M: nat, K: nat, L: Layout, g: nat): seq<nat> {
    if g == 0 then [] else Cum(w, M, K, L, g - 1) + [|Units(w, M, K, L, g)|]
  }

  /** A unit stores the values of two rows when it is a pair cell. */
  predicate Paired(M: nat, L: Layout, u: Unit) {
    L == Semi && u.row + 1 < M
  }

  /** The values a unit stores, in row order. */
  function UnitValues(w: seq<Int8>, M: nat, K: nat, L: Layout, u: Unit): seq<Int8> {
    if Paired(M, L, u) then [Cell(w, K, u.row, u.col), Cell(w, K, u.row + 1, u.col)]
    else [Cell(w, K, u.row, u.col)]
  }

  /** The packed values of a unit sequence. */
  function ValuesOf(w: seq<Int8>, M: nat, K: nat, L: Layout, us: seq<Unit>): seq<Int8> {
    if |us| == 0 then []
    else ValuesOf(w, M, K, L, us[..|us| - 1]) + UnitValues(w, M, K, L, us[|us| - 1])
  }

  /** A column difference d scaled to bytes (`sizeof(T)` is s) and to the
      N-element stride of the activation rows. */
  function Stride(d: int, s: int, N: int): int {
    d * s * N
  }

  /** Delta j of n units grouped by cum: the last is the wrap back to the first
      column; the last unit of a group before the last unit holds the running
      total from the first column to the next unit's column; every other
      delta is the step to the next unit's column. */
  function Delta(us: seq<Unit>, cum: seq<nat>, s: int, N: int, j: nat): int
    requires j < |us|
  {
    if j == |us| - 1 then Stride(us[0].col - us[j].col, s, N)
    else if j + 1 in cum then Stride(us[j + 1].col - us[0].col, s, N)
    else Stride(us[j + 1].col - us[j].col, s, N)
  }

  function Deltas(us: seq<Unit>, cum: seq<nat>, s: int, N: int): (d: seq<int>)
    ensures |d| == |us|
    ensures forall j :: 0 <= j < |us| ==> d[j] == Delta(us, cum, s, N, j)
  {
    seq(|us|, j requires 0 <= j < |us| => Delta(us, cum, s, N, j))
  }

  /** Column of the first unit, 0 when there is none. */
  function FirstCol(us: seq<Unit>): nat {
    if |us| == 0 then 0 else us[0].col
  }

  /** The three buffers and the returned `first_ic`. */
  datatype EncodedWeights = EncodedWeights(
    values: seq<Int8>,       // nonzero_output
    prefixCounts: seq<nat>,  // oc_nonzeros[0 .. groups)
    deltas: seq<int>,        // diffs
    firstCol: nat)           // first_ic

  function Encode(w: seq<Int8>, M: nat, K: nat, N: int, s: int, L: Layout): EncodedWeights {
    var us := Units(w, M, K, L, GroupCount(M, L));
    var cum := Cum(w, M, K, L, GroupCount(M, L));
    EncodedWeights(ValuesOf(w, M, K, L, us), cum, Deltas(us, cum, s, N), FirstCol(us))
  }

  /** The layout the profiler chose. */
  function LayoutOf(p: SparsityProfile): Layout {
    if p.semi then Semi else Unstructured
  }

  /** cum is a running total ending at n. */
  predicate PrefixCounts(cum: seq<nat>, n: nat) {
    (forall i, k :: 0 <= i <= k < |cum| ==> cum[i] <= cum[k]) &&
    (if |cum| == 0 then n == 0 else cum[|cum| - 1] == n)
  }

  // ---------------------------------------------------------------------
  // Replaying the deltas

  /** Byte offset of unit j's column as a kernel recovers it from the deltas
      alone: unit 0 starts at the first column; the first unit of a later
      group starts at the first column plus the running total stored at the
      end of the previous group; any other unit is one delta past the
      previous one. */
  function Replay(first: nat, cum: seq<nat>, d: seq<int>, s: int, N: int, j: nat): int
    requires j <= |d|
  {
    if j == 0 then Stride(first, s, N)
    else if j in cum then Stride(first, s, N) + d[j - 1]
    else Replay(first, cum, d, s, N, j - 1) + d[j - 1]
  }

  lemma StrideAdd(a: int, b: int, s: int, N: int)
    ensures Stride(a, s, N) + Stride(b, s, N) == Stride(a + b, s, N)
  {
    assert (a + b) * s == a * s + b * s;
    assert (a * s + b * s) * N == a * s * N + b * s * N;
  }

  /** Replaying the deltas from first_ic recovers every unit's column. */
  lemma {:induction false} ReplayRoundTrip(us: seq<Unit>, cum: seq<nat>, s: int, N: int, j: nat)
    requires j < |us|
    ensures Replay(FirstCol(us), cum, Deltas(us, cum, s, N), s, N, j) == Stride(us[j].col, s, N)
  {
    var d := Deltas(us, cum, s, N);
    if j > 0 {
      assert d[j - 1] == Delta(us, cum, s, N, j - 1);
      if j in cum {
        StrideAdd(us[0].col, us[j].col - us[0].col, s, N);
      } else {
        ReplayRoundTrip(us, cum, s, N, j - 1);
        StrideAdd(us[j - 1].col, us[j].col - us[j - 1].col, s, N);
      }
    }
  }

  /** After the last unit, the final delta returns to the first column. */
  lemma ReplayWraps(us: seq<Unit>, cum: seq<nat>, s: int, N: int)
    requires |us| > 0
    ensures Replay(FirstCol(us), cum, Deltas(us, cum, s, N), s, N, |us| - 1)
            + Deltas(us, cum, s, N)[|us| - 1] == Stride(FirstCol(us), s, N)
  {
    ReplayRoundTrip(us, cum, s, N, |us| - 1);
    StrideAdd(us[|us| - 1].col, us[0].col - us[|us| - 1].col, s, N);
  }

  // ---------------------------------------------------------------------
  // Structure of the scans

  /** A row scan retains only nonzero cells of row r, as many as the row
      has, in strictly increasing column order. */
  lemma {:induction false} RowScanFacts(w: seq<Int8>, K: nat, r: nat, c: nat)
    ensures var us := RowScan(w, K, r, c);
      |us| == RowNz(w, K, r, c) &&
      (forall j :: 0 <= j < |us| ==> us[j].row == r && us[j].col < c && Cell(w, K, r, us[j].col) != 0) &&
      (forall i, j :: 0 <= i < j < |us| ==> us[i].col < us[j].col)
  {
    if c > 0 {
      RowScanFacts(w, K, r, c - 1);
    }
  }

  /** Every nonzero cell of row r among the scanned columns is retained. */
  lemma {:induction false} RowScanComplete(w: seq<Int8>, K: nat, r: nat, c: nat, x: nat)
    requires x < c && Cell(w, K, r, x) != 0
    ensures Unit(r, x) in RowScan(w, K, r, c)
    decreases c
  {
    if x < c - 1 {
      RowScanComplete(w, K, r, c - 1, x);
    }
  }

  /** A pair scan retains only active cells of the pair r, r+1, as many as
      the pair has, in strictly increasing column order. */
  lemma {:induction false} PairScanFacts(w: seq<Int8>, K: nat, r: nat, c: nat)
    ensures var us := PairScan(w, K, r, c);
      |us| == PairActive(w, K, r, c) &&
      (forall j :: 0 <= j < |us| ==>
        us[j].row == r && us[j].col < c &&
        (Cell(w, K, r, us[j].col) != 0 || Cell(w, K, r + 1, us[j].col) != 0)) &&
      (forall i, j :: 0 <= i < j < |us| ==> us[i].col < us[j].col)
  {
    if c > 0 {
      PairScanFacts(w, K, r, c - 1);
    }
  }

  /** Every active cell of the pair r, r+1 among the scanned columns is
      retained. */
  lemma {:induction false} PairScanComplete(w: seq<Int8>, K: nat, r: nat, c: nat, x: nat)
    requires x < c && (Cell(w, K, r, x) != 0 || Cell(w, K, r + 1, x) != 0)
    ensures Unit(r, x) in PairScan(w, K, r, c)
    decreases c
  {
    if x < c - 1 {
      PairScanComplete(w, K, r, c - 1, x);
    }
  }

  /** Scanning fewer columns yields a prefix. */
  lemma {:induction false} ScanPrefix(w: seq<Int8>, K: nat, r: nat, c1: nat, c2: nat)
    requires c1 <= c2
    ensures RowScan(w, K, r, c1) <= RowScan(w, K, r, c2)
    ensures PairScan(w, K, r, c1) <= PairScan(w, K, r, c2)
    decreases c2
  {
    if c1 < c2 {
      ScanPrefix(w, K, r, c1, c2 - 1);
    }
  }

  /** Scanning fewer groups yields a prefix. */
  lemma {:induction false} UnitsPrefix(w: seq<Int8>, M: nat, K: nat, L: Layout, g1: nat, g2: nat)
    requires g1 <= g2
    ensures Units(w, M, K, L, g1) <= Units(w, M, K, L, g2)
    decreases g2
  {
    if g1 < g2 {
      UnitsPrefix(w, M, K, L, g1, g2 - 1);
    }
  }

  /** Packing is a homomorphism over concatenation. */
  lemma {:induction false} ValuesAppend(w: seq<Int8>, M: nat, K: nat, L: Layout, us: seq<Unit>, vs: seq<Unit>)
    ensures ValuesOf(w, M, K, L, us + vs) == ValuesOf(w, M, K, L, us) + ValuesOf(w, M, K, L, vs)
    decreases |vs|
  {
    if |vs| == 0 {
      assert us + vs == us;
    } else {
      var vs' := vs[..|vs| - 1];
      assert (us + vs)[..|us + vs| - 1] == us + vs';
      assert (us + vs)[|us + vs| - 1] == vs[|vs| - 1];
      ValuesAppend(w, M, K, L, us, vs');
      assert ValuesOf(w, M, K, L, us + vs)
          == ValuesOf(w, M, K, L, us + vs') + UnitValues(w, M, K, L, vs[|vs| - 1]);
    }
  }

  /** The prefix counts: one entry per group, entry i counts the units of
      groups 0..i, non-decreasing, ending at the number of units. */
  lemma CumFacts(w: seq<Int8>, M: nat, K: nat, L: Layout, g: nat)
    ensures var cum := Cum(w, M, K, L, g);
      |cum| == g &&
      (forall i :: 0 <= i < g ==> cum[i] == |Units(w, M, K, L, i + 1)|) &&
      PrefixCounts(cum, |Units(w, M, K, L, g)|)
  {
    var cum := Cum(w, M, K, L, g);
    forall i, k | 0 <= i <= k < g
      ensures cum[i] <= cum[k]
    {
      CumMonotone(w, M, K, L, g, i, k);
    }
    CumEntries(w, M, K, L, g);
    if g > 0 {
      assert cum[g - 1] == |Units(w, M, K, L, g)|;
    }
  }

  /** Later prefix counts are at least as large. */
  lemma CumMonotone(w: seq<Int8>, M: nat, K: nat, L: Layout, g: nat, i: nat, k: nat)
    requires i <= k < g
    ensures |Cum(w, M, K, L, g)| == g && Cum(w, M, K, L, g)[i] <= Cum(w, M, K, L, g)[k]
  {
    CumEntries(w, M, K, L, g);
    UnitsPrefix(w, M, K, L, i + 1, k + 1);
  }

  /** Entry i of the prefix counts is the number of units of groups 0..i. */
  lemma {:induction false} CumEntries(w: seq<Int8>, M: nat, K: nat, L: Layout, g: nat)
    ensures var cum := Cum(w, M, K, L, g);
      |cum| == g && forall i :: 0 <= i < g ==> cum[i] == |Units(w, M, K, L, i + 1)|
  {
    if g > 0 {
      CumEntries(w, M, K, L, g - 1);
    }
  }

  /** Units that all store two rows pack two values each: the value of the
      unit's first row, then the value of the row below. */
  lemma {:induction false} PairedValues(w: seq<Int8>, M: nat, K: nat, L: Layout, us: seq<Unit>)
    requires forall j :: 0 <= j < |us| ==> Paired(M, L, us[j])
    ensures var v := ValuesOf(w, M, K, L, us);
      |v| == 2 * |us| &&
      forall j :: 0 <= j < |us| ==>
        v[2 * j] == Cell(w, K, us[j].row, us[j].col) && v[2 * j + 1] == Cell(w, K, us[j].row + 1, us[j].col)
  {
    if |us| > 0 {
      var n := |us| - 1;
      var prev := us[..n];
      PairedValues(w, M, K, L, prev);
      var vp := ValuesOf(w, M, K, L, prev);
      var v := ValuesOf(w, M, K, L, us);
      assert v == vp + UnitValues(w, M, K, L, us[n]);
      forall j | 0 <= j < |us|
        ensures v[2 * j] == Cell(w, K, us[j].row, us[j].col) && v[2 * j + 1] == Cell(w, K, us[j].row + 1, us[j].col)
      {
        if j < n {
          assert prev[j] == us[j];
        }
      }
    }
  }

  /** Units that all store one row pack one value each. */
  lemma {:induction false} SingleValues(w: seq<Int8>, M: nat, K: nat, L: Layout, us: seq<Unit>)
    requires forall j :: 0 <= j < |us| ==> !Paired(M, L, us[j])
    ensures var v := ValuesOf(w, M, K, L, us);
      |v| == |us| && forall j :: 0 <= j < |us| ==> v[j] == Cell(w, K, us[j].row, us[j].col)
  {
    if |us| > 0 {
      SingleValues(w, M, K, L, us[..|us| - 1]);
    }
  }

  // ---------------------------------------------------------------------
  // The unstructured layout

  /** Scanning rows 0..r-1 and then columns 0..c-1 of row r packs exactly the
      nonzero elements of the flat prefix, in row-major order. */
  lemma {:induction false} UnstructuredPrefix(w: seq<Int8>, M: nat, K: nat, r: nat, c: nat, base: nat)
    requires |w| == M * K && r < M && c <= K && base == r * K
    ensures base + c <= |w|
    ensures ValuesOf(w, M, K, Unstructured, Units(w, M, K, Unstructured, r) + RowScan(w, K, r, c))
            == Nonzeros(w[..base + c])
    decreases r, c, 1
  {
    if c == 0 {
      UnstructuredRowStart(w, M, K, r, base);
    } else {
      UnstructuredStep(w, M, K, r, c, base);
    }
  }

  /** The start of a row in the induction of UnstructuredPrefix. */
  lemma {:induction false} UnstructuredRowStart(w: seq<Int8>, M: nat, K: nat, r: nat, base: nat)
    requires |w| == M * K && r < M && base == r * K
    ensures base <= |w|
    ensures ValuesOf(w, M, K, Unstructured, Units(w, M, K, Unstructured, r) + RowScan(w, K, r, 0))
            == Nonzeros(w[..base])
    decreases r, 0, 0
  {
    RowStart(M, K, r);
    var us := Units(w, M, K, Unstructured, r);
    assert us + RowScan(w, K, r, 0) == us;
    if r > 0 {
      RowEnd(K, r - 1);
      UnstructuredPrefix(w, M, K, r - 1, K, base - K);
      assert us == Units(w, M, K, Unstructured, r - 1) + RowScan(w, K, r - 1, K);
    } else {
      assert us == [];
    }
  }

  /** One column of the induction in UnstructuredPrefix. */
  lemma {:induction false} UnstructuredStep(w: seq<Int8>, M: nat, K: nat, r: nat, c: nat, base: nat)
    requires |w| == M * K && r < M && 0 < c <= K && base == r * K
    ensures base + c <= |w|
    ensures ValuesOf(w, M, K, Unstructured, Units(w, M, K, Unstructured, r) + RowScan(w, K, r, c))
            == Nonzeros(w[..base + c])
    decreases r, c, 0
  {
    var x := Cell(w, K, r, c - 1);
    CellAtBase(w, M, K, r, c - 1, base);
    UnstructuredPrefix(w, M, K, r, c - 1, base);
    RowScanStep(w, K, r, c);
    PackStep(w, M, K, Units(w, M, K, Unstructured, r), RowScan(w, K, r, c - 1), RowScan(w, K, r, c),
             r, c - 1, base + (c - 1), x);
  }

  /** Scanning one more column appends that cell's unit when it is nonzero. */
  lemma RowScanStep(w: seq<Int8>, K: nat, r: nat, c: nat)
    requires 0 < c
    ensures var x := Cell(w, K, r, c - 1);
      RowScan(w, K, r, c) == RowScan(w, K, r, c - 1) + (if x != 0 then [Unit(r, c - 1)] else [])
  {
  }

  /** CellAt with the row start r * K named base. */
  lemma CellAtBase(w: seq<Int8>, M: nat, K: nat, r: nat, c: nat, base: nat)
    requires |w| == M * K && r < M && c < K && base == r * K
    ensures base + c < |w| && Cell(w, K, r, c) == w[base + c]
  {
    CellAt(w, M, K, r, c);
  }

  /** Scanning the cell (r, c) = element i after units packing the nonzeros
      before i packs the nonzeros through i. */
  lemma PackStep(w: seq<Int8>, M: nat, K: nat, us: seq<Unit>, rs: seq<Unit>, rs': seq<Unit>,
                 r: nat, c: nat, i: nat, x: Int8)
    requires i < |w| && x == w[i]
    requires rs' == rs + (if x != 0 then [Unit(r, c)] else [])
    requires ValuesOf(w, M, K, Unstructured, us + rs) == Nonzeros(w[..i])
    requires Cell(w, K, r, c) == x
    ensures ValuesOf(w, M, K, Unstructured, us + rs') == Nonzeros(w[..i + 1])
  {
    var last: seq<Unit> := if x != 0 then [Unit(r, c)] else [];
    assert us + rs' == (us + rs) + last;
    ValuesAppend(w, M, K, Unstructured, us + rs, last);
    CellValues(w, M, K, r, c);
    NonzerosSnoc(w, i);
  }

  /** The unstructured units of one cell pack its value when it is nonzero. */
  lemma CellValues(w: seq<Int8>, M: nat, K: nat, r: nat, c: nat)
    ensures var x := Cell(w, K, r, c);
      var last: seq<Unit> := if x != 0 then [Unit(r, c)] else [];
      ValuesOf(w, M, K, Unstructured, last) == (if x != 0 then [x] else [])
  {
    var last: seq<Unit> := [Unit(r, c)];
    assert last[..0] == [];
  }

  /** Entry r of the unstructured prefix counts is the number of nonzeros in
      rows 0..r. */
  lemma UnstructuredCount(w: seq<Int8>, M: nat, K: nat, r: nat, base: nat)
    requires |w| == M * K && r < M && base == r * K
    ensures base + K <= |w|
    ensures |Units(w, M, K, Unstructured, r + 1)| == NonzeroCount(w[..base + K])
  {
    UnstructuredPrefix(w, M, K, r, K, base);
    NonzerosFacts(w[..base + K]);
    var us := Units(w, M, K, Unstructured, r + 1);
    assert us == Units(w, M, K, Unstructured, r) + RowScan(w, K, r, K);
    SingleValues(w, M, K, Unstructured, us);
  }

  /** Packing all M rows packs the nonzeros of the whole matrix. */
  lemma UnstructuredValues(w: seq<Int8>, M: nat, K: nat)
    requires |w| == M * K
    ensures ValuesOf(w, M, K, Unstructured, Units(w, M, K, Unstructured, M)) == Nonzeros(w)
  {
    if M == 0 {
      assert w == [];
    } else {
      UnstructuredLastRow(w, M, K, M - 1);
    }
  }

  /** UnstructuredValues for M = r + 1 rows: the prefix through the end of
      row r is the whole buffer. */
  lemma UnstructuredLastRow(w: seq<Int8>, M: nat, K: nat, r: nat)
    requires |w| == M * K && M == r + 1
    ensures ValuesOf(w, M, K, Unstructured, Units(w, M, K, Unstructured, M)) == Nonzeros(w)
  {
    UnstructuredPrefix(w, M, K, r, K, r * K);
    RowEnd(K, r);
    assert w[..r * K + K] == w;
    assert Units(w, M, K, Unstructured, M) == Units(w, M, K, Unstructured, r) + RowScan(w, K, r, K);
  }

  /** Entry r of the unstructured prefix counts, for every row r. */
  lemma UnstructuredCounts(w: seq<Int8>, M: nat, K: nat)
    requires |w| == M * K
    ensures var cum := Cum(w, M, K, Unstructured, M);
      |cum| == M &&
      forall r :: 0 <= r < M ==> r * K + K <= |w| && cum[r] == NonzeroCount(w[..r * K + K])
  {
    CumEntries(w, M, K, Unstructured, M);
    forall r | 0 <= r < M
      ensures r * K + K <= |w| && Cum(w, M, K, Unstructured, M)[r] == NonzeroCount(w[..r * K + K])
    {
      UnstructuredCount(w, M, K, r, r * K);
    }
  }

  /** The unstructured encoding: the packed values are the nonzero elements
      of the matrix in row-major order, one delta per value, and entry r of
      the prefix counts is the number of nonzeros in rows 0..r. */
  lemma UnstructuredEncoding(w: seq<Int8>, M: nat, K: nat, N: int, s: int)
    requires |w| == M * K
    ensures var e := Encode(w, M, K, N, s, Unstructured);
      e.values == Nonzeros(w) &&
      |e.deltas| == |e.values| == NonzeroCount(w) &&
      |e.prefixCounts| == M &&
      PrefixCounts(e.prefixCounts, |e.deltas|) &&
      forall r :: 0 <= r < M ==> r * K + K <= |w| && e.prefixCounts[r] == NonzeroCount(w[..r * K + K])
  {
    var us := Units(w, M, K, Unstructured, M);
    assert PrefixCounts(Cum(w, M, K, Unstructured, M), |us|) by {
      CumFacts(w, M, K, Unstructured, M);
    }
    assert |ValuesOf(w, M, K, Unstructured, us)| == |us| by {
      SingleValues(w, M, K, Unstructured, us);
    }
    UnstructuredValues(w, M, K);
    NonzerosFacts(w);
    UnstructuredCounts(w, M, K);
  }

  // ---------------------------------------------------------------------
  // The semi-structured layout

  /** The first g pair groups hold one two-row unit per active cell. */
  lemma {:induction false} SemiPairUnits(w: seq<Int8>, M: nat, K: nat, g: nat)
    requires 2 * g <= M
    ensures var us := Units(w, M, K, Semi, g);
      |us| == ActiveBlocks(w, K, 2 * g) &&
      forall j :: 0 <= j < |us| ==> Paired(M, Semi, us[j])
  {
    if g > 0 {
      SemiPairUnits(w, M, K, g - 1);
      PairScanFacts(w, K, 2 * (g - 1), K);
      var us := Units(w, M, K, Semi, g);
      var prev := Units(w, M, K, Semi, g - 1);
      assert us == prev + PairScan(w, K, 2 * (g - 1), K);
      assert forall j :: |prev| <= j < |us| ==> us[j].row == 2 * (g - 1);
    }
  }

  /** The semi-structured encoding: B two-row units for the active cells of
      the row pairs, R one-row units for the nonzeros of an odd last row, so
      2B + R values, B + R deltas and ceil(M/2) prefix counts. */
  lemma SemiEncoding(w: seq<Int8>, M: nat, K: nat, N: int, s: int)
    requires |w| == M * K
    ensures var e := Encode(w, M, K, N, s, Semi);
      var B := ActiveBlocks(w, K, M / 2 * 2);
      var R := TrailingNz(w, M, K);
      |e.values| == 2 * B + R &&
      |e.deltas| == B + R &&
      |e.prefixCounts| == M / 2 + M % 2 &&
      PrefixCounts(e.prefixCounts, |e.deltas|)
  {
    var G := GroupCount(M, Semi);
    var us := Units(w, M, K, Semi, G);
    SemiSizes(w, M, K);
    assert |Cum(w, M, K, Semi, G)| == G && PrefixCounts(Cum(w, M, K, Semi, G), |us|) by {
      CumFacts(w, M, K, Semi, G);
    }
  }

  /** The semi-structured units: B paired units and R single ones. */
  lemma SemiSizes(w: seq<Int8>, M: nat, K: nat)
    ensures var us := Units(w, M, K, Semi, M / 2 + M % 2);
      var B := ActiveBlocks(w, K, M / 2 * 2);
      var R := TrailingNz(w, M, K);
      |us| == B + R && |ValuesOf(w, M, K, Semi, us)| == 2 * B + R
  {
    var h := M / 2;
    Halves(M);
    if M % 2 == 1 {
      SemiSizesOdd(w, M, K, h);
    } else {
      SemiSizesEven(w, M, K, h);
    }
  }

  /** M is 2 * (M / 2) plus M % 2. */
  lemma Halves(M: nat)
    ensures M / 2 * 2 == 2 * (M / 2)
    ensures M % 2 == 1 ==> M == 2 * (M / 2) + 1 && M / 2 + M % 2 == M / 2 + 1
    ensures M % 2 == 0 ==> M == 2 * (M / 2) && M / 2 + M % 2 == M / 2
  {
  }

  /** An even row count: only pair groups. */
  lemma SemiSizesEven(w: seq<Int8>, M: nat, K: nat, h: nat)
    requires M == 2 * h
    ensures var us := Units(w, M, K, Semi, h);
      |us| == ActiveBlocks(w, K, 2 * h) + TrailingNz(w, M, K) &&
      |ValuesOf(w, M, K, Semi, us)| == 2 * ActiveBlocks(w, K, 2 * h) + TrailingNz(w, M, K)
  {
    SemiPairSizes(w, M, K, h);
    assert TrailingNz(w, M, K) == 0;
  }

  /** An odd row count: pair groups, then the last row as one more group. */
  lemma SemiSizesOdd(w: seq<Int8>, M: nat, K: nat, h: nat)
    requires M == 2 * h + 1
    ensures var us := Units(w, M, K, Semi, h + 1);
      |us| == ActiveBlocks(w, K, 2 * h) + TrailingNz(w, M, K) &&
      |ValuesOf(w, M, K, Semi, us)| == 2 * ActiveBlocks(w, K, 2 * h) + TrailingNz(w, M, K)
  {
    var pairs := Units(w, M, K, Semi, h);
    var tail := RowScan(w, K, 2 * h, K);
    SemiPairSizes(w, M, K, h);
    SemiTailSizes(w, M, K);
    assert Units(w, M, K, Semi, h + 1) == pairs + tail;
    ValuesAppend(w, M, K, Semi, pairs, tail);
  }

  /** The first h pair groups hold B units of two values each. */
  lemma SemiPairSizes(w: seq<Int8>, M: nat, K: nat, h: nat)
    requires 2 * h <= M
    ensures var pairs := Units(w, M, K, Semi, h);
      |pairs| == ActiveBlocks(w, K, 2 * h) && |ValuesOf(w, M, K, Semi, pairs)| == 2 * |pairs|
  {
    SemiPairUnits(w, M, K, h);
    PairedValues(w, M, K, Semi, Units(w, M, K, Semi, h));
  }

  /** An odd last row holds R single units. */
  lemma SemiTailSizes(w: seq<Int8>, M: nat, K: nat)
    requires M % 2 == 1
    ensures var tail := RowScan(w, K, M - 1, K);
      M / 2 * 2 == M - 1 &&
      |tail| == TrailingNz(w, M, K) && |ValuesOf(w, M, K, Semi, tail)| == |tail|
  {
    var tail := RowScan(w, K, M - 1, K);
    assert TrailingNz(w, M, K) == RowsNz(w, K, M - 1, M);
    assert RowsNz(w, K, M - 1, M) == RowNz(w, K, M - 1, K);
    RowScanFacts(w, K, M - 1, K);
    SingleValues(w, M, K, Semi, tail);
  }

  /** Encoding with the layout the profiler chose fills exactly the buffer
      sizes the profiler reported: count_nonzeroes values, count_blocks
      deltas and count_channels prefix counts. */
  lemma EncodeMatchesProfile(w: seq<Int8>, M: nat, K: nat, N: int, s: int)
    requires |w| == M * K
    ensures var p := Profile(w, M, K);
      var e := Encode(w, M, K, N, s, LayoutOf(p));
      |e.values| == p.nonzeroes &&
      |e.deltas| == p.blocks &&
      |e.prefixCounts| == p.channels == GroupCount(M, LayoutOf(p))
  {
    ProfileCounts(w, M, K);
    if Profile(w, M, K).semi {
      SemiEncoding(w, M, K, N, s);
    } else {
      UnstructuredEncoding(w, M, K, N, s);
    }
  }
}
