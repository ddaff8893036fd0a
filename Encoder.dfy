/** The two encoders: ComputeSparseWeight (one unit per nonzero element,
    one group per output channel) and ComputeSemiSparseWeight (one unit per
    active cell of a pair of output channels), each filling the three output
    buffers in place and returning first_ic. */
module Encoder {
  import opened Weights
  import opened Profiler
  import opened Encoding

  /** Sum of a sequence of deltas. */
  function Sum(xs: seq<int>): int {
    if |xs| == 0 then 0 else Sum(xs[..|xs| - 1]) + xs[|xs| - 1]
  }

  /** diffs holds, for every unit but the last, the step from its column to
      the next unit's column: what the first pass of both encoders writes. */
  predicate RawSteps(diffs: seq<int>, us: seq<Unit>, s: int, N: int) {
    |us| <= |diffs| + 1 &&
    forall j {:trigger diffs[j]} :: 0 <= j < |us| - 1 ==> diffs[j] == Stride(us[j + 1].col - us[j].col, s, N)
  }

  /** The running total of the raw steps up to unit t is the distance from
      the first unit's column to unit t's column. */
  lemma {:induction false} Telescope(pre: seq<int>, us: seq<Unit>, s: int, N: int, t: nat)
    requires RawSteps(pre, us, s, N)
    requires t < |us| && t <= |pre|
    ensures Sum(pre[..t]) == Stride(us[t].col - us[0].col, s, N)
  {
    if t > 0 {
      Telescope(pre, us, s, N, t - 1);
      assert pre[..t][..t - 1] == pre[..t - 1];
      StrideAdd(us[t - 1].col - us[0].col, us[t].col - us[t - 1].col, s, N);
    }
  }

  /** Strictly inside group b no unit index is a group boundary. */
  lemma NotGroupEnd(cum: seq<nat>, b: nat, x: nat)
    requires b < |cum|
    requires forall i, k :: 0 <= i <= k < |cum| ==> cum[i] <= cum[k]
    requires (if b == 0 then 0 else cum[b - 1]) < x < cum[b]
    ensures x !in cum
  {
    forall i | 0 <= i < |cum|
      ensures cum[i] != x
    {
      if i < b {
        assert cum[i] <= cum[b - 1];
      } else {
        assert cum[b] <= cum[i];
      }
    }
  }


  /** The inner loop of the second pass: the raw steps of the next count
      units are added to the running total. */
  method SumGroup(diffs: array<int>, count: nat, tmpDiff: int, tmpIk: nat, ghost pre: seq<int>)
    returns (tmpDiff': int, tmpIk': nat)
    requires |pre| == diffs.Length && tmpIk + count <= diffs.Length
    requires forall j :: tmpIk <= j < diffs.Length ==> diffs[j] == pre[j]
    requires tmpDiff == Sum(pre[..tmpIk])
    ensures tmpIk' == tmpIk + count
    ensures tmpDiff' == Sum(pre[..tmpIk'])
  {
    tmpDiff', tmpIk' := tmpDiff, tmpIk;
    var ik := 0;
    while ik < count
      invariant 0 <= ik <= count && tmpIk' == tmpIk + ik
      invariant tmpDiff' == Sum(pre[..tmpIk'])
    {
      assert pre[..tmpIk' + 1][..tmpIk'] == pre[..tmpIk'];
      tmpDiff' := tmpDiff' + diffs[tmpIk'];
      tmpIk' := tmpIk' + 1;
      ik := ik + 1;
    }
  }

  /** The second pass shared by both encoders (`tmp_diff`, `tmp_ik`): walk
      the groups in order, accumulating the raw steps, and overwrite the delta
      of each group's last unit with the running total from the first unit.
      The first |us| - 1 deltas then follow Delta; the entry of the last unit
      reads an entry not yet written and is left for the wrap to overwrite. */
  method FoldDeltas(oc: array<nat>, G: nat, diffs: array<int>, ghost us: seq<Unit>, ghost s: int, ghost N: int)
    requires G <= oc.Length && |us| <= diffs.Length
    requires PrefixCounts(oc[..G], |us|)
    requires RawSteps(diffs[..], us, s, N)
    modifies diffs
    ensures forall j :: 0 <= j < |us| - 1 ==> diffs[j] == Delta(us, oc[..G], s, N, j)
    ensures forall j :: |us| <= j < diffs.Length ==> diffs[j] == old(diffs[j])
  {
    ghost var pre := diffs[..];
    ghost var cum := oc[..G];
    var tmpDiff := 0;
    var tmpIk := 0;
    var blockI := 0;
    while blockI < G
      invariant 0 <= blockI <= G
      invariant tmpIk == (if blockI == 0 then 0 else cum[blockI - 1])
      invariant tmpIk <= |us|
      invariant tmpDiff == Sum(pre[..tmpIk])
      invariant forall j :: tmpIk <= j < diffs.Length ==> diffs[j] == pre[j]
      invariant forall j :: 0 <= j < tmpIk && j < |us| - 1 ==> diffs[j] == Delta(us, cum, s, N, j)
    {
      var count := if blockI == 0 then oc[blockI] else oc[blockI] - oc[blockI - 1];
      ghost var start := tmpIk;
      tmpDiff, tmpIk := SumGroup(diffs, count, tmpDiff, tmpIk, pre);
      forall x | start < x < tmpIk
        ensures x !in cum
      {
        NotGroupEnd(cum, blockI, x);
      }
      if tmpIk != 0 {
        if tmpIk < |us| {
          Telescope(pre, us, s, N, tmpIk);
        }
        diffs[tmpIk - 1] := tmpDiff;
      }
      blockI := blockI + 1;
    }
  }

  /** The local state of the first pass of both encoders: the filled part
      of `nonzero_output`, the filled part of `diffs`, `first_nonzero`,
      `first_ic` and `last_ic`. */
  datatype Pass = Pass(values: seq<Int8>, diffs: seq<int>, firstNonzero: bool, firstIc: nat, lastIc: nat)

  /** Emitting one unit at column ic whose values are vs: append the values;
      the first unit sets first_ic, a later one appends the step from last_ic;
      last_ic becomes ic. */
  function Emit(p: Pass, vs: seq<Int8>, ic: nat, s: int, N: int): Pass {
    Pass(p.values + vs,
         if p.firstNonzero then p.diffs else p.diffs + [Stride(ic - p.lastIc, s, N)],
         false,
         if p.firstNonzero then ic else p.firstIc,
         ic)
  }

  /** The first-pass state after emitting the units us in order. */
  function Scanned(w: seq<Int8>, M: nat, K: nat, L: Layout, us: seq<Unit>, s: int, N: int): Pass {
    if |us| == 0 then Pass([], [], true, 0, 0)
    else Emit(Scanned(w, M, K, L, us[..|us| - 1], s, N), UnitValues(w, M, K, L, us[|us| - 1]), us[|us| - 1].col, s, N)
  }

  lemma ScannedSnoc(w: seq<Int8>, M: nat, K: nat, L: Layout, us: seq<Unit>, u: Unit, s: int, N: int)
    ensures Scanned(w, M, K, L, us + [u], s, N) == Emit(Scanned(w, M, K, L, us, s, N), UnitValues(w, M, K, L, u), u.col, s, N)
  {
    assert (us + [u])[..|us|] == us;
  }

  /** What the first pass has built after emitting us: the packed values of
      us, the raw step between every two consecutive units, first_nonzero
      until a unit is emitted, and first_ic and last_ic the columns of the
      first and the last unit. */
  lemma {:induction false} ScannedFacts(w: seq<Int8>, M: nat, K: nat, L: Layout, us: seq<Unit>, s: int, N: int)
    ensures var p := Scanned(w, M, K, L, us, s, N);
      p.values == ValuesOf(w, M, K, L, us) &&
      |p.diffs| == (if |us| == 0 then 0 else |us| - 1) &&
      RawSteps(p.diffs, us, s, N) &&
      (p.firstNonzero <==> |us| == 0) &&
      p.firstIc == FirstCol(us) &&
      (|us| > 0 ==> p.lastIc == us[|us| - 1].col)
  {
    if |us| > 0 {
      var pre := us[..|us| - 1];
      ScannedFacts(w, M, K, L, pre, s, N);
      var q := Scanned(w, M, K, L, pre, s, N);
      var p := Scanned(w, M, K, L, us, s, N);
      if |pre| > 0 {
        assert p.diffs == q.diffs + [Stride(us[|us| - 1].col - us[|us| - 2].col, s, N)];
        forall j | 0 <= j < |us| - 1
          ensures p.diffs[j] == Stride(us[j + 1].col - us[j].col, s, N)
        {
          if j < |us| - 2 {
            assert p.diffs[j] == q.diffs[j] && pre[j] == us[j] && pre[j + 1] == us[j + 1];
          }
        }
      }
    }
  }

  /** The column bookkeeping every encoder does when it emits a unit at
      column ic: the first unit sets first_ic, any later one appends the
      step from last_ic to diffs; then last_ic becomes ic. */
  method RecordColumn(diffs: array<int>, diffIndex: nat, firstNonzero: bool, firstIc: nat, lastIc: nat,
                      ic: nat, s: int, N: int, ghost p: Pass, ghost vs: seq<Int8>)
    returns (diffIndex': nat, firstIc': nat, lastIc': nat)
    requires diffIndex <= diffs.Length && (!firstNonzero ==> diffIndex < diffs.Length)
    requires diffs[..diffIndex] == p.diffs && firstNonzero == p.firstNonzero && firstIc == p.firstIc && lastIc == p.lastIc
    modifies diffs
    ensures var p' := Emit(p, vs, ic, s, N);
      diffIndex' <= diffs.Length && diffs[..diffIndex'] == p'.diffs && firstIc' == p'.firstIc && lastIc' == p'.lastIc
    ensures diffIndex' == if firstNonzero then diffIndex else diffIndex + 1
    ensures diffs[diffIndex'..] == old(diffs[diffIndex'..])
  {
    diffIndex', firstIc' := diffIndex, firstIc;
    if firstNonzero {
      firstIc' := ic;
    } else {
      diffs[diffIndex] := (ic - lastIc) * s * N;
      assert diffs[..diffIndex + 1] == diffs[..diffIndex] + [diffs[diffIndex]];
      diffIndex' := diffIndex + 1;
    }
    lastIc' := ic;
  }

  /** Emitting a nonzero element x at column ic: `nonzero_output[nonzero_index++] = x`
      followed by the column bookkeeping. */
  method EmitCell(values: array<Int8>, diffs: array<int>, idx: nat, diffIndex: nat,
                  firstNonzero: bool, firstIc: nat, lastIc: nat, x: Int8, ic: nat, s: int, N: int, ghost p: Pass)
    returns (idx': nat, diffIndex': nat, firstIc': nat, lastIc': nat)
    requires idx < values.Length && diffIndex <= diffs.Length && (!firstNonzero ==> diffIndex < diffs.Length)
    requires values[..idx] == p.values && diffs[..diffIndex] == p.diffs
    requires firstNonzero == p.firstNonzero && firstIc == p.firstIc && lastIc == p.lastIc
    modifies values, diffs
    ensures idx' == idx + 1 && diffIndex' == (if firstNonzero then diffIndex else diffIndex + 1)
    ensures var p' := Emit(p, [x], ic, s, N);
      values[..idx'] == p'.values && diffs[..diffIndex'] == p'.diffs && firstIc' == p'.firstIc && lastIc' == p'.lastIc
  {
    values[idx] := x;
    assert values[..idx + 1] == p.values + [x];
    idx' := idx + 1;
    diffIndex', firstIc', lastIc' := RecordColumn(diffs, diffIndex, firstNonzero, firstIc, lastIc, ic, s, N, p, [x]);
  }

  /** One column ic of row ocb in the first pass of ComputeSparseWeight:
      a nonzero element is emitted and counted in `oc_nonzeros[ocb]`. */
  method EmitColumn(w: seq<Int8>, M: nat, K: nat, N: int, s: int, ocb: nat, ic: nat,
                    values: array<Int8>, oc: array<nat>, diffs: array<int>,
                    idx: nat, diffIndex: nat, firstNonzero: bool, firstIc: nat, lastIc: nat,
                    ghost us0: seq<Unit>)
    returns (idx': nat, diffIndex': nat, firstNonzero': bool, firstIc': nat, lastIc': nat)
    requires ocb < oc.Length
    requires |us0| + RowNz(w, K, ocb, ic + 1) <= values.Length
    requires |us0| + RowNz(w, K, ocb, ic + 1) <= diffs.Length
    requires idx == |us0| + RowNz(w, K, ocb, ic) && diffIndex <= idx
    requires idx <= values.Length && diffIndex <= diffs.Length
    requires Pass(values[..idx], diffs[..diffIndex], firstNonzero, firstIc, lastIc)
             == Scanned(w, M, K, Unstructured, us0 + RowScan(w, K, ocb, ic), s, N)
    modifies values, oc, diffs
    ensures idx' == |us0| + RowNz(w, K, ocb, ic + 1) && diffIndex' <= idx'
    ensures idx' <= values.Length && diffIndex' <= diffs.Length
    ensures Pass(values[..idx'], diffs[..diffIndex'], firstNonzero', firstIc', lastIc')
            == Scanned(w, M, K, Unstructured, us0 + RowScan(w, K, ocb, ic + 1), s, N)
    ensures oc[..ocb] == old(oc[..ocb]) && oc[ocb] == old(oc[ocb]) + (idx' - idx)
  {
    idx', diffIndex', firstNonzero', firstIc', lastIc' := idx, diffIndex, firstNonzero, firstIc, lastIc;
    ghost var us := us0 + RowScan(w, K, ocb, ic);
    if Cell(w, K, ocb, ic) != 0 {
      ghost var u := Unit(ocb, ic);
      assert us0 + RowScan(w, K, ocb, ic + 1) == us + [u];
      ScannedSnoc(w, M, K, Unstructured, us, u, s, N);
      RowScanFacts(w, K, ocb, ic);
      ghost var p := Scanned(w, M, K, Unstructured, us, s, N);
      idx', diffIndex', firstIc', lastIc' := EmitCell(values, diffs, idx', diffIndex', firstNonzero', firstIc', lastIc', Cell(w, K, ocb, ic), ic, s, N, p);
      firstNonzero' := false;
      oc[ocb] := oc[ocb] + 1;
    } else {
      assert us0 + RowScan(w, K, ocb, ic + 1) == us;
    }
  }

  /** The inner loop of the first pass of ComputeSparseWeight: row ocb's
      nonzero elements are emitted in column order and counted in
      `oc_nonzeros[ocb]`. */
  method EmitRow(w: seq<Int8>, M: nat, K: nat, N: int, s: int, ocb: nat,
                 values: array<Int8>, oc: array<nat>, diffs: array<int>,
                 idx: nat, diffIndex: nat, firstNonzero: bool, firstIc: nat, lastIc: nat,
                 ghost us0: seq<Unit>)
    returns (idx': nat, diffIndex': nat, firstNonzero': bool, firstIc': nat, lastIc': nat)
    requires ocb < oc.Length
    requires |us0| + RowNz(w, K, ocb, K) <= values.Length
    requires |us0| + RowNz(w, K, ocb, K) <= diffs.Length
    requires idx == |us0| && diffIndex <= idx
    requires idx <= values.Length && diffIndex <= diffs.Length
    requires Pass(values[..idx], diffs[..diffIndex], firstNonzero, firstIc, lastIc) == Scanned(w, M, K, Unstructured, us0, s, N)
    modifies values, oc, diffs
    ensures idx' == |us0| + RowNz(w, K, ocb, K) && diffIndex' <= idx'
    ensures idx' <= values.Length && diffIndex' <= diffs.Length
    ensures Pass(values[..idx'], diffs[..diffIndex'], firstNonzero', firstIc', lastIc')
            == Scanned(w, M, K, Unstructured, us0 + RowScan(w, K, ocb, K), s, N)
    ensures oc[..ocb] == old(oc[..ocb]) && oc[ocb] == old(oc[ocb]) + RowNz(w, K, ocb, K)
  {
    idx', diffIndex', firstNonzero', firstIc', lastIc' := idx, diffIndex, firstNonzero, firstIc, lastIc;
    assert us0 + RowScan(w, K, ocb, 0) == us0;
    var ic := 0;
    while ic < K
      invariant 0 <= ic <= K
      invariant idx' == |us0| + RowNz(w, K, ocb, ic) && diffIndex' <= idx'
      invariant idx' <= values.Length && diffIndex' <= diffs.Length
      invariant Pass(values[..idx'], diffs[..diffIndex'], firstNonzero', firstIc', lastIc')
                == Scanned(w, M, K, Unstructured, us0 + RowScan(w, K, ocb, ic), s, N)
      invariant oc[..ocb] == old(oc[..ocb]) && oc[ocb] == old(oc[ocb]) + RowNz(w, K, ocb, ic)
    {
      RowNzBound(w, K, ocb, ic + 1, K);
      idx', diffIndex', firstNonzero', firstIc', lastIc' :=
        EmitColumn(w, M, K, N, s, ocb, ic, values, oc, diffs, idx', diffIndex', firstNonzero', firstIc', lastIc', us0);
      ic := ic + 1;
    }
  }

  /** One pass of the outer loop of ComputeSparseWeight's first pass,
      continuing from units us0 and counts `counts`: `oc_nonzeros[ocb] = 0`,
      row ocb, then `oc_nonzeros[ocb]` set to the running count. */
  method EmitRowGroup(w: seq<Int8>, M: nat, K: nat, N: int, s: int, ocb: nat,
                      values: array<Int8>, oc: array<nat>, diffs: array<int>,
                      idx: nat, diffIndex: nat, firstNonzero: bool, firstIc: nat, lastIc: nat,
                      ghost us0: seq<Unit>, ghost counts: seq<nat>)
    returns (idx': nat, diffIndex': nat, firstNonzero': bool, firstIc': nat, lastIc': nat)
    requires ocb < oc.Length
    requires |us0| + RowNz(w, K, ocb, K) <= values.Length
    requires |us0| + RowNz(w, K, ocb, K) <= diffs.Length
    requires idx == |us0| && diffIndex <= idx
    requires Pass(values[..idx], diffs[..diffIndex], firstNonzero, firstIc, lastIc) == Scanned(w, M, K, Unstructured, us0, s, N)
    requires oc[..ocb] == counts
    modifies values, oc, diffs
    ensures idx' == |us0| + RowNz(w, K, ocb, K) && diffIndex' <= idx'
    ensures Pass(values[..idx'], diffs[..diffIndex'], firstNonzero', firstIc', lastIc')
            == Scanned(w, M, K, Unstructured, us0 + RowScan(w, K, ocb, K), s, N)
    ensures oc[..ocb + 1] == counts + [idx']
  {
    oc[ocb] := 0;
    idx', diffIndex', firstNonzero', firstIc', lastIc' :=
      EmitRow(w, M, K, N, s, ocb, values, oc, diffs, idx, diffIndex, firstNonzero, firstIc, lastIc, us0);
    oc[ocb] := idx';
    assert oc[..ocb + 1] == oc[..ocb] + [idx'];
  }

  /** Group ocb + 1 of the unstructured layout extends group ocb by row
      ocb, within the whole matrix's units. */
  lemma UnstructuredGroupStep(w: seq<Int8>, M: nat, K: nat, ocb: nat)
    requires ocb < M
    ensures Units(w, M, K, Unstructured, ocb + 1) == Units(w, M, K, Unstructured, ocb) + RowScan(w, K, ocb, K)
    ensures |Units(w, M, K, Unstructured, ocb + 1)| == |Units(w, M, K, Unstructured, ocb)| + RowNz(w, K, ocb, K)
    ensures |Units(w, M, K, Unstructured, ocb + 1)| <= |Units(w, M, K, Unstructured, M)|
    ensures Cum(w, M, K, Unstructured, ocb + 1)
            == Cum(w, M, K, Unstructured, ocb) + [|Units(w, M, K, Unstructured, ocb + 1)|]
  {
    RowScanFacts(w, K, ocb, K);
    UnitsPrefix(w, M, K, Unstructured, ocb + 1, M);
  }

  /** The state of the first pass of ComputeSparseWeight before row ocb:
      the units of rows 0..ocb-1 emitted and their counts stored. */
  ghost predicate RowsState(w: seq<Int8>, M: nat, K: nat, N: int, s: int, ocb: nat,
                            values: array<Int8>, oc: array<nat>, diffs: array<int>,
                            idx: nat, diffIndex: nat, firstNonzero: bool, firstIc: nat, lastIc: nat)
    reads values, oc, diffs
  {
    var us := Units(w, M, K, Unstructured, ocb);
    ocb <= M && ocb <= oc.Length &&
    idx == |us| && diffIndex <= idx && idx <= values.Length && diffIndex <= diffs.Length &&
    Pass(values[..idx], diffs[..diffIndex], firstNonzero, firstIc, lastIc) == Scanned(w, M, K, Unstructured, us, s, N) &&
    oc[..ocb] == Cum(w, M, K, Unstructured, ocb)
  }

  /** One pass of the outer loop, from state ocb to state ocb + 1: the
      generic EmitRowGroup applied to the units and counts of the rows before
      ocb. The loop invariant of EmitRows is RowsState alone, which keeps
      that loop's proof small. */
  method EmitRowStep(w: seq<Int8>, M: nat, K: nat, N: int, s: int, ocb: nat,
                     values: array<Int8>, oc: array<nat>, diffs: array<int>,
                     idx: nat, diffIndex: nat, firstNonzero: bool, firstIc: nat, lastIc: nat)
    returns (idx': nat, diffIndex': nat, firstNonzero': bool, firstIc': nat, lastIc': nat)
    requires ocb < M <= oc.Length
    requires |Units(w, M, K, Unstructured, M)| <= values.Length
    requires |Units(w, M, K, Unstructured, M)| <= diffs.Length
    requires RowsState(w, M, K, N, s, ocb, values, oc, diffs, idx, diffIndex, firstNonzero, firstIc, lastIc)
    modifies values, oc, diffs
    ensures RowsState(w, M, K, N, s, ocb + 1, values, oc, diffs, idx', diffIndex', firstNonzero', firstIc', lastIc')
  {
    UnstructuredGroupStep(w, M, K, ocb);
    idx', diffIndex', firstNonzero', firstIc', lastIc' :=
      EmitRowGroup(w, M, K, N, s, ocb, values, oc, diffs, idx, diffIndex, firstNonzero, firstIc, lastIc,
                   Units(w, M, K, Unstructured, ocb), Cum(w, M, K, Unstructured, ocb));
  }

  /** The first pass of ComputeSparseWeight: every row in order. */
  method EmitRows(w: seq<Int8>, M: nat, K: nat, N: int, s: int,
                  values: array<Int8>, oc: array<nat>, diffs: array<int>)
    returns (idx: nat, diffIndex: nat, firstNonzero: bool, firstIc: nat, lastIc: nat)
    requires M <= oc.Length
    requires |Units(w, M, K, Unstructured, M)| <= values.Length
    requires |Units(w, M, K, Unstructured, M)| <= diffs.Length
    modifies values, oc, diffs
    ensures idx == |Units(w, M, K, Unstructured, M)| && diffIndex <= idx
    ensures idx <= values.Length && diffIndex <= diffs.Length
    ensures Pass(values[..idx], diffs[..diffIndex], firstNonzero, firstIc, lastIc)
            == Scanned(w, M, K, Unstructured, Units(w, M, K, Unstructured, M), s, N)
    ensures oc[..M] == Cum(w, M, K, Unstructured, M)
  {
    idx, diffIndex, firstNonzero, firstIc, lastIc := 0, 0, true, 0, 0;
    var ocb := 0;
    while ocb < M
      invariant RowsState(w, M, K, N, s, ocb, values, oc, diffs, idx, diffIndex, firstNonzero, firstIc, lastIc)
    {
      idx, diffIndex, firstNonzero, firstIc, lastIc :=
        EmitRowStep(w, M, K, N, s, ocb, values, oc, diffs, idx, diffIndex, firstNonzero, firstIc, lastIc);
      ocb := ocb + 1;
    }
  }

  /** The wrap (`if (!first_nonzero)`): the delta slot of the last unit gets
      the step from last_ic back to first_ic. Together with FoldDeltas this
      turns the raw steps of a first pass over us into Deltas(us, cum). */
  method WrapDeltas(diffs: array<int>, diffIndex: nat, firstNonzero: bool, firstIc: nat, lastIc: nat,
                    cum: seq<nat>, ghost us: seq<Unit>, s: int, N: int)
    requires |us| <= diffs.Length
    requires firstNonzero <==> |us| == 0
    requires |us| > 0 ==> diffIndex == |us| - 1 && firstIc == us[0].col && lastIc == us[|us| - 1].col
    requires forall j :: 0 <= j < |us| - 1 ==> diffs[j] == Delta(us, cum, s, N, j)
    modifies diffs
    ensures diffs[..|us|] == Deltas(us, cum, s, N)
  {
    if !firstNonzero {
      diffs[diffIndex] := (firstIc - lastIc) * s * N;
    }
  }

  /** The second pass and the wrap, as both encoders run them after a first
      pass over us: the raw steps become Deltas(us, cum). */
  method FinishDeltas(oc: array<nat>, G: nat, diffs: array<int>, diffIndex: nat, firstNonzero: bool,
                      firstIc: nat, lastIc: nat, ghost us: seq<Unit>, s: int, N: int)
    requires G <= oc.Length && |us| <= diffs.Length
    requires PrefixCounts(oc[..G], |us|)
    requires diffIndex == (if |us| == 0 then 0 else |us| - 1)
    requires RawSteps(diffs[..diffIndex], us, s, N)
    requires firstNonzero <==> |us| == 0
    requires |us| > 0 ==> firstIc == us[0].col && lastIc == us[|us| - 1].col
    modifies diffs
    ensures diffs[..|us|] == Deltas(us, oc[..G], s, N)
  {
    assert RawSteps(diffs[..], us, s, N) by {
      assert forall j :: 0 <= j < diffIndex ==> diffs[..][j] == diffs[..diffIndex][j];
    }
    FoldDeltas(oc, G, diffs, us, s, N);
    WrapDeltas(diffs, diffIndex, firstNonzero, firstIc, lastIc, oc[..G], us, s, N);
  }

  /** ComputeSparseWeight: one unit per nonzero weight, one group per
      output channel. The buffers come out as the unstructured encoding:
      the nonzero weights in row-major order, the running count at the end
      of every row, and the deltas; the result is the first unit's column. */
  method ComputeSparseWeight(w: seq<Int8>, M: nat, K: nat, N: int, s: int,
                             values: array<Int8>, oc: array<nat>, diffs: array<int>)
    returns (firstIc: nat)
    requires |w| == M * K
    requires NonzeroCount(w) <= values.Length && NonzeroCount(w) <= diffs.Length && M <= oc.Length
    modifies values, oc, diffs
    ensures var e := Encode(w, M, K, N, s, Unstructured);
      |e.values| <= values.Length && |e.deltas| <= diffs.Length &&
      values[..|e.values|] == e.values && oc[..M] == e.prefixCounts &&
      diffs[..|e.deltas|] == e.deltas && firstIc == e.firstCol
  {
    ghost var us := Units(w, M, K, Unstructured, M);
    ghost var cum := Cum(w, M, K, Unstructured, M);
    UnstructuredEncoding(w, M, K, N, s);
    assert |us| == NonzeroCount(w) && |cum| == M && PrefixCounts(cum, |us|) by {
      SingleValues(w, M, K, Unstructured, us);
      CumFacts(w, M, K, Unstructured, M);
    }
    var idx, diffIndex, firstNonzero, lastIc;
    idx, diffIndex, firstNonzero, firstIc, lastIc := EmitRows(w, M, K, N, s, values, oc, diffs);
    ScannedFacts(w, M, K, Unstructured, us, s, N);
    FinishDeltas(oc, M, diffs, diffIndex, firstNonzero, firstIc, lastIc, us, s, N);
  }

  // ---------------------------------------------------------------------
  // ComputeSemiSparseWeight

  /** Scanning more columns of a pair retains at least as many units. */
  lemma PairScanBound(w: seq<Int8>, K: nat, r: nat, c1: nat, c2: nat)
    requires c1 <= c2
    ensures |PairScan(w, K, r, c1)| <= |PairScan(w, K, r, c2)|
  {
    ScanPrefix(w, K, r, c1, c2);
  }

  /** The detection loop: is the cell of rows r, r+1 at column ic nonzero
      in either row (`is_nonzero_block`). */
  method BlockIsNonzero(w: seq<Int8>, K: nat, r: nat, ic: nat) returns (b: bool)
    ensures b <==> Cell(w, K, r, ic) != 0 || Cell(w, K, r + 1, ic) != 0
  {
    b := false;
    var oco := 0;
    while oco < 2
      invariant 0 <= oco <= 2
      invariant b <==> (oco > 0 && Cell(w, K, r, ic) != 0) || (oco > 1 && Cell(w, K, r + 1, ic) != 0)
    {
      b := b || Cell(w, K, r + oco, ic) != 0;
      oco := oco + 1;
    }
  }

  /** The emission loop: both values of the cell of rows r, r+1 at
      column ic, first row first. */
  method EmitBlock(w: seq<Int8>, K: nat, r: nat, ic: nat, values: array<Int8>, idx: nat) returns (idx': nat)
    requires idx + 2 <= values.Length
    modifies values
    ensures idx' == idx + 2
    ensures values[..idx'] == old(values[..idx]) + [Cell(w, K, r, ic), Cell(w, K, r + 1, ic)]
  {
    idx' := idx;
    var oco := 0;
    while oco < 2
      invariant 0 <= oco <= 2 && idx' == idx + oco
      invariant values[..idx] == old(values[..idx])
      invariant forall k :: idx <= k < idx + oco ==> values[k] == Cell(w, K, r + (k - idx), ic)
    {
      values[idx'] := Cell(w, K, r + oco, ic);
      idx' := idx' + 1;
      oco := oco + 1;
    }
    assert values[..idx'] == values[..idx] + [values[idx], values[idx + 1]];
  }

  /** Emitting the active cell of rows r, r+1 at column ic: both values,
      then the column bookkeeping. */
  method EmitPairCell(w: seq<Int8>, K: nat, r: nat, ic: nat, values: array<Int8>, diffs: array<int>,
                      idx: nat, diffIndex: nat, firstNonzero: bool, firstIc: nat, lastIc: nat,
                      s: int, N: int, ghost p: Pass)
    returns (idx': nat, diffIndex': nat, firstIc': nat, lastIc': nat)
    requires idx + 2 <= values.Length && diffIndex <= diffs.Length && (!firstNonzero ==> diffIndex < diffs.Length)
    requires values[..idx] == p.values && diffs[..diffIndex] == p.diffs
    requires firstNonzero == p.firstNonzero && firstIc == p.firstIc && lastIc == p.lastIc
    modifies values, diffs
    ensures idx' == idx + 2 && diffIndex' == (if firstNonzero then diffIndex else diffIndex + 1)
    ensures var p' := Emit(p, [Cell(w, K, r, ic), Cell(w, K, r + 1, ic)], ic, s, N);
      values[..idx'] == p'.values && diffs[..diffIndex'] == p'.diffs && firstIc' == p'.firstIc && lastIc' == p'.lastIc
  {
    idx' := EmitBlock(w, K, r, ic, values, idx);
    diffIndex', firstIc', lastIc' :=
      RecordColumn(diffs, diffIndex, firstNonzero, firstIc, lastIc, ic, s, N, p, [Cell(w, K, r, ic), Cell(w, K, r + 1, ic)]);
  }

  /** Emitting the active cell of the pair 2g, 2g+1 at column ic extends
      the first-pass state by that unit. */
  method EmitActivePair(w: seq<Int8>, M: nat, K: nat, N: int, s: int, g: nat, ic: nat,
                        values: array<Int8>, diffs: array<int>,
                        idx: nat, diffIndex: nat, firstNonzero: bool, firstIc: nat, lastIc: nat,
                        ghost us: seq<Unit>)
    returns (idx': nat, diffIndex': nat, firstIc': nat, lastIc': nat)
    requires 2 * g + 1 < M
    requires idx + 2 <= values.Length && diffIndex <= diffs.Length && (!firstNonzero ==> diffIndex < diffs.Length)
    requires Pass(values[..idx], diffs[..diffIndex], firstNonzero, firstIc, lastIc) == Scanned(w, M, K, Semi, us, s, N)
    modifies values, diffs
    ensures idx' == idx + 2 && diffIndex' == (if firstNonzero then diffIndex else diffIndex + 1)
    ensures Pass(values[..idx'], diffs[..diffIndex'], false, firstIc', lastIc')
            == Scanned(w, M, K, Semi, us + [Unit(2 * g, ic)], s, N)
  {
    ghost var p := Scanned(w, M, K, Semi, us, s, N);
    assert UnitValues(w, M, K, Semi, Unit(2 * g, ic)) == [Cell(w, K, 2 * g, ic), Cell(w, K, 2 * g + 1, ic)];
    ScannedSnoc(w, M, K, Semi, us, Unit(2 * g, ic), s, N);
    idx', diffIndex', firstIc', lastIc' :=
      EmitPairCell(w, K, 2 * g, ic, values, diffs, idx, diffIndex, firstNonzero, firstIc, lastIc, s, N, p);
  }

  /** An active cell of the pair 2g, 2g+1 adds its unit to the scan. */
  lemma ActivePairColumn(w: seq<Int8>, K: nat, us0: seq<Unit>, g: nat, ic: nat)
    requires Cell(w, K, 2 * g, ic) != 0 || Cell(w, K, 2 * g + 1, ic) != 0
    ensures us0 + PairScan(w, K, 2 * g, ic + 1) == us0 + PairScan(w, K, 2 * g, ic) + [Unit(2 * g, ic)]
  {
  }

  /** An inactive cell of the pair 2g, 2g+1 leaves the scan as it is. */
  lemma InactivePairColumn(w: seq<Int8>, K: nat, us0: seq<Unit>, g: nat, ic: nat)
    requires Cell(w, K, 2 * g, ic) == 0 && Cell(w, K, 2 * g + 1, ic) == 0
    ensures us0 + PairScan(w, K, 2 * g, ic + 1) == us0 + PairScan(w, K, 2 * g, ic)
  {
  }

  /** One column ic of the pair 2g, 2g+1 (group g) in the first pass of
      ComputeSemiSparseWeight: an active cell emits its two values and is
      recorded and counted in `oc_nonzeros[g]`. */
  method EmitPairColumn(w: seq<Int8>, M: nat, K: nat, N: int, s: int, g: nat, ic: nat,
                        values: array<Int8>, oc: array<nat>, diffs: array<int>,
                        idx: nat, diffIndex: nat, firstNonzero: bool, firstIc: nat, lastIc: nat, blockN: nat,
                        ghost us0: seq<Unit>)
    returns (idx': nat, diffIndex': nat, firstNonzero': bool, firstIc': nat, lastIc': nat, blockN': nat)
    requires 2 * g + 1 < M && g < oc.Length
    requires 2 * |us0 + PairScan(w, K, 2 * g, ic + 1)| <= values.Length
    requires |us0 + PairScan(w, K, 2 * g, ic + 1)| <= diffs.Length
    requires blockN == |us0 + PairScan(w, K, 2 * g, ic)| && idx == 2 * blockN && diffIndex <= blockN
    requires diffIndex <= diffs.Length
    requires Pass(values[..idx], diffs[..diffIndex], firstNonzero, firstIc, lastIc)
             == Scanned(w, M, K, Semi, us0 + PairScan(w, K, 2 * g, ic), s, N)
    modifies values, oc, diffs
    ensures blockN' == |us0 + PairScan(w, K, 2 * g, ic + 1)| && idx' == 2 * blockN' && diffIndex' <= blockN'
    ensures idx' <= values.Length && diffIndex' <= diffs.Length
    ensures Pass(values[..idx'], diffs[..diffIndex'], firstNonzero', firstIc', lastIc')
            == Scanned(w, M, K, Semi, us0 + PairScan(w, K, 2 * g, ic + 1), s, N)
    ensures oc[..g] == old(oc[..g]) && oc[g] == old(oc[g]) + (blockN' - blockN)
  {
    idx', diffIndex', firstNonzero', firstIc', lastIc', blockN' := idx, diffIndex, firstNonzero, firstIc, lastIc, blockN;
    var isNonzeroBlock := BlockIsNonzero(w, K, 2 * g, ic);
    if isNonzeroBlock {
      ActivePairColumn(w, K, us0, g, ic);
      idx', diffIndex', firstIc', lastIc' :=
        EmitActivePair(w, M, K, N, s, g, ic, values, diffs, idx', diffIndex', firstNonzero', firstIc', lastIc',
                       us0 + PairScan(w, K, 2 * g, ic));
      firstNonzero' := false;
      oc[g] := oc[g] + 1;
      blockN' := blockN' + 1;
    } else {
      InactivePairColumn(w, K, us0, g, ic);
    }
  }

  /** The ic loop for the pair 2g, 2g+1. */
  method EmitPairRow(w: seq<Int8>, M: nat, K: nat, N: int, s: int, g: nat,
                     values: array<Int8>, oc: array<nat>, diffs: array<int>,
                     idx: nat, diffIndex: nat, firstNonzero: bool, firstIc: nat, lastIc: nat, blockN: nat,
                     ghost us0: seq<Unit>)
    returns (idx': nat, diffIndex': nat, firstNonzero': bool, firstIc': nat, lastIc': nat, blockN': nat)
    requires 2 * g + 1 < M && g < oc.Length
    requires 2 * |us0 + PairScan(w, K, 2 * g, K)| <= values.Length
    requires |us0 + PairScan(w, K, 2 * g, K)| <= diffs.Length
    requires blockN == |us0| && idx == 2 * blockN && diffIndex <= blockN
    requires Pass(values[..idx], diffs[..diffIndex], firstNonzero, firstIc, lastIc) == Scanned(w, M, K, Semi, us0, s, N)
    modifies values, oc, diffs
    ensures blockN' == |us0 + PairScan(w, K, 2 * g, K)| && idx' == 2 * blockN' && diffIndex' <= blockN'
    ensures idx' <= values.Length && diffIndex' <= diffs.Length
    ensures Pass(values[..idx'], diffs[..diffIndex'], firstNonzero', firstIc', lastIc')
            == Scanned(w, M, K, Semi, us0 + PairScan(w, K, 2 * g, K), s, N)
    ensures oc[..g] == old(oc[..g]) && oc[g] == old(oc[g]) + (blockN' - blockN)
  {
    idx', diffIndex', firstNonzero', firstIc', lastIc', blockN' := idx, diffIndex, firstNonzero, firstIc, lastIc, blockN;
    assert us0 + PairScan(w, K, 2 * g, 0) == us0;
    var ic := 0;
    while ic < K
      invariant 0 <= ic <= K
      invariant blockN' == |us0 + PairScan(w, K, 2 * g, ic)| && idx' == 2 * blockN' && diffIndex' <= blockN'
      invariant idx' <= values.Length && diffIndex' <= diffs.Length
      invariant Pass(values[..idx'], diffs[..diffIndex'], firstNonzero', firstIc', lastIc')
                == Scanned(w, M, K, Semi, us0 + PairScan(w, K, 2 * g, ic), s, N)
      invariant oc[..g] == old(oc[..g]) && oc[g] == old(oc[g]) + (blockN' - blockN)
    {
      PairScanBound(w, K, 2 * g, ic + 1, K);
      idx', diffIndex', firstNonzero', firstIc', lastIc', blockN' :=
        EmitPairColumn(w, M, K, N, s, g, ic, values, oc, diffs, idx', diffIndex', firstNonzero', firstIc', lastIc', blockN', us0);
      ic := ic + 1;
    }
  }

  /** The units of the first g row pairs, without the case split on the
      odd last row. It equals Units(w, M, K, Semi, g) for 2g <= M
      (PairUnitsAreUnits); the pair loop is proved against this copy because
      it carries no M, which keeps each of its proof steps small. */
  function PairUnits(w: seq<Int8>, K: nat, g: nat): seq<Unit> {
    if g == 0 then [] else PairUnits(w, K, g - 1) + PairScan(w, K, 2 * (g - 1), K)
  }

  /** While all groups are full pairs, PairUnits is the layout's Units. */
  lemma {:induction false} PairUnitsAreUnits(w: seq<Int8>, M: nat, K: nat, g: nat)
    requires 2 * g <= M
    ensures PairUnits(w, K, g) == Units(w, M, K, Semi, g)
  {
    if g > 0 {
      PairUnitsAreUnits(w, M, K, g - 1);
    }
  }

  /** The running unit counts at the end of each of the first g pairs: the
      M-free copy of Cum(w, M, K, Semi, g) for 2g <= M (PairCountsAreCum),
      kept for the same reason as PairUnits. */
  function PairCounts(w: seq<Int8>, K: nat, g: nat): seq<nat> {
    if g == 0 then [] else PairCounts(w, K, g - 1) + [|PairUnits(w, K, g)|]
  }

  /** While all groups are full pairs, PairCounts is the layout's prefix
      counts. */
  lemma {:induction false} PairCountsAreCum(w: seq<Int8>, M: nat, K: nat, g: nat)
    requires 2 * g <= M
    ensures PairCounts(w, K, g) == Cum(w, M, K, Semi, g)
  {
    if g > 0 {
      PairCountsAreCum(w, M, K, g - 1);
      PairUnitsAreUnits(w, M, K, g);
    }
  }

  /** More pairs retain at least as many units. */
  lemma {:induction false} PairUnitsBound(w: seq<Int8>, K: nat, g1: nat, g2: nat)
    requires g1 <= g2
    ensures |PairUnits(w, K, g1)| <= |PairUnits(w, K, g2)|
    decreases g2
  {
    if g1 < g2 {
      PairUnitsBound(w, K, g1, g2 - 1);
    }
  }

  /** One pass of the row-pair loop, continuing from units us0 and counts
      `counts`: the pair 2g, 2g+1 is scanned, then
      `oc_nonzeros[block_index++] = block_n`. */
  method EmitPair(w: seq<Int8>, M: nat, K: nat, N: int, s: int, g: nat,
                  values: array<Int8>, oc: array<nat>, diffs: array<int>,
                  idx: nat, diffIndex: nat, firstNonzero: bool, firstIc: nat, lastIc: nat, blockN: nat,
                  ghost us0: seq<Unit>, ghost counts: seq<nat>)
    returns (idx': nat, diffIndex': nat, firstNonzero': bool, firstIc': nat, lastIc': nat, blockIndex': nat, blockN': nat)
    requires 2 * g + 1 < M && g < oc.Length
    requires 2 * |us0 + PairScan(w, K, 2 * g, K)| <= values.Length
    requires |us0 + PairScan(w, K, 2 * g, K)| <= diffs.Length
    requires blockN == |us0| && idx == 2 * blockN && diffIndex <= blockN
    requires Pass(values[..idx], diffs[..diffIndex], firstNonzero, firstIc, lastIc) == Scanned(w, M, K, Semi, us0, s, N)
    requires oc[..g] == counts
    modifies values, oc, diffs
    ensures blockIndex' == g + 1
    ensures blockN' == |us0 + PairScan(w, K, 2 * g, K)| && idx' == 2 * blockN' && diffIndex' <= blockN'
    ensures idx' <= values.Length && diffIndex' <= diffs.Length
    ensures Pass(values[..idx'], diffs[..diffIndex'], firstNonzero', firstIc', lastIc')
            == Scanned(w, M, K, Semi, us0 + PairScan(w, K, 2 * g, K), s, N)
    ensures oc[..blockIndex'] == counts + [blockN']
  {
    idx', diffIndex', firstNonzero', firstIc', lastIc', blockN' :=
      EmitPairRow(w, M, K, N, s, g, values, oc, diffs, idx, diffIndex, firstNonzero, firstIc, lastIc, blockN, us0);
    oc[g] := blockN';
    blockIndex' := g + 1;
    assert oc[..blockIndex'] == oc[..g] + [blockN'];
  }

  /** Pair g + 1 of the pair units extends pair g by the scan of rows 2g,
      2g+1, within the first h pairs. */
  lemma PairGroupStep(w: seq<Int8>, K: nat, g: nat, h: nat)
    requires g < h
    ensures PairUnits(w, K, g + 1) == PairUnits(w, K, g) + PairScan(w, K, 2 * g, K)
    ensures |PairUnits(w, K, g + 1)| <= |PairUnits(w, K, h)|
    ensures PairCounts(w, K, g + 1) == PairCounts(w, K, g) + [|PairUnits(w, K, g + 1)|]
  {
    PairUnitsBound(w, K, g + 1, h);
  }

  /** The row-pair loop of the first pass of ComputeSemiSparseWeight
      (`ocb < align2`, step 2): every pair in order, then
      `oc_nonzeros[block_index++] = block_n`. */
  method EmitPairs(w: seq<Int8>, M: nat, K: nat, N: int, s: int,
                   values: array<Int8>, oc: array<nat>, diffs: array<int>)
    returns (idx: nat, diffIndex: nat, firstNonzero: bool, firstIc: nat, lastIc: nat, blockIndex: nat, blockN: nat)
    requires M / 2 <= oc.Length
    requires 2 * |PairUnits(w, K, M / 2)| <= values.Length
    requires |PairUnits(w, K, M / 2)| <= diffs.Length
    modifies values, oc, diffs
    ensures blockIndex == M / 2
    ensures blockN == |PairUnits(w, K, M / 2)| && idx == 2 * blockN && diffIndex <= blockN
    ensures idx <= values.Length && diffIndex <= diffs.Length
    ensures Pass(values[..idx], diffs[..diffIndex], firstNonzero, firstIc, lastIc)
            == Scanned(w, M, K, Semi, PairUnits(w, K, M / 2), s, N)
    ensures oc[..M / 2] == PairCounts(w, K, M / 2)
  {
    idx, diffIndex, firstNonzero, firstIc, lastIc, blockIndex, blockN := 0, 0, true, 0, 0, 0, 0;
    ghost var h := M / 2;
    var align2 := M / 2 * 2;
    var ocb := 0;
    while ocb < align2
      invariant ocb == 2 * blockIndex && blockIndex <= h
      invariant blockN == |PairUnits(w, K, blockIndex)| && idx == 2 * blockN && diffIndex <= blockN
      invariant idx <= values.Length && diffIndex <= diffs.Length
      invariant Pass(values[..idx], diffs[..diffIndex], firstNonzero, firstIc, lastIc)
                == Scanned(w, M, K, Semi, PairUnits(w, K, blockIndex), s, N)
      invariant oc[..blockIndex] == PairCounts(w, K, blockIndex)
    {
      PairGroupStep(w, K, blockIndex, h);
      idx, diffIndex, firstNonzero, firstIc, lastIc, blockIndex, blockN :=
        EmitPair(w, M, K, N, s, blockIndex, values, oc, diffs, idx, diffIndex, firstNonzero, firstIc, lastIc, blockN,
                 PairUnits(w, K, blockIndex), PairCounts(w, K, blockIndex));
      ocb := ocb + 2;
    }
  }

  /** Units of the single rows lo..hi-1 scanned element by element. */
  function RowsScan(w: seq<Int8>, K: nat, lo: nat, hi: nat): seq<Unit>
    decreases hi
  {
    if hi <= lo then [] else RowsScan(w, K, lo, hi - 1) + RowScan(w, K, hi - 1, K)
  }

  /** Scanning rows lo..hi-1 element by element retains their nonzeros. */
  lemma {:induction false} RowsScanCount(w: seq<Int8>, K: nat, lo: nat, hi: nat)
    ensures |RowsScan(w, K, lo, hi)| == RowsNz(w, K, lo, hi)
    decreases hi
  {
    if hi > lo {
      RowsScanCount(w, K, lo, hi - 1);
      RowScanFacts(w, K, hi - 1, K);
    }
  }

  /** Emitting a nonzero element of a row that is not paired extends the
      first-pass state by that unit. */
  method EmitActiveSingle(w: seq<Int8>, M: nat, K: nat, N: int, s: int, L: Layout, r: nat, ic: nat,
                          values: array<Int8>, diffs: array<int>,
                          idx: nat, diffIndex: nat, firstNonzero: bool, firstIc: nat, lastIc: nat,
                          ghost us: seq<Unit>)
    returns (idx': nat, diffIndex': nat, firstIc': nat, lastIc': nat)
    requires !Paired(M, L, Unit(r, ic))
    requires idx < values.Length && diffIndex <= diffs.Length && (!firstNonzero ==> diffIndex < diffs.Length)
    requires Pass(values[..idx], diffs[..diffIndex], firstNonzero, firstIc, lastIc) == Scanned(w, M, K, L, us, s, N)
    modifies values, diffs
    ensures idx' == idx + 1 && diffIndex' == (if firstNonzero then diffIndex else diffIndex + 1)
    ensures Pass(values[..idx'], diffs[..diffIndex'], false, firstIc', lastIc')
            == Scanned(w, M, K, L, us + [Unit(r, ic)], s, N)
  {
    ghost var p := Scanned(w, M, K, L, us, s, N);
    ScannedSnoc(w, M, K, L, us, Unit(r, ic), s, N);
    idx', diffIndex', firstIc', lastIc' :=
      EmitCell(values, diffs, idx, diffIndex, firstNonzero, firstIc, lastIc, Cell(w, K, r, ic), ic, s, N, p);
  }

  /** How one column of a single row extends the scan: by that unit when
      the element is nonzero, not at all otherwise. */
  lemma RowColumnStep(w: seq<Int8>, K: nat, us0: seq<Unit>, r: nat, ic: nat)
    ensures us0 + RowScan(w, K, r, ic + 1)
            == if Cell(w, K, r, ic) != 0
               then us0 + RowScan(w, K, r, ic) + [Unit(r, ic)]
               else us0 + RowScan(w, K, r, ic)
  {
  }

  /** One column ic of the odd last row r in the first pass of
      ComputeSemiSparseWeight: a nonzero element is emitted as a one-row
      unit and counted in `oc_nonzeros[bi]` (`block_index`). */
  method EmitTrailingColumn(w: seq<Int8>, M: nat, K: nat, N: int, s: int, r: nat, ic: nat, bi: nat,
                            values: array<Int8>, oc: array<nat>, diffs: array<int>,
                            idx: nat, diffIndex: nat, firstNonzero: bool, firstIc: nat, lastIc: nat, blockN: nat,
                            ghost B: nat, ghost us0: seq<Unit>)
    returns (idx': nat, diffIndex': nat, firstNonzero': bool, firstIc': nat, lastIc': nat, blockN': nat)
    requires r + 1 == M && bi < oc.Length
    requires B + |us0 + RowScan(w, K, r, ic + 1)| <= values.Length
    requires |us0 + RowScan(w, K, r, ic + 1)| <= diffs.Length
    requires blockN == |us0 + RowScan(w, K, r, ic)| && idx == B + blockN && diffIndex <= blockN
    requires diffIndex <= diffs.Length
    requires Pass(values[..idx], diffs[..diffIndex], firstNonzero, firstIc, lastIc)
             == Scanned(w, M, K, Semi, us0 + RowScan(w, K, r, ic), s, N)
    modifies values, oc, diffs
    ensures blockN' == |us0 + RowScan(w, K, r, ic + 1)| && idx' == B + blockN' && diffIndex' <= blockN'
    ensures idx' <= values.Length && diffIndex' <= diffs.Length
    ensures Pass(values[..idx'], diffs[..diffIndex'], firstNonzero', firstIc', lastIc')
            == Scanned(w, M, K, Semi, us0 + RowScan(w, K, r, ic + 1), s, N)
    ensures oc[..bi] == old(oc[..bi]) && oc[bi] == old(oc[bi]) + (blockN' - blockN)
  {
    idx', diffIndex', firstNonzero', firstIc', lastIc', blockN' := idx, diffIndex, firstNonzero, firstIc, lastIc, blockN;
    RowColumnStep(w, K, us0, r, ic);
    if Cell(w, K, r, ic) != 0 {
      idx', diffIndex', firstIc', lastIc' :=
        EmitActiveSingle(w, M, K, N, s, Semi, r, ic, values, diffs, idx', diffIndex', firstNonzero', firstIc', lastIc',
                         us0 + RowScan(w, K, r, ic));
      firstNonzero' := false;
      oc[bi] := oc[bi] + 1;
      blockN' := blockN' + 1;
    }
  }

  /** Scanning more columns of a row retains at least as many units. */
  lemma RowScanBound(w: seq<Int8>, K: nat, r: nat, c1: nat, c2: nat)
    requires c1 <= c2
    ensures |RowScan(w, K, r, c1)| <= |RowScan(w, K, r, c2)|
  {
    ScanPrefix(w, K, r, c1, c2);
  }

  /** The ic loop for the odd last row r. */
  method EmitTrailingRow(w: seq<Int8>, M: nat, K: nat, N: int, s: int, r: nat, bi: nat,
                         values: array<Int8>, oc: array<nat>, diffs: array<int>,
                         idx: nat, diffIndex: nat, firstNonzero: bool, firstIc: nat, lastIc: nat, blockN: nat,
                         ghost B: nat, ghost us0: seq<Unit>)
    returns (idx': nat, diffIndex': nat, firstNonzero': bool, firstIc': nat, lastIc': nat, blockN': nat)
    requires r + 1 == M && bi < oc.Length
    requires B + |us0 + RowScan(w, K, r, K)| <= values.Length
    requires |us0 + RowScan(w, K, r, K)| <= diffs.Length
    requires blockN == |us0| && idx == B + blockN && diffIndex <= blockN
    requires Pass(values[..idx], diffs[..diffIndex], firstNonzero, firstIc, lastIc) == Scanned(w, M, K, Semi, us0, s, N)
    modifies values, oc, diffs
    ensures blockN' == |us0 + RowScan(w, K, r, K)| && idx' == B + blockN' && diffIndex' <= blockN'
    ensures idx' <= values.Length && diffIndex' <= diffs.Length
    ensures Pass(values[..idx'], diffs[..diffIndex'], firstNonzero', firstIc', lastIc')
            == Scanned(w, M, K, Semi, us0 + RowScan(w, K, r, K), s, N)
    ensures oc[..bi] == old(oc[..bi]) && oc[bi] == old(oc[bi]) + (blockN' - blockN)
  {
    idx', diffIndex', firstNonzero', firstIc', lastIc', blockN' := idx, diffIndex, firstNonzero, firstIc, lastIc, blockN;
    assert us0 + RowScan(w, K, r, 0) == us0;
    var ic := 0;
    while ic < K
      invariant 0 <= ic <= K
      invariant blockN' == |us0 + RowScan(w, K, r, ic)| && idx' == B + blockN' && diffIndex' <= blockN'
      invariant idx' <= values.Length && diffIndex' <= diffs.Length
      invariant Pass(values[..idx'], diffs[..diffIndex'], firstNonzero', firstIc', lastIc')
                == Scanned(w, M, K, Semi, us0 + RowScan(w, K, r, ic), s, N)
      invariant oc[..bi] == old(oc[..bi]) && oc[bi] == old(oc[bi]) + (blockN' - blockN)
    {
      RowScanBound(w, K, r, ic + 1, K);
      idx', diffIndex', firstNonzero', firstIc', lastIc', blockN' :=
        EmitTrailingColumn(w, M, K, N, s, r, ic, bi, values, oc, diffs, idx', diffIndex', firstNonzero', firstIc', lastIc', blockN', B, us0);
      ic := ic + 1;
    }
  }

  /** The state of the trailing loop before row ocb: the units of the
      pairs and of rows align2..ocb-1 emitted, and their counts stored. */
  ghost predicate TrailState(w: seq<Int8>, M: nat, K: nat, N: int, s: int, align2: nat, ocb: nat,
                             pairs: seq<Unit>, counts: seq<nat>,
                             values: array<Int8>, oc: array<nat>, diffs: array<int>,
                             idx: nat, diffIndex: nat, firstNonzero: bool, firstIc: nat, lastIc: nat,
                             blockIndex: nat, blockN: nat)
    reads values, oc, diffs
  {
    var us := pairs + RowsScan(w, K, align2, ocb);
    align2 <= ocb <= M && blockIndex == |counts| + (ocb - align2) && blockIndex <= oc.Length &&
    blockN == |us| && idx == |pairs| + blockN && diffIndex <= blockN &&
    idx <= values.Length && diffIndex <= diffs.Length &&
    Pass(values[..idx], diffs[..diffIndex], firstNonzero, firstIc, lastIc) == Scanned(w, M, K, Semi, us, s, N) &&
    oc[..blockIndex] == counts + if ocb > align2 then [blockN] else []
  }

  /** One pass of the trailing loop: the odd last row r = align2, then
      `oc_nonzeros[block_index++] = block_n`. */
  method EmitLastRow(w: seq<Int8>, M: nat, K: nat, N: int, s: int, align2: nat, r: nat,
                     values: array<Int8>, oc: array<nat>, diffs: array<int>,
                     idx: nat, diffIndex: nat, firstNonzero: bool, firstIc: nat, lastIc: nat, blockIndex: nat, blockN: nat,
                     ghost pairs: seq<Unit>, ghost counts: seq<nat>)
    returns (idx': nat, diffIndex': nat, firstNonzero': bool, firstIc': nat, lastIc': nat, blockIndex': nat, blockN': nat)
    requires r == align2 && r + 1 == M && |counts| < oc.Length
    requires 2 * |pairs| + |RowsScan(w, K, align2, M)| <= values.Length
    requires |pairs| + |RowsScan(w, K, align2, M)| <= diffs.Length
    requires TrailState(w, M, K, N, s, align2, r, pairs, counts, values, oc, diffs,
                        idx, diffIndex, firstNonzero, firstIc, lastIc, blockIndex, blockN)
    modifies values, oc, diffs
    ensures TrailState(w, M, K, N, s, align2, r + 1, pairs, counts, values, oc, diffs,
                       idx', diffIndex', firstNonzero', firstIc', lastIc', blockIndex', blockN')
  {
    assert pairs + RowsScan(w, K, align2, r) == pairs;
    assert RowsScan(w, K, align2, r + 1) == RowScan(w, K, r, K);
    idx', diffIndex', firstNonzero', firstIc', lastIc', blockN' :=
      EmitTrailingRow(w, M, K, N, s, r, blockIndex, values, oc, diffs, idx, diffIndex, firstNonzero, firstIc, lastIc, blockN, |pairs|, pairs);
    oc[blockIndex] := blockN';
    blockIndex' := blockIndex + 1;
    assert oc[..blockIndex'] == oc[..blockIndex] + [blockN'];
  }

  /** The trailing loop of the first pass of ComputeSemiSparseWeight
      (`ocb` from `align2` = 2 * half to M, so at most the odd last row),
      continuing from the units `pairs` of the row pairs and their counts
      `counts`. */
  method EmitTrailing(w: seq<Int8>, M: nat, K: nat, N: int, s: int, half: nat,
                      values: array<Int8>, oc: array<nat>, diffs: array<int>,
                      idx: nat, diffIndex: nat, firstNonzero: bool, firstIc: nat, lastIc: nat, blockIndex: nat, blockN: nat,
                      ghost pairs: seq<Unit>, ghost counts: seq<nat>)
    returns (idx': nat, diffIndex': nat, firstNonzero': bool, firstIc': nat, lastIc': nat, blockIndex': nat, blockN': nat)
    requires 2 * half <= M <= 2 * half + 1
    requires blockIndex == half && M - half <= oc.Length
    requires 2 * |pairs| + |RowsScan(w, K, 2 * half, M)| <= values.Length
    requires |pairs| + |RowsScan(w, K, 2 * half, M)| <= diffs.Length
    requires blockN == |pairs| && idx == 2 * blockN && diffIndex <= blockN
    requires Pass(values[..idx], diffs[..diffIndex], firstNonzero, firstIc, lastIc) == Scanned(w, M, K, Semi, pairs, s, N)
    requires oc[..half] == counts
    modifies values, oc, diffs
    ensures blockIndex' == M - half
    ensures blockN' == |pairs + RowsScan(w, K, 2 * half, M)|
    ensures idx' == |pairs| + blockN' && diffIndex' <= blockN'
    ensures idx' <= values.Length && diffIndex' <= diffs.Length
    ensures Pass(values[..idx'], diffs[..diffIndex'], firstNonzero', firstIc', lastIc')
            == Scanned(w, M, K, Semi, pairs + RowsScan(w, K, 2 * half, M), s, N)
    ensures oc[..blockIndex'] == counts + if M > 2 * half then [blockN'] else []
  {
    idx', diffIndex', firstNonzero', firstIc', lastIc', blockIndex', blockN' :=
      idx, diffIndex, firstNonzero, firstIc, lastIc, blockIndex, blockN;
    var align2 := 2 * half;
    var ocb := align2;
    assert pairs + RowsScan(w, K, align2, ocb) == pairs;
    while ocb < M
      invariant TrailState(w, M, K, N, s, align2, ocb, pairs, counts, values, oc, diffs,
                           idx', diffIndex', firstNonzero', firstIc', lastIc', blockIndex', blockN')
    {
      idx', diffIndex', firstNonzero', firstIc', lastIc', blockIndex', blockN' :=
        EmitLastRow(w, M, K, N, s, align2, ocb, values, oc, diffs, idx', diffIndex', firstNonzero', firstIc', lastIc',
                    blockIndex', blockN', pairs, counts);
      ocb := ocb + 1;
    }
  }

  /** The semi-structured units are the pair units followed by the odd last
      row's nonzeros, and its prefix counts are the pair counts followed by
      the total when there is an odd last row. */
  lemma SemiUnitsSplit(w: seq<Int8>, M: nat, K: nat)
    ensures Units(w, M, K, Semi, M / 2 + M % 2) == PairUnits(w, K, M / 2) + RowsScan(w, K, M / 2 * 2, M)
    ensures Cum(w, M, K, Semi, M / 2 + M % 2)
            == PairCounts(w, K, M / 2) + if M % 2 == 1 then [|Units(w, M, K, Semi, M / 2 + M % 2)|] else []
  {
    var h := M / 2;
    PairUnitsAreUnits(w, M, K, h);
    PairCountsAreCum(w, M, K, h);
    if M % 2 == 1 {
      assert M == 2 * h + 1 && M / 2 * 2 == 2 * h;
      assert GroupScan(w, M, K, Semi, h, K) == RowScan(w, K, 2 * h, K);
      assert RowsScan(w, K, 2 * h, 2 * h + 1) == RowScan(w, K, 2 * h, K);
    } else {
      assert M / 2 * 2 == M;
    }
  }

  /** The sizes and the split of the semi-structured units that the first
      pass relies on. */
  lemma SemiPassFacts(w: seq<Int8>, M: nat, K: nat)
    requires |w| == M * K
    ensures var us := Units(w, M, K, Semi, M / 2 + M % 2);
      var B := ActiveBlocks(w, K, M / 2 * 2);
      var R := TrailingNz(w, M, K);
      us == PairUnits(w, K, M / 2) + RowsScan(w, K, M / 2 * 2, M) &&
      |PairUnits(w, K, M / 2)| == B && |RowsScan(w, K, M / 2 * 2, M)| == R &&
      |ValuesOf(w, M, K, Semi, us)| == 2 * B + R &&
      Cum(w, M, K, Semi, M / 2 + M % 2) == PairCounts(w, K, M / 2) + if M % 2 == 1 then [|us|] else []
  {
    SemiUnitsSplit(w, M, K);
    SemiEncoding(w, M, K, 1, 1);
    PairUnitsAreUnits(w, M, K, M / 2);
    SemiPairUnits(w, M, K, M / 2);
    RowsScanCount(w, K, M / 2 * 2, M);
  }

  /** The first pass of ComputeSemiSparseWeight: the row pairs, then the
      odd last row. */
  method EmitSemi(w: seq<Int8>, M: nat, K: nat, N: int, s: int,
                  values: array<Int8>, oc: array<nat>, diffs: array<int>)
    returns (idx: nat, diffIndex: nat, firstNonzero: bool, firstIc: nat, lastIc: nat)
    requires |w| == M * K
    requires 2 * ActiveBlocks(w, K, M / 2 * 2) + TrailingNz(w, M, K) <= values.Length
    requires ActiveBlocks(w, K, M / 2 * 2) + TrailingNz(w, M, K) <= diffs.Length
    requires M / 2 + M % 2 <= oc.Length
    modifies values, oc, diffs
    ensures idx == |ValuesOf(w, M, K, Semi, Units(w, M, K, Semi, M / 2 + M % 2))| && idx <= values.Length
    ensures diffIndex <= diffs.Length
    ensures Pass(values[..idx], diffs[..diffIndex], firstNonzero, firstIc, lastIc)
            == Scanned(w, M, K, Semi, Units(w, M, K, Semi, M / 2 + M % 2), s, N)
    ensures oc[..M / 2 + M % 2] == Cum(w, M, K, Semi, M / 2 + M % 2)
  {
    ghost var pairs := PairUnits(w, K, M / 2);
    SemiPassFacts(w, M, K);
    var half := M / 2;
    assert 2 * half == M / 2 * 2 && M - half == M / 2 + M % 2 && (M > 2 * half <==> M % 2 == 1);
    var blockIndex, blockN;
    idx, diffIndex, firstNonzero, firstIc, lastIc, blockIndex, blockN := EmitPairs(w, M, K, N, s, values, oc, diffs);
    idx, diffIndex, firstNonzero, firstIc, lastIc, blockIndex, blockN :=
      EmitTrailing(w, M, K, N, s, half, values, oc, diffs, idx, diffIndex, firstNonzero, firstIc, lastIc, blockIndex, blockN,
                   pairs, PairCounts(w, K, half));
  }

  /** ComputeSemiSparseWeight: one two-row unit per active cell of each
      row pair, then the nonzeros of an odd last row as one-row units; one
      group per pair and one for the odd last row. The buffers come out as
      the semi-structured encoding and the result is the first unit's
      column. */
  method ComputeSemiSparseWeight(w: seq<Int8>, M: nat, K: nat, N: int, s: int,
                                 values: array<Int8>, oc: array<nat>, diffs: array<int>)
    returns (firstIc: nat)
    requires |w| == M * K
    requires 2 * ActiveBlocks(w, K, M / 2 * 2) + TrailingNz(w, M, K) <= values.Length
    requires ActiveBlocks(w, K, M / 2 * 2) + TrailingNz(w, M, K) <= diffs.Length
    requires M / 2 + M % 2 <= oc.Length
    modifies values, oc, diffs
    ensures var e := Encode(w, M, K, N, s, Semi);
      |e.values| <= values.Length && |e.deltas| <= diffs.Length &&
      values[..|e.values|] == e.values && oc[..M / 2 + M % 2] == e.prefixCounts &&
      diffs[..|e.deltas|] == e.deltas && firstIc == e.firstCol
  {
    var groups := M / 2 + M % 2;
    ghost var us := Units(w, M, K, Semi, groups);
    SemiEncoding(w, M, K, N, s);
    assert PrefixCounts(Cum(w, M, K, Semi, groups), |us|) by {
      CumFacts(w, M, K, Semi, groups);
    }
    var idx, diffIndex, firstNonzero, lastIc;
    idx, diffIndex, firstNonzero, firstIc, lastIc := EmitSemi(w, M, K, N, s, values, oc, diffs);
    ScannedFacts(w, M, K, Semi, us, s, N);
    FinishDeltas(oc, groups, diffs, diffIndex, firstNonzero, firstIc, lastIc, us, s, N);
  }
}
