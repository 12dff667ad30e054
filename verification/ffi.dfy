/** The grid store: the four entry points the host calls on a grid handle.
    A handle is modelled as the value of the cells it points to, the null
    pointer as `None`; allocation and deallocation become the appearance and
    disappearance of that value. */
module Ffi {
  import opened Bytes
  import opened Runtime
  import opened Element
  import ProcessData

  /** The record every slot of a new grid starts from. */
  function NewCell(r: uint8, c: uint8): Cell
  {
    Element(r, c, 0,
      Zeros(SelectedNumberListSize),
      Zeros(SelectedPatternListSize),
      Zeros(RequestedElementHighLightTypeSize),
      Filled(RequestedCandHighLightTypeSize, PatternListOff))
  }

  /** Splitting a row-major index back into its row and column. */
  lemma RowMajorSplits(r: nat, c: nat, cols: uint8)
    requires c < cols as nat
    ensures RowMajor(r, c, cols) / cols as nat == r && RowMajor(r, c, cols) % cols as nat == c
  {
    var n, i := cols as nat, RowMajor(r, c, cols);
    var q, m := i / n, i % n;
    assert q * n + m == r * n + c;
    assert q * n <= i < (q + 1) * n;
    assert r * n <= i < (r + 1) * n;
    MulStrictlyMonotone(q, r + 1, n);
    MulStrictlyMonotone(r, q + 1, n);
  }

  /** Multiplication by a positive number preserves strict order. */
  lemma MulStrictlyMonotone(a: nat, b: nat, n: nat)
    requires n > 0 && a * n < b * n
    ensures a < b
  {
  }

  /** A row-major index stays inside the grid. */
  lemma RowMajorInBounds(r: nat, c: nat, rows: uint8, cols: uint8)
    requires r < rows as nat && c < cols as nat
    ensures RowMajor(r, c, cols) < Count(rows, cols)
  {
    var n := cols as nat;
    assert r * n + c < (r + 1) * n <= rows as nat * n;
  }

  /** `create_matrix(rows, cols)`: only the 9 by 9 grid is accepted; any other
      size aborts. `allocSucceeds` is the allocator's answer: when it fails
      the null handle comes back. */
  function CreateMatrix(rows: uint8, cols: uint8, allocSucceeds: bool): (r: Outcome<Option<Grid>>)
    ensures r.Aborted? <==> rows != MatrixSize || cols != MatrixSize
    ensures r.Returned? ==> (r.value.Some? <==> allocSucceeds)
    ensures r.Returned? && r.value.Some? ==> |r.value.value| == Count(rows, cols)
    // coordinates follow the row-major position
    ensures r.Returned? && r.value.Some? ==>
      forall rr: nat, cc: nat :: rr < rows as nat && cc < cols as nat ==>
        RowMajor(rr, cc, cols) < |r.value.value| &&
        r.value.value[RowMajor(rr, cc, cols)].row as nat == rr &&
        r.value.value[RowMajor(rr, cc, cols)].col as nat == cc
    // no value, no candidates, no patterns, no element highlight, every candidate highlight off
    ensures r.Returned? && r.value.Some? ==>
      forall i :: 0 <= i < |r.value.value| ==>
        var e := r.value.value[i];
        && e.selectedNumState == 0
        && AllAre(e.selectedCandList, 0)
        && AllAre(e.selectedPatternList, 0)
        && AllAre(e.requestedElementHighLightType, 0)
        && AllAre(e.requestedCandHighLightType, PatternListOff)
  {
    if rows != MatrixSize || cols != MatrixSize then Aborted
    else if !allocSucceeds then Returned(None)
    else
      var n := cols as nat;
      var g := seq(Count(rows, cols), i requires 0 <= i < Count(rows, cols) =>
        NewCell((i / n) as uint8, (i % n) as uint8));
      assert forall rr: nat, cc: nat :: rr < rows as nat && cc < n ==>
        RowMajor(rr, cc, cols) < |g| && g[RowMajor(rr, cc, cols)] == NewCell(rr as uint8, cc as uint8) by {
        forall rr: nat, cc: nat | rr < rows as nat && cc < n
          ensures RowMajor(rr, cc, cols) < |g| && g[RowMajor(rr, cc, cols)] == NewCell(rr as uint8, cc as uint8)
        {
          RowMajorInBounds(rr, cc, rows, cols);
          RowMajorSplits(rr, cc, cols);
        }
      }
      Returned(Some(g))
  }

  /** `update_cell(ptr, rows, cols, idx)`: a null handle is ignored; a grid of
      more than 81 cells or an index outside it aborts; otherwise only cell
      `idx` is reclassified. */
  function UpdateCell(h: Option<Grid>, rows: uint8, cols: uint8, idx: uint8): (r: Outcome<Option<Grid>>)
    requires h.Some? && Count(rows, cols) <= MatrixElements as nat && (idx as nat) < Count(rows, cols) ==>
      (idx as nat) < |h.value|
    ensures h.None? ==> r == Returned(None)
    ensures h.Some? ==>
      (r.Aborted? <==> Count(rows, cols) > MatrixElements as nat || idx as nat >= Count(rows, cols))
    ensures h.Some? && r.Returned? ==>
      && r.value.Some?
      && |r.value.value| == |h.value|
      && r.value.value[idx] == ProcessData.PairRule(h.value[idx])
      && forall j :: 0 <= j < |h.value| && j != idx as nat ==> r.value.value[j] == h.value[j]
  {
    if h.None? then Returned(None)
    else if Count(rows, cols) > MatrixElements as nat then Aborted
    else if idx as nat >= Count(rows, cols) then Aborted
    else ProcessData.CheckForElementPair(h, idx as nat)
  }

  /** The grid after the rule has been applied to each of its first `count`
      cells; cells past `count` are not addressed. */
  function UpdatedGrid(g: Grid, count: nat): Grid
  {
    seq(|g|, i requires 0 <= i < |g| => if i < count then ProcessData.PairRule(g[i]) else g[i])
  }

  /** The indices 0, 1, ..., n - 1 in increasing order. */
  function Indices(n: nat): (s: seq<nat>)
    ensures |s| == n && forall i :: 0 <= i < n ==> s[i] == i
  {
    if n == 0 then [] else Indices(n - 1) + [n - 1]
  }

  /** `update_matrix(ptr, rows, cols)`: the nested row/column walk of the
      source. `visited` records the index handed to the rule at each step; it
      is every index below `rows * cols` once, in row-major order, and each
      one passes the source's `idx < count` check. */
  method UpdateMatrix(h: Option<Grid>, rows: uint8, cols: uint8)
    returns (r: Outcome<Option<Grid>>, visited: seq<nat>)
    requires h.Some? && Count(rows, cols) <= MatrixElements as nat ==> Count(rows, cols) <= |h.value|
    ensures h.None? ==> r == Returned(None) && visited == []
    ensures h.Some? ==> (r.Aborted? <==> Count(rows, cols) > MatrixElements as nat)
    ensures h.Some? && r.Returned? ==>
      r == Returned(Some(UpdatedGrid(h.value, Count(rows, cols)))) && visited == Indices(Count(rows, cols))
  {
    visited := [];
    if h.None? {
      return Returned(None), visited;
    }
    var count := Count(rows, cols);
    if count > MatrixElements as nat {
      return Aborted, visited;
    }
    var n := cols as nat;
    var g := h.value;
    var row := 0;
    while row < rows as nat
      invariant row <= rows as nat
      invariant |g| == |h.value|
      invariant visited == Indices(row * n)
      invariant forall i :: 0 <= i < |g| ==>
        g[i] == if i < row * n then ProcessData.PairRule(h.value[i]) else h.value[i]
    {
      var col := 0;
      while col < n
        invariant col <= n
        invariant |g| == |h.value|
        invariant visited == Indices(row * n + col)
        invariant forall i :: 0 <= i < |g| ==>
          g[i] == if i < row * n + col then ProcessData.PairRule(h.value[i]) else h.value[i]
      {
        var idx := RowMajor(row, col, cols);
        RowMajorInBounds(row, col, rows, cols);
        assert idx < count;
        var step := ProcessData.CheckForElementPair(Some(g), idx);
        g := step.value.value;
        visited := visited + [idx];
        col := col + 1;
      }
      assert row * n + n == (row + 1) * n;
      row := row + 1;
    }
    assert g == UpdatedGrid(h.value, count);
    r := Returned(Some(g));
  }

  /** `free_matrix(ptr, rows, cols)`: a null handle is ignored; otherwise the
      block is released, and the handle no longer refers to any cells. */
  function FreeMatrix(h: Option<Grid>, rows: uint8, cols: uint8): (r: Option<Grid>)
    // the size descriptor must be the one the block was created with
    requires h.Some? ==> |h.value| == Count(rows, cols)
    ensures r.None?
  {
    if h.None? then h else None
  }

  /** Reclassifying a freshly created grid changes nothing: no cell has a
      candidate, so every candidate highlight stays off. */
  lemma UpdateOfNewGridKeepsEverythingOff(rows: uint8, cols: uint8)
    requires CreateMatrix(rows, cols, true).Returned?
    ensures
      var g := CreateMatrix(rows, cols, true).value.value;
      && UpdatedGrid(g, Count(rows, cols)) == g
      && forall i :: 0 <= i < |g| ==> AllAre(g[i].requestedCandHighLightType, PatternListOff)
  {
    var g := CreateMatrix(rows, cols, true).value.value;
    forall i | 0 <= i < |g| ensures ProcessData.PairRule(g[i]) == g[i] {
      SumZeroIffAllZero(g[i].selectedCandList);
    }
  }

  /** Reclassifying the whole grid twice gives the same grid as once. */
  lemma UpdatedGridIdempotent(g: Grid, count: nat)
    ensures UpdatedGrid(UpdatedGrid(g, count), count) == UpdatedGrid(g, count)
  {
    forall i | 0 <= i < |g| && i < count {
      ProcessData.PairRuleIdempotent(g[i]);
    }
  }

  /** The whole-grid walk and the single-cell entry point agree on every cell. */
  lemma UpdateMatrixAgreesWithUpdateCell(g: Grid, rows: uint8, cols: uint8, idx: uint8)
    requires Count(rows, cols) <= MatrixElements as nat && Count(rows, cols) <= |g|
    requires (idx as nat) < Count(rows, cols)
    ensures UpdateCell(Some(g), rows, cols, idx).Returned?
    ensures UpdateCell(Some(g), rows, cols, idx).value.value[idx] == UpdatedGrid(g, Count(rows, cols))[idx]
  {
  }
}
