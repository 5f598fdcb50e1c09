/** The grid set-up of read_input in a6/ompjacobi.c: an n*n grid that starts
    at zero and is then painted by fixed-value records, each one a value and
    an inclusive rectangle of rows x1..x2 and columns y1..y2. The records are
    a parameter in place of the fscanf loop; `real` stands for double. */
module JacobiGrid {

  datatype Rect = Rect(value: real, x1: int, y1: int, x2: int, y2: int)

  /** Whether the loops of a6/ompjacobi.c:58-62 write cell (i, j). */
  predicate Covers(r: Rect, i: int, j: int)
  {
    r.x1 <= i <= r.x2 && r.y1 <= j <= r.y2
  }

  /** The loops of a record write only inside the n*n grid: C does not check
      the bounds, so a record that reaches outside the grid is not in the
      model. A record with an empty range of rows, or of columns, writes
      nothing and may carry any coordinates. */
  predicate InGrid(r: Rect, n: nat)
  {
    r.x1 <= r.x2 && r.y1 <= r.y2 ==> 0 <= r.x1 && r.x2 < n && 0 <= r.y1 && r.y2 < n
  }

  /** The value of cell (i, j) after the records: the value of the last record
      covering it, 0 when none does. */
  function Cell(records: seq<Rect>, i: int, j: int): real
  {
    if |records| == 0 then 0.0
    else if Covers(records[|records| - 1], i, j) then records[|records| - 1].value
    else Cell(records[..|records| - 1], i, j)
  }

  /** A cell that no record covers keeps the zero of calloc. */
  lemma {:induction false} CellUncovered(records: seq<Rect>, i: int, j: int)
    requires forall k :: 0 <= k < |records| ==> !Covers(records[k], i, j)
    ensures Cell(records, i, j) == 0.0
    decreases |records|
  {
    if |records| > 0 {
      var init := records[..|records| - 1];
      assert forall k :: 0 <= k < |init| ==> init[k] == records[k];
      CellUncovered(init, i, j);
    }
  }

  /** A cell covered by record k and by no later record has record k's value. */
  lemma {:induction false} CellLastCover(records: seq<Rect>, i: int, j: int, k: nat)
    requires k < |records| && Covers(records[k], i, j)
    requires forall m :: k < m < |records| ==> !Covers(records[m], i, j)
    ensures Cell(records, i, j) == records[k].value
    decreases |records|
  {
    if k < |records| - 1 {
      var init := records[..|records| - 1];
      assert init[k] == records[k];
      assert forall m :: k < m < |init| ==> init[m] == records[m];
      CellLastCover(init, i, j, k);
    }
  }

  /** Cell agrees with "the last covering record, else zero": the value is that
      of the record k that covers the cell with no later record covering it,
      and zero when no record covers the cell. */
  lemma CellIsLastCover(records: seq<Rect>, i: int, j: int)
    ensures (forall k :: 0 <= k < |records| ==> !Covers(records[k], i, j)) ==> Cell(records, i, j) == 0.0
    ensures forall k ::
      0 <= k < |records| && Covers(records[k], i, j) && (forall m :: k < m < |records| ==> !Covers(records[m], i, j)) ==>
      Cell(records, i, j) == records[k].value
  {
    if forall k :: 0 <= k < |records| ==> !Covers(records[k], i, j) {
      CellUncovered(records, i, j);
    }
    forall k | 0 <= k < |records| && Covers(records[k], i, j) && (forall m :: k < m < |records| ==> !Covers(records[m], i, j))
      ensures Cell(records, i, j) == records[k].value
    {
      CellLastCover(records, i, j, k);
    }
  }

  /** A record with no row or no column changes nothing, wherever it is. */
  lemma EmptyRecordChangesNothing(records: seq<Rect>, r: Rect, i: int, j: int)
    requires r.x1 > r.x2 || r.y1 > r.y2
    ensures Cell(records + [r], i, j) == Cell(records, i, j)
  {
    assert (records + [r])[..|records|] == records;
  }

  /** A later record replaces an earlier one on every cell it covers, and a
      record keeps every cell it does not cover. */
  lemma LaterRecordOverrides(records: seq<Rect>, r: Rect, i: int, j: int)
    ensures Covers(r, i, j) ==> Cell(records + [r], i, j) == r.value
    ensures !Covers(r, i, j) ==> Cell(records + [r], i, j) == Cell(records, i, j)
  {
    assert (records + [r])[..|records|] == records;
  }

  /** The loops of a6/ompjacobi.c:58-62 for one record: the cells of the
      rectangle get the record's value, all other cells keep theirs. */
  method FillRect(grid: array2<real>, r: Rect)
    requires grid.Length0 == grid.Length1 && InGrid(r, grid.Length0)
    modifies grid
    ensures forall i, j :: 0 <= i < grid.Length0 && 0 <= j < grid.Length1 ==>
      grid[i, j] == if Covers(r, i, j) then r.value else old(grid[i, j])
  {
    var i := r.x1;
    while i <= r.x2
      invariant r.x1 <= i <= r.x2 + 1 || r.x1 > r.x2
      invariant r.x1 > r.x2 ==> i == r.x1
      invariant forall a, b :: 0 <= a < grid.Length0 && 0 <= b < grid.Length1 ==>
        grid[a, b] == if r.x1 <= a < i && r.y1 <= b <= r.y2 then r.value else old(grid[a, b])
      decreases r.x2 + 1 - i
    {
      var j := r.y1;
      while j <= r.y2
        invariant r.y1 <= j <= r.y2 + 1 || j == r.y1
        invariant forall a, b :: 0 <= a < grid.Length0 && 0 <= b < grid.Length1 ==>
          grid[a, b] == if (r.x1 <= a < i && r.y1 <= b <= r.y2) || (a == i && r.y1 <= b < j) then r.value else old(grid[a, b])
        decreases r.y2 + 1 - j
      {
        grid[i, j] := r.value;
        j := j + 1;
      }
      i := i + 1;
    }
  }

  /** read_input without the file (a6/ompjacobi.c:45-63): an n*n grid that
      starts at zero (the calloc of a6/ompjacobi.c:50-52), painted by the
      records in order. */
  method ReadInput(n: nat, records: seq<Rect>) returns (grid: array2<real>)
    requires forall k :: 0 <= k < |records| ==> InGrid(records[k], n)
    ensures fresh(grid) && grid.Length0 == n && grid.Length1 == n
    ensures forall i, j :: 0 <= i < n && 0 <= j < n ==> grid[i, j] == Cell(records, i, j)
  {
    grid := new real[n, n]((_, _) => 0.0);
    for k := 0 to |records|
      invariant forall i, j :: 0 <= i < n && 0 <= j < n ==> grid[i, j] == Cell(records[..k], i, j)
    {
      FillRect(grid, records[k]);
      assert records[..k + 1][..k] == records[..k];
    }
    assert records[..|records|] == records;
  }
}
