/** The cell grid a CSV read with `header=None` becomes: rows of nullable,
    already-stringified cells. Pandas frames are rectangular; a ragged row is
    read as if its missing trailing cells were null. */
module Sheet {
  import opened Base

  type Cell = Option<string>
  type Row = seq<Cell>
  type Grid = seq<Row>

  /** Positional cell access with absent trailing cells. */
  function At(row: Row, i: nat): Cell {
    if i < |row| then row[i] else None
  }

  /** The non-null cells of `row[i..]`, in column order
      (`row.dropna().astype(str).tolist()` when `i` is 0). */
  function NonNullFrom(row: Row, i: nat): (vs: seq<string>)
    requires i <= |row|
    ensures |vs| <= |row| - i
    decreases |row| - i
  {
    if i == |row| then []
    else
      (match row[i] case Some(v) => [v] case None => []) + NonNullFrom(row, i + 1)
  }

  function NonNull(row: Row): seq<string> {
    NonNullFrom(row, 0)
  }

  /** `row.count()`: the number of non-null cells. */
  function NonNullCount(row: Row): nat {
    |NonNull(row)|
  }

  /** The row has at least one non-null cell. */
  predicate HasCell(row: Row) {
    exists i :: 0 <= i < |row| && row[i].Some?
  }

  lemma {:induction false} NonNullFromEmptyIff(row: Row, i: nat)
    requires i <= |row|
    ensures |NonNullFrom(row, i)| == 0 <==> forall j :: i <= j < |row| ==> row[j].None?
    decreases |row| - i
  {
    if i < |row| {
      NonNullFromEmptyIff(row, i + 1);
    }
  }

  /** A row yields no non-null values exactly when it has no non-null cell. */
  lemma NonNullEmptyIff(row: Row)
    ensures NonNullCount(row) == 0 <==> !HasCell(row)
  {
    NonNullFromEmptyIff(row, 0);
  }

  /** Every non-null cell of the grid in row-major order, starting at row `r`. */
  function CellsFrom(g: Grid, r: nat): seq<string>
    requires r <= |g|
    decreases |g| - r
  {
    if r == |g| then [] else NonNull(g[r]) + CellsFrom(g, r + 1)
  }

  /** `[cell for row in df.values for cell in row if pd.notnull(cell)]`. */
  function Cells(g: Grid): seq<string> {
    CellsFrom(g, 0)
  }

  lemma {:induction false} CellsFromEmptyIff(g: Grid, r: nat)
    requires r <= |g|
    ensures |CellsFrom(g, r)| == 0 <==> forall k :: r <= k < |g| ==> !HasCell(g[k])
    decreases |g| - r
  {
    if r < |g| {
      NonNullEmptyIff(g[r]);
      CellsFromEmptyIff(g, r + 1);
    }
  }

  /** The grid has no non-null cell anywhere exactly when no row has one. */
  lemma CellsEmptyIff(g: Grid)
    ensures |Cells(g)| == 0 <==> forall k :: 0 <= k < |g| ==> !HasCell(g[k])
  {
    CellsFromEmptyIff(g, 0);
  }

  /** `len(df.columns)`: the length of the longest row. */
  function Width(g: Grid): (w: nat)
    ensures forall k :: 0 <= k < |g| ==> |g[k]| <= w
    ensures |g| > 0 ==> exists k :: 0 <= k < |g| && |g[k]| == w
    decreases |g|
  {
    if |g| == 0 then 0
    else
      var w := Width(g[1..]);
      assert forall k :: 1 <= k < |g| ==> g[k] == g[1..][k - 1];
      if |g[0]| >= w then |g[0]|
      else
        assert exists k :: 1 <= k < |g| && |g[k]| == w by {
          var k' :| 0 <= k' < |g[1..]| && |g[1..][k']| == w;
          assert g[k' + 1] == g[1..][k'];
        }
        w
  }
}
