/**
 * The row builders of components/articles/WolframPattern/util.js: the grid
 * is 50 rows of 101 cells, and the first row has a single 1 in the centre.
 */
module WolframRows {

  const Width := 101
  const Height := 50

  function Zeros(n: nat): seq<int> {
    seq(n, _ => 0)
  }

  /** `getEmptyRow`. */
  function EmptyRow(): seq<int> {
    Zeros(Width)
  }

  /** `getFirstRow`: 50 zeros, a 1, 50 zeros. */
  function FirstRow(): seq<int> {
    Zeros(50) + [1] + Zeros(50)
  }

  /** `getInitialRows`: a fresh empty row per index. */
  function InitialRows(): seq<seq<int>> {
    seq(Height, _ => EmptyRow())
  }

  /** Every row of the grid has the page's width. */
  predicate Grid(rows: seq<seq<int>>) {
    |rows| == Height && forall i :: 0 <= i < |rows| ==> |rows[i]| == Width
  }

  lemma EmptyRowCells()
    ensures |EmptyRow()| == 101
    ensures forall i :: 0 <= i < 101 ==> EmptyRow()[i] == 0
  {
  }

  /** The centre cell, index 50, is the only 1 of the first row. */
  lemma FirstRowCells()
    ensures |FirstRow()| == 101
    ensures forall i :: 0 <= i < 101 ==> FirstRow()[i] == if i == 50 then 1 else 0
  {
    var f := FirstRow();
    forall i | 0 <= i < 101 ensures f[i] == if i == 50 then 1 else 0 {
      if i < 50 {
        assert f[i] == Zeros(50)[i];
      } else if i > 50 {
        assert f[i] == Zeros(50)[i - 51];
      }
    }
  }

  lemma InitialRowsShape()
    ensures Grid(InitialRows())
    ensures forall i :: 0 <= i < 50 ==> InitialRows()[i] == EmptyRow()
  {
  }
}
