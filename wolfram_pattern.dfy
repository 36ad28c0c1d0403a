/**
 * The grid component of components/articles/WolframPattern/Pattern.js.  It
 * holds 50 rows of 101 cells and an error message; "Run" recomputes every
 * row below the first from the one above it through the page's `updateRow`,
 * and "Reset" puts the initial grid back.
 *
 * The three pages hand it different `updateRow` closures; `Updater` names
 * which one together with the state it closes over.
 */
module WolframPattern {
  import opened Wrappers
  import opened WolframRules
  import opened WolframRows
  import opened WolframBase
  import opened WolframBinary
  import opened WolframCustom

  /** The `updateRow` prop of Base.js, Binary.js and Custom.js. */
  datatype Updater =
    | BaseRule(defaultRule: int)
    | BinaryTable(binaryRules: map<string, int>)
    | CustomRule(outcome: Option<bool>)

  /**
   * One call of the prop; None when it throws.  Base.js looks its rule up in
   * `RULES`; a missing key makes `rule` undefined, which throws at the first
   * cell and not at all on an empty row.
   */
  function Apply(u: Updater, row: seq<int>, prev: seq<int>): Option<seq<int>> {
    match u
    case BaseRule(k) =>
      if Rules(k).Some? then Some(UpdateRow(row, prev, Rules(k).value))
      else if |row| == 0 then Some([])
      else None
    case BinaryTable(table) => Some(TableUpdateRow(row, prev, table))
    case CustomRule(_) => CustomUpdateRow(row, prev, CustomRuleEval(u.outcome))
  }

  /** The prop can never throw: a known rule key, or an evaluation that succeeded. */
  predicate NeverThrows(u: Updater) {
    match u
    case BaseRule(k) => Rules(k).Some?
    case BinaryTable(_) => true
    case CustomRule(outcome) => outcome.Some?
  }

  /** A call throws exactly on a non-empty row with a throwing prop, and otherwise keeps the row's length. */
  lemma ApplyThrows(u: Updater, row: seq<int>, prev: seq<int>)
    ensures Apply(u, row, prev).None? <==> |row| > 0 && !NeverThrows(u)
    ensures Apply(u, row, prev).Some? ==> |Apply(u, row, prev).value| == |row|
  {
    match u
    case BaseRule(k) =>
      if Rules(k).Some? {
        UpdateRowCells(row, prev, Rules(k).value);
      }
    case BinaryTable(table) =>
      TableUpdateRowCells(row, prev, table);
    case CustomRule(outcome) =>
      CustomRuleEvalRows(row, prev, outcome);
  }

  /** Only the length of `row` matters to a call. */
  lemma ApplyIgnoresCells(u: Updater, row: seq<int>, row': seq<int>, prev: seq<int>)
    requires |row| == |row'|
    ensures Apply(u, row, prev) == Apply(u, row', prev)
  {
    match u
    case BaseRule(k) =>
      if Rules(k).Some? {
        UpdateRowIgnoresCells(row, row', prev, Rules(k).value);
      }
    case BinaryTable(table) =>
    case CustomRule(outcome) =>
      CustomRuleEvalRows(row, prev, outcome);
      CustomRuleEvalRows(row', prev, outcome);
  }

  /** The grid the component starts with, and returns to on "Reset". */
  function InitialGrid(): seq<seq<int>> {
    InitialRows()[0 := FirstRow()]
  }

  /** Lines 6-7 of Pattern.js, evaluated on every render. */
  method FreshInitialRows() returns (initialRows: seq<seq<int>>)
    ensures initialRows == InitialGrid()
  {
    initialRows := InitialRows();
    initialRows := initialRows[0 := FirstRow()];
  }

  /** The initial grid is 50 rows of 101 cells: the centred single 1, then empty rows. */
  lemma InitialGridShape()
    ensures Grid(InitialGrid())
    ensures InitialGrid()[0] == FirstRow()
    ensures forall i :: 1 <= i < Height ==> InitialGrid()[i] == EmptyRow()
    ensures BitRow(InitialGrid()[0])
  {
    InitialRowsShape();
    FirstRowCells();
  }

  /**
   * `getUpdatedRows` up to (not including) index n: rows 1 .. n-1 have been
   * replaced, each from the already replaced row above it; None once a call
   * has thrown.
   */
  function CascadeTo(u: Updater, rows: seq<seq<int>>, n: nat): (r: Option<seq<seq<int>>>)
    requires n <= |rows|
    ensures r.Some? ==> |r.value| == |rows| && r.value[n..] == rows[n..]
    decreases n
  {
    if n <= 1 then Some(rows)
    else
      var done := CascadeTo(u, rows, n - 1);
      if done.None? then None
      else
        var next := Apply(u, done.value[n - 1], done.value[n - 2]);
        if next.None? then None else Some(done.value[n - 1 := next.value])
  }

  /** Once a call has thrown, the rest of the loop never runs. */
  lemma {:induction false} CascadeToFails(u: Updater, rows: seq<seq<int>>, n: nat, m: nat)
    requires n <= m <= |rows| && CascadeTo(u, rows, n).None?
    ensures CascadeTo(u, rows, m).None?
    decreases m - n
  {
    if n < m {
      CascadeToFails(u, rows, n + 1, m);
    }
  }

  /** `getUpdatedRows()`. */
  function Cascade(u: Updater, rows: seq<seq<int>>): Option<seq<seq<int>>> {
    CascadeTo(u, rows, |rows|)
  }

  /**
   * What the loop computes: the first row is kept, and every later row is
   * the call on its old cells and the new row above it.
   */
  lemma {:induction false} CascadeToSteps(u: Updater, rows: seq<seq<int>>, n: nat)
    requires n <= |rows|
    ensures CascadeTo(u, rows, n).Some? ==>
      (|rows| > 0 ==> CascadeTo(u, rows, n).value[0] == rows[0]) &&
      forall i :: 1 <= i < n ==>
        Apply(u, rows[i], CascadeTo(u, rows, n).value[i - 1]) == Some(CascadeTo(u, rows, n).value[i])
    decreases n
  {
    if n > 1 {
      CascadeToSteps(u, rows, n - 1);
      var done := CascadeTo(u, rows, n - 1);
      if done.Some? {
        assert done.value[n - 1] == done.value[n - 1..][0] == rows[n - 1..][0];
      }
    }
  }

  /** The rows `getUpdatedRows` produces keep the width of the rows they replace. */
  lemma {:induction false} CascadeToWidths(u: Updater, rows: seq<seq<int>>, n: nat)
    requires n <= |rows|
    ensures CascadeTo(u, rows, n).Some? ==>
      forall i :: 0 <= i < |rows| ==> |CascadeTo(u, rows, n).value[i]| == |rows[i]|
    decreases n
  {
    if n > 1 {
      CascadeToWidths(u, rows, n - 1);
      var done := CascadeTo(u, rows, n - 1);
      if done.Some? {
        ApplyThrows(u, done.value[n - 1], done.value[n - 2]);
      }
    }
  }

  /** Running keeps a grid a grid. */
  lemma CascadeKeepsGrid(u: Updater, rows: seq<seq<int>>)
    requires Grid(rows)
    ensures Cascade(u, rows).Some? ==> Grid(Cascade(u, rows).value)
  {
    CascadeToWidths(u, rows, |rows|);
  }

  /** The n-th generation grown from `first` by repeated calls, None once one throws. */
  function Generation(u: Updater, first: seq<int>, n: nat): Option<seq<int>> {
    if n == 0 then Some(first)
    else
      var p := Generation(u, first, n - 1);
      if p.None? then None else Apply(u, p.value, p.value)
  }

  /** Every generation has the first row's width; a never-throwing prop always gets there. */
  lemma {:induction false} GenerationWidth(u: Updater, first: seq<int>, n: nat)
    ensures Generation(u, first, n).Some? ==> |Generation(u, first, n).value| == |first|
    ensures NeverThrows(u) ==> Generation(u, first, n).Some?
  {
    if n > 0 {
      GenerationWidth(u, first, n - 1);
      var p := Generation(u, first, n - 1);
      if p.Some? {
        ApplyThrows(u, p.value, p.value);
      }
    }
  }

  /** A throwing prop on a non-empty first row fails at the first generation and stays failed. */
  lemma {:induction false} GenerationThrows(u: Updater, first: seq<int>, n: nat)
    requires !NeverThrows(u) && |first| > 0 && n >= 1
    ensures Generation(u, first, n).None?
  {
    if n == 1 {
      ApplyThrows(u, first, first);
    } else {
      GenerationThrows(u, first, n - 1);
    }
  }

  /** On a grid, the first n rows after the loop are the first n generations of row 0. */
  lemma {:induction false} CascadeToGenerations(u: Updater, rows: seq<seq<int>>, n: nat)
    requires Grid(rows) && 1 <= n <= |rows|
    ensures CascadeTo(u, rows, n).Some? <==> Generation(u, rows[0], n - 1).Some?
    ensures CascadeTo(u, rows, n).Some? ==>
      forall i :: 0 <= i < n ==>
        Generation(u, rows[0], i).Some? && CascadeTo(u, rows, n).value[i] == Generation(u, rows[0], i).value
    decreases n
  {
    if n > 1 {
      CascadeToGenerations(u, rows, n - 1);
      var done := CascadeTo(u, rows, n - 1);
      if done.Some? {
        var d := done.value;
        assert d[n - 1] == d[n - 1..][0] == rows[n - 1..][0];
        var p := Generation(u, rows[0], n - 2);
        GenerationWidth(u, rows[0], n - 2);
        ApplyIgnoresCells(u, d[n - 1], p.value, p.value);
      }
    }
  }

  /** The whole run, as generations. */
  lemma CascadeIsGenerations(u: Updater, rows: seq<seq<int>>)
    requires Grid(rows)
    ensures Cascade(u, rows).Some? <==> Generation(u, rows[0], |rows| - 1).Some?
    ensures Cascade(u, rows).Some? ==>
      forall i :: 0 <= i < |rows| ==>
        Generation(u, rows[0], i).Some? && Cascade(u, rows).value[i] == Generation(u, rows[0], i).value
  {
    CascadeToGenerations(u, rows, |rows|);
  }

  /** `testRule()`: one trial call on rows 1 and 0; a missing row makes `row.map` throw. */
  function TestRule(u: Updater, rows: seq<seq<int>>): bool {
    |rows| >= 2 && Apply(u, rows[1], rows[0]).Some?
  }

  /** On a grid the trial passes exactly for a prop that never throws, and then the run succeeds. */
  lemma TestRuleIff(u: Updater, rows: seq<seq<int>>)
    requires Grid(rows)
    ensures TestRule(u, rows) <==> NeverThrows(u)
    ensures TestRule(u, rows) ==> Cascade(u, rows).Some?
  {
    ApplyThrows(u, rows[1], rows[0]);
    CascadeIsGenerations(u, rows);
    GenerationWidth(u, rows[0], |rows| - 1);
  }

  /** A throwing prop makes the run fail as well: the trial does not reject a rule the run would accept. */
  lemma FailedTrialFailsRun(u: Updater, rows: seq<seq<int>>)
    requires Grid(rows) && !TestRule(u, rows)
    ensures Cascade(u, rows).None?
  {
    TestRuleIff(u, rows);
    CascadeIsGenerations(u, rows);
    GenerationThrows(u, rows[0], |rows| - 1);
  }

  /** Every cell of `next` is what the elementary automaton with Wolfram code `code` makes of `above`. */
  predicate NextGeneration(above: seq<int>, next: seq<int>, code: nat)
    requires BitRow(above) && |next| <= |above|
  {
    forall j :: 0 <= j < |next| ==>
      (next[j] == 1 <==> WolframCell(code, Neighbour(above, j - 1), above[j], Neighbour(above, j + 1)))
  }

  /**
   * On the Base page with a rule of Wolfram code `code`, starting from a row
   * of bits, every row after "Run" is the elementary automaton's next
   * generation of the row above it.
   */
  lemma BaseRunIsAutomaton(k: int, code: nat, rows: seq<seq<int>>)
    requires Rules(k).Some? && HasCode(Rules(k).value, code)
    requires Grid(rows) && BitRow(rows[0])
    ensures Cascade(BaseRule(k), rows).Some?
    ensures Grid(Cascade(BaseRule(k), rows).value)
    ensures forall i :: 0 <= i < |rows| ==> BitRow(Cascade(BaseRule(k), rows).value[i])
    ensures forall i :: 1 <= i < |rows| ==> NextGeneration(Cascade(BaseRule(k), rows).value[i - 1], Cascade(BaseRule(k), rows).value[i], code)
  {
    var u := BaseRule(k);
    var rule := Rules(k).value;
    TestRuleIff(u, rows);
    CascadeToSteps(u, rows, |rows|);
    CascadeKeepsGrid(u, rows);
    var out := Cascade(u, rows).value;
    forall i | 1 <= i < |rows|
      ensures BitRow(out[i])
    {
      assert out[i] == UpdateRow(rows[i], out[i - 1], rule);
      UpdateRowCells(rows[i], out[i - 1], rule);
    }
    assert BitRow(out[0]);
    forall i | 1 <= i < |rows|
      ensures NextGeneration(out[i - 1], out[i], code)
    {
      assert out[i] == UpdateRow(rows[i], out[i - 1], rule);
      assert BitRow(out[i - 1]);
      UpdateRowIsGeneration(rows[i], out[i - 1], rule, code);
    }
  }

  /** The component's state: the grid and the error message under it. */
  class Pattern {
    var rows: seq<seq<int>>
    var error: string

    predicate Valid()
      reads this
    {
      Grid(rows)
    }

    constructor()
      ensures rows == InitialGrid() && error == ""
      ensures Valid()
    {
      var initialRows := FreshInitialRows();
      rows := initialRows;
      error := "";
      InitialGridShape();
    }

    /** `getUpdatedRows()`: a copy of the rows with each one below the first recomputed; None on a throw. */
    method GetUpdatedRows(u: Updater) returns (newRows: Option<seq<seq<int>>>)
      ensures newRows == Cascade(u, rows)
    {
      var acc := rows;
      var i := 1;
      while i < |rows|
        invariant |rows| == 0 ==> acc == rows
        invariant |rows| > 0 ==> 1 <= i <= |rows| && CascadeTo(u, rows, i) == Some(acc)
        decreases |rows| - i
      {
        var next := Apply(u, acc[i], acc[i - 1]);
        if next.None? {
          CascadeToFails(u, rows, i + 1, |rows|);
          return None;
        }
        acc := acc[i := next.value];
        i := i + 1;
      }
      newRows := Some(acc);
    }

    /**
     * `updateRows()`, the "Run" button.  The message is cleared; a failed
     * trial sets it and leaves the rows; otherwise the rows are the run's
     * result.  A throw during the run itself escapes the handler and leaves
     * the rows as they were.
     */
    method UpdateRows(u: Updater)
      modifies this
      ensures !TestRule(u, old(rows)) ==> rows == old(rows) && error == "Unable to process rule"
      ensures TestRule(u, old(rows)) ==>
        (error == "" && rows == if Cascade(u, old(rows)).Some? then Cascade(u, old(rows)).value else old(rows))
      ensures old(Valid()) ==> Valid()
    {
      error := "";
      var isWorking := TestRule(u, rows);
      if !isWorking {
        error := "Unable to process rule";
        return;
      }
      var rowsToUpdate := GetUpdatedRows(u);
      if rowsToUpdate.Some? {
        if Valid() {
          CascadeKeepsGrid(u, rows);
        }
        rows := rowsToUpdate.value;
      }
    }

    /** `resetRows()`, the "Reset" button. */
    method ResetRows()
      modifies this
      ensures rows == InitialGrid() && error == ""
      ensures Valid()
    {
      error := "";
      var initialRows := FreshInitialRows();
      rows := initialRows;
      InitialGridShape();
    }
  }
}
