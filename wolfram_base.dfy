/**
 * The predicate-driven `updateRow` of components/articles/WolframPattern/Base.js:
 * each new cell is 1 when the rule holds for the cell above it and that
 * cell's two neighbours in the previous row.
 */
module WolframBase {
  import opened WolframRules

  /** `previousRow[j] || 0`: a neighbour past either edge counts as 0. */
  function Neighbour(prev: seq<int>, j: int): int {
    if 0 <= j < |prev| then prev[j] else 0
  }

  /**
   * `previousRow[i]`.  Past the end of the previous row the source passes
   * `undefined`; every rule of `RULES` treats it as it treats 0, and 0 is
   * what is passed here.
   */
  function PreviousCell(prev: seq<int>, i: int): int {
    if 0 <= i < |prev| then prev[i] else 0
  }

  /** The new cell i: the rule's truthiness as 1 or 0. */
  function CellUnder(prev: seq<int>, i: int, rule: Rule): int {
    if rule(PreviousCell(prev, i), Neighbour(prev, i - 1), Neighbour(prev, i + 1)) then 1 else 0
  }

  /** `updateRow(row, previousRow, rule)`: `row.map`, so only the length of `row` is used. */
  function UpdateRow(row: seq<int>, prev: seq<int>, rule: Rule): seq<int> {
    seq(|row|, i requires 0 <= i < |row| => CellUnder(prev, i, rule))
  }

  /** All cells are 0 or 1, cell i is 1 exactly when the rule holds there, and the edges read 0. */
  lemma UpdateRowCells(row: seq<int>, prev: seq<int>, rule: Rule)
    ensures |UpdateRow(row, prev, rule)| == |row|
    ensures forall i :: 0 <= i < |row| ==> IsBit(UpdateRow(row, prev, rule)[i])
    ensures forall i :: 0 <= i < |row| ==>
      (UpdateRow(row, prev, rule)[i] == 1 <==>
       rule(PreviousCell(prev, i), Neighbour(prev, i - 1), Neighbour(prev, i + 1)))
    ensures 0 < |row| && 1 < |prev| ==>
      (UpdateRow(row, prev, rule)[0] == 1 <==> rule(prev[0], 0, prev[1]))
  {
  }

  /** The cells of `row` are never read. */
  lemma UpdateRowIgnoresCells(row: seq<int>, row': seq<int>, prev: seq<int>, rule: Rule)
    requires |row| == |row'|
    ensures UpdateRow(row, prev, rule) == UpdateRow(row', prev, rule)
  {
  }

  /** A rule predicate agrees with Wolfram code `code` on every neighbourhood of bits. */
  ghost predicate HasCode(rule: Rule, code: nat) {
    forall c, l, r :: IsBit(l) && IsBit(c) && IsBit(r) ==> rule(c, l, r) == WolframCell(code, l, c, r)
  }

  /** Rules 30, 90 and 254 have their Wolfram codes; keys 1 and 2 have codes 204 and 240. */
  lemma RuleCodes()
    ensures HasCode(Rules(30).value, 30)
    ensures HasCode(Rules(90).value, 90)
    ensures HasCode(Rules(254).value, 254)
    ensures HasCode(Rules(1).value, 204)
    ensures HasCode(Rules(2).value, 240)
  {
    forall c, l, r | IsBit(l) && IsBit(c) && IsBit(r)
      ensures Rule30(c, l, r) == WolframCell(30, l, c, r)
      ensures Rule90(c, l, r) == WolframCell(90, l, c, r)
      ensures Rule254(c, l, r) == WolframCell(254, l, c, r)
      ensures Rule1(c, l, r) == WolframCell(204, l, c, r)
      ensures Rule2(c, l, r) == WolframCell(240, l, c, r)
    {
      Rule30IsCode30(c, l, r);
      Rule90IsCode90(c, l, r);
      Rule254IsCode254(c, l, r);
      Rule1IsCode204(c, l, r);
      Rule2IsCode240(c, l, r);
    }
  }

  predicate BitRow(row: seq<int>) {
    forall i :: 0 <= i < |row| ==> IsBit(row[i])
  }

  /**
   * On a row of bits, a rule with Wolfram code `code` computes the next
   * generation of that elementary automaton, with cells past the edges dead.
   */
  lemma UpdateRowIsGeneration(row: seq<int>, prev: seq<int>, rule: Rule, code: nat)
    requires HasCode(rule, code) && BitRow(prev) && |row| <= |prev|
    ensures forall i :: 0 <= i < |row| ==>
      (UpdateRow(row, prev, rule)[i] == 1 <==> WolframCell(code, Neighbour(prev, i - 1), prev[i], Neighbour(prev, i + 1)))
  {
    forall i | 0 <= i < |row|
      ensures UpdateRow(row, prev, rule)[i] == 1 <==> WolframCell(code, Neighbour(prev, i - 1), prev[i], Neighbour(prev, i + 1))
    {
      assert IsBit(Neighbour(prev, i - 1)) && IsBit(Neighbour(prev, i + 1));
    }
  }
}
