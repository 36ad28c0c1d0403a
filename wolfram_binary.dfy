/**
 * The lookup-table automaton of components/articles/WolframPattern/Binary.js.
 * Each new cell looks up the string "lcr" built from the previous row in the
 * `binaryRules` table; the editor flips one entry at a time.
 *
 * Table values are integers: the source's initial `false` is 0 here, which
 * is falsy in the same way.  A key missing from the table reads `undefined`,
 * which is falsy too.
 */
module WolframBinary {
  import opened WolframRules
  import opened WolframBase

  function DigitChar(d: nat): char
    requires d < 10
  {
    "0123456789"[d]
  }

  function NatString(n: nat): string
    decreases n
  {
    if n < 10 then [DigitChar(n)] else NatString(n / 10) + [DigitChar(n % 10)]
  }

  /** A number in a template literal: decimal, with a minus sign when negative. */
  function DecimalString(n: int): string {
    if n < 0 then "-" + NatString(-n) else NatString(n)
  }

  /** `${previousCell}`: "undefined" past the end of the previous row. */
  function CellText(prev: seq<int>, i: int): string {
    if 0 <= i < |prev| then DecimalString(prev[i]) else "undefined"
  }

  /** `${leftNeighbor}${previousCell}${rightNeighbor}`. */
  function Key(prev: seq<int>, i: int): string {
    DecimalString(Neighbour(prev, i - 1)) + CellText(prev, i) + DecimalString(Neighbour(prev, i + 1))
  }

  /** `binaryRules[key]` is truthy. */
  predicate TableTruthy(table: map<string, int>, key: string) {
    key in table && table[key] != 0
  }

  /** `updateRow(row, previousRow, binaryRules)`. */
  function TableUpdateRow(row: seq<int>, prev: seq<int>, table: map<string, int>): seq<int> {
    seq(|row|, i requires 0 <= i < |row| => if TableTruthy(table, Key(prev, i)) then 1 else 0)
  }

  /** The initial `binaryRules` state: every key of `BINARY_RULES` is off. */
  const InitialBinaryRules: map<string, int> :=
    map["111" := 0, "110" := 0, "101" := 0, "100" := 0, "011" := 0, "010" := 0, "001" := 0, "000" := 0]

  /** `{ ...binaryRules, [rule]: previousValue ? 0 : 1 }`. */
  function ToggledBinaryRules(table: map<string, int>, rule: string): map<string, int> {
    table[rule := if TableTruthy(table, rule) then 0 else 1]
  }

  /** The `binaryRules` state of the Binary component. */
  class Binary {
    var binaryRules: map<string, int>

    constructor()
      ensures binaryRules == InitialBinaryRules
    {
      binaryRules := InitialBinaryRules;
    }

    /** `updateBinaryRules(rule)`. */
    method UpdateBinaryRules(rule: string)
      modifies this
      ensures binaryRules == ToggledBinaryRules(old(binaryRules), rule)
    {
      var previousValue := TableTruthy(binaryRules, rule);
      var newValue := if previousValue then 0 else 1;
      binaryRules := binaryRules[rule := newValue];
    }
  }

  // ---------------------------------------------------------------- properties

  /** Same length, cells 0 or 1, and cell i is 1 exactly when the table is truthy at its key. */
  lemma TableUpdateRowCells(row: seq<int>, prev: seq<int>, table: map<string, int>)
    ensures |TableUpdateRow(row, prev, table)| == |row|
    ensures forall i :: 0 <= i < |row| ==> IsBit(TableUpdateRow(row, prev, table)[i])
    ensures forall i :: 0 <= i < |row| ==>
      (TableUpdateRow(row, prev, table)[i] == 1 <==> TableTruthy(table, Key(prev, i)))
  {
  }

  lemma BitStrings()
    ensures DecimalString(0) == "0" && DecimalString(1) == "1"
  {
  }

  /**
   * On a row of bits (edges reading 0) the key is the neighbourhood's 3-bit
   * form, which is entry 7 - (4l + 2c + r) of `BINARY_RULES`.
   */
  lemma KeyOfBits(prev: seq<int>, i: int)
    requires BitRow(prev) && 0 <= i < |prev|
    ensures var l, c, r := Neighbour(prev, i - 1), prev[i], Neighbour(prev, i + 1);
            IsBit(l) && IsBit(c) && IsBit(r) &&
            Key(prev, i) == Bits3(4 * l + 2 * c + r) &&
            Key(prev, i) == BinaryRules[7 - (4 * l + 2 * c + r)]
  {
    BitStrings();
    BinaryRulesKeys();
    var l, c, r := Neighbour(prev, i - 1), prev[i], Neighbour(prev, i + 1);
    assert IsBit(l) && IsBit(c) && IsBit(r);
    var k := 4 * l + 2 * c + r;
    assert k / 4 == l && k / 2 % 2 == c && k % 2 == r;
  }

  /** The initial table makes every new cell 0, whatever the previous row. */
  lemma InitialTableRowIsZero(row: seq<int>, prev: seq<int>)
    ensures TableUpdateRow(row, prev, InitialBinaryRules) == seq(|row|, _ => 0)
  {
  }

  /** A toggle flips the chosen key's truthiness and leaves every other key as it was. */
  lemma ToggleFlips(table: map<string, int>, rule: string)
    ensures TableTruthy(ToggledBinaryRules(table, rule), rule) == !TableTruthy(table, rule)
    ensures forall k :: k != rule ==>
      (k in ToggledBinaryRules(table, rule) <==> k in table) &&
      (k in table ==> ToggledBinaryRules(table, rule)[k] == table[k])
    ensures ToggledBinaryRules(table, rule).Keys == table.Keys + {rule}
  {
  }

  /** Toggling the same key twice restores the truthiness of every key. */
  lemma ToggleTwice(table: map<string, int>, rule: string)
    ensures forall k :: TableTruthy(ToggledBinaryRules(ToggledBinaryRules(table, rule), rule), k) == TableTruthy(table, k)
  {
    ToggleFlips(table, rule);
    ToggleFlips(ToggledBinaryRules(table, rule), rule);
  }

  /** The table is on for key BINARY_RULES[i] exactly when bit 7 - i of the Wolfram code is set. */
  ghost predicate TableRealises(table: map<string, int>, code: nat) {
    forall i :: 0 <= i < 8 ==> (TableTruthy(table, BinaryRules[i]) <==> Bit(code, 7 - i))
  }

  /**
   * A table that realises a Wolfram code computes the same row as any rule
   * predicate with that code, on rows of bits.
   */
  lemma TableRowIsRuleRow(row: seq<int>, prev: seq<int>, table: map<string, int>, rule: Rule, code: nat)
    requires TableRealises(table, code) && HasCode(rule, code)
    requires BitRow(prev) && |row| <= |prev|
    ensures TableUpdateRow(row, prev, table) == UpdateRow(row, prev, rule)
  {
    forall i | 0 <= i < |row|
      ensures TableUpdateRow(row, prev, table)[i] == UpdateRow(row, prev, rule)[i]
    {
      KeyOfBits(prev, i);
      var l, c, r := Neighbour(prev, i - 1), prev[i], Neighbour(prev, i + 1);
      var k := 4 * l + 2 * c + r;
      assert TableTruthy(table, BinaryRules[7 - k]) <==> Bit(code, k);
    }
  }

  /** Switching on 100, 011, 010 and 001 in the initial table gives rule 30. */
  function Rule30Table(): map<string, int> {
    ToggledBinaryRules(ToggledBinaryRules(ToggledBinaryRules(ToggledBinaryRules(
      InitialBinaryRules, "100"), "011"), "010"), "001")
  }

  lemma Rule30TableRealises()
    ensures TableRealises(Rule30Table(), 30)
  {
    var t := Rule30Table();
    assert t == map["111" := 0, "110" := 0, "101" := 0, "100" := 1, "011" := 1, "010" := 1, "001" := 1, "000" := 0];
    assert Bit(30, 0) == false && Bit(30, 1) && Bit(30, 2) && Bit(30, 3) && Bit(30, 4);
    assert !Bit(30, 5) && !Bit(30, 6) && !Bit(30, 7);
  }

  /** Four toggles of the editor reproduce `RULES[30]` on rows of bits. */
  lemma Rule30TableIsRule30(row: seq<int>, prev: seq<int>)
    requires BitRow(prev) && |row| <= |prev|
    ensures TableUpdateRow(row, prev, Rule30Table()) == UpdateRow(row, prev, Rule30)
  {
    Rule30TableRealises();
    RuleCodes();
    TableRowIsRuleRow(row, prev, Rule30Table(), Rule30, 30);
  }
}
