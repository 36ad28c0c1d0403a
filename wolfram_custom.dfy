/**
 * The custom-rule automaton of components/articles/WolframPattern/Custom.js.
 * Its `updateRow` is the predicate-driven update of Base.js, except that the
 * rule may throw, which aborts the whole `row.map`.  The rule is built from
 * a list of tokens edited through the buttons.
 *
 * `customRuleEval` ignores its three arguments and evaluates the joined
 * tokens with a foreign sandboxed evaluator; the model takes that
 * evaluation's outcome as a parameter: None when it throws, otherwise the
 * truthiness of its value.
 */
module WolframCustom {
  import opened Wrappers
  import opened WolframRules
  import opened WolframBase

  /** A rule that may throw (None). */
  type FallibleRule = (int, int, int) -> Option<bool>

  /** A rule predicate as a rule that never throws. */
  function Lift(rule: Rule): FallibleRule {
    (c: int, l: int, r: int) => Some(rule(c, l, r))
  }

  /** `customRuleEval`: the same outcome for every neighbourhood. */
  function CustomRuleEval(outcome: Option<bool>): FallibleRule {
    (c: int, l: int, r: int) => outcome
  }

  /** The rule's outcome at cell i. */
  function OutcomeAt(prev: seq<int>, i: int, rule: FallibleRule): Option<bool> {
    rule(PreviousCell(prev, i), Neighbour(prev, i - 1), Neighbour(prev, i + 1))
  }

  /** `row.map` from cell `from` on; the first throwing cell aborts it. */
  function MapFrom(row: seq<int>, prev: seq<int>, rule: FallibleRule, from: nat): Option<seq<int>>
    requires from <= |row|
    decreases |row| - from
  {
    if from == |row| then Some([])
    else match OutcomeAt(prev, from, rule)
      case None => None
      case Some(b) =>
        match MapFrom(row, prev, rule, from + 1)
        case None => None
        case Some(rest) => Some([if b then 1 else 0] + rest)
  }

  /** Custom.js `updateRow(row, previousRow, rule)`. */
  function CustomUpdateRow(row: seq<int>, prev: seq<int>, rule: FallibleRule): Option<seq<int>> {
    MapFrom(row, prev, rule, 0)
  }

  /**
   * The map succeeds exactly when no cell's rule throws, and then cell i is
   * the outcome's truthiness.
   */
  lemma {:induction false} MapFromSpec(row: seq<int>, prev: seq<int>, rule: FallibleRule, from: nat)
    requires from <= |row|
    ensures MapFrom(row, prev, rule, from).Some? <==>
      forall i :: from <= i < |row| ==> OutcomeAt(prev, i, rule).Some?
    ensures MapFrom(row, prev, rule, from).Some? ==>
      |MapFrom(row, prev, rule, from).value| == |row| - from &&
      forall i :: from <= i < |row| ==>
        MapFrom(row, prev, rule, from).value[i - from] == if OutcomeAt(prev, i, rule).value then 1 else 0
    decreases |row| - from
  {
    if from < |row| {
      MapFromSpec(row, prev, rule, from + 1);
    }
  }

  /** A rule that never throws gives exactly Base.js's `updateRow`. */
  lemma CustomAgreesWithBase(row: seq<int>, prev: seq<int>, rule: Rule)
    ensures CustomUpdateRow(row, prev, Lift(rule)) == Some(UpdateRow(row, prev, rule))
  {
    MapFromSpec(row, prev, Lift(rule), 0);
    var r := CustomUpdateRow(row, prev, Lift(rule));
    forall i | 0 <= i < |row|
      ensures r.value[i] == UpdateRow(row, prev, rule)[i]
    {
      assert OutcomeAt(prev, i, Lift(rule)).value == rule(PreviousCell(prev, i), Neighbour(prev, i - 1), Neighbour(prev, i + 1));
    }
    assert r.value == UpdateRow(row, prev, rule);
  }

  /**
   * `customRuleEval` fills a row uniformly: all 1 when the evaluation is
   * truthy, all 0 when falsy, and a throw as soon as the row has a cell.
   */
  lemma CustomRuleEvalRows(row: seq<int>, prev: seq<int>, outcome: Option<bool>)
    ensures outcome.Some? ==>
      CustomUpdateRow(row, prev, CustomRuleEval(outcome)) == Some(seq(|row|, _ => if outcome.value then 1 else 0))
    ensures outcome.None? ==>
      (CustomUpdateRow(row, prev, CustomRuleEval(outcome)).None? <==> |row| > 0)
  {
    MapFromSpec(row, prev, CustomRuleEval(outcome), 0);
    if outcome.None? && |row| > 0 {
      assert OutcomeAt(prev, 0, CustomRuleEval(outcome)).None?;
    }
    if outcome.Some? {
      var r := CustomUpdateRow(row, prev, CustomRuleEval(outcome));
      forall i | 0 <= i < |row|
        ensures r.value[i] == if outcome.value then 1 else 0
      {
        assert OutcomeAt(prev, i, CustomRuleEval(outcome)) == outcome;
      }
      assert r.value == seq(|row|, _ => if outcome.value then 1 else 0);
    }
  }

  // ---------------------------------------------------------------- the token list

  /** `customRule.join(" ")`. */
  function Join(tokens: seq<string>): string {
    if |tokens| == 0 then ""
    else if |tokens| == 1 then tokens[0]
    else Join(tokens[..|tokens| - 1]) + " " + tokens[|tokens| - 1]
  }

  /** `[...customRule, character]`. */
  function WithToken(tokens: seq<string>, character: string): seq<string> {
    tokens + [character]
  }

  /** A copy of the list after `pop()`: the last token gone, an empty list left empty. */
  function WithoutLastToken(tokens: seq<string>): seq<string> {
    if |tokens| == 0 then [] else tokens[..|tokens| - 1]
  }

  /** The `customRule` state of the Custom component. */
  class Custom {
    var customRule: seq<string>

    constructor()
      ensures customRule == []
    {
      customRule := [];
    }

    /** `addToRule(character)`. */
    method AddToRule(character: string)
      modifies this
      ensures customRule == WithToken(old(customRule), character)
    {
      var newRule := customRule + [character];
      customRule := newRule;
    }

    /** `deleteFromRule()`: copy, pop the copy, store it. */
    method DeleteFromRule()
      modifies this
      ensures customRule == WithoutLastToken(old(customRule))
    {
      var newRule := customRule;
      if |newRule| > 0 {
        newRule := newRule[..|newRule| - 1];
      }
      customRule := newRule;
    }

    /** `clearCustomRule()`. */
    method ClearCustomRule()
      modifies this
      ensures customRule == []
    {
      customRule := [];
    }

    /** The text after "Rule: " under the grid. */
    function DisplayedRule(): string
      reads this
    {
      Join(customRule)
    }

    /**
     * The rule handed to the grid, given what the sandboxed evaluator makes
     * of a source text.
     */
    function Rule(evaluate: string -> Option<bool>): FallibleRule
      reads this
    {
      CustomRuleEval(evaluate(Join(customRule)))
    }
  }

  /** Adding appends exactly one token at the end. */
  lemma WithTokenAppends(tokens: seq<string>, character: string)
    ensures |WithToken(tokens, character)| == |tokens| + 1
    ensures WithToken(tokens, character)[..|tokens|] == tokens
    ensures WithToken(tokens, character)[|tokens|] == character
  {
  }

  /** Deleting removes only the last token, and nothing from an empty list. */
  lemma WithoutLastTokenDrops(tokens: seq<string>)
    ensures |tokens| == 0 ==> WithoutLastToken(tokens) == []
    ensures |tokens| > 0 ==> WithoutLastToken(tokens) + [tokens[|tokens| - 1]] == tokens
  {
  }

  /** Delete undoes add. */
  lemma DeleteUndoesAdd(tokens: seq<string>, character: string)
    ensures WithoutLastToken(WithToken(tokens, character)) == tokens
  {
    assert (tokens + [character])[..|tokens|] == tokens;
  }

  /** The displayed rule grows by a space and the new token (no leading space for the first). */
  lemma JoinWithToken(tokens: seq<string>, character: string)
    ensures Join(WithToken(tokens, character)) ==
      if |tokens| == 0 then character else Join(tokens) + " " + character
  {
    var t := WithToken(tokens, character);
    assert t[..|t| - 1] == tokens;
  }

  /** The spaces inside the tokens themselves, such as the one in "=== 1". */
  function SpacesIn(tokens: seq<string>): nat {
    if |tokens| == 0 then 0
    else SpacesIn(tokens[..|tokens| - 1]) + multiset(tokens[|tokens| - 1])[' ']
  }

  /**
   * Joining puts exactly |tokens| - 1 separating spaces in the text, on top
   * of the spaces the tokens carry.
   */
  lemma {:induction false} JoinSpaces(tokens: seq<string>)
    ensures |tokens| > 0 ==> multiset(Join(tokens))[' '] == |tokens| - 1 + SpacesIn(tokens)
    ensures |tokens| == 0 ==> Join(tokens) == ""
  {
    if |tokens| > 1 {
      var init := tokens[..|tokens| - 1];
      JoinSpaces(init);
      assert Join(tokens) == Join(init) + " " + tokens[|tokens| - 1];
    } else if |tokens| == 1 {
      assert tokens[..0] == [];
    }
  }

  /** So tokens without spaces of their own are told apart by exactly |tokens| - 1 spaces. */
  lemma {:induction false} SpacelessSpacesIn(tokens: seq<string>)
    requires forall k :: 0 <= k < |tokens| ==> ' ' !in tokens[k]
    ensures SpacesIn(tokens) == 0
  {
    if |tokens| > 0 {
      SpacelessSpacesIn(tokens[..|tokens| - 1]);
      assert multiset(tokens[|tokens| - 1])[' '] == 0;
    }
  }
}
