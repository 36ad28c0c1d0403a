/**
 * The rule predicates and the lookup-table key list of
 * components/articles/WolframPattern/constants.js, and their relation to
 * Wolfram's numbering of elementary cellular automata: under code N the new
 * cell for the neighbourhood (l, c, r) is bit 4l + 2c + r of N.
 *
 * Cells are integers; a JS value is truthy here when it is non-zero.  A rule
 * takes its arguments in the source's order: previous cell (centre), left
 * neighbour, right neighbour, and its result is used for its truthiness.
 */
module WolframRules {
  import opened Wrappers

  type Rule = (int, int, int) -> bool

  predicate Truthy(x: int) {
    x != 0
  }

  predicate IsBit(x: int) {
    x == 0 || x == 1
  }

  /** `RULES[1]`: the previous cell itself. */
  predicate Rule1(previousCell: int, leftNeighbor: int, rightNeighbor: int) {
    Truthy(previousCell)
  }

  /** `RULES[2]`: the left neighbour. */
  predicate Rule2(previousCell: int, leftNeighbor: int, rightNeighbor: int) {
    Truthy(leftNeighbor)
  }

  /** `RULES[30]`, with `&&`, `||` and `!` read through truthiness. */
  predicate Rule30(previousCell: int, leftNeighbor: int, rightNeighbor: int) {
    (Truthy(leftNeighbor) && !(Truthy(previousCell) || Truthy(rightNeighbor))) ||
    (!Truthy(leftNeighbor) && (Truthy(previousCell) || Truthy(rightNeighbor)))
  }

  /** `RULES[90]`: strict comparisons with 1; the centre is not read. */
  predicate Rule90(cell: int, leftNeighbor: int, rightNeighbor: int) {
    (leftNeighbor == 1 || rightNeighbor == 1) && leftNeighbor != rightNeighbor
  }

  /** `RULES[254]`. */
  predicate Rule254(cell: int, leftNeighbor: int, rightNeighbor: int) {
    leftNeighbor == 1 || rightNeighbor == 1 || cell == 1
  }

  /** `RULES[key]`: undefined for every key but 1, 2, 30, 90 and 254. */
  function Rules(key: int): (r: Option<Rule>)
    ensures r.Some? <==> key in {1, 2, 30, 90, 254}
  {
    if key == 1 then Some(Rule1)
    else if key == 2 then Some(Rule2)
    else if key == 30 then Some(Rule30)
    else if key == 90 then Some(Rule90)
    else if key == 254 then Some(Rule254)
    else None
  }

  /** Binary digit k of n, for k below 8. */
  predicate Bit(n: nat, k: nat)
    requires k < 8
  {
    if k == 0 then n % 2 == 1
    else if k == 1 then n / 2 % 2 == 1
    else if k == 2 then n / 4 % 2 == 1
    else if k == 3 then n / 8 % 2 == 1
    else if k == 4 then n / 16 % 2 == 1
    else if k == 5 then n / 32 % 2 == 1
    else if k == 6 then n / 64 % 2 == 1
    else n / 128 % 2 == 1
  }

  /** The new cell under Wolfram code `code` for the neighbourhood l, c, r of bits. */
  predicate WolframCell(code: nat, l: int, c: int, r: int)
    requires IsBit(l) && IsBit(c) && IsBit(r)
  {
    Bit(code, 4 * l + 2 * c + r)
  }

  /** On bits, `RULES[30]` is Wolfram code 30: on exactly for 100, 011, 010 and 001. */
  lemma Rule30IsCode30(c: int, l: int, r: int)
    requires IsBit(l) && IsBit(c) && IsBit(r)
    ensures Rule30(c, l, r) == WolframCell(30, l, c, r)
    ensures Rule30(c, l, r) <==> (l, c, r) in {(1, 0, 0), (0, 1, 1), (0, 1, 0), (0, 0, 1)}
    ensures Rule30(c, l, r) <==> (l == 1) != (c == 1 || r == 1)
  {
    if l == 0 && c == 0 && r == 0 {
      assert Rule30(0, 0, 0) == WolframCell(30, 0, 0, 0);
    } else if l == 0 && c == 0 && r == 1 {
      assert Rule30(0, 0, 1) == WolframCell(30, 0, 0, 1);
    } else if l == 0 && c == 1 && r == 0 {
      assert Rule30(1, 0, 0) == WolframCell(30, 0, 1, 0);
    } else if l == 0 && c == 1 && r == 1 {
      assert Rule30(1, 0, 1) == WolframCell(30, 0, 1, 1);
    } else if l == 1 && c == 0 && r == 0 {
      assert Rule30(0, 1, 0) == WolframCell(30, 1, 0, 0);
    } else if l == 1 && c == 0 && r == 1 {
      assert Rule30(0, 1, 1) == WolframCell(30, 1, 0, 1);
    } else if l == 1 && c == 1 && r == 0 {
      assert Rule30(1, 1, 0) == WolframCell(30, 1, 1, 0);
    } else if l == 1 && c == 1 && r == 1 {
      assert Rule30(1, 1, 1) == WolframCell(30, 1, 1, 1);
    }
  }

  /** On bits, `RULES[90]` is Wolfram code 90, l XOR r. */
  lemma Rule90IsCode90(c: int, l: int, r: int)
    requires IsBit(l) && IsBit(c) && IsBit(r)
    ensures Rule90(c, l, r) == WolframCell(90, l, c, r)
    ensures Rule90(c, l, r) <==> (l == 1) != (r == 1)
  {
    if l == 0 && c == 0 && r == 0 {
      assert Rule90(0, 0, 0) == WolframCell(90, 0, 0, 0);
    } else if l == 0 && c == 0 && r == 1 {
      assert Rule90(0, 0, 1) == WolframCell(90, 0, 0, 1);
    } else if l == 0 && c == 1 && r == 0 {
      assert Rule90(1, 0, 0) == WolframCell(90, 0, 1, 0);
    } else if l == 0 && c == 1 && r == 1 {
      assert Rule90(1, 0, 1) == WolframCell(90, 0, 1, 1);
    } else if l == 1 && c == 0 && r == 0 {
      assert Rule90(0, 1, 0) == WolframCell(90, 1, 0, 0);
    } else if l == 1 && c == 0 && r == 1 {
      assert Rule90(0, 1, 1) == WolframCell(90, 1, 0, 1);
    } else if l == 1 && c == 1 && r == 0 {
      assert Rule90(1, 1, 0) == WolframCell(90, 1, 1, 0);
    } else if l == 1 && c == 1 && r == 1 {
      assert Rule90(1, 1, 1) == WolframCell(90, 1, 1, 1);
    }
  }

  /** `RULES[90]` ignores the centre for every input. */
  lemma Rule90IgnoresCentre(c: int, c': int, l: int, r: int)
    ensures Rule90(c, l, r) == Rule90(c', l, r)
  {
  }

  /** On bits, `RULES[254]` is Wolfram code 254: on unless all three cells are 0. */
  lemma Rule254IsCode254(c: int, l: int, r: int)
    requires IsBit(l) && IsBit(c) && IsBit(r)
    ensures Rule254(c, l, r) == WolframCell(254, l, c, r)
    ensures Rule254(c, l, r) <==> !(l == 0 && c == 0 && r == 0)
  {
    if l == 0 && c == 0 && r == 0 {
      assert Rule254(0, 0, 0) == WolframCell(254, 0, 0, 0);
    } else if l == 0 && c == 0 && r == 1 {
      assert Rule254(0, 0, 1) == WolframCell(254, 0, 0, 1);
    } else if l == 0 && c == 1 && r == 0 {
      assert Rule254(1, 0, 0) == WolframCell(254, 0, 1, 0);
    } else if l == 0 && c == 1 && r == 1 {
      assert Rule254(1, 0, 1) == WolframCell(254, 0, 1, 1);
    } else if l == 1 && c == 0 && r == 0 {
      assert Rule254(0, 1, 0) == WolframCell(254, 1, 0, 0);
    } else if l == 1 && c == 0 && r == 1 {
      assert Rule254(0, 1, 1) == WolframCell(254, 1, 0, 1);
    } else if l == 1 && c == 1 && r == 0 {
      assert Rule254(1, 1, 0) == WolframCell(254, 1, 1, 0);
    } else if l == 1 && c == 1 && r == 1 {
      assert Rule254(1, 1, 1) == WolframCell(254, 1, 1, 1);
    }
  }

  /** Copying the centre (`RULES[1]`) is Wolfram code 204. */
  lemma Rule1IsCode204(c: int, l: int, r: int)
    requires IsBit(l) && IsBit(c) && IsBit(r)
    ensures Rule1(c, l, r) == WolframCell(204, l, c, r)
  {
    if l == 0 && c == 0 && r == 0 {
      assert Rule1(0, 0, 0) == WolframCell(204, 0, 0, 0);
    } else if l == 0 && c == 0 && r == 1 {
      assert Rule1(0, 0, 1) == WolframCell(204, 0, 0, 1);
    } else if l == 0 && c == 1 && r == 0 {
      assert Rule1(1, 0, 0) == WolframCell(204, 0, 1, 0);
    } else if l == 0 && c == 1 && r == 1 {
      assert Rule1(1, 0, 1) == WolframCell(204, 0, 1, 1);
    } else if l == 1 && c == 0 && r == 0 {
      assert Rule1(0, 1, 0) == WolframCell(204, 1, 0, 0);
    } else if l == 1 && c == 0 && r == 1 {
      assert Rule1(0, 1, 1) == WolframCell(204, 1, 0, 1);
    } else if l == 1 && c == 1 && r == 0 {
      assert Rule1(1, 1, 0) == WolframCell(204, 1, 1, 0);
    } else if l == 1 && c == 1 && r == 1 {
      assert Rule1(1, 1, 1) == WolframCell(204, 1, 1, 1);
    }
  }

  /** Copying the left neighbour (`RULES[2]`) is Wolfram code 240. */
  lemma Rule2IsCode240(c: int, l: int, r: int)
    requires IsBit(l) && IsBit(c) && IsBit(r)
    ensures Rule2(c, l, r) == WolframCell(240, l, c, r)
  {
    if l == 0 && c == 0 && r == 0 {
      assert Rule2(0, 0, 0) == WolframCell(240, 0, 0, 0);
    } else if l == 0 && c == 0 && r == 1 {
      assert Rule2(0, 0, 1) == WolframCell(240, 0, 0, 1);
    } else if l == 0 && c == 1 && r == 0 {
      assert Rule2(1, 0, 0) == WolframCell(240, 0, 1, 0);
    } else if l == 0 && c == 1 && r == 1 {
      assert Rule2(1, 0, 1) == WolframCell(240, 0, 1, 1);
    } else if l == 1 && c == 0 && r == 0 {
      assert Rule2(0, 1, 0) == WolframCell(240, 1, 0, 0);
    } else if l == 1 && c == 0 && r == 1 {
      assert Rule2(0, 1, 1) == WolframCell(240, 1, 0, 1);
    } else if l == 1 && c == 1 && r == 0 {
      assert Rule2(1, 1, 0) == WolframCell(240, 1, 1, 0);
    } else if l == 1 && c == 1 && r == 1 {
      assert Rule2(1, 1, 1) == WolframCell(240, 1, 1, 1);
    }
  }

  /**
   * Keys 1 and 2 are labels, not Wolfram codes: code 1 is on for 000 where
   * `RULES[1]` is off, and code 2 is on for 001 where `RULES[2]` is off.
   */
  lemma Rules1And2AreLabels()
    ensures WolframCell(1, 0, 0, 0) && !Rule1(0, 0, 0)
    ensures WolframCell(2, 0, 0, 1) && !Rule2(0, 0, 1)
  {
    assert Bit(1, 0) && Bit(2, 1);
    assert WolframCell(1, 0, 0, 0) == Bit(1, 0);
    assert WolframCell(2, 0, 0, 1) == Bit(2, 1);
  }

  // ---------------------------------------------------------------- BINARY_RULES

  /** `BINARY_RULES`: the neighbourhood keys of the lookup-table editor, in display order. */
  const BinaryRules: seq<string> := ["111", "110", "101", "100", "011", "010", "001", "000"]

  function BitChar(b: int): char
    requires IsBit(b)
  {
    if b == 1 then '1' else '0'
  }

  /** The 3-bit binary form of n, most significant digit first. */
  function Bits3(n: nat): string
    requires n < 8
  {
    [BitChar(n / 4), BitChar(n / 2 % 2), BitChar(n % 2)]
  }

  /** Eight distinct keys; entry i is the 3-bit form of 7 - i, from "111" down to "000". */
  lemma BinaryRulesKeys()
    ensures |BinaryRules| == 8
    ensures forall i :: 0 <= i < 8 ==> BinaryRules[i] == Bits3(7 - i)
    ensures forall i, j :: 0 <= i < j < 8 ==> BinaryRules[i] != BinaryRules[j]
    ensures forall i :: 0 <= i < 8 ==> |BinaryRules[i]| == 3
  {
    forall i | 0 <= i < 8 ensures BinaryRules[i] == Bits3(7 - i) {
      if i == 0 { assert Bits3(7) == "111"; }
      else if i == 1 { assert Bits3(6) == "110"; }
      else if i == 2 { assert Bits3(5) == "101"; }
      else if i == 3 { assert Bits3(4) == "100"; }
      else if i == 4 { assert Bits3(3) == "011"; }
      else if i == 5 { assert Bits3(2) == "010"; }
      else if i == 6 { assert Bits3(1) == "001"; }
      else { assert Bits3(0) == "000"; }
    }
  }
}
