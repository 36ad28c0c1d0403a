/**
 * The visible behaviour of the animated traversals: each visit waits for
 * one pause (`await new Promise(... setTimeout ...)`) and then calls
 * `setVisited(val, true)`.  The wall-clock length of a pause is not modelled.
 */
module Animation {

  datatype Event = Pause | SetVisited(val: int, visited: bool)

  /** A pause followed by `setVisited(v, true)` for each value, in order. */
  function Visits(vals: seq<int>): seq<Event> {
    if vals == [] then [] else [Pause, SetVisited(vals[0], true)] + Visits(vals[1..])
  }

  /** Pauses sit at the even positions, calls at the odd ones, and every call passes `true`. */
  lemma {:induction false} VisitsAt(vals: seq<int>)
    ensures |Visits(vals)| == 2 * |vals|
    ensures forall i :: 0 <= i < |vals| ==>
      Visits(vals)[2 * i] == Pause && Visits(vals)[2 * i + 1] == SetVisited(vals[i], true)
  {
    if vals != [] {
      VisitsAt(vals[1..]);
      var w := Visits(vals);
      forall i | 0 <= i < |vals|
        ensures w[2 * i] == Pause && w[2 * i + 1] == SetVisited(vals[i], true)
      {
        if i > 0 {
          assert w[2 * i] == Visits(vals[1..])[2 * (i - 1)];
          assert w[2 * i + 1] == Visits(vals[1..])[2 * (i - 1) + 1];
        }
      }
    }
  }

  lemma {:induction false} VisitsAppend(a: seq<int>, b: seq<int>)
    ensures Visits(a + b) == Visits(a) + Visits(b)
  {
    if a == [] {
      assert a + b == b;
    } else {
      assert (a + b)[1..] == a[1..] + b;
      VisitsAppend(a[1..], b);
    }
  }

  /** The trace determines the visited values: Visits is injective. */
  lemma {:induction false} VisitsInjective(a: seq<int>, b: seq<int>)
    requires Visits(a) == Visits(b)
    ensures a == b
  {
    if a != [] && b != [] {
      assert Visits(a)[1] == SetVisited(a[0], true);
      assert Visits(b)[1] == SetVisited(b[0], true);
      assert Visits(a)[2..] == Visits(a[1..]);
      assert Visits(b)[2..] == Visits(b[1..]);
      VisitsInjective(a[1..], b[1..]);
      assert a == [a[0]] + a[1..];
      assert b == [b[0]] + b[1..];
    }
  }
}
