/** Random draws as data.  A call `nextInt(bound)` is modelled by an arbitrary
    natural number reduced modulo the bound, so every statement about an
    operation holds for every outcome of the generator. */
module Draws {
  /** The index `nextInt(bound)` yields for the draw `d`. */
  function Pick(d: nat, bound: int): (k: int)
    requires bound > 0
    ensures 0 <= k < bound
  {
    d % bound
  }

  /** The redraws eventually yield an index other than `avoid`. */
  predicate Supplies(redraws: seq<nat>, bound: int, avoid: int)
    requires bound > 0
  {
    exists j :: 0 <= j < |redraws| && Pick(redraws[j], bound) != avoid
  }

  /** The do-while loop `do { k = nextInt(bound); } while (k == avoid)`: the
      first redraw that differs from `avoid`. */
  function Redraw(redraws: seq<nat>, bound: int, avoid: int): (k: int)
    requires bound > 0 && Supplies(redraws, bound, avoid)
    ensures 0 <= k < bound && k != avoid
    ensures exists j :: 0 <= j < |redraws| && k == Pick(redraws[j], bound)
                        && forall i :: 0 <= i < j ==> Pick(redraws[i], bound) == avoid
    decreases |redraws|
  {
    if Pick(redraws[0], bound) != avoid then Pick(redraws[0], bound)
    else
      assert Supplies(redraws[1..], bound, avoid) by {
        var j :| 0 <= j < |redraws| && Pick(redraws[j], bound) != avoid;
        assert redraws[1..][j - 1] == redraws[j];
      }
      var k := Redraw(redraws[1..], bound, avoid);
      assert exists j :: 0 <= j < |redraws| && k == Pick(redraws[j], bound)
                         && forall i :: 0 <= i < j ==> Pick(redraws[i], bound) == avoid by {
        var j :| 0 <= j < |redraws[1..]| && k == Pick(redraws[1..][j], bound)
                 && forall i :: 0 <= i < j ==> Pick(redraws[1..][i], bound) == avoid;
        assert k == Pick(redraws[j + 1], bound);
        forall i | 0 <= i < j + 1 ensures Pick(redraws[i], bound) == avoid {
          if i > 0 {
            assert redraws[i] == redraws[1..][i - 1];
          }
        }
      }
      k
  }

  /** Any redraw that already differs settles the loop on its first try. */
  lemma RedrawFirstTry(redraws: seq<nat>, bound: int, avoid: int)
    requires bound > 0 && |redraws| > 0 && Pick(redraws[0], bound) != avoid
    ensures Supplies(redraws, bound, avoid) && Redraw(redraws, bound, avoid) == Pick(redraws[0], bound)
  {
  }

  /** With two or more indices, cycling through all of them supplies a
      distinct one, so the loop always has a way out. */
  lemma CyclingSupplies(bound: int, avoid: int)
    requires bound >= 2 && 0 <= avoid < bound
    ensures Supplies(seq(bound, i => i), bound, avoid)
  {
    var s := seq(bound, i => i);
    var j := if avoid == 0 then 1 else 0;
    assert Pick(s[j], bound) == j;
  }
}
