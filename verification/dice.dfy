/** The `Dice` class: a fixed number of dice, their current values, and a
    record of which dice are kept. A roll draws a fresh face for every die
    that the mask passed to it does not keep. */
module DiceRoll {
  import opened JsArrays

  datatype Dice = Dice(numDice: nat, values: seq<int>, keptDice: seq<bool>)

  /** `values` has one entry per die, as the constructor creates it and every
      roll keeps it. */
  predicate WellFormed(d: Dice) {
    |d.values| == d.numDice
  }

  /** `new Dice(numDice)`: every value 0 and no die kept. */
  function NewDice(numDice: nat): (d: Dice)
    ensures WellFormed(d) && d.numDice == numDice
    ensures forall i :: 0 <= i < numDice ==> d.values[i] == 0
    ensures |d.keptDice| == numDice && forall i :: 0 <= i < numDice ==> !Truthy(d.keptDice, i)
  {
    Dice(numDice, seq(numDice, _ => 0), seq(numDice, _ => false))
  }

  /** `Math.floor(random * 6) + 1` for a draw `random` of `Math.random()`. */
  function Face(random: real): (face: int)
    requires 0.0 <= random < 1.0
    ensures 1 <= face <= 6
  {
    (random * 6.0).Floor + 1
  }

  /** Every face comes up for some draw. */
  lemma EveryFaceCanBeDrawn(face: int)
    requires 1 <= face <= 6
    ensures exists random :: 0.0 <= random < 1.0 && Face(random) == face
  {
    var random := (face - 1) as real / 6.0;
    assert random * 6.0 == (face - 1) as real;
    assert Face(random) == face;
  }

  /** The draws of `Math.random()` a roll may use, one per die. */
  predicate Draws(d: Dice, random: seq<real>) {
    |random| == d.numDice && forall i :: 0 <= i < |random| ==> 0.0 <= random[i] < 1.0
  }

  /** What a roll of `before` with mask `keep` may produce: kept dice unchanged,
      every other die on a face from 1 to 6, nothing else touched. */
  ghost predicate RollsTo(before: Dice, keep: seq<bool>, after: Dice) {
    && WellFormed(before)
    && after.numDice == before.numDice
    && after.keptDice == before.keptDice
    && |after.values| == before.numDice
    && forall i :: 0 <= i < before.numDice ==>
         if Truthy(keep, i) then after.values[i] == before.values[i]
         else 1 <= after.values[i] <= 6
  }

  /** `roll(keepDice)`: die `i` is redrawn unless `keepDice[i]` is truthy. */
  function Roll(d: Dice, keep: seq<bool>, random: seq<real>): (r: Dice)
    requires WellFormed(d) && Draws(d, random)
    ensures WellFormed(r)
    ensures RollsTo(d, keep, r)
    ensures forall i :: 0 <= i < d.numDice && !Truthy(keep, i) ==> r.values[i] == Face(random[i])
  {
    d.(values := seq(d.numDice, i requires 0 <= i < d.numDice =>
      if Truthy(keep, i) then d.values[i] else Face(random[i])))
  }

  /** Every outcome a roll may have is produced by some draws. */
  lemma RollReachesEveryOutcome(d: Dice, keep: seq<bool>, after: Dice)
    requires WellFormed(d)
    requires RollsTo(d, keep, after)
    ensures exists random :: Draws(d, random) && Roll(d, keep, random) == after
  {
    var random := seq(d.numDice, i requires 0 <= i < d.numDice =>
      if Truthy(keep, i) then 0.0 else (after.values[i] - 1) as real / 6.0);
    forall i | 0 <= i < d.numDice && !Truthy(keep, i)
      ensures Face(random[i]) == after.values[i]
    {
      assert random[i] * 6.0 == (after.values[i] - 1) as real;
    }
    assert Roll(d, keep, random).values == after.values;
  }

  /** `roll()` with the default empty mask redraws every die. */
  lemma RollWithoutMaskRedrawsAll(d: Dice, random: seq<real>)
    requires WellFormed(d) && Draws(d, random)
    ensures forall i :: 0 <= i < d.numDice ==> Roll(d, [], random).values[i] == Face(random[i])
  {
  }

  /** `getCurrentValues()`: the values array itself. */
  function GetCurrentValues(d: Dice): (r: seq<int>)
    ensures WellFormed(d) ==> |r| == d.numDice
  {
    d.values
  }

  /** What `roll` returns and what `getCurrentValues` reads afterwards are the
      same array: one value per die, kept dice as they were. */
  lemma RollReturnsCurrentValues(d: Dice, keep: seq<bool>, random: seq<real>)
    requires WellFormed(d) && Draws(d, random)
    ensures |GetCurrentValues(Roll(d, keep, random))| == d.numDice
    ensures forall i :: 0 <= i < d.numDice && Truthy(keep, i) ==>
      GetCurrentValues(Roll(d, keep, random))[i] == GetCurrentValues(d)[i]
  {
  }

  /** `keepDice(indexes)`: marks each listed die as kept, in list order. */
  function KeepDice(d: Dice, indexes: seq<int>): (r: Dice)
    ensures r.numDice == d.numDice && r.values == d.values
    ensures forall j :: Truthy(r.keptDice, j) <==> Truthy(d.keptDice, j) || (0 <= j && j in indexes)
    decreases |indexes|
  {
    if |indexes| == 0 then d
    else
      var prefix := indexes[..|indexes| - 1];
      assert indexes == prefix + [indexes[|indexes| - 1]];
      var e := KeepDice(d, prefix);
      e.(keptDice := Store(e.keptDice, indexes[|indexes| - 1], true))
  }
}
