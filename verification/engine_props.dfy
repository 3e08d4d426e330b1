/** What the scoring rules guarantee: straights found by the scan are exactly
    the runs of consecutive values, the upper section splits the total, and
    the relations between the of-a-kind and straight categories. */
module EngineProperties {
  import opened JsArrays
  import opened JsSort
  import opened YatzyEngine

  /** From index `i`, with a run of `count` consecutive values ending just
      before it, the scan succeeds exactly when some window of `length`
      consecutive values starts no earlier than that run. */
  lemma {:induction false} ScanFindsRun(u: seq<int>, length: int, i: nat, count: int)
    requires 2 <= length && 1 <= i <= |u| && 1 <= count < length && count <= i
    requires RunAt(u, i - count, count)
    ensures ScanRun(u, length, i, count) <==> exists a :: i - count <= a && RunAt(u, a, length)
    decreases |u| - i
  {
    if i == |u| {
      forall a | i - count <= a
        ensures !RunAt(u, a, length)
      {
      }
    } else if u[i] == u[i - 1] + 1 {
      assert RunAt(u, i - count, count + 1);
      if count + 1 < length {
        ScanFindsRun(u, length, i + 1, count + 1);
      }
    } else {
      assert RunAt(u, i, 1);
      ScanFindsRun(u, length, i + 1, 1);
      forall a | i - count <= a < i
        ensures !RunAt(u, a, length)
      {
        // such a window would contain both i - 1 and i
      }
    }
  }

  lemma {:induction false} RunValues(u: seq<int>, a: int, length: int, k: int)
    requires RunAt(u, a, length) && a <= k < a + length
    ensures u[k] == u[a] + (k - a)
    decreases k - a
  {
    if k > a {
      RunValues(u, a, length, k - 1);
    }
  }

  /** In a strictly increasing sequence holding all of `x .. x + length`,
      those values sit side by side from the position of `x`. */
  lemma {:induction false} Climb(u: seq<int>, x: int, length: int, a: int, j: int)
    requires StrictlyIncreasing(u) && RunFrom(u, x, length)
    requires 0 <= a < |u| && u[a] == x && 0 <= j < length
    ensures a + j < |u| && u[a + j] == x + j
    decreases j
  {
    if j > 0 {
      Climb(u, x, length, a, j - 1);
      assert x + j in u;
      var m :| 0 <= m < |u| && u[m] == x + j;
      assert a + j <= m;
      assert u[a + j - 1] < u[a + j];
    }
  }

  lemma SortedRunIffValues(u: seq<int>, length: int)
    requires StrictlyIncreasing(u) && length >= 1
    ensures (exists a :: RunAt(u, a, length)) <==> exists x :: RunFrom(u, x, length)
  {
    if exists a :: RunAt(u, a, length) {
      var a :| RunAt(u, a, length);
      forall v | u[a] <= v < u[a] + length
        ensures v in u
      {
        RunValues(u, a, length, a + (v - u[a]));
      }
      assert RunFrom(u, u[a], length);
    }
    if exists x :: RunFrom(u, x, length) {
      var x :| RunFrom(u, x, length);
      assert x in u;
      var a :| 0 <= a < |u| && u[a] == x;
      Climb(u, x, length, a, length - 1);
      forall k | a < k < a + length
        ensures u[k] == u[k - 1] + 1
      {
        Climb(u, x, length, a, k - a);
        Climb(u, x, length, a, k - 1 - a);
      }
      assert RunAt(u, a, length);
    }
  }

  /** On single-digit dice, `checkStraight(dice, length)` holds exactly when
      `length` is at least 2 and the dice show `length` consecutive values. */
  lemma CheckStraightIffRun(dice: seq<int>, length: int)
    requires AllDigits(dice)
    ensures CheckStraight(dice, length) <==> length >= 2 && HasStraight(dice, length)
  {
    var u := DefaultSort(Unique(dice));
    assert StrictlyIncreasing(u);
    assert forall x :: RunFrom(u, x, length) <==> RunFrom(dice, x, length);
    if length >= 2 {
      if |u| == 0 {
        forall x
          ensures !RunFrom(dice, x, length)
        {
          assert x !in dice;
        }
      } else {
        assert RunAt(u, 0, 1);
        ScanFindsRun(u, length, 1, 1);
        SortedRunIffValues(u, length);
      }
    }
  }

  /** A scan that completes a run of 5 passes a run of 4 on its way. */
  lemma {:induction false} ScanFiveFindsFour(u: seq<int>, i: nat, count: int)
    requires 1 <= i && 1 <= count < 4
    requires ScanRun(u, 5, i, count)
    ensures ScanRun(u, 4, i, count)
    decreases |u| - i
  {
    if u[i] == u[i - 1] + 1 {
      if count + 1 < 4 {
        ScanFiveFindsFour(u, i + 1, count + 1);
      }
    } else {
      ScanFiveFindsFour(u, i + 1, 1);
    }
  }

  /** A large straight also passes the small-straight test, whatever the dice. */
  lemma LargeStraightIsSmallStraight(dice: seq<int>)
    requires CheckStraight(dice, 5)
    ensures CheckStraight(dice, 4)
  {
    ScanFiveFindsFour(DefaultSort(Unique(dice)), 1, 1);
  }

  /** On single-digit dice, Small Straight scores 30 exactly when four
      consecutive values show and Large Straight scores 40 exactly when five do. */
  lemma StraightScores(dice: seq<int>)
    requires AllDigits(dice)
    ensures Score(SmallStraight, dice) == (if HasStraight(dice, 4) then 30 else 0)
    ensures Score(LargeStraight, dice) == (if HasStraight(dice, 5) then 40 else 0)
  {
    CheckStraightIffRun(dice, 4);
    CheckStraightIffRun(dice, 5);
  }

  /** Only which values show matters to a straight, not how many dice show them. */
  lemma StraightIgnoresDuplicates(d1: seq<int>, d2: seq<int>, length: int)
    requires AllDigits(d1) && AllDigits(d2)
    requires forall v :: v in d1 <==> v in d2
    ensures CheckStraight(d1, length) == CheckStraight(d2, length)
  {
    CheckStraightIffRun(d1, length);
    CheckStraightIffRun(d2, length);
    assert forall x :: RunFrom(d1, x, length) <==> RunFrom(d2, x, length);
  }

  lemma {:induction false} CountAtMostLength(dice: seq<int>, v: int)
    ensures multiset(dice)[v] <= |dice|
  {
    if |dice| > 0 {
      var prefix := dice[..|dice| - 1];
      assert dice == prefix + [dice[|dice| - 1]];
      CountAtMostLength(prefix, v);
    }
  }

  /** A value on at least as many dice as there are dice is on every die. */
  lemma {:induction false} CountFull(dice: seq<int>, v: int)
    requires multiset(dice)[v] >= |dice|
    ensures forall x :: x in dice ==> x == v
  {
    if |dice| > 0 {
      var prefix := dice[..|dice| - 1];
      assert dice == prefix + [dice[|dice| - 1]];
      CountAtMostLength(prefix, v);
      CountFull(prefix, v);
    }
  }

  /** Five dice are five of a kind exactly when they all show the same value. */
  lemma FiveOfAKindIsAllEqual(dice: seq<int>)
    requires |dice| == 5
    ensures HasOfAKind(dice, 5) <==> forall i :: 0 <= i < 5 ==> dice[i] == dice[0]
  {
    if HasOfAKind(dice, 5) {
      var v :| v in dice && multiset(dice)[v] >= 5;
      CountFull(dice, v);
      assert forall i :: 0 <= i < 5 ==> dice[i] in dice;
    }
    if forall i :: 0 <= i < 5 ==> dice[i] == dice[0] {
      assert dice == [dice[0], dice[0], dice[0], dice[0], dice[0]];
      assert multiset(dice)[dice[0]] == 5;
    }
  }

  /** With faces on the dice, Yatzy scores 50 when some face shows on five
      dice and 0 otherwise. */
  lemma YatzyScore(dice: seq<int>)
    requires Faces(dice)
    ensures Score(Yatzy, dice) == 50 <==> HasOfAKind(dice, 5)
    ensures Score(Yatzy, dice) == 0 <==> !HasOfAKind(dice, 5)
  {
    if HasOfAKind(dice, 5) {
      var v :| v in dice && multiset(dice)[v] >= 5;
      SumLowerBound(dice);
    }
  }

  /** Five dice showing one value are never a full house. */
  lemma FiveOfAKindIsNoFullHouse(dice: seq<int>)
    requires |dice| == 5
    requires forall i :: 0 <= i < 5 ==> dice[i] == dice[0]
    ensures Score(FullHouse, dice) == 0
  {
    FiveOfAKindIsAllEqual(dice);
    assert multiset(dice)[dice[0]] == 5;
    assert forall v :: v in dice ==> v == dice[0];
  }

  /** A roll that makes `m` of a kind also makes any smaller number of a kind,
      with the same score. */
  lemma OfAKindMonotone(dice: seq<int>, n: int, m: int)
    requires n <= m
    requires CheckOfAKind(dice, m) != 0
    ensures CheckOfAKind(dice, n) == CheckOfAKind(dice, m)
  {
  }

  /** On faces, the sum of the dice is each face times how often it shows. */
  lemma {:induction false} SumByFaces(dice: seq<int>)
    requires Faces(dice)
    ensures Sum(dice) ==
      1 * multiset(dice)[1] + 2 * multiset(dice)[2] + 3 * multiset(dice)[3] +
      4 * multiset(dice)[4] + 5 * multiset(dice)[5] + 6 * multiset(dice)[6]
  {
    if |dice| > 0 {
      var prefix := dice[..|dice| - 1];
      var last := dice[|dice| - 1];
      assert dice == prefix + [last];
      assert multiset(dice) == multiset(prefix) + multiset{last};
      assert last in dice;
      assert forall x :: x in prefix ==> x in dice;
      SumByFaces(prefix);
    }
  }

  /** On faces, Chance splits into the six upper-section scores. */
  lemma ChanceIsUpperTotal(dice: seq<int>)
    requires Faces(dice)
    ensures Score(Chance, dice) ==
      Score(Aces, dice) + Score(Twos, dice) + Score(Threes, dice) +
      Score(Fours, dice) + Score(Fives, dice) + Score(Sixes, dice)
  {
    SumByFaces(dice);
  }

  /** On dice that are not negative, every category scores at least 0. */
  lemma ScoreNonNegative(c: Category, dice: seq<int>)
    requires forall x :: x in dice ==> x >= 0
    ensures Score(c, dice) >= 0
  {
    SumLowerBound(dice);
  }

  /** Scores of some example rolls. */
  lemma ExampleThreeOfAKind()
    ensures Score(ThreeOfAKind, [3, 3, 3, 5, 6]) == 20
    ensures Score(ThreeOfAKind, [1, 2, 3, 4, 5]) == 0
  {
    var d: seq<int> := [3, 3, 3, 5, 6];
    var e: seq<int> := [1, 2, 3, 4, 5];
    assert d[0] in d && multiset(d)[3] == 3;
    assert d[..4][..3] == d[..3] && d[..3][..2] == d[..2] && d[..2][..1] == d[..1];
    assert d[..1][..0] == [];
    assert Sum(d[..1]) == 3;
    assert Sum(d[..2]) == 6;
    assert Sum(d[..3]) == 9;
    assert Sum(d[..4]) == 14;
    assert !HasOfAKind(e, 3) by {
      forall v | v in e
        ensures multiset(e)[v] < 3
      {
      }
    }
  }

  lemma ExampleUpperSection()
    ensures Score(Aces, [1, 1, 3, 4, 5]) == 2
    ensures Score(Sixes, [6, 6, 6, 1, 2]) == 18
  {
    var d: seq<int> := [1, 1, 3, 4, 5];
    var e: seq<int> := [6, 6, 6, 1, 2];
    assert multiset(d)[1] == 2;
    assert multiset(e)[6] == 3;
  }

  lemma ExampleFullHouse()
    ensures Score(FullHouse, [2, 2, 2, 5, 5]) == 25
    ensures Score(FullHouse, [1, 2, 3, 4, 5]) == 0
  {
    var f: seq<int> := [2, 2, 2, 5, 5];
    var e: seq<int> := [1, 2, 3, 4, 5];
    assert f[0] in f && f[3] in f;
    assert multiset(f)[2] == 3 && multiset(f)[5] == 2;
    assert !HasFullHouse(e) by {
      forall v | v in e
        ensures multiset(e)[v] == 1
      {
      }
    }
  }

  lemma ExampleSmallStraight()
    ensures Score(SmallStraight, [1, 2, 3, 4, 6]) == 30
  {
    var g: seq<int> := [1, 2, 3, 4, 6];
    assert g[0] == 1 && g[1] == 2 && g[2] == 3 && g[3] == 4;
    assert RunFrom(g, 1, 4);
    CheckStraightIffRun(g, 4);
  }

  lemma ExampleLargeStraight()
    ensures Score(LargeStraight, [1, 2, 3, 4, 5]) == 40
  {
    var e: seq<int> := [1, 2, 3, 4, 5];
    assert e[0] == 1 && e[1] == 2 && e[2] == 3 && e[3] == 4 && e[4] == 5;
    assert RunFrom(e, 1, 5);
    CheckStraightIffRun(e, 5);
  }

  lemma ExampleNoLargeStraight()
    ensures Score(LargeStraight, [1, 2, 3, 4, 6]) == 0
  {
    var g: seq<int> := [1, 2, 3, 4, 6];
    assert 5 !in g;
    assert forall x :: !RunFrom(g, x, 5) by {
      forall x
        ensures !RunFrom(g, x, 5)
      {
        if x <= 0 {
          assert x !in g;
        } else if x <= 5 {
          assert 5 !in g;
        } else {
          assert x + 1 !in g;
        }
      }
    }
    CheckStraightIffRun(g, 5);
  }
}
