/** The state logic of `YatzyGame`: the round counter, which dice are held,
    the score table, and the rule that commits the current dice into a
    category. Display updates and alerts are left out; what the player would
    be told is returned as an `Event`. */
module YatzyGame {
  import opened JsArrays
  import opened JsSort
  import opened YatzyEngine
  import opened DiceRoll
  import EngineProperties

  /** The number of turns in a game. */
  const MaxRounds := 13

  /** The number of dice the game rolls. */
  const DiceCount := 5

  datatype Game = Game(
    currentRound: int,
    dice: Dice,
    scoreTable: map<string, int>,
    heldDice: seq<bool>,
    rolledThisTurn: bool)

  /** What a click on the score list tells the player. */
  datatype Event =
    | Nothing           // the click was not on a category
    | MustRollFirst     // no roll yet this turn
    | InvalidScore      // the dice score 0 in that category
    | AlreadyScored     // the entry is not 0, or the name is not in the table
    | ScoringFailed     // the engine raised an error
    | NextTurn          // the score was entered and a new turn begins
    | GameOver(finalScore: int)

  datatype Step = Step(game: Game, event: Event)

  /** The score table has an entry for every category name and nothing else. */
  ghost predicate TableKeys(t: map<string, int>) {
    forall n :: n in t <==> n in Names
  }

  ghost predicate Valid(g: Game) {
    TableKeys(g.scoreTable) && WellFormed(g.dice) && g.dice.numDice == DiceCount
  }

  /** `Object.values(scoreTable)`, in the order the table lists its categories. */
  function TableValues(t: map<string, int>): (xs: seq<int>)
    requires TableKeys(t)
    ensures |xs| == |Names|
    ensures forall i :: 0 <= i < |Names| ==> xs[i] == t[Names[i]]
  {
    seq(|Names|, i requires 0 <= i < |Names| => t[Names[i]])
  }

  /** The total that `endGame` reports. */
  function FinalScore(t: map<string, int>): (total: int)
    requires TableKeys(t)
    ensures (forall n :: n in t ==> t[n] == 0) ==> total == 0
    ensures (forall n :: n in t ==> t[n] >= 0) ==> total >= 0
  {
    TableSumBounds(t);
    Sum(TableValues(t))
  }

  lemma TableSumBounds(t: map<string, int>)
    requires TableKeys(t)
    ensures (forall n :: n in t ==> t[n] == 0) ==> Sum(TableValues(t)) == 0
    ensures (forall n :: n in t ==> t[n] >= 0) ==> Sum(TableValues(t)) >= 0
  {
    var xs := TableValues(t);
    assert forall x :: x in xs ==> exists i :: 0 <= i < |Names| && x == t[Names[i]];
    SumLowerBound(xs);
    if forall n :: n in t ==> t[n] == 0 {
      SumOfCopies(xs, 0);
    }
  }

  function CountNonzero(xs: seq<int>): (n: nat)
    ensures n <= |xs|
  {
    if |xs| == 0 then 0
    else CountNonzero(xs[..|xs| - 1]) + (if xs[|xs| - 1] != 0 then 1 else 0)
  }

  /** How many categories hold a score. */
  function Scored(t: map<string, int>): nat
    requires TableKeys(t)
  {
    CountNonzero(TableValues(t))
  }

  lemma {:induction false} CountNonzeroUpdate(xs: seq<int>, i: int, v: int)
    requires 0 <= i < |xs|
    ensures CountNonzero(xs[i := v]) ==
      CountNonzero(xs) - (if xs[i] != 0 then 1 else 0) + (if v != 0 then 1 else 0)
    decreases |xs|
  {
    var n := |xs| - 1;
    if i < n {
      assert xs[i := v][..n] == xs[..n][i := v];
      CountNonzeroUpdate(xs[..n], i, v);
    } else {
      assert xs[i := v][..n] == xs[..n];
    }
  }

  lemma {:induction false} CountNonzeroOfZeros(xs: seq<int>)
    requires forall i :: 0 <= i < |xs| ==> xs[i] == 0
    ensures CountNonzero(xs) == 0
  {
    if |xs| > 0 {
      CountNonzeroOfZeros(xs[..|xs| - 1]);
    }
  }

  lemma {:induction false} CountNonzeroFull(xs: seq<int>)
    requires CountNonzero(xs) == |xs|
    ensures forall x :: x in xs ==> x != 0
  {
    if |xs| > 0 {
      CountNonzeroFull(xs[..|xs| - 1]);
      assert xs == xs[..|xs| - 1] + [xs[|xs| - 1]];
    }
  }

  /** Writing `v` into the entry for `n` rewrites exactly that position of the
      table's values. */
  lemma TableValuesUpdate(t: map<string, int>, n: string, v: int) returns (i: int)
    requires TableKeys(t) && n in t
    ensures TableKeys(t[n := v])
    ensures 0 <= i < |Names| && Names[i] == n
    ensures TableValues(t[n := v]) == TableValues(t)[i := v]
  {
    i :| 0 <= i < |Names| && Names[i] == n;
    NamesDistinct();
  }

  /** Entering `v` into an empty entry adds `v` to the final score. */
  lemma CommitAddsToFinalScore(t: map<string, int>, n: string, v: int)
    requires TableKeys(t) && n in t && t[n] == 0
    ensures TableKeys(t[n := v])
    ensures FinalScore(t[n := v]) == FinalScore(t) + v
    ensures v != 0 ==> Scored(t[n := v]) == Scored(t) + 1
  {
    var i := TableValuesUpdate(t, n, v);
    SumUpdate(TableValues(t), i, v);
    CountNonzeroUpdate(TableValues(t), i, v);
  }

  /** `resetGame`: round 1, five fresh dice none held, every entry 0, no roll yet. */
  function ResetGame(): (g: Game)
    ensures Valid(g)
    ensures g.currentRound == 1 && !g.rolledThisTurn
    ensures |g.heldDice| == DiceCount && forall i :: 0 <= i < DiceCount ==> !g.heldDice[i]
    ensures forall i :: 0 <= i < DiceCount ==> g.dice.values[i] == 0 && !Truthy(g.dice.keptDice, i)
    ensures forall n :: n in g.scoreTable ==> g.scoreTable[n] == 0
    ensures FinalScore(g.scoreTable) == 0 && Scored(g.scoreTable) == 0
  {
    var t := InitialTable();
    CountNonzeroOfZeros(TableValues(t));
    Game(1, NewDice(DiceCount), t, [false, false, false, false, false], false)
  }

  /** The roll button as written: `dice.roll(heldDice)`, then
      `rolledThisTurn = true`; nothing else changes. */
  function RollAsWritten(g: Game, random: seq<real>): (r: Game)
    requires Valid(g) && Draws(g.dice, random)
    ensures Valid(r) && r.rolledThisTurn
    ensures RollsTo(g.dice, g.heldDice, r.dice)
    ensures r == g.(dice := r.dice, rolledThisTurn := true)
  {
    g.(dice := Roll(g.dice, g.heldDice, random), rolledThisTurn := true)
  }

  /** The holds a roll honours once corrected: a held die keeps its value only
      if it already shows a face. */
  function EffectiveHolds(held: seq<bool>, values: seq<int>): (keep: seq<bool>)
    ensures forall i :: Truthy(keep, i) <==> Truthy(held, i) && 0 <= i < |values| && 1 <= values[i] <= 6
  {
    seq(|values|, i requires 0 <= i < |values| => Truthy(held, i) && 1 <= values[i] <= 6)
  }

  /** The roll button, corrected so that a die that has never been rolled is
      rolled even when held. */
  function RollDice(g: Game, random: seq<real>): (r: Game)
    requires Valid(g) && Draws(g.dice, random)
    ensures Valid(r) && r.rolledThisTurn
    ensures RollsTo(g.dice, EffectiveHolds(g.heldDice, g.dice.values), r.dice)
    ensures r == g.(dice := r.dice, rolledThisTurn := true)
    ensures Faces(r.dice.values)
  {
    var r := g.(dice := Roll(g.dice, EffectiveHolds(g.heldDice, g.dice.values), random), rolledThisTurn := true);
    assert forall x :: x in r.dice.values ==> exists i :: 0 <= i < DiceCount && r.dice.values[i] == x;
    r
  }

  /** Once every die shows a face the correction changes nothing: both rolls
      keep the same dice. */
  lemma CorrectionAgreesAfterFirstRoll(g: Game, random: seq<real>)
    requires Valid(g) && Draws(g.dice, random) && Faces(g.dice.values)
    ensures RollDice(g, random) == RollAsWritten(g, random)
  {
    var keep := EffectiveHolds(g.heldDice, g.dice.values);
    forall i | 0 <= i < DiceCount
      ensures Truthy(keep, i) == Truthy(g.heldDice, i)
    {
      assert g.dice.values[i] in g.dice.values;
    }
    assert Roll(g.dice, keep, random).values == Roll(g.dice, g.heldDice, random).values;
  }

  /** A held die that shows a face keeps it through the corrected roll. */
  lemma HeldFacesStay(g: Game, random: seq<real>, i: int)
    requires Valid(g) && Draws(g.dice, random)
    requires Truthy(g.heldDice, i) && 0 <= i < DiceCount && 1 <= g.dice.values[i] <= 6
    ensures RollDice(g, random).dice.values[i] == g.dice.values[i]
  {
  }

  /** `toggleHoldDice(index)`: flips the held flag of one die only. */
  function ToggleHoldDice(g: Game, index: int): (r: Game)
    ensures r == g.(heldDice := r.heldDice)
    ensures forall j :: Truthy(r.heldDice, j) ==
               (if 0 <= index && j == index then !Truthy(g.heldDice, j) else Truthy(g.heldDice, j))
  {
    g.(heldDice := Store(g.heldDice, index, !Truthy(g.heldDice, index)))
  }

  /** Toggling the same die twice holds the same dice as before. */
  lemma ToggleTwice(g: Game, index: int)
    ensures forall j :: Truthy(ToggleHoldDice(ToggleHoldDice(g, index), index).heldDice, j) == Truthy(g.heldDice, j)
  {
  }

  /** `endTurn`: the round advances; past the last round the game ends with
      the table's total, otherwise every die is released. */
  function EndTurn(g: Game): (s: Step)
    requires TableKeys(g.scoreTable)
    ensures s.event.GameOver? <==> g.currentRound + 1 > MaxRounds
    ensures s.event.GameOver? ==>
      s.game == g.(currentRound := g.currentRound + 1) && s.event.finalScore == FinalScore(g.scoreTable)
    ensures !s.event.GameOver? ==>
      && s.event == NextTurn
      && s.game == g.(currentRound := g.currentRound + 1, heldDice := s.game.heldDice)
      && |s.game.heldDice| == |g.heldDice|
      && forall j :: !Truthy(s.game.heldDice, j)
  {
    var g1 := g.(currentRound := g.currentRound + 1);
    if g1.currentRound > MaxRounds then Step(g1, GameOver(FinalScore(g1.scoreTable)))
    else Step(g1.(heldDice := Fill(g1.heldDice, false)), NextTurn)
  }

  /** The click may enter a score: the dice were rolled this turn, the entry
      is 0, and the engine's score for the dice in that category is not 0. */
  predicate Accepts(g: Game, category: string) {
    && g.rolledThisTurn
    && category in g.scoreTable && g.scoreTable[category] == 0
    && CalculateScore(category, GetCurrentValues(g.dice)).Ok?
    && CalculateScore(category, GetCurrentValues(g.dice)).value != 0
  }

  /** `after` is `g` with the engine's score entered into `category`, the
      turn's roll used up and the round advanced. */
  predicate Commits(g: Game, category: string, after: Game) {
    && CalculateScore(category, GetCurrentValues(g.dice)).Ok?
    && after.scoreTable == g.scoreTable[category := CalculateScore(category, GetCurrentValues(g.dice)).value]
    && !after.rolledThisTurn
    && after.currentRound == g.currentRound + 1
    && after.dice == g.dice
  }

  /** Enters `score` into the empty entry for `category`, marks the roll as
      used and ends the turn. */
  function CommitScore(g: Game, category: string, score: int): (s: Step)
    requires Valid(g) && category in g.scoreTable
    ensures Valid(s.game)
    ensures s.game.scoreTable == g.scoreTable[category := score]
    ensures !s.game.rolledThisTurn && s.game.dice == g.dice
    ensures s.game.currentRound == g.currentRound + 1
    ensures s.event.GameOver? <==> g.currentRound + 1 > MaxRounds
    ensures s.event.GameOver? ==> s.event.finalScore == FinalScore(s.game.scoreTable) && s.game.heldDice == g.heldDice
    ensures !s.event.GameOver? ==>
      s.event == NextTurn && |s.game.heldDice| == |g.heldDice| && forall j :: !Truthy(s.game.heldDice, j)
  {
    EndTurn(g.(scoreTable := g.scoreTable[category := score], rolledThisTurn := false))
  }

  /** The `try` block of the handler: an engine error or a zero score leaves
      the game as it was; any other score is committed. */
  function EnterScore(g: Game, category: string, result: Result<int>): (s: Step)
    requires Valid(g) && category in g.scoreTable
    ensures Valid(s.game)
    ensures result.Ok? && result.value != 0 ==>
      && s.game.scoreTable == g.scoreTable[category := result.value]
      && !s.game.rolledThisTurn && s.game.dice == g.dice
      && s.game.currentRound == g.currentRound + 1
    ensures result.Ok? && result.value != 0 ==> s == CommitScore(g, category, result.value)
    ensures result.Err? ==> s == Step(g, ScoringFailed)
    ensures result == Ok(0) ==> s == Step(g, InvalidScore)
    ensures s.event.GameOver? ==> s.event.finalScore == FinalScore(s.game.scoreTable)
  {
    match result
    case Err(_) => Step(g, ScoringFailed)
    case Ok(score) =>
      if score == 0 then Step(g, InvalidScore)
      else CommitScore(g, category, score)
  }

  /** The score-list click handler. An empty `category` stands for a click
      that carries no category name. */
  function ScoreClick(g: Game, category: string): (s: Step)
    requires Valid(g)
    ensures Valid(s.game)
    ensures !g.rolledThisTurn ==> s == Step(g, MustRollFirst)
    ensures Accepts(g, category) ==> Commits(g, category, s.game)
    ensures Accepts(g, category) ==> s == CommitScore(g, category, CalculateScore(category, GetCurrentValues(g.dice)).value)
    ensures !Accepts(g, category) ==> s.game == g
    ensures s.event.GameOver? ==> s.event.finalScore == FinalScore(s.game.scoreTable)
  {
    EmptyNotAName();
    if !g.rolledThisTurn then Step(g, MustRollFirst)
    else if category != "" && category in g.scoreTable && g.scoreTable[category] == 0 then
      EnterScore(g, category, CalculateScore(category, GetCurrentValues(g.dice)))
    else if category != "" then Step(g, AlreadyScored)
    else Step(g, Nothing)
  }

  /** What the player is told when the click enters nothing. */
  lemma ScoreClickEvents(g: Game, category: string)
    requires Valid(g) && g.rolledThisTurn
    ensures category == "" ==> ScoreClick(g, category).event == Nothing
    ensures category != "" && (category !in g.scoreTable || g.scoreTable[category] != 0) ==>
      ScoreClick(g, category).event == AlreadyScored
    ensures category in g.scoreTable && g.scoreTable[category] == 0 && CalculateScore(category, GetCurrentValues(g.dice)) == Ok(0) ==>
      ScoreClick(g, category).event == InvalidScore
  {
    EmptyNotAName();
  }

  /** The engine never fails on a click the table lets through: every table
      key is a category name. */
  lemma ScoringNeverFails(g: Game, category: string)
    requires Valid(g)
    ensures ScoreClick(g, category).event != ScoringFailed
  {
    NamesAreCategoryNames();
  }

  /** What holds after any sequence of resets, rolls, toggles and clicks,
      with the roll as written: the round is one more than the number of
      scored categories, entries are not negative, and every die shows 0
      (never rolled) or a face. */
  ghost predicate Invariant(g: Game) {
    && Valid(g)
    && (forall n :: n in g.scoreTable ==> g.scoreTable[n] >= 0)
    && g.currentRound == 1 + Scored(g.scoreTable)
    && (forall x :: x in g.dice.values ==> 0 <= x <= 6)
  }

  /** The invariant of the corrected game: in addition, after a roll every die
      shows a face, so every score is computed from faces. */
  ghost predicate Consistent(g: Game) {
    && Invariant(g)
    && (g.rolledThisTurn ==> Faces(g.dice.values))
  }

  lemma ResetKeepsInvariant()
    ensures Consistent(ResetGame())
  {
    var g := ResetGame();
    assert forall x :: x in g.dice.values ==> x == 0;
  }

  lemma RollAsWrittenKeepsInvariant(g: Game, random: seq<real>)
    requires Invariant(g) && Draws(g.dice, random)
    ensures Invariant(RollAsWritten(g, random))
  {
    var r := RollAsWritten(g, random);
    forall x | x in r.dice.values
      ensures 0 <= x <= 6
    {
      var i :| 0 <= i < |r.dice.values| && r.dice.values[i] == x;
      assert g.dice.values[i] in g.dice.values;
    }
  }

  lemma RollDiceKeepsInvariant(g: Game, random: seq<real>)
    requires Invariant(g) && Draws(g.dice, random)
    ensures Consistent(RollDice(g, random))
  {
  }

  lemma ToggleKeepsInvariant(g: Game, index: int)
    ensures Invariant(g) ==> Invariant(ToggleHoldDice(g, index))
    ensures Consistent(g) ==> Consistent(ToggleHoldDice(g, index))
  {
  }

  lemma ScoreClickKeepsInvariant(g: Game, category: string)
    requires Invariant(g)
    ensures Invariant(ScoreClick(g, category).game)
    ensures Consistent(g) ==> Consistent(ScoreClick(g, category).game)
  {
    var s := ScoreClick(g, category);
    if Accepts(g, category) {
      var score := CalculateScore(category, g.dice.values).value;
      var c :| Name(c) == category && score == Score(c, g.dice.values);
      EngineProperties.ScoreNonNegative(c, g.dice.values);
      CommitAddsToFinalScore(g.scoreTable, category, score);
    }
  }

  /** The round runs from 1 to one past the last. */
  lemma RoundBounds(g: Game)
    requires Invariant(g)
    ensures 1 <= g.currentRound <= MaxRounds + 1
  {
  }

  /** A score, once entered, is never overwritten. */
  lemma ScoresAreFinal(g: Game, category: string, n: string)
    requires Valid(g)
    requires n in g.scoreTable && g.scoreTable[n] != 0
    ensures ScoreClick(g, category).game.scoreTable[n] == g.scoreTable[n]
  {
  }

  /** The game ends exactly when the thirteenth category is scored, and then
      every category holds a score. */
  lemma GameOverWhenTableFull(g: Game, category: string)
    requires Invariant(g)
    ensures ScoreClick(g, category).event.GameOver? <==>
      Accepts(g, category) && g.currentRound == MaxRounds
    ensures ScoreClick(g, category).event.GameOver? ==>
      forall n :: n in ScoreClick(g, category).game.scoreTable ==> ScoreClick(g, category).game.scoreTable[n] != 0
  {
    var s := ScoreClick(g, category);
    ScoreClickKeepsInvariant(g, category);
    if s.event.GameOver? {
      var t := s.game.scoreTable;
      assert Scored(t) == |TableValues(t)|;
      CountNonzeroFull(TableValues(t));
      forall n | n in t
        ensures t[n] != 0
      {
        var i :| 0 <= i < |Names| && Names[i] == n;
        assert TableValues(t)[i] in TableValues(t);
      }
    }
  }

  /** Once every round is played no click can enter another score. */
  lemma NoScoreAfterLastRound(g: Game, category: string)
    requires Invariant(g) && g.currentRound > MaxRounds
    ensures ScoreClick(g, category).game == g
  {
    var t := g.scoreTable;
    assert Scored(t) == |TableValues(t)|;
    CountNonzeroFull(TableValues(t));
    if category in t {
      var i :| 0 <= i < |Names| && Names[i] == category;
      assert TableValues(t)[i] in TableValues(t);
    }
  }

  /** Holding die 0 of a fresh game and rolling with these draws leaves
      die 0 at 0. */
  lemma FirstRollKeepsZero()
    ensures RollAsWritten(ToggleHoldDice(ResetGame(), 0), [0.0, 0.0, 0.25, 0.375, 0.375]).dice.values ==
      [0, 1, 2, 3, 3]
  {
    var random: seq<real> := [0.0, 0.0, 0.25, 0.375, 0.375];
    var g1 := ToggleHoldDice(ResetGame(), 0);
    assert Truthy(g1.heldDice, 0);
    assert !Truthy(g1.heldDice, 1) && !Truthy(g1.heldDice, 2);
    assert !Truthy(g1.heldDice, 3) && !Truthy(g1.heldDice, 4);
    assert Face(random[1]) == 1;
    assert random[2] * 6.0 == 1.5;
    assert Face(random[2]) == 2;
    assert random[3] * 6.0 == 2.25;
    assert Face(random[3]) == 3;
    assert Face(random[4]) == 3;
  }

  /** The engine counts 0 as a value next to 1, 2, 3: a small straight. */
  lemma ZeroCompletesSmallStraight()
    ensures Score(SmallStraight, [0, 1, 2, 3, 3]) == 30
  {
    var d: seq<int> := [0, 1, 2, 3, 3];
    assert AllDigits(d) by {
      forall x | x in d
        ensures 0 <= x <= 9
      {
        var i :| 0 <= i < 5 && d[i] == x;
      }
    }
    assert d[0] == 0 && d[1] == 1 && d[2] == 2 && d[3] == 3;
    assert RunFrom(d, 0, 4);
    EngineProperties.CheckStraightIffRun(d, 4);
  }

  /** A fresh table accepts the dice 0, 1, 2, 3, 3 as a small straight. */
  lemma ZeroDieEntersSmallStraight(g: Game)
    requires Valid(g) && g.rolledThisTurn && g.scoreTable == InitialTable()
    requires g.dice.values == [0, 1, 2, 3, 3]
    ensures Accepts(g, "Small Straight")
    ensures ScoreClick(g, "Small Straight").game.scoreTable["Small Straight"] == 30
  {
    ZeroCompletesSmallStraight();
    CalculateScoreOfName(SmallStraight, g.dice.values);
    assert Name(SmallStraight) == "Small Straight";
    assert "Small Straight" in g.scoreTable;
  }

  /** The roll handler as written lets a die held before the first roll keep
      the value 0 it was created with, and that 0 then counts in a score:
      here the dice 0, 1, 2, 3, 3 enter 30 points as a small straight. */
  lemma HeldBeforeFirstRollScoresZero()
    ensures var g := RollAsWritten(ToggleHoldDice(ResetGame(), 0), [0.0, 0.0, 0.25, 0.375, 0.375]);
      && g.rolledThisTurn
      && g.dice.values == [0, 1, 2, 3, 3]
      && !Faces(g.dice.values)
      && Accepts(g, "Small Straight")
      && ScoreClick(g, "Small Straight").game.scoreTable["Small Straight"] == 30
  {
    var g := RollAsWritten(ToggleHoldDice(ResetGame(), 0), [0.0, 0.0, 0.25, 0.375, 0.375]);
    FirstRollKeepsZero();
    assert g.dice.values[0] == 0 && g.dice.values[0] in g.dice.values;
    ZeroDieEntersSmallStraight(g);
  }
}
