# Yatzy scoring engine, dice and turn logic in Dafny

This project models the single-player Yatzy game of `YaztyGame/Javascript`:

- `YatzyEngine` — the scoring engine. A category name and the dice values
  go in; a score comes out, or an unknown-category error. The model covers
  the thirteen categories, `getCounts`, `checkOfAKind`, `checkFullHouse`,
  `checkStraight` and the engine's initial score table.
- `DiceRoll` — the `Dice` class. It covers the constructor, `roll(keepDice)`,
  `getCurrentValues` and `keepDice`. Each `Math.random()` draw is a `real`
  in [0, 1) passed in by the caller, and `Math.floor(r * 6) + 1` is
  computed in exact real arithmetic.
- `YatzyGame` — the state logic of the game controller. It covers
  `resetGame`, the roll button, the score-list click handler, `toggleHoldDice`,
  `endTurn` and the `endGame` total. The game is an immutable record, each
  handler is a pure transition, and what the player would be shown is
  returned as an `Event`.
- `JsArrays` and `JsSort` — the JavaScript behaviour the code relies on:
  - truthy reads of array slots, where `undefined` reads as false;
  - stores past the end of an array, which grow it;
  - `fill`, and `reduce` used as a sum;
  - `[...new Set(xs)]`;
  - the default `Array.prototype.sort`, which compares numbers as decimal
    strings.

The engine functions are total over `seq<int>`. The dice-range facts are
stated as preconditions of the lemmas that need them, not of the engine. The
score table is a `map<string, int>` keyed by the display names, as the source
indexes it. A click that carries no category name is the empty string, which
is the only falsy string.

## Model

| member | source | states |
|---|---|---|
| JsArrays.Store | YaztyGame/Javascript/YatzyGame.js:116 | Writing slot `i` changes the truthiness of slot `i` only. A negative index leaves every element alone. An index past the end grows the array, and the new holes read as false. |
| JsArrays.Sum | YaztyGame/Javascript/YatzyGame.js:161 | The `reduce` total of all-zero values is 0, and of non-negative values is not negative. `SumAppend` and `SumUpdate` relate it to concatenation and to replacing one value. |
| JsArrays.Fill | YaztyGame/Javascript/YatzyGame.js:151 | `fill(false)` keeps the length and clears every slot. |
| JsArrays.SumUpdate | YaztyGame/Javascript/YatzyGame.js:161 | Replacing one value changes the `reduce` sum by exactly the difference. |
| JsSort.SingleDigitOrder | YaztyGame/Javascript/YatzyEngine.js:119 | On single digits, the string comparison of the default sort agrees with numeric order. |
| JsSort.DefaultSort | YaztyGame/Javascript/YatzyEngine.js:119 | The default sort returns a permutation of its input (same multiset) in which no element's decimal string is less than that of an element in front of it. On distinct single-digit values the result is strictly increasing. |
| JsSort.Unique | YaztyGame/Javascript/YatzyEngine.js:119 | Spreading a `Set` keeps exactly the values of the input, each once. |
| YatzyEngine.Parse | YaztyGame/Javascript/YatzyEngine.js:43-85 | A name is accepted only if it is the name of a category. Any other name is reported as unknown, and then no category has that name. |
| YatzyEngine.ParseName | YaztyGame/Javascript/YatzyEngine.js:43-85 | Every category's name selects that category back (round trip). |
| YatzyEngine.NamesDistinct | YaztyGame/Javascript/YatzyEngine.js:19-33 | No two categories share a table key. |
| YatzyEngine.NamesAreCategoryNames | YaztyGame/Javascript/YatzyEngine.js:19-33 | The table keys are exactly the names the switch accepts. |
| YatzyEngine.GetCounts | YaztyGame/Javascript/YatzyEngine.js:137-142 | The keys are exactly the values on the dice. Each count is the number of dice showing that value, and so is at least 1. |
| YatzyEngine.CountsSumToDice | YaztyGame/Javascript/YatzyEngine.js:137-142 | The counts add up to the number of dice. |
| YatzyEngine.CheckOfAKind | YaztyGame/Javascript/YatzyEngine.js:95-100 | The result is the sum of all dice when some value shows on at least `count` dice, and 0 otherwise. |
| YatzyEngine.CheckFullHouse | YaztyGame/Javascript/YatzyEngine.js:107-110 | The result is 25 exactly when some value shows on exactly three dice and some value on exactly two, and 0 otherwise. |
| YatzyEngine.Upper | YaztyGame/Javascript/YatzyEngine.js:44-61 | An upper-section score is the face times the number of dice showing it, so 0 when the face is absent. |
| YatzyEngine.CheckStraight | YaztyGame/Javascript/YatzyEngine.js:118-130 | A run is only ever found for `length` at least 2. The full characterisation is `EngineProperties.CheckStraightIffRun`. |
| YatzyEngine.Score | YaztyGame/Javascript/YatzyEngine.js:43-82 | Each category's closed form: an upper category is its face times the number of dice showing it. Three and Four of a Kind are the dice sum when some value shows that often, and 0 otherwise. Full House is 25 or 0 by the exact-3-and-exact-2 test. The straights are 30 or 0 and 40 or 0. `EngineProperties.StraightScores` says which. Yatzy is 50 when some value shows five times and the sum is not 0, and 0 otherwise. Chance is the dice sum. |
| YatzyEngine.CalculateScore | YaztyGame/Javascript/YatzyEngine.js:42-87 | The result is an error exactly when the name is not a table key, and the error names the category. Otherwise it is the rule of the category with that name applied to the dice. |
| YatzyEngine.CalculateScoreOfName | YaztyGame/Javascript/YatzyEngine.js:43-82 | Each category's name is scored by that category's rule. |
| YatzyEngine.InitialTable | YaztyGame/Javascript/YatzyEngine.js:19-33 | The fresh table has one entry per category name and nothing else, each at 0. |
| EngineProperties.CheckStraightIffRun | YaztyGame/Javascript/YatzyEngine.js:118-130 | On single-digit dice the scan finds a run of `length` exactly when the dice contain `length` consecutive integers, for `length` at least 2. |
| EngineProperties.LargeStraightIsSmallStraight | YaztyGame/Javascript/YatzyEngine.js:71-76 | For any integer dice, a large straight also passes the small-straight test. |
| EngineProperties.StraightScores | YaztyGame/Javascript/YatzyEngine.js:71-76 | On single-digit dice, Small Straight scores 30 exactly when four consecutive values show, and 0 otherwise. Large Straight scores 40 exactly when five consecutive values show, and 0 otherwise. |
| EngineProperties.StraightIgnoresDuplicates | YaztyGame/Javascript/YatzyEngine.js:118-119 | Two single-digit rolls showing the same set of values get the same straight verdict, so repeated dice do not matter. |
| EngineProperties.FiveOfAKindIsAllEqual | YaztyGame/Javascript/YatzyEngine.js:95-100 | With five dice, some value shows five times exactly when all dice are equal. |
| EngineProperties.YatzyScore | YaztyGame/Javascript/YatzyEngine.js:77-79 | On faces 1..6, Yatzy scores 50 exactly when five dice show the same value, and 0 otherwise. |
| EngineProperties.FiveOfAKindIsNoFullHouse | YaztyGame/Javascript/YatzyEngine.js:68-70 | Five equal dice score 0 as a Full House. |
| EngineProperties.OfAKindMonotone | YaztyGame/Javascript/YatzyEngine.js:62-67 | A non-zero Four of a Kind gives Three of a Kind the same value. |
| EngineProperties.SumByFaces | YaztyGame/Javascript/YatzyEngine.js:80-82 | On faces, the dice sum is the sum over the faces of each face times its count. |
| EngineProperties.ChanceIsUpperTotal | YaztyGame/Javascript/YatzyEngine.js:44-82 | On faces, Chance equals the six upper-section scores added up. |
| EngineProperties.ScoreNonNegative | YaztyGame/Javascript/YatzyEngine.js:42-82 | On dice that are not negative, every category scores at least 0. |
| EngineProperties.ExampleThreeOfAKind | YaztyGame/Javascript/YatzyEngine.js:62-64 | 3,3,3,5,6 scores 20 as Three of a Kind, and 1,2,3,4,5 scores 0. |
| EngineProperties.ExampleUpperSection | YaztyGame/Javascript/YatzyEngine.js:44-61 | 1,1,3,4,5 scores 2 as Aces, and 6,6,6,1,2 scores 18 as Sixes. |
| EngineProperties.ExampleFullHouse | YaztyGame/Javascript/YatzyEngine.js:107-110 | 2,2,2,5,5 scores 25 as a Full House, and 1,2,3,4,5 scores 0. |
| EngineProperties.ExampleSmallStraight | YaztyGame/Javascript/YatzyEngine.js:71-73 | 1,2,3,4,6 scores 30 as a Small Straight. |
| EngineProperties.ExampleLargeStraight | YaztyGame/Javascript/YatzyEngine.js:74-76 | 1,2,3,4,5 scores 40 as a Large Straight. |
| EngineProperties.ExampleNoLargeStraight | YaztyGame/Javascript/YatzyEngine.js:74-76 | 1,2,3,4,6 scores 0 as a Large Straight. |
| DiceRoll.NewDice | YaztyGame/Javascript/Dice.js:15-19 | A new set of dice has one value per die, every value 0, and no die kept. |
| DiceRoll.Face | YaztyGame/Javascript/Dice.js:24 | Every draw in [0, 1) gives a face from 1 to 6. |
| DiceRoll.EveryFaceCanBeDrawn | YaztyGame/Javascript/Dice.js:24 | Each of the six faces comes from some draw. |
| DiceRoll.Roll | YaztyGame/Javascript/Dice.js:21-28 | Dice whose mask slot is truthy keep their value. Every other die gets the face of its draw. The count and the kept flags are unchanged. |
| DiceRoll.RollReachesEveryOutcome | YaztyGame/Javascript/Dice.js:21-28 | Every outcome that keeps the masked dice and puts faces elsewhere is produced by some draws. |
| DiceRoll.GetCurrentValues | YaztyGame/Javascript/Dice.js:30-32 | The values read back have one entry per die. |
| DiceRoll.RollWithoutMaskRedrawsAll | YaztyGame/Javascript/Dice.js:21-25 | With the default empty mask every die is redrawn. |
| DiceRoll.RollReturnsCurrentValues | YaztyGame/Javascript/Dice.js:27-32 | After a roll, `getCurrentValues` gives one value per die, and the kept dice have the values they had before. |
| DiceRoll.KeepDice | YaztyGame/Javascript/Dice.js:34-38 | A die is kept afterwards exactly when it was kept before or its index is listed. The values are untouched. |
| YatzyGame.FinalScore | YaztyGame/Javascript/YatzyGame.js:160-161 | The `endGame` total is 0 for an all-zero table and is not negative when no entry is. `CommitAddsToFinalScore` gives how each commit changes it. |
| YatzyGame.ResetGame | YaztyGame/Javascript/YatzyGame.js:28-38 | A reset game is in round 1 with five fresh dice (every value 0, none kept by the dice and none held), every entry 0, no roll yet, and a total of 0. |
| YatzyGame.RollAsWritten | YaztyGame/Javascript/YatzyGame.js:46-50 | The roll button rolls with the held flags as the mask and sets the rolled flag. Nothing else changes. |
| YatzyGame.RollDice | YaztyGame/Javascript/YatzyGame.js:46-50 | The corrected roll button also redraws dice that were never rolled. Afterwards every die shows a face. |
| YatzyGame.CorrectionAgreesAfterFirstRoll | YaztyGame/Javascript/YatzyGame.js:46-50 | Once every die shows a face, the corrected roll and the roll as written coincide. |
| YatzyGame.HeldFacesStay | YaztyGame/Javascript/YatzyGame.js:47 | A held die showing a face keeps it through the corrected roll. |
| YatzyGame.ToggleHoldDice | YaztyGame/Javascript/YatzyGame.js:115-116 | Toggling flips the held flag of that one die and changes nothing else. |
| YatzyGame.ToggleTwice | YaztyGame/Javascript/YatzyGame.js:115-116 | Toggling the same die twice holds the same dice as before. |
| YatzyGame.EndTurn | YaztyGame/Javascript/YatzyGame.js:146-163 | The round goes up by one. The game ends exactly when the round passes 13, and then reports the sum of the table. Otherwise every die is released. |
| YatzyGame.CommitAddsToFinalScore | YaztyGame/Javascript/YatzyGame.js:96 | Entering a score into an empty entry raises the final total by that score and the number of scored categories by one. |
| YatzyGame.CommitScore | YaztyGame/Javascript/YatzyGame.js:96-99 | A commit writes the score into that entry only, clears the rolled flag, and advances the round. The game ends exactly when the round passes 13: then it reports the table's total and the holds stay. Otherwise the event is the next turn and every die is released. |
| YatzyGame.EnterScore | YaztyGame/Javascript/YatzyGame.js:85-103 | An engine error or a zero score leaves the game unchanged and says why. Any other score is committed exactly as `CommitScore` does. |
| YatzyGame.ScoreClick | YaztyGame/Javascript/YatzyGame.js:70-107 | Without a roll the game is unchanged. The click enters a score exactly when the entry is 0 and the engine's score for the dice is not 0. Otherwise the game is unchanged. An accepted click is the commit of the engine's score, so the next turn starts with no die held. A game over reports the table's total. |
| YatzyGame.ScoreClickEvents | YaztyGame/Javascript/YatzyGame.js:80-106 | An empty name says nothing. A name that is not in the table, or whose entry is not 0, is reported as already scored. A zero score is reported as invalid. |
| YatzyGame.ScoringNeverFails | YaztyGame/Javascript/YatzyGame.js:80-103 | Every name the table check lets through is known to the engine, so the error path is never taken. |
| YatzyGame.ResetKeepsInvariant | YaztyGame/Javascript/YatzyGame.js:28-38 | A reset game satisfies the invariant of the corrected game. The round is one more than the number of scored entries, entries are not negative, and dice show 0 or a face. Before any roll the faces condition is vacuous. |
| YatzyGame.RollAsWrittenKeepsInvariant | YaztyGame/Javascript/YatzyGame.js:46-50 | The roll as written keeps the game invariant: the round count, non-negative entries, and dice showing 0 or a face. |
| YatzyGame.RollDiceKeepsInvariant | YaztyGame/Javascript/YatzyGame.js:46-50 | The corrected roll takes any game meeting the invariant to one where also every die shows a face. |
| YatzyGame.ToggleKeepsInvariant | YaztyGame/Javascript/YatzyGame.js:115-116 | Toggling a hold keeps both the game invariant and the corrected game's invariant. |
| YatzyGame.ScoreClickKeepsInvariant | YaztyGame/Javascript/YatzyGame.js:70-107 | Every score click keeps both the game invariant and the corrected game's invariant. |
| YatzyGame.RoundBounds | YaztyGame/Javascript/YatzyGame.js:18 | Under the game invariant the round stays between 1 and 14. |
| YatzyGame.ScoresAreFinal | YaztyGame/Javascript/YatzyGame.js:80 | In any game whose table has the thirteen keys, an entry that holds a score is never overwritten by a click. |
| YatzyGame.GameOverWhenTableFull | YaztyGame/Javascript/YatzyGame.js:146-149 | Under the game invariant, a click ends the game exactly when it enters a score in round 13, and then every entry holds a score. |
| YatzyGame.NoScoreAfterLastRound | YaztyGame/Javascript/YatzyGame.js:80 | Under the game invariant, after the last round no click changes the game. |
| YatzyGame.FirstRollKeepsZero | YaztyGame/Javascript/Dice.js:17-25 | Holding die 0 of a fresh game and rolling with the draws 0, 0, 0.25, 0.375, 0.375 gives the values 0, 1, 2, 3, 3. |
| YatzyGame.ZeroCompletesSmallStraight | YaztyGame/Javascript/YatzyEngine.js:71-73 | The engine scores 0, 1, 2, 3, 3 as a Small Straight worth 30. |
| YatzyGame.ZeroDieEntersSmallStraight | YaztyGame/Javascript/YatzyGame.js:80-99 | On a fresh table, the dice 0, 1, 2, 3, 3 enter 30 into Small Straight. |
| YatzyGame.HeldBeforeFirstRollScoresZero | YaztyGame/Javascript/YatzyGame.js:46-50 | As written, a die held before the first roll keeps its 0 after a roll, and a score that counts the 0 is accepted. |

## Left out

- Everything on the page is left out: DOM access, listener wiring, `alert`, `confirm`, `console`, `updateDiceDisplay`, `updateScoreboard` and the turns-remaining counter. None of it affects the game state. What the player would be told is returned as an `Event` instead.
- The restart button's `confirm` is left out. A confirmed restart is `ResetGame`.
- `Math.random` is a parameter: one `real` in [0, 1) per die. Probability and uniformity are not modelled.
- Numbers are unbounded integers. JavaScript doubles agree with them for every value five dice can produce.
- `new Dice(numDice)` with a negative or non-integer count throws in JavaScript. The model takes a `nat`.
- A hold index that is negative or not an integer sets a named property on the array. The model leaves the elements alone for negative indices and does not model non-integer indices, which the page never produces.
- The engine's `getCounts` object is a `map<int, nat>`. The string coercion of object keys and the order of `Object.values` do not affect `some` or `includes`, so they are not modelled.
- The `try`/`catch` around scoring becomes the `Result` of `CalculateScore` and the `ScoringFailed` event.
- The game keeps one score table. The copy made from the engine's table is modelled as `InitialTable` itself.
- YatzyEngine.CheckStraight: its own contract only says that a success needs `length` at least 2. The characterisation is `EngineProperties.CheckStraightIffRun`.
- EngineProperties.CheckStraightIffRun: holds only for single-digit dice. On larger values the default sort orders by string ("10" before "9"), and the verdict can differ from the numeric one.
- EngineProperties.YatzyScore: holds only for dice showing faces 1..6. The `? 50 : 0` tests the truthiness of the dice sum, and a zero sum would score 0.
- YatzyGame.Consistent (the invariant of the corrected game) adds "after a roll every die shows a face" to `YatzyGame.Invariant`. Only the corrected roll `RollDice` keeps that extra part. With the roll as written a die can still show 0 when it is scored (see Findings). The state-machine lemmas are stated on `Invariant`, which the roll as written keeps.
- DiceRoll.Face: `r * 6` is computed exactly, not rounded to a double. For a few draws just below a multiple of 1/6 the double product can round up to the next integer and gives the next face (for example face 6 where the model gives 5). The set of faces that can come up is the same.

## Findings

| source | as written | input that shows it | evidently intended | confidence | as-written member | corrected member |
|---|---|---|---|---|---|---|
| YaztyGame/Javascript/YatzyGame.js:46-50 | The roll passes the held flags to `roll` even on the first roll of a game. Dice start at 0 (`Dice.js:17`), so a die held before any roll keeps 0, and the engine counts that 0. | Reset, toggle die 0, roll with draws 0, 0, 0.25, 0.375, 0.375. The values are 0, 1, 2, 3, 3, and clicking "Small Straight" enters 30 although only 1, 2 and 3 are faces. | Only dice that show a face can be held, so every scored die is a face from 1 to 6. | not executed | YatzyGame.HeldBeforeFirstRollScoresZero | YatzyGame.RollDice |
