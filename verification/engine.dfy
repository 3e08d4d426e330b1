/** The Yatzy scoring engine: a category name and the dice values in, a score
    (or an unknown-category error) out. */
module YatzyEngine {
  import opened JsArrays
  import opened JsSort

  datatype Category =
    | Aces | Twos | Threes | Fours | Fives | Sixes
    | ThreeOfAKind | FourOfAKind | FullHouse
    | SmallStraight | LargeStraight | Yatzy | Chance

  datatype EngineError = UnknownCategory(name: string)

  datatype Result<T> = Ok(value: T) | Err(error: EngineError)

  /** The categories in the order the score table lists them. */
  const Categories: seq<Category> :=
    [Aces, Twos, Threes, Fours, Fives, Sixes, ThreeOfAKind, FourOfAKind,
     FullHouse, SmallStraight, LargeStraight, Yatzy, Chance]

  /** The display name under which a category is requested and stored. */
  function Name(c: Category): string {
    match c
    case Aces => "Aces"
    case Twos => "Twos"
    case Threes => "Threes"
    case Fours => "Fours"
    case Fives => "Fives"
    case Sixes => "Sixes"
    case ThreeOfAKind => "Three of a Kind"
    case FourOfAKind => "Four of a Kind"
    case FullHouse => "Full House"
    case SmallStraight => "Small Straight"
    case LargeStraight => "Large Straight"
    case Yatzy => "Yatzy"
    case Chance => "Chance"
  }

  const Names: seq<string> :=
    [Name(Aces), Name(Twos), Name(Threes), Name(Fours), Name(Fives), Name(Sixes),
     Name(ThreeOfAKind), Name(FourOfAKind), Name(FullHouse), Name(SmallStraight),
     Name(LargeStraight), Name(Yatzy), Name(Chance)]

  lemma CategoriesListed(c: Category)
    ensures c in Categories
  {
    match c
    case Aces => assert Categories[0] == c;
    case Twos => assert Categories[1] == c;
    case Threes => assert Categories[2] == c;
    case Fours => assert Categories[3] == c;
    case Fives => assert Categories[4] == c;
    case Sixes => assert Categories[5] == c;
    case ThreeOfAKind => assert Categories[6] == c;
    case FourOfAKind => assert Categories[7] == c;
    case FullHouse => assert Categories[8] == c;
    case SmallStraight => assert Categories[9] == c;
    case LargeStraight => assert Categories[10] == c;
    case Yatzy => assert Categories[11] == c;
    case Chance => assert Categories[12] == c;
  }

  /** A string is a listed name exactly when it names some category. */
  lemma NamesAreCategoryNames()
    ensures forall n :: n in Names <==> exists c :: Name(c) == n
  {
    forall n | n in Names ensures exists c :: Name(c) == n {
      var i :| 0 <= i < |Names| && Names[i] == n;
      assert Names[i] == Name(Categories[i]);
    }
    forall c: Category ensures Name(c) in Names {
      CategoriesListed(c);
      var i :| 0 <= i < |Categories| && Categories[i] == c;
      assert Names[i] == Name(c);
    }
  }

  /** Searches the category list from position `i` for the one called `name`. */
  function Lookup(name: string, i: nat): (r: Result<Category>)
    requires i <= |Categories|
    ensures r.Ok? ==> Name(r.value) == name
    ensures r.Err? ==> r.error == UnknownCategory(name)
    ensures r.Err? ==> forall j :: i <= j < |Categories| ==> Name(Categories[j]) != name
    decreases |Categories| - i
  {
    if i == |Categories| then Err(UnknownCategory(name))
    else if Name(Categories[i]) == name then Ok(Categories[i])
    else Lookup(name, i + 1)
  }

  /** The `switch (category)` of `calculateScore`: a known name selects its
      category, any other string is an unknown category. */
  function Parse(name: string): (r: Result<Category>)
    ensures r.Ok? ==> Name(r.value) == name
    ensures r.Err? ==> r.error == UnknownCategory(name) && forall c :: Name(c) != name
  {
    var r := Lookup(name, 0);
    if r.Err? then
      assert forall c :: Name(c) != name by {
        forall c ensures Name(c) != name {
          CategoriesListed(c);
        }
      }
      r
    else r
  }

  lemma NameInjective(a: Category, b: Category)
    ensures Name(a) == Name(b) ==> a == b
  {
    if Name(a) == Name(b) {
      match a
      case Aces => assert Name(b)[0] == 'A';
      case Twos => assert Name(b)[..2] == "Tw";
      case Threes => assert Name(b)[..3] == "Thr" && |Name(b)| == 6;
      case Fours => assert Name(b)[..3] == "Fou" && |Name(b)| == 5;
      case Fives => assert Name(b)[..3] == "Fiv";
      case Sixes => assert Name(b)[0] == 'S' && |Name(b)| == 5;
      case ThreeOfAKind => assert Name(b)[..3] == "Thr" && |Name(b)| == 15;
      case FourOfAKind => assert Name(b)[..3] == "Fou" && |Name(b)| == 14;
      case FullHouse => assert Name(b)[..3] == "Ful";
      case SmallStraight => assert Name(b)[0] == 'S' && |Name(b)| == 14;
      case LargeStraight => assert Name(b)[0] == 'L';
      case Yatzy => assert Name(b)[0] == 'Y';
      case Chance => assert Name(b)[0] == 'C';
    }
  }

  /** No two categories share a name, so no name is listed twice. */
  lemma NamesDistinct()
    ensures forall i, j :: 0 <= i < j < |Names| ==> Names[i] != Names[j]
  {
    forall i, j | 0 <= i < j < |Names|
      ensures Names[i] != Names[j]
    {
      assert Names[i] == Name(Categories[i]) && Names[j] == Name(Categories[j]);
      assert Categories[i] != Categories[j];
      NameInjective(Categories[i], Categories[j]);
    }
  }

  /** No category is named by the empty string, the one falsy string. */
  lemma EmptyNotAName()
    ensures "" !in Names
  {
  }

  /** Parsing the name of a category gives back that category. */
  lemma ParseName(c: Category)
    ensures Parse(Name(c)) == Ok(c)
  {
    var r := Parse(Name(c));
    assert r.Ok?;
    NameInjective(r.value, c);
  }

  /** `getCounts`: for every value on the dice, how many dice show it. Built
      by the same left-to-right `reduce` as the source. */
  function GetCounts(dice: seq<int>): (counts: map<int, nat>)
    ensures forall v :: v in counts <==> v in dice
    ensures forall v :: v in counts ==> counts[v] == multiset(dice)[v] && counts[v] >= 1
  {
    if |dice| == 0 then map[]
    else
      var prefix := dice[..|dice| - 1];
      var v := dice[|dice| - 1];
      assert dice == prefix + [v];
      var counts := GetCounts(prefix);
      counts[v := (if v in counts then counts[v] else 0) + 1]
  }

  /** `Object.values(counts)` with the keys listed in the order `keys`. */
  function CountsIn(counts: map<int, nat>, keys: seq<int>): seq<int>
    requires forall i :: 0 <= i < |keys| ==> keys[i] in counts
  {
    if |keys| == 0 then []
    else
      [counts[keys[0]]] + CountsIn(counts, keys[1..])
  }

  /** How many elements of `m` are listed in `keys`. */
  ghost function Occurrences(m: multiset<int>, keys: seq<int>): int {
    if |keys| == 0 then 0 else m[keys[0]] + Occurrences(m, keys[1..])
  }

  lemma {:induction false} OccurrencesAdd(m: multiset<int>, e: int, keys: seq<int>)
    requires Distinct(keys)
    ensures Occurrences(m + multiset{e}, keys) == Occurrences(m, keys) + (if e in keys then 1 else 0)
  {
    if |keys| > 0 {
      assert Distinct(keys[1..]);
      assert e in keys <==> e == keys[0] || e in keys[1..];
      assert keys[0] !in keys[1..];
      OccurrencesAdd(m, e, keys[1..]);
    }
  }

  lemma {:induction false} OccurrencesOfDice(dice: seq<int>, keys: seq<int>)
    requires Distinct(keys)
    requires forall v :: v in dice ==> v in keys
    ensures Occurrences(multiset(dice), keys) == |dice|
    decreases |dice|
  {
    if |dice| == 0 {
      OccurrencesOfEmpty(keys);
    } else {
      var prefix := dice[..|dice| - 1];
      var v := dice[|dice| - 1];
      assert dice == prefix + [v];
      assert v in dice;
      OccurrencesOfDice(prefix, keys);
      OccurrencesAdd(multiset(prefix), v, keys);
    }
  }

  lemma {:induction false} OccurrencesOfEmpty(keys: seq<int>)
    ensures Occurrences(multiset{}, keys) == 0
  {
    if |keys| > 0 {
      OccurrencesOfEmpty(keys[1..]);
    }
  }

  lemma {:induction false} CountsInOccurrences(dice: seq<int>, keys: seq<int>)
    requires forall i :: 0 <= i < |keys| ==> keys[i] in dice
    ensures forall i :: 0 <= i < |keys| ==> keys[i] in GetCounts(dice)
    ensures Sum(CountsIn(GetCounts(dice), keys)) == Occurrences(multiset(dice), keys)
  {
    if |keys| > 0 {
      assert forall i :: 0 <= i < |keys[1..]| ==> keys[1..][i] == keys[i + 1];
      CountsInOccurrences(dice, keys[1..]);
      SumCons(GetCounts(dice)[keys[0]], CountsIn(GetCounts(dice), keys[1..]));
    }
  }

  /** The counts `getCounts` reports add up to the number of dice, whatever
      order their keys are listed in. */
  lemma CountsSumToDice(dice: seq<int>, keys: seq<int>)
    requires Distinct(keys)
    requires forall k :: k in keys <==> k in dice
    ensures forall i :: 0 <= i < |keys| ==> keys[i] in GetCounts(dice)
    ensures Sum(CountsIn(GetCounts(dice), keys)) == |dice|
  {
    assert forall i :: 0 <= i < |keys| ==> keys[i] in keys;
    CountsInOccurrences(dice, keys);
    OccurrencesOfDice(dice, keys);
  }

  /** Every die shows one of the six faces. */
  predicate Faces(dice: seq<int>) {
    forall x :: x in dice ==> 1 <= x <= 6
  }

  /** Some value shows on at least `n` of the dice. */
  ghost predicate HasOfAKind(dice: seq<int>, n: int) {
    exists v :: v in dice && multiset(dice)[v] >= n
  }

  /** `checkOfAKind`: the sum of all dice if some value occurs at least `count`
      times, otherwise 0. */
  function CheckOfAKind(dice: seq<int>, count: int): (r: int)
    ensures HasOfAKind(dice, count) ==> r == Sum(dice)
    ensures !HasOfAKind(dice, count) ==> r == 0
  {
    var counts := GetCounts(dice);
    if exists v :: v in counts && counts[v] >= count then Sum(dice) else 0
  }

  /** Some value shows on exactly three dice and some value on exactly two. */
  ghost predicate HasFullHouse(dice: seq<int>) {
    && (exists v :: v in dice && multiset(dice)[v] == 3)
    && (exists w :: w in dice && multiset(dice)[w] == 2)
  }

  /** `checkFullHouse`: 25 when the counts include both a 3 and a 2, else 0. */
  function CheckFullHouse(dice: seq<int>): (r: int)
    ensures HasFullHouse(dice) ==> r == 25
    ensures !HasFullHouse(dice) ==> r == 0
  {
    var counts := GetCounts(dice);
    if (exists v :: v in counts && counts[v] == 3) && (exists w :: w in counts && counts[w] == 2)
    then 25 else 0
  }

  /** Positions `a` to `a + length` of `u` hold consecutive integers. */
  ghost predicate RunAt(u: seq<int>, a: int, length: int) {
    0 <= a && a + length <= |u| && forall k :: a < k < a + length ==> u[k] == u[k - 1] + 1
  }

  /** Every integer from `x` up to `x + length` is among the values. */
  ghost predicate RunFrom(values: seq<int>, x: int, length: int) {
    forall v :: x <= v < x + length ==> v in values
  }

  /** The distinct dice values contain `length` consecutive integers. */
  ghost predicate HasStraight(dice: seq<int>, length: int) {
    exists x :: RunFrom(dice, x, length)
  }

  /** The loop of `checkStraight` at index `i`, `count` being the length of the
      run of consecutive values that ends at `i - 1`. */
  function ScanRun(u: seq<int>, length: int, i: nat, count: int): (r: bool)
    requires 1 <= i && 1 <= count
    ensures r ==> length >= 2
    decreases |u| - i
  {
    if i >= |u| then false
    else if u[i] == u[i - 1] + 1 then
      if count + 1 == length then true else ScanRun(u, length, i + 1, count + 1)
    else ScanRun(u, length, i + 1, 1)
  }

  /** `checkStraight`: the sorted distinct values are scanned for `length`
      consecutive integers. */
  function CheckStraight(dice: seq<int>, length: int): (r: bool)
    ensures r ==> length >= 2
  {
    ScanRun(DefaultSort(Unique(dice)), length, 1, 1)
  }

  /** `diceValues.filter(val => val === face)`. */
  function Matching(dice: seq<int>, face: int): (r: seq<int>)
    ensures |r| == multiset(dice)[face]
    ensures forall x :: x in r ==> x == face
  {
    if |dice| == 0 then []
    else
      var prefix := dice[..|dice| - 1];
      assert dice == prefix + [dice[|dice| - 1]];
      if dice[|dice| - 1] == face then Matching(prefix, face) + [face] else Matching(prefix, face)
  }

  lemma {:induction false} SumOfCopies(xs: seq<int>, v: int)
    requires forall x :: x in xs ==> x == v
    ensures Sum(xs) == v * |xs|
  {
    if |xs| > 0 {
      var xs' := xs[..|xs| - 1];
      assert forall x :: x in xs' ==> x in xs;
      assert xs[|xs| - 1] in xs;
      SumOfCopies(xs', v);
      assert v * |xs| == v * |xs'| + v;
    }
  }

  /** Aces to Sixes: the dice showing `face`, summed. */
  function Upper(dice: seq<int>, face: int): (r: int)
    ensures r == face * multiset(dice)[face]
  {
    SumOfCopies(Matching(dice, face), face);
    Sum(Matching(dice, face))
  }

  /** The rule of each category, as the cases of `calculateScore` apply it. */
  function Score(c: Category, dice: seq<int>): (r: int)
    ensures c == Aces ==> r == multiset(dice)[1]
    ensures c == Twos ==> r == 2 * multiset(dice)[2]
    ensures c == Threes ==> r == 3 * multiset(dice)[3]
    ensures c == Fours ==> r == 4 * multiset(dice)[4]
    ensures c == Fives ==> r == 5 * multiset(dice)[5]
    ensures c == Sixes ==> r == 6 * multiset(dice)[6]
    ensures c == ThreeOfAKind ==> r == (if HasOfAKind(dice, 3) then Sum(dice) else 0)
    ensures c == FourOfAKind ==> r == (if HasOfAKind(dice, 4) then Sum(dice) else 0)
    ensures c == FullHouse ==> r == (if HasFullHouse(dice) then 25 else 0)
    ensures c == SmallStraight ==> r == 0 || r == 30
    ensures c == LargeStraight ==> r == 0 || r == 40
    ensures c == Yatzy ==> r == (if HasOfAKind(dice, 5) && Sum(dice) != 0 then 50 else 0)
    ensures c == Chance ==> r == Sum(dice)
  {
    match c
    case Aces => Upper(dice, 1)
    case Twos => Upper(dice, 2)
    case Threes => Upper(dice, 3)
    case Fours => Upper(dice, 4)
    case Fives => Upper(dice, 5)
    case Sixes => Upper(dice, 6)
    case ThreeOfAKind => CheckOfAKind(dice, 3)
    case FourOfAKind => CheckOfAKind(dice, 4)
    case FullHouse => CheckFullHouse(dice)
    case SmallStraight => if CheckStraight(dice, 4) then 30 else 0
    case LargeStraight => if CheckStraight(dice, 5) then 40 else 0
    // `checkOfAKind(diceValues, 5) ? 50 : 0`: any non-zero sum is truthy
    case Yatzy => if CheckOfAKind(dice, 5) != 0 then 50 else 0
    case Chance => Sum(dice)
  }

  /** `calculateScore(category, diceValues)`: the score of a known category, or
      an unknown-category error for any other name. */
  function CalculateScore(category: string, dice: seq<int>): (r: Result<int>)
    ensures r.Err? <==> category !in Names
    ensures r.Err? ==> r.error == UnknownCategory(category)
    ensures r.Ok? ==> exists c :: Name(c) == category && r.value == Score(c, dice)
  {
    NamesAreCategoryNames();
    match Parse(category)
    case Ok(c) => Ok(Score(c, dice))
    case Err(e) => Err(e)
  }

  /** Every category name is scored by that category's rule. */
  lemma CalculateScoreOfName(c: Category, dice: seq<int>)
    ensures CalculateScore(Name(c), dice) == Ok(Score(c, dice))
  {
    ParseName(c);
  }

  /** `scoreTable` of a fresh engine: each category name at 0. */
  function InitialTable(): (t: map<string, int>)
    ensures forall n :: n in t <==> n in Names
    ensures forall n :: n in t ==> t[n] == 0
  {
    map n | n in Names :: 0
  }
}
