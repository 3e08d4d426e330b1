/** `[...new Set(values)].sort()` on integers, the way `checkStraight` orders the
    dice: duplicates dropped in order of first occurrence, then the default
    `Array.prototype.sort`, which compares elements as decimal strings. */
module JsSort {

  predicate Distinct(s: seq<int>) {
    forall i, j :: 0 <= i < j < |s| ==> s[i] != s[j]
  }

  predicate StrictlyIncreasing(s: seq<int>) {
    forall i, j :: 0 <= i < j < |s| ==> s[i] < s[j]
  }

  /** Every element is a single decimal digit; on these the string order of the
      default sort coincides with numeric order. */
  predicate AllDigits(s: seq<int>) {
    forall x :: x in s ==> 0 <= x <= 9
  }

  function Digit(d: int): char
    requires 0 <= d <= 9
  {
    (48 + d) as char
  }

  /** `String(n)` for an integer `n`. */
  function DecimalString(n: int): (s: string)
    ensures |s| >= 1
    decreases if n < 0 then 1 - n else n
  {
    if n < 0 then "-" + DecimalString(-n)
    else if n < 10 then [Digit(n)]
    else DecimalString(n / 10) + [Digit(n % 10)]
  }

  /** `a < b` on strings: code units compared from the left, a proper prefix first. */
  predicate StringLess(a: string, b: string) {
    if |a| == 0 then |b| > 0
    else if |b| == 0 then false
    else if a[0] != b[0] then a[0] < b[0]
    else StringLess(a[1..], b[1..])
  }

  /** The default comparator of `Array.prototype.sort`. */
  predicate SortsBefore(x: int, y: int) {
    StringLess(DecimalString(x), DecimalString(y))
  }

  lemma SingleDigitOrder(x: int, y: int)
    ensures 0 <= x <= 9 && 0 <= y <= 9 ==> (SortsBefore(x, y) <==> x < y)
  {
    if 0 <= x <= 9 && 0 <= y <= 9 {
      assert DecimalString(x) == [Digit(x)];
      assert DecimalString(y) == [Digit(y)];
      assert (Digit(x) < Digit(y)) == (x < y);
      if x != y {
        assert Digit(x) != Digit(y);
        assert SortsBefore(x, y) == (Digit(x) < Digit(y));
      } else {
        assert [Digit(x)][1..] == [];
        assert !StringLess([], []);
      }
    }
  }

  lemma {:induction false} StringLessIrreflexive(a: string)
    ensures !StringLess(a, a)
  {
    if |a| > 0 {
      StringLessIrreflexive(a[1..]);
    }
  }

  lemma {:induction false} StringLessAsymmetric(a: string, b: string)
    ensures !(StringLess(a, b) && StringLess(b, a))
  {
    if |a| > 0 && |b| > 0 && a[0] == b[0] {
      StringLessAsymmetric(a[1..], b[1..]);
    }
  }

  lemma {:induction false} StringLessTransitive(a: string, b: string, c: string)
    requires StringLess(a, b) && StringLess(b, c)
    ensures StringLess(a, c)
  {
    if |a| > 0 && a[0] == b[0] && b[0] == c[0] {
      StringLessTransitive(a[1..], b[1..], c[1..]);
    }
  }

  /** No element sorts before an element in front of it: the order the default
      comparator leaves behind. */
  predicate SortedByString(s: seq<int>) {
    forall i, j :: 0 <= i < j < |s| ==> !SortsBefore(s[j], s[i])
  }

  lemma PrependSorted(a: int, t: seq<int>)
    requires SortedByString(t)
    requires forall y :: y in t ==> !SortsBefore(y, a)
    ensures SortedByString([a] + t)
  {
    forall i, j | 0 <= i < j < |[a] + t|
      ensures !SortsBefore(([a] + t)[j], ([a] + t)[i])
    {
      assert ([a] + t)[j] == t[j - 1];
      assert t[j - 1] in t;
      if i > 0 {
        assert ([a] + t)[i] == t[i - 1];
      }
    }
  }

  /** Inserts `x` in front of the first element that sorts after it, so equal
      elements keep their order (the default sort is stable). */
  function Insert(x: int, s: seq<int>): (r: seq<int>)
    ensures |r| == |s| + 1
    ensures multiset(r) == multiset(s) + multiset{x}
    ensures forall y :: y in r <==> y == x || y in s
  {
    if |s| == 0 then [x]
    else
      assert s == [s[0]] + s[1..];
      if SortsBefore(x, s[0]) then [x] + s
      else [s[0]] + Insert(x, s[1..])
  }

  /** Inserting into a sorted sequence keeps it sorted. */
  lemma {:induction false} InsertSorted(x: int, s: seq<int>)
    requires SortedByString(s)
    ensures SortedByString(Insert(x, s))
  {
    if |s| > 0 {
      SortedTail(s);
      if SortsBefore(x, s[0]) {
        forall y | y in s
          ensures !SortsBefore(y, x)
        {
          var j :| 0 <= j < |s| && s[j] == y;
          StringLessAsymmetric(DecimalString(x), DecimalString(s[0]));
          if j > 0 && SortsBefore(y, x) {
            StringLessTransitive(DecimalString(y), DecimalString(x), DecimalString(s[0]));
          }
        }
        PrependSorted(x, s);
      } else {
        InsertSorted(x, s[1..]);
        PrependSorted(s[0], Insert(x, s[1..]));
      }
    }
  }

  /** On distinct single digits, inserting a new digit keeps the sequence
      strictly increasing. */
  lemma {:induction false} InsertIncreasing(x: int, s: seq<int>)
    ensures AllDigits(s) && 0 <= x <= 9 && StrictlyIncreasing(s) && x !in s ==>
      StrictlyIncreasing(Insert(x, s))
  {
    if |s| > 0 && AllDigits(s) && 0 <= x <= 9 && StrictlyIncreasing(s) && x !in s {
      SingleDigitOrder(x, s[0]);
      if !SortsBefore(x, s[0]) {
        assert forall y :: y in s[1..] ==> y in s;
        assert forall y :: y in s[1..] ==> s[0] < y;
        assert s[0] in s;
        assert s[0] < x;
        assert AllDigits(s[1..]) && StrictlyIncreasing(s[1..]) && x !in s[1..];
        InsertIncreasing(x, s[1..]);
        PrependIncreasing(s[0], Insert(x, s[1..]));
      } else {
        assert forall y :: y in s ==> x < y by {
          forall y | y in s
            ensures x < y
          {
            var j :| 0 <= j < |s| && s[j] == y;
          }
        }
        PrependIncreasing(x, s);
      }
    }
  }

  /** In a sorted sequence nothing after the head sorts before it. */
  lemma SortedTail(s: seq<int>)
    requires |s| > 0
    ensures SortedByString(s) ==> SortedByString(s[1..])
    ensures SortedByString(s) ==> forall y :: y in s[1..] ==> !SortsBefore(y, s[0])
  {
    if SortedByString(s) {
      forall y | y in s[1..]
        ensures !SortsBefore(y, s[0])
      {
        var j :| 0 <= j < |s[1..]| && s[1..][j] == y;
        assert s[j + 1] == y;
      }
    }
  }

  lemma PrependIncreasing(a: int, t: seq<int>)
    requires StrictlyIncreasing(t)
    requires forall y :: y in t ==> a < y
    ensures StrictlyIncreasing([a] + t)
  {
    forall i, j | 0 <= i < j < |[a] + t|
      ensures ([a] + t)[i] < ([a] + t)[j]
    {
      assert ([a] + t)[j] == t[j - 1];
      assert t[j - 1] in t;
      if i > 0 {
        assert ([a] + t)[i] == t[i - 1];
      }
    }
  }

  /** `s.sort()` with no comparator: a permutation of `s` in which no element
      sorts before one in front of it. */
  function DefaultSort(s: seq<int>): (r: seq<int>)
    ensures |r| == |s|
    ensures multiset(r) == multiset(s)
    ensures forall y :: y in r <==> y in s
    ensures SortedByString(r)
    ensures AllDigits(s) && Distinct(s) ==> StrictlyIncreasing(r)
  {
    if |s| == 0 then []
    else
      var s' := s[..|s| - 1];
      assert s == s' + [s[|s| - 1]];
      assert forall y :: y in s' ==> y in s;
      assert Distinct(s) ==> Distinct(s') && s[|s| - 1] !in s';
      var t := DefaultSort(s');
      InsertSorted(s[|s| - 1], t);
      InsertIncreasing(s[|s| - 1], t);
      Insert(s[|s| - 1], t)
  }

  /** `[...new Set(s)]`: the distinct elements in order of first occurrence. */
  function Unique(s: seq<int>): (r: seq<int>)
    ensures forall y :: y in r <==> y in s
    ensures Distinct(r)
    ensures |r| <= |s|
  {
    if |s| == 0 then []
    else
      var s' := s[..|s| - 1];
      assert s == s' + [s[|s| - 1]];
      var u := Unique(s');
      if s[|s| - 1] in u then u else u + [s[|s| - 1]]
  }
}
