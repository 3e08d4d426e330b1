/** The few JavaScript array behaviours the game relies on: reading an element
    as a condition, writing at any index, `fill`, and summing with `reduce`. */
module JsArrays {

  /** `a[i]` used as a condition. An index outside the array reads `undefined`,
      which is falsy. */
  predicate Truthy(a: seq<bool>, i: int) {
    0 <= i < |a| && a[i]
  }

  /** `a[i] = b` on a boolean array. A negative index sets a named property and
      leaves every element alone; an index at or past the end grows the array,
      and the holes in between read as falsy. */
  function Store(a: seq<bool>, i: int, b: bool): (r: seq<bool>)
    ensures i < 0 ==> r == a
    ensures 0 <= i ==> |r| == (if i < |a| then |a| else i + 1)
    ensures forall j :: Truthy(r, j) == (if 0 <= i && j == i then b else Truthy(a, j))
  {
    if i < 0 then a
    else if i < |a| then a[i := b]
    else a + seq(i - |a|, _ => false) + [b]
  }

  /** `a.fill(b)`: every element becomes `b`; the length is kept. */
  function Fill(a: seq<bool>, b: bool): (r: seq<bool>)
    ensures |r| == |a|
    ensures forall j :: 0 <= j < |r| ==> r[j] == b
  {
    seq(|a|, _ => b)
  }

  /** `xs.reduce((sum, val) => sum + val, 0)`, folding from the left. */
  function Sum(xs: seq<int>): (r: int)
    ensures (forall i :: 0 <= i < |xs| ==> xs[i] == 0) ==> r == 0
    ensures (forall i :: 0 <= i < |xs| ==> xs[i] >= 0) ==> r >= 0
  {
    if |xs| == 0 then 0 else Sum(xs[..|xs| - 1]) + xs[|xs| - 1]
  }

  lemma {:induction false} SumAppend(xs: seq<int>, ys: seq<int>)
    ensures Sum(xs + ys) == Sum(xs) + Sum(ys)
    decreases |ys|
  {
    if |ys| > 0 {
      var ys' := ys[..|ys| - 1];
      assert (xs + ys)[..|xs + ys| - 1] == xs + ys';
      assert (xs + ys)[|xs + ys| - 1] == ys[|ys| - 1];
      SumAppend(xs, ys');
      calc {
        Sum(xs + ys);
        Sum(xs + ys') + ys[|ys| - 1];
        Sum(xs) + Sum(ys') + ys[|ys| - 1];
        Sum(xs) + Sum(ys);
      }
    } else {
      assert xs + ys == xs;
    }
  }

  lemma SumCons(x: int, xs: seq<int>)
    ensures Sum([x] + xs) == x + Sum(xs)
  {
    SumAppend([x], xs);
  }

  /** Summing non-negative values gives a non-negative total; summing values
      that are at least 1 gives at least the number of values. */
  lemma {:induction false} SumLowerBound(xs: seq<int>)
    ensures (forall x :: x in xs ==> x >= 0) ==> Sum(xs) >= 0
    ensures (forall x :: x in xs ==> x >= 1) ==> Sum(xs) >= |xs|
  {
    if |xs| > 0 {
      var xs' := xs[..|xs| - 1];
      assert forall x :: x in xs' ==> x in xs;
      assert xs[|xs| - 1] in xs;
      SumLowerBound(xs');
    }
  }

  /** Replacing one value changes the sum by the difference. */
  lemma {:induction false} SumUpdate(xs: seq<int>, i: int, v: int)
    requires 0 <= i < |xs|
    ensures Sum(xs[i := v]) == Sum(xs) - xs[i] + v
    decreases |xs|
  {
    var n := |xs| - 1;
    if i < n {
      assert xs[i := v][..n] == xs[..n][i := v];
      SumUpdate(xs[..n], i, v);
    } else {
      assert xs[i := v][..n] == xs[..n];
    }
  }
}
