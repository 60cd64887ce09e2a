/** A model of the statistics and formatting helpers of the weather report
    module: the mean of a list of readings, the minimum and maximum of a list
    together with the last position at which each occurs, and the rendering
    of a temperature with the degree-Celsius suffix.

    Readings are unbounded integers and the mean is an exact real. Lists are
    immutable sequences, so none of the operations can alter its input. */
module Weather {

  /** The absent/present result of an extremum search; `None` stands for the
      `(None, None)` pair the module returns for an empty list. */
  datatype Option<T> = None | Some(value: T)

  // ---------------------------------------------------------------------------
  // Temperature formatting
  // ---------------------------------------------------------------------------

  /** The two-character suffix: the degree sign followed by "C". */
  const DegreeSymbol: string := "\U{00B0}C"

  /** Appends the degree-Celsius suffix to an already rendered temperature. */
  function FormatTemperature(temp: string): (r: string)
    ensures |r| == |temp| + 2
    ensures r[..|temp|] == temp
    ensures r[|temp|] == '\U{00B0}' && r[|temp| + 1] == 'C'
  {
    temp + DegreeSymbol
  }

  /** Two different temperatures never render to the same text. */
  lemma FormatTemperatureInjective(t1: string, t2: string)
    requires FormatTemperature(t1) == FormatTemperature(t2)
    ensures t1 == t2
  {
  }

  /** Formatting the text `25` gives `25°C`. */
  lemma FormatTemperatureExample()
    ensures FormatTemperature("25") == "25\U{00B0}C"
  {
  }

  // ---------------------------------------------------------------------------
  // Mean
  // ---------------------------------------------------------------------------

  /** Sum of a list taken from the front: the first element plus the sum of
      the rest. A reference definition that `Sum` is proved to agree with. */
  ghost function SumFromFront(a: seq<int>): int
  {
    if |a| == 0 then 0 else a[0] + SumFromFront(a[1..])
  }

  /** Adding one element at the end of a list adds it to the front-first sum. */
  lemma {:induction false} SumFromFrontSnoc(a: seq<int>, x: int)
    ensures SumFromFront(a + [x]) == SumFromFront(a) + x
  {
    if |a| > 0 {
      assert (a + [x])[1..] == a[1..] + [x];
      SumFromFrontSnoc(a[1..], x);
    }
  }

  /** Sum of a list, accumulated from the left starting at 0 as the built-in
      `sum` does. It equals the sum taken from the front, so the order of
      accumulation does not change the total. */
  function Sum(a: seq<int>): (s: int)
    ensures s == SumFromFront(a)
  {
    if |a| == 0 then 0
    else
      var init := a[..|a| - 1];
      SumFromFrontSnoc(init, a[|a| - 1]);
      assert init + [a[|a| - 1]] == a;
      Sum(init) + a[|a| - 1]
  }

  /** The mean of a list: 0.0 when it is empty, otherwise its sum divided by
      its length. */
  function Mean(a: seq<int>): (m: real)
    ensures |a| == 0 ==> m == 0.0
    ensures |a| > 0 ==> m * (|a| as real) == Sum(a) as real
  {
    if |a| == 0 then 0.0 else Sum(a) as real / |a| as real
  }

  /** A sum of `n` readings all within `[lo, hi]` lies within `[n * lo, n * hi]`. */
  lemma {:induction false} SumBounds(a: seq<int>, lo: int, hi: int)
    requires forall j :: 0 <= j < |a| ==> lo <= a[j] <= hi
    ensures |a| * lo <= Sum(a) <= |a| * hi
  {
    if |a| > 0 {
      var init := a[..|a| - 1];
      assert forall j :: 0 <= j < |init| ==> init[j] == a[j];
      SumBounds(init, lo, hi);
      assert |a| * lo == |init| * lo + lo;
      assert |a| * hi == |init| * hi + hi;
    }
  }

  /** Dividing by a positive count keeps a scaled bound: from `n * lo <= s`
      follows `lo <= s / n`, and likewise for the upper bound. */
  lemma ScaledBound(n: int, s: int, lo: int, hi: int)
    requires n > 0 && n * lo <= s <= n * hi
    ensures lo as real <= s as real / n as real <= hi as real
  {
  }

  /** The mean of a non-empty list lies between its minimum and its maximum. */
  lemma MeanBetweenExtrema(a: seq<int>)
    requires |a| > 0
    ensures SeqMin(a) as real <= Mean(a) <= SeqMax(a) as real
  {
    SumBounds(a, SeqMin(a), SeqMax(a));
    ScaledBound(|a|, Sum(a), SeqMin(a), SeqMax(a));
  }

  /** A list whose readings are all equal has that reading as its mean. */
  lemma MeanOfConstant(a: seq<int>, c: int)
    requires |a| > 0
    requires forall j :: 0 <= j < |a| ==> a[j] == c
    ensures Mean(a) == c as real
  {
    MeanBetweenExtrema(a);
  }

  // ---------------------------------------------------------------------------
  // Minimum and maximum with the last index of their occurrence
  // ---------------------------------------------------------------------------

  /** The built-in `min` over a non-empty list. */
  function SeqMin(a: seq<int>): (m: int)
    requires |a| > 0
    ensures m in a
    ensures forall j :: 0 <= j < |a| ==> m <= a[j]
  {
    if |a| == 1 then a[0]
    else
      var rest := SeqMin(a[1..]);
      if a[0] <= rest then a[0] else rest
  }

  /** The built-in `max` over a non-empty list. */
  function SeqMax(a: seq<int>): (m: int)
    requires |a| > 0
    ensures m in a
    ensures forall j :: 0 <= j < |a| ==> a[j] <= m
  {
    if |a| == 1 then a[0]
    else
      var rest := SeqMax(a[1..]);
      if a[0] >= rest then a[0] else rest
  }

  /** `v` occurs at index `k` of `a` and at no later index. */
  ghost predicate IsLastIndexOf(a: seq<int>, v: int, k: nat)
  {
    k < |a| && a[k] == v && forall j :: k < j < |a| ==> a[j] != v
  }

  /** `v` occurs in `a` and is at most every element. */
  ghost predicate IsMinimum(a: seq<int>, v: int)
  {
    v in a && forall j :: 0 <= j < |a| ==> v <= a[j]
  }

  /** `v` occurs in `a` and is at least every element. */
  ghost predicate IsMaximum(a: seq<int>, v: int)
  {
    v in a && forall j :: 0 <= j < |a| ==> a[j] <= v
  }

  /** The minimum of a list and the last index at which it occurs, or `None`
      for an empty list. */
  method FindMin(a: seq<int>) returns (r: Option<(int, nat)>)
    ensures r.None? <==> |a| == 0
    ensures r.Some? ==> IsMinimum(a, r.value.0) && IsLastIndexOf(a, r.value.0, r.value.1)
  {
    if |a| == 0 {
      return None;
    }
    var minValue := SeqMin(a);
    var lastIndex: Option<nat> := None;
    for i := 0 to |a|
      invariant lastIndex.None? ==> minValue !in a[..i]
      invariant lastIndex.Some? ==> IsLastIndexOf(a[..i], minValue, lastIndex.value)
    {
      if a[i] == minValue {
        lastIndex := Some(i);
      }
    }
    assert a[..|a|] == a;
    return Some((minValue, lastIndex.value));
  }

  /** The maximum of a list and the last index at which it occurs, or `None`
      for an empty list. */
  method FindMax(a: seq<int>) returns (r: Option<(int, nat)>)
    ensures r.None? <==> |a| == 0
    ensures r.Some? ==> IsMaximum(a, r.value.0) && IsLastIndexOf(a, r.value.0, r.value.1)
  {
    if |a| == 0 {
      return None;
    }
    var maxValue := SeqMax(a);
    var lastIndex: Option<nat> := None;
    for i := 0 to |a|
      invariant lastIndex.None? ==> maxValue !in a[..i]
      invariant lastIndex.Some? ==> IsLastIndexOf(a[..i], maxValue, lastIndex.value)
    {
      if a[i] == maxValue {
        lastIndex := Some(i);
      }
    }
    assert a[..|a|] == a;
    return Some((maxValue, lastIndex.value));
  }

  /** The last index of a value, when it has one, is unique: the postconditions
      of FindMin and FindMax fix the returned index as well as the value. */
  lemma LastIndexUnique(a: seq<int>, v: int, k1: nat, k2: nat)
    requires IsLastIndexOf(a, v, k1) && IsLastIndexOf(a, v, k2)
    ensures k1 == k2
  {
  }

  /** The documented tie-break: in [1, 5, 3, 5, 2] the maximum 5 occurs at
      indices 1 and 3, and the search reports index 3. */
  method FindMaxExample()
  {
    var a := [1, 5, 3, 5, 2];
    var r := FindMax(a);
    assert a[1] == 5 && a[3] == 5;
    assert r.value.0 == 5;
    assert IsLastIndexOf(a, 5, 3);
    LastIndexUnique(a, 5, r.value.1, 3);
    assert r == Some((5, 3));
  }
}
