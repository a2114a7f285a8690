/** Class `Variable` of lib/field.py: numeric values with inclusive and
    inverted range selection and summation over the current subset. */
module Variables {
  import opened Seqs
  import opened Selection

  /** One bound of a range query: a real number or anything else. */
  datatype Bound = Numeric(x: real) | NonNumeric

  /** The `min_max` argument: a list of bounds, or something that is not a list. */
  datatype RangeArg = NotAList | Bounds(items: seq<Bound>)

  /** What `get_indices_in_range` returns: a negative sentinel for a
      malformed argument, or the matching indices. */
  datatype RangeAnswer = Sentinel(code: int) | Matches(indices: seq<nat>)

  const NotAListCode: int := -1
  const WrongArityCode: int := -2
  const NonNumericCode: int := -3

  ghost predicate Inside(v: real, lo: real, hi: real) {
    lo <= v <= hi
  }

  ghost predicate Outside(v: real, lo: real, hi: real) {
    v < lo || v > hi
  }

  /** A list of exactly two numeric bounds. */
  ghost predicate WellFormed(arg: RangeArg) {
    arg.Bounds? && |arg.items| == 2 && arg.items[0].Numeric? && arg.items[1].Numeric?
  }

  /** `get_indices_in_range(min_max, invert)`. The shape checks run in order:
      not a list, then not two entries, then a non-numeric entry. */
  function GetIndicesInRange(values: seq<real>, minMax: RangeArg, invert: bool): (r: RangeAnswer)
    ensures minMax.NotAList? <==> r == Sentinel(NotAListCode)
    ensures (minMax.Bounds? && |minMax.items| != 2) <==> r == Sentinel(WrongArityCode)
    ensures (minMax.Bounds? && |minMax.items| == 2 && !WellFormed(minMax)) <==>
      r == Sentinel(NonNumericCode)
    ensures r.Matches? <==> WellFormed(minMax)
    ensures r.Matches? ==>
      var lo, hi := minMax.items[0].x, minMax.items[1].x;
      && StrictlyIncreasing(r.indices)
      && forall i :: i in r.indices <==>
           0 <= i < |values| && (if invert then Outside(values[i], lo, hi) else Inside(values[i], lo, hi))
  {
    match minMax
    case NotAList => Sentinel(NotAListCode)
    case Bounds(items) =>
      if |items| != 2 then Sentinel(WrongArityCode)
      else if !(items[0].Numeric? && items[1].Numeric?) then Sentinel(NonNumericCode)
      else
        var lo, hi := items[0].x, items[1].x;
        if invert then Matches(IndicesWhere(values, v => v < lo || v > hi))
        else Matches(IndicesWhere(values, v => lo <= v <= hi))
  }

  /** For well-formed bounds, the inclusive and the inverted selection are
      disjoint and together hold every index exactly once. */
  lemma RangeSplit(values: seq<real>, lo: real, hi: real)
    ensures var arg := Bounds([Numeric(lo), Numeric(hi)]);
      var inside, outside := GetIndicesInRange(values, arg, false), GetIndicesInRange(values, arg, true);
      && inside.Matches? && outside.Matches?
      && (forall i :: i in inside.indices ==> i !in outside.indices)
      && (forall i :: 0 <= i < |values| ==> i in inside.indices || i in outside.indices)
      && |inside.indices| + |outside.indices| == |values|
  {
    IndicesWherePartition(values, v => lo <= v <= hi, v => v < lo || v > hi);
  }

  /** Python's `functools.reduce(add, s)`: a left fold with no start value. */
  function Reduce(s: seq<real>): real
    requires |s| > 0
  {
    if |s| == 1 then s[0] else Reduce(s[..|s| - 1]) + s[|s| - 1]
  }

  /** The arithmetic sum, as a reference: first element plus the sum of the rest. */
  function Total(s: seq<real>): real {
    if |s| == 0 then 0.0 else s[0] + Total(s[1..])
  }

  lemma {:induction false} TotalAppend(s: seq<real>, x: real)
    ensures Total(s + [x]) == Total(s) + x
    decreases |s|
  {
    if |s| > 0 {
      assert (s + [x])[1..] == s[1..] + [x];
      TotalAppend(s[1..], x);
    } else {
      assert s + [x] == [x];
    }
  }

  /** The left fold of `reduce` is the arithmetic sum. */
  lemma {:induction false} ReduceIsTotal(s: seq<real>)
    requires |s| > 0
    ensures Reduce(s) == Total(s)
    decreases |s|
  {
    if |s| == 1 {
      assert s == [] + [s[0]];
      TotalAppend([], s[0]);
    } else {
      ReduceIsTotal(s[..|s| - 1]);
      TotalAppend(s[..|s| - 1], s[|s| - 1]);
      assert s == s[..|s| - 1] + [s[|s| - 1]];
    }
  }

  /** `sum_values`: `reduce` over the subset, where the `TypeError` an empty
      subset raises yields 0. */
  function SumValues(values: seq<real>, narrowing: Narrowing<real>): (total: real)
    ensures total == Total(Subset(values, narrowing))
    ensures Subset(values, narrowing) == [] ==> total == 0.0
  {
    var s := Subset(values, narrowing);
    if |s| == 0 then 0.0
    else
      ReduceIsTotal(s);
      Reduce(s)
  }

  /** Worked example: values 1, 5, 9 with bounds 0 and 6. */
  lemma RangeExample()
    ensures GetIndicesInRange([1.0, 5.0, 9.0], Bounds([Numeric(0.0), Numeric(6.0)]), false) == Matches([0, 1])
    ensures GetIndicesInRange([1.0, 5.0, 9.0], Bounds([Numeric(0.0), Numeric(6.0)]), true) == Matches([2])
  {
    var values, arg := [1.0, 5.0, 9.0], Bounds([Numeric(0.0), Numeric(6.0)]);
    var inside, outside := GetIndicesInRange(values, arg, false), GetIndicesInRange(values, arg, true);
    assert WellFormed(arg);
    forall i
      ensures i in inside.indices <==> i in [0, 1]
      ensures i in outside.indices <==> i in [2]
    {
    }
    StrictlyIncreasingUnique(inside.indices, [0, 1]);
    StrictlyIncreasingUnique(outside.indices, [2]);
  }

  /** Worked example of the three sentinels. */
  lemma SentinelExample()
    ensures GetIndicesInRange([1.0], NotAList, false) == Sentinel(-1)
    ensures GetIndicesInRange([1.0], Bounds([Numeric(1.0), Numeric(2.0), Numeric(3.0)]), false) == Sentinel(-2)
    ensures GetIndicesInRange([1.0], Bounds([NonNumeric, NonNumeric]), false) == Sentinel(-3)
  {
  }
}
