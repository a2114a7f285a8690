/** Sequence vocabulary shared by the field model: optional values,
    duplicate-freedom, the set of a sequence's elements, first positions and
    the ascending positions whose element satisfies a predicate. */
module Seqs {

  /** Python's "value or None". */
  datatype Option<+T> = None | Some(value: T) {
    function GetOr(default: T): T {
      match this
      case Some(v) => v
      case None => default
    }
  }

  /** No element occurs twice. */
  ghost predicate Distinct<T>(s: seq<T>) {
    forall i, j :: 0 <= i < j < |s| ==> s[i] != s[j]
  }

  /** Every element is smaller than every later one. */
  ghost predicate StrictlyIncreasing(s: seq<int>) {
    forall i, j :: 0 <= i < j < |s| ==> s[i] < s[j]
  }

  /** The elements of a sequence as a set (Python's `set(entries)`). */
  function ToSet<T>(s: seq<T>): set<T> {
    set x | x in s
  }

  /** Position of the first occurrence of `x` in `s`. */
  function IndexOf<T(==)>(s: seq<T>, x: T): (r: nat)
    requires x in s
    ensures r < |s| && s[r] == x
    ensures forall j :: 0 <= j < r ==> s[j] != x
  {
    if s[0] == x then 0 else 1 + IndexOf(s[1..], x)
  }

  /** The positions of `s`, in ascending order, whose element satisfies `p`
      (the positions a filtering list comprehension over an enumeration keeps). */
  function IndicesWhere<T>(s: seq<T>, p: T -> bool): (r: seq<nat>)
    ensures forall k :: 0 <= k < |r| ==> r[k] < |s| && p(s[r[k]])
    ensures forall i :: 0 <= i < |s| && p(s[i]) ==> i in r
    ensures StrictlyIncreasing(r)
    decreases |s|
  {
    if |s| == 0 then []
    else
      var front := IndicesWhere(s[..|s| - 1], p);
      front + (if p(s[|s| - 1]) then [|s| - 1] else [])
  }

  /** In a duplicate-free sequence an element's first position is its position. */
  lemma IndexOfDistinct<T>(s: seq<T>, i: nat)
    requires Distinct(s) && i < |s|
    ensures IndexOf(s, s[i]) == i
  {
  }

  /** Appending an element does not move the first occurrence of an earlier one. */
  lemma IndexOfAppend<T>(s: seq<T>, y: T, x: T)
    requires x in s
    ensures IndexOf(s + [y], x) == IndexOf(s, x)
  {
    var k := IndexOf(s, x);
    var k' := IndexOf(s + [y], x);
    assert (s + [y])[k] == x;
  }

  /** The set of a sequence has at most as many elements as the sequence, and
      exactly as many iff the sequence is duplicate-free. */
  lemma {:induction false} DistinctCardinality<T>(s: seq<T>)
    ensures |ToSet(s)| <= |s|
    ensures |ToSet(s)| == |s| <==> Distinct(s)
    decreases |s|
  {
    if |s| > 0 {
      var front, x := s[..|s| - 1], s[|s| - 1];
      assert s == front + [x];
      DistinctCardinality(front);
      assert ToSet(s) == ToSet(front) + {x};
      if x in front {
        var k :| 0 <= k < |front| && front[k] == x;
        assert s[k] == s[|s| - 1];
        assert ToSet(s) == ToSet(front);
        assert !Distinct(s);
      } else {
        assert x !in ToSet(front);
        assert |ToSet(s)| == |ToSet(front)| + 1;
        if Distinct(front) {
          forall i, j | 0 <= i < j < |s|
            ensures s[i] != s[j]
          {
            if j == |s| - 1 {
              assert s[i] in front;
            } else {
              assert s[i] == front[i] && s[j] == front[j];
            }
          }
        } else {
          var i, j :| 0 <= i < j < |front| && front[i] == front[j];
          assert s[i] == s[j];
        }
      }
    }
  }

  /** Two ascending sequences with the same elements are equal. */
  lemma {:induction false} StrictlyIncreasingUnique(a: seq<nat>, b: seq<nat>)
    requires StrictlyIncreasing(a) && StrictlyIncreasing(b)
    requires forall x :: x in a <==> x in b
    ensures a == b
    decreases |a| + |b|
  {
    assert |a| > 0 ==> a[0] in b;
    assert |b| > 0 ==> b[0] in a;
    if |a| > 0 && |b| > 0 {
      assert a[0] == b[0] by {
        assert a[0] in b && b[0] in a;
        var i :| 0 <= i < |b| && b[i] == a[0];
        var j :| 0 <= j < |a| && a[j] == b[0];
        assert b[0] <= b[i] && a[0] <= a[j];
      }
      forall x
        ensures x in a[1..] <==> x in b[1..]
      {
        if x in a[1..] {
          var i :| 1 <= i < |a| && a[i] == x;
          assert x in b && x != b[0];
        }
        if x in b[1..] {
          var i :| 1 <= i < |b| && b[i] == x;
          assert x in a && x != a[0];
        }
      }
      StrictlyIncreasingUnique(a[1..], b[1..]);
      assert a == [a[0]] + a[1..] && b == [b[0]] + b[1..];
    }
  }

  /** Positions satisfying `p` and positions satisfying its complement `q`
      together account for every position exactly once. */
  lemma {:induction false} IndicesWherePartition<T>(s: seq<T>, p: T -> bool, q: T -> bool)
    requires forall i :: 0 <= i < |s| ==> (q(s[i]) <==> !p(s[i]))
    ensures |IndicesWhere(s, p)| + |IndicesWhere(s, q)| == |s|
    decreases |s|
  {
    if |s| > 0 {
      var front := s[..|s| - 1];
      assert forall i :: 0 <= i < |front| ==> front[i] == s[i];
      IndicesWherePartition(front, p, q);
    }
  }

  /** Over a duplicate-free sequence, the number of positions whose element is
      in `n` is the number of members of `n` that occur in the sequence. */
  lemma {:induction false} MatchCount<T>(s: seq<T>, n: set<T>, p: T -> bool)
    requires Distinct(s)
    requires forall i :: 0 <= i < |s| ==> (p(s[i]) <==> s[i] in n)
    ensures |IndicesWhere(s, p)| == |ToSet(s) * n|
    decreases |s|
  {
    if |s| > 0 {
      var front := s[..|s| - 1];
      DistinctFront(s);
      assert forall i :: 0 <= i < |front| ==> front[i] == s[i];
      MatchCount(front, n, p);
      MatchCountStep(s, n, p);
    }
  }

  /** The step of `MatchCount`: the last element adds one match exactly when
      it is in `n`, on both sides. */
  lemma MatchCountStep<T>(s: seq<T>, n: set<T>, p: T -> bool)
    requires |s| > 0 && s[|s| - 1] !in ToSet(s[..|s| - 1])
    requires p(s[|s| - 1]) <==> s[|s| - 1] in n
    requires |IndicesWhere(s[..|s| - 1], p)| == |ToSet(s[..|s| - 1]) * n|
    ensures |IndicesWhere(s, p)| == |ToSet(s) * n|
  {
    var front, x := s[..|s| - 1], s[|s| - 1];
    assert |IndicesWhere(s, p)| == |IndicesWhere(front, p)| + (if p(x) then 1 else 0);
    ToSetAppend(front, x);
    assert s == front + [x];
    IntersectStep(ToSet(front), n, x);
  }

  lemma ToSetAppend<T>(s: seq<T>, x: T)
    ensures ToSet(s + [x]) == ToSet(s) + {x}
  {
  }

  /** Dropping the last element keeps a sequence duplicate-free, and the
      dropped element does not occur in what remains. */
  lemma DistinctFront<T>(s: seq<T>)
    requires Distinct(s) && |s| > 0
    ensures Distinct(s[..|s| - 1])
    ensures s[|s| - 1] !in ToSet(s[..|s| - 1])
  {
    var front := s[..|s| - 1];
    forall k | 0 <= k < |front|
      ensures front[k] != s[|s| - 1]
    {
      assert front[k] == s[k];
    }
  }

  /** Adding one new element to a set adds at most that element to its
      intersection with `n`. */
  lemma IntersectStep<T>(a: set<T>, n: set<T>, x: T)
    requires x !in a
    ensures |(a + {x}) * n| == |a * n| + (if x in n then 1 else 0)
  {
    if x in n {
      assert (a + {x}) * n == (a * n) + {x};
    } else {
      assert (a + {x}) * n == a * n;
    }
  }

  /** A proper subset is strictly smaller. */
  lemma ProperSubsetSmaller<T>(a: set<T>, b: set<T>)
    requires a < b
    ensures |a| < |b|
  {
    assert b == a + (b - a);
    assert b - a != {};
  }
}
