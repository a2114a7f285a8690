/** The category codec of lib/field.py: `_collapse_values` turns a value
    sequence into a duplicate-free key table plus one index per value,
    `_expand_values` turns the pair back into values. */
module Codec {
  import opened Seqs

  /** A key table and one key index per encoded value. */
  datatype Encoded<T> = Encoded(keys: seq<T>, indices: seq<nat>)

  /** Every index names a position of the key table. */
  ghost predicate IndicesValid<T>(keys: seq<T>, indices: seq<nat>) {
    forall i :: 0 <= i < |indices| ==> indices[i] < |keys|
  }

  /** The keys after the fixed prefix appear in the order in which their
      first occurrences appear in `values`. */
  ghost predicate FirstSeenOrder<T>(values: seq<T>, fixedCount: nat, keys: seq<T>) {
    forall j, k ::
      fixedCount <= j < k < |keys| && keys[j] in values && keys[k] in values ==>
        IndexOf(values, keys[j]) < IndexOf(values, keys[k])
  }

  /** What a collapse of `values` against `fixedKeys` must satisfy: the fixed
      keys come first and unchanged, the table is duplicate-free and holds
      exactly the fixed keys and the values, later keys follow first
      occurrence, and every value has the index of its key. */
  ghost predicate Describes<T>(values: seq<T>, fixedKeys: seq<T>, r: Encoded<T>) {
    && |fixedKeys| <= |r.keys| && r.keys[..|fixedKeys|] == fixedKeys
    && Distinct(r.keys)
    && (forall j :: 0 <= j < |r.keys| ==> r.keys[j] in fixedKeys || r.keys[j] in values)
    && (forall i :: 0 <= i < |values| ==> values[i] in r.keys)
    && FirstSeenOrder(values, |fixedKeys|, r.keys)
    && |r.indices| == |values| && IndicesValid(r.keys, r.indices)
    && (forall i :: 0 <= i < |values| ==> r.keys[r.indices[i]] == values[i])
  }

  /** `_collapse_values(values, fixedKeys)`: the key table starts as the fixed
      keys; each value already in the table gets its position, each value not
      yet in it is appended and gets the next position. Its properties are
      `CollapseSpec`. */
  function Collapse<T(==)>(values: seq<T>, fixedKeys: seq<T>): Encoded<T>
    decreases |values|
  {
    if |values| == 0 then Encoded(fixedKeys, [])
    else
      var prev := Collapse(values[..|values| - 1], fixedKeys);
      var v := values[|values| - 1];
      if v in prev.keys then Encoded(prev.keys, prev.indices + [IndexOf(prev.keys, v)])
      else Encoded(prev.keys + [v], prev.indices + [|prev.keys|])
  }

  /** With duplicate-free fixed keys, `Collapse` keeps the fixed keys first and
      in order, yields a duplicate-free table holding exactly the fixed keys and
      the values, appends new keys in first-occurrence order, and gives each
      value a valid index of its own key. */
  lemma {:induction false} CollapseSpec<T>(values: seq<T>, fixedKeys: seq<T>)
    requires Distinct(fixedKeys)
    ensures Describes(values, fixedKeys, Collapse(values, fixedKeys))
    decreases |values|
  {
    if |values| == 0 {
      assert Describes(values, fixedKeys, Collapse(values, fixedKeys));
    } else {
      var front := values[..|values| - 1];
      CollapseSpec(front, fixedKeys);
      CollapseStep(values, fixedKeys, Collapse(front, fixedKeys), Collapse(values, fixedKeys));
    }
  }

  /** One step of `Collapse`: the last value either reuses the position of
      its key or is appended as a new key. */
  lemma CollapseStep<T>(values: seq<T>, fixedKeys: seq<T>, prev: Encoded<T>, next: Encoded<T>)
    requires |values| > 0
    requires Describes(values[..|values| - 1], fixedKeys, prev)
    requires var v := values[|values| - 1];
      && (v in prev.keys ==> next == Encoded(prev.keys, prev.indices + [IndexOf(prev.keys, v)]))
      && (v !in prev.keys ==> next == Encoded(prev.keys + [v], prev.indices + [|prev.keys|]))
    ensures Describes(values, fixedKeys, next)
  {
    var front, v := values[..|values| - 1], values[|values| - 1];
    assert values == front + [v];
    StepKeepsOrder(front, v, fixedKeys, prev.keys, next.keys);
    StepKeys(front, v, fixedKeys, prev.keys, next.keys);
    StepIndices(front, v, prev, next);
  }

  /** One step of `Collapse` keeps the key table duplicate-free, its fixed
      prefix unchanged, and its members the fixed keys and the values. */
  lemma StepKeys<T>(front: seq<T>, v: T, fixedKeys: seq<T>, prev: seq<T>, next: seq<T>)
    requires |fixedKeys| <= |prev| && prev[..|fixedKeys|] == fixedKeys && Distinct(prev)
    requires forall j :: 0 <= j < |prev| ==> prev[j] in fixedKeys || prev[j] in front
    requires forall i :: 0 <= i < |front| ==> front[i] in prev
    requires v in prev ==> next == prev
    requires v !in prev ==> next == prev + [v]
    ensures |fixedKeys| <= |next| && next[..|fixedKeys|] == fixedKeys && Distinct(next)
    ensures forall j :: 0 <= j < |next| ==> next[j] in fixedKeys || next[j] in front + [v]
    ensures forall i :: 0 <= i < |front + [v]| ==> (front + [v])[i] in next
  {
    if v !in prev {
      assert next[..|fixedKeys|] == prev[..|fixedKeys|];
      forall i, j | 0 <= i < j < |next|
        ensures next[i] != next[j]
      {
        if j < |prev| {
          assert next[i] == prev[i] && next[j] == prev[j];
        } else {
          assert next[i] in prev;
        }
      }
    }
  }

  /** One step of `Collapse` gives the new value the index of its key and
      keeps every earlier index. */
  lemma StepIndices<T>(front: seq<T>, v: T, prev: Encoded<T>, next: Encoded<T>)
    requires |prev.indices| == |front| && IndicesValid(prev.keys, prev.indices)
    requires forall i :: 0 <= i < |front| ==> prev.keys[prev.indices[i]] == front[i]
    requires v in prev.keys ==> next == Encoded(prev.keys, prev.indices + [IndexOf(prev.keys, v)])
    requires v !in prev.keys ==> next == Encoded(prev.keys + [v], prev.indices + [|prev.keys|])
    ensures |next.indices| == |front + [v]| && IndicesValid(next.keys, next.indices)
    ensures forall i :: 0 <= i < |front + [v]| ==> next.keys[next.indices[i]] == (front + [v])[i]
  {
  }

  /** One step of `Collapse` keeps the new keys in first-occurrence order. */
  lemma StepKeepsOrder<T>(front: seq<T>, v: T, fixedKeys: seq<T>, prev: seq<T>, next: seq<T>)
    requires |fixedKeys| <= |prev| && prev[..|fixedKeys|] == fixedKeys && Distinct(prev)
    requires forall j :: 0 <= j < |prev| ==> prev[j] in fixedKeys || prev[j] in front
    requires forall i :: 0 <= i < |front| ==> front[i] in prev
    requires FirstSeenOrder(front, |fixedKeys|, prev)
    requires v in prev ==> next == prev
    requires v !in prev ==> next == prev + [v]
    ensures FirstSeenOrder(front + [v], |fixedKeys|, next)
  {
    var values := front + [v];
    forall j | |fixedKeys| <= j < |prev|
      ensures prev[j] in front
    {
      forall i | 0 <= i < |fixedKeys|
        ensures fixedKeys[i] != prev[j]
      {
        assert prev[i] == fixedKeys[i];
      }
    }
    forall j | |fixedKeys| <= j < |prev|
      ensures IndexOf(values, prev[j]) == IndexOf(front, prev[j])
    {
      IndexOfAppend(front, v, prev[j]);
    }
    if v !in prev {
      assert v !in front;
      assert IndexOf(values, v) == |front| by {
        assert values[|front|] == v;
      }
    }
  }

  /** `Collapse` of a longer input, stated as one step from the shorter one. */
  lemma CollapseAppend<T>(front: seq<T>, v: T, fixedKeys: seq<T>)
    ensures var prev := Collapse(front, fixedKeys);
      Collapse(front + [v], fixedKeys) ==
        if v in prev.keys then Encoded(prev.keys, prev.indices + [IndexOf(prev.keys, v)])
        else Encoded(prev.keys + [v], prev.indices + [|prev.keys|])
  {
    assert (front + [v])[..|front + [v]| - 1] == front;
  }

  /** `_expand_values(keys, indices)`: the key named by each index. */
  function Expand<T>(keys: seq<T>, indices: seq<nat>): (r: seq<T>)
    requires IndicesValid(keys, indices)
    ensures |r| == |indices|
    ensures forall i :: 0 <= i < |r| ==> r[i] == keys[indices[i]]
  {
    seq(|indices|, i requires 0 <= i < |indices| => keys[indices[i]])
  }

  /** The position map of `_collapse_values` indexes the key table: it maps
      exactly the keys, each to its own position. */
  ghost predicate Indexes<T(!new)>(table: map<T, nat>, keys: seq<T>) {
    && (forall x :: x in table <==> x in keys)
    && (forall x :: x in table ==> table[x] < |keys| && keys[table[x]] == x)
  }

  /** Inserting a new key at the next position keeps the map indexing the
      extended table. */
  lemma IndexesAppend<T(!new)>(table: map<T, nat>, keys: seq<T>, v: T)
    requires Indexes(table, keys) && v !in keys
    ensures Indexes(table[v := |keys|], keys + [v])
  {
  }

  /** The `OrderedDict` built from the fixed keys, each mapped to its position. */
  method SeedTable<T(==,!new)>(fixedKeys: seq<T>) returns (table: map<T, nat>, keys: seq<T>)
    requires Distinct(fixedKeys)
    ensures keys == fixedKeys && Indexes(table, keys)
  {
    table := map[];
    keys := [];
    var n := 0;
    while n < |fixedKeys|
      invariant 0 <= n <= |fixedKeys|
      invariant keys == fixedKeys[..n]
      invariant Indexes(table, keys)
    {
      assert fixedKeys[n] !in keys;
      IndexesAppend(table, keys, fixedKeys[n]);
      table := table[fixedKeys[n] := n];
      keys := keys + [fixedKeys[n]];
      n := n + 1;
    }
    assert keys == fixedKeys;
  }

  /** The dictionary-driven loop of `_collapse_values` as written: a map from
      key to position seeded with the fixed keys, a counter for the next free
      position, and the insertion order of the map as the key table. */
  method CollapseValues<T(==,!new)>(values: seq<T>, fixedKeys: seq<T>) returns (keys: seq<T>, indexed: seq<nat>)
    requires Distinct(fixedKeys)
    ensures Encoded(keys, indexed) == Collapse(values, fixedKeys)
  {
    var counter: nat := |fixedKeys|;
    var table: map<T, nat>;
    table, keys := SeedTable(fixedKeys);
    indexed := [];
    var i := 0;
    while i < |values|
      invariant 0 <= i <= |values|
      invariant Encoded(keys, indexed) == Collapse(values[..i], fixedKeys)
      invariant counter == |keys|
      invariant Indexes(table, keys)
    {
      var value := values[i];
      CollapseNext(values, fixedKeys, i, keys, indexed);
      var index: nat;
      if value in table {
        index := table[value];
      } else {
        IndexesAppend(table, keys, value);
        index := counter;
        table := table[value := counter];
        keys := keys + [value];
        counter := counter + 1;
      }
      indexed := indexed + [index];
      i := i + 1;
    }
    assert values[..i] == values;
  }

  /** One iteration of the loop of `CollapseValues`: a value already in the
      table takes the position it has there, a new one is appended. */
  lemma CollapseNext<T>(values: seq<T>, fixedKeys: seq<T>, i: nat, keys: seq<T>, indexed: seq<nat>)
    requires Distinct(fixedKeys) && i < |values|
    requires Encoded(keys, indexed) == Collapse(values[..i], fixedKeys)
    ensures forall j :: 0 <= j < |keys| && keys[j] == values[i] ==>
      Collapse(values[..i + 1], fixedKeys) == Encoded(keys, indexed + [j])
    ensures values[i] !in keys ==>
      Collapse(values[..i + 1], fixedKeys) == Encoded(keys + [values[i]], indexed + [|keys|])
  {
    assert Distinct(keys) by {
      CollapseSpec(values[..i], fixedKeys);
    }
    CollapseAppend(values[..i], values[i], fixedKeys);
    assert values[..i + 1] == values[..i] + [values[i]];
    forall j | 0 <= j < |keys| && keys[j] == values[i]
      ensures IndexOf(keys, values[i]) == j
    {
      IndexOfDistinct(keys, j);
    }
  }

  /** `Describes` leaves no freedom: a key table and indices meeting it are
      exactly what `Collapse` produces. */
  lemma {:induction false} DescribesIsCollapse<T>(values: seq<T>, fixedKeys: seq<T>, r: Encoded<T>)
    requires Describes(values, fixedKeys, r)
    ensures r == Collapse(values, fixedKeys)
  {
    assert Distinct(fixedKeys) by {
      assert forall i :: 0 <= i < |fixedKeys| ==> fixedKeys[i] == r.keys[i];
    }
    CollapseSpec(values, fixedKeys);
    DescribesUnique(values, fixedKeys, r, Collapse(values, fixedKeys));
  }

  /** Two encodings that both describe the same values against the same fixed
      keys are equal. */
  lemma {:induction false} DescribesUnique<T>(values: seq<T>, fixedKeys: seq<T>, a: Encoded<T>, b: Encoded<T>)
    requires Describes(values, fixedKeys, a) && Describes(values, fixedKeys, b)
    ensures a == b
  {
    DescribesSameKeys(values, fixedKeys, a, b);
    forall i | 0 <= i < |values|
      ensures a.indices[i] == b.indices[i]
    {
      assert a.keys[a.indices[i]] == a.keys[b.indices[i]];
    }
  }

  /** The key tables of two describing encodings agree: both start with the
      fixed keys, and the rest of each lists, in first-occurrence order, the
      values that are not fixed keys. */
  lemma {:induction false} DescribesSameKeys<T>(values: seq<T>, fixedKeys: seq<T>, a: Encoded<T>, b: Encoded<T>)
    requires Describes(values, fixedKeys, a) && Describes(values, fixedKeys, b)
    ensures a.keys == b.keys
  {
    var n := |fixedKeys|;
    LaterKeys(values, fixedKeys, a);
    LaterKeys(values, fixedKeys, b);
    var ga := FirstPositions(values, n, a.keys);
    var gb := FirstPositions(values, n, b.keys);
    assert forall x :: x in ga ==> x in gb by {
      LaterKeysIn(values, fixedKeys, a.keys, b.keys);
    }
    assert forall x :: x in gb ==> x in ga by {
      LaterKeysIn(values, fixedKeys, b.keys, a.keys);
    }
    StrictlyIncreasingUnique(ga, gb);
    SamePositionsSameKeys(values, fixedKeys, a.keys, b.keys);
  }

  /** The position in `values` of the first occurrence of each key after the
      first `n`. */
  ghost function FirstPositions<T>(values: seq<T>, n: nat, keys: seq<T>): (r: seq<nat>)
    requires n <= |keys| && forall j :: n <= j < |keys| ==> keys[j] in values
    ensures |r| == |keys| - n
    ensures forall j :: n <= j < |keys| ==> r[j - n] == IndexOf(values, keys[j])
    decreases |keys|
  {
    if |keys| == n then []
    else FirstPositions(values, n, keys[..|keys| - 1]) + [IndexOf(values, keys[|keys| - 1])]
  }

  /** In a describing encoding the keys after the fixed prefix are values,
      are not fixed keys, and have strictly increasing first positions. */
  lemma {:induction false} LaterKeys<T>(values: seq<T>, fixedKeys: seq<T>, r: Encoded<T>)
    requires Describes(values, fixedKeys, r)
    ensures |fixedKeys| <= |r.keys|
    ensures forall j :: |fixedKeys| <= j < |r.keys| ==> r.keys[j] in values && r.keys[j] !in fixedKeys
    ensures forall j :: 0 <= j < |fixedKeys| ==> r.keys[j] == fixedKeys[j]
    ensures forall i :: 0 <= i < |values| ==> values[i] in r.keys
    ensures StrictlyIncreasing(FirstPositions(values, |fixedKeys|, r.keys))
  {
    var n := |fixedKeys|;
    assert forall i :: 0 <= i < n ==> r.keys[i] == r.keys[..n][i];
    forall j | n <= j < |r.keys|
      ensures r.keys[j] !in fixedKeys
    {
      forall i | 0 <= i < n
        ensures fixedKeys[i] != r.keys[j]
      {
        assert fixedKeys[i] == r.keys[i];
      }
    }
    assert FirstSeenOrder(values, n, r.keys);
    PositionsIncreasing(values, n, r.keys);
  }

  /** Keys in first-seen order have strictly increasing first positions. */
  lemma {:induction false} PositionsIncreasing<T>(values: seq<T>, n: nat, keys: seq<T>)
    requires n <= |keys| && forall j :: n <= j < |keys| ==> keys[j] in values
    requires FirstSeenOrder(values, n, keys)
    ensures StrictlyIncreasing(FirstPositions(values, n, keys))
  {
    var g := FirstPositions(values, n, keys);
    forall i, j | 0 <= i < j < |g|
      ensures g[i] < g[j]
    {
      assert g[i] == IndexOf(values, keys[n + i]) && g[j] == IndexOf(values, keys[n + j]);
    }
  }

  /** Every first position of a later key of `a` is one of `b`'s, when `b`
      holds every value and starts with the fixed keys. */
  lemma {:induction false} LaterKeysIn<T>(values: seq<T>, fixedKeys: seq<T>, a: seq<T>, b: seq<T>)
    requires |fixedKeys| <= |a| && |fixedKeys| <= |b|
    requires forall k :: |fixedKeys| <= k < |a| ==> a[k] in values && a[k] !in fixedKeys
    requires forall k :: |fixedKeys| <= k < |b| ==> b[k] in values
    requires forall k :: 0 <= k < |fixedKeys| ==> b[k] == fixedKeys[k]
    requires forall i :: 0 <= i < |values| ==> values[i] in b
    ensures forall x :: x in FirstPositions(values, |fixedKeys|, a) ==> x in FirstPositions(values, |fixedKeys|, b)
  {
    var n := |fixedKeys|;
    var ga, gb := FirstPositions(values, n, a), FirstPositions(values, n, b);
    forall x | x in ga
      ensures x in gb
    {
      var j :| 0 <= j < |ga| && ga[j] == x;
      assert x == IndexOf(values, a[n + j]) by {
        assert ga[(n + j) - n] == IndexOf(values, a[n + j]);
      }
      LaterKeyIn(values, fixedKeys, a, b, n + j);
    }
  }

  /** `LaterKeysIn` for one later key of `a`. */
  lemma {:induction false} LaterKeyIn<T>(values: seq<T>, fixedKeys: seq<T>, a: seq<T>, b: seq<T>, k: nat)
    requires |fixedKeys| <= k < |a| && |fixedKeys| <= |b|
    requires a[k] in values && a[k] !in fixedKeys && a[k] in b
    requires forall i :: |fixedKeys| <= i < |b| ==> b[i] in values
    requires forall i :: 0 <= i < |fixedKeys| ==> b[i] == fixedKeys[i]
    ensures IndexOf(values, a[k]) in FirstPositions(values, |fixedKeys|, b)
  {
    var n := |fixedKeys|;
    var p :| 0 <= p < |b| && b[p] == a[k];
    assert n <= p;
    assert FirstPositions(values, n, b)[p - n] == IndexOf(values, b[p]);
  }

  /** Key tables with the same fixed prefix and the same first positions for
      their later keys are equal. */
  lemma {:induction false} SamePositionsSameKeys<T>(values: seq<T>, fixedKeys: seq<T>, a: seq<T>, b: seq<T>)
    requires |fixedKeys| <= |a| && |fixedKeys| <= |b|
    requires forall k :: |fixedKeys| <= k < |a| ==> a[k] in values
    requires forall k :: |fixedKeys| <= k < |b| ==> b[k] in values
    requires forall k :: 0 <= k < |fixedKeys| ==> a[k] == fixedKeys[k] && b[k] == fixedKeys[k]
    requires FirstPositions(values, |fixedKeys|, a) == FirstPositions(values, |fixedKeys|, b)
    ensures a == b
  {
    var n := |fixedKeys|;
    var g := FirstPositions(values, n, a);
    forall j | n <= j < |a|
      ensures a[j] == b[j]
    {
      assert values[g[j - n]] == a[j];
    }
  }

  /** Expanding what `Collapse` produced gives back the values. */
  lemma RoundTrip<T>(values: seq<T>, fixedKeys: seq<T>)
    requires Distinct(fixedKeys)
    ensures var e := Collapse(values, fixedKeys);
      IndicesValid(e.keys, e.indices) && Expand(e.keys, e.indices) == values
  {
    CollapseSpec(values, fixedKeys);
  }

  /** Collapsing an expansion against its own duplicate-free key table gives
      back exactly that table and those indices. */
  lemma ReverseRoundTrip<T>(keys: seq<T>, indices: seq<nat>)
    requires Distinct(keys) && IndicesValid(keys, indices)
    ensures Collapse(Expand(keys, indices), keys) == Encoded(keys, indices)
  {
    var values := Expand(keys, indices);
    var e := Collapse(values, keys);
    CollapseSpec(values, keys);
    DistinctWithin(e.keys, keys);
    assert e.keys == e.keys[..|keys|] == keys;
    forall i | 0 <= i < |indices|
      ensures e.indices[i] == indices[i]
    {
      assert keys[e.indices[i]] == keys[indices[i]];
    }
  }

  /** A duplicate-free sequence whose elements all occur in `b` is no longer
      than `b`. */
  lemma DistinctWithin<T>(a: seq<T>, b: seq<T>)
    requires Distinct(a) && Distinct(b)
    requires forall j :: 0 <= j < |a| ==> a[j] in b
    ensures |a| <= |b|
  {
    DistinctCardinality(a);
    DistinctCardinality(b);
    assert ToSet(a) <= ToSet(b);
    assert ToSet(b) == ToSet(a) + (ToSet(b) - ToSet(a));
  }

  /** Re-running the codec with its own key table as the fixed prefix changes
      nothing: key order is stable. */
  lemma CollapseIdempotent<T>(values: seq<T>, fixedKeys: seq<T>)
    requires Distinct(fixedKeys)
    ensures var e := Collapse(values, fixedKeys); Collapse(values, e.keys) == e
  {
    var e := Collapse(values, fixedKeys);
    CollapseSpec(values, fixedKeys);
    RoundTrip(values, fixedKeys);
    ReverseRoundTrip(e.keys, e.indices);
  }

  /** Re-running the codec with any longer prefix of its own key table as the
      fixed keys changes nothing: the keys after the prefix keep their order. */
  lemma CollapseLargerPrefix<T>(values: seq<T>, fixedKeys: seq<T>, p: nat)
    requires Distinct(fixedKeys)
    requires |fixedKeys| <= p <= |Collapse(values, fixedKeys).keys|
    ensures Collapse(values, Collapse(values, fixedKeys).keys[..p]) == Collapse(values, fixedKeys)
  {
    var e := Collapse(values, fixedKeys);
    var prefix := e.keys[..p];
    CollapseSpec(values, fixedKeys);
    forall j | 0 <= j < |e.keys|
      ensures e.keys[j] in prefix || e.keys[j] in values
    {
      if e.keys[j] in fixedKeys {
        var i :| 0 <= i < |fixedKeys| && fixedKeys[i] == e.keys[j];
        assert e.keys[..|fixedKeys|][i] == prefix[i];
      }
    }
    assert Describes(values, prefix, e);
    DescribesIsCollapse(values, prefix, e);
  }

  /** The doctest of `_collapse_values`. */
  lemma CollapseExample()
    ensures Collapse(['A', 'A', 'B', 'A'], []) == Encoded(['A', 'B'], [0, 0, 1, 0])
  {
    CollapseExampleFront();
    assert ['A', 'A', 'B', 'A'][..3] == ['A', 'A', 'B'];
    assert IndexOf(['A', 'B'], 'A') == 0;
  }

  /** The first three values of the doctest. */
  lemma CollapseExampleFront()
    ensures Collapse(['A', 'A', 'B'], []) == Encoded(['A', 'B'], [0, 0, 1])
  {
    assert Collapse(['A'], []) == Encoded(['A'], [0]) by {
      assert ['A'][..0] == [];
    }
    assert ['A', 'A'][..1] == ['A'] && ['A', 'A', 'B'][..2] == ['A', 'A'];
  }

  /** Any two different values in the pattern `x, y, x` collapse to keys
      `[x, y]` and indices `[0, 1, 0]`. */
  lemma CollapseAlternating<T>(x: T, y: T)
    requires x != y
    ensures Collapse([x, y, x], []) == Encoded([x, y], [0, 1, 0])
  {
    CollapsePair(x, y);
    assert [x, y, x][..2] == [x, y];
    assert IndexOf([x, y], x) == 0;
  }

  /** The first two values of `CollapseAlternating`. */
  lemma CollapsePair<T>(x: T, y: T)
    requires x != y
    ensures Collapse([x, y], []) == Encoded([x, y], [0, 1])
  {
    assert Collapse([x], []) == Encoded([x], [0]) by {
      assert [x][..0] == [];
    }
    assert [x, y][..1] == [x];
  }


  /** The doctest of `_expand_values`. */
  lemma ExpandExample()
    ensures Expand(['A', 'B'], [0, 0, 1, 0]) == ['A', 'A', 'B', 'A']
  {
  }
}
