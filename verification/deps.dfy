/** The run-scoped dependency cache of `main` in lib/add.py: a dictionary from
    field id to what fetching or producing that field gave, where a failed
    fetch leaves a falsy entry. Python dictionaries keep insertion order, and
    the abort check reports the first falsy entry in that order, so the cache
    is an insertion-ordered list of entries with distinct ids. */
module Deps {
  import opened Seqs

  /** One cache entry: `None` is a falsy value (a field that was not found). */
  datatype Entry<V> = Entry(id: string, value: Option<V>)

  type Cache<V> = seq<Entry<V>>

  /** No id has two entries. */
  ghost predicate WellFormed<V>(c: Cache<V>) {
    forall i, j :: 0 <= i < j < |c| ==> c[i].id != c[j].id
  }

  /** `dependencies.get(id)`: `None` when there is no entry, otherwise the
      entry's value (which may itself be falsy). */
  function Lookup<V>(c: Cache<V>, id: string): (r: Option<Option<V>>)
    ensures r.None? <==> forall k :: 0 <= k < |c| ==> c[k].id != id
    ensures r.Some? ==> exists k :: 0 <= k < |c| && c[k].id == id && c[k].value == r.value
    decreases |c|
  {
    if |c| == 0 then None
    else if c[0].id == id then Some(c[0].value)
    else
      var r := Lookup(c[1..], id);
      assert forall k :: 1 <= k < |c| ==> c[k] == c[1..][k - 1];
      r
  }

  /** The id has an entry and that entry holds a field: the truthiness test
      applied before a dependency is fetched again. */
  predicate Truthy<V>(c: Cache<V>, id: string) {
    var r := Lookup(c, id); r.Some? && r.value.Some?
  }

  /** In a well-formed cache the entry found for an id is its only entry. */
  lemma LookupAt<V>(c: Cache<V>, k: nat)
    requires WellFormed(c) && k < |c|
    ensures Lookup(c, c[k].id) == Some(c[k].value)
  {
  }

  /** The position of the entry for an id, if there is one. */
  function Find<V>(c: Cache<V>, id: string): (r: Option<nat>)
    ensures r.None? <==> forall k :: 0 <= k < |c| ==> c[k].id != id
    ensures r.Some? ==> r.value < |c| && c[r.value].id == id
    decreases |c|
  {
    if |c| == 0 then None
    else if c[|c| - 1].id == id then Some(|c| - 1)
    else Find(c[..|c| - 1], id)
  }

  /** Storing a value under an id: an existing entry is overwritten in place,
      a new one is appended. */
  function Put<V>(c: Cache<V>, id: string, value: Option<V>): (r: Cache<V>)
    requires WellFormed(c)
    ensures WellFormed(r)
    ensures Lookup(r, id) == Some(value)
    ensures forall other :: other != id ==> Lookup(r, other) == Lookup(c, other)
    ensures |r| == if Lookup(c, id).Some? then |c| else |c| + 1
    ensures forall k :: 0 <= k < |c| ==> r[k].id == c[k].id
  {
    var r := match Find(c, id)
      case Some(k) => c[k := Entry(id, value)]
      case None => c + [Entry(id, value)];
    PutLookups(c, id, value, r);
    r
  }

  /** The lookups after overwriting or appending the entry for `id`. */
  lemma PutLookups<V>(c: Cache<V>, id: string, value: Option<V>, r: Cache<V>)
    requires WellFormed(c)
    requires Find(c, id).Some? ==> r == c[Find(c, id).value := Entry(id, value)]
    requires Find(c, id).None? ==> r == c + [Entry(id, value)]
    ensures WellFormed(r)
    ensures Lookup(r, id) == Some(value)
    ensures forall other :: other != id ==> Lookup(r, other) == Lookup(c, other)
  {
    var k := if Find(c, id).Some? then Find(c, id).value else |c|;
    assert k < |r| && r[k] == Entry(id, value);
    assert forall j :: 0 <= j < |r| && j != k ==> r[j] == c[j];
    assert forall j :: 0 <= j < |r| ==> (r[j].id == id <==> j == k);
    LookupAt(r, k);
    forall other | other != id
      ensures Lookup(r, other) == Lookup(c, other)
    {
      PutOther(c, k, r, other);
    }
  }

  /** A lookup of an id other than the one at position `k` is the same in two
      caches that differ only at `k` or by an extra last entry. */
  lemma PutOther<V>(c: Cache<V>, k: nat, r: Cache<V>, other: string)
    requires WellFormed(c) && WellFormed(r) && k < |r| && r[k].id != other
    requires |r| == |c| || |r| == |c| + 1
    requires |r| == |c| + 1 ==> k == |c|
    requires forall j :: 0 <= j < |c| && j != k ==> r[j] == c[j]
    requires k < |c| ==> c[k].id == r[k].id
    ensures Lookup(r, other) == Lookup(c, other)
  {
    if j :| 0 <= j < |c| && c[j].id == other {
      LookupAt(c, j);
      LookupAt(r, j);
    }
  }

  /** The abort check of `main`: the id of the first falsy entry in insertion
      order, or `None` when every entry holds a field. */
  function FirstFalsy<V>(c: Cache<V>): (r: Option<string>)
    ensures r.None? <==> forall k :: 0 <= k < |c| ==> c[k].value.Some?
    ensures r.Some? ==> exists k ::
      0 <= k < |c| && c[k].id == r.value && c[k].value.None? &&
      forall j :: 0 <= j < k ==> c[j].value.Some?
    decreases |c|
  {
    if |c| == 0 then None
    else if c[0].value.None? then Some(c[0].id)
    else
      var r := FirstFalsy(c[1..]);
      assert forall k :: 1 <= k < |c| ==> c[k] == c[1..][k - 1];
      if r.Some? then
        var k :| 0 <= k < |c[1..]| && c[1..][k].id == r.value && c[1..][k].value.None? &&
          forall j :: 0 <= j < k ==> c[1..][j].value.Some?;
        assert c[k + 1] == c[1..][k];
        r
      else r
  }

  /** Every id in a well-formed cache is truthy exactly when there is no falsy
      entry. */
  lemma NoFalsyMeansAllTruthy<V>(c: Cache<V>)
    requires WellFormed(c)
    ensures FirstFalsy(c).None? <==> forall k :: 0 <= k < |c| ==> Truthy(c, c[k].id)
  {
    forall k | 0 <= k < |c|
      ensures Truthy(c, c[k].id) <==> c[k].value.Some?
    {
      LookupAt(c, k);
    }
  }
}
