/** Class `Identifier` of lib/field.py: the record-name field, with the
    uniqueness check and the validation of a list of names against it. */
module Identifiers {
  import opened Seqs
  import opened Selection

  /** `check_unique`: collect the entries into a set and compare its size
      with the number of entries. */
  method CheckUnique<T(==)>(entries: seq<T>) returns (unique: bool)
    ensures unique <==> Distinct(entries)
  {
    var seen: set<T> := {};
    var i := 0;
    while i < |entries|
      invariant 0 <= i <= |entries|
      invariant seen == ToSet(entries[..i])
    {
      assert entries[..i + 1] == entries[..i] + [entries[i]];
      seen := seen + {entries[i]};
      i := i + 1;
    }
    assert entries[..i] == entries;
    DistinctCardinality(entries);
    unique := |seen| == |entries|;
  }

  /** `validate_list`: the names must be duplicate-free and as many positions
      of the identifier values must match them as there are names. When the
      identifier values are themselves unique this means every name is an
      identifier. */
  method ValidateList<T(==)>(values: seq<T>, names: seq<T>) returns (valid: bool)
    ensures valid ==> Distinct(names)
    ensures Distinct(values) ==>
      (valid <==> Distinct(names) && forall k :: 0 <= k < |names| ==> names[k] in values)
  {
    valid := true;
    var unique := CheckUnique(names);
    if unique {
      var found := GetIndicesByValues(values, ListOf(names));
      if |found| != |names| {
        valid := false;
      }
      if Distinct(values) {
        FoundCountMeansPresent(values, names);
      }
    } else {
      valid := false;
    }
  }

  /** Over unique identifier values and unique names, the number of matching
      positions equals the number of names exactly when every name occurs. */
  lemma FoundCountMeansPresent<T>(values: seq<T>, names: seq<T>)
    requires Distinct(values) && Distinct(names)
    ensures |GetIndicesByValues(values, ListOf(names))| == |names| <==>
      forall k :: 0 <= k < |names| ==> names[k] in values
  {
    var n := ToSet(names);
    MatchCount(values, n, x => x in n);
    DistinctCardinality(names);
    var present := ToSet(values) * n;
    assert |GetIndicesByValues(values, ListOf(names))| == |present|;
    if forall k :: 0 <= k < |names| ==> names[k] in values {
      assert present == n;
    } else {
      var k :| 0 <= k < |names| && names[k] !in values;
      assert names[k] in n - present;
      ProperSubsetSmaller(present, n);
    }
  }
}
