/** The selections every field kind shares (class `Field` in lib/field.py):
    values at given positions, positions holding given values, the narrowed
    subset of records, and replacing the values wholesale. */
module Selection {
  import opened Seqs

  /** One entry of an index list. An integer entry addresses a value, counting
      from the end when negative; any other entry makes the lookup raise
      `TypeError`, which the source catches and skips. */
  datatype Index = At(i: int) | NotAnInteger

  /** The argument of `get_values_by_indices`: a list, or a single entry that
      the source wraps into a one-element list. */
  datatype IndexArg = OneIndex(index: Index) | IndexList(items: seq<Index>)

  /** The argument of `get_indices_by_values`: a single value (wrapped into a
      list), a list (turned into a set) or a set. */
  datatype Query<T> = Scalar(value: T) | ListOf(items: seq<T>) | SetOf(members: set<T>)

  /** The argument of `select_records`: an index list, or anything else. */
  datatype RecordsArg = NoIndexList | Positions(items: seq<Index>)

  /** The stored `_subset`: either no narrowing, or the selected values. */
  datatype Narrowing<T> = Whole | Narrowed(selected: seq<T>)

  function Items(arg: IndexArg): seq<Index> {
    match arg
    case OneIndex(ix) => [ix]
    case IndexList(items) => items
  }

  /** An index entry the lookup accepts: Python raises `IndexError` for an
      integer outside `-n .. n-1`. */
  ghost predicate InBounds(n: nat, ix: Index) {
    ix.At? ==> -(n as int) <= ix.i < n
  }

  ghost predicate AllInBounds(n: nat, items: seq<Index>) {
    forall k :: 0 <= k < |items| ==> InBounds(n, items[k])
  }

  /** The position Python's `values[i]` reads for an in-bounds integer `i`. */
  function Position(n: nat, i: int): (p: nat)
    requires -(n as int) <= i < n
    ensures p < n
    ensures p == i || p == n + i
  {
    if i < 0 then n + i else i
  }

  /** The loop of `get_values_by_indices`: look up each entry in order,
      skipping entries that are not integers. */
  function ValuesAt<T>(values: seq<T>, items: seq<Index>): (r: seq<T>)
    requires AllInBounds(|values|, items)
    ensures |r| <= |items|
    ensures forall k :: 0 <= k < |r| ==> r[k] in values
    ensures (forall k :: 0 <= k < |items| ==> items[k].At?) ==>
      |r| == |items| &&
      forall k :: 0 <= k < |items| ==> r[k] == values[Position(|values|, items[k].i)]
    decreases |items|
  {
    if |items| == 0 then []
    else
      var front := ValuesAt(values, items[..|items| - 1]);
      match items[|items| - 1]
      case At(i) => front + [values[Position(|values|, i)]]
      case NotAnInteger => front
  }

  /** `get_values_by_indices`: a single entry behaves as a one-element list. */
  function GetValuesByIndices<T>(values: seq<T>, arg: IndexArg): (r: seq<T>)
    requires arg.OneIndex? ==> InBounds(|values|, arg.index)
    requires arg.IndexList? ==> AllInBounds(|values|, arg.items)
    ensures arg.OneIndex? && arg.index.At? ==> r == [values[Position(|values|, arg.index.i)]]
    ensures arg.OneIndex? && arg.index.NotAnInteger? ==> r == []
    ensures arg.IndexList? ==> r == ValuesAt(values, arg.items)
  {
    assert AllInBounds(|values|, Items(arg));
    ValuesAt(values, Items(arg))
  }

  /** Entries that are not integers are skipped: dropping them beforehand
      changes nothing. */
  lemma {:induction false} SkippedEntriesIrrelevant<T>(values: seq<T>, items: seq<Index>)
    requires AllInBounds(|values|, items)
    ensures var ints := IntegerEntries(items);
      AllInBounds(|values|, ints) && ValuesAt(values, items) == ValuesAt(values, ints)
    decreases |items|
  {
    if |items| > 0 {
      var front, last := items[..|items| - 1], items[|items| - 1];
      assert items == front + [last];
      assert AllInBounds(|values|, front);
      SkippedEntriesIrrelevant(values, front);
      IntegerEntriesAppend(front, last);
      var ints := IntegerEntries(front);
      ValuesAtAppend(values, front, last);
      if last.At? {
        ValuesAtAppend(values, ints, last);
      }
    }
  }

  /** Looking up one more entry appends its value, or nothing when it is not
      an integer. */
  lemma ValuesAtAppend<T>(values: seq<T>, items: seq<Index>, last: Index)
    requires AllInBounds(|values|, items) && InBounds(|values|, last)
    ensures AllInBounds(|values|, items + [last])
    ensures ValuesAt(values, items + [last]) ==
      ValuesAt(values, items) + (if last.At? then [values[Position(|values|, last.i)]] else [])
  {
    var all := items + [last];
    assert all[..|all| - 1] == items;
  }

  /** The integer entries of an index list, in order. */
  function IntegerEntries(items: seq<Index>): (r: seq<Index>)
    ensures |r| <= |items|
    ensures forall k :: 0 <= k < |r| ==> r[k] in items && r[k].At?
    decreases |items|
  {
    if |items| == 0 then []
    else if items[0].At? then [items[0]] + IntegerEntries(items[1..])
    else IntegerEntries(items[1..])
  }

  lemma {:induction false} IntegerEntriesAppend(items: seq<Index>, last: Index)
    ensures IntegerEntries(items + [last]) ==
      IntegerEntries(items) + (if last.At? then [last] else [])
    decreases |items|
  {
    if |items| > 0 {
      assert (items + [last])[1..] == items[1..] + [last];
      IntegerEntriesAppend(items[1..], last);
    } else {
      assert items + [last] == [last];
    }
  }

  /** The members a query is normalised to before scanning. */
  function QuerySet<T>(q: Query<T>): set<T> {
    match q
    case Scalar(v) => {v}
    case ListOf(items) => ToSet(items)
    case SetOf(members) => members
  }

  /** `get_indices_by_values`: the positions, in ascending order, whose value
      is a member of the query. */
  function GetIndicesByValues<T(==)>(values: seq<T>, q: Query<T>): (r: seq<nat>)
    ensures forall i :: i in r <==> 0 <= i < |values| && values[i] in QuerySet(q)
    ensures StrictlyIncreasing(r)
  {
    IndicesWhere(values, x => x in QuerySet(q))
  }

  /** The result does not depend on the order, repetition or packaging of the
      queried values, only on which values are queried. */
  lemma QueryOrderIrrelevant<T>(values: seq<T>, q1: Query<T>, q2: Query<T>)
    requires QuerySet(q1) == QuerySet(q2)
    ensures GetIndicesByValues(values, q1) == GetIndicesByValues(values, q2)
  {
    var r1, r2 := GetIndicesByValues(values, q1), GetIndicesByValues(values, q2);
    forall i
      ensures i in r1 <==> i in r2
    {
    }
    StrictlyIncreasingUnique(r1, r2);
  }

  /** `select_records`: an index list narrows the subset to the values at those
      indices; any other argument clears the narrowing. */
  function SelectRecords<T>(values: seq<T>, arg: RecordsArg): (r: Narrowing<T>)
    requires arg.Positions? ==> AllInBounds(|values|, arg.items)
    ensures arg.NoIndexList? <==> r.Whole?
    ensures arg.Positions? ==> r == Narrowed(GetValuesByIndices(values, IndexList(arg.items)))
  {
    match arg
    case NoIndexList => Whole
    case Positions(items) => Narrowed(ValuesAt(values, items))
  }

  /** The `subset` property: the narrowed values, or all values. */
  function Subset<T>(values: seq<T>, narrowing: Narrowing<T>): seq<T> {
    match narrowing
    case Whole => values
    case Narrowed(selected) => selected
  }

  /** Selecting records and reading the subset back gives the values at the
      selected positions, or every value after a non-list argument. */
  lemma SubsetAfterSelect<T>(values: seq<T>, arg: RecordsArg)
    requires arg.Positions? ==> AllInBounds(|values|, arg.items)
    requires arg.Positions? ==> forall k :: 0 <= k < |arg.items| ==> arg.items[k].At?
    ensures var s := Subset(values, SelectRecords(values, arg));
      && (arg.NoIndexList? ==> s == values)
      && (arg.Positions? ==>
            |s| == |arg.items| &&
            forall k :: 0 <= k < |s| ==> s[k] == values[Position(|values|, arg.items[k].i)])
  {
  }

  /** `update_values`: a replacement of the same length is taken (as a copy),
      one of any other length is ignored. */
  function UpdateValues<T>(current: seq<T>, replacement: seq<T>): (r: seq<T>)
    ensures |r| == |current|
    ensures r == replacement || r == current
    ensures |replacement| == |current| ==> r == replacement
  {
    if |replacement| == |current| then replacement else current
  }
}
