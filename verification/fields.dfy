/** The field kinds of lib/field.py as one datatype with a variant per kind,
    each carrying exactly the attributes its kind defines, and the
    constructors that run the category codec. */
module Fields {
  import opened Seqs
  import opened Codec
  import opened Selection
  import opened Records
  import Variables

  datatype Field =
    | Generic(fieldId: string, values: seq<Value>)
    | Identifier(fieldId: string, names: seq<string>)
    | Variable(fieldId: string, numbers: seq<real>, narrowing: Narrowing<real>)
    | Category(fieldId: string, keys: seq<Value>, codes: seq<nat>)
    | Array(fieldId: string, keys: seq<Value>, headers: seq<string>, categorySlot: Option<nat>, records: seq<Record>)
    | MultiArray(fieldId: string, keys: seq<Value>, headers: seq<string>, categorySlot: Option<nat>, rows: seq<Row>)
  {
    /** The `type` attribute; a MultiArray reports itself as an array. */
    function TypeTag(): string {
      match this
      case Generic(_, _) => "generic"
      case Identifier(_, _) => "identifier"
      case Variable(_, _, _) => "variable"
      case Category(_, _, _) => "category"
      case Array(_, _, _, _, _) => "array"
      case MultiArray(_, _, _, _, _) => "array"
    }

    /** The number of records, `len(values)`. */
    function RecordCount(): nat {
      match this
      case Generic(_, values) => |values|
      case Identifier(_, names) => |names|
      case Variable(_, numbers, _) => |numbers|
      case Category(_, _, codes) => |codes|
      case Array(_, _, _, _, records) => |records|
      case MultiArray(_, _, _, _, rows) => |rows|
    }
  }

  /** What a `Category` is built from: raw values (with an optional fixed key
      prefix) to be collapsed, or keys and values already encoded. */
  datatype CategoryInput =
    | Raw(values: seq<Value>, fixedKeys: seq<Value>)
    | PreEncoded(keys: seq<Value>, codes: seq<nat>)

  /** The `Category` constructor: without `keys`, the values are collapsed
      against `fixed_keys`; with `keys`, both are kept as given. */
  function NewCategory(fieldId: string, input: CategoryInput): (f: Field)
    requires input.Raw? ==> Distinct(input.fixedKeys)
    ensures f.Category? && f.fieldId == fieldId && f.TypeTag() == "category"
    ensures input.Raw? ==> Describes(input.values, input.fixedKeys, Encoded(f.keys, f.codes))
    ensures input.PreEncoded? ==> f.keys == input.keys && f.codes == input.codes
  {
    match input
    case Raw(values, fixedKeys) =>
      CollapseSpec(values, fixedKeys);
      var e := Collapse(values, fixedKeys);
      Category(fieldId, e.keys, e.indices)
    case PreEncoded(keys, codes) => Category(fieldId, keys, codes)
  }

  /** `Category.expand_values`: the decoded value of every record. */
  function ExpandValues(f: Field): seq<Value>
    requires f.Category? && IndicesValid(f.keys, f.codes)
  {
    Expand(f.keys, f.codes)
  }

  /** A category built from raw values expands back to exactly those values. */
  lemma CategoryRoundTrip(fieldId: string, values: seq<Value>, fixedKeys: seq<Value>)
    requires Distinct(fixedKeys)
    ensures var f := NewCategory(fieldId, Raw(values, fixedKeys));
      IndicesValid(f.keys, f.codes) && ExpandValues(f) == values
  {
    RoundTrip(values, fixedKeys);
  }

  /** Worked example: `["x", "y", "x"]` without fixed keys. */
  lemma CategoryExample()
    ensures var f := NewCategory("c", Raw([Text("x"), Text("y"), Text("x")], []));
      f.keys == [Text("x"), Text("y")] && f.codes == [0, 1, 0]
  {
    assert Text("x") != Text("y") by {
      assert "x"[0] != "y"[0];
    }
    CollapseAlternating(Text("x"), Text("y"));
  }

  /** The keyword arguments of `Array` and `MultiArray`: the values, and the
      optional `category_slot`, `keys`, `fixed_keys` and `headers`. */
  datatype ArrayInput<R> = ArrayInput(
    values: seq<R>,
    categorySlot: Option<nat>,
    keys: Option<seq<Value>>,
    fixedKeys: seq<Value>,
    headers: seq<string>)
  {
    /** The constructors encode only when a slot is given and keys are not. */
    predicate EncodesSlot() {
      categorySlot.Some? && keys.None?
    }
  }

  /** The `Array` constructor. */
  function NewArray(fieldId: string, input: ArrayInput<Record>): (f: Field)
    requires input.EncodesSlot() ==>
      HasSlot(input.values, input.categorySlot.value) && Distinct(input.fixedKeys)
    ensures f.Array? && f.fieldId == fieldId && f.TypeTag() == "array"
    ensures f.headers == input.headers && f.categorySlot == input.categorySlot
    ensures f.RecordCount() == |input.values|
    ensures input.EncodesSlot() ==>
      var slot := input.categorySlot.value;
      && |input.fixedKeys| <= |f.keys| && f.keys[..|input.fixedKeys|] == input.fixedKeys
      && Distinct(f.keys)
      && SameOutsideSlot(input.values, f.records, slot)
      && CodesValid(f.keys, f.records, slot)
      && ReadCodes(f.keys, f.records, slot) == input.values
      && Describes(Column(input.values, slot), input.fixedKeys, Encoded(f.keys, SlotCodes(f.keys, f.records, slot)))
    ensures !input.EncodesSlot() ==>
      f.records == input.values && f.keys == input.keys.GetOr([])
  {
    if input.EncodesSlot() then
      var e := EncodeArray(input.values, input.categorySlot.value, input.fixedKeys);
      Array(fieldId, e.keys, input.headers, input.categorySlot, e.values)
    else
      Array(fieldId, input.keys.GetOr([]), input.headers, input.categorySlot, input.values)
  }

  /** The `MultiArray` constructor. */
  function NewMultiArray(fieldId: string, input: ArrayInput<Row>): (f: Field)
    requires input.EncodesSlot() ==>
      RowsHaveSlot(input.values, input.categorySlot.value) && Distinct(input.fixedKeys)
    ensures f.MultiArray? && f.fieldId == fieldId && f.TypeTag() == "array"
    ensures f.headers == input.headers && f.categorySlot == input.categorySlot
    ensures f.RecordCount() == |input.values|
    ensures input.EncodesSlot() ==>
      var slot := input.categorySlot.value;
      && |input.fixedKeys| <= |f.keys| && f.keys[..|input.fixedKeys|] == input.fixedKeys
      && Distinct(f.keys)
      && (forall i :: 0 <= i < |f.rows| ==> SameOutsideSlot(input.values[i], f.rows[i], slot))
      && RowCodesValid(f.keys, f.rows, slot)
      && ReadRowCodes(f.keys, f.rows, slot) == input.values
      && Describes(FlatColumn(input.values, slot), input.fixedKeys, Encoded(f.keys, RowCodes(f.keys, f.rows, slot)))
    ensures !input.EncodesSlot() ==>
      f.rows == input.values && f.keys == input.keys.GetOr([])
  {
    if input.EncodesSlot() then
      var e := EncodeMultiArray(input.values, input.categorySlot.value, input.fixedKeys);
      MultiArray(fieldId, e.keys, input.headers, input.categorySlot, e.values)
    else
      MultiArray(fieldId, input.keys.GetOr([]), input.headers, input.categorySlot, input.values)
  }

  /** `select_records` on a variable field: only the stored narrowing changes. */
  function SelectVariableRecords(f: Field, arg: RecordsArg): (r: Field)
    requires f.Variable?
    requires arg.Positions? ==> AllInBounds(|f.numbers|, arg.items)
    ensures r.Variable? && r.fieldId == f.fieldId && r.numbers == f.numbers
    ensures r.narrowing == SelectRecords(f.numbers, arg)
    ensures arg.NoIndexList? ==> r.narrowing == Whole
  {
    f.(narrowing := SelectRecords(f.numbers, arg))
  }

  /** Summing after narrowing to integer positions adds the values at exactly
      those positions; summing after clearing adds every value. */
  lemma SumAfterSelect(f: Field, arg: RecordsArg)
    requires f.Variable?
    requires arg.Positions? ==> AllInBounds(|f.numbers|, arg.items)
    requires arg.Positions? ==> forall k :: 0 <= k < |arg.items| ==> arg.items[k].At?
    ensures var g := SelectVariableRecords(f, arg);
      && (arg.NoIndexList? ==> Variables.SumValues(g.numbers, g.narrowing) == Variables.Total(f.numbers))
      && (arg.Positions? ==>
            Variables.SumValues(g.numbers, g.narrowing) ==
              Variables.Total(seq(|arg.items|, k requires 0 <= k < |arg.items| =>
                f.numbers[Position(|f.numbers|, arg.items[k].i)])))
  {
    if arg.Positions? {
      SumAtPositions(f.numbers, arg.items);
    }
  }

  /** The sum over the subset selected by integer positions. */
  lemma SumAtPositions(numbers: seq<real>, items: seq<Index>)
    requires AllInBounds(|numbers|, items)
    requires forall k :: 0 <= k < |items| ==> items[k].At?
    ensures var n := SelectRecords(numbers, Positions(items));
      Variables.SumValues(numbers, n) ==
        Variables.Total(seq(|items|, k requires 0 <= k < |items| => numbers[Position(|numbers|, items[k].i)]))
  {
    SubsetAfterSelect(numbers, Positions(items));
    var s := Subset(numbers, SelectRecords(numbers, Positions(items)));
    assert s == seq(|items|, k requires 0 <= k < |items| => numbers[Position(|numbers|, items[k].i)]);
  }
}
