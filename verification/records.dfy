/** Composite records of the array field kinds (classes `Array` and
    `MultiArray` in lib/field.py): one designated slot of every record is run
    through the category codec and replaced by its key index. */
module Records {
  import opened Seqs
  import opened Codec
  import opened Selection

  /** A slot value: a number or a string. */
  datatype Value = Num(n: int) | Text(s: string)

  /** One composite record: its slot values by position. */
  type Record = seq<Value>

  /** One MultiArray entry: a possibly empty list of records. */
  type Row = seq<Record>

  /** A key table together with re-encoded records. */
  datatype SlotEncoded<R> = SlotEncoded(keys: seq<Value>, values: seq<R>)

  /** Every record is wide enough to have the slot. */
  ghost predicate HasSlot(records: seq<Record>, slot: nat) {
    forall i :: 0 <= i < |records| ==> slot < |records[i]|
  }

  ghost predicate RowsHaveSlot(rows: seq<Row>, slot: nat) {
    forall i :: 0 <= i < |rows| ==> HasSlot(rows[i], slot)
  }

  /** Every record holds a valid key index in the slot. */
  ghost predicate CodesValid(keys: seq<Value>, records: seq<Record>, slot: nat) {
    && HasSlot(records, slot)
    && forall i :: 0 <= i < |records| ==>
         records[i][slot].Num? && 0 <= records[i][slot].n < |keys|
  }

  ghost predicate RowCodesValid(keys: seq<Value>, rows: seq<Row>, slot: nat) {
    forall i :: 0 <= i < |rows| ==> CodesValid(keys, rows[i], slot)
  }

  /** Two lists of records agree everywhere except in the slot, record by record. */
  ghost predicate SameOutsideSlot(a: seq<Record>, b: seq<Record>, slot: nat) {
    && |a| == |b|
    && forall i :: 0 <= i < |a| ==>
         |a[i]| == |b[i]| && forall s :: 0 <= s < |a[i]| && s != slot ==> a[i][s] == b[i][s]
  }

  /** The value in the slot of every record, in record order. */
  function Column(records: seq<Record>, slot: nat): (r: seq<Value>)
    requires HasSlot(records, slot)
    ensures |r| == |records|
    ensures forall i :: 0 <= i < |r| ==> r[i] == records[i][slot]
  {
    seq(|records|, i requires 0 <= i < |records| => records[i][slot])
  }

  /** Each record with its slot replaced by the matching code. */
  function WriteCodes(records: seq<Record>, slot: nat, codes: seq<nat>): (r: seq<Record>)
    requires HasSlot(records, slot) && |codes| == |records|
    ensures SameOutsideSlot(records, r, slot)
    ensures HasSlot(r, slot) && Column(r, slot) == seq(|codes|, k requires 0 <= k < |codes| => Num(codes[k]))
  {
    seq(|records|, i requires 0 <= i < |records| => records[i][slot := Num(codes[i])])
  }

  /** Each record with the code in its slot replaced by the key it names. */
  function ReadCodes(keys: seq<Value>, records: seq<Record>, slot: nat): seq<Record>
    requires CodesValid(keys, records, slot)
  {
    seq(|records|, i requires 0 <= i < |records| => records[i][slot := keys[records[i][slot].n]])
  }

  /** The code held in each record's slot. */
  function SlotCodes(keys: seq<Value>, records: seq<Record>, slot: nat): seq<nat>
    requires CodesValid(keys, records, slot)
  {
    seq(|records|, i requires 0 <= i < |records| => records[i][slot].n)
  }

  /** Writing codes whose keys are the original slot values and reading them
      back gives the original records. */
  lemma {:induction false} RecordsRoundTrip(keys: seq<Value>, records: seq<Record>, slot: nat, codes: seq<nat>)
    requires HasSlot(records, slot) && |codes| == |records|
    requires forall k :: 0 <= k < |codes| ==> codes[k] < |keys| && keys[codes[k]] == records[k][slot]
    ensures CodesValid(keys, WriteCodes(records, slot, codes), slot)
    ensures ReadCodes(keys, WriteCodes(records, slot, codes), slot) == records
  {
    var written := WriteCodes(records, slot, codes);
    var back := ReadCodes(keys, written, slot);
    forall i | 0 <= i < |records|
      ensures back[i] == records[i]
    {
      assert written[i] == records[i][slot := Num(codes[i])];
    }
  }

  /** The `Array` constructor given a `category_slot` and no `keys`: collapse
      the slot column against the fixed keys and write each index back into
      its record's slot. */
  function EncodeArray(records: seq<Record>, slot: nat, fixedKeys: seq<Value>): (r: SlotEncoded<Record>)
    requires HasSlot(records, slot) && Distinct(fixedKeys)
    ensures |fixedKeys| <= |r.keys| && r.keys[..|fixedKeys|] == fixedKeys && Distinct(r.keys)
    ensures SameOutsideSlot(records, r.values, slot)
    ensures CodesValid(r.keys, r.values, slot)
    ensures forall i :: 0 <= i < |records| ==> r.keys[r.values[i][slot].n] == records[i][slot]
    ensures ReadCodes(r.keys, r.values, slot) == records
    ensures Describes(Column(records, slot), fixedKeys, Encoded(r.keys, SlotCodes(r.keys, r.values, slot)))
  {
    var e := Collapse(Column(records, slot), fixedKeys);
    CollapseSpec(Column(records, slot), fixedKeys);
    RecordsRoundTrip(e.keys, records, slot, e.indices);
    var written := WriteCodes(records, slot, e.indices);
    assert SlotCodes(e.keys, written, slot) == e.indices;
    SlotEncoded(e.keys, written)
  }

  /** The slot column of every record of every row, row by row and, within a
      row, record by record; empty rows contribute nothing. */
  function FlatColumn(rows: seq<Row>, slot: nat): (r: seq<Value>)
    requires RowsHaveSlot(rows, slot)
    decreases |rows|
  {
    if |rows| == 0 then [] else Column(rows[0], slot) + FlatColumn(rows[1..], slot)
  }

  /** Hand the codes out to the rows in flattened order. */
  function WriteRowCodes(rows: seq<Row>, slot: nat, codes: seq<nat>): (r: seq<Row>)
    requires RowsHaveSlot(rows, slot) && |codes| == |FlatColumn(rows, slot)|
    ensures |r| == |rows|
    ensures forall i :: 0 <= i < |rows| ==> SameOutsideSlot(rows[i], r[i], slot)
    ensures RowsHaveSlot(r, slot)
    ensures FlatColumn(r, slot) == seq(|codes|, k requires 0 <= k < |codes| => Num(codes[k]))
    decreases |rows|
  {
    if |rows| == 0 then []
    else
      var n := |rows[0]|;
      var head := WriteCodes(rows[0], slot, codes[..n]);
      var tail := WriteRowCodes(rows[1..], slot, codes[n..]);
      var r := [head] + tail;
      assert r[1..] == tail;
      r
  }

  function ReadRowCodes(keys: seq<Value>, rows: seq<Row>, slot: nat): seq<Row>
    requires RowCodesValid(keys, rows, slot)
  {
    seq(|rows|, i requires 0 <= i < |rows| => ReadCodes(keys, rows[i], slot))
  }

  /** The codes held in the slots of every record of every row, in the
      order of `FlatColumn`. */
  function RowCodes(keys: seq<Value>, rows: seq<Row>, slot: nat): seq<nat>
    requires RowCodesValid(keys, rows, slot)
    decreases |rows|
  {
    if |rows| == 0 then [] else SlotCodes(keys, rows[0], slot) + RowCodes(keys, rows[1..], slot)
  }

  /** Handing codes out to the rows and reading them back in flattened order
      gives the same codes. */
  lemma {:induction false} RowCodesWritten(keys: seq<Value>, rows: seq<Row>, slot: nat, codes: seq<nat>)
    requires RowsHaveSlot(rows, slot) && |codes| == |FlatColumn(rows, slot)|
    requires forall k :: 0 <= k < |codes| ==> codes[k] < |keys|
    ensures RowCodesValid(keys, WriteRowCodes(rows, slot, codes), slot)
    ensures RowCodes(keys, WriteRowCodes(rows, slot, codes), slot) == codes
    decreases |rows|
  {
    if |rows| > 0 {
      var n := |rows[0]|;
      assert FlatColumn(rows, slot) == Column(rows[0], slot) + FlatColumn(rows[1..], slot);
      var head := WriteCodes(rows[0], slot, codes[..n]);
      var tail := WriteRowCodes(rows[1..], slot, codes[n..]);
      SlotCodesWritten(keys, rows[0], slot, codes[..n]);
      RowCodesWritten(keys, rows[1..], slot, codes[n..]);
      assert WriteRowCodes(rows, slot, codes) == [head] + tail;
      RowCodesCons(keys, head, tail, slot);
      assert codes == codes[..n] + codes[n..];
    }
  }

  /** Writing codes into the records' slot and reading them back gives the
      same codes. */
  lemma SlotCodesWritten(keys: seq<Value>, records: seq<Record>, slot: nat, codes: seq<nat>)
    requires HasSlot(records, slot) && |codes| == |records|
    requires forall k :: 0 <= k < |codes| ==> codes[k] < |keys|
    ensures CodesValid(keys, WriteCodes(records, slot, codes), slot)
    ensures SlotCodes(keys, WriteCodes(records, slot, codes), slot) == codes
  {
    var written := WriteCodes(records, slot, codes);
    assert forall i :: 0 <= i < |records| ==> written[i][slot] == Num(codes[i]);
  }

  /** The codes of a row followed by further rows. */
  lemma RowCodesCons(keys: seq<Value>, head: Row, tail: seq<Row>, slot: nat)
    requires CodesValid(keys, head, slot) && RowCodesValid(keys, tail, slot)
    ensures RowCodesValid(keys, [head] + tail, slot)
    ensures RowCodes(keys, [head] + tail, slot) == SlotCodes(keys, head, slot) + RowCodes(keys, tail, slot)
  {
    var rows := [head] + tail;
    assert rows[1..] == tail;
    forall i | 0 <= i < |rows|
      ensures CodesValid(keys, rows[i], slot)
    {
      if i > 0 {
        assert rows[i] == tail[i - 1];
      }
    }
  }

  /** Handing out codes whose keys are the flattened slot values and reading
      them back row by row gives the original rows. */
  lemma {:induction false} RowsRoundTrip(keys: seq<Value>, rows: seq<Row>, slot: nat, codes: seq<nat>)
    requires RowsHaveSlot(rows, slot) && |codes| == |FlatColumn(rows, slot)|
    requires forall k :: 0 <= k < |codes| ==> codes[k] < |keys| && keys[codes[k]] == FlatColumn(rows, slot)[k]
    ensures RowCodesValid(keys, WriteRowCodes(rows, slot, codes), slot)
    ensures ReadRowCodes(keys, WriteRowCodes(rows, slot, codes), slot) == rows
    decreases |rows|
  {
    if |rows| > 0 {
      var n := |rows[0]|;
      var flat := FlatColumn(rows, slot);
      assert flat == Column(rows[0], slot) + FlatColumn(rows[1..], slot);
      RecordsRoundTrip(keys, rows[0], slot, codes[..n]);
      RowsRoundTrip(keys, rows[1..], slot, codes[n..]);
      var written := WriteRowCodes(rows, slot, codes);
      assert written[1..] == WriteRowCodes(rows[1..], slot, codes[n..]);
      var back := ReadRowCodes(keys, written, slot);
      forall i | 0 <= i < |rows|
        ensures back[i] == rows[i]
      {
        if i > 0 {
          assert written[i] == written[1..][i - 1];
        }
      }
    }
  }

  /** The `MultiArray` constructor given a `category_slot` and no `keys`:
      collapse the flattened slot column against the fixed keys and hand the
      indices back out in the same row-then-record order, keeping every row's
      length (empty rows included). */
  function EncodeMultiArray(rows: seq<Row>, slot: nat, fixedKeys: seq<Value>): (r: SlotEncoded<Row>)
    requires RowsHaveSlot(rows, slot) && Distinct(fixedKeys)
    ensures |fixedKeys| <= |r.keys| && r.keys[..|fixedKeys|] == fixedKeys && Distinct(r.keys)
    ensures |r.values| == |rows|
    ensures forall i :: 0 <= i < |rows| ==> SameOutsideSlot(rows[i], r.values[i], slot)
    ensures RowCodesValid(r.keys, r.values, slot)
    ensures var codes := Collapse(FlatColumn(rows, slot), fixedKeys).indices;
      FlatColumn(r.values, slot) == seq(|codes|, k requires 0 <= k < |codes| => Num(codes[k]))
    ensures ReadRowCodes(r.keys, r.values, slot) == rows
    ensures Describes(FlatColumn(rows, slot), fixedKeys, Encoded(r.keys, RowCodes(r.keys, r.values, slot)))
  {
    var e := Collapse(FlatColumn(rows, slot), fixedKeys);
    CollapseSpec(FlatColumn(rows, slot), fixedKeys);
    RowsRoundTrip(e.keys, rows, slot, e.indices);
    RowCodesWritten(e.keys, rows, slot, e.indices);
    SlotEncoded(e.keys, WriteRowCodes(rows, slot, e.indices))
  }

  /** The key table and slot codes of both array encoders are exactly the
      codec's output for the slot column. */
  lemma EncodersAreCodec(records: seq<Record>, rows: seq<Row>, slot: nat, fixedKeys: seq<Value>)
    requires HasSlot(records, slot) && RowsHaveSlot(rows, slot) && Distinct(fixedKeys)
    ensures var r := EncodeArray(records, slot, fixedKeys);
      Encoded(r.keys, SlotCodes(r.keys, r.values, slot)) == Collapse(Column(records, slot), fixedKeys)
    ensures var r := EncodeMultiArray(rows, slot, fixedKeys);
      Encoded(r.keys, RowCodes(r.keys, r.values, slot)) == Collapse(FlatColumn(rows, slot), fixedKeys)
  {
    var a := EncodeArray(records, slot, fixedKeys);
    DescribesIsCollapse(Column(records, slot), fixedKeys, Encoded(a.keys, SlotCodes(a.keys, a.values, slot)));
    var m := EncodeMultiArray(rows, slot, fixedKeys);
    DescribesIsCollapse(FlatColumn(rows, slot), fixedKeys, Encoded(m.keys, RowCodes(m.keys, m.values, slot)));
  }

  /** How `get_values_by_indices_for_slots` picks slots: one slot, or a list
      of slots. */
  datatype SlotQuery = OneSlot(slot: nat) | SlotList(slots: seq<nat>)

  /** One value per selected record, or one list of values per selected record. */
  datatype SlotValues = Single(column: seq<Value>) | Several(columns: seq<seq<Value>>)

  /** Every requested slot exists in every record. */
  ghost predicate SlotsFit(records: seq<Record>, q: SlotQuery) {
    match q
    case OneSlot(s) => HasSlot(records, s)
    case SlotList(slots) => HasSlots(records, slots)
  }

  /** Every listed slot exists in every record. */
  ghost predicate HasSlots(records: seq<Record>, slots: seq<nat>) {
    forall i, j :: 0 <= i < |records| && 0 <= j < |slots| ==> slots[j] < |records[i]|
  }

  /** The slot `s` of each record. */
  function ReadSlot(records: seq<Record>, s: nat): (r: seq<Value>)
    requires HasSlot(records, s)
    ensures |r| == |records| && forall k :: 0 <= k < |r| ==> r[k] == records[k][s]
  {
    seq(|records|, k requires 0 <= k < |records| => records[k][s])
  }

  /** The listed slots of each record, as one list per record. */
  function ReadSlots(records: seq<Record>, slots: seq<nat>): (r: seq<seq<Value>>)
    requires HasSlots(records, slots)
    ensures |r| == |records|
    ensures forall k :: 0 <= k < |r| ==>
      |r[k]| == |slots| && forall j :: 0 <= j < |slots| ==> r[k][j] == records[k][slots[j]]
  {
    seq(|records|, k requires 0 <= k < |records| =>
      seq(|slots|, j requires 0 <= j < |slots| => records[k][slots[j]]))
  }

  /** `get_values_by_indices_for_slots`: select records by index, then read
      the requested slot or slots of each. */
  function GetValuesByIndicesForSlots(records: seq<Record>, arg: IndexArg, q: SlotQuery): (r: SlotValues)
    requires arg.OneIndex? ==> InBounds(|records|, arg.index)
    requires arg.IndexList? ==> AllInBounds(|records|, arg.items)
    requires SlotsFit(GetValuesByIndices(records, arg), q)
    ensures q.OneSlot? <==> r.Single?
    ensures r.Single? ==> r.column == ReadSlot(GetValuesByIndices(records, arg), q.slot)
    ensures r.Several? ==> r.columns == ReadSlots(GetValuesByIndices(records, arg), q.slots)
  {
    var selected := GetValuesByIndices(records, arg);
    match q
    case OneSlot(s) => Single(ReadSlot(selected, s))
    case SlotList(slots) => Several(ReadSlots(selected, slots))
  }

  /** For a list of non-negative indices, slot selection reads the slot of
      exactly the named records, in the order named. */
  lemma SlotSelectionByPosition(records: seq<Record>, items: seq<Index>, s: nat)
    requires forall k :: 0 <= k < |items| ==> items[k].At? && 0 <= items[k].i < |records|
    requires forall k :: 0 <= k < |items| ==> s < |records[items[k].i]|
    ensures AllInBounds(|records|, items)
    ensures var selected := GetValuesByIndices(records, IndexList(items));
      SlotsFit(selected, OneSlot(s)) &&
      GetValuesByIndicesForSlots(records, IndexList(items), OneSlot(s)) ==
        Single(seq(|items|, k requires 0 <= k < |items| => records[items[k].i][s]))
  {
    var selected := GetValuesByIndices(records, IndexList(items));
    assert forall k :: 0 <= k < |items| ==> selected[k] == records[items[k].i];
  }
}
