# BlobToolKit fields and the `blobtools add` commit loop, in Dafny

This project models two cooperating parts of BlobToolKit's Python library.

1. **The typed field model of `lib/field.py`.** The six field kinds are one
   `Fields.Field` datatype with a variant per kind: the generic `Field`,
   `Identifier`, `Variable`, `Category`, `Array` and `MultiArray`. Around the
   category codec (`_collapse_values` / `_expand_values`) sit:
   - the selections every field shares: values at indices, indices of
     values, the narrowed subset, and replacing values;
   - identifier uniqueness and name-list validation;
   - inclusive and inverted range selection, with its three negative
     sentinels;
   - subset summation;
   - the `Category`, `Array` and `MultiArray` constructors, which run the
     codec over plain values, over one slot of each record, or over one slot
     flattened across nested rows.
2. **The per-input loop of `main` in `lib/add.py`.** It is modelled as a pure
   state machine over three things: the dataset metadata (field id to lineage
   and optional `[lo, hi]` range, plus the record count), the run-scoped
   dependency cache, and the field files written so far. Parsers, their
   modules' lineage and the files on disk are parameters of the run (`World`).

Modules:
- `Seqs`: options, distinctness, positions, filtered indices.
- `Codec`: the category codec.
- `Selection`: the `Field` selections.
- `Identifiers`
- `Variables`
- `Records`: slot encoding for arrays.
- `Fields`: the field datatype and its constructors.
- `Deps`: the insertion-ordered dependency cache.
- `Ingest`: the commit loop.

Python lists become sequences and dictionaries become maps. The cache is an
insertion-ordered list of entries, because the abort check reports the first
falsy entry in insertion order. Each in-place mutation in the source is a
function that returns the new value: the `Array` constructor rewriting the
caller's records, and the range merge rewriting parent entries.

The disk is a fixed map. This loses nothing, for two reasons. First, a field
written during the run is at once cached as truthy, so it is never fetched
again. Second, a falsy cache entry names a file that was not found and that
the run has not produced since.

## Model

| member | source | states |
|---|---|---|
| Codec.Collapse | lib/field.py:118-131 | No contract of its own; `Codec.CollapseSpec` states its properties and `Codec.CollapseValues` relates it to the loop. |
| Codec.Expand | lib/field.py:141 | One value per index, and each is the key that index names. |
| Codec.CollapseSpec | lib/field.py:111-131 | With duplicate-free fixed keys, the key table starts with the fixed keys verbatim, has no duplicates, and holds exactly the fixed keys and the values. New keys appear in first-occurrence order. There is one index per value, each index is below the table length, and it names that value's key. |
| Codec.CollapseValues | lib/field.py:118-131 | The dictionary-and-counter loop (positions seeded from the fixed keys, the counter starting at their number, new values inserted at the counter) computes the same key table and indices as the recursive definition. |
| Codec.RoundTrip | lib/field.py:111-142 | For any values and duplicate-free fixed keys, expanding the collapse gives back exactly the values. |
| Codec.ReverseRoundTrip | lib/field.py:111-142 | Collapsing an expansion against its own duplicate-free key table gives back that table and those indices. |
| Codec.DescribesUnique | lib/field.py:118-131 | Two encodings of the same values against the same fixed keys that both meet the codec's description (fixed prefix, no duplicates, exactly the fixed keys and the values, new keys in first-occurrence order, each index naming its value) are equal. |
| Codec.DescribesIsCollapse | lib/field.py:118-131 | Any key table and indices meeting that description are exactly what `_collapse_values` returns. |
| Codec.CollapseIdempotent | lib/field.py:118-131 | Collapsing again with the produced key table as the fixed keys reproduces the same table and indices. |
| Codec.CollapseLargerPrefix | lib/field.py:118-131 | Collapsing again with any prefix of the produced key table at least as long as the fixed keys reproduces the same table and indices, so later keys keep their order. |
| Codec.CollapseExample | lib/field.py:115-116 | The doctest: `['A','A','B','A']` collapses to keys `['A','B']` and indices `[0,0,1,0]`. |
| Codec.CollapseAlternating | lib/field.py:118-131 | Any two different values in the pattern `x, y, x` collapse to keys `[x, y]` and indices `[0, 1, 0]`. |
| Codec.ExpandExample | lib/field.py:138-139 | The doctest: keys `['A','B']` with indices `[0,0,1,0]` expand to `['A','A','B','A']`. |
| Selection.ValuesAt | lib/field.py:56-61 | The result is no longer than the index list and holds only field values. With only integer entries it has one value per entry, the value at that position, with negative positions counted from the end. |
| Selection.GetValuesByIndices | lib/field.py:51-61 | A single entry behaves as a one-element list. An integer entry yields the value at its Python position. A non-integer entry yields nothing. |
| Selection.SkippedEntriesIrrelevant | lib/field.py:56-60 | Dropping the non-integer entries (the caught `TypeError`) before the lookup leaves the result unchanged. |
| Selection.GetIndicesByValues | lib/field.py:63-71 | The result holds exactly the positions whose value is in the query (a scalar wrapped, a list turned into a set), in strictly ascending order. |
| Selection.QueryOrderIrrelevant | lib/field.py:63-71 | Two queries with the same members give the same indices, whatever their order, repetition or packaging. |
| Selection.SelectRecords | lib/field.py:73-81 | A non-list argument clears the narrowing. A list narrows it to exactly `get_values_by_indices` of that list. |
| Selection.Subset | lib/field.py:92-100 | No contract of its own; `Selection.SubsetAfterSelect` states what the property reads after each kind of selection. |
| Selection.SubsetAfterSelect | lib/field.py:73-108 | After a selection, the subset property reads the values at the selected positions in order. After a non-list argument it reads all values. |
| Selection.UpdateValues | lib/field.py:42-45 | The length never changes. A replacement of equal length is taken whole; any other replacement leaves the values as they were. |
| Identifiers.CheckUnique | lib/field.py:160-166 | The set-size comparison is true exactly when the entries have no repeats. |
| Identifiers.ValidateList | lib/field.py:168-176 | A valid list is duplicate-free. When the identifier values are unique, a list is valid exactly when it is duplicate-free and every name is an identifier. |
| Identifiers.FoundCountMeansPresent | lib/field.py:171-173 | Over unique values and unique names, the count of matching positions equals the number of names exactly when every name occurs. |
| Variables.GetIndicesInRange | lib/field.py:187-203 | -1 exactly for a non-list, -2 exactly for a list whose length is not two, -3 exactly for two entries that are not both numeric, and indices exactly for two numeric bounds. The indices are ascending and are exactly the positions inside `[lo, hi]`, or outside it when inverted. |
| Variables.RangeSplit | lib/field.py:195-203 | For the same bounds, the inclusive and the inverted selections are disjoint, cover every position, and their lengths add up to the number of values. |
| Variables.ReduceIsTotal | lib/field.py:205-211 | The left fold of `reduce(add, …)` over a non-empty sequence equals its arithmetic sum. |
| Variables.SumValues | lib/field.py:205-211 | The result is the sum of the current subset, and 0 when the subset is empty (the caught `TypeError`). |
| Variables.RangeExample | lib/field.py:195-203 | Values 1, 5, 9 with bounds 0 and 6 select `[0, 1]`, and `[2]` when inverted. |
| Variables.SentinelExample | lib/field.py:189-194 | A non-list gives -1, three bounds give -2, and two non-numeric bounds give -3. |
| Records.RecordsRoundTrip | lib/field.py:222-226 | Writing key indices into the slot and reading the keys back restores every record. |
| Records.EncodeArray | lib/field.py:220-226 | The key table and the codes now in the slots are the codec's description of the original slot column against the fixed keys, so they are the codec's output. Every other slot and the record count are unchanged. Each record's slot holds a valid index whose key is the original slot value, so decoding restores the records. |
| Records.RowsRoundTrip | lib/field.py:257-269 | Handing indices out in row-then-record order and decoding row by row restores every row. |
| Records.EncodeMultiArray | lib/field.py:255-269 | The key table and the codes read back row by row, then record by record, are the codec's description of the slot values flattened in that order. Row count, row lengths (empty rows included) and every other slot are kept. Each index is valid, and decoding restores the rows. |
| Records.EncodersAreCodec | lib/field.py:220-269 | For both array encoders, the key table with the codes read back from the slots equals `_collapse_values` of the slot column. |
| Records.GetValuesByIndicesForSlots | lib/field.py:230-238 | A single slot gives one value per selected record; a list of slots gives one list per selected record. Both read the requested slots of the records that `get_values_by_indices` selects. |
| Records.SlotSelectionByPosition | lib/field.py:230-238 | For non-negative integer indices, reading one slot gives that slot of exactly the named records, in the order named. |
| Fields.NewCategory | lib/field.py:277-283 | Without `keys`, the key table and codes are the codec's description of the values against `fixed_keys`: the fixed keys first, no duplicates, new keys in first-occurrence order, one code per value naming that value. The type is `category`. With `keys`, both are kept as given. |
| Fields.ExpandValues | lib/field.py:285-287 | No contract of its own; `Fields.CategoryRoundTrip` states that it returns the values a category was built from. |
| Fields.CategoryRoundTrip | lib/field.py:279-287 | `expand_values` of a category built from raw values returns exactly those values. |
| Fields.CategoryExample | lib/field.py:277-287 | `x, y, x` becomes keys `[x, y]` and codes `[0, 1, 0]`. |
| Fields.NewArray | lib/field.py:217-228 | Encoding happens only with `category_slot` given and `keys` absent. Then the key table and the slot codes are the codec's description of the slot column, other slots are kept and decoding restores the values. Otherwise values and keys are kept. Headers, slot and record count are always kept, and the type is `array`. |
| Fields.NewMultiArray | lib/field.py:252-271 | The same for nested rows. When encoding, the key table and the codes read row by row, then record by record, are the codec's description of the flattened slot column. The type is also `array`. |
| Fields.SelectVariableRecords | lib/field.py:73-81 | Selecting records on a variable changes only its narrowing. The new narrowing is what `select_records` stores: cleared for a non-list argument, otherwise the values `get_values_by_indices` returns for the list. |
| Fields.SumAfterSelect | lib/field.py:205-211 | After selecting integer positions, `sum_values` adds exactly the values at those positions. After clearing, it adds every value. |
| Fields.SumAtPositions | lib/field.py:73-81 | For any values and in-bounds integer positions, the sum after selecting those positions is the sum of the values read at them, in the order given. |
| Deps.Lookup | lib/add.py:125 | There is no entry exactly when no cache entry has the id. Otherwise the result is that entry's (possibly falsy) value. |
| Deps.Truthy | lib/add.py:125 | No contract of its own; `Deps.NoFalsyMeansAllTruthy` and `Ingest.ResolveSpec` state what it decides. |
| Deps.Put | lib/add.py:126 | After the assignment the id maps to the new value, and every other id keeps its entry. An existing entry keeps its position; a new one goes last. Ids stay distinct. |
| Deps.FirstFalsy | lib/add.py:127-133 | Nothing is reported exactly when every entry holds a field. Otherwise the report is the id of the first falsy entry in insertion order. |
| Deps.NoFalsyMeansAllTruthy | lib/add.py:127-133 | The abort check passes exactly when every cached id is truthy. |
| Ingest.HasFieldWarning | lib/add.py:101-110 | Returns 1 exactly when the id is already registered, and 0 exactly when it is not. |
| Ingest.Fetch | lib/add.py:126 | No contract of its own; `Ingest.ResolveSpec` states that a listed id without a truthy entry holds what it returns. |
| Ingest.MergeRange | lib/add.py:159-164 | The merged low is the smaller of the two lows and the merged high is the larger of the two highs: each bound covers both ranges and equals one of them. |
| Ingest.MergeCommutative | lib/add.py:159-164 | Merging is commutative. |
| Ingest.MergeAssociative | lib/add.py:159-164 | Merging is associative. |
| Ingest.MergeIdempotent | lib/add.py:159-164 | A range merged with itself is unchanged, and merging the same range in twice equals merging it once. |
| Ingest.MergeParent | lib/add.py:155-164 | A lineage entry's range is merged only when the entry has a range and the metadata already records one for that id. Otherwise the entry is kept as it is. |
| Ingest.MergeParents | lib/add.py:155-164 | Every lineage entry of the parsed field is merged against the metadata as it stood before the field is registered, and the order is kept. |
| Ingest.Commit | lib/add.py:151-170 | Without replace, an already registered id leaves the whole state unchanged: no registration, no write, no cache entry. Otherwise the field is registered under the module's lineage followed by its merged lineage, and an identifier field sets the record count to its number of names. Its file is written, it is cached under its id, and no other cache entry changes. |
| Ingest.CommitAll | lib/add.py:149-170 | Committing the produced fields one after another keeps the cache free of duplicate ids and never unregisters an id. |
| Ingest.CommitAllRegisters | lib/add.py:149-170 | After committing a parse result, every produced id is registered, whether it was written now or skipped because it was already present. |
| Ingest.Resolve | lib/add.py:123-126 | Resolving dependencies keeps the cache free of duplicate ids. |
| Ingest.ResolveSpec | lib/add.py:123-126 | Every listed dependency ends up with an entry. Truthy entries are kept as they are. A listed id that was absent or falsy holds what the disk gives. Unlisted ids are untouched. |
| Ingest.ResolveAt | lib/add.py:123-126 | The same three facts for a single id. |
| Ingest.ProcessKind | lib/add.py:122-150 | Required dependencies are resolved first. The input aborts exactly when any cache entry is then falsy, reporting the first one and leaving the state otherwise as it was. Only when it does not abort are the optional dependencies resolved and the (normalised) parse result committed. |
| Ingest.Normalize | lib/add.py:149-150 | No contract of its own; `Ingest.ProcessKind` states that the commit step receives its result. |
| Ingest.RunFrom | lib/add.py:121-122 | The cache stays free of duplicate ids. `Ingest.SkipUnrequested` and `Ingest.FlagOrderIrrelevant` state how the loop walks the table. |
| Ingest.Run | lib/add.py:115-122 | No contract of its own; `Ingest.MissingOptionalExample` states a complete run. |
| Ingest.FlagOrderIrrelevant | lib/add.py:121-122 | Inputs run in the order of the input table, so two command lines giving the same flags in any order produce the same outcome. |
| Ingest.CommittedFieldReused | lib/add.py:125-126 | A field committed earlier in the run is found in the cache by a later dependency resolution rather than fetched again. |
| Ingest.FalsyEntryAborts | lib/add.py:127-133 | A falsy cache entry whose file is absent aborts the next requested input, whatever that input depends on. |
| Ingest.BedStep | lib/add.py:138-141 | On an empty directory, a BED input runs, writes its field and leaves a falsy `identifiers` entry from its optional fetch. |
| Ingest.BuscoStep | lib/add.py:123-133 | A BUSCO input meeting that falsy entry fetches it again and aborts, naming `identifiers`, with the state unchanged. |
| Ingest.SkipUnrequested | lib/add.py:121-122 | Input-table entries whose flag was not given are passed over with no effect on the state. |
| Ingest.AfterBed | lib/add.py:121-133 | After the BED input, the unrequested entries are passed over and the BUSCO input aborts with the state unchanged. |
| Ingest.MissingOptionalExample | lib/add.py:121-170 | `--busco --bed` on an empty directory runs BED first, then aborts at BUSCO, naming `identifiers`. The BED field stays written. |

## Left out

- Argument parsing (`docopt`), `fetch_metadata`, `fetch_taxdump`, `file_io.write_file`, every printed message and `sys.exit`. These are I/O. Fetches read a fixed map, writes go to a map, and the exit is the `Aborted` outcome.
- The parser modules (`bed`, `busco`, `cov`, `hits`, …). Each is represented only by its `parent()` lineage and a `parse` function of the flag and the dependency cache. The other arguments the source passes to `parse` (all command-line values, the taxonomy dump, the metadata object) are not modelled.
- The taxonomy-dump fetch for `--hits` (lib/add.py:134-136) and the assembly file update for `--fasta` (lib/add.py:117-118): these feed only the parsers and the metadata file.
- Link, key and taxid updates after the loop, and the final metadata write (lib/add.py:171-185). They are calls into modules that are not part of this model.
- Ingest.AddField: the metadata object's `add_field` is not part of this model. It is replaced by a stand-in, and four of its behaviours are assumed rather than taken from the source. It registers the field under `data.field_id`: the source passes no id, so this assumes `data.meta` names the same id, and the claims of `Ingest.Commit` and `Ingest.CommitAllRegisters` that the produced id is registered rest on it. It never removes an id, which is all that `Commit` and `CommitAll` state about registered ids growing. It registers every lineage entry that carries a range as an id of its own, with that range, so `HasFieldWarning` then skips a later field with that id. The ranges it records are the ones `MergeParent` merges for later fields.
- Ingest.MergeRange: bounds are reals, with no NaN, no infinity and no rounding. With a NaN bound, Python's `min` and `max` depend on argument order, so `Ingest.MergeCommutative` and `Ingest.MergeAssociative` hold only for the reals modelled here.
- Ingest.Produced: every committed field carries a lineage (`data.parents`). Only instances of the `Field` subclasses, which declare no `__slots__` of their own, can hold that attribute. A plain `Field` has `__slots__` without `parents` and no `__dict__`, so committing one raises `AttributeError` in the source. The worked example therefore commits a `Variable`. The model does not represent that failure.
- Codec.Collapse: matches the source only for duplicate-free fixed keys. With repeated fixed keys the source builds its table in an ordered dictionary, which drops the repeats, while its counter starts at the full count. For fixed keys `["a", "a"]` and values `["a", "b"]` the source gives keys `["a", "b"]` and indices `[1, 2]`, but `Collapse` gives keys `["a", "a", "b"]` and indices `[0, 2]`. Every member that states a property of it requires duplicate-free fixed keys.
- Codec.CollapseValues: requires duplicate-free fixed keys, for the same reason.
- Codec.CollapseSpec: requires duplicate-free fixed keys. With repeated fixed keys the source's counter starts past the deduplicated table, and its indices no longer name keys. Callers are assumed not to pass such keys.
- Selection.GetValuesByIndices: an integer index outside `-n .. n-1` raises `IndexError` in the source. The model requires in-range indices instead of modelling the exception.
- Codec.Expand: codes are natural numbers below the key count. In the source a negative code counts from the end of the key table (`keys[-1]` is the last key) and an out-of-range code raises `IndexError`. The same restriction holds for `Fields.ExpandValues` and for the codes of `Fields.CategoryInput.PreEncoded`.
- Records.EncodeArray: the category slot is a natural number that every record is wide enough for. In the source a negative `category_slot` counts from the end of each record, separately for records of different widths, and a slot past the end raises `IndexError`. The same restriction holds for `Records.EncodeMultiArray`, `Fields.NewArray`, `Fields.NewMultiArray` and the slots of `Records.GetValuesByIndicesForSlots`.
- Variables.SumValues: values are reals. The `TypeError` of mixed-type values (which also yields 0) and string concatenation are not modelled; only the empty subset's 0 is.
- Variables.GetIndicesInRange: a bound is numeric or not. Python's `numbers.Real` check also admits booleans and integers; these count as numeric reals here.
- Variables.RangeSplit: values and bounds are reals, with no NaN, no infinity and no rounding. A NaN value fails every comparison, so in the source it is in neither the inclusive nor the inverted selection, and the two do not cover every position.
- The stored narrowing (`_subset`) is carried only by the `Variable` variant, the one kind whose operations read it. `Selection.SelectRecords` and `Selection.Subset` work on any value sequence.
- Record slot values are integers or strings (`Records.Value`), standing in for Python's dynamically typed values. Floating-point slot values are not represented.
- `update_data`/`setattr`, the `hasattr` reflection in `values_to_dict`, the `meta` attribute, `update_keys`, `Identifier.to_set`, `Array.update_slots` and `Category.second_func`. These are reflection, thin copies or trivial accessors outside the codec and selection core.
- Field objects are always truthy (no length or truth method), so a cache entry is falsy exactly when its fetch found nothing.
