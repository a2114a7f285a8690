/** The per-input loop of `main` in lib/add.py as a pure state transition:
    resolve dependencies through the run cache, abort when any cached entry
    is falsy, parse, then commit each produced field (skip duplicates unless
    replacing, merge lineage ranges, register, set the record count, write,
    cache). Disk reads, parsers and the metadata object are given as
    parameters or modelled by maps. */
module Ingest {
  import opened Seqs
  import Fields
  import Deps
  import Selection

  /** A numeric `[low, high]` range. */
  datatype Range = Range(lo: real, hi: real)

  /** A lineage entry: a parent id that may carry a range. */
  datatype Parent = Parent(id: string, range: Option<Range>)

  /** What the metadata holds for one id: the lineage it was registered under
      and the range recorded for it, if any. */
  datatype FieldMeta = FieldMeta(lineage: seq<Parent>, range: Option<Range>)

  /** The dataset metadata: entries by id and the record count. */
  datatype Meta = Meta(fields: map<string, FieldMeta>, records: nat)

  /** One field returned by a parser, with its own lineage entries
      (`data.parents`). */
  datatype Produced = Produced(field: Fields.Field, parents: seq<Parent>)

  /** A parser returns one field or a list of fields. */
  datatype ParseResult = Single(item: Produced) | Several(items: seq<Produced>)

  /** One entry of the `FIELDS` table: the command-line flag, the required
      dependencies and the optional ones. */
  datatype InputKind = InputKind(flag: string, depends: seq<string>, optional: seq<string>)

  /** The `FIELDS` table, in declaration order. */
  const InputKinds: seq<InputKind> := [
    InputKind("--bed", [], ["identifiers"]),
    InputKind("--beddir", [], ["identifiers"]),
    InputKind("--fasta", [], ["identifiers"]),
    InputKind("--blobdb", ["identifiers"], []),
    InputKind("--busco", ["identifiers"], []),
    InputKind("--text", ["identifiers"], []),
    InputKind("--trnascan", ["identifiers"], []),
    InputKind("--cov", ["identifiers", "length", "ncount"], []),
    InputKind("--hits", ["identifiers", "length"], []),
    InputKind("--synonyms", ["identifiers"], [])
  ]

  type Cache = Deps.Cache<Fields.Field>

  /** Everything the loop reads and changes: the metadata, the dependency
      cache and the field files written so far (by field id). */
  datatype State = State(meta: Meta, cache: Cache, written: map<string, Fields.Field>)

  /** A run ends normally or with the fatal abort naming the missing field;
      files written before the abort stay written. */
  datatype Outcome = Completed(state: State) | Aborted(missing: string, state: State)

  /** The collaborators the loop calls: the field files on disk (what
      `fetch_field` can load), each parser module's `parent()` lineage, and
      each parser's `parse`, which sees the dependency cache. */
  datatype World = World(
    disk: map<string, Fields.Field>,
    moduleParents: string -> seq<Parent>,
    parse: (string, Cache) -> ParseResult)

  /** `fetch_field`: the field file if it exists, a falsy value otherwise. */
  function Fetch(disk: map<string, Fields.Field>, id: string): Option<Fields.Field> {
    if id in disk then Some(disk[id]) else None
  }

  /** `has_field_warning`: 1 when the id is already registered, 0 otherwise. */
  function HasFieldWarning(meta: Meta, fieldId: string): (r: int)
    ensures r == 1 <==> fieldId in meta.fields
    ensures r == 0 <==> fieldId !in meta.fields
  {
    if fieldId in meta.fields then 1 else 0
  }

  function Min(a: real, b: real): real {
    if a <= b then a else b
  }

  function Max(a: real, b: real): real {
    if a >= b then a else b
  }

  /** The range merge: the smallest range covering both. */
  function MergeRange(incoming: Range, existing: Range): (r: Range)
    ensures r.lo <= incoming.lo && r.lo <= existing.lo && (r.lo == incoming.lo || r.lo == existing.lo)
    ensures r.hi >= incoming.hi && r.hi >= existing.hi && (r.hi == incoming.hi || r.hi == existing.hi)
  {
    Range(Min(incoming.lo, existing.lo), Max(incoming.hi, existing.hi))
  }

  lemma MergeCommutative(a: Range, b: Range)
    ensures MergeRange(a, b) == MergeRange(b, a)
  {
  }

  lemma MergeAssociative(a: Range, b: Range, c: Range)
    ensures MergeRange(MergeRange(a, b), c) == MergeRange(a, MergeRange(b, c))
  {
  }

  /** Merging a range with itself, or merging the same range in again,
      changes nothing. */
  lemma MergeIdempotent(a: Range, b: Range)
    ensures MergeRange(a, a) == a
    ensures MergeRange(MergeRange(a, b), b) == MergeRange(a, b)
  {
  }

  /** The range a lineage entry carries after the merge loop: merged with the
      range already recorded for its id when both exist, unchanged otherwise. */
  function MergeParent(meta: Meta, p: Parent): (r: Parent)
    ensures r.id == p.id && r.range.Some? == p.range.Some?
    ensures (p.range.Some? && p.id in meta.fields && meta.fields[p.id].range.Some?) ==>
      r.range == Some(MergeRange(p.range.value, meta.fields[p.id].range.value))
    ensures !(p.range.Some? && p.id in meta.fields && meta.fields[p.id].range.Some?) ==> r == p
  {
    if p.range.Some? && p.id in meta.fields && meta.fields[p.id].range.Some? then
      p.(range := Some(MergeRange(p.range.value, meta.fields[p.id].range.value)))
    else p
  }

  /** The merge loop over `data.parents`; every entry is merged against the
      metadata as it was before the field is registered. */
  function MergeParents(meta: Meta, parents: seq<Parent>): (r: seq<Parent>)
    ensures |r| == |parents|
    ensures forall k :: 0 <= k < |parents| ==> r[k] == MergeParent(meta, parents[k])
  {
    seq(|parents|, k requires 0 <= k < |parents| => MergeParent(meta, parents[k]))
  }

  /** Stand-in for `meta.add_field(lineage, ...)`, whose implementation is not
      part of this model: every lineage entry carrying a range records it
      under its id (later entries win), then the field id is registered with
      the lineage, keeping any range already recorded for it. */
  function AddField(meta: Meta, lineage: seq<Parent>, fieldId: string): (r: Meta)
    ensures fieldId in r.fields && r.fields[fieldId].lineage == lineage
    ensures r.records == meta.records
    ensures meta.fields.Keys <= r.fields.Keys
  {
    var fields := RecordRanges(meta.fields, lineage);
    var kept := if fieldId in fields then fields[fieldId].range else None;
    meta.(fields := fields[fieldId := FieldMeta(lineage, kept)])
  }

  function RecordRanges(fields: map<string, FieldMeta>, lineage: seq<Parent>): (r: map<string, FieldMeta>)
    ensures fields.Keys <= r.Keys
    ensures forall id :: id in fields && (forall k :: 0 <= k < |lineage| ==> lineage[k].id != id) ==>
      r[id] == fields[id]
    decreases |lineage|
  {
    if |lineage| == 0 then fields
    else
      var p := lineage[0];
      var next :=
        if p.range.Some? then
          var lineageBefore := if p.id in fields then fields[p.id].lineage else [];
          fields[p.id := FieldMeta(lineageBefore, p.range)]
        else fields;
      RecordRanges(next, lineage[1..])
  }

  /** Committing one produced field. Without `replace`, a field whose id is
      registered is skipped and nothing changes. Otherwise its lineage ranges
      are merged, it is registered under `moduleParents + data.parents`, an
      identifier field sets the record count, its file is written and it is
      cached under its id. */
  function Commit(st: State, moduleParents: seq<Parent>, data: Produced, replace: bool): (r: State)
    requires Deps.WellFormed(st.cache)
    ensures Deps.WellFormed(r.cache)
    ensures st.meta.fields.Keys <= r.meta.fields.Keys
    ensures data.field.fieldId in r.meta.fields
    ensures !replace && data.field.fieldId in st.meta.fields ==> r == st
    ensures replace || data.field.fieldId !in st.meta.fields ==>
      var id := data.field.fieldId;
      && r.meta.fields[id].lineage == moduleParents + MergeParents(st.meta, data.parents)
      && r.meta.records == (if data.field.Identifier? then |data.field.names| else st.meta.records)
      && r.written == st.written[id := data.field]
      && Deps.Lookup(r.cache, id) == Some(Some(data.field))
      && (forall other :: other != id ==> Deps.Lookup(r.cache, other) == Deps.Lookup(st.cache, other))
  {
    var id := data.field.fieldId;
    if !replace && HasFieldWarning(st.meta, id) == 1 then st
    else
      var lineage := moduleParents + MergeParents(st.meta, data.parents);
      var meta := AddField(st.meta, lineage, id);
      var meta' := if data.field.Identifier? then meta.(records := |data.field.names|) else meta;
      State(meta', Deps.Put(st.cache, id, Some(data.field)), st.written[id := data.field])
  }

  /** A single parse result becomes a one-element list; a list of results is
      kept as it is. */
  function Normalize(parsed: ParseResult): seq<Produced> {
    match parsed
    case Single(item) => [item]
    case Several(items) => items
  }

  /** Commit the produced fields in order. */
  function CommitAll(st: State, moduleParents: seq<Parent>, items: seq<Produced>, replace: bool): (r: State)
    requires Deps.WellFormed(st.cache)
    ensures Deps.WellFormed(r.cache)
    ensures st.meta.fields.Keys <= r.meta.fields.Keys
    decreases |items|
  {
    if |items| == 0 then st
    else CommitAll(Commit(st, moduleParents, items[0], replace), moduleParents, items[1..], replace)
  }

  /** After committing a parse result every produced id is registered,
      whether it was committed now or skipped as already present. */
  lemma {:induction false} CommitAllRegisters(st: State, moduleParents: seq<Parent>, items: seq<Produced>, replace: bool)
    requires Deps.WellFormed(st.cache)
    ensures var r := CommitAll(st, moduleParents, items, replace);
      forall k :: 0 <= k < |items| ==> items[k].field.fieldId in r.meta.fields
    decreases |items|
  {
    if |items| > 0 {
      var next := Commit(st, moduleParents, items[0], replace);
      CommitAllRegisters(next, moduleParents, items[1..], replace);
      assert forall k :: 1 <= k < |items| ==> items[k] == items[1..][k - 1];
    }
  }

  /** The dependency loop: an id is fetched only when it has no entry or a
      falsy one, so fields already cached in this run are reused. Its
      properties are `ResolveSpec`. */
  function Resolve(cache: Cache, deps: seq<string>, disk: map<string, Fields.Field>): (r: Cache)
    requires Deps.WellFormed(cache)
    ensures Deps.WellFormed(r)
    decreases |deps|
  {
    if |deps| == 0 then cache
    else
      var dep := deps[0];
      var next := if Deps.Truthy(cache, dep) then cache else Deps.Put(cache, dep, Fetch(disk, dep));
      Resolve(next, deps[1..], disk)
  }

  /** After resolution every listed id has an entry; a truthy entry is kept;
      a listed id whose entry was absent or falsy holds what the disk gives;
      ids not listed are untouched. */
  lemma ResolveSpec(cache: Cache, deps: seq<string>, disk: map<string, Fields.Field>)
    requires Deps.WellFormed(cache)
    ensures var r := Resolve(cache, deps, disk);
      && (forall id :: id in deps ==> Deps.Lookup(r, id).Some?)
      && (forall id :: Deps.Truthy(cache, id) ==> Deps.Lookup(r, id) == Deps.Lookup(cache, id))
      && (forall id :: id in deps && !Deps.Truthy(cache, id) ==> Deps.Lookup(r, id) == Some(Fetch(disk, id)))
      && (forall id :: id !in deps ==> Deps.Lookup(r, id) == Deps.Lookup(cache, id))
  {
    forall id
      ensures var r := Resolve(cache, deps, disk);
        && (id in deps ==> Deps.Lookup(r, id).Some?)
        && (Deps.Truthy(cache, id) ==> Deps.Lookup(r, id) == Deps.Lookup(cache, id))
        && (id in deps && !Deps.Truthy(cache, id) ==> Deps.Lookup(r, id) == Some(Fetch(disk, id)))
        && (id !in deps ==> Deps.Lookup(r, id) == Deps.Lookup(cache, id))
    {
      ResolveAt(cache, deps, disk, id);
    }
  }

  /** `ResolveSpec` for one id. */
  lemma {:induction false} ResolveAt(cache: Cache, deps: seq<string>, disk: map<string, Fields.Field>, id: string)
    requires Deps.WellFormed(cache)
    ensures var r := Resolve(cache, deps, disk);
      && (Deps.Truthy(cache, id) ==> Deps.Lookup(r, id) == Deps.Lookup(cache, id))
      && (id in deps && !Deps.Truthy(cache, id) ==> Deps.Lookup(r, id) == Some(Fetch(disk, id)))
      && (id !in deps ==> Deps.Lookup(r, id) == Deps.Lookup(cache, id))
    decreases |deps|
  {
    if |deps| > 0 {
      var dep, rest := deps[0], deps[1..];
      assert deps == [dep] + rest;
      var next := if Deps.Truthy(cache, dep) then cache else Deps.Put(cache, dep, Fetch(disk, dep));
      ResolveAt(next, rest, disk, id);
      if id == dep && !Deps.Truthy(cache, dep) {
        assert Deps.Lookup(next, id) == Some(Fetch(disk, id));
      } else {
        assert Deps.Lookup(next, id) == Deps.Lookup(cache, id);
      }
    }
  }

  /** One requested input: resolve the required dependencies; abort if any
      cache entry, not only this input's, is falsy; otherwise resolve the
      optional dependencies, parse, and commit every produced field. */
  function ProcessKind(st: State, kind: InputKind, world: World, replace: bool): (r: Outcome)
    requires Deps.WellFormed(st.cache)
    ensures Deps.WellFormed(r.state.cache)
    ensures var required := Resolve(st.cache, kind.depends, world.disk);
      && (r.Aborted? <==> Deps.FirstFalsy(required).Some?)
      && (r.Aborted? ==>
            r.missing == Deps.FirstFalsy(required).value
            && r.state == st.(cache := required))
      && (r.Completed? ==>
            var resolved := Resolve(required, kind.optional, world.disk);
            r.state == CommitAll(st.(cache := resolved), world.moduleParents(kind.flag),
                                 Normalize(world.parse(kind.flag, resolved)), replace))
  {
    var required := Resolve(st.cache, kind.depends, world.disk);
    match Deps.FirstFalsy(required)
    case Some(missing) => Aborted(missing, st.(cache := required))
    case None =>
      var resolved := Resolve(required, kind.optional, world.disk);
      var items := Normalize(world.parse(kind.flag, resolved));
      Completed(CommitAll(st.(cache := resolved), world.moduleParents(kind.flag), items, replace))
  }

  /** The loop of `main` from a given state over the remaining table entries,
      processing an entry only when its flag was given. */
  function RunFrom(kinds: seq<InputKind>, flags: seq<string>, world: World, replace: bool, st: State): (r: Outcome)
    requires Deps.WellFormed(st.cache)
    ensures Deps.WellFormed(r.state.cache)
    decreases |kinds|
  {
    if |kinds| == 0 then Completed(st)
    else if kinds[0].flag !in flags then RunFrom(kinds[1..], flags, world, replace, st)
    else
      match ProcessKind(st, kinds[0], world, replace)
      case Aborted(missing, s) => Aborted(missing, s)
      case Completed(s) => RunFrom(kinds[1..], flags, world, replace, s)
  }

  /** The commit loop of `main` for the flags given on the command line,
      starting from the loaded metadata and an empty cache. */
  function Run(flags: seq<string>, world: World, meta: Meta, replace: bool): Outcome {
    RunFrom(InputKinds, flags, world, replace, State(meta, [], map[]))
  }

  /** Inputs are processed in table order: the order of the flags on the
      command line does not matter, only which flags are given. */
  lemma {:induction false} FlagOrderIrrelevant(kinds: seq<InputKind>, flags1: seq<string>, flags2: seq<string>,
                                                world: World, replace: bool, st: State)
    requires Deps.WellFormed(st.cache)
    requires forall f :: f in flags1 <==> f in flags2
    ensures RunFrom(kinds, flags1, world, replace, st) == RunFrom(kinds, flags2, world, replace, st)
    decreases |kinds|
  {
    if |kinds| > 0 {
      FlagOrderIrrelevant(kinds[1..], flags1, flags2, world, replace, st);
      match ProcessKind(st, kinds[0], world, replace)
      case Aborted(_, _) =>
      case Completed(s) => FlagOrderIrrelevant(kinds[1..], flags1, flags2, world, replace, s);
    }
  }

  /** A field committed earlier in the run is reused by a later input's
      dependency resolution instead of being fetched from disk. */
  lemma CommittedFieldReused(st: State, moduleParents: seq<Parent>, data: Produced,
                             deps: seq<string>, disk: map<string, Fields.Field>)
    requires Deps.WellFormed(st.cache)
    requires data.field.fieldId !in st.meta.fields
    ensures var after := Commit(st, moduleParents, data, false);
      Deps.Lookup(Resolve(after.cache, deps, disk), data.field.fieldId) == Some(Some(data.field))
  {
    var after := Commit(st, moduleParents, data, false);
    ResolveAt(after.cache, deps, disk, data.field.fieldId);
  }

  /** A falsy cache entry whose file is not on disk aborts the next requested
      input, whatever that input depends on: the abort check looks at the
      whole cache, so a missing optional dependency of an earlier input stops
      a later one. */
  lemma {:induction false} FalsyEntryAborts(st: State, kind: InputKind, world: World, replace: bool, id: string)
    requires Deps.WellFormed(st.cache)
    requires Deps.Lookup(st.cache, id) == Some(None)
    requires id !in world.disk
    ensures ProcessKind(st, kind, world, replace).Aborted?
  {
    var required := Resolve(st.cache, kind.depends, world.disk);
    ResolveAt(st.cache, kind.depends, world.disk, id);
    assert Deps.Lookup(required, id) == Some(None);
    var k :| 0 <= k < |required| && required[k].id == id && required[k].value == None;
  }

  /** The example world: an empty data directory, parsers that take no
      lineage from their module and return a single variable field of BED
      coverage. */
  function BedOnlyWorld(): World {
    World(map[], _ => [], (_, _) => Single(Produced(Fields.Variable("bed_cov", [], Selection.Whole), [])))
  }

  /** With no metadata and an empty cache, the BED input completes: it writes
      its field and leaves a falsy `identifiers` entry before it in the cache. */
  lemma BedStep()
    ensures var r := ProcessKind(State(Meta(map[], 0), [], map[]), InputKinds[0], BedOnlyWorld(), false);
      var bed := Fields.Variable("bed_cov", [], Selection.Whole);
      && r.Completed?
      && r.state.written == map["bed_cov" := bed]
      && r.state.cache == [Deps.Entry("identifiers", None), Deps.Entry("bed_cov", Some(bed))]
  {
    var world := BedOnlyWorld();
    var kind := InputKinds[0];
    assert kind.depends == [] && kind.optional == ["identifiers"];
    var resolved := Resolve([], kind.optional, world.disk);
    assert resolved == [Deps.Entry("identifiers", None)];
    var items := Normalize(world.parse(kind.flag, resolved));
    assert items == [Produced(Fields.Variable("bed_cov", [], Selection.Whole), [])];
  }

  /** The BUSCO input then refetches the falsy `identifiers`, finds nothing
      and aborts, leaving the state as it was. */
  lemma BuscoStep(st: State)
    requires st.cache == [Deps.Entry("identifiers", None), Deps.Entry("bed_cov", Some(Fields.Variable("bed_cov", [], Selection.Whole)))]
    ensures ProcessKind(st, InputKinds[4], BedOnlyWorld(), false) == Aborted("identifiers", st)
  {
    var kind := InputKinds[4];
    assert kind.depends == ["identifiers"];
    assert Deps.Truthy(st.cache, "identifiers") == false;
    assert Deps.Find(st.cache, "identifiers") == Some(0);
    var required := Resolve(st.cache, kind.depends, BedOnlyWorld().disk);
    assert required == st.cache;
  }

  /** After the BED input, the three table entries whose flags were not given
      are passed over and the BUSCO input aborts. */
  lemma AfterBed(flags: seq<string>, world: World, s1: State)
    requires flags == ["--busco", "--bed"] && world == BedOnlyWorld()
    requires s1.cache == [Deps.Entry("identifiers", None), Deps.Entry("bed_cov", Some(Fields.Variable("bed_cov", [], Selection.Whole)))]
    ensures RunFrom(InputKinds[1..], flags, world, false, s1) == Aborted("identifiers", s1)
  {
    var tail := InputKinds[1..];
    assert forall k :: 0 <= k < 3 ==> tail[k].flag !in flags;
    SkipUnrequested(tail, flags, world, false, s1, 3);
    assert tail[3..][0] == InputKinds[4];
    BuscoStep(s1);
  }

  /** Worked example: with an empty data directory, `--busco --bed` runs the
      BED input first; its optional `identifiers` fetch leaves a falsy entry,
      so the BUSCO input aborts naming `identifiers` after the BED field has
      been written. */
  lemma MissingOptionalExample(flags: seq<string>, world: World)
    requires flags == ["--busco", "--bed"] && world == BedOnlyWorld()
    ensures var r := Run(flags, world, Meta(map[], 0), false);
      r.Aborted? && r.missing == "identifiers" && r.state.written == map["bed_cov" := Fields.Variable("bed_cov", [], Selection.Whole)]
  {
    var st0 := State(Meta(map[], 0), [], map[]);
    BedStep();
    var s1 := ProcessKind(st0, InputKinds[0], world, false).state;
    AfterBed(flags, world, s1);
    assert InputKinds[0].flag in flags;
  }

  /** Table entries whose flag was not given are passed over without any
      effect on the state. */
  lemma {:induction false} SkipUnrequested(kinds: seq<InputKind>, flags: seq<string>, world: World, replace: bool,
                                           st: State, n: nat)
    requires Deps.WellFormed(st.cache)
    requires n <= |kinds|
    requires forall k :: 0 <= k < n ==> kinds[k].flag !in flags
    ensures RunFrom(kinds, flags, world, replace, st) == RunFrom(kinds[n..], flags, world, replace, st)
    decreases n
  {
    if n > 0 {
      assert kinds[1..][n - 1..] == kinds[n..];
      assert forall k :: 0 <= k < n - 1 ==> kinds[1..][k] == kinds[k + 1];
      SkipUnrequested(kinds[1..], flags, world, replace, st, n - 1);
    }
  }
}
