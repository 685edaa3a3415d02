/** The importer: read a file's metadata through the configured adapter chain,
    set every declared field that resolves to a value, and persist the asset
    once if anything was set. */
module MetadataImporter {
  import opened Support
  import opened PhpStrings
  import opened Adapters
  import opened FieldResolver
  import opened Host

  /** What one adapter's read (`new MetadataReader($adapter)` and `read`) does. */
  datatype ReadOutcome =
    | ThrewException                             // an `\Exception`: caught, the next adapter is tried
    | ThrewError                                 // any other throwable: not caught, the import aborts
    | NoResult                                   // a falsy return value
    | Found(data: OrderedMap, rawData: OrderedMap)

  /** Why an import aborts. */
  datatype Failure =
    | StreamFailed               // the remote asset could not be streamed to a local file
    | AdapterConstructionFailed  // an adapter's constructor threw
    | ReaderCrashed              // a read threw something that is not an `\Exception`

  /** The PHPExif library as the importer sees it: whether building an adapter
      succeeds, and what reading a file with it yields. */
  datatype Environment = Environment(constructs: Adapter -> bool, read: (Adapter, string) -> ReadOutcome)

  /** One `fields` entry: a blueprint field handle and its sources. */
  datatype FieldSpec = FieldSpec(handle: string, sources: Sources)

  /** The configuration the importer reads. */
  datatype Config = Config(
    fields: seq<FieldSpec>,
    looseMapping: bool,
    adapterMapping: seq<MappingEntry>,
    paths: ToolPaths)

  // ----- the adapter chain, as functions -----

  /** `strtolower(pathinfo($filePath, PATHINFO_EXTENSION))`. */
  function FileExtension(filePath: string): (r: string)
  {
    StrToLower(PathExtension(filePath))
  }

  /** The adapters configured for the file, in priority order. */
  function AdaptersFor(config: Config, filePath: string): (r: seq<Adapter>)
  {
    SelectedAdapters(config.adapterMapping, FileExtension(filePath), config.paths)
  }

  /** Every adapter in the list can be built. */
  predicate AllConstruct(env: Environment, adapters: seq<Adapter>)
  {
    forall a <- adapters :: env.constructs(a)
  }

  /** A read that found metadata: an object whose `data` or `rawData` is not empty. */
  predicate HasMetadata(o: ReadOutcome)
  {
    o.Found? && (o.data != [] || o.rawData != [])
  }

  /** A read that ends the chain: it found metadata, or it threw past the catch. */
  predicate EndsChain(o: ReadOutcome)
  {
    HasMetadata(o) || o.ThrewError?
  }

  /** The position of the adapter whose read ends the chain, or the list's
      length when every read is caught or comes back empty. */
  function StopIndex(adapters: seq<Adapter>, env: Environment, filePath: string): (k: nat)
    ensures k <= |adapters|
  {
    FirstIndex(adapters, a => EndsChain(env.read(a, filePath)))
  }

  /** The metadata the chain yields: the first non-empty read, or no metadata
      when every read threw an `\Exception` or came back empty. */
  function ChainResult(adapters: seq<Adapter>, env: Environment, filePath: string): (r: Result<Metadata, Failure>)
  {
    var k := StopIndex(adapters, env, filePath);
    if k == |adapters| then Ok(NoMetadata)
    else
      var o := env.read(adapters[k], filePath);
      if o.Found? then Ok(Metadata(o.data, o.rawData)) else Err(ReaderCrashed)
  }

  /** `readFileMetadata($filePath)` as a function. */
  function ReadSpec(config: Config, env: Environment, filePath: string): (r: Result<Metadata, Failure>)
  {
    var adapters := AdaptersFor(config, filePath);
    if !AllConstruct(env, adapters) then Err(AdapterConstructionFailed)
    else ChainResult(adapters, env, filePath)
  }

  /** The adapters whose read `readFileMetadata($filePath)` invokes, in order. */
  function Attempted(config: Config, env: Environment, filePath: string): (r: seq<Adapter>)
  {
    var adapters := AdaptersFor(config, filePath);
    var k := StopIndex(adapters, env, filePath);
    if !AllConstruct(env, adapters) then []
    else if k == |adapters| then adapters
    else adapters[..k + 1]
  }

  /** No adapter configured for the extension: no metadata, no read. */
  lemma NoAdaptersNoMetadata(config: Config, env: Environment, filePath: string)
    requires AdaptersFor(config, filePath) == []
    ensures ReadSpec(config, env, filePath) == Ok(NoMetadata)
    ensures Attempted(config, env, filePath) == []
  {
  }

  /** When the `i`-th adapter is the first whose read finds metadata and every
      earlier read was caught or empty, its metadata is the result and no later
      adapter is read. */
  lemma FirstNonEmptyWins(config: Config, env: Environment, filePath: string, i: nat)
    requires var adapters := AdaptersFor(config, filePath);
      && AllConstruct(env, adapters) && i < |adapters|
      && HasMetadata(env.read(adapters[i], filePath))
      && forall j :: 0 <= j < i ==> !EndsChain(env.read(adapters[j], filePath))
    ensures var adapters := AdaptersFor(config, filePath);
      var o := env.read(adapters[i], filePath);
      && ReadSpec(config, env, filePath) == Ok(Metadata(o.data, o.rawData))
      && Attempted(config, env, filePath) == adapters[..i + 1]
  {
    var adapters := AdaptersFor(config, filePath);
    FirstIndexUnique(adapters, a => EndsChain(env.read(a, filePath)), i);
  }

  /** When every read throws an `\Exception` or comes back empty, every
      adapter is read and the result is no metadata. */
  lemma NothingFoundGivesNoMetadata(config: Config, env: Environment, filePath: string)
    requires var adapters := AdaptersFor(config, filePath);
      && AllConstruct(env, adapters)
      && forall j :: 0 <= j < |adapters| ==> !EndsChain(env.read(adapters[j], filePath))
    ensures ReadSpec(config, env, filePath) == Ok(NoMetadata)
    ensures Attempted(config, env, filePath) == AdaptersFor(config, filePath)
  {
    var adapters := AdaptersFor(config, filePath);
    FirstIndexUnique(adapters, a => EndsChain(env.read(a, filePath)), |adapters|);
  }

  /** A read that throws something other than an `\Exception`, before any
      read found metadata, aborts the chain with that adapter as the last one
      read. */
  lemma UncaughtThrowAborts(config: Config, env: Environment, filePath: string, i: nat)
    requires var adapters := AdaptersFor(config, filePath);
      && AllConstruct(env, adapters) && i < |adapters|
      && env.read(adapters[i], filePath).ThrewError?
      && forall j :: 0 <= j < i ==> !EndsChain(env.read(adapters[j], filePath))
    ensures ReadSpec(config, env, filePath) == Err(ReaderCrashed)
    ensures Attempted(config, env, filePath) == AdaptersFor(config, filePath)[..i + 1]
  {
    var adapters := AdaptersFor(config, filePath);
    FirstIndexUnique(adapters, a => EndsChain(env.read(a, filePath)), i);
  }

  /** An adapter whose constructor throws aborts the read before any adapter
      is read, whatever its place in the list. */
  lemma ConstructionFailureAborts(config: Config, env: Environment, filePath: string, a: Adapter)
    requires a in AdaptersFor(config, filePath) && !env.constructs(a)
    ensures ReadSpec(config, env, filePath) == Err(AdapterConstructionFailed)
    ensures Attempted(config, env, filePath) == []
  {
  }

  // ----- field assignment, as functions -----

  /** The value each field entry resolves to, in configuration order. */
  function Resolutions(fields: seq<FieldSpec>, md: Metadata, looseMapping: bool): (vs: seq<Option<string>>)
    ensures |vs| == |fields|
    decreases |fields|
  {
    if fields == [] then []
    else
      var last := fields[|fields| - 1];
      Resolutions(fields[..|fields| - 1], md, looseMapping) + [Resolve(md, last.sources, looseMapping)]
  }

  /** The `k`-th resolution is the value of the `k`-th entry's sources. */
  lemma {:induction false} ResolutionAt(fields: seq<FieldSpec>, md: Metadata, looseMapping: bool, k: nat)
    requires k < |fields|
    ensures Resolutions(fields, md, looseMapping)[k] == Resolve(md, fields[k].sources, looseMapping)
    decreases |fields|
  {
    if k < |fields| - 1 {
      ResolutionAt(fields[..|fields| - 1], md, looseMapping, k);
    }
  }

  /** The `set` call one field entry makes, given the value it resolves to:
      only for a field the blueprint declares, and only with a truthy value. */
  function Assignment(handle: string, blueprint: set<string>, value: Option<string>): (r: seq<Write>)
  {
    if handle in blueprint && Truthy(value) then [Write(handle, value.value)] else []
  }

  /** A log of `set` calls extended by those the first `n` field entries
      make, in configuration order, given the values they resolve to. */
  function LogAfter(log: seq<Write>, fields: seq<FieldSpec>, values: seq<Option<string>>, n: nat, blueprint: set<string>): (r: seq<Write>)
    requires |values| == |fields| && n <= |fields|
  {
    if n == 0 then log
    else
      LogAfter(log, fields, values, n - 1, blueprint)
        + Assignment(fields[n - 1].handle, blueprint, values[n - 1])
  }

  /** Extending a log is appending to it what extends the empty log. */
  lemma {:induction false} LogAfterAppends(log: seq<Write>, fields: seq<FieldSpec>, values: seq<Option<string>>, n: nat, blueprint: set<string>)
    requires |values| == |fields| && n <= |fields|
    ensures LogAfter(log, fields, values, n, blueprint) == log + LogAfter([], fields, values, n, blueprint)
  {
    if n > 0 {
      LogAfterAppends(log, fields, values, n - 1, blueprint);
    }
  }

  /** The `set` calls `mapToAssetField` makes, in configuration order. */
  function Assignments(fields: seq<FieldSpec>, blueprint: set<string>, md: Metadata, looseMapping: bool): (ws: seq<Write>)
  {
    LogAfter([], fields, Resolutions(fields, md, looseMapping), |fields|, blueprint)
  }

  /** A `set` call is in the log the first `n` entries make exactly when
      one of them names a declared field and its value is truthy. */
  lemma {:induction false} LogAfterMembers(fields: seq<FieldSpec>, values: seq<Option<string>>, n: nat, blueprint: set<string>, w: Write)
    requires |values| == |fields| && n <= |fields|
    ensures w in LogAfter([], fields, values, n, blueprint) <==>
      exists k :: 0 <= k < n && fields[k].handle == w.field && w.field in blueprint
                  && Truthy(values[k]) && values[k].value == w.value
  {
    if n > 0 {
      LogAfterMembers(fields, values, n - 1, blueprint, w);
    }
  }

  /** `mapToAssetField` sets a field to a value exactly when some field entry
      names that field, the blueprint declares it, and the entry's sources
      resolve to that (truthy) value. */
  lemma AssignmentsMembers(fields: seq<FieldSpec>, blueprint: set<string>, md: Metadata, looseMapping: bool, w: Write)
    ensures w in Assignments(fields, blueprint, md, looseMapping) <==>
      exists k :: 0 <= k < |fields| && fields[k].handle == w.field && w.field in blueprint
                  && Truthy(Resolve(md, fields[k].sources, looseMapping))
                  && Resolve(md, fields[k].sources, looseMapping).value == w.value
  {
    var values := Resolutions(fields, md, looseMapping);
    LogAfterMembers(fields, values, |fields|, blueprint, w);
    forall k | 0 <= k < |fields| ensures values[k] == Resolve(md, fields[k].sources, looseMapping) {
      ResolutionAt(fields, md, looseMapping, k);
    }
  }

  /** At most one `set` call per field entry. */
  lemma {:induction false} LogAfterLength(fields: seq<FieldSpec>, values: seq<Option<string>>, n: nat, blueprint: set<string>)
    requires |values| == |fields| && n <= |fields|
    ensures |LogAfter([], fields, values, n, blueprint)| <= n
  {
    if n > 0 {
      LogAfterLength(fields, values, n - 1, blueprint);
    }
  }

  /** The record after the first `n` entries' calls is the record after the
      first `n - 1` entries' calls, updated by the `n`-th entry's. */
  lemma ApplyLogAfterStep(loaded: map<string, string>, fields: seq<FieldSpec>, values: seq<Option<string>>,
                          n: nat, blueprint: set<string>)
    requires |values| == |fields| && 0 < n <= |fields|
    ensures Apply(loaded, LogAfter([], fields, values, n, blueprint))
         == Apply(Apply(loaded, LogAfter([], fields, values, n - 1, blueprint)),
                  Assignment(fields[n - 1].handle, blueprint, values[n - 1]))
  {
    ApplyAppend(loaded, LogAfter([], fields, values, n - 1, blueprint),
                Assignment(fields[n - 1].handle, blueprint, values[n - 1]));
  }

  /** One entry's call sets its own field to its value and leaves every
      other field alone. */
  lemma ApplyAssignment(before: map<string, string>, handle: string, blueprint: set<string>, value: Option<string>, field: string)
    ensures var after := Apply(before, Assignment(handle, blueprint, value));
      && (handle in blueprint && Truthy(value) ==> handle in after && after[handle] == value.value)
      && (field != handle ==> (field in after <==> field in before) && (field in before ==> after[field] == before[field]))
  {
    if handle in blueprint && Truthy(value) {
      ApplySingle(before, Write(handle, value.value));
    }
  }

  /** What the `n`-th entry's call does to one field of the record: it sets
      its own field when declared and truthy, and leaves any other field as
      it was after the first `n - 1` entries. */
  lemma LogAfterStepField(loaded: map<string, string>, fields: seq<FieldSpec>, values: seq<Option<string>>,
                          n: nat, blueprint: set<string>, field: string)
    requires |values| == |fields| && 0 < n <= |fields|
    ensures var before := Apply(loaded, LogAfter([], fields, values, n - 1, blueprint));
      var after := Apply(loaded, LogAfter([], fields, values, n, blueprint));
      && (fields[n - 1].handle == field && field in blueprint && Truthy(values[n - 1]) ==>
            field in after && after[field] == values[n - 1].value)
      && (fields[n - 1].handle != field ==> (field in after <==> field in before))
      && (fields[n - 1].handle != field && field in before ==> field in after && after[field] == before[field])
  {
    ApplyLogAfterStep(loaded, fields, values, n, blueprint);
    var before := Apply(loaded, LogAfter([], fields, values, n - 1, blueprint));
    ApplyAssignment(before, fields[n - 1].handle, blueprint, values[n - 1], field);
  }

  /** The value the `k`-th entry sets survives the later entries when none
      of them names the same field. */
  lemma {:induction false} LogAfterValue(loaded: map<string, string>, fields: seq<FieldSpec>, values: seq<Option<string>>,
                                         n: nat, blueprint: set<string>, k: nat)
    requires |values| == |fields| && k < n <= |fields|
    requires fields[k].handle in blueprint && Truthy(values[k])
    requires forall j :: k < j < n ==> fields[j].handle != fields[k].handle
    ensures var m := Apply(loaded, LogAfter([], fields, values, n, blueprint));
      fields[k].handle in m && m[fields[k].handle] == values[k].value
    decreases n
  {
    LogAfterStepField(loaded, fields, values, n, blueprint, fields[k].handle);
    if k < n - 1 {
      LogAfterValue(loaded, fields, values, n - 1, blueprint, k);
    }
  }

  /** After `mapToAssetField`, a declared field whose entry resolves to a
      truthy value holds that value, provided no later entry names the same
      field: the last entry for a field wins. */
  lemma AssignedFieldValue(loaded: map<string, string>, fields: seq<FieldSpec>, blueprint: set<string>, md: Metadata,
                           looseMapping: bool, k: nat)
    requires k < |fields| && fields[k].handle in blueprint
    requires Truthy(Resolve(md, fields[k].sources, looseMapping))
    requires forall j :: k < j < |fields| ==> fields[j].handle != fields[k].handle
    ensures var m := Apply(loaded, Assignments(fields, blueprint, md, looseMapping));
      fields[k].handle in m && m[fields[k].handle] == Resolve(md, fields[k].sources, looseMapping).value
  {
    ResolutionAt(fields, md, looseMapping, k);
    LogAfterValue(loaded, fields, Resolutions(fields, md, looseMapping), |fields|, blueprint, k);
  }

  /** A field that no entry sets keeps the value it had, or stays absent:
      undeclared fields and fields whose sources resolve to nothing are left
      alone. */
  lemma UnassignedFieldKept(loaded: map<string, string>, fields: seq<FieldSpec>, blueprint: set<string>, md: Metadata,
                            looseMapping: bool, field: string)
    requires forall k :: 0 <= k < |fields| && fields[k].handle == field ==>
      field !in blueprint || !Truthy(Resolve(md, fields[k].sources, looseMapping))
    ensures var m := Apply(loaded, Assignments(fields, blueprint, md, looseMapping));
      (field in m <==> field in loaded) && (field in loaded ==> m[field] == loaded[field])
  {
    var ws := Assignments(fields, blueprint, md, looseMapping);
    forall w <- ws
      ensures w.field != field
    {
      AssignmentsMembers(fields, blueprint, md, looseMapping, w);
    }
    ApplyUntouched(loaded, ws, field);
  }

  // ----- the importer -----

  /** `Importer`: the asset it works on, its `$metadata` and its
      `$hasDirtyData` flag. */
  class Importer {
    const asset: Asset
    const config: Config
    const env: Environment
    var metadata: Metadata
    var hasDirtyData: bool

    /** The initial state: no metadata and a clean record. */
    constructor (asset: Asset, config: Config, env: Environment)
      ensures this.asset == asset && this.config == config && this.env == env
      ensures metadata == NoMetadata && !hasDirtyData
    {
      this.asset := asset;
      this.config := config;
      this.env := env;
      metadata := NoMetadata;
      hasDirtyData := false;
    }

    /** `getAdaptersForFile($filePath)`: builds the selected adapters in
        mapping order; a constructor that throws aborts the whole call. */
    method GetAdaptersForFile(filePath: string) returns (r: Result<seq<Adapter>, Failure>)
      ensures var selected := AdaptersFor(config, filePath);
        r == if AllConstruct(env, selected) then Ok(selected) else Err(AdapterConstructionFailed)
    {
      var extension := FileExtension(filePath);
      var mapping := config.adapterMapping;
      var adapters: seq<Adapter> := [];
      var i := 0;
      while i < |mapping|
        invariant 0 <= i <= |mapping|
        invariant adapters == SelectedAdapters(mapping[..i], extension, config.paths)
        invariant AllConstruct(env, adapters)
      {
        var entry := mapping[i];
        SelectedStep(mapping, i, extension, config.paths);
        if Serves(entry, extension) {
          var adapter := CreateAdapter(entry.adapterType, config.paths);
          if adapter.Some? {
            if !env.constructs(adapter.value) {
              SelectedMembership(mapping, extension, config.paths, adapter.value);
              assert Serves(mapping[i], extension) && CreateAdapter(mapping[i].adapterType, config.paths) == adapter;
              return Err(AdapterConstructionFailed);
            }
            adapters := adapters + [adapter.value];
          }
        }
        i := i + 1;
      }
      assert mapping[..i] == mapping;
      return Ok(adapters);
    }

    /** `readFileMetadata($filePath)`: tries the adapters strictly in order,
        skips a read that throws an `\Exception` or finds nothing, and returns
        the first non-empty result; `tried` lists the adapters whose read was
        invoked. */
    method ReadFileMetadata(filePath: string) returns (r: Result<Metadata, Failure>, tried: seq<Adapter>)
      ensures r == ReadSpec(config, env, filePath)
      ensures tried == Attempted(config, env, filePath)
    {
      var selected := GetAdaptersForFile(filePath);
      if selected.Err? {
        return Err(selected.error), [];
      }
      var adapters := selected.value;
      if adapters == [] {
        return Ok(NoMetadata), [];
      }
      ghost var stop := a => EndsChain(env.read(a, filePath));
      tried := [];
      var i := 0;
      while i < |adapters|
        invariant 0 <= i <= |adapters|
        invariant tried == adapters[..i]
        invariant forall j :: 0 <= j < i ==> !stop(adapters[j])
      {
        var outcome := env.read(adapters[i], filePath);
        tried := tried + [adapters[i]];
        if outcome.ThrewError? {
          FirstIndexUnique(adapters, stop, i);
          return Err(ReaderCrashed), tried;
        }
        if outcome.Found? && (outcome.data != [] || outcome.rawData != []) {
          FirstIndexUnique(adapters, stop, i);
          return Ok(Metadata(outcome.data, outcome.rawData)), tried;
        }
        i := i + 1;
      }
      FirstIndexUnique(adapters, stop, i);
      assert tried == adapters;
      return Ok(NoMetadata), tried;
    }

    /** `readMetadata()`: with the local path of the file (none when
        streaming the remote asset failed, which propagates), reads the
        metadata and keeps it. */
    method ReadMetadata(localPath: Option<string>) returns (failure: Option<Failure>)
      modifies this`metadata
      ensures localPath.None? ==> failure == Some(StreamFailed) && metadata == old(metadata)
      ensures localPath.Some? ==>
        match ReadSpec(config, env, localPath.value)
        case Ok(md) => failure == None && metadata == md
        case Err(e) => failure == Some(e) && metadata == old(metadata)
    {
      if localPath.None? {
        return Some(StreamFailed);
      }
      var r, _ := ReadFileMetadata(localPath.value);
      if r.Err? {
        return Some(r.error);
      }
      metadata := r.value;
      return None;
    }

    /** One iteration of `mapToAssetField()`: sets the `k`-th configured
        field when the blueprint declares it and its value resolves to
        something truthy. `start` and `wasDirty` are the log of `set` calls
        and the flag the loop began with: the log grows by the `k`-th entry's
        call, and the flag records whether the loop has set anything. */
    method MapField(k: nat, ghost start: seq<Write>, ghost wasDirty: bool)
      requires k < |config.fields|
      requires asset.writes == LogAfter(start, config.fields, Resolutions(config.fields, metadata, config.looseMapping), k, asset.blueprint)
      requires |asset.writes| >= |start|
      requires hasDirtyData == (wasDirty || |asset.writes| > |start|)
      modifies this`hasDirtyData, asset`writes
      ensures asset.writes == LogAfter(start, config.fields, Resolutions(config.fields, metadata, config.looseMapping), k + 1, asset.blueprint)
      ensures |asset.writes| >= |start|
      ensures hasDirtyData == (wasDirty || |asset.writes| > |start|)
    {
      ResolutionAt(config.fields, metadata, config.looseMapping, k);
      var spec := config.fields[k];
      if asset.HasField(spec.handle) {
        var value := Resolve(metadata, spec.sources, config.looseMapping);
        if Truthy(value) {
          asset.Set(spec.handle, value.value);
          hasDirtyData := true;
        }
      }
    }

    /** `mapToAssetField()`: sets each declared field whose value resolves,
        marking the importer dirty for each; other fields are left alone. */
    method MapToAssetField()
      modifies this`hasDirtyData, asset`writes
      ensures var ws := Assignments(config.fields, asset.blueprint, metadata, config.looseMapping);
        && asset.writes == old(asset.writes) + ws
        && asset.Values() == Apply(old(asset.Values()), ws)
        && hasDirtyData == (old(hasDirtyData) || ws != [])
    {
      ghost var start := asset.writes;
      ghost var wasDirty := hasDirtyData;
      ghost var values := Resolutions(config.fields, metadata, config.looseMapping);
      var i := 0;
      while i < |config.fields|
        invariant 0 <= i <= |config.fields|
        invariant asset.writes == LogAfter(start, config.fields, values, i, asset.blueprint)
        invariant |asset.writes| >= |start|
        invariant hasDirtyData == (wasDirty || |asset.writes| > |start|)
      {
        MapField(i, start, wasDirty);
        i := i + 1;
      }
      LogAfterAppends(start, config.fields, values, i, asset.blueprint);
      ApplyAppend(asset.loaded, start, Assignments(config.fields, asset.blueprint, metadata, config.looseMapping));
    }

    /** `save()`: persists quietly once if a field was set, then clears the
        flag, so a second call does nothing. */
    method Save()
      modifies this`hasDirtyData, asset`saves
      ensures asset.saves == old(asset.saves) + (if old(hasDirtyData) then 1 else 0)
      ensures !hasDirtyData
    {
      if !hasDirtyData {
        return;
      }
      asset.SaveQuietly();
      hasDirtyData := false;
    }
  }

  /** `new Importer($asset)`: read, map and save, in that order. An abort
      while reading leaves the asset untouched; otherwise the asset gets
      exactly the resolved fields and is persisted once iff one was set. */
  method Import(asset: Asset, config: Config, env: Environment, localPath: Option<string>)
    returns (r: Result<Importer, Failure>)
    modifies asset`writes, asset`saves
    ensures r.Err? <==> localPath.None? || ReadSpec(config, env, localPath.value).Err?
    ensures r.Err? ==>
      && asset.writes == old(asset.writes) && asset.saves == old(asset.saves)
      && r.error == (if localPath.None? then StreamFailed else ReadSpec(config, env, localPath.value).error)
    ensures r.Ok? ==>
      var md := ReadSpec(config, env, localPath.value).value;
      var ws := Assignments(config.fields, asset.blueprint, md, config.looseMapping);
      && fresh(r.value) && r.value.asset == asset && r.value.metadata == md
      && !r.value.hasDirtyData
      && asset.writes == old(asset.writes) + ws
      && asset.Values() == Apply(old(asset.Values()), ws)
      && asset.saves == old(asset.saves) + (if ws == [] then 0 else 1)
  {
    var importer := new Importer(asset, config, env);
    var failure := importer.ReadMetadata(localPath);
    if failure.Some? {
      return Err(failure.value);
    }
    importer.MapToAssetField();
    importer.Save();
    return Ok(importer);
  }
}
