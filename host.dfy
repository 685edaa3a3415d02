/** The host CMS as the importer and the listeners see it: an asset record
    whose fields are set in memory and persisted quietly, the extension test
    the asset offers, and the queued import job. */
module Host {
  import opened PhpStrings

  /** One `$asset->set($field, $value)` call. */
  datatype Write = Write(field: string, value: string)

  /** The record's field values after the given `set` calls, in order: a later
      call on the same field wins. */
  function Apply(values: map<string, string>, writes: seq<Write>): (r: map<string, string>)
    decreases |writes|
  {
    if writes == [] then values
    else
      var last := writes[|writes| - 1];
      Apply(values, writes[..|writes| - 1])[last.field := last.value]
  }

  /** The fields of the record afterwards are those it had and those the
      calls name. */
  lemma {:induction false} ApplyKeys(values: map<string, string>, writes: seq<Write>)
    ensures Apply(values, writes).Keys == values.Keys + set w <- writes :: w.field
    decreases |writes|
  {
    if writes != [] {
      var init := writes[..|writes| - 1];
      ApplyKeys(values, init);
      assert writes == init + [writes[|writes| - 1]];
    }
  }

  /** One more `set` call updates the field it names. */
  lemma ApplyStep(values: map<string, string>, writes: seq<Write>, w: Write)
    ensures Apply(values, writes + [w]) == Apply(values, writes)[w.field := w.value]
  {
    assert (writes + [w])[..|writes|] == writes;
  }

  /** A single `set` call updates the field it names. */
  lemma ApplySingle(values: map<string, string>, w: Write)
    ensures Apply(values, [w]) == values[w.field := w.value]
  {
    assert [w][..0] == [];
  }

  /** Applying two runs of `set` calls one after the other is applying their
      concatenation. */
  lemma {:induction false} ApplyAppend(values: map<string, string>, a: seq<Write>, b: seq<Write>)
    ensures Apply(values, a + b) == Apply(Apply(values, a), b)
    decreases |b|
  {
    if b == [] {
      assert a + b == a;
    } else {
      var init := b[..|b| - 1];
      assert (a + b)[..|a + b| - 1] == a + init;
      ApplyAppend(values, a, init);
    }
  }

  /** A field that no `set` call names keeps its value, or stays absent. */
  lemma {:induction false} ApplyUntouched(values: map<string, string>, writes: seq<Write>, field: string)
    requires forall w <- writes :: w.field != field
    ensures field in Apply(values, writes) <==> field in values
    ensures field in values ==> Apply(values, writes)[field] == values[field]
    decreases |writes|
  {
    if writes != [] {
      var init := writes[..|writes| - 1];
      assert forall w <- init :: w in writes;
      ApplyUntouched(values, init, field);
    }
  }

  /** `Statamic\Assets\Asset`: the storage path, the fields its container's
      blueprint declares, the field values it was loaded with, the `set` calls
      made on it since, and the number of `saveQuietly` calls. */
  class Asset {
    const path: string
    const blueprint: set<string>
    const loaded: map<string, string>
    var writes: seq<Write>
    var saves: nat

    constructor (path: string, blueprint: set<string>, loaded: map<string, string>)
      ensures this.path == path && this.blueprint == blueprint && this.loaded == loaded
      ensures writes == [] && saves == 0
    {
      this.path := path;
      this.blueprint := blueprint;
      this.loaded := loaded;
      writes := [];
      saves := 0;
    }

    /** The record's field values in memory. */
    function Values(): (r: map<string, string>)
      reads this
    {
      Apply(loaded, writes)
    }

    /** `$blueprint->hasField($field)`. */
    predicate HasField(field: string)
    {
      field in blueprint
    }

    /** `$asset->set($field, $value)`: changes the record in memory only. */
    method Set(field: string, value: string)
      modifies this`writes
      ensures writes == old(writes) + [Write(field, value)]
      ensures Values() == old(Values())[field := value]
    {
      ApplyStep(loaded, writes, Write(field, value));
      writes := writes + [Write(field, value)];
    }

    /** `$asset->saveQuietly()`: persists without firing the asset events. */
    method SaveQuietly()
      modifies this`saves
      ensures saves == old(saves) + 1
    {
      saves := saves + 1;
    }
  }

  /** `$asset->extensionIsOneOf($extensions)`: the asset's extension, lower-cased,
      is one of the listed extensions as they are written. */
  predicate ExtensionIsOneOf(asset: Asset, extensions: seq<string>)
  {
    StrToLower(PathExtension(asset.path)) in extensions
  }

  /** `ImportMetadataJob`, queued for one asset. */
  datatype Job = ImportMetadataJob(asset: Asset)
}
