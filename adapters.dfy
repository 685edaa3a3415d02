/** The adapter registry of the importer: which PHPExif adapters are built for
    a file extension, from the ordered `adapter_mapping` configuration. */
module Adapters {
  import opened Support

  /** The adapters the importer can build, each with the binary path it is
      given. */
  datatype Adapter = Native | Exiftool(toolPath: string) | FFprobe(toolPath: string) | ImageMagick

  /** One `adapter_mapping` entry: an adapter type name and the extensions it
      serves; the mapping's order is the priority order. */
  datatype MappingEntry = MappingEntry(adapterType: string, extensions: seq<string>)

  /** The configured `exiftool_path` and `ffmpeg_path`, a missing one read as ''. */
  datatype ToolPaths = ToolPaths(exiftool: string, ffmpeg: string)

  /** The type names `createAdapter` recognises. */
  const KnownTypes: set<string> := {"native", "exiftool", "ffprobe", "imagick"}

  /** The mapping key that names an adapter. */
  function TypeName(a: Adapter): (r: string)
  {
    match a
    case Native => "native"
    case Exiftool(_) => "exiftool"
    case FFprobe(_) => "ffprobe"
    case ImageMagick => "imagick"
  }

  /** The adapter carries the binary path the configuration gives its type. */
  predicate UsesConfiguredPath(a: Adapter, paths: ToolPaths)
  {
    match a
    case Exiftool(p) => p == paths.exiftool
    case FFprobe(p) => p == paths.ffmpeg
    case _ => true
  }

  /** `createAdapter($adapterType)`: the adapter a known type name stands for,
      built with its configured binary path; null for any other name. */
  function CreateAdapter(adapterType: string, paths: ToolPaths): (r: Option<Adapter>)
    ensures r.Some? <==> adapterType in KnownTypes
    ensures r.Some? ==> TypeName(r.value) == adapterType && UsesConfiguredPath(r.value, paths)
  {
    if adapterType == "native" then Some(Native)
    else if adapterType == "exiftool" then Some(Exiftool(paths.exiftool))
    else if adapterType == "ffprobe" then Some(FFprobe(paths.ffmpeg))
    else if adapterType == "imagick" then Some(ImageMagick)
    else None
  }

  /** Naming an adapter and creating it again gives the same adapter. */
  lemma CreateAdapterOfTypeName(a: Adapter, paths: ToolPaths)
    requires UsesConfiguredPath(a, paths)
    ensures CreateAdapter(TypeName(a), paths) == Some(a)
  {
  }

  /** An entry serves an (already lower-cased) extension when its list holds
      the wildcard `'*'` or that extension, compared as written. */
  predicate Serves(entry: MappingEntry, extension: string)
  {
    "*" in entry.extensions || extension in entry.extensions
  }

  /** The adapters built for an extension: one per mapping entry that serves
      it and whose type is known, in mapping order. */
  function SelectedAdapters(mapping: seq<MappingEntry>, extension: string, paths: ToolPaths): (r: seq<Adapter>)
    ensures |r| <= |mapping|
    decreases |mapping|
  {
    if mapping == [] then []
    else
      SelectedAdapters(mapping[..|mapping| - 1], extension, paths)
        + EntrySelection(mapping[|mapping| - 1], extension, paths)
  }

  /** What one entry contributes: its adapter when it serves the extension
      and its type is known, nothing otherwise. */
  function EntrySelection(entry: MappingEntry, extension: string, paths: ToolPaths): (r: seq<Adapter>)
    ensures |r| <= 1
  {
    var created := CreateAdapter(entry.adapterType, paths);
    if Serves(entry, extension) && created.Some? then [created.value] else []
  }

  /** Taking one more entry of a mapping appends what that entry selects. */
  lemma SelectedStep(mapping: seq<MappingEntry>, i: nat, extension: string, paths: ToolPaths)
    requires i < |mapping|
    ensures SelectedAdapters(mapping[..i + 1], extension, paths)
         == SelectedAdapters(mapping[..i], extension, paths) + EntrySelection(mapping[i], extension, paths)
  {
    assert mapping[..i + 1][..i] == mapping[..i];
  }

  /** Selection distributes over concatenation of mappings: the adapters of
      earlier entries come before those of later ones. */
  lemma {:induction false} SelectedAppend(a: seq<MappingEntry>, b: seq<MappingEntry>, extension: string, paths: ToolPaths)
    ensures SelectedAdapters(a + b, extension, paths)
         == SelectedAdapters(a, extension, paths) + SelectedAdapters(b, extension, paths)
    decreases |b|
  {
    if b == [] {
      assert a + b == a;
    } else {
      var b' := b[..|b| - 1];
      assert (a + b)[..|a + b| - 1] == a + b';
      assert (a + b)[|a + b| - 1] == b[|b| - 1];
      SelectedAppend(a, b', extension, paths);
    }
  }

  /** What the first `i` entries select is a prefix of what the whole mapping
      selects. */
  lemma SelectedPrefix(mapping: seq<MappingEntry>, i: nat, extension: string, paths: ToolPaths)
    requires i <= |mapping|
    ensures SelectedAdapters(mapping[..i], extension, paths) <= SelectedAdapters(mapping, extension, paths)
  {
    assert mapping == mapping[..i] + mapping[i..];
    SelectedAppend(mapping[..i], mapping[i..], extension, paths);
  }

  /** An adapter is selected exactly when some entry serves the extension and
      its type name creates that adapter. */
  lemma {:induction false} SelectedMembership(mapping: seq<MappingEntry>, extension: string, paths: ToolPaths, a: Adapter)
    ensures a in SelectedAdapters(mapping, extension, paths) <==>
      exists k :: 0 <= k < |mapping| && Serves(mapping[k], extension)
                  && CreateAdapter(mapping[k].adapterType, paths) == Some(a)
    decreases |mapping|
  {
    if mapping != [] {
      var init := mapping[..|mapping| - 1];
      SelectedMembership(init, extension, paths, a);
      forall k | 0 <= k < |init| ensures init[k] == mapping[k] { }
    }
  }

  /** An entry whose type name is unknown contributes nothing, wherever it
      stands. */
  lemma UnknownTypeSkipped(a: seq<MappingEntry>, entry: MappingEntry, b: seq<MappingEntry>, extension: string, paths: ToolPaths)
    requires entry.adapterType !in KnownTypes
    ensures SelectedAdapters(a + [entry] + b, extension, paths) == SelectedAdapters(a + b, extension, paths)
  {
    assert (a + [entry])[..|a|] == a;
    assert SelectedAdapters(a + [entry], extension, paths) == SelectedAdapters(a, extension, paths);
    SelectedAppend(a + [entry], b, extension, paths);
    SelectedAppend(a, b, extension, paths);
  }

  /** An entry of a known type whose list holds `'*'` contributes its adapter
      for every extension, at its own place in the order. */
  lemma WildcardEntrySelected(a: seq<MappingEntry>, entry: MappingEntry, b: seq<MappingEntry>, extension: string, paths: ToolPaths)
    requires entry.adapterType in KnownTypes && "*" in entry.extensions
    ensures SelectedAdapters(a + [entry] + b, extension, paths)
         == SelectedAdapters(a, extension, paths) + [CreateAdapter(entry.adapterType, paths).value]
            + SelectedAdapters(b, extension, paths)
  {
    assert (a + [entry])[..|a|] == a;
    assert SelectedAdapters(a + [entry], extension, paths)
        == SelectedAdapters(a, extension, paths) + [CreateAdapter(entry.adapterType, paths).value];
    SelectedAppend(a + [entry], b, extension, paths);
  }
}
