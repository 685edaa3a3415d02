# Statamic asset metadata importer, modelled in Dafny

This project models the core of a Statamic add-on that copies a file's
embedded metadata (EXIF, IPTC, XMP, video stream tags) into the fields of a
Statamic asset. It covers three parts:

- **The importer.** The `Importer` class works through one asset:
  - it picks the PHPExif adapters configured for the file's extension,
    keeping the order of `adapter_mapping`;
  - it reads the file with each adapter in turn until one finds metadata;
  - it resolves every configured field the blueprint declares from that
    metadata, first by exact
    key and then, when `loose_mapping` is on, by a case-insensitive
    substring search over the keys;
  - it sets each field that the asset's blueprint declares and that
    resolves to a truthy value;
  - it persists the asset quietly, once, and only if it set something.
- **The two listeners.** Each decides whether an upload or a re-upload
  queues an import job.
- **The PHP and Laravel helper functions** that all of this relies on:
  PHP's `strtolower`, `mb_strtolower`, `explode`, `str_contains`,
  `pathinfo` and truthiness, and Laravel's `data_get` and
  `str(...)->trim()`.

The project is organised in these modules:

- `Support`: `Option` and `Result`, plus `FirstIndex`, the first position
  of a sequence that satisfies a predicate.
- `PhpStrings`: the string functions (PHP's and Laravel's trim) and truthiness.
- `Adapters`: adapter creation and selection.
  - Adapter creation is `createAdapter`, modelled as a function.
  - Adapter selection is specified as `SelectedAdapters`, a function over
    the ordered mapping.
- `FieldResolver`: value resolution (`getValueBySources`,
  `getValueBySource`, `getValueByLooseMatch`), as pure functions over the
  metadata.
- `Host`: the Statamic side.
  - The asset is a class. Its `set` calls are logged in order, and its
    field values are derived from the values it was loaded with.
  - The module also holds the extension test and the job.
- `MetadataImporter`: the `Importer` class, whose methods keep its
  `metadata` and `hasDirtyData` state and change the asset.
  - Each method that computes something is proved against a specification
    function:
    - `GetAdaptersForFile` against `AdaptersFor` (that is, `SelectedAdapters`);
    - `ReadFileMetadata` against `ReadSpec` and `Attempted`;
    - `ReadMetadata` against `ReadSpec`;
    - `MapField` against `LogAfter`;
    - `MapToAssetField` against `Assignments`.
  - `Save` states its effect directly: one persist when dirty, a clean flag
    afterwards.
  - Lemmas about those functions state what the importer promises.
- `AssetUploadedListener` and `AssetReuploadedListener`: each `handle`
  becomes a function from the configuration and the asset to the jobs it
  dispatches.

The importer's constructor reads, maps and saves, in that order. It is
modelled as the module-level method `MetadataImporter.Import`.

Behaviour that the model follows as the code has it:

- **Adapter construction.** Adapters are constructed in
  `getAdaptersForFile`, outside the `try` of `readFileMetadata`. So a
  constructor that throws aborts the whole import
  (`AdapterConstructionFailed`). It is not skipped.
- **Uncaught throwables.** Only `\Exception` is caught around a read. Any
  other throwable (`ThrewError`) aborts too (`ReaderCrashed`).
- **Order of lookups.** Exact lookup and loose lookup are tried for one
  candidate key before the next candidate is considered. So with loose
  mapping on, a loose match of an earlier candidate beats an exact match
  of a later one (`FieldResolver.EarlierCandidateWins`).
- **A falsy exact value.** `getValueBySource` keeps the exact value when
  loose mapping is off, even when it is falsy.
- **Keys in `data`.** A key present in `data` hides the same key in
  `rawData`, even when its value is falsy (`??` tests only for null).
- **The first loose match.** The first loosely matching key ends the loose
  search, even when its value is falsy.

## Model

| member | source | states |
|---|---|---|
| Adapters.CreateAdapter | src/Importer.php:125-140 | an adapter is created exactly for the four known type names; it has that type and carries the configured exiftool or ffmpeg path |
| Adapters.CreateAdapterOfTypeName | src/Importer.php:125-140 | naming an adapter with its type key and creating it again gives back the same adapter, so creation is injective on type names |
| Adapters.SelectedMembership | src/Importer.php:106-123 | an adapter is selected for an extension iff some mapping entry lists `'*'` or that extension and its type name creates that adapter |
| Adapters.Serves | src/Importer.php:114 | an entry serves an extension when its list holds `'*'` or that extension; `SelectedMembership` states that exactly the serving entries of known type are selected |
| Adapters.SelectedAdapters | src/Importer.php:110-120 | the adapters for an extension, one per serving entry of known type, in mapping order; its contract bounds them by the number of entries, and `SelectedMembership`, `SelectedAppend`, `UnknownTypeSkipped` and `WildcardEntrySelected` state which and in what order |
| Adapters.SelectedAppend | src/Importer.php:112-120 | the selection follows mapping order: the adapters of earlier entries come before those of later entries |
| Adapters.SelectedPrefix | src/Importer.php:112-120 | what the first i entries select is a prefix of the full selection |
| Adapters.SelectedStep | src/Importer.php:112-120 | each further entry adds at most its own adapter at the end |
| Adapters.EntrySelection | src/Importer.php:114-118 | one pass of the loop: at most one adapter, the entry's own when it serves the extension and its type is known; `SelectedStep` states that the loop appends it |
| Adapters.UnknownTypeSkipped | src/Importer.php:115-118 | an entry with an unknown type name contributes nothing, wherever it stands in the mapping |
| Adapters.WildcardEntrySelected | src/Importer.php:114-118 | an entry of a known type that lists `'*'` contributes its adapter for every extension, at its own place in the order |
| MetadataImporter.Importer.GetAdaptersForFile | src/Importer.php:106-123 | returns exactly the selected adapters for the lower-cased path extension, in mapping order; if any of them cannot be constructed, the call aborts with a construction failure |
| MetadataImporter.FileExtension | src/Importer.php:108 | the lower-cased `pathinfo` extension of the file; `PathExtensionOfName` and `NoDotNoExtension` state what `pathinfo` yields |
| MetadataImporter.AdaptersFor | src/Importer.php:106-123 | the adapters selected for the file's lower-cased extension; `GetAdaptersForFile` returns them and `SelectedMembership` states which they are |
| MetadataImporter.AllConstruct | src/Importer.php:115 | every selected adapter's constructor succeeds; `ConstructionFailureAborts` states the abort when one does not |
| MetadataImporter.Importer.ReadFileMetadata | src/Importer.php:58-104 | the result and the list of adapters actually read are exactly those of the chain specification (`ReadSpec`, `Attempted`) |
| MetadataImporter.HasMetadata | src/Importer.php:81 | a read returned an object whose `data` or `rawData` is non-empty; `FirstNonEmptyWins` states that such a read supplies the result |
| MetadataImporter.StopIndex | src/Importer.php:72-95 | the position where the `foreach` stops: no earlier read found metadata or threw past the catch, and the read there did (or the list's length); `FirstNonEmptyWins`, `UncaughtThrowAborts` and `NothingFoundGivesNoMetadata` state each stop |
| MetadataImporter.ChainResult | src/Importer.php:72-103 | the metadata of the read at the stop position, a failure when that read threw past the catch, or empty metadata when the loop ran out |
| MetadataImporter.ReadSpec | src/Importer.php:58-104 | `readFileMetadata` as a function: the construction failure, or the chain's result; `NoAdaptersNoMetadata`, `FirstNonEmptyWins`, `NothingFoundGivesNoMetadata`, `UncaughtThrowAborts` and `ConstructionFailureAborts` state its cases |
| MetadataImporter.Attempted | src/Importer.php:72-95 | the adapters whose read is invoked: none on a construction failure, else every adapter up to and including the stop position; the same five lemmas state it case by case |
| MetadataImporter.NoAdaptersNoMetadata | src/Importer.php:60-69 | with no adapter configured for the extension, the result is empty `data` and `rawData` and no adapter is read |
| MetadataImporter.FirstNonEmptyWins | src/Importer.php:72-88 | the first adapter whose read finds non-empty `data` or `rawData` supplies the metadata, and no later adapter is read |
| MetadataImporter.NothingFoundGivesNoMetadata | src/Importer.php:72-103 | when every read throws an `\Exception` or comes back empty, every adapter is read and the result is empty metadata |
| MetadataImporter.UncaughtThrowAborts | src/Importer.php:76-94 | a read that throws something other than an `\Exception` ends the chain with a failure; that adapter is the last one read |
| MetadataImporter.ConstructionFailureAborts | src/Importer.php:115 | an adapter whose constructor throws aborts the read before any adapter is read |
| MetadataImporter.Importer.ReadMetadata | src/Importer.php:30-56 | stores the chain's metadata on success; a stream failure or a chain failure propagates and leaves the stored metadata unchanged |
| MetadataImporter.ResolutionAt | src/Importer.php:157-162 | the value of the k-th field entry is that entry's sources resolved against the metadata |
| MetadataImporter.Resolutions | src/Importer.php:157-162 | the value of every field entry, one per entry in configuration order; `ResolutionAt` states the k-th |
| MetadataImporter.Assignment | src/Importer.php:158-165 | the `set` call one entry makes: one call for a declared field with a truthy value, none otherwise; `ApplyAssignment` states its effect on the record |
| MetadataImporter.LogAfter | src/Importer.php:157-167 | the `set` log after the first n entries; `LogAfterMembers`, `LogAfterLength`, `LogAfterAppends` and `LogAfterValue` state what it holds |
| MetadataImporter.Assignments | src/Importer.php:157-167 | the `set` calls `mapToAssetField` makes, in configuration order; `AssignmentsMembers`, `AssignedFieldValue` and `UnassignedFieldKept` state which and with what effect |
| MetadataImporter.LogAfterAppends | src/Importer.php:157-167 | mapping extends whatever `set` calls came before it and changes none of them |
| MetadataImporter.Importer.MapField | src/Importer.php:158-166 | one field entry adds its `set` call exactly when the blueprint declares the field and its value is truthy; the dirty flag records whether any call was made |
| Host.Asset.HasField | src/Importer.php:158 | the blueprint declares the field; `AssignmentsMembers` and `UnassignedFieldKept` state that undeclared fields are never set |
| MetadataImporter.Importer.MapToAssetField | src/Importer.php:153-168 | the asset receives exactly the `Assignments` `set` calls, in configuration order, and its values are updated by them; the importer is dirty iff it was dirty before or some call was made |
| MetadataImporter.AssignmentsMembers | src/Importer.php:157-166 | a field is set to a value iff some entry names it, the blueprint declares it, and its sources resolve to that truthy value |
| MetadataImporter.LogAfterMembers | src/Importer.php:157-166 | the same membership statement for the first n entries, over any list of resolved values |
| MetadataImporter.LogAfterLength | src/Importer.php:157-167 | each field entry makes at most one `set` call |
| MetadataImporter.ApplyAssignment | src/Importer.php:163-165 | one entry's call sets its own field to its value and leaves every other field as it was |
| MetadataImporter.ApplyLogAfterStep | src/Importer.php:157-167 | the record after n entries is the record after n-1 entries, updated by the n-th entry's call |
| MetadataImporter.LogAfterStepField | src/Importer.php:158-166 | the n-th entry sets its own field to its value when declared and truthy; any other field keeps its value if it had one and stays absent if it had none |
| MetadataImporter.LogAfterValue | src/Importer.php:157-167 | a value set by an entry survives when no later entry names the same field |
| MetadataImporter.AssignedFieldValue | src/Importer.php:157-167 | after mapping, a declared field whose entry resolves truthy holds that value, unless a later entry names the same field |
| MetadataImporter.UnassignedFieldKept | src/Importer.php:157-167 | a field that is undeclared, or whose sources all resolve to nothing, keeps its previous value or stays absent |
| MetadataImporter.Importer.Save | src/Importer.php:221-230 | persists quietly exactly once when dirty and not at all otherwise, then leaves the importer clean, so a second call does nothing |
| MetadataImporter.Importer.constructor | src/Importer.php:16-21 | the importer starts with empty `data` and `rawData` and a clean flag |
| MetadataImporter.Import | src/Importer.php:23-28 | read, then map, then save: an abort leaves the asset untouched; otherwise the asset gets exactly the resolved `set` calls and is persisted once iff some call was made |
| FieldResolver.DataGetFinds | src/Importer.php:188 | an exact lookup finds a value iff the key has no dot and some entry has that key, and the value it finds belongs to such an entry |
| FieldResolver.DataGet | src/Importer.php:188 | `data_get` on a flat map of strings; `DataGetFinds` states what it finds |
| FieldResolver.Lookup | src/Importer.php:188 | the flat-key step of `data_get`: the value of the first entry with that key; `DataGetFinds` states when it finds one and that the value belongs to such an entry |
| FieldResolver.ExactValue | src/Importer.php:188 | the `data` lookup, or the `rawData` lookup when `data` gives null; `DataShadowsRawData` states the shadowing |
| FieldResolver.DataShadowsRawData | src/Importer.php:188 | a key present in `data` decides the exact value, even a falsy one, and `rawData` is not consulted |
| FieldResolver.ExactTruthyWins | src/Importer.php:188-192 | a truthy exact value is returned whether or not loose mapping is on |
| FieldResolver.LooseMappingOffIsExact | src/Importer.php:194-199 | with loose mapping off, a candidate's value is its exact value, even when falsy |
| FieldResolver.LooseMappingOnUsesLoose | src/Importer.php:194-199 | with loose mapping on and a falsy or null exact value, a candidate's value is its loose value |
| FieldResolver.ValueBySource | src/Importer.php:185-200 | `getValueBySource`: `ExactTruthyWins`, `LooseMappingOffIsExact` and `LooseMappingOnUsesLoose` cover its three outcomes |
| FieldResolver.LooseValue | src/Importer.php:202-219 | `getValueByLooseMatch`: `LooseValueIsFirstMatch`, `LooseFallsBackToRawData` and `LooseValueIgnoresCase` state which value it returns |
| FieldResolver.FirstLooseValue | src/Importer.php:205-216 | one of the two `foreach` searches: `FirstLooseValueAt` states that it yields the first matching key's value, `FirstLooseValueNone` that it finds null when no key matches |
| FieldResolver.LooseKeyMatch | src/Importer.php:206 | the key, lower-cased, contains the lower-cased candidate; `LooseValueIgnoresCase` states that the candidate's case does not matter |
| FieldResolver.LooseValueIsFirstMatch | src/Importer.php:202-209 | the loose search returns the value of the first `data` key, in order, that contains the candidate case-insensitively, even when that value is falsy |
| FieldResolver.FirstLooseValueAt | src/Importer.php:205-216 | within one map, the loose search yields the value of the first matching key |
| FieldResolver.LooseFallsBackToRawData | src/Importer.php:211-218 | when no `data` key matches loosely, the loose search is the search of `rawData` |
| FieldResolver.FirstLooseValueNone | src/Importer.php:212-218 | with no matching key in a map, the loose search of that map finds nothing |
| FieldResolver.LooseValueIgnoresCase | src/Importer.php:206 | candidates that lower-case (mb_strtolower) to the same string find the same loose value |
| FieldResolver.FirstLooseValueIgnoresCase | src/Importer.php:206 | the same statement for the search of one map |
| FieldResolver.ValueBySources | src/Importer.php:170-183 | the value a source list resolves to is null or truthy, never a falsy string |
| FieldResolver.Resolve | src/Importer.php:170-183 | a field's resolved value is null or truthy |
| FieldResolver.ValueBySourcesIsFirstTruthy | src/Importer.php:174-182 | the result is the value of the first candidate whose own value is truthy, or null when no candidate has one |
| FieldResolver.EarlierCandidateWins | src/Importer.php:174-180 | a truthy value of an earlier candidate wins over any later candidate, even over a later exact match |
| FieldResolver.CandidatesTrimmed | src/Importer.php:172-175 | each candidate is the configured key with surrounding whitespace trimmed, so it neither starts nor ends with whitespace |
| FieldResolver.SingleStringIsOneCandidate | src/Importer.php:172 | a source string without commas is a single candidate, trimmed |
| FieldResolver.CommaSeparatedAsListed | src/Importer.php:172 | a comma-separated string gives the same candidates as the array of its pieces |
| FieldResolver.EmptyCandidateMatchesFirstKey | src/Importer.php:202-209 | an empty candidate (e.g. after a trailing comma) with loose mapping on matches the very first `data` key |
| FieldResolver.Candidates | src/Importer.php:172-175 | there is one candidate per configured key or comma-separated piece |
| FieldResolver.RawCandidates | src/Importer.php:172 | the array as configured, or the string exploded on commas; `SingleStringIsOneCandidate` and `CommaSeparatedAsListed` state the two cases agree |
| PhpStrings.Explode | src/Importer.php:172 | the pieces contain no comma and imploding them gives back the string |
| PhpStrings.ExplodeImplode | src/Importer.php:172 | exploding the implosion of comma-free pieces gives back the pieces |
| PhpStrings.ExplodeNoSeparator | src/Importer.php:172 | a string without the separator explodes to itself alone |
| PhpStrings.ExplodeAtSeparator | src/Importer.php:172 | the piece before the first separator comes first, followed by the pieces of the rest |
| PhpStrings.TrimIsInfix | src/Importer.php:175 | a trimmed string is the part of the original between leading and trailing whitespace runs |
| PhpStrings.Trim | src/Importer.php:175 | the trim of a candidate key; `TrimIsInfix`, `TrimEnds` and `TrimOfTrimmed` state what it removes |
| PhpStrings.Truthy | src/Importer.php:163 | PHP truthiness of a nullable string: non-null and neither `""` nor `"0"`, as checked by `if ($value)` at lines 163, 177 and 190 |
| PhpStrings.TrimLeftIsSuffix | src/Importer.php:175 | trimming on the left drops exactly the leading whitespace |
| PhpStrings.TrimRightIsPrefix | src/Importer.php:175 | trimming on the right drops exactly the trailing whitespace |
| PhpStrings.TrimEnds | src/Importer.php:175 | a trimmed string is empty, or starts and ends with a non-whitespace character |
| PhpStrings.TrimOfTrimmed | src/Importer.php:175 | trimming a string without surrounding whitespace changes nothing |
| PhpStrings.ContainsAt | src/Importer.php:206 | `str_contains` holds iff the needle occurs at some position of the haystack |
| PhpStrings.Contains | src/Importer.php:206 | `str_contains`; `ContainsAt` states that it holds iff the needle occurs at some offset |
| PhpStrings.MbStrToLower | src/Importer.php:206 | lower-casing keeps the length |
| PhpStrings.MbStrToLowerIdempotent | src/Importer.php:206 | lower-casing twice is lower-casing once |
| PhpStrings.MbLowerChar | src/Importer.php:206 | a lower-cased character is never an upper-case ASCII or Latin-1 letter |
| PhpStrings.StrToLower | src/Importer.php:108 | lower-casing keeps the length |
| PhpStrings.AsciiLowerChar | src/Importer.php:108 | a lower-cased character is never an upper-case ASCII letter |
| PhpStrings.PathExtension | src/Importer.php:108 | the extension never contains a dot |
| PhpStrings.AfterLast | src/Importer.php:108 | the part after the last separator contains no separator and is no longer than the string |
| PhpStrings.TrimRightChar | src/Importer.php:108 | the result is no longer than the path and does not end with the trimmed character |
| PhpStrings.AfterLastSuffix | src/Importer.php:108 | text without the separator that is appended to a string is appended to its part after the last separator |
| PhpStrings.AfterLastSeparator | src/Importer.php:108 | the part after the last separator is what follows its final occurrence |
| PhpStrings.PathExtensionOfName | src/Importer.php:108 | the extension of `stem.ext` is `ext`, whatever the stem holds; a path ending in a dot has the empty extension |
| PhpStrings.NoDotNoExtension | src/Importer.php:108 | a path holding no dot has a base name without a dot, and so no extension |
| PhpStrings.BaseName | src/Importer.php:108 | the base-name step of `pathinfo`: trailing slashes dropped, the part after the last `/` kept; `NoDotNoExtension` and `PathExtensionOfName` state its effect on the extension |
| Host.Asset.Set | src/Importer.php:164 | the call is appended to the asset's log and changes only the named field, to the given value |
| Host.Apply | src/Importer.php:164 | the record's field values after a run of `set` calls, a later call on the same field winning; `ApplyKeys`, `ApplyStep`, `ApplyAppend` and `ApplyUntouched` state its effect |
| Host.Asset.SaveQuietly | src/Importer.php:227 | one more quiet persist of the asset, nothing else changed |
| Host.ApplyStep | src/Importer.php:164 | one more `set` call updates the field it names |
| Host.ApplyAppend | src/Importer.php:157-167 | applying two runs of `set` calls in turn equals applying their concatenation |
| Host.ApplyKeys | src/Importer.php:164 | after the calls, the record's fields are the fields it had plus those the calls name |
| Host.ApplyUntouched | src/Importer.php:157-167 | a field no call names keeps its value, or stays absent |
| AssetUploadedListener.Handle | src/Listeners/AssetUploadedListener.php:10-26 | dispatches one import job for the asset, or none; it does so iff the extensions list holds `'*'` or the asset's lower-cased extension |
| Host.ExtensionIsOneOf | src/Listeners/AssetUploadedListener.php:21 | the asset's lower-cased extension is one of the listed strings; `DispatchedByFileName` states it for a name `stem.ext` |
| AssetUploadedListener.DispatchedByFileName | src/Listeners/AssetUploadedListener.php:15-25 | for a file `stem.ext`, a job is dispatched iff `'*'` or the lower-cased `ext` is listed |
| AssetUploadedListener.UpperCaseExtensionDispatched | src/Listeners/AssetUploadedListener.php:21-25 | `photos/IMG_0001.JPG` is imported when `jpg` is listed |
| AssetUploadedListener.NoExtensionNeedsWildcard | src/Listeners/AssetUploadedListener.php:15-25 | a file whose base name holds no dot (whatever its directories hold) is imported iff the list holds `'*'` or the empty extension |
| AssetUploadedListener.DottedDirectoryNoExtension | src/Listeners/AssetUploadedListener.php:15-25 | `dir.v2/file` has no extension: it is not imported under `["jpg","png"]` and is imported under `["*"]` |
| AssetReuploadedListener.Handle | src/Listeners/AssetReuploadedListener.php:10-30 | with `overwrite_on_reupload` off nothing is dispatched; with it on, exactly what an upload would dispatch |
| AssetReuploadedListener.ReuploadDispatchedByFileName | src/Listeners/AssetReuploadedListener.php:16-29 | with the setting on, a file `stem.ext` is imported iff `'*'` or the lower-cased `ext` is listed |
| Support.FirstIndex | src/Importer.php:72-95 | the position returned is the first element satisfying the predicate, or the length when there is none |
| Support.FirstIndexUnique | src/Importer.php:72-95 | a position that satisfies the predicate and has no earlier match is the one returned |

## Left out

- The download of a remote asset in `readMetadata` (src/Importer.php:36-51) is a file operation. The model receives the local path as an `Option`; `None` stands for a stream or copy that failed.
- The temporary directory and its cleanup are also left out.
- Logging (`log`, src/Importer.php:232-243) is not modelled; it has no effect on the asset.
- `getAdapterName` (src/Importer.php:142-151) only feeds log messages, so it is not modelled.
- The PHPExif adapters, `MetadataReader` and their parsing are foreign code. They are two functions of an `Environment`:
  - whether an adapter can be built;
  - what a read yields.
- Configuration lookup with its defaults is not modelled. The model takes a `Config` value with the fields, `loose_mapping`, the adapter mapping and the tool paths; a missing path is read as `''`.
- The service provider, the queued `ImportMetadataJob` and its `handle` are not part of this model. The job is a datatype holding the asset.
- `data_get` path syntax is left out: dotted paths into nested arrays, `*`, `{first}` and `{last}`. Metadata is modelled as flat maps of strings, where a dotted key finds nothing.
- Metadata values that are not strings are not modelled: numbers, arrays, and `false`/`true`. Truthiness is modelled for strings and null: `""` and `"0"` are falsy.
- PHPExif metadata keys are unique in PHP arrays. The model uses insertion-ordered sequences, and `Lookup` takes the first entry with the key.
- The `adapter_mapping` configuration is an associative array in PHP, so its type names are unique. The model uses a sequence of entries; a repeated type name would select its adapter once per entry.
- The `fields` configuration is an associative array in PHP, so its handles are unique. The model uses a sequence and proves the assignment lemmas without assuming uniqueness.
- PhpStrings.MbStrToLower: only ASCII and Latin-1 upper-case letters are lower-cased. The rest of Unicode case mapping is not modelled.
- PhpStrings.MbLowerChar: only ASCII and Latin-1 upper-case letters are folded; other Unicode capitals (such as U+0100) are left as they are, unlike `mb_strtolower`.
- PhpStrings.Trim: trims PHP's default set (space, tab, newline, carriage return, NUL, vertical tab). Laravel's `Str::trim` also removes other Unicode whitespace; that is not modelled.
- `in_array` uses loose comparison in PHP. The model compares extension strings exactly; numeric-string coincidences such as `"1e1" == "10"` are not modelled.
- Host.ExtensionIsOneOf: Statamic's `extensionIsOneOf` is not part of this model. It is modelled as the lower-cased path extension being one of the listed strings, as listed.
- AssetReuploadedListener.Handle: the `overwrite_on_reupload` setting is taken as a boolean. PHP truthiness of other configured values is not modelled.
- MetadataImporter.Import: the local path's extension is taken as given. The temporary copy keeps `basename($path)`, so in the source it has the asset's own extension; the model does not require that of `localPath`.
- Host.Asset: the asset's persistence is a count of `saveQuietly` calls. Storage, events and the asset's other state are not modelled.
- The objects are not shared with other code, so aliasing between the importer, the asset and callers is not modelled.
