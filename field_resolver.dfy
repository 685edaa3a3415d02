/** Field resolution of the importer: the value a configured field gets from the
    metadata that was read, by exact lookup and, when `loose_mapping` is on, by
    case-insensitive key search, one candidate source key at a time. */
module FieldResolver {
  import opened Support
  import opened PhpStrings

  /** One key/value pair of a PHP array of metadata. */
  datatype Entry = Entry(key: string, value: string)

  /** A PHP array of string metadata: entries in insertion order. */
  type OrderedMap = seq<Entry>

  /** The importer's `$metadata`: the adapter's mapped `data` and its vendor
      `rawData`. */
  datatype Metadata = Metadata(data: OrderedMap, rawData: OrderedMap)

  /** `['data' => [], 'rawData' => []]`: no metadata found. */
  const NoMetadata := Metadata([], [])

  /** A field's configured sources: an array of keys, or one string that may
      list several keys separated by commas. */
  datatype Sources = Listed(items: seq<string>) | CommaSeparated(text: string)

  // ----- exact lookup -----

  /** `data_get($map, $key)` on a flat map of strings. A key without a dot is
      looked up as it is. A dotted key is a path whose first step yields a
      string, which has no members, so it finds nothing. */
  function DataGet(m: OrderedMap, key: string): (r: Option<string>)
  {
    if '.' in key then None else Lookup(m, key)
  }

  /** The value of the first entry, in insertion order, with exactly this key. */
  function Lookup(m: OrderedMap, key: string): (r: Option<string>)
    decreases |m|
  {
    if m == [] then None
    else if m[0].key == key then Some(m[0].value)
    else Lookup(m[1..], key)
  }

  /** DataGet finds a value exactly when the key has no dot and some entry
      has that key, and the value it finds is that of such an entry. */
  lemma DataGetFinds(m: OrderedMap, key: string)
    ensures DataGet(m, key).Some? <==> '.' !in key && exists e <- m :: e.key == key
    ensures DataGet(m, key).Some? ==> Entry(key, DataGet(m, key).value) in m
  {
    if '.' !in key {
      LookupFinds(m, key);
    }
  }

  lemma {:induction false} LookupFinds(m: OrderedMap, key: string)
    ensures Lookup(m, key).Some? <==> exists e <- m :: e.key == key
    ensures Lookup(m, key).Some? ==> Entry(key, Lookup(m, key).value) in m
    decreases |m|
  {
    if m != [] && m[0].key != key {
      LookupFinds(m[1..], key);
      assert forall e <- m :: e == m[0] || e in m[1..];
    }
  }

  /** `data_get($data, $key) ?? data_get($rawData, $key)`. */
  function ExactValue(md: Metadata, source: string): (r: Option<string>)
  {
    var fromData := DataGet(md.data, source);
    if fromData.Some? then fromData else DataGet(md.rawData, source)
  }

  // ----- loose lookup -----

  /** The lower-cased key contains the lower-cased candidate. */
  predicate LooseKeyMatch(key: string, source: string)
  {
    Contains(MbStrToLower(key), MbStrToLower(source))
  }

  /** The value of the first entry, in insertion order, whose key loosely
      matches the candidate, whatever that value is. */
  function FirstLooseValue(m: OrderedMap, source: string): (r: Option<string>)
    decreases |m|
  {
    if m == [] then None
    else if LooseKeyMatch(m[0].key, source) then Some(m[0].value)
    else FirstLooseValue(m[1..], source)
  }

  /** `getValueByLooseMatch($source)`: search `data`, then `rawData`. */
  function LooseValue(md: Metadata, source: string): (r: Option<string>)
  {
    var fromData := FirstLooseValue(md.data, source);
    if fromData.Some? then fromData else FirstLooseValue(md.rawData, source)
  }

  // ----- one candidate, then the list -----

  /** `getValueBySource($source)`: the exact value when it is truthy;
      otherwise the loose value when loose mapping is on, or else the (falsy)
      exact value. */
  function ValueBySource(md: Metadata, source: string, looseMapping: bool): (r: Option<string>)
  {
    var exact := ExactValue(md, source);
    if Truthy(exact) then exact
    else if looseMapping then LooseValue(md, source)
    else exact
  }

  /** `getValueBySources`' loop: the first truthy candidate value, or null. */
  function ValueBySources(md: Metadata, candidates: seq<string>, looseMapping: bool): (r: Option<string>)
    ensures r == None || Truthy(r)
    decreases |candidates|
  {
    if candidates == [] then None
    else
      var v := ValueBySource(md, candidates[0], looseMapping);
      if Truthy(v) then v else ValueBySources(md, candidates[1..], looseMapping)
  }

  /** The candidate keys before trimming: the array itself, or the string
      exploded on commas. */
  function RawCandidates(sources: Sources): (r: seq<string>)
  {
    match sources
    case Listed(items) => items
    case CommaSeparated(text) => Explode(',', text)
  }

  /** The candidate keys, each trimmed, in configured order. */
  function Candidates(sources: Sources): (cs: seq<string>)
    ensures |cs| == |RawCandidates(sources)|
  {
    var raw := RawCandidates(sources);
    seq(|raw|, i requires 0 <= i < |raw| => Trim(raw[i]))
  }

  /** `getValueBySources($sources)`: the value a field resolves to. */
  function Resolve(md: Metadata, sources: Sources, looseMapping: bool): (r: Option<string>)
    ensures r == None || Truthy(r)
  {
    ValueBySources(md, Candidates(sources), looseMapping)
  }

  // ----- properties -----

  /** The list search returns the value of the first candidate whose own value
      is truthy, and null when there is none. */
  lemma {:induction false} ValueBySourcesIsFirstTruthy(md: Metadata, candidates: seq<string>, looseMapping: bool)
    ensures var k := FirstIndex(candidates, c => Truthy(ValueBySource(md, c, looseMapping)));
      ValueBySources(md, candidates, looseMapping)
        == if k < |candidates| then ValueBySource(md, candidates[k], looseMapping) else None
    decreases |candidates|
  {
    if candidates != [] {
      ValueBySourcesIsFirstTruthy(md, candidates[1..], looseMapping);
    }
  }

  /** A truthy value for an earlier candidate wins over any later candidate:
      with loose mapping on, a loose match of an earlier candidate beats an
      exact match of a later one. */
  lemma EarlierCandidateWins(md: Metadata, candidates: seq<string>, looseMapping: bool, k: nat)
    requires k < |candidates| && Truthy(ValueBySource(md, candidates[k], looseMapping))
    requires forall j :: 0 <= j < k ==> !Truthy(ValueBySource(md, candidates[j], looseMapping))
    ensures ValueBySources(md, candidates, looseMapping) == ValueBySource(md, candidates[k], looseMapping)
  {
    var p := c => Truthy(ValueBySource(md, c, looseMapping));
    FirstIndexUnique(candidates, p, k);
    ValueBySourcesIsFirstTruthy(md, candidates, looseMapping);
  }

  /** `rawData` is consulted only when `data` has no such key: a key present in
      `data` decides the exact value even when its value is falsy. */
  lemma DataShadowsRawData(md: Metadata, source: string, v: string)
    requires '.' !in source && Entry(source, v) in md.data
    requires forall e <- md.data :: e.key == source ==> e.value == v
    ensures ExactValue(md, source) == Some(v)
  {
    DataGetFinds(md.data, source);
  }

  /** With loose mapping off, a candidate's value is its exact value. */
  lemma LooseMappingOffIsExact(md: Metadata, source: string)
    ensures ValueBySource(md, source, false) == ExactValue(md, source)
  {
  }

  /** With loose mapping on and a falsy or missing exact value, a
      candidate's value is its loose value. */
  lemma LooseMappingOnUsesLoose(md: Metadata, source: string)
    requires !Truthy(ExactValue(md, source))
    ensures ValueBySource(md, source, true) == LooseValue(md, source)
  {
  }

  /** A truthy exact value is used whether or not loose mapping is on. */
  lemma ExactTruthyWins(md: Metadata, source: string, looseMapping: bool)
    requires Truthy(ExactValue(md, source))
    ensures ValueBySource(md, source, looseMapping) == ExactValue(md, source)
  {
  }

  /** The loose search stops at the first key that matches, in `data` before
      `rawData`, and yields that key's value even when it is falsy. */
  lemma LooseValueIsFirstMatch(md: Metadata, source: string, k: nat)
    requires k < |md.data| && LooseKeyMatch(md.data[k].key, source)
    requires forall j :: 0 <= j < k ==> !LooseKeyMatch(md.data[j].key, source)
    ensures LooseValue(md, source) == Some(md.data[k].value)
  {
    FirstLooseValueAt(md.data, source, k);
  }

  /** FirstLooseValue yields the value of the first loosely matching entry. */
  lemma {:induction false} FirstLooseValueAt(m: OrderedMap, source: string, k: nat)
    requires k < |m| && LooseKeyMatch(m[k].key, source)
    requires forall j :: 0 <= j < k ==> !LooseKeyMatch(m[j].key, source)
    ensures FirstLooseValue(m, source) == Some(m[k].value)
    decreases k
  {
    if k > 0 {
      assert !LooseKeyMatch(m[0].key, source);
      FirstLooseValueAt(m[1..], source, k - 1);
    }
  }

  /** When no `data` key loosely matches, the loose search is that of
      `rawData`. */
  lemma LooseFallsBackToRawData(md: Metadata, source: string)
    requires forall e <- md.data :: !LooseKeyMatch(e.key, source)
    ensures LooseValue(md, source) == FirstLooseValue(md.rawData, source)
  {
    FirstLooseValueNone(md.data, source);
  }

  /** FirstLooseValue finds nothing when no key loosely matches. */
  lemma {:induction false} FirstLooseValueNone(m: OrderedMap, source: string)
    requires forall e <- m :: !LooseKeyMatch(e.key, source)
    ensures FirstLooseValue(m, source) == None
    decreases |m|
  {
    if m != [] {
      assert m[0] in m;
      assert forall e <- m[1..] :: e in m;
      FirstLooseValueNone(m[1..], source);
    }
  }

  /** The loose search ignores the case of the candidate. */
  lemma LooseValueIgnoresCase(md: Metadata, s: string, t: string)
    requires MbStrToLower(s) == MbStrToLower(t)
    ensures LooseValue(md, s) == LooseValue(md, t)
  {
    FirstLooseValueIgnoresCase(md.data, s, t);
    FirstLooseValueIgnoresCase(md.rawData, s, t);
  }

  lemma {:induction false} FirstLooseValueIgnoresCase(m: OrderedMap, s: string, t: string)
    requires MbStrToLower(s) == MbStrToLower(t)
    ensures FirstLooseValue(m, s) == FirstLooseValue(m, t)
    decreases |m|
  {
    if m != [] {
      FirstLooseValueIgnoresCase(m[1..], s, t);
    }
  }

  /** An empty candidate (for example the piece after a trailing comma) is
      contained in every key, so with loose mapping on it takes the value of
      the very first `data` entry. */
  lemma EmptyCandidateMatchesFirstKey(md: Metadata)
    requires md.data != []
    ensures LooseValue(md, "") == Some(md.data[0].value)
  {
    assert MbStrToLower("") == "";
    assert LooseKeyMatch(md.data[0].key, "");
    LooseValueIsFirstMatch(md, "", 0);
  }

  /** Each candidate is the corresponding configured key with the
      surrounding whitespace trimmed, so it neither starts nor ends with
      whitespace. */
  lemma CandidatesTrimmed(sources: Sources, i: nat)
    requires i < |RawCandidates(sources)|
    ensures Candidates(sources)[i] == Trim(RawCandidates(sources)[i])
    ensures var c := Candidates(sources)[i];
      c == [] || (!IsTrimSpace(c[0]) && !IsTrimSpace(c[|c| - 1]))
  {
    TrimEnds(RawCandidates(sources)[i]);
  }

  /** A single string without commas is the one candidate it names, trimmed. */
  lemma SingleStringIsOneCandidate(text: string)
    requires ',' !in text
    ensures Candidates(CommaSeparated(text)) == [Trim(text)]
  {
    ExplodeNoSeparator(',', text);
  }

  /** A comma-separated string lists the same candidates as the array of its
      pieces. */
  lemma CommaSeparatedAsListed(items: seq<string>)
    requires |items| >= 1 && forall p <- items :: ',' !in p
    ensures Candidates(CommaSeparated(Implode(',', items))) == Candidates(Listed(items))
  {
    ExplodeImplode(',', items);
  }
}
