/**
 * The cache configuration and `BuildkiteCacheCommand#validate_config!`.
 *
 * The configuration is whatever YAML.load produced: a sequence of mappings,
 * each with a `keys` and a `paths` sequence. Validation walks the entries in
 * order and raises on the first entry that breaks a rule, checking the rules
 * of one entry in a fixed order.
 */
module Config {
  import opened Wrappers

  /** A loaded YAML value: a string, a sequence, a mapping with string keys,
      or any other scalar (number, boolean, null). */
  datatype Yaml =
    | YStr(s: string)
    | YSeq(items: seq<Yaml>)
    | YMap(fields: map<string, Yaml>)
    | YOther

  /** The exception validate_config! ends with. */
  datatype ConfigError =
    | NotAnArray      // "Config must be an array of cache objects"
    | MissingKeys     // "Cache config must have \"keys\" key"
    | MissingPaths    // "Cache config must have \"paths\" key"
    | KeysNotAnArray  // "Cache must have at least one key in an array"
    | PathsNotAnArray // "Cache must have at least one path in an array"
    | ExtraKeys       // "Cache must only have \"keys\" and \"paths\" keys"
    | WrongType       // Ruby's own NoMethodError / TypeError on an entry that is no mapping

  // ---------------------------------------------------------------------
  // What a valid configuration is

  predicate IsNonEmptySeq(v: Yaml) {
    v.YSeq? && |v.items| > 0
  }

  /** A mapping with exactly the keys `keys` and `paths`, each a non-empty
      sequence. */
  predicate ValidEntry(e: Yaml) {
    && e.YMap?
    && e.fields.Keys == {"keys", "paths"}
    && IsNonEmptySeq(e.fields["keys"])
    && IsNonEmptySeq(e.fields["paths"])
  }

  predicate ValidConfig(config: Yaml) {
    config.YSeq? && forall i :: 0 <= i < |config.items| ==> ValidEntry(config.items[i])
  }

  // ---------------------------------------------------------------------
  // One entry, rule by rule

  predicate OccursAt(t: string, s: string, i: int) {
    0 <= i <= |s| - |t| && s[i..i + |t|] == t
  }

  /** String#include?: t occurs in s as a substring. */
  predicate Occurs(t: string, s: string)
    ensures Occurs(t, s) <==> exists i :: OccursAt(t, s, i)
    decreases |s|
  {
    if |s| < |t| then false
    else if s[..|t|] == t then (assert OccursAt(t, s, 0); true)
    else
      var later := Occurs(t, s[1..]);
      assert forall i :: 1 <= i && OccursAt(t, s, i) ==> OccursAt(t, s[1..], i - 1);
      assert forall i :: OccursAt(t, s[1..], i) ==> OccursAt(t, s, i + 1);
      later
  }

  /** A mapping with both keys present and exactly two keys has no other key. */
  lemma {:induction false} TwoKeysOnly(keys: set<string>)
    requires "keys" in keys && "paths" in keys && |keys| == 2
    ensures keys == {"keys", "paths"}
  {
    var both := {"keys", "paths"};
    assert |both| == 2;
    var others := keys - both;
    assert keys == both + others;
    assert |keys| == |both| + |others|;
    assert others == {};
  }

  /** The first rule one entry breaks, in the order the source checks them.
      A sequence or string answers `include?` by membership or by substring;
      when it has both words, indexing it with "keys" fails. */
  function CheckEntry(e: Yaml): (r: Option<ConfigError>)
    ensures r.None? <==> ValidEntry(e)
    ensures e.YMap? && "keys" !in e.fields ==> r == Some(MissingKeys)
    ensures e.YMap? && "keys" in e.fields && "paths" !in e.fields ==> r == Some(MissingPaths)
    ensures !e.YMap? ==> r.Some? && r.value in {MissingKeys, MissingPaths, KeysNotAnArray, WrongType}
  {
    match e
    case YMap(fields) =>
      if "keys" !in fields then Some(MissingKeys)
      else if "paths" !in fields then Some(MissingPaths)
      else if !IsNonEmptySeq(fields["keys"]) then Some(KeysNotAnArray)
      else if !IsNonEmptySeq(fields["paths"]) then Some(PathsNotAnArray)
      else if |fields| != 2 then Some(ExtraKeys)
      else
        TwoKeysOnly(fields.Keys);
        None
    case YSeq(items) =>
      if YStr("keys") !in items then Some(MissingKeys)
      else if YStr("paths") !in items then Some(MissingPaths)
      else Some(WrongType)
    case YStr(s) =>
      if !Occurs("keys", s) then Some(MissingKeys)
      else if !Occurs("paths", s) then Some(MissingPaths)
      else Some(KeysNotAnArray)
    case YOther =>
      Some(WrongType)
  }

  // ---------------------------------------------------------------------
  // validate_config!

  /** Accepts exactly the valid configurations; otherwise reports the rule
      broken by the first entry that breaks one. */
  method ValidateConfig(config: Yaml) returns (r: Outcome<ConfigError>)
    ensures r.Pass? <==> ValidConfig(config)
    ensures !config.YSeq? ==> r == Fail(NotAnArray)
    ensures config.YSeq? && r.Fail? ==>
      exists i :: 0 <= i < |config.items|
        && (forall k :: 0 <= k < i ==> ValidEntry(config.items[k]))
        && CheckEntry(config.items[i]) == Some(r.error)
  {
    if !config.YSeq? {
      return Fail(NotAnArray);
    }
    var items := config.items;
    var i := 0;
    while i < |items|
      invariant 0 <= i <= |items|
      invariant forall k :: 0 <= k < i ==> ValidEntry(items[k])
    {
      var broken := CheckEntry(items[i]);
      if broken.Some? {
        return Fail(broken.value);
      }
      i := i + 1;
    }
    return Pass;
  }

  // ---------------------------------------------------------------------
  // The entries the commands work on

  /** One cache of the configuration, its keys and paths as strings. */
  datatype CacheEntry = CacheEntry(keys: seq<string>, paths: seq<string>)

  /** What a validated entry guarantees the commands. */
  predicate WellFormed(e: CacheEntry) {
    e.keys != [] && e.paths != []
  }

  predicate AllWellFormed(entries: seq<CacheEntry>) {
    forall i :: 0 <= i < |entries| ==> WellFormed(entries[i])
  }

  /** The strings of a sequence of YAML scalars, if they are all strings. */
  function Strings(items: seq<Yaml>): (r: Option<seq<string>>)
    ensures r.Some? <==> forall i :: 0 <= i < |items| ==> items[i].YStr?
    ensures r.Some? ==> |r.value| == |items| && forall i :: 0 <= i < |items| ==> items[i] == YStr(r.value[i])
  {
    if items == [] then Some([])
    else if !items[0].YStr? then None
    else
      match Strings(items[1..])
      case None => None
      case Some(rest) => Some([items[0].s] + rest)
  }

  /** A valid entry whose keys and paths are all strings. */
  predicate StringEntry(e: Yaml) {
    && ValidEntry(e)
    && (forall i :: 0 <= i < |e.fields["keys"].items| ==> e.fields["keys"].items[i].YStr?)
    && (forall i :: 0 <= i < |e.fields["paths"].items| ==> e.fields["paths"].items[i].YStr?)
  }

  /** The strings of a validated entry; none when a key or path is no string. */
  function EntryOf(e: Yaml): (r: Option<CacheEntry>)
    requires ValidEntry(e)
    ensures r.Some? <==> StringEntry(e)
    ensures r.Some? ==> WellFormed(r.value)
    ensures r.Some? ==> var keys, paths := e.fields["keys"].items, e.fields["paths"].items;
      && |r.value.keys| == |keys| && (forall i :: 0 <= i < |keys| ==> keys[i] == YStr(r.value.keys[i]))
      && |r.value.paths| == |paths| && (forall i :: 0 <= i < |paths| ==> paths[i] == YStr(r.value.paths[i]))
  {
    match (Strings(e.fields["keys"].items), Strings(e.fields["paths"].items))
    case (Some(keys), Some(paths)) => Some(CacheEntry(keys, paths))
    case _ => None
  }

  /** A validated configuration, when its keys and paths are strings, is a
      sequence of well-formed entries, one per configured cache, in order. */
  function Entries(items: seq<Yaml>): (r: Option<seq<CacheEntry>>)
    requires forall i :: 0 <= i < |items| ==> ValidEntry(items[i])
    ensures r.Some? <==> forall i :: 0 <= i < |items| ==> StringEntry(items[i])
    ensures r.Some? ==> |r.value| == |items| && AllWellFormed(r.value)
    ensures r.Some? ==> forall i :: 0 <= i < |items| ==> EntryOf(items[i]) == Some(r.value[i])
  {
    if items == [] then Some([])
    else
      assert forall i :: 1 <= i < |items| ==> items[i] == items[1..][i - 1];
      match (EntryOf(items[0]), Entries(items[1..]))
      case (Some(e), Some(rest)) => Some([e] + rest)
      case _ => None
  }
}
