/**
 * `BuildkiteCacheCommand` after option parsing and validation: the object
 * whose `run` restores or saves the configured caches. Its state is the
 * contents of the two staging directories and the external commands issued
 * so far; each method is proved to do what the functions of CachePolicy
 * describe.
 */
module CacheCommand {
  import opened Wrappers
  import opened KeyTemplate
  import opened Config
  import opened CachePolicy

  /** The `<command>` argument. */
  datatype Mode = RestoreCaches | SaveCaches

  class BuildkiteCacheCommand {
    const world: World
    var restored: set<string>  // the files under .buildkite_restored_caches
    var saved: set<string>     // the archives under .buildkite_saved_caches
    var log: seq<Call>         // the external commands issued, in order

    function State(): Disk
      reads this
    {
      Disk(restored, saved, log)
    }

    constructor (world: World, restored: set<string>, saved: set<string>)
      ensures this.world == world
      ensures State() == Disk(restored, saved, [])
    {
      this.world := world;
      this.restored := restored;
      this.saved := saved;
      this.log := [];
    }

    /** restore_cache: list each key in turn until one has objects, then
        download the newest of them. */
    method RestoreCache(entry: CacheEntry) returns (r: Outcome<KeyError>)
      modifies this
      ensures Step(State(), r) == RestoreEntry(entry, world, old(State()))
    {
      var selected: Option<string> := None;
      ghost var listed: seq<string> := [];
      var i := 0;
      while i < |entry.keys|
        invariant 0 <= i <= |entry.keys|
        invariant |listed| == i && AllMiss(entry.keys, listed, world)
        invariant log == old(log) + ListCalls(listed, world)
        invariant restored == old(restored) && saved == old(saved)
        invariant selected.None?
      {
        var key := world.evaluate(entry.keys[i]);
        if key.Err? {
          SelectCacheFails(entry.keys, listed, key.error, world);
          RestoreEntryListsOnly(entry, world, old(State()), listed, Fail(key.error));
          return Fail(key.error);
        }
        var prefix := ListPrefix(world, key.value);
        log := log + [ListObjects(prefix)];
        ListCallsAppend(listed, key.value, world);
        AppendAssociates(old(log), ListCalls(listed, world), [ListObjects(prefix)]);
        var caches := world.listing(prefix);
        if caches != [] {
          selected := Some(caches[|caches| - 1]);
          SelectCacheHit(entry.keys, listed, key.value, world);
          listed := listed + [key.value];
          break;
        }
        AllMissAppend(entry.keys, listed, key.value, world);
        listed := listed + [key.value];
        i := i + 1;
      }
      if selected.None? {
        SelectCacheExhausted(entry.keys, listed, world);
        RestoreEntryListsOnly(entry, world, old(State()), listed, Pass);
        return Pass;
      }
      RestoreEntryDownloads(entry, world, old(State()), listed, selected.value);
      log := log + [Download(selected.value)];
      restored := restored + {Basename(selected.value)};
      return Pass;
    }

    /** save_cache: compress the paths under the first key's archive and
        upload it. */
    method SaveCache(entry: CacheEntry) returns (r: Outcome<KeyError>)
      requires entry.keys != []
      modifies this
      ensures Step(State(), r) == SaveCacheStep(entry, world, old(State()))
    {
      var paths := QuotePaths(entry.paths);
      var cacheKey := world.evaluate(entry.keys[0]);
      if cacheKey.Err? {
        return Fail(cacheKey.error);
      }
      var archive := ArchiveName(cacheKey.value);
      log := log + [Compress(cacheKey.value, paths)];
      saved := saved + {archive};
      log := log + [Upload(archive)];
      return Pass;
    }

    /** The restore-caches branch of run. */
    method RestoreAllCaches(entries: seq<CacheEntry>) returns (r: Outcome<KeyError>)
      modifies this
      ensures Step(State(), r) == RestoreRun(entries, world, old(State()))
    {
      var i := 0;
      while i < |entries|
        invariant 0 <= i <= |entries|
        invariant RestoreAll(entries, world, old(State())) == RestoreAll(entries[i..], world, State())
      {
        assert entries[i..][0] == entries[i] && entries[i..][1..] == entries[i + 1..];
        r := RestoreCache(entries[i]);
        if r.Fail? {
          return r;
        }
        i := i + 1;
      }
      if AnyVisible(restored) {
        log := log + [Extract];
      }
      return Pass;
    }

    /** The save-caches branch of run: skip every cache whose archive was
        restored, save the others. */
    method SaveAllCaches(entries: seq<CacheEntry>) returns (r: Outcome<KeyError>)
      requires AllWellFormed(entries)
      modifies this
      ensures Step(State(), r) == SaveAll(entries, world, old(State()))
    {
      var i := 0;
      while i < |entries|
        invariant 0 <= i <= |entries|
        invariant AllWellFormed(entries[i..])
        invariant SaveAll(entries, world, old(State())) == SaveAll(entries[i..], world, State())
      {
        var entry := entries[i];
        assert entries[i..][0] == entry && entries[i..][1..] == entries[i + 1..];
        var cacheKey := world.evaluate(entry.keys[0]);
        if cacheKey.Err? {
          return Fail(cacheKey.error);
        }
        if ArchiveName(cacheKey.value) in restored {
          i := i + 1;
          continue;
        }
        var _ := SaveCache(entry);
        i := i + 1;
      }
      return Pass;
    }

    /** run */
    method Run(mode: Mode, entries: seq<CacheEntry>) returns (r: Outcome<KeyError>)
      requires AllWellFormed(entries)
      modifies this
      ensures mode == RestoreCaches ==> Step(State(), r) == RestoreRun(entries, world, old(State()))
      ensures mode == SaveCaches ==> Step(State(), r) == SaveAll(entries, world, old(State()))
    {
      match mode
      case RestoreCaches =>
        r := RestoreAllCaches(entries);
      case SaveCaches =>
        r := SaveAllCaches(entries);
    }
  }
}
