/**
 * What `restore-caches` and `save-caches` do, as functions of the outside
 * world: which S3 objects are listed, downloaded and uploaded, which archives
 * end up in `.buildkite_restored_caches` and `.buildkite_saved_caches`, and
 * when extraction runs. The commands themselves (cache_command.dfy) are
 * proved to follow these functions; the lemmas here state what they
 * guarantee.
 */
module CachePolicy {
  import opened Wrappers
  import opened KeyTemplate
  import opened Config

  /** The outside world of one run: the `--s3-prefix` option, the
      evaluation of a cache-key template (evaluate_cache_key in the run's
      environment, see WorldOf), and the object listing of the bucket
      (`aws s3api list-objects` under a prefix, oldest first, empty when the
      listing fails). */
  datatype World = World(prefix: string, evaluate: string -> Result<string, KeyError>, listing: string -> seq<string>)

  /** The world of a run in the environment env: every key template is
      evaluated by Expand. */
  function WorldOf(prefix: string, env: Env, listing: string -> seq<string>): (w: World)
    ensures w.prefix == prefix && w.listing == listing
    ensures forall template :: w.evaluate(template) == Expand(template, env)
  {
    World(prefix, template => Expand(template, env), listing)
  }

  /** The S3 prefix a cache key is looked up under: `<prefix>/<key>`. */
  function ListPrefix(w: World, key: string): string {
    w.prefix + "/" + key
  }

  /** The name of the archive a cache key is stored as. */
  function ArchiveName(key: string): string {
    key + ".tar.gz"
  }

  /** The external commands a run issues, in order. */
  datatype Call =
    | ListObjects(prefix: string)         // aws s3api list-objects --prefix=…
    | Download(s3Key: string)             // aws s3 cp s3://<bucket>/<object> .buildkite_restored_caches/
    | Extract                             // tar -xzf .buildkite_restored_caches/*.tar.gz inside the VM
    | Compress(key: string, paths: string) // tar -czf .buildkite_saved_caches/<key>.tar.gz <paths> inside the VM
    | Upload(archive: string)             // aws s3 cp .buildkite_saved_caches/<archive> s3://<bucket>/<prefix>/

  /** The files in the two staging directories and the commands issued so far. */
  datatype Disk = Disk(restored: set<string>, saved: set<string>, log: seq<Call>)

  /** The state a step leaves and whether it raised. */
  datatype Step = Step(disk: Disk, outcome: Outcome<KeyError>)

  // ---------------------------------------------------------------------
  // restore_cache: choosing the object to download

  function Last(s: seq<string>): string
    requires s != []
  {
    s[|s| - 1]
  }

  /** The evaluated keys that were listed, and the object chosen (None when
      every listing was empty), or the error evaluating a key raised. */
  datatype Selection = Selection(queried: seq<string>, result: Result<Option<string>, KeyError>)

  function SelectCache(keys: seq<string>, w: World): (sel: Selection)
    ensures |sel.queried| <= |keys|
    decreases |keys|
  {
    if keys == [] then Selection([], Ok(None))
    else
      match w.evaluate(keys[0])
      case Err(e) => Selection([], Err(e))
      case Ok(key) =>
        var found := w.listing(ListPrefix(w, key));
        if found != [] then Selection([key], Ok(Some(Last(found))))
        else
          var rest := SelectCache(keys[1..], w);
          Selection([key] + rest.queried, rest.result)
  }

  /** SelectCache over the keys from index i on, one step at a time. */
  lemma SelectCacheAt(keys: seq<string>, i: nat, w: World)
    requires i <= |keys|
    ensures i == |keys| ==> SelectCache(keys[i..], w) == Selection([], Ok(None))
    ensures i < |keys| ==> var key := w.evaluate(keys[i]);
      && (key.Err? ==> SelectCache(keys[i..], w) == Selection([], Err(key.error)))
      && (key.Ok? && w.listing(ListPrefix(w, key.value)) != [] ==>
            SelectCache(keys[i..], w) == Selection([key.value], Ok(Some(Last(w.listing(ListPrefix(w, key.value)))))))
      && (key.Ok? && w.listing(ListPrefix(w, key.value)) == [] ==>
            SelectCache(keys[i..], w) == After([key.value], SelectCache(keys[i + 1..], w)))
  {
    if i < |keys| {
      assert keys[i..][0] == keys[i] && keys[i..][1..] == keys[i + 1..];
    }
  }

  /** The selection with some keys already listed in front of it. */
  function After(listed: seq<string>, sel: Selection): Selection {
    Selection(listed + sel.queried, sel.result)
  }

  /** Keys that evaluate and whose listings are all empty. */
  predicate AllMiss(keys: seq<string>, queried: seq<string>, w: World) {
    && |queried| <= |keys|
    && (forall i :: 0 <= i < |queried| ==> w.evaluate(keys[i]) == Ok(queried[i]))
    && (forall i :: 0 <= i < |queried| ==> w.listing(ListPrefix(w, queried[i])) == [])
  }

  /** One more key that evaluates and whose listing is empty. */
  lemma AllMissAppend(keys: seq<string>, queried: seq<string>, key: string, w: World)
    requires AllMiss(keys, queried, w) && |queried| < |keys|
    requires w.evaluate(keys[|queried|]) == Ok(key) && w.listing(ListPrefix(w, key)) == []
    ensures AllMiss(keys, queried + [key], w)
  {
    var longer := queried + [key];
    forall i | 0 <= i < |longer|
      ensures w.evaluate(keys[i]) == Ok(longer[i]) && w.listing(ListPrefix(w, longer[i])) == []
    {
      if i < |queried| { assert longer[i] == queried[i]; }
    }
  }

  /** After keys that all missed, the selection is that of the remaining
      keys with the missed ones listed in front. */
  lemma {:induction false} SelectCacheAfterMisses(keys: seq<string>, listed: seq<string>, w: World)
    requires AllMiss(keys, listed, w)
    ensures SelectCache(keys, w) == After(listed, SelectCache(keys[|listed|..], w))
    decreases |listed|
  {
    if listed == [] {
      assert keys[0..] == keys;
    } else {
      SelectCacheAt(keys, 0, w);
      assert keys[0..] == keys;
      assert AllMiss(keys[1..], listed[1..], w) by {
        forall i | 0 <= i < |listed[1..]|
          ensures w.evaluate(keys[1..][i]) == Ok(listed[1..][i])
          ensures w.listing(ListPrefix(w, listed[1..][i])) == []
        {
          assert keys[1..][i] == keys[i + 1] && listed[1..][i] == listed[i + 1];
        }
      }
      SelectCacheAfterMisses(keys[1..], listed[1..], w);
      assert keys[1..][|listed[1..]|..] == keys[|listed|..];
      assert listed == [listed[0]] + listed[1..];
    }
  }

  /** After the keys in listed all missed, the next key has a non-empty
      listing: its newest object is chosen. */
  lemma SelectCacheHit(keys: seq<string>, listed: seq<string>, key: string, w: World)
    requires AllMiss(keys, listed, w) && |listed| < |keys|
    requires w.evaluate(keys[|listed|]) == Ok(key) && w.listing(ListPrefix(w, key)) != []
    ensures SelectCache(keys, w) == Selection(listed + [key], Ok(Some(Last(w.listing(ListPrefix(w, key))))))
  {
    SelectCacheAfterMisses(keys, listed, w);
    SelectCacheAt(keys, |listed|, w);
  }

  /** After the keys in listed all missed, the next key fails to evaluate. */
  lemma SelectCacheFails(keys: seq<string>, listed: seq<string>, e: KeyError, w: World)
    requires AllMiss(keys, listed, w) && |listed| < |keys|
    requires w.evaluate(keys[|listed|]) == Err(e)
    ensures SelectCache(keys, w) == Selection(listed, Err(e))
  {
    SelectCacheAfterMisses(keys, listed, w);
    SelectCacheAt(keys, |listed|, w);
    assert listed + [] == listed;
  }

  /** Every key missed: nothing is chosen. */
  lemma SelectCacheExhausted(keys: seq<string>, listed: seq<string>, w: World)
    requires AllMiss(keys, listed, w) && |listed| == |keys|
    ensures SelectCache(keys, w) == Selection(listed, Ok(None))
  {
    SelectCacheAfterMisses(keys, listed, w);
    SelectCacheAt(keys, |listed|, w);
    assert listed + [] == listed;
  }

  /** A key that evaluates and lists nothing, in front of misses, is one
      more miss. */
  lemma AllMissCons(keys: seq<string>, key: string, queried: seq<string>, w: World)
    requires keys != [] && w.evaluate(keys[0]) == Ok(key) && w.listing(ListPrefix(w, key)) == []
    requires AllMiss(keys[1..], queried, w)
    ensures AllMiss(keys, [key] + queried, w)
  {
    assert forall i :: 1 <= i < |keys| ==> keys[i] == keys[1..][i - 1];
  }

  /** The keys are tried in order: every key before the last one listed
      evaluated and had an empty listing. The chosen object is the newest one
      under the first key with a non-empty listing; if there is none, every
      key was listed and nothing is chosen; an error is the one the first key
      that could not be evaluated raised. */
  lemma {:induction false} SelectCacheSpec(keys: seq<string>, w: World)
    ensures var sel := SelectCache(keys, w);
      (match sel.result
      case Ok(None) =>
        AllMiss(keys, sel.queried, w) && |sel.queried| == |keys|
      case Ok(Some(hit)) =>
        var n := |sel.queried| - 1;
        && 0 <= n < |keys|
        && AllMiss(keys, sel.queried[..n], w)
        && w.evaluate(keys[n]) == Ok(sel.queried[n])
        && w.listing(ListPrefix(w, sel.queried[n])) != []
        && hit == Last(w.listing(ListPrefix(w, sel.queried[n])))
      case Err(e) =>
        && AllMiss(keys, sel.queried, w)
        && |sel.queried| < |keys|
        && w.evaluate(keys[|sel.queried|]) == Err(e))
    decreases |keys|
  {
    if keys != [] {
      match w.evaluate(keys[0])
      case Err(e) =>
      case Ok(key) =>
        var found := w.listing(ListPrefix(w, key));
        if found == [] {
          SelectCacheSpec(keys[1..], w);
          var rest := SelectCache(keys[1..], w);
          var q := [key] + rest.queried;
          assert SelectCache(keys, w) == Selection(q, rest.result);
          match rest.result
          case Ok(None) =>
            AllMissCons(keys, key, rest.queried, w);
          case Err(e) =>
            AllMissCons(keys, key, rest.queried, w);
            assert keys[|q|] == keys[1..][|rest.queried|];
          case Ok(Some(hit)) =>
            var n := |rest.queried| - 1;
            AllMissCons(keys, key, rest.queried[..n], w);
            assert q[..n + 1] == [key] + rest.queried[..n];
            assert keys[n + 1] == keys[1..][n] && q[n + 1] == rest.queried[n];
        } else {
          assert SelectCache(keys, w).queried[..0] == [];
        }
    }
  }

  /** Keys after the one that decided the selection are never evaluated nor
      listed: replacing them changes nothing. */
  lemma {:induction false} SelectCacheStopsEarly(keys: seq<string>, more: seq<string>, w: World)
    requires SelectCache(keys, w).result != Ok(None)
    ensures var sel := SelectCache(keys, w);
      var n := if sel.result.Err? then |sel.queried| + 1 else |sel.queried|;
      n <= |keys| && SelectCache(keys[..n] + more, w) == sel
    decreases |keys|
  {
    SelectCacheSpec(keys, w);
    var sel := SelectCache(keys, w);
    var n := if sel.result.Err? then |sel.queried| + 1 else |sel.queried|;
    var other := keys[..n] + more;
    assert other[0] == keys[0];
    match w.evaluate(keys[0])
    case Err(e) =>
    case Ok(key) =>
      if w.listing(ListPrefix(w, key)) == [] {
        SelectCacheStopsEarly(keys[1..], more, w);
        var rest := SelectCache(keys[1..], w);
        var m := if rest.result.Err? then |rest.queried| + 1 else |rest.queried|;
        assert n == m + 1;
        assert other[1..] == keys[1..][..m] + more;
      }
  }

  // ---------------------------------------------------------------------
  // restore_cache: its commands and its effect on the restored directory

  /** One listing per evaluated key, in order. */
  function ListCalls(queried: seq<string>, w: World): (calls: seq<Call>)
    ensures |calls| == |queried|
  {
    if queried == [] then []
    else ListCalls(queried[..|queried| - 1], w) + [ListObjects(ListPrefix(w, queried[|queried| - 1]))]
  }

  /** The i-th listing is of the i-th evaluated key, and there is nothing
      but listings. */
  lemma {:induction false} ListCallsShape(queried: seq<string>, w: World)
    ensures forall i :: 0 <= i < |queried| ==> ListCalls(queried, w)[i] == ListObjects(ListPrefix(w, queried[i]))
    ensures forall c | c in ListCalls(queried, w) :: c.ListObjects?
    decreases |queried|
  {
    if queried != [] {
      ListCallsShape(queried[..|queried| - 1], w);
    }
  }

  lemma AppendAssociates(a: seq<Call>, b: seq<Call>, c: seq<Call>)
    ensures (a + b) + c == a + (b + c)
  {
  }

  lemma ListCallsAppend(queried: seq<string>, key: string, w: World)
    ensures ListCalls(queried + [key], w) == ListCalls(queried, w) + [ListObjects(ListPrefix(w, key))]
  {
    assert (queried + [key])[..|queried|] == queried;
  }

  /** The file name `aws s3 cp <object> <dir>/` writes: the part after the
      last '/'. */
  function Basename(path: string): (r: string)
    ensures |r| <= |path| && '/' !in r
  {
    if path == [] || path[|path| - 1] == '/' then []
    else Basename(path[..|path| - 1]) + [path[|path| - 1]]
  }

  /** The base name is a suffix of the path without a '/'. */
  lemma {:induction false} BasenameIsSuffix(path: string)
    ensures '/' !in Basename(path)
    ensures |Basename(path)| <= |path| && Basename(path) == path[|path| - |Basename(path)|..]
    decreases |path|
  {
    if path != [] && path[|path| - 1] != '/' {
      var init, c := path[..|path| - 1], path[|path| - 1];
      BasenameIsSuffix(init);
      var r := Basename(init);
      assert Basename(path) == r + [c];
      assert path[|path| - |r| - 1..] == init[|init| - |r|..] + [c];
    }
  }

  /** The base name is the longest such suffix: it is the whole path, or a
      '/' comes right before it. */
  lemma {:induction false} BasenameFollowsLastSlash(path: string)
    ensures |Basename(path)| == |path| || (|Basename(path)| < |path| && path[|path| - |Basename(path)| - 1] == '/')
    decreases |path|
  {
    if path != [] && path[|path| - 1] != '/' {
      var init := path[..|path| - 1];
      BasenameFollowsLastSlash(init);
      var r := Basename(init);
      assert Basename(path) == r + [path[|path| - 1]];
      if |r| < |init| {
        assert path[|path| - |r| - 2] == init[|init| - |r| - 1];
      }
    }
  }

  function RestoreCalls(sel: Selection, w: World): seq<Call> {
    ListCalls(sel.queried, w) + (if sel.result.Ok? && sel.result.value.Some? then [Download(sel.result.value.value)] else [])
  }

  function Fetched(sel: Selection): set<string> {
    if sel.result.Ok? && sel.result.value.Some? then ({Basename(sel.result.value.value)}) else {}
  }

  /** restore_cache for one configured cache. */
  function RestoreEntry(e: CacheEntry, w: World, d: Disk): (s: Step)
    ensures s.disk.saved == d.saved && d.restored <= s.disk.restored
    ensures |d.log| <= |s.disk.log| && s.disk.log[..|d.log|] == d.log
    ensures s.outcome.Pass? <==> SelectCache(e.keys, w).result.Ok?
    ensures s.outcome.Fail? ==> s.disk.restored == d.restored
  {
    var sel := SelectCache(e.keys, w);
    Step(Disk(d.restored + Fetched(sel), d.saved, d.log + RestoreCalls(sel, w)),
         if sel.result.Err? then Fail(sel.result.error) else Pass)
  }

  /** restore_cache when it downloads the object chosen after listing the
      keys in listed. */
  lemma RestoreEntryDownloads(e: CacheEntry, w: World, d: Disk, listed: seq<string>, chosen: string)
    requires SelectCache(e.keys, w) == Selection(listed, Ok(Some(chosen)))
    ensures RestoreEntry(e, w, d)
      == Step(Disk(d.restored + {Basename(chosen)}, d.saved, (d.log + ListCalls(listed, w)) + [Download(chosen)]), Pass)
  {
    AppendAssociates(d.log, ListCalls(listed, w), [Download(chosen)]);
  }

  /** restore_cache when it downloads nothing: it ends after listing the keys
      in listed, with the outcome of the selection. */
  lemma RestoreEntryListsOnly(e: CacheEntry, w: World, d: Disk, listed: seq<string>, outcome: Outcome<KeyError>)
    requires var sel := SelectCache(e.keys, w);
      || (sel == Selection(listed, Ok(None)) && outcome == Pass)
      || (outcome.Fail? && sel == Selection(listed, Err(outcome.error)))
    ensures RestoreEntry(e, w, d) == Step(Disk(d.restored, d.saved, d.log + ListCalls(listed, w)), outcome)
  {
    assert ListCalls(listed, w) + [] == ListCalls(listed, w);
  }

  /** The loop of `run` over the configured caches; an error ends the run. */
  function RestoreAll(entries: seq<CacheEntry>, w: World, d: Disk): (s: Step)
    ensures s.disk.saved == d.saved && d.restored <= s.disk.restored
    ensures |d.log| <= |s.disk.log| && s.disk.log[..|d.log|] == d.log
    decreases |entries|
  {
    if entries == [] then Step(d, Pass)
    else
      var s := RestoreEntry(entries[0], w, d);
      if s.outcome.Fail? then s else RestoreAll(entries[1..], w, s.disk)
  }

  /** A restore run raises exactly when evaluating some cache's keys raises;
      downloads never decide it. */
  lemma {:induction false} RestoreAllPasses(entries: seq<CacheEntry>, w: World, d: Disk)
    ensures RestoreAll(entries, w, d).outcome.Pass? <==>
      forall i :: 0 <= i < |entries| ==> SelectCache(entries[i].keys, w).result.Ok?
    decreases |entries|
  {
    if entries != [] {
      var s := RestoreEntry(entries[0], w, d);
      if s.outcome.Pass? {
        RestoreAllPasses(entries[1..], w, s.disk);
        assert forall i :: 1 <= i < |entries| ==> entries[i] == entries[1..][i - 1];
      }
    }
  }

  /** Listing the restored directory with a glob shows only names not starting with '.'. */
  predicate Visible(name: string) {
    name != [] && name[0] != '.'
  }

  predicate AnyVisible(names: set<string>) {
    exists name :: name in names && Visible(name)
  }

  /** The `restore-caches` command: restore every cache, then extract once if
      the restored directory shows any file. */
  function RestoreRun(entries: seq<CacheEntry>, w: World, d: Disk): (s: Step)
    ensures s.disk.saved == d.saved && d.restored <= s.disk.restored
    ensures |d.log| <= |s.disk.log| && s.disk.log[..|d.log|] == d.log
    ensures s.outcome == RestoreAll(entries, w, d).outcome
  {
    var s := RestoreAll(entries, w, d);
    if s.outcome.Pass? && AnyVisible(s.disk.restored) then
      Step(Disk(s.disk.restored, s.disk.saved, s.disk.log + [Extract]), Pass)
    else s
  }

  /** The objects downloaded by a sequence of calls, in order. */
  function Downloads(calls: seq<Call>): (r: seq<string>)
    ensures |r| <= |calls|
  {
    if calls == [] then []
    else (if calls[0].Download? then [calls[0].s3Key] else []) + Downloads(calls[1..])
  }

  lemma {:induction false} DownloadsAppend(a: seq<Call>, b: seq<Call>)
    ensures Downloads(a + b) == Downloads(a) + Downloads(b)
    decreases |a|
  {
    if a == [] {
      assert a + b == b;
    } else {
      var head := if a[0].Download? then [a[0].s3Key] else [];
      assert Downloads(a + b) == head + Downloads(a[1..] + b) by {
        assert (a + b)[0] == a[0] && (a + b)[1..] == a[1..] + b;
      }
      DownloadsAppend(a[1..], b);
      assert head + (Downloads(a[1..]) + Downloads(b)) == (head + Downloads(a[1..])) + Downloads(b);
    }
  }

  /** The file names the downloads of the given objects write. */
  function BaseNames(objects: seq<string>): set<string> {
    set o | o in objects :: Basename(o)
  }

  lemma BaseNamesAppend(a: seq<string>, b: seq<string>)
    ensures BaseNames(a + b) == BaseNames(a) + BaseNames(b)
  {
    forall n | n in BaseNames(a + b)
      ensures n in BaseNames(a) + BaseNames(b)
    {
      var o :| o in a + b && Basename(o) == n;
      assert o in a || o in b;
    }
  }

  lemma {:induction false} ListCallsDownloadNothing(queried: seq<string>, w: World)
    ensures Downloads(ListCalls(queried, w)) == []
    decreases |queried|
  {
    if queried != [] {
      var init := queried[..|queried| - 1];
      ListCallsDownloadNothing(init, w);
      DownloadsAppend(ListCalls(init, w), [ListObjects(ListPrefix(w, queried[|queried| - 1]))]);
    }
  }

  /** What a restore may do between two states: append only listings and
      downloads to the log (at most `bound` downloads), add the base name of
      every downloaded object to the restored directory and nothing else, and
      leave the saved directory alone. */
  predicate FetchesOnly(d: Disk, s: Disk, bound: nat) {
    && |d.log| <= |s.log| && s.log[..|d.log|] == d.log
    && s.saved == d.saved
    && (forall c | c in s.log[|d.log|..] :: c.ListObjects? || c.Download?)
    && |Downloads(s.log[|d.log|..])| <= bound
    && s.restored == d.restored + BaseNames(Downloads(s.log[|d.log|..]))
  }

  lemma FetchesOnlyChain(d: Disk, m: Disk, s: Disk, b1: nat, b2: nat)
    requires FetchesOnly(d, m, b1) && FetchesOnly(m, s, b2)
    ensures FetchesOnly(d, s, b1 + b2)
  {
    var x, y := m.log[|d.log|..], s.log[|m.log|..];
    var xy := s.log[|d.log|..];
    assert xy == x + y;
    assert s.log[..|d.log|] == d.log;
    DownloadsAppend(x, y);
    BaseNamesAppend(Downloads(x), Downloads(y));
    assert Downloads(xy) == Downloads(x) + Downloads(y);
    assert BaseNames(Downloads(xy)) == BaseNames(Downloads(x)) + BaseNames(Downloads(y));
  }

  lemma FetchedNames(sel: Selection)
    ensures var fetch := if sel.result.Ok? && sel.result.value.Some? then [Download(sel.result.value.value)] else [];
      |Downloads(fetch)| <= 1 && BaseNames(Downloads(fetch)) == Fetched(sel)
  {
    if sel.result.Ok? && sel.result.value.Some? {
      var o := sel.result.value.value;
      assert Downloads([Download(o)]) == [o];
      assert BaseNames([o]) == {Basename(o)};
    } else {
      assert BaseNames([]) == {};
    }
  }

  lemma SelectionFetches(sel: Selection, w: World, d: Disk)
    ensures FetchesOnly(d, Disk(d.restored + Fetched(sel), d.saved, d.log + RestoreCalls(sel, w)), 1)
  {
    var lists := ListCalls(sel.queried, w);
    var fetch := if sel.result.Ok? && sel.result.value.Some? then [Download(sel.result.value.value)] else [];
    var s := Disk(d.restored + Fetched(sel), d.saved, d.log + (lists + fetch));
    var added := s.log[|d.log|..];
    assert added == lists + fetch;
    DownloadsAppend(lists, fetch);
    ListCallsDownloadNothing(sel.queried, w);
    ListCallsShape(sel.queried, w);
    assert Downloads(added) == Downloads(fetch);
    FetchedNames(sel);
  }

  lemma RestoreEntryFetches(e: CacheEntry, w: World, d: Disk)
    ensures FetchesOnly(d, RestoreEntry(e, w, d).disk, 1)
  {
    SelectionFetches(SelectCache(e.keys, w), w, d);
  }

  /** A restore run only lists and downloads, at most one object per cache,
      and the restored directory gains exactly the base names of the
      downloaded objects; nothing is saved. */
  lemma {:induction false} RestoreAllShape(entries: seq<CacheEntry>, w: World, d: Disk)
    ensures FetchesOnly(d, RestoreAll(entries, w, d).disk, |entries|)
    decreases |entries|
  {
    if entries == [] {
      assert RestoreAll(entries, w, d).disk.log[|d.log|..] == [];
    } else {
      var first := RestoreEntry(entries[0], w, d);
      RestoreEntryFetches(entries[0], w, d);
      if first.outcome.Pass? {
        RestoreAllShape(entries[1..], w, first.disk);
        FetchesOnlyChain(d, first.disk, RestoreAll(entries, w, d).disk, 1, |entries| - 1);
      }
    }
  }

  /** Extraction runs at most once, last, and exactly when every cache was
      restored without error and the restored directory shows a file. */
  lemma RestoreRunExtractsOnce(entries: seq<CacheEntry>, w: World, d: Disk)
    ensures |d.log| <= |RestoreRun(entries, w, d).disk.log|
    ensures var all := RestoreAll(entries, w, d);
      var calls := RestoreRun(entries, w, d).disk.log[|d.log|..];
      && (Extract in calls <==> all.outcome.Pass? && AnyVisible(all.disk.restored))
      && multiset(calls)[Extract] <= 1
      && (Extract in calls ==> calls[|calls| - 1] == Extract)
  {
    RestoreAllShape(entries, w, d);
    var all := RestoreAll(entries, w, d);
    var mine := all.disk.log[|d.log|..];
    assert Extract !in mine;
    assert multiset(mine)[Extract] == 0;
    if all.outcome.Pass? && AnyVisible(all.disk.restored) {
      assert RestoreRun(entries, w, d).disk.log[|d.log|..] == mine + [Extract];
    }
  }

  /** The first key of the cache evaluates and has objects under it. */
  predicate FirstKeyHits(e: CacheEntry, w: World) {
    && e.keys != []
    && w.evaluate(e.keys[0]).Ok?
    && w.listing(ListPrefix(w, w.evaluate(e.keys[0]).value)) != []
  }

  /** When the first key hits, restore_cache lists once and downloads the
      newest object under it. */
  lemma RestoreEntryFirstKeyHits(e: CacheEntry, w: World, d: Disk)
    requires FirstKeyHits(e, w)
    ensures var key := w.evaluate(e.keys[0]).value;
      var chosen := Last(w.listing(ListPrefix(w, key)));
      RestoreEntry(e, w, d)
        == Step(Disk(d.restored + {Basename(chosen)}, d.saved, d.log + [ListObjects(ListPrefix(w, key)), Download(chosen)]), Pass)
  {
    var key := w.evaluate(e.keys[0]).value;
    var chosen := Last(w.listing(ListPrefix(w, key)));
    SelectCacheAt(e.keys, 0, w);
    assert e.keys[0..] == e.keys;
    RestoreEntryDownloads(e, w, d, [key], chosen);
    assert ListCalls([key], w) == [ListObjects(ListPrefix(w, key))] by {
      assert [key][..0] == [];
    }
  }

  /** When every cache's first key hits, each cache costs one listing and one
      download, and nothing raises. */
  lemma {:induction false} RestoreEachCache(entries: seq<CacheEntry>, w: World, d: Disk)
    requires forall i :: 0 <= i < |entries| ==> FirstKeyHits(entries[i], w)
    ensures var s := RestoreAll(entries, w, d);
      && s.outcome.Pass?
      && |d.log| <= |s.disk.log|
      && |s.disk.log| == |d.log| + 2 * |entries|
      && |Downloads(s.disk.log[|d.log|..])| == |entries|
    decreases |entries|
  {
    if entries == [] {
      assert RestoreAll(entries, w, d).disk.log[|d.log|..] == [];
    } else {
      var first := RestoreEntry(entries[0], w, d);
      RestoreEntryFirstKeyHits(entries[0], w, d);
      assert forall i :: 1 <= i < |entries| ==> entries[i] == entries[1..][i - 1];
      RestoreEachCache(entries[1..], w, first.disk);
      RestoreAllShape(entries[1..], w, first.disk);
      var s := RestoreAll(entries, w, d);
      assert s == RestoreAll(entries[1..], w, first.disk);
      var two := first.disk.log[|d.log|..];
      var rest := s.disk.log[|first.disk.log|..];
      assert first.disk.log == d.log + two;
      assert s.disk.log == first.disk.log + rest;
      assert s.disk.log[|d.log|..] == two + rest;
      DownloadsAppend(two, rest);
      assert Downloads(two) == Downloads(two[1..]);
    }
  }

  // ---------------------------------------------------------------------
  // save_cache and the save loop of run

  /** Ruby's Array#join with a separator. */
  function Join(parts: seq<string>, sep: string): string {
    if parts == [] then ""
    else if |parts| == 1 then parts[0]
    else parts[0] + sep + Join(parts[1..], sep)
  }

  /** `"'" + paths.join("' '") + "'"`. */
  function QuotePaths(paths: seq<string>): (r: string)
    ensures |r| >= 2 && r[0] == '\'' && r[|r| - 1] == '\''
  {
    "'" + Join(paths, "' '") + "'"
  }

  /** One path as a single-quoted shell word. */
  function Quoted(path: string): string {
    "'" + path + "'"
  }

  /** The shell words of the paths, each quoted, separated by one space. */
  function Words(paths: seq<string>): (r: string)
    requires paths != []
    decreases |paths|
  {
    if |paths| == 1 then Quoted(paths[0]) else Quoted(paths[0]) + " " + Words(paths[1..])
  }

  /** The path argument is every configured path as its own quoted word, in
      order, separated by single spaces. */
  lemma {:induction false} QuotePathsAreWords(paths: seq<string>)
    requires paths != []
    ensures QuotePaths(paths) == Words(paths)
    decreases |paths|
  {
    if |paths| > 1 {
      QuotePathsAreWords(paths[1..]);
      var j := Join(paths[1..], "' '");
      calc {
        QuotePaths(paths);
        "'" + (paths[0] + "' '" + j) + "'";
        { assert "' '" == "'" + " " + "'"; }
        ("'" + paths[0] + "'") + " " + ("'" + j + "'");
        Quoted(paths[0]) + " " + QuotePaths(paths[1..]);
      }
    }
  }

  /** The example of two paths. */
  lemma QuoteTwoPaths(a: string, b: string)
    ensures QuotePaths([a, b]) == "'" + a + "' '" + b + "'"
  {
    assert [a, b][1..] == [b];
    assert Join([a, b], "' '") == a + "' '" + b;
    assert "'" + (a + "' '" + b) + "'" == "'" + a + "' '" + b + "'";
  }

  /** save_cache: compress the paths into the archive of the first key and
      upload it. The saved-caches directory is created when missing (see
      CompressAsWritten for the command as written). */
  function SaveCacheStep(e: CacheEntry, w: World, d: Disk): (s: Step)
    requires e.keys != []
    ensures s.outcome.Pass? <==> w.evaluate(e.keys[0]).Ok?
    ensures s.outcome.Fail? ==> s.disk == d
    ensures s.disk.restored == d.restored && d.saved <= s.disk.saved
    ensures s.outcome.Pass? ==>
      && ArchiveName(w.evaluate(e.keys[0]).value) in s.disk.saved
      && |s.disk.log| == |d.log| + 2 && s.disk.log[..|d.log|] == d.log
      && Paired(s.disk.log[|d.log|..])
  {
    var paths := QuotePaths(e.paths);
    match w.evaluate(e.keys[0])
    case Err(err) => Step(d, Fail(err))
    case Ok(key) =>
      Step(Disk(d.restored, d.saved + {ArchiveName(key)}, d.log + [Compress(key, paths), Upload(ArchiveName(key))]), Pass)
  }

  /** One iteration of the save loop: skip a cache whose archive was restored. */
  function SaveEntry(e: CacheEntry, w: World, d: Disk): (s: Step)
    requires e.keys != []
    ensures s.outcome.Pass? <==> w.evaluate(e.keys[0]).Ok?
    ensures s.disk.restored == d.restored && d.saved <= s.disk.saved
    ensures s.outcome.Pass? && ArchiveName(w.evaluate(e.keys[0]).value) in d.restored ==> s.disk == d
    ensures s.outcome.Pass? ==> ArchiveName(w.evaluate(e.keys[0]).value) in s.disk.saved + d.restored
  {
    match w.evaluate(e.keys[0])
    case Err(err) => Step(d, Fail(err))
    case Ok(key) =>
      if ArchiveName(key) in d.restored then Step(d, Pass) else SaveCacheStep(e, w, d)
  }

  /** The `save-caches` command; an error ends the run. */
  function SaveAll(entries: seq<CacheEntry>, w: World, d: Disk): (s: Step)
    requires AllWellFormed(entries)
    ensures s.disk.restored == d.restored && d.saved <= s.disk.saved
    ensures |d.log| <= |s.disk.log| && s.disk.log[..|d.log|] == d.log
    decreases |entries|
  {
    if entries == [] then Step(d, Pass)
    else
      var s := SaveEntry(entries[0], w, d);
      if s.outcome.Fail? then s else SaveAll(entries[1..], w, s.disk)
  }

  /** The number of caches whose first key evaluates to an archive that was
      not restored. */
  function ToSave(entries: seq<CacheEntry>, w: World, restored: set<string>): nat
    requires AllWellFormed(entries)
  {
    if entries == [] then 0
    else
      var key := w.evaluate(entries[0].keys[0]);
      (if key.Ok? && ArchiveName(key.value) !in restored then 1 else 0) + ToSave(entries[1..], w, restored)
  }

  /** The archive a cache is saved under when its first key evaluates and
      that archive was not restored. */
  function SavedArchive(e: CacheEntry, w: World, restored: set<string>): Option<string>
    requires e.keys != []
  {
    match w.evaluate(e.keys[0])
    case Ok(key) => if ArchiveName(key) in restored then None else Some(ArchiveName(key))
    case Err(_) => None
  }

  /** The commands saving one cache issues, independently of the others. */
  function EntrySaveCalls(e: CacheEntry, w: World, restored: set<string>): seq<Call>
    requires e.keys != []
  {
    match SavedArchive(e, w, restored)
    case None => []
    case Some(_) =>
      var key := w.evaluate(e.keys[0]).value;
      [Compress(key, QuotePaths(e.paths)), Upload(ArchiveName(key))]
  }

  /** The closed form of a save run: the commands of every cache in
      configuration order, each computed against the same restored set. */
  function SaveCalls(entries: seq<CacheEntry>, w: World, restored: set<string>): seq<Call>
    requires AllWellFormed(entries)
    decreases |entries|
  {
    if entries == [] then []
    else EntrySaveCalls(entries[0], w, restored) + SaveCalls(entries[1..], w, restored)
  }

  /** The archives those commands write. */
  function SavedArchives(entries: seq<CacheEntry>, w: World, restored: set<string>): set<string>
    requires AllWellFormed(entries)
    decreases |entries|
  {
    if entries == [] then {}
    else
      (match SavedArchive(entries[0], w, restored) case None => {} case Some(a) => {a})
        + SavedArchives(entries[1..], w, restored)
  }

  /** An archive is saved exactly when some cache's first key evaluates to
      it and it was not restored. */
  lemma {:induction false} SavedArchivesMembers(entries: seq<CacheEntry>, w: World, restored: set<string>, a: string)
    requires AllWellFormed(entries)
    ensures a in SavedArchives(entries, w, restored) <==>
      exists i :: 0 <= i < |entries| && w.evaluate(entries[i].keys[0]).Ok?
        && a == ArchiveName(w.evaluate(entries[i].keys[0]).value) && a !in restored
    decreases |entries|
  {
    if entries != [] {
      SavedArchivesMembers(entries[1..], w, restored, a);
      assert forall i :: 1 <= i < |entries| ==> entries[i] == entries[1..][i - 1];
      if a in SavedArchives(entries[1..], w, restored) {
        var i :| 0 <= i < |entries[1..]| && w.evaluate(entries[1..][i].keys[0]).Ok?
          && a == ArchiveName(w.evaluate(entries[1..][i].keys[0]).value) && a !in restored;
        assert entries[i + 1] == entries[1..][i];
      }
    }
  }

  lemma SaveCallsCons(entries: seq<CacheEntry>, i: nat, w: World, restored: set<string>)
    requires AllWellFormed(entries) && 0 <= i < |entries|
    ensures SaveCalls(entries[..i + 1], w, restored) == SaveCalls(entries[..i], w, restored) + EntrySaveCalls(entries[i], w, restored)
    ensures SavedArchives(entries[..i + 1], w, restored) ==
      SavedArchives(entries[..i], w, restored) + (match SavedArchive(entries[i], w, restored) case None => {} case Some(a) => {a})
    decreases i
  {
    if i == 0 {
      assert entries[..1][1..] == [];
      assert entries[..0] == [];
    } else {
      assert entries[..i + 1][1..] == entries[1..][..i];
      assert entries[..i][1..] == entries[1..][..i - 1];
      SaveCallsCons(entries[1..], i - 1, w, restored);
    }
  }

  /** Each compress is immediately followed by the upload of its archive, and
      nothing else is issued. */
  predicate Paired(calls: seq<Call>)
    decreases |calls|
  {
    calls == [] ||
    (|calls| >= 2 && calls[0].Compress? && calls[1] == Upload(ArchiveName(calls[0].key)) && Paired(calls[2..]))
  }

  lemma {:induction false} PairedAppend(a: seq<Call>, b: seq<Call>)
    requires Paired(a) && Paired(b)
    ensures Paired(a + b)
    decreases |a|
  {
    if a == [] {
      assert a + b == b;
    } else {
      PairedAppend(a[2..], b);
      assert (a + b)[2..] == a[2..] + b;
    }
  }

  /** Every upload sends an archive that is in the saved directory and was
      not in the restored one. */
  predicate UploadsSaved(calls: seq<Call>, restored: set<string>, saved: set<string>) {
    forall c | c in calls && c.Upload? :: c.archive in saved && c.archive !in restored
  }

  /** What a save may do between two states: append compress/upload pairs
      of archives that were not restored and are now saved, never touch the
      restored directory and never remove a saved archive. */
  predicate SavesOnly(d: Disk, s: Disk) {
    && |d.log| <= |s.log| && s.log[..|d.log|] == d.log
    && s.restored == d.restored
    && d.saved <= s.saved
    && Paired(s.log[|d.log|..])
    && UploadsSaved(s.log[|d.log|..], d.restored, s.saved)
  }

  lemma SavesOnlyChain(d: Disk, m: Disk, s: Disk)
    requires SavesOnly(d, m) && SavesOnly(m, s)
    ensures SavesOnly(d, s)
  {
    var x, y := m.log[|d.log|..], s.log[|m.log|..];
    assert s.log[|d.log|..] == x + y;
    PairedAppend(x, y);
  }

  lemma SavesOnlyNothing(d: Disk)
    ensures SavesOnly(d, d)
  {
    assert d.log[|d.log|..] == [];
  }

  lemma SaveCacheSaves(key: string, paths: string, d: Disk)
    requires ArchiveName(key) !in d.restored
    ensures var s := Disk(d.restored, d.saved + {ArchiveName(key)}, d.log + [Compress(key, paths), Upload(ArchiveName(key))]);
      SavesOnly(d, s) && |s.log| == |d.log| + 2
  {
    var calls := [Compress(key, paths), Upload(ArchiveName(key))];
    var s := Disk(d.restored, d.saved + {ArchiveName(key)}, d.log + calls);
    assert s.log[|d.log|..] == calls;
    assert calls[2..] == [];
  }

  /** One save iteration passes iff the first key evaluates, and its new
      state is the cache's closed-form commands and archive on top of the old
      state. */
  lemma SaveEntrySaves(e: CacheEntry, w: World, d: Disk)
    requires e.keys != []
    ensures var s := SaveEntry(e, w, d);
      && SavesOnly(d, s.disk)
      && (s.outcome.Pass? <==> w.evaluate(e.keys[0]).Ok?)
      && s.outcome == (match w.evaluate(e.keys[0]) case Ok(_) => Pass case Err(err) => Fail(err))
      && s.disk == Disk(d.restored,
                        d.saved + (match SavedArchive(e, w, d.restored) case None => {} case Some(a) => {a}),
                        d.log + EntrySaveCalls(e, w, d.restored))
  {
    match w.evaluate(e.keys[0])
    case Err(_) =>
      SavesOnlyNothing(d);
      assert d.log + [] == d.log && d.saved + {} == d.saved;
    case Ok(key) =>
      if ArchiveName(key) in d.restored {
        SavesOnlyNothing(d);
        assert d.log + [] == d.log && d.saved + {} == d.saved;
      } else {
        SaveCacheSaves(key, QuotePaths(e.paths), d);
      }
  }

  /** The first n caches saved from d in closed form give disk. */
  predicate SavedUpTo(entries: seq<CacheEntry>, w: World, d: Disk, n: nat, disk: Disk)
    requires AllWellFormed(entries) && n <= |entries|
  {
    disk == Disk(d.restored, d.saved + SavedArchives(entries[..n], w, d.restored),
                 d.log + SaveCalls(entries[..n], w, d.restored))
  }

  /** Cache i is the first whose first key fails, with err. */
  predicate FailsFirstAt(entries: seq<CacheEntry>, w: World, i: nat, err: KeyError)
    requires AllWellFormed(entries)
  {
    && i < |entries|
    && (forall k :: 0 <= k < i ==> w.evaluate(entries[k].keys[0]).Ok?)
    && w.evaluate(entries[i].keys[0]) == Err(err)
  }

  /** Saving the first cache and then n more in closed form is saving n + 1
      caches in closed form. */
  lemma SavedUpToCons(entries: seq<CacheEntry>, w: World, d: Disk, m: Disk, n: nat, disk: Disk)
    requires AllWellFormed(entries) && entries != [] && n < |entries|
    requires m == Disk(d.restored,
                       d.saved + (match SavedArchive(entries[0], w, d.restored) case None => {} case Some(a) => {a}),
                       d.log + EntrySaveCalls(entries[0], w, d.restored))
    requires SavedUpTo(entries[1..], w, m, n, disk)
    ensures SavedUpTo(entries, w, d, n + 1, disk)
  {
    var pre := entries[..n + 1];
    assert pre[0] == entries[0] && pre[1..] == entries[1..][..n];
  }

  lemma FailsFirstAtCons(entries: seq<CacheEntry>, w: World, i: nat, err: KeyError)
    requires AllWellFormed(entries) && entries != []
    requires w.evaluate(entries[0].keys[0]).Ok? && FailsFirstAt(entries[1..], w, i, err)
    ensures FailsFirstAt(entries, w, i + 1, err)
  {
    assert forall k :: 1 <= k < i + 1 ==> entries[k] == entries[1..][k - 1];
  }

  /** A save run never touches the restored directory; it issues compress and
      upload pairs, each for an archive that was not restored and is then in
      the saved directory; it raises exactly when some first key cannot be
      evaluated, and otherwise issues two commands per cache to save. */
  lemma {:induction false} SaveAllShape(entries: seq<CacheEntry>, w: World, d: Disk)
    requires AllWellFormed(entries)
    ensures SavesOnly(d, SaveAll(entries, w, d).disk)
    ensures var s := SaveAll(entries, w, d);
      && (s.outcome.Pass? <==> forall i :: 0 <= i < |entries| ==> w.evaluate(entries[i].keys[0]).Ok?)
      && (s.outcome.Pass? ==> |s.disk.log| == |d.log| + 2 * ToSave(entries, w, d.restored))
    decreases |entries|
  {
    if entries == [] {
      SavesOnlyNothing(d);
    } else {
      var first := SaveEntry(entries[0], w, d);
      SaveEntrySaves(entries[0], w, d);
      if first.outcome.Pass? {
        SaveAllShape(entries[1..], w, first.disk);
        SavesOnlyChain(d, first.disk, SaveAll(entries, w, d).disk);
        assert forall i :: 1 <= i < |entries| ==> entries[i] == entries[1..][i - 1];
      }
    }
  }

  /** The state a save run ends in is the closed form SaveCalls /
      SavedArchives of the caches before the first failing key, and the run
      raises that key's error; when no key fails, of all the caches. */
  lemma {:induction false} SaveAllSavesInOrder(entries: seq<CacheEntry>, w: World, d: Disk)
    requires AllWellFormed(entries)
    ensures var s := SaveAll(entries, w, d);
      && (s.outcome.Pass? ==> SavedUpTo(entries, w, d, |entries|, s.disk))
      && (s.outcome.Fail? ==>
            exists i: nat :: FailsFirstAt(entries, w, i, s.outcome.error) && SavedUpTo(entries, w, d, i, s.disk))
    decreases |entries|
  {
    if entries == [] {
      assert entries[..0] == [];
      assert d.log + [] == d.log && d.saved + {} == d.saved;
    } else {
      var first := SaveEntry(entries[0], w, d);
      SaveEntrySaves(entries[0], w, d);
      if first.outcome.Pass? {
        var rest := entries[1..];
        var s := SaveAll(rest, w, first.disk);
        SaveAllSavesInOrder(rest, w, first.disk);
        if s.outcome.Pass? {
          SavedUpToCons(entries, w, d, first.disk, |rest|, s.disk);
        } else {
          var i: nat :| FailsFirstAt(rest, w, i, s.outcome.error) && SavedUpTo(rest, w, first.disk, i, s.disk);
          SavedUpToCons(entries, w, d, first.disk, i, s.disk);
          FailsFirstAtCons(entries, w, i, s.outcome.error);
        }
      } else {
        assert entries[..0] == [];
        assert d.log + [] == d.log && d.saved + {} == d.saved;
        assert FailsFirstAt(entries, w, 0, first.outcome.error);
      }
    }
  }

  /** A save run that passes saves exactly the caches whose first-key archive
      was not restored, in configuration order. */
  lemma SaveAllClosedForm(entries: seq<CacheEntry>, w: World, d: Disk)
    requires AllWellFormed(entries)
    requires forall i :: 0 <= i < |entries| ==> w.evaluate(entries[i].keys[0]).Ok?
    ensures SaveAll(entries, w, d) ==
      Step(Disk(d.restored, d.saved + SavedArchives(entries, w, d.restored), d.log + SaveCalls(entries, w, d.restored)), Pass)
  {
    SaveAllShape(entries, w, d);
    SaveAllSavesInOrder(entries, w, d);
    assert entries[..|entries|] == entries;
  }

  /** A cache whose archive is already in the restored directory is skipped
      without any command. */
  lemma SaveEntrySkipsRestored(e: CacheEntry, w: World, d: Disk, key: string)
    requires e.keys != [] && w.evaluate(e.keys[0]) == Ok(key)
    requires ArchiveName(key) in d.restored
    ensures SaveEntry(e, w, d) == Step(d, Pass)
  {
  }

  /** Only the first key of a cache takes part in saving: caches that agree
      on their first key and their paths save identically. */
  lemma {:induction false} SaveUsesFirstKeyOnly(es: seq<CacheEntry>, fs: seq<CacheEntry>, w: World, d: Disk)
    requires |es| == |fs|
    requires AllWellFormed(es) && AllWellFormed(fs)
    requires forall i :: 0 <= i < |es| ==> es[i].keys[0] == fs[i].keys[0] && es[i].paths == fs[i].paths
    ensures SaveAll(es, w, d) == SaveAll(fs, w, d)
    decreases |es|
  {
    if es != [] {
      assert SaveEntry(es[0], w, d) == SaveEntry(fs[0], w, d);
      var s := SaveEntry(es[0], w, d);
      if s.outcome.Pass? {
        SaveUsesFirstKeyOnly(es[1..], fs[1..], w, s.disk);
      }
    }
  }

  /** With nothing restored and every first key evaluating, each cache is
      compressed and uploaded once: two caches give two saves. */
  lemma {:induction false} SaveEveryCacheWhenNothingRestored(entries: seq<CacheEntry>, w: World, d: Disk)
    requires AllWellFormed(entries)
    requires forall i :: 0 <= i < |entries| ==> w.evaluate(entries[i].keys[0]).Ok?
    requires d.restored == {}
    ensures var s := SaveAll(entries, w, d);
      s.outcome.Pass? && |s.disk.log| == |d.log| + 2 * |entries|
  {
    SaveAllShape(entries, w, d);
    ToSaveNothingRestored(entries, w);
  }

  /** In the run's environment, a cache whose first key is
      `<p>{{ .Branch }}<q>{{ .Revision }}` is saved under the archive named
      after the branch and commit, unless that archive was restored. */
  lemma SaveBranchRevisionKey(e: CacheEntry, prefix: string, env: Env, listing: string -> seq<string>, d: Disk, p: string, q: string)
    requires e.keys != [] && e.keys[0] == p + "{{ .Branch }}" + q + "{{ .Revision }}"
    requires NoOpening(p) && NoOpening(q) && env.branch.Some?
    ensures var key := p + (ReplaceSlashes(env.branch.value) + (q + env.commit.GetOr("")));
      var s := SaveEntry(e, WorldOf(prefix, env, listing), d);
      && s.outcome.Pass?
      && (ArchiveName(key) in d.restored ==> s.disk == d)
      && (ArchiveName(key) !in d.restored ==>
            s.disk == Disk(d.restored, d.saved + {ArchiveName(key)}, d.log + [Compress(key, QuotePaths(e.paths)), Upload(ArchiveName(key))]))
  {
    ExpandBranchRevisionKey(p, q, env);
  }

  lemma {:induction false} ToSaveNothingRestored(entries: seq<CacheEntry>, w: World)
    requires AllWellFormed(entries)
    requires forall i :: 0 <= i < |entries| ==> w.evaluate(entries[i].keys[0]).Ok?
    ensures ToSave(entries, w, {}) == |entries|
    decreases |entries|
  {
    if entries != [] {
      ToSaveNothingRestored(entries[1..], w);
    }
  }

  // ---------------------------------------------------------------------
  // The compress command as written

  /** `mkdir .buildkite_saved_caches && tar … -czf .buildkite_saved_caches/<archive> …`:
      the files of the saved-caches directory afterwards, None while it does
      not exist. mkdir fails when the directory exists, and `&&` then skips
      tar. */
  function CompressAsWritten(dir: Option<set<string>>, archive: string): (r: Option<set<string>>)
    ensures r.Some?
    ensures dir.Some? ==> r == dir
    ensures archive in r.value <==> dir.None? || archive in dir.value
  {
    match dir
    case None => Some({archive})
    case Some(files) => Some(files)
  }

  /** Two caches saved in one run from a clean checkout: the second archive is
      never written, so its upload finds no file. */
  lemma SecondArchiveNeverWritten(first: string, second: string)
    requires first != second
    ensures var dir := CompressAsWritten(CompressAsWritten(None, first), second);
      dir == Some({first}) && second !in dir.value
  {
  }
}
