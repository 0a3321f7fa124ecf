# Buildkite cache command, modelled in Dafny

`cache/cache.rb` is the command a Buildkite pipeline runs before and after a
job, inside an Anka VM, to restore and save build caches kept in S3. The
configuration lists caches. Each cache has an ordered list of key templates
and a list of paths.

- `restore-caches` evaluates each cache's keys in turn. It lists the S3
  objects under `<prefix>/<key>` and downloads the newest object of the first
  key that has any. When the restored directory then holds a file, it
  issues one extraction command in the VM.
- `save-caches` evaluates each cache's first key. It skips the cache when
  `<key>.tar.gz` was restored in this run. Otherwise it compresses the paths
  into that archive and uploads it.
- A key template may contain `{{ .Branch }}`, `{{ .Revision }}` and
  `{{ checksum <file> }}`. Any other placeholder raises.

The project has five modules:

- `Wrappers` (wrappers.dfy): `Option`, `Result` and `Outcome`. `Outcome` is
  the result of a step that raises or passes.
- `KeyTemplate` (key_template.dfy): `evaluate_cache_key`. This covers
  Ruby's `gsub` with the lazy pattern `{{(.+?)}}` as a scan into literal
  characters and holes, `String#strip`, `String#split` and the three
  directives. The CI environment and the checksum command are parameters
  (`Env`).
- `Config` (config.dfy): the loaded YAML value and `validate_config!`, rule
  by rule and in the source's order. It also covers the typed cache entries
  that the commands work on.
- `CachePolicy` (cache_policy.dfy): what restoring and saving do, as
  functions of a `World`. The world holds:
  - the S3 prefix;
  - the evaluation of a key template (`WorldOf` sets it to `Expand` in the
    run's environment);
  - the bucket's listing under a prefix, oldest object first.

  The effect of a run is a `Disk`: the names in
  `.buildkite_restored_caches`, the archives in `.buildkite_saved_caches`,
  and the log of external commands issued (`Call`). The lemmas state what a
  run guarantees.
- `CacheCommand` (cache_command.dfy): the class `BuildkiteCacheCommand`.
  Its fields are the two directories and the command log. Its methods
  (`RestoreCache`, `SaveCache`, the two loops of `run`, and `Run`) update
  them in place. Each method is proved to end in the state, and with the
  outcome, that the corresponding `CachePolicy` function computes.

Details where the model follows the code:

- `{{ .Revision }}` with `BUILDKITE_COMMIT` unset inserts the empty string.
  The block returns nil and `gsub` renders it as "".
- `{{ .Branch }}` with `BUILDKITE_BRANCH` unset raises (`BranchUnset`).
  `nil.gsub` fails there.
- `strip` also removes NUL characters.
- The save loop looks for `<key>.tar.gz` among the file names that
  downloads wrote. Those names are the last path component of each S3
  object, not the key.
- Extraction runs only when the restored directory shows a file that does
  not start with a dot, since that is what `Dir[...]` lists.

## Model

| member | source | states |
|---|---|---|
| KeyTemplate.StripLeft | cache/cache.rb:72 | the result is a suffix of the input; everything removed is whitespace or NUL; the result is empty or starts with a kept character |
| KeyTemplate.StripRight | cache/cache.rb:72 | the result is a prefix of the input; everything removed is whitespace or NUL; the result is empty or ends with a kept character |
| KeyTemplate.Strip | cache/cache.rb:72 | the stripped contents are empty or begin and end with a non-blank character |
| KeyTemplate.StripPadded | cache/cache.rb:72 | whitespace and NUL around directive text are removed and the text is kept exactly |
| KeyTemplate.TokenLength | cache/cache.rb:77 | measures the run of non-space characters that starts the text, up to the first space or the end |
| KeyTemplate.Fields | cache/cache.rb:77 | every field of `split` is non-empty and contains no whitespace |
| KeyTemplate.FieldsEmpty | cache/cache.rb:77 | `split` yields no field exactly when the text is all whitespace |
| KeyTemplate.FieldsFront | cache/cache.rb:77 | the first field of `split` is the first maximal run of non-space characters (only whitespace before it, whitespace or the end after it), and the other fields are those of the text after it; with FieldsEmpty this determines every field, in order |
| KeyTemplate.FirstField | cache/cache.rb:78 | `split.first` of the checksum output contains no whitespace; it is empty (nil rendered as "") exactly when the output is blank; otherwise it is the first maximal non-space run of the output |
| KeyTemplate.ChecksumCommandShape | cache/cache.rb:77-78 | on stripped contents, "first field is checksum and there is a second field" holds iff the text is "checksum", one space, then a non-blank file part (so `contents[9..]` is the file) |
| KeyTemplate.ChecksumCommandNamesFile | cache/cache.rb:77 | the split-based checksum test implies the character-level shape |
| KeyTemplate.NamedFileIsChecksumCommand | cache/cache.rb:77 | the character-level shape implies the split-based checksum test |
| KeyTemplate.ReplaceSlashes | cache/cache.rb:74 | `gsub('/','_')` keeps the length and replaces exactly the slashes with underscores |
| KeyTemplate.ReplaceSlashesWithoutSlash | cache/cache.rb:74 | a branch name without '/' is inserted unchanged |
| KeyTemplate.FindClose | cache/cache.rb:70 | finds the first "}}" at or after a position, and there is none before it |
| KeyTemplate.PlaceholderEnd | cache/cache.rb:70 | the lazy match at the start of the text: it starts with "{{", closes at the first "}}" that leaves a non-empty interior, and that interior has no line feed; when there is no match, every later "}}" has a line feed before it |
| KeyTemplate.Scan | cache/cache.rb:70 | every matched interior is non-empty and has no line feed, as `.+?` requires |
| KeyTemplate.ScanRender | cache/cache.rb:70 | scanning loses nothing: writing the pieces back yields the template |
| KeyTemplate.ScanPiecesAreMatches | cache/cache.rb:70 | left to right, each hole is the match of `{{(.+?)}}` that starts right after the text before it, and each literal character sits where no match starts |
| KeyTemplate.Concat | cache/cache.rb:70-86 | values are joined in order, and the first raise ends the evaluation |
| KeyTemplate.SubstituteOutcome | cache/cache.rb:70-86 | the block values join without error iff every piece has a value; otherwise the error is that of the first piece that raises |
| KeyTemplate.SubstituteHoles | cache/cache.rb:70-86 | literal characters never fail: the join succeeds iff every hole resolves, and an error is that of the first failing piece, which is a hole |
| KeyTemplate.Expand | cache/cache.rb:68-87 | evaluate_cache_key succeeds iff every placeholder it matches resolves; otherwise it raises the error of the first placeholder that fails |
| KeyTemplate.Parse | cache/cache.rb:72-84 | a placeholder is a checksum directive exactly when its stripped contents are neither `.Branch` nor `.Revision` and split into "checksum" and at least one more field; anything else that is not a directive keeps the stripped contents for the error message |
| KeyTemplate.ResolveOutcome | cache/cache.rb:72-85 | a placeholder raises exactly for an unset branch, a failing checksum or an unknown command; a branch value has no '/' and the length of the branch; a revision is the commit or ""; a checksum value has no whitespace |
| KeyTemplate.ExpandWithoutPlaceholders | cache/cache.rb:70 | a key with no placeholder evaluates to itself |
| KeyTemplate.ExpandLiteralPrefix | cache/cache.rb:70 | literal text in front of a key is copied verbatim before the rest is evaluated |
| KeyTemplate.ExpandPlaceholderPrefix | cache/cache.rb:70-86 | a leading placeholder is replaced by its directive's value, or its error is raised before the rest is evaluated |
| KeyTemplate.ExpandTwoPlaceholders | cache/cache.rb:70-86 | two placeholders are resolved independently and concatenated in order with the text around them |
| KeyTemplate.ResolveBranch | cache/cache.rb:73-74 | `.Branch`, padded with any whitespace, gives the branch with '/' replaced by '_'; an unset branch raises |
| KeyTemplate.ResolveRevision | cache/cache.rb:75-76 | `.Revision` gives the commit verbatim, or "" when it is unset |
| KeyTemplate.ResolveChecksum | cache/cache.rb:77-82 | `checksum <file>` gives the first field of the checksum output for that file, or raises "Checksum failed" when the command fails |
| KeyTemplate.ChecksumDirective | cache/cache.rb:77-78 | "checksum", a space and a file name pass the checksum test, and `[9..]` is exactly the file name |
| KeyTemplate.ResolveBareChecksum | cache/cache.rb:84 | `checksum` without a file raises the unknown-command error |
| KeyTemplate.ResolveUnknown | cache/cache.rb:83-84 | any other directive raises the unknown-command error naming the stripped contents |
| KeyTemplate.ExpandBranchRevisionKey | cache/cache.rb:68-87 | `<p>{{ .Branch }}<q>{{ .Revision }}` evaluates to p, the branch, q and the commit, in that order |
| KeyTemplate.ExpandPaddedBranchRevision | cache/cache.rb:68-87 | the branch-and-revision key evaluates the same way whatever blanks (other than line feeds) pad the two directives |
| KeyTemplate.ExpandChecksumKey | cache/cache.rb:77-82 | `<p>{{ checksum <file> }}` evaluates to p followed by the checksum's first field, and fails as a whole when the checksum fails |
| Config.Occurs | cache/cache.rb:130 | `String#include?` holds iff the word occurs at some position |
| Config.TwoKeysOnly | cache/cache.rb:142-143 | a hash that has "keys" and "paths" and length 2 has no other key |
| Config.CheckEntry | cache/cache.rb:129-145 | an entry passes iff it is a hash with exactly the keys "keys" and "paths", each a non-empty array; a missing key reports the source's message; a non-hash never passes |
| Config.ValidateConfig | cache/cache.rb:124-146 | accepts exactly the valid configurations; a non-array raises the first message; otherwise it reports the error of the first entry that breaks a rule, after entries that all passed |
| Config.Strings | cache/cache.rb:136-139 | string lists are read off exactly when every item is a string, element by element |
| Config.EntryOf | cache/cache.rb:136-139 | a validated entry is read off exactly when all its keys and paths are strings; it then gives non-empty keys and paths, element by element equal to the YAML strings |
| Config.Entries | cache/cache.rb:129-145 | a validated configuration is read off exactly when every entry's keys and paths are strings; it then gives one well-formed entry per configured cache, in order |
| CachePolicy.SelectCache | cache/cache.rb:150-155 | never lists more keys than configured |
| CachePolicy.SelectCacheAfterMisses | cache/cache.rb:150-155 | after keys that evaluated and listed nothing, the selection is that of the remaining keys, with those keys listed first |
| CachePolicy.SelectCacheHit | cache/cache.rb:150-154 | the first key whose listing is non-empty selects the newest object under it, after listing every earlier key |
| CachePolicy.SelectCacheFails | cache/cache.rb:151 | a key that fails to evaluate raises its error after the earlier keys were listed |
| CachePolicy.SelectCacheExhausted | cache/cache.rb:157-160 | when every key lists nothing, nothing is selected |
| CachePolicy.SelectCacheSpec | cache/cache.rb:148-160 | full characterisation: keys are tried in order; the selected object is the newest one under the first key with a non-empty listing; no selection means every key was listed and missed; an error comes from the first key that could not be evaluated |
| CachePolicy.SelectCacheStopsEarly | cache/cache.rb:154 | keys after the deciding one are never evaluated or listed: replacing them changes nothing |
| CachePolicy.ListCallsShape | cache/cache.rb:152 | one listing per evaluated key, in order, under `<prefix>/<key>`, and nothing else |
| CachePolicy.BasenameIsSuffix | cache/cache.rb:109 | the file that `aws s3 cp` writes is a suffix of the object name without '/' |
| CachePolicy.BasenameFollowsLastSlash | cache/cache.rb:109 | that suffix is the whole name or follows a '/', so it is the last component |
| CachePolicy.Basename | cache/cache.rb:109 | the file `aws s3 cp` writes into the directory has no '/' and is no longer than the object name |
| CachePolicy.RestoreEntry | cache/cache.rb:148-163 | restore_cache only appends to the log, never touches the saved directory, never removes a restored file; it raises exactly when the key walk raises, and then adds no file |
| CachePolicy.RestoreAll | cache/cache.rb:52-54 | the restore loop only appends to the log, leaves the saved directory alone and only adds restored files |
| CachePolicy.RestoreAllPasses | cache/cache.rb:52-54 | the restore loop raises exactly when evaluating some cache's keys raises |
| CachePolicy.RestoreRun | cache/cache.rb:51-55 | the restore-caches command only appends to the log, leaves the saved directory alone, only adds restored files and raises exactly as its loop does |
| CachePolicy.RestoreEntryFirstKeyHits | cache/cache.rb:150-162 | when the first key hits, restore_cache issues exactly one listing and one download |
| CachePolicy.RestoreEachCache | cache/cache.rb:52-54 | when every cache's first key hits, a restore run passes with one listing and one download per cache |
| CachePolicy.ListCallsDownloadNothing | cache/cache.rb:152 | listing keys downloads nothing |
| CachePolicy.RestoreEntryFetches | cache/cache.rb:148-163 | restore_cache appends only listings and at most one download; it adds exactly the downloaded file's name to the restored directory and does not touch the saved one |
| CachePolicy.RestoreAllShape | cache/cache.rb:52-54 | the restore loop only lists and downloads, at most one object per cache; the restored directory gains exactly the names of the downloaded objects, and nothing is saved |
| CachePolicy.RestoreRunExtractsOnce | cache/cache.rb:55 | extraction is issued at most once and last, exactly when every cache restored without error and the restored directory shows a file |
| CachePolicy.QuotePathsAreWords | cache/cache.rb:166 | the paths argument is every configured path as its own single-quoted word, in order, separated by single spaces |
| CachePolicy.QuoteTwoPaths | cache/cache.rb:166 | two paths a, b give `'a' 'b'` |
| CachePolicy.QuotePaths | cache/cache.rb:166 | the paths argument opens and closes with a single quote |
| CachePolicy.SaveCacheStep | cache/cache.rb:165-169 | save_cache raises iff the first key fails, and then changes nothing; otherwise it appends exactly a compress and the upload of the same archive, which is then in the saved directory; the restored directory is untouched |
| CachePolicy.SaveEntry | cache/cache.rb:57-63 | one save iteration raises iff the first key fails; a cache whose archive was restored changes nothing; otherwise its archive ends up saved; the restored directory is untouched |
| CachePolicy.SaveAll | cache/cache.rb:56-64 | a save run only appends to the log, never removes a saved archive and never touches the restored directory |
| CachePolicy.SaveCacheSaves | cache/cache.rb:165-169 | saving an archive that was not restored issues one compress and the upload of that archive, and adds it to the saved directory |
| CachePolicy.SaveEntrySaves | cache/cache.rb:57-63 | one save iteration raises the first key's error iff it fails; its new state is exactly the old one plus that cache's closed-form commands (EntrySaveCalls) and archive (SavedArchive), and it only adds compress/upload pairs of unrestored archives |
| CachePolicy.SaveAllShape | cache/cache.rb:56-64 | a save run never touches the restored directory; each compress is followed by the upload of its archive, which is then in the saved directory and was not restored; the run raises iff some first key fails; otherwise it issues two commands per cache to save |
| CachePolicy.SaveAllSavesInOrder | cache/cache.rb:56-64 | a save run ends in the closed form of the caches it got through, in configuration order: all of them when it passes; when it raises, the ones before the first cache whose first key fails, and that key's error |
| CachePolicy.SaveAllClosedForm | cache/cache.rb:56-64 | when every first key evaluates, the log gains exactly `SaveCalls` (a compress and an upload for each cache whose archive was not restored, in configuration order) and the saved directory gains exactly `SavedArchives` |
| CachePolicy.SavedArchivesMembers | cache/cache.rb:57-63 | an archive is saved exactly when some cache's first key evaluates to it and it was not restored |
| CachePolicy.SaveEntrySkipsRestored | cache/cache.rb:59-62 | a cache whose archive was restored is skipped without any command |
| CachePolicy.SaveUsesFirstKeyOnly | cache/cache.rb:58 | only the first key of each cache takes part in saving |
| CachePolicy.SaveEveryCacheWhenNothingRestored | cache/cache.rb:57-64 | with nothing restored and every first key evaluating, each cache is compressed and uploaded once |
| CachePolicy.ToSaveNothingRestored | cache/cache.rb:59 | with nothing restored, every cache whose key evaluates counts as to be saved |
| CachePolicy.SaveBranchRevisionKey | cache/cache.rb:58 | in the run's environment (`WorldOf`, where every key is evaluated by evaluate_cache_key), a `<p>{{ .Branch }}<q>{{ .Revision }}` cache is saved under the archive named after that branch and commit, unless it was restored |
| CachePolicy.CompressAsWritten | cache/cache.rb:119 | `mkdir … && tar …`: the archive is written only when the saved directory did not exist yet |
| CachePolicy.SecondArchiveNeverWritten | cache/cache.rb:119 | in one run, the second cache's archive is never written |
| CacheCommand.BuildkiteCacheCommand.constructor | cache/cache.rb:174 | a fresh command has the given directories and has issued no command |
| CacheCommand.BuildkiteCacheCommand.RestoreCache | cache/cache.rb:148-163 | the loop over the keys leaves the directories and command log that RestoreEntry computes, and raises the same error |
| CacheCommand.BuildkiteCacheCommand.SaveCache | cache/cache.rb:165-169 | quoting, evaluation, compress and upload leave the state that SaveCacheStep computes |
| CacheCommand.BuildkiteCacheCommand.RestoreAllCaches | cache/cache.rb:51-55 | restoring each cache in turn, then extracting when a file is visible, ends in the state of RestoreRun |
| CacheCommand.BuildkiteCacheCommand.SaveAllCaches | cache/cache.rb:56-64 | the save loop, with its skip of restored archives, ends in the state of SaveAll |
| CacheCommand.BuildkiteCacheCommand.Run | cache/cache.rb:50-66 | `run` dispatches on the command and ends in the state of the chosen branch |

## Left out

- Option parsing (`opt_parse!`), reading the YAML file and the `__FILE__ == $0` entry point are not modelled. The model starts from the loaded configuration value and the chosen command.
- The shell commands are not run. Each is recorded as a `Call`. Their exact command lines (bucket name, `--query` expression, anka command prefix) are not modelled.
- `puts` messages are left out.
- `Env` replaces the environment variables and the checksum command. The checksum is an oracle from the file argument to the command's output, or a failure. SHA-1 itself is not modelled.
- A listing that fails, or prints JSON null, is modelled as an empty listing. The `|| echo []` fallback makes a failing command behave like an empty one.
- A download or upload that fails is not modelled: the source ignores their exit status.
- Extract: modelled as one command. When the glob `.buildkite_restored_caches/*.tar.gz` matches several archives, tar reads only the first and takes the other names as members to extract from it; which files then reach the VM is not modelled.
- Config.Entries: caches whose keys or paths contain non-string YAML values are not given to the commands (the result is None). In the source, a key that is not a string raises in `gsub`, and `join` writes a path that is not a string as text.
- Config.CheckEntry: a hash whose keys are not all strings is not modelled. The YAML mapping is a map from strings.
- CachePolicy.QuotePaths: a path containing a single quote breaks the quoting in the source; the model keeps such a path as text and does not model how the shell splits it.
- CachePolicy.Basename: an object name ending in '/' gives an empty file name; what `aws s3 cp` does with such an object is not modelled.
- CachePolicy.SaveCacheStep: the saved directory is created when missing, as `mkdir -p` would do, instead of failing from the second cache on (see Findings).

## Findings

| source | as written | input that shows it | evidently intended | confidence | as-written member | corrected member |
|---|---|---|---|---|---|---|
| cache/cache.rb:119 | `mkdir .buildkite_saved_caches && tar … -czf .buildkite_saved_caches/<key>.tar.gz …`: mkdir fails once the directory exists, and `&&` then skips tar | a `save-caches` run from a clean checkout with two caches whose archives were not restored: the second archive is never written, and its upload finds no file | create the directory if missing (`mkdir -p`) and write every archive | not executed | CachePolicy.SecondArchiveNeverWritten | CachePolicy.SaveAllClosedForm |
