# rapidshare-ext folder engine, modelled in Dafny

This project models the client-side folder engine of the Ruby gem
rapidshare-ext, along with three pure helpers of its base library.

The Rapidshare server keeps "real folders" as `id,parent,name` triples.
The client caches them in `@tree`, a Ruby Hash from folder id to
`{parent, name, path}`. It then answers path and id questions from that
cache, and keeps the cache in step as it sends folder commands
(`listrealfolders`, `addrealfolder`, `delrealfolder`, `moverealfolder`)
to the server.

The modules follow the source:

- `Paths`: `path_trim` and `path_canonize`. It also holds the String
  operations the engine relies on: `split('/')` with Ruby's rule for
  dropping trailing empty fields, `join('/')`, and the literal `gsub`
  that `slice_tree` uses.
- `Utils`: `decode_file_status`, `fileid_and_filename` and
  `text_to_hash`.
- `Hierarchy`: the cache as a value. Ruby hashes keep insertion order,
  and `folder_id` exposes that order because it returns the first match.
  A `Tree` is therefore the key order plus the map. Around it sit the
  read-only queries: `folder_path`, `folder_id`, `root_folder?`, `gap?`,
  `orphan?`, `detect_gaps`, `slice_tree`, and the validation scan of
  `folders_hierarchy`.
- `Orphans`: what "orphan" means, and the tree `remove_orphans!` leaves.
- `Loading`: the loading branch of `folders_hierarchy`. It builds the
  hash from the listing, optionally prunes orphans, stores every path,
  then validates. This module also covers the aliasing of the cache by
  `slice_tree`'s shallow `dup`.
- `Adding`: the `add_folder` loop as a function of its variables.
- `Editing`: what `remove_folder` and `move_folder` leave in the cache,
  both as written and as evidently intended. The class `Api` uses the
  intended versions (see Findings and Left out).
- `Backend`: the folder commands. The server is not modelled. Commands
  go into a ghost log, and whatever the server answers (the listing, the
  ids of new folders) is a parameter.
- `Store`: the class `Api`, holding `@tree` (fields `loaded`, `order`,
  `recs`) and the command log. Each public operation is a method that
  changes those fields in place. Each method is proved against the
  function that states what it leaves.

Some behaviours of the source that the model reproduces:

- An empty Hash is truthy in Ruby. A forced load, or a first load, with
  a non-empty `from` first sets `@tree = {}`. Its own `folder_id(from)`
  then finds nothing in that empty cache, so it raises "Folder ... could
  not be found" and leaves the cache empty (`Store.Api.FoldersHierarchy`).
- `slice_tree` copies the hash shallowly and then rewrites the path of
  each kept record in place. So `folders_hierarchy(from: f)` on a loaded
  cache also rewrites the cached paths below `f` (`Loading.Aliased`,
  `Editing.AfterSlice`).
- `gap?` holds for every root folder, because 0 is never a key. So
  `detect_gaps`, and with it `move_orphans`, includes the roots.
- `remove_orphans!` deletes inside `delete_if` while it walks the hash.
  Because `orphan?` is asked on the partly pruned hash, that pass is
  proved to delete exactly the orphans of the original hash, in hash
  order (`Loading.PruneRemovesOrphans`).
- `folder_path` and `orphan?` recurse up the parent chain without bound.
  The model gives them one step per cached record and answers `None`
  when that runs out. A pigeonhole argument proves that this happens
  exactly when the walk up the parents comes back to a folder it passed,
  and that no larger budget would answer (`Hierarchy.FolderPathCycle`,
  `Hierarchy.FolderPathEnough`, `Hierarchy.OrphanCycle`,
  `Hierarchy.OrphanEnough`).

## Model

| member | source | states |
|---|---|---|
| Paths.PathTrim | lib/rapidshare-ext/api.rb:523-525 | the result neither starts nor ends with '/' |
| Paths.PathTrimPadded | lib/rapidshare-ext/api.rb:523-525 | the input is the result with runs of '/' only added at both ends |
| Paths.PathTrimUnique | lib/rapidshare-ext/api.rb:523-525 | trimming a slash-padded trimmed string gives that string back: the result is the unique such core |
| Paths.PathTrimIdempotent | lib/rapidshare-ext/api.rb:523-525 | trimming twice is trimming once |
| Paths.PathCanonize | lib/rapidshare-ext/api.rb:527-529 | the result is canonical (one leading '/', no trailing '/' unless it is "/") and is "/" + path_trim of the input |
| Paths.CanonizeCanonical | lib/rapidshare-ext/api.rb:527-529 | canonizing a canonical path leaves it unchanged |
| Paths.TrimOfCanonize | lib/rapidshare-ext/api.rb:523-529 | path_trim(path_canonize(p)) == path_trim(p) |
| Paths.PathTrimAsWrittenNotIdempotent | lib/rapidshare-ext/api.rb:524 | with `\Z`, trimming "a/\n/" gives "a/\n", and trimming that again gives "a\n" |
| Paths.SplitAll | lib/rapidshare-ext/api.rb:21-22 | every field is free of the separator, and there is at least one field |
| Paths.Split | lib/rapidshare-ext/api.rb:21-22 | String#split: fields hold no separator, and trailing empty fields are dropped |
| Paths.JoinSplitAll | lib/rapidshare-ext/api.rb:21-22 | joining all the fields of a split gives the string back |
| Paths.SplitAllJoin | lib/rapidshare-ext/api.rb:21-22 | splitting a join of separator-free fields gives the fields back |
| Paths.SplitTrailingSeparator | lib/rapidshare-ext/api.rb:21 | a trailing separator does not change String#split |
| Paths.DeleteAllAbsent | lib/rapidshare-ext/api.rb:346 | gsub of a pattern that does not occur leaves the string unchanged |
| Utils.DecodeFileStatus | lib/rapidshare-base/utils.rb:20-31 | the status is ok exactly for code 1; every other code is an error |
| Utils.FileIdAndFilename | lib/rapidshare-base/utils.rb:38-40 | always two fields; non-empty ones only when the URL splits into at least two fields |
| Utils.FileIdAndFilenameTail | lib/rapidshare-base/utils.rb:38-40 | a URL ending in /id/name gives [id, name] |
| Utils.FileIdAndFilenameFields | lib/rapidshare-base/utils.rb:38-40 | any join of two or more '/'-free fields, the last non-empty ("id/name" included), gives its last two fields |
| Utils.FileIdAndFilenameExample | lib/rapidshare-base/utils.rb:33-40 | the documented example URL gives ["829628035", "HornyRhinos.jpg"] |
| Utils.FileIdAndFilenameTrailingSlash | lib/rapidshare-base/utils.rb:38-40 | a trailing '/' on the URL changes nothing |
| Utils.FileIdAndFilenameFallback | lib/rapidshare-base/utils.rb:38-40 | a URL with no '/' gives ["", ""] |
| Utils.Strip | lib/rapidshare-base/utils.rb:48 | the result neither starts nor ends with whitespace |
| Utils.StripLeft | lib/rapidshare-base/utils.rb:48 | the result is a suffix of the input, and only whitespace was dropped |
| Utils.StripRight | lib/rapidshare-base/utils.rb:48 | the result is a prefix of the input, and only whitespace was dropped |
| Utils.Lines | lib/rapidshare-base/utils.rb:48 | splitting on `\s*\n\s*` yields no empty line |
| Utils.LinesOfJoin | lib/rapidshare-base/utils.rb:48 | lines that are non-empty, newline-free and unpadded, joined with "\n", split back into exactly those lines, in order |
| Utils.TextToHash | lib/rapidshare-base/utils.rb:47-49 | no key of the resulting hash contains "=" |
| Utils.TextToHashOfLines | lib/rapidshare-base/utils.rb:47-49 | for such lines joined with "\n", the text parses exactly when every line has one or two "="-fields, and the hash is Hash[] of the lines' pairs |
| Utils.ParseLine | lib/rapidshare-base/utils.rb:48 | a line is accepted exactly when it splits on '=' into one or two fields; the key holds no '=' |
| Utils.ParseLines | lib/rapidshare-base/utils.rb:48 | every line parses exactly when the whole text parses; one pair per line |
| Utils.ToMapKeys | lib/rapidshare-base/utils.rb:48 | the keys of Hash[pairs] are exactly the keys of the pairs |
| Utils.ToMapLast | lib/rapidshare-base/utils.rb:48 | each key maps to the value of its last pair |
| Utils.TextToHashBlank | lib/rapidshare-base/utils.rb:47-49 | blank text gives the empty hash |
| Utils.TextToHashLaterWins | lib/rapidshare-base/utils.rb:47-49 | when a key repeats, the later line's value wins |
| Utils.TextToHashTwoLines | lib/rapidshare-base/utils.rb:47-49 | "k1=v1\nk2=v2" gives {k1: v1, k2: v2} for plain fields |
| Utils.TextToHashExample | lib/rapidshare-base/utils.rb:42-49 | the documented example text gives {key1: value1, key2: value2} |
| Hierarchy.Put | lib/rapidshare-ext/api.rb:38-42 | hash[k] = r: the map is updated, a new key goes last, and an existing key keeps its place |
| Hierarchy.Without | lib/rapidshare-ext/api.rb:71 | removes exactly k from the key order and keeps it free of repeats |
| Hierarchy.Delete | lib/rapidshare-ext/api.rb:80 | hash.delete(k): the key leaves both the map and the order |
| Hierarchy.FromRows | lib/rapidshare-ext/api.rb:288-293 | Hash[intermediate] is a well-formed ordered hash; a path not yet stored is "" |
| Hierarchy.FromRowsKeys | lib/rapidshare-ext/api.rb:288-293 | its keys are exactly the ids of the listing's rows |
| Hierarchy.FromRowsLast | lib/rapidshare-ext/api.rb:288-293 | each id carries the parent and name of its last row |
| Hierarchy.Build | lib/rapidshare-ext/api.rb:285-294 | "NONE" gives the empty hash; otherwise the rows' hash |
| Hierarchy.FolderPathN | lib/rapidshare-ext/api.rb:439-447 | every computed path starts with '/' |
| Hierarchy.FolderPathFuel | lib/rapidshare-ext/api.rb:439-447 | a larger recursion budget never changes a computed path |
| Hierarchy.FolderPathShape | lib/rapidshare-ext/api.rb:439-447 | the path depends only on parents and names, never on cached paths |
| Hierarchy.FolderPathRoot | lib/rapidshare-ext/api.rb:442-446 | (proof step: one unfolding) a root's path is "/" + name; an uncached id reads as "/<undefined>" |
| Hierarchy.FolderPathChild | lib/rapidshare-ext/api.rb:444-446 | (proof step: one unfolding) below a root, a path is the parent's path + "/" + name |
| Hierarchy.FindIndex | lib/rapidshare-ext/api.rb:457-459 | a found index is in range and its trimmed path matches |
| Hierarchy.FindIndexFirst | lib/rapidshare-ext/api.rb:457-459 | find_index returns the first match, and none only when nothing matches |
| Hierarchy.FolderId | lib/rapidshare-ext/api.rb:452-461 | the root path gives 0; a found id is a cached key whose trimmed path matches |
| Hierarchy.FolderIdFirst | lib/rapidshare-ext/api.rb:452-461 | nil exactly when no key matches; otherwise the first match in hash order |
| Hierarchy.OrphanN | lib/rapidshare-ext/api.rb:427-434 | false for a missing id or a root; true for a non-root gap |
| Hierarchy.OrphanFuel | lib/rapidshare-ext/api.rb:427-434 | a larger recursion budget never changes an answer |
| Hierarchy.FolderPathWalk | lib/rapidshare-ext/api.rb:439-447 | a budget of n calls gives a path exactly when the parent walk reaches a root (or an uncached id) within n steps |
| Hierarchy.WalkRepeats | lib/rapidshare-ext/api.rb:439-447 | pigeonhole: a walk of one step more than there are cached records, all of them cached, visits some folder twice |
| Hierarchy.FolderPathCycle | lib/rapidshare-ext/api.rb:439-447 | folder_path answers None exactly when the parent walk comes back to a folder before reaching a root, the case where the source recurses forever |
| Hierarchy.FolderPathEnough | lib/rapidshare-ext/api.rb:439-447 | whenever any budget computes a path, one call per cached record computes it too |
| Hierarchy.OrphanWalk | lib/rapidshare-ext/api.rb:427-434 | a budget of n calls answers orphan? exactly when the walk reaches a missing id, a root or a gap within n steps |
| Hierarchy.OrphanCycle | lib/rapidshare-ext/api.rb:427-434 | orphan? answers None exactly when the parent walk comes back to a folder before reaching a root or a gap |
| Hierarchy.OrphanEnough | lib/rapidshare-ext/api.rb:427-434 | whenever any budget answers orphan?, one call per cached record answers it too |
| Hierarchy.OrphanAnswer | lib/rapidshare-ext/api.rb:420-434 | every answer of orphan? agrees with "some walk up the parents ends in a gap" |
| Hierarchy.OrphanStep | lib/rapidshare-ext/api.rb:431-433 | (proof step: one unfolding) off roots and gaps, orphan? of a folder is orphan? of its parent |
| Hierarchy.RootsAreGaps | lib/rapidshare-ext/api.rb:414-418 | every root folder is a gap, since 0 is never a key |
| Hierarchy.GapIsOrphan | lib/rapidshare-ext/api.rb:427-434 | a non-root gap is an orphan |
| Hierarchy.ClosedHasNoOrphans | lib/rapidshare-ext/api.rb:427-434 | when every non-zero parent is cached, nothing is an orphan |
| Hierarchy.GapsAmong | lib/rapidshare-ext/api.rb:390-392 | keep_if gap?: exactly the gaps among the keys, without repeats |
| Hierarchy.DetectGaps | lib/rapidshare-ext/api.rb:388-393 | exactly the cached keys whose parent is not cached, roots included, without repeats |
| Hierarchy.FirstBroken | lib/rapidshare-ext/api.rb:305-311 | the first key in order with a non-zero, uncached parent; none only when there is no such key |
| Hierarchy.ValidationPassesIffClosed | lib/rapidshare-ext/api.rb:303-312 | validation passes exactly when every non-zero parent is cached |
| Hierarchy.BelowAmong | lib/rapidshare-ext/api.rb:340-342 | keep_if: exactly the keys whose trimmed path starts with "from/", without repeats |
| Hierarchy.BelowAmongConcat | lib/rapidshare-ext/api.rb:340-342 | keep_if keeps the hash order: the kept keys of a concatenation are the kept keys of each part, in turn |
| Hierarchy.SliceTree | lib/rapidshare-ext/api.rb:333-351 | an empty from gives the tree itself; otherwise exactly the records below from, with parents and names kept and paths made relative |
| Hierarchy.SliceExcludesFrom | lib/rapidshare-ext/api.rb:340-342 | the from folder itself is not part of its slice |
| Hierarchy.RelativePathOfChild | lib/rapidshare-ext/api.rb:344-347 | below from, "/from/rest" becomes "/rest" when "from/" occurs nowhere in rest |
| Hierarchy.IdThenPath | lib/rapidshare-ext/api.rb:439-461 | folder_path(folder_id(p)) is the canonical form of p when cached paths agree with the parent chains |
| Hierarchy.PathThenId | lib/rapidshare-ext/api.rb:439-461 | folder_id(folder_path(k)) resolves to a folder with the same path |
| Hierarchy.RootPathIsPlaceholder | lib/rapidshare-ext/api.rb:442-454 | folder_id("/") is 0, and folder_path(0) is "/<undefined>" |
| Orphans.OrphanedStep | lib/rapidshare-ext/api.rb:427-434 | off roots and gaps, a folder is an orphan exactly when its parent is |
| Orphans.RootNotOrphaned | lib/rapidshare-ext/api.rb:431 | a root is never an orphan |
| Orphans.LiveAgrees | lib/rapidshare-ext/api.rb:359-364 | orphan? asked on the partly pruned hash answers as on the original |
| Orphans.Survivors | lib/rapidshare-ext/api.rb:359-364 | exactly the keys that are not orphans, in order |
| Orphans.OrphansAmong | lib/rapidshare-ext/api.rb:359-364 | exactly the keys that are orphans, in order |
| Orphans.Pruned | lib/rapidshare-ext/api.rb:356-366 | exactly the non-orphans remain, with records untouched |
| Orphans.PrunedIsClosed | lib/rapidshare-ext/api.rb:356-366 | after pruning every non-zero parent is cached |
| Orphans.PrunedHasNoOrphans | lib/rapidshare-ext/api.rb:356-366 | after pruning orphan? is never true |
| Loading.SetPath | lib/rapidshare-ext/api.rb:300 | only the one record's path changes |
| Loading.ComputePaths | lib/rapidshare-ext/api.rb:299-301 | storing paths keeps keys, order, parents and names |
| Loading.ComputePathsAgree | lib/rapidshare-ext/api.rb:299-301 | it fails exactly when some folder's parent walk cycles (PathCycles), naming such a folder; otherwise every cached path is folder_path of its key |
| Loading.PruneFrom | lib/rapidshare-ext/api.rb:358-364 | the pass keeps the hash well formed and only adds deletions |
| Loading.PruneFromPruned | lib/rapidshare-ext/api.rb:358-364 | from any prefix of the walk, the pass finishes with the orphans deleted |
| Loading.PruneRemovesOrphans | lib/rapidshare-ext/api.rb:356-366 | the pass leaves exactly the pruned tree and deletes the orphans in hash order |
| Loading.PruneKeepsClosed | lib/rapidshare-ext/api.rb:356-366 | a tree with no broken parent is left unchanged, and nothing is deleted |
| Loading.ValidationError | lib/rapidshare-ext/api.rb:303-312 | nothing is raised exactly when no record is broken; otherwise the first broken record and its missing parent are reported |
| Loading.Load | lib/rapidshare-ext/api.rb:278-312 | a load issues listrealfolders first and leaves a well-formed hash |
| Loading.StorePaths | lib/rapidshare-ext/api.rb:299-312 | storing and validating keeps the shape and the commands |
| Loading.LoadSound | lib/rapidshare-ext/api.rb:278-312 | a successful load stores folder_path for every key; with validation it is closed; a consistent load is the pruned hash and deletes its orphans |
| Loading.StorePathsSound | lib/rapidshare-ext/api.rb:299-312 | stored paths agree with the chains; a closed hash fails only with CyclicChain, on a folder whose parent walk cycles |
| Loading.ConsistentLoadPassesValidation | lib/rapidshare-ext/api.rb:296-312 | with consistent: true, validation never raises |
| Loading.LoadNone | lib/rapidshare-ext/api.rb:283-287 | (proof step: one evaluation) the listing "NONE" loads the empty hash, after one listrealfolders and with nothing raised |
| Loading.Aliased | lib/rapidshare-ext/api.rb:336-347 | records outside the slice keep their cached record; keys, parents and names are unchanged |
| Loading.SliceSharesRecords | lib/rapidshare-ext/api.rb:336-347 | every record of the slice is the cache's record after the rewrite |
| Adding.NewRecord | lib/rapidshare-ext/api.rb:38-42 | a created folder's record has its parent, its name and a canonical path |
| Adding.Created | lib/rapidshare-ext/api.rb:36-43 | a create consumes one server answer and issues one addrealfolder |
| Adding.AddFrom | lib/rapidshare-ext/api.rb:21-48 | the loop keeps the hash well formed and issues one command per answer consumed |
| Adding.AddFromFound | lib/rapidshare-ext/api.rb:23-26 | (proof step: one unfolding) a prefix that resolves becomes the parent, and nothing is created |
| Adding.AddFromCreated | lib/rapidshare-ext/api.rb:27-46 | (proof step: one unfolding) a missing prefix is created under the current parent |
| Adding.AddFromEnd | lib/rapidshare-ext/api.rb:21 | (proof step: one unfolding) past the last segment the loop stops |
| Adding.FolderIdExtend | lib/rapidshare-ext/api.rb:23 | appending records never changes a path that already resolves |
| Adding.FolderIdAppend | lib/rapidshare-ext/api.rb:23-41 | a created record is what folder_id finds next for its path |
| Adding.FolderPathFresh | lib/rapidshare-ext/api.rb:38-42 | a new key leaves the paths of the cached folders unchanged |
| Adding.NewRecordPath | lib/rapidshare-ext/api.rb:41 | the cached path of a new folder is "/" + the prefix of segments walked so far |
| Adding.CreatedPathAgrees | lib/rapidshare-ext/api.rb:38-42 | the cached path of a new folder is its folder_path |
| Adding.CreateKeepsAgree | lib/rapidshare-ext/api.rb:38-42 | a create keeps every parent cached and every path in agreement |
| Adding.CreateGrows | lib/rapidshare-ext/api.rb:36-43 | a create adds exactly the next fresh id |
| Adding.AddFromInv | lib/rapidshare-ext/api.rb:21-48 | with fresh server ids no create fails, and every prefix ends up resolved |
| Adding.AddFromStart | lib/rapidshare-ext/api.rb:17-48 | from the start, the loop ends with every prefix resolved |
| Adding.JoinSegments | lib/rapidshare-ext/api.rb:15-22 | the segments joined again give the trimmed path |
| Adding.AddResolves | lib/rapidshare-ext/api.rb:14-50 | for a path without empty segments, afterwards the path resolves to the returned id; the cache only grows, and stays consistent when it was |
| Adding.AddFromExisting | lib/rapidshare-ext/api.rb:21-48 | when every prefix resolves, nothing is created and the last prefix's id is returned |
| Adding.AddTwice | lib/rapidshare-ext/api.rb:14-50 | for a path without empty segments, adding the same path again creates nothing and returns the same id |
| Adding.AddRoot | lib/rapidshare-ext/api.rb:14-21 | adding the root path creates nothing and returns nil |
| Editing.AfterSlice | lib/rapidshare-ext/api.rb:269-274 | a sliced read keeps keys, order, parents and names; with no from the cache is untouched |
| Editing.AfterSliceOutside | lib/rapidshare-ext/api.rb:336-347 | records outside the slice keep their cached record |
| Editing.DeleteKeys | lib/rapidshare-ext/api.rb:65-72 | exactly the listed keys leave the hash; other records are untouched |
| Editing.RemovedAsWritten | lib/rapidshare-ext/api.rb:59-81 | removal as written leaves a well-formed hash |
| Editing.Removed | lib/rapidshare-ext/api.rb:59-81 | removal as intended leaves a well-formed hash |
| Editing.RemovedDropsSubtree | lib/rapidshare-ext/api.rb:59-81 | exactly the folder and its slice leave the cache; every other record is the one cached before |
| Editing.TwoLevelsBelow | lib/rapidshare-ext/api.rb:333-347 | in /a, /a/b only /a/b lies below /a, and it slices to "/b" |
| Editing.RemoveLeavesChildAsWritten | lib/rapidshare-ext/api.rb:65-72 | removing /a as written leaves /a/b cached as "/b"; the intended removal drops it |
| Editing.ChainBelow | lib/rapidshare-ext/api.rb:340-342 | in /a, /a/b, /a/b/c only /a/b/c lies below a/b, which "/a/b" trims to |
| Editing.ChainRelative | lib/rapidshare-ext/api.rb:344-347 | relative to a/b, the path /a/b/c becomes "/c" |
| Editing.ChainSlice | lib/rapidshare-ext/api.rb:333-351 | for any segment names, the slice of /a, /a/b, /a/b/c from /a/b is the single record c, path "/c", parent /a/b |
| Editing.SliceOfThreeLevels | test/integration/rapidshare-ext_test.rb:219-224 | the subtree from "/a/b" of /a (1), /a/b (2), /a/b/c (3) is {3: parent 2, name "c", path "/c"} |
| Editing.Reparented | lib/rapidshare-ext/api.rb:103 | only the moved folder's parent changes |
| Editing.MovedAsWritten | lib/rapidshare-ext/api.rb:102-105 | a new parent and unchanged name for the moved folder; it fails exactly when the new parent's walk cycles after the parent update (PathCycles) |
| Editing.Moved | lib/rapidshare-ext/api.rb:102-105 | as written, except that below the root (id 0) the cached path is "/name" rather than the "/<undefined>/name" that `folder_path(0)` gives, so a move to the root never fails |
| Editing.MovedPathAgrees | lib/rapidshare-ext/api.rb:102-105 | after the intended move, the cached path is the folder_path of the moved folder; below the root it is "/name" |
| Editing.MoveToRootAsWritten | lib/rapidshare-ext/api.rb:102-105 | a move to the root as written caches "/<undefined>/name", not its folder_path "/name" |
| Backend.Deletes | lib/rapidshare-ext/api.rb:400-402 | (the mapping itself) one delrealfolder per id, in order |
| Backend.DeletesAppend | lib/rapidshare-ext/api.rb:400-402 | (proof step: one unfolding) one more id appends one more delete |
| Store.Fetch | lib/rapidshare-ext/api.rb:269-277 | a loaded cache is reused, and commands are only ever appended |
| Store.Outcome | lib/rapidshare-ext/api.rb:309-315 | a load returns the hash exactly when nothing was raised |
| Store.Api.constructor | lib/rapidshare-ext/api.rb:269 | no tree is cached and no command has been sent |
| Store.Api.StorePathsPass | lib/rapidshare-ext/api.rb:299-301 | the loop stores exactly what ComputePaths computes |
| Store.Api.PruneOrphansPass | lib/rapidshare-ext/api.rb:356-366 | the nested loop deletes what PruneFrom deletes and logs one delrealfolder each |
| Store.Api.ValidationScan | lib/rapidshare-ext/api.rb:303-312 | the scan raises exactly ValidationError |
| Store.Api.StorePathsAndValidate | lib/rapidshare-ext/api.rb:299-312 | the passes leave StorePaths of the hash |
| Store.Api.PruneAndStore | lib/rapidshare-ext/api.rb:296-312 | the passes leave PruneThenStore of the hash, with its deletes logged |
| Store.Api.LoadAll | lib/rapidshare-ext/api.rb:278-312 | the cache, the log and the error are those of Load |
| Store.Api.Install | lib/rapidshare-ext/api.rb:283-294 | the cache is the listing's hash, after one listrealfolders |
| Store.Api.Settle | lib/rapidshare-ext/api.rb:296-312 | the cache, the log and the error are those of Settled |
| Store.Api.FoldersHierarchy | lib/rapidshare-ext/api.rb:261-316 | a cached tree is sliced (and its records rewritten); a load with a non-empty from raises FolderNotFound and empties the cache; otherwise Load |
| Store.Api.FoldersHierarchyBang | lib/rapidshare-ext/api.rb:234-237 | always reloads, as FoldersHierarchy with force |
| Store.Api.Current | lib/rapidshare-ext/api.rb:440 | the cache is Fetch's |
| Store.Api.RootFolder | lib/rapidshare-ext/api.rb:407-411 | true exactly for a cached root |
| Store.Api.Gap | lib/rapidshare-ext/api.rb:414-418 | an uncached id fails; otherwise true exactly when the parent is uncached |
| Store.Api.Orphan | lib/rapidshare-ext/api.rb:427-434 | answers whether the folder is an orphan, and fails exactly when its parent walk cycles (OrphanCycles) |
| Store.Api.RemoveOrphans | lib/rapidshare-ext/api.rb:356-366 | loads the cache without validation when there is none, then deletes the orphans on the server and in the cache: on success the cache is Pruned of the loaded tree and one delrealfolder goes out per orphan, in hash order; a cycle fails with CyclicChain on a cached folder |
| Store.Api.FolderPathOf | lib/rapidshare-ext/api.rb:439-447 | the folder_path of the id, or CyclicChain exactly when its parent walk cycles (PathCycles) |
| Store.Api.FolderIdOf | lib/rapidshare-ext/api.rb:452-461 | 0 for the root without loading; otherwise FolderId on the fetched cache |
| Store.Api.DetectGapsOf | lib/rapidshare-ext/api.rb:388-393 | exactly DetectGaps of the fetched cache |
| Store.Api.MoveOrphans | lib/rapidshare-ext/api.rb:373-384 | one moverealfolder with all gaps and the trimmed destination, and only when there are gaps |
| Store.Api.DeleteEach | lib/rapidshare-ext/api.rb:400-402 | one delrealfolder per id, in order |
| Store.Api.EraseAllData | lib/rapidshare-ext/api.rb:398-404 | reload without validation, delete every cached id in order, then reload |
| Store.Api.AddFolder | lib/rapidshare-ext/api.rb:14-50 | the cache, the commands and the answer are those of AddPath on the fetched cache |
| Store.Api.PutRecord | lib/rapidshare-ext/api.rb:38-42 | the cache becomes Put of the record |
| Store.Api.AddSegments | lib/rapidshare-ext/api.rb:18-49 | the while loop leaves exactly what AddFrom computes |
| Store.Api.AddStep | lib/rapidshare-ext/api.rb:22-46 | one iteration is one step of AddFrom, or the negative-parent failure |
| Store.Api.DeleteSlice | lib/rapidshare-ext/api.rb:65-72 | every key of the slice leaves the cache, with one delrealfolder each |
| Store.Api.RemoveFolder | lib/rapidshare-ext/api.rb:59-81 | an unresolved path fails; otherwise the slice and the folder leave the cache, each with a delrealfolder |
| Store.Api.RemoveResolved | lib/rapidshare-ext/api.rb:64-80 | given the resolved id, the cache becomes Removed |
| Store.Api.Purge | lib/rapidshare-ext/api.rb:65-80 | deletes the slice, then the folder |
| Store.Api.MoveFolder | lib/rapidshare-ext/api.rb:90-106 | moverealfolder with both resolved ids, then the cache of MoveOutcome |
| Store.Api.MoveResolved | lib/rapidshare-ext/api.rb:95-105 | after the command, the cache of MoveOutcome on the fetched cache |
| Store.Api.Relocate | lib/rapidshare-ext/api.rb:102-105 | the cache becomes MoveOutcome's |
| Store.MoveOutcome | lib/rapidshare-ext/api.rb:90-105 | the result is a well-formed hash in every case |

## Left out

- HTTP and the server (`post`, `get`, `listrealfolders`, `addrealfolder`, `delrealfolder`, `moverealfolder`): the commands are logged, and the server's answers are parameters.
- The extra `params` that the operations merge into their server calls: they only reach the server.
- File operations (`upload`, `remove_file`, `rename_file`, `move_file`, `file_info`, `file_id`) and downloads are outside the folder engine.
- Tokenising the listing (`split(' ')`, `split(',')`, `to_i`): rows arrive as `id,parent,name` triples.
- The `gsub` in `slice_tree` builds a regular expression from `from`: the model deletes `from + "/"` literally, so regex metacharacters in folder names are not modelled.
- Utils.Strip and Utils.Lines: the NUL character and other edge cases of Ruby's `strip` and `\s` are not modelled.
- Utils.TextToHash: keys stay strings, because `symbolize_keys` is not modelled.
- Hierarchy.FolderPathN and Hierarchy.OrphanN: on a parent cycle the source recurses until the stack overflows; the model stops after one step per cached record and answers `None` (reported as `CyclicChain`).
- Store.Api.AddFolder: requires at least one server answer per path segment, since the ids the server hands out are given in advance.
- Store.Api.RemoveFolder, Store.Api.RemoveResolved, Store.Api.Purge and Store.Api.DeleteSlice: the class follows the corrected removal (Editing.Removed, see Findings). As written, the loop at lib/rapidshare-ext/api.rb:65-72 deletes the removed folder's own id on every pass, so the slice's folders stay cached under their relative paths (Editing.RemovedAsWritten). Then the final `@tree.delete folder_id` returns nil whenever the slice was non-empty. The model drops the slice from the cache and returns the folder's record when it is cached.
- Store.MoveOutcome, Store.Api.MoveFolder, Store.Api.MoveResolved and Store.Api.Relocate: the class follows the corrected move (Editing.Moved, see Findings). As written, a move to the root (id 0, the default `:to => '/'`) caches "/<undefined>/name" (Editing.MovedAsWritten, Editing.MoveToRootAsWritten); the model caches "/name".
- Paths.PathTrim: the engine uses the corrected `\z` trim throughout (see Findings). As written, `add_folder("a/\n")` trims to "a\n" and creates one folder; the model keeps "a/\n" and creates "a" and "\n".
- Adding.AddResolves and Adding.AddTwice: proved only for paths without empty segments. For "a//b" the source and the model both create /a and /a/b and return the id of b, but `folder_id("a//b")` then finds nothing, so a second add creates another "b" below /a.
- Hierarchy.FromRows, Hierarchy.FolderId and Hierarchy.SliceTree: a record built from the listing has no path until the paths pass stores one, and the model writes "" for it. If a load raises in that pass (a parent cycle makes `folder_path` or `orphan?` overflow the stack), the records not yet reached stay cached without a path. A later `folder_id` or `slice_tree` then calls `path_trim(nil)` and raises NoMethodError; the model reads "" and goes on. For example, with the rows (1,2,"p"), (2,1,"q"), (3,0,"x"), `root_folder?(3)` fails with CyclicChain(1). After that, `add_folder("/x")` raises in the source without sending anything, while Store.Api.AddFolder sends addrealfolder for "x".
- Store.Api.MoveFolder: when the destination path does not resolve, the source still sends the command, then sets the parent to nil and caches "/<undefined>/name"; the model refuses with FolderNotFound(destination) after the command.
- Loading.PruneFrom: `remove_orphans!` nests its `delete_if` in an `each_pair` over the same hash; the model runs the `delete_if` pass once, because a second pass finds no orphans (Orphans.PrunedHasNoOrphans).
- The slice at the end of a forced load with a non-empty `from` (lib/rapidshare-ext/api.rb:314) is not modelled, because such a load always raises earlier.
- `move_folder` leaves the cached paths of the moved folder's descendants stale, in the source and in the model alike; nothing is proved about them.
- Exceptions are `Error` values: the message texts are not modelled.

## Findings

| source | as written | input that shows it | evidently intended | confidence | as-written member | corrected member |
|---|---|---|---|---|---|---|
| lib/rapidshare-ext/api.rb:524 | `/\/+\Z/` also matches before a final newline, so `path_trim` is not idempotent | "a/\n/" trims to "a/\n", which trims again to "a\n" | `\z`: strip only trailing slashes at the very end, so that trimming twice is trimming once | not executed | Paths.PathTrimAsWrittenNotIdempotent | Paths.PathTrimIdempotent |
| lib/rapidshare-ext/api.rb:71 | inside the loop over the slice, `@tree.delete folder_id` deletes the removed folder's own id instead of `child_folder_id` | removing /a from /a (1), /a/b (2) sends delrealfolder 2 but leaves 2 cached with path "/b", and returns nil | delete each child's id from the cache | not executed | Editing.RemoveLeavesChildAsWritten | Editing.RemovedDropsSubtree |
| lib/rapidshare-ext/api.rb:104 | the new path is `folder_path(dest)` + "/name", and `folder_path(0)` is "/<undefined>" | moving a folder to "/" caches "/<undefined>/name", while its folder_path is "/name" | below the root the path is "/name", as add_folder computes it | not executed | Editing.MoveToRootAsWritten | Editing.MovedPathAgrees |
