# Blot: rename detection, build master and breadcrumbs, in Dafny

This project models three parts of the Blot blogging platform and proves
properties of them.

- **Rename detection** (`CatchRename`, catch_rename.dfy). The Dropbox sync uses
  it to tell whether a deleted entry and a newly created entry are the same file
  under a new name. Two entries are scored by how many of ten fields they share.
  The best-scoring candidate is picked. The change set that moves the old
  entry's url and created date to the new one is then built. Entries are JS
  objects (module `Js`, js.dfy: values, truthiness, `===`, property reads and
  `<`). The database reads and writes around this logic become parameters and
  results.
- **Build master** (`Build`, build.dfy). The `Master` class holds the worker
  pool (`workers`, a sequence of `{process, id}` pairs) and the job registry
  (`jobs`, from job id to `{blog, id, path, options, callback}`). Its methods
  are the events the master reacts to: start-up, submit, a worker's message,
  a worker's exit, shutdown and an uncaught exception. Two counters supply
  fresh uuids and process handles. The random number is a parameter. Every
  send, kill and callback call is appended to a log, so contracts can say
  what was sent, killed or called.
- **Dashboard breadcrumbs** (`Breadcrumbs`, breadcrumbs.dfy). A folder path is
  split on `/` and empty pieces are dropped. The result is a Home crumb and
  one crumb per folder, each linking to `/~/` plus the folders up to it. The
  final crumb is marked `last`.

The model follows the code as written, including three behaviours a caller
might not expect:

- A reply whose job id is not in the registry throws a TypeError
  (app/build/index.js:30).
- Registry entries are never deleted (app/build/index.js:71-77 files them and
  nothing removes them).
- Submitting to an empty pool throws a TypeError before anything is recorded
  (app/build/index.js:68).

## Model

| member | source | states |
|---|---|---|
| `Js.Truthy` | app/sync/dropbox/change/catchRename.js:138-150 | the falsy values are exactly `undefined`, `null`, `false`, `0` and `""`; every other value, every array included, is truthy |
| `Js.StrictEquals` | app/sync/dropbox/change/catchRename.js:95 | `===` holds only between equal values, and never when either side is an array |
| `Js.Less` | app/sync/dropbox/change/catchRename.js:216-218 | `<` never holds between a value and itself, is false whenever a side is `undefined` (NaN), and on two numbers is the order of the numbers |
| `CatchRename.SameEntry` | app/sync/dropbox/change/catchRename.js:95 | entries sharing an id or a path are the same entry; an entry is the same as itself unless its id is an array |
| `CatchRename.RawScore` | app/sync/dropbox/change/catchRename.js:132-154 | the raw score never exceeds the number of fields checked |
| `CatchRename.KeyAgrees` | app/sync/dropbox/change/catchRename.js:138-150 | a checked field earns a point exactly when its value is truthy and deeply equal on both sides; a field undefined or falsy on both sides never earns one |
| `CatchRename.Similarity` | app/sync/dropbox/change/catchRename.js:95-162 | entries sharing an id or a path score 0 whatever their other fields; every score is 0 or between 4 and 10 |
| `CatchRename.CalculateSimilarity` | app/sync/dropbox/change/catchRename.js:84-163 | the loop over the ten fields followed by the floor returns exactly the score `Similarity` defines |
| `CatchRename.RawScoreCounts` | app/sync/dropbox/change/catchRename.js:132-154 | the raw score equals the number of listed fields that earn a point |
| `CatchRename.RawScoreSymmetric` | app/sync/dropbox/change/catchRename.js:138-150 | the raw score does not depend on the order of the two entries |
| `CatchRename.SimilaritySymmetric` | app/sync/dropbox/change/catchRename.js:95-162 | the similarity score is symmetric in its two arguments |
| `CatchRename.RawScoreOnlyReadsKeys` | app/sync/dropbox/change/catchRename.js:132-154 | two candidates that agree on the counted fields get the same raw score |
| `CatchRename.OnlyCheckedFieldsMatter` | app/sync/dropbox/change/catchRename.js:115-130 | no field other than the ten listed ones, the id and the path affects the score |
| `CatchRename.RawScoreAllAgree` | app/sync/dropbox/change/catchRename.js:132-154 | when every counted field agrees, the raw score is the number of fields |
| `CatchRename.FullAgreementScoresTen` | app/sync/dropbox/change/catchRename.js:115-162 | two distinct entries with the same truthy value in all ten fields score 10 |
| `CatchRename.FindSimilar` | app/sync/dropbox/change/catchRename.js:165-189 | reports no candidate and best score 0 exactly when every candidate scores 0; otherwise reports the candidate with a positive score that no other beats and that every earlier candidate scores strictly below, with that score |
| `CatchRename.FirstBestIsUnique` | app/sync/dropbox/change/catchRename.js:178-181 | at most one candidate is the first best one, so the report is determined by the scores |
| `CatchRename.ForCreated` | app/sync/dropbox/change/catchRename.js:24-34 | a new entry gets a url and created date back exactly when some recently deleted entry scores above 0, and they are those of the first best one |
| `CatchRename.ForDeleted` | app/sync/dropbox/change/catchRename.js:47-78 | nothing is written when there is no deleted entry or no candidate scores above 0; otherwise the first best candidate's path gets the deleted entry's url and created date, plus `dateStamp` (the deleted entry's created date) exactly when the candidate's dateStamp `===` its created date |
| `CatchRename.IsRecent` | app/sync/dropbox/change/catchRename.js:216-218 | an entry without a created date is never a candidate; a candidate's created date is a number later than five minutes before now |
| `CatchRename.Recent` | app/sync/dropbox/change/catchRename.js:207-220 | the filtered list is never longer than the loaded one |
| `CatchRename.RecentMembers` | app/sync/dropbox/change/catchRename.js:210-219 | an entry is in the filtered list exactly when it was loaded and passes the filter |
| `CatchRename.RecentKeepsAll` | app/sync/dropbox/change/catchRename.js:210-219 | when every loaded entry passes the filter, the filtered list is the loaded list, in the same order |
| `CatchRename.RecentConcat` | app/sync/dropbox/change/catchRename.js:210-219 | the filter looks at one entry at a time, so filtering two loaded lists one after the other is filtering their concatenation |
| `CatchRename.RecentCandidates` | app/sync/dropbox/change/catchRename.js:207-220 | the loop pushes, in loaded order and as often as they occur, exactly the entries not created before the deleted entry and created within five minutes before now: the result is `Recent` of the loaded entries |
| `CatchRename.GetRecentlyCreated` | app/sync/dropbox/change/catchRename.js:205-222 | the caller receives every loaded entry, unfiltered |
| `CatchRename.StaleCandidateKept` | app/sync/dropbox/change/catchRename.js:214-222 | an entry the filter rejects (created before the deleted entry) is still handed on by getRecentlyCreated |
| `Build.Without` | app/build/index.js:38-40 | removing an id never lengthens the pool |
| `Build.Respawns` | app/build/index.js:42-49 | a replacement is forked exactly when there is no (truthy) signal and the exit code is not 0 |
| `Build.PoolIndex` | app/build/index.js:68 | for a non-empty pool the random pick is a position of the pool; for an empty pool it is position 0, which does not exist |
| `Build.WithoutMembers` | app/build/index.js:38-40 | removing a dead worker's id keeps exactly the entries with another id |
| `Build.WithoutConcat` | app/build/index.js:38-40 | the removal works entry by entry, so it distributes over concatenation and keeps the order |
| `Build.WithoutAbsent` | app/build/index.js:38-40 | removing an id that is not in the pool leaves the pool unchanged |
| `Build.WithoutIdempotent` | app/build/index.js:38-40 | removing the same id a second time changes nothing |
| `Build.WithoutRemovesOne` | app/build/index.js:38-40 | in a pool with distinct ids, removing the id of the entry at position i drops that entry alone and keeps the others in their order |
| `Build.WithoutDistinct` | app/build/index.js:38-40 | removal keeps the pool's ids distinct |
| `Build.WithoutCons` | app/build/index.js:38-40 | the filter looks at one entry at a time: the first entry stays exactly when its id differs |
| `Build.DistinctCons` | app/build/index.js:38-40 | a pool has distinct ids exactly when its tail does and the tail does not reuse the first entry's id |
| `Build.AppendFresh` | app/build/index.js:44-46 | appending a replacement whose id was never handed out keeps the pool's ids distinct |
| `Build.WithoutFacts` | app/build/index.js:38-40 | with distinct ids, removal shrinks the pool by one when the id is present and not at all when it is absent |
| `Build.Master.constructor` | app/build/index.js:53-56 | start-up leaves exactly `numCPUs` workers with distinct fresh ids, an empty registry, and nothing sent, killed or called |
| `Build.Master.NewUuid` | app/build/index.js:69 | each uuid handed out is new |
| `Build.Master.Spawn` | app/build/index.js:58-65 | a spawned worker gets a newly forked process and an id never handed out before |
| `Build.Master.Submit` | app/build/index.js:67-80 | with an empty pool it throws and changes nothing; otherwise it files `{blog, id, path, options, callback}` under a fresh id, leaves every other job as it was, and sends `{blog, path, id, options}` to the process at `floor(random * workers.length)` |
| `Build.Master.OnMessage` | app/build/index.js:28-32 | a reply for a registered job calls that job's callback with the reply's error and entry, and only that; a reply for an unknown id throws and calls nothing; the registry is left as it was |
| `Build.Master.OnExit` | app/build/index.js:34-51 | every pool entry with the dead worker's id goes and the others keep their order; a replacement with a fresh id is appended exactly when there is no signal and the code is not 0; so the pool keeps its size after a crash and shrinks by one after a signal or a clean exit; the uuid and process supplies advance by one exactly when a replacement is forked and stay put otherwise |
| `Build.Master.KillAll` | app/build/index.js:16-18 | kills every process in the pool, in pool order, and leaves the pool as it is |
| `Build.Master.OnShutdown` | app/build/index.js:14-19 | on shutdown every worker in the pool is killed |
| `Build.Master.OnUncaughtException` | app/build/index.js:21-26 | on an uncaught exception every worker in the pool is killed |
| `Build.TwoJobsAndACrash` | app/build/index.js:28-51 | two jobs on a pool of two: the second job's reply calls only the second callback, and after the first worker crashes the pool again has two workers, the survivor first and a replacement with another id after it |
| `Breadcrumbs.Split` | app/routes/dashboard/_folder/breadcrumbs.js:5 | `split('/')` always yields at least one piece |
| `Breadcrumbs.Join` | app/routes/dashboard/_folder/breadcrumbs.js:10 | `join('/')` puts a separator between consecutive pieces, so the joined string has at least as many characters as there are separators, one fewer than the pieces |
| `Breadcrumbs.NonEmpty` | app/routes/dashboard/_folder/breadcrumbs.js:5 | dropping empty names leaves no empty name and never lengthens the list |
| `Breadcrumbs.Segments` | app/routes/dashboard/_folder/breadcrumbs.js:5 | the folder names are the pieces of `split('/')` with the empty ones dropped, so the empty path has none |
| `Breadcrumbs.UrlOf` | app/routes/dashboard/_folder/breadcrumbs.js:10 | every folder link starts with `/~/` |
| `Breadcrumbs.JoinSplit` | app/routes/dashboard/_folder/breadcrumbs.js:5 | joining the pieces of `split('/')` with `/` gives back the path |
| `Breadcrumbs.SplitPiecesHaveNoSlash` | app/routes/dashboard/_folder/breadcrumbs.js:5 | no piece of the split contains a slash |
| `Breadcrumbs.SplitWithoutSlash` | app/routes/dashboard/_folder/breadcrumbs.js:5 | a string without a slash splits into itself alone |
| `Breadcrumbs.SplitCons` | app/routes/dashboard/_folder/breadcrumbs.js:5 | a leading slash starts a new empty piece; any other first character joins the first piece |
| `Breadcrumbs.SplitAtSlash` | app/routes/dashboard/_folder/breadcrumbs.js:5 | the pieces of `a/b` are the pieces of `a` followed by those of `b` |
| `Breadcrumbs.NonEmptyConcat` | app/routes/dashboard/_folder/breadcrumbs.js:5 | dropping empty names distributes over concatenation |
| `Breadcrumbs.NonEmptyMembers` | app/routes/dashboard/_folder/breadcrumbs.js:5 | dropping empty names keeps exactly the non-empty ones |
| `Breadcrumbs.NonEmptyKeepsNonEmpty` | app/routes/dashboard/_folder/breadcrumbs.js:5 | a list without empty names is left as it is |
| `Breadcrumbs.SegmentsAreNames` | app/routes/dashboard/_folder/breadcrumbs.js:5 | every folder name is non-empty and free of slashes |
| `Breadcrumbs.SegmentsAtSlash` | app/routes/dashboard/_folder/breadcrumbs.js:5 | the folder names of `a/b` are those of `a` followed by those of `b` |
| `Breadcrumbs.ExtraSlashesIgnored` | app/routes/dashboard/_folder/breadcrumbs.js:5 | leading, trailing and doubled slashes do not change the folder names |
| `Breadcrumbs.SplitJoin` | app/routes/dashboard/_folder/breadcrumbs.js:5-10 | splitting names joined with `/` gives the names back when none contains a slash |
| `Breadcrumbs.SegmentsOfJoin` | app/routes/dashboard/_folder/breadcrumbs.js:5-10 | reading the folder names back from a crumb's joined names gives exactly those names |
| `Breadcrumbs.JoinAppend` | app/routes/dashboard/_folder/breadcrumbs.js:10 | joining one more name appends a slash and that name |
| `Breadcrumbs.UrlOfFacts` | app/routes/dashboard/_folder/breadcrumbs.js:7-12 | a folder's link starts with `/~/`, names exactly the folders up to it, and extends the previous folder's link by `/` and its own name |
| `Breadcrumbs.TrailLinks` | app/routes/dashboard/_folder/breadcrumbs.js:7-16 | in a trail built from proper folder names, each folder crumb links to exactly the folders up to it and extends the previous folder's link |
| `Breadcrumbs.Breadcrumbs` | app/routes/dashboard/_folder/breadcrumbs.js:1-19 | the first crumb is Home at `/`; there is one more crumb than folder names; crumb i+1 carries folder name i, a non-empty name without a slash, and a link under `/~/` that names exactly the first i+1 folders; each folder link extends the one before; exactly the final crumb is marked last |

## Left out

- Database access (`Entries.getListIDs`, `Entry.get`, `Entry.set`) and `getRecentlyDeleted`, which only reads the database. The entries they load are parameters. The write `forDeleted` makes is returned as an `Update`. The `throw err` paths of the reads, the `ensure` type checks, logging and the callback style are left out.
- `Date.now()` is the parameter `now`.
- JS numbers are integers: NaN and fractions do not occur. In `<` and `>`, strings and arrays are not converted to numbers and strings are not compared with each other; such comparisons are false in the model. Blot's `created` values are numeric timestamps.
- `===` on two arrays is false in the model. The arrays compared always come from separately loaded entries, so they are never the same object. lodash `isEqual` is structural equality of values.
- `CatchRename.Similarity`: the `false` that calculateSimilarity returns for the same entry is 0. Its only consumer, `score > bestScore`, treats `false` and 0 alike.
- `CatchRename.FindSimilar`: the similar candidate is reported by its position in the list. The candidate object is the entry at that position.
- `child_process.fork`, `worker.send`, `worker.kill`, the `async-exit-hook` registration and the worker entry point (`main`) are left out. A fork is a fresh process handle. Sends and kills are entries in the `sent` and `killed` logs. The event handlers attached to each worker are `Master` methods that take the worker's id.
- `uuid()` is a counter that never repeats a value. `Math.random()` is a real parameter in [0, 1). The product with the pool size is computed exactly, without floating-point rounding.
- `Build.Master.OnMessage`: a TypeError is returned as an `Outcome`. In the running master it would reach the uncaught-exception handler (`OnUncaughtException`), after which the master exits. The model leaves that dispatch, and the exit, to the caller.
- `Breadcrumbs.Crumb`: in the source only the final crumb has a `last` property (`true`, line 16); the others have none. The model gives every crumb a `last` field, `false` on all but the final one.
- Cross-process timing and interleaving: the model is a sequence of discrete events, one method call each.
- The git push routes (app/clients/git/routes.js), the external-links plugin (app/plugins/externalLinks/index.js) and the cheerio iteration helper (app/plugins/eachEl.js) are not part of this model. They are HTTP, DOM and library plumbing.

## Findings

| source | as written | input that shows it | evidently intended | confidence | as-written member | corrected member |
|---|---|---|---|---|---|---|
| app/sync/dropbox/change/catchRename.js:222 | getRecentlyCreated collects the candidates created no earlier than the deleted entry and within the last five minutes, then returns the unfiltered list of loaded entries | deleted entry created 1000000, a loaded entry created 10, now 1000000: the loaded entry is handed to findSimilar although the filter rejects it (`CatchRename.StaleCandidateKept`) | return the filtered candidates, as the comments at lines 53-54 and 197-200 say | high; not executed | `CatchRename.GetRecentlyCreated` | `CatchRename.RecentCandidates` |

`CatchRename.ForDeleted` takes the list of recently created entries as a
parameter. It can be fed the output of either member, and its contract holds
for any list.
