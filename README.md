# compress-logs, modelled in Dafny

`compress-logs` is a log-rotation tool. It is given a directory and a
case-insensitive file-name pattern with named groups `year`, `month` and
`day`. It takes a non-blocking exclusive lock keyed by a hash of the directory.
It then scans the directory, builds a dated `{file, fileDate}` record per
matching entry and selects the files to hand to `xz -9`. A file is selected
unless it is dated today, it carries the newest date, or its `.xz` sibling
already exists.

The model follows `index.js`, the only file with logic:

- `types.dfy` (`LogTypes`): match results, candidate records, the required
  capture names, and the order-preserving subsequence relation.
- `fields.dfy` (`RequiredFieldCheck`): `checkRequiredFields`, with its set
  intersection and set comparison.
- `scan.dfy` (`DirectoryScan`): the readdir/match loop, which aborts on a
  malformed match, as a method proved against the candidate list it builds.
- `selection.dfy` (`FileSelection`): the `maxDate` loop, the filter
  predicate, and the selection's invariants.
- `lock.dfy` (`LockPath`): the lock directory and lock file paths.
- `run.dfy` (`Rotation`): one invocation, from the lock attempt to the list
  of files to compress or the exit code.
- `rerun.dfy` (`Rerun`): what a second run finds after `xz` has replaced
  each selected file by its `.xz` file.

Abstractions:

- The directory listing is a snapshot `seq<string>`.
- The regular expression is a function from a name to a match result. A
  match's `groups` object maps every named group of the pattern to its
  capture, or to `None` for JavaScript's `undefined`, which a template
  literal renders as `undefined`.
- `Date.parse` plus `setHours(0,0,0,0)` is a function from the
  `year-month-day` text to an integer day number.
- Today is a parameter.
- The `.xz` existence test is membership of `file + ".xz"` in the listing.
- The hex SHA-256 digest is a function parameter.
- The lock attempt is a function from the lock file path to its result:
  the lock setup throws, `flock` takes the lock, or `flock` reports an error.
- Whether the target is an existing directory is a boolean input.

The model follows `index.js`; points worth noting:

- The filter compares `fileDate !== today` (index.js:123), not
  `fileDate < today`. A file dated after today that is not the newest one is
  selected (`FutureDatedFileSelected`).
- Every `flock` error exits with code 10, whatever its errno (index.js:67-72).
- Nothing in index.js creates `process.lock`: only the lock directory is
  created (index.js:61-64), and `openSync(lockFile, 'r')` (index.js:66) throws
  when the file is missing. That throw, like a failing `mkdirSync`, rejects
  the async main function, which index.js does not handle (`Unhandled`).
- `maxDate` starts at 0 (index.js:115). The newest file is protected only
  when some candidate date is at least 0. When every date is negative (before
  1970 in the code's millisecond timestamps), the newest file is selected
  too (`NegativeDatesSelectNewest`).
- Two directories share a lock exactly when their 8-character digest
  prefixes agree (`LockFilesCollideIffPrefixesMatch`).
- The pattern is not anchored by the code. A pattern without `$` also
  matches the `.xz` files a previous run produced, and those have no `.xz`
  sibling, so a second run selects them and hands them to `xz -9` again
  (`UnanchoredPatternReselects`).
  With a pattern that matches no `.xz` name, a second run on the same day
  compresses nothing (`RerunCompressesNothing`). A rerun on a later day can
  select a file the first run skipped because it was dated today.
- The code has no retention pass, dry-run mode or compressed-pattern option.

## Model

| member | source | states |
|---|---|---|
| RequiredFieldCheck.Intersect | index.js:33-35 | the filtered list holds exactly the required names that are property names |
| RequiredFieldCheck.SetsEqual | index.js:37-39 | equal sizes plus inclusion holds exactly when the two sets are equal |
| RequiredFieldCheck.CheckRequiredFields | index.js:32-46 | true exactly when every required name is a key of the captures object; extra keys and repeated names make no difference |
| DirectoryScan.Malformed | index.js:98 | a match with no `groups` object, or whose keys lack `year`, `month` or `day` |
| DirectoryScan.DayOf | index.js:103 | the date is `parseDay` of `<year>-<month>-<day>`, with `undefined` for a group that took no part |
| DirectoryScan.ScanDirectory | index.js:94-106 | the scan aborts exactly when some entry matches with no groups or without `year`/`month`/`day`; otherwise it returns one record per well-formed match, in listing order |
| DirectoryScan.CandidatesComeFromMatches | index.js:96-104 | every candidate is a listed entry that matched well-formed, dated by parsing its `year-month-day` captures |
| DirectoryScan.MatchesBecomeCandidates | index.js:96-104 | every well-formed match of a listed entry yields a candidate carrying its date |
| DirectoryScan.CandidatesInListingOrder | index.js:95-106 | candidate names are an order-preserving subsequence of the listing; non-matching entries are dropped |
| FileSelection.MaxDate | index.js:115-120 | the loop's final `maxDate` is at least 0 and at least every candidate date, and is 0 or the date of some candidate |
| FileSelection.ComputeMaxDate | index.js:115-120 | the loop computes exactly that `maxDate` |
| FileSelection.Keep | index.js:123-125 | the filter predicate itself: date not today, date not `maxDate`, and `<file>.xz` not in the listing |
| FileSelection.Select | index.js:122-126 | a candidate survives exactly when its date is not today, not `maxDate`, and its `.xz` sibling is absent |
| FileSelection.SelectionKeepsOrder | index.js:122-126 | the selection is an order-preserving subsequence of the candidates |
| FileSelection.DroppedCandidateShortens | index.js:122-126 | if any candidate is filtered out, the selection is strictly shorter than the candidate list |
| FileSelection.NewestFileNeverSelected | index.js:115-126 | once some date is at least 0, a candidate with the newest date is skipped, every selected file is strictly older than it, and fewer files are selected than scanned |
| FileSelection.AllCompressedSelectsNothing | index.js:122-126 | when every candidate already has an `.xz` sibling, nothing is selected |
| FileSelection.RerunSelectsNothing | index.js:122-126 | after every selected file has gained its `.xz` sibling, selecting again among the same candidates, with the same today and `maxDate`, selects nothing |
| FileSelection.NewestDateSurvivesCompression | index.js:115-120 | removing compressed candidates leaves `maxDate` unchanged while the newest candidate remains |
| FileSelection.ThreeDailyLogs | index.js:115-126 | logs of days 1, 2 and 3 with today 3: days 1 and 2 are selected; after they are replaced by `.xz` files and only the newest log is still a candidate, nothing is selected |
| FileSelection.FutureDatedFileSelected | index.js:122-126 | a file dated after today that is not the newest is selected |
| FileSelection.NegativeDatesSelectNewest | index.js:115-126 | with all dates below 0, `maxDate` stays 0 and the newest file is selected |
| LockPath.HashPrefix | index.js:58 | the lock identity is the first 8 characters of the digest (all of it when shorter) |
| LockPath.LockDir | index.js:28-59 | the lock directory is `/run/compress_logs/` followed by the digest prefix |
| LockPath.LockFile | index.js:60 | the lock file is the lock directory followed by `/process.lock` |
| LockPath.LockFileLayout | index.js:28-60 | the lock file is `/run/compress_logs/<8 digest characters>/process.lock`, inside the lock directory |
| LockPath.LockFilesCollideIffPrefixesMatch | index.js:58-60 | two directories share a lock file exactly when their digest prefixes agree; the same directory always gets the same lock |
| Rotation.Run | index.js:57-126 | a throw while preparing the lock file ends the run unhandled; any `flock` error exits 10; a missing directory or malformed match exits 1; zero or one candidate exits 0; otherwise the names to compress are the filtered candidates, against the newest date |
| Rerun.RescanFindsEarlierCandidates | index.js:94-106 | after compression, if the pattern does not match the new `.xz` names, every candidate of the rescan is an earlier candidate whose file was not compressed |
| Rerun.RerunCompressesNothing | index.js:94-126 | after every selected file is replaced by its `.xz` file, a same-day rerun (same `today`) with a pattern matching no `.xz` name aborts on no entry and selects nothing |
| Rerun.UnanchoredPatternReselects | index.js:96-125 | a pattern that also matches `.xz` names makes the second run over `app-1.log.xz`, `app-2.log.xz`, `app-3.log` with today 3 select both `.xz` files again |

## Left out

- Process and filesystem calls are not modelled: `existsSync`, `mkdirSync`, `openSync`, `readdirSync`, `lstatSync`, `flock` and `exec` (index.js:61-66, 89-95, 129-138). Their results are inputs. The lock directory creation (index.js:61-64) and the open of the lock file are one input: whether that setup throws.
- The compression loop (index.js:129-138) is not modelled. It launches `xz -9` asynchronously and only logs failures. `Rotation.Run` ends with the list of names it would compress.
- The `deasync.sleep` calls (index.js:77, 81) are not modelled. The unconditional `process.exit(1)` calls at index.js:87 and index.js:127 are debugging leftovers that make the rest of the run unreachable. The model treats the code after them as live.
- Rotation.Run: a failed `mkdirSync` or `openSync`, including the open of the `process.lock` that the code never creates, ends the run as an unhandled rejection. Its exit code is decided by the Node.js runtime, not by index.js, and is not modelled.
- Rotation.Run: the lock attempt is synchronous. In the source the `flock` callback runs asynchronously during a 100 ms sleep.
- Rotation.Run: today is one value. The source recomputes `new Date()` for every candidate, so a run across midnight can see two days.
- JavaScript date semantics are not modelled: time zones, milliseconds and `NaN` for an unparsable date. A `NaN` date is never equal to anything, so the source would select it. Day numbers here are integers.
- The `.xz` test reads the listing taken by the scan, not the live filesystem at filter time.
- The regular-expression engine and its case-insensitive flag are not modelled. Neither is command-line parsing (index.js:12-25, 48-55).
- SHA-256 and hex encoding are not modelled (index.js:58). Only the prefix and the path concatenation are.
- src/logger.js is not part of this model. It only configures a logging library, and index.js does not use it.
