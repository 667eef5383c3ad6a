/**
 * One invocation of the tool (index.js:57-126): take the lock, check the
 * target directory, scan it, stop early when there is at most one
 * candidate, and otherwise compute the newest date and the files to
 * compress.  The outcome is either an exit code or the list of file names
 * handed to `xz -9`.
 *
 * The lock attempt, the directory test, the listing, the regular
 * expression, the date parser, the digest and the clock are inputs.
 */
module Rotation {
  import opened LogTypes
  import opened DirectoryScan
  import opened FileSelection
  import opened LockPath

  /**
   * The outcome of preparing and locking the lock file (index.js:61-73).
   * `SetupFailed` is a throw from `mkdirSync` or from `openSync(lockFile, 'r')`;
   * the latter happens whenever `process.lock` does not exist yet, since
   * nothing in index.js creates it.  Otherwise `flock(fd, 'exnb', ...)`
   * either takes the lock or reports an error.
   */
  datatype LockAttempt = SetupFailed | Locked | FlockError(errno: int)

  /**
   * How a run ends: a process exit code, the names to compress, or a
   * rejection of the async main function that index.js does not handle.
   */
  datatype RunOutcome = Exit(code: int) | Compress(files: seq<string>) | Unhandled

  /** Exit code for any failure of the non-blocking exclusive lock (index.js:71). */
  const LockFailedExit: int := 10

  /** A match anywhere in the listing whose captures are malformed. */
  predicate PatternRejected(entries: seq<string>, pattern: string -> MatchResult)
  {
    exists i :: 0 <= i < |entries| && Malformed(pattern(entries[i]))
  }

  method Run(dir: string, sha256Hex: string -> string, tryLock: string -> LockAttempt,
             dirIsDirectory: bool, entries: seq<string>,
             pattern: string -> MatchResult, parseDay: string -> int, today: int)
    returns (out: RunOutcome)
    ensures out == Unhandled <==> tryLock(LockFile(dir, sha256Hex)).SetupFailed?
    ensures out == Exit(LockFailedExit) <==> tryLock(LockFile(dir, sha256Hex)).FlockError?
    ensures out == Exit(1) <==>
      tryLock(LockFile(dir, sha256Hex)).Locked? && (!dirIsDirectory || PatternRejected(entries, pattern))
    ensures out == Exit(0) <==>
      && tryLock(LockFile(dir, sha256Hex)).Locked? && dirIsDirectory && !PatternRejected(entries, pattern)
      && |MatchedCandidates(entries, pattern, parseDay)| <= 1
    ensures out.Compress? <==>
      && tryLock(LockFile(dir, sha256Hex)).Locked? && dirIsDirectory && !PatternRejected(entries, pattern)
      && |MatchedCandidates(entries, pattern, parseDay)| >= 2
    ensures out.Compress? ==>
      var cands := MatchedCandidates(entries, pattern, parseDay);
      && |cands| >= 2
      && out.files == Files(Select(cands, today, MaxDate(cands), entries))
  {
    var lockFile := LockFile(dir, sha256Hex);
    var lock := tryLock(lockFile);
    if lock.SetupFailed? {
      return Unhandled;
    }
    if lock.FlockError? {
      return Exit(LockFailedExit);
    }
    if !dirIsDirectory {
      return Exit(1);
    }
    var scan := ScanDirectory(entries, pattern, parseDay);
    if scan.PatternInvalid? {
      return Exit(1);
    }
    var selectedFiles := scan.candidates;
    if |selectedFiles| == 0 {
      return Exit(0);
    }
    if |selectedFiles| == 1 {
      return Exit(0);
    }
    var maxDate := ComputeMaxDate(selectedFiles);
    selectedFiles := Select(selectedFiles, today, maxDate, entries);
    out := Compress(Files(selectedFiles));
  }
}
