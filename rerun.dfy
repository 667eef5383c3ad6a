/**
 * What a second run sees after the first one compressed its selection.
 * `xz -9 file` replaces `file` with `file.xz`, so the second run lists the
 * first run's entries minus the compressed files, plus their `.xz` names.
 * Whether those `.xz` names become candidates depends on the pattern: an
 * unanchored pattern matches them too and they are handed to `xz -9` again.
 */
module Rerun {
  import opened LogTypes
  import opened DirectoryScan
  import opened FileSelection
  import opened Rotation

  predicate EndsWithXz(name: string)
  {
    |name| >= 3 && name[|name| - 3..] == ".xz"
  }

  lemma XzNameEndsWithXz(f: string)
    ensures EndsWithXz(f + ".xz")
  {
  }

  /** The listing after each name in `compressed` was replaced by its `.xz` file. */
  predicate CompressedListing(entries: seq<string>, compressed: seq<string>, after: seq<string>)
  {
    && (forall name :: name in entries && name !in compressed ==> name in after)
    && (forall f :: f in compressed ==> f + ".xz" in after)
    && (forall name :: name in after ==>
          (name in entries && name !in compressed) || exists f :: f in compressed && name == f + ".xz")
  }

  /** Two candidates of one listing with the same name are the same record. */
  lemma {:induction false} SameFileSameCandidate(entries: seq<string>, pattern: string -> MatchResult,
                                                 parseDay: string -> int, c1: Candidate, c2: Candidate)
    requires c1 in MatchedCandidates(entries, pattern, parseDay)
    requires c2 in MatchedCandidates(entries, pattern, parseDay)
    requires c1.file == c2.file
    ensures c1 == c2
  {
    var cands := MatchedCandidates(entries, pattern, parseDay);
    var k1 :| 0 <= k1 < |cands| && cands[k1] == c1;
    var k2 :| 0 <= k2 < |cands| && cands[k2] == c2;
    CandidatesComeFromMatches(entries, pattern, parseDay, k1);
    CandidatesComeFromMatches(entries, pattern, parseDay, k2);
  }

  /**
   * When the pattern does not match the new `.xz` names, every candidate of
   * the rescan is a candidate of the first scan whose file was not compressed.
   */
  lemma RescanFindsEarlierCandidates(entries: seq<string>, compressed: seq<string>, after: seq<string>,
                                     pattern: string -> MatchResult, parseDay: string -> int)
    requires CompressedListing(entries, compressed, after)
    requires forall f :: f in compressed ==> !WellFormed(pattern(f + ".xz"))
    ensures forall c :: c in MatchedCandidates(after, pattern, parseDay) ==>
      c in MatchedCandidates(entries, pattern, parseDay) && c.file !in compressed
  {
    var rescan := MatchedCandidates(after, pattern, parseDay);
    forall c | c in rescan
      ensures c in MatchedCandidates(entries, pattern, parseDay) && c.file !in compressed
    {
      var k :| 0 <= k < |rescan| && rescan[k] == c;
      CandidatesComeFromMatches(after, pattern, parseDay, k);
      var i :| 0 <= i < |entries| && entries[i] == c.file;
      MatchesBecomeCandidates(entries, pattern, parseDay, i);
    }
  }

  /** The names `xz` produced in the first run: the selected files. */
  function CompressedFiles(entries: seq<string>, pattern: string -> MatchResult,
                           parseDay: string -> int, today: int): seq<string>
  {
    var cands := MatchedCandidates(entries, pattern, parseDay);
    Files(Select(cands, today, MaxDate(cands), entries))
  }

  /** A compressed file was a candidate, so it is a well-formed match. */
  lemma CompressedFileWasCandidate(entries: seq<string>, pattern: string -> MatchResult,
                                   parseDay: string -> int, today: int, s: nat)
    requires s < |CompressedFiles(entries, pattern, parseDay, today)|
    ensures var cands := MatchedCandidates(entries, pattern, parseDay);
      var sel := Select(cands, today, MaxDate(cands), entries);
      && sel[s] in cands && sel[s].file == CompressedFiles(entries, pattern, parseDay, today)[s]
      && WellFormed(pattern(sel[s].file))
  {
    var cands := MatchedCandidates(entries, pattern, parseDay);
    var sel := Select(cands, today, MaxDate(cands), entries);
    assert sel[s] in sel;
    var t :| 0 <= t < |cands| && cands[t] == sel[s];
    CandidatesComeFromMatches(entries, pattern, parseDay, t);
  }

  /** The rescan aborts on no entry: old entries were fine and `.xz` names do not match. */
  lemma RescanNotRejected(entries: seq<string>, compressed: seq<string>, after: seq<string>,
                          pattern: string -> MatchResult)
    requires !PatternRejected(entries, pattern)
    requires forall name :: EndsWithXz(name) ==> !pattern(name).Matched?
    requires CompressedListing(entries, compressed, after)
    ensures !PatternRejected(after, pattern)
  {
    forall i | 0 <= i < |after| ensures !Malformed(pattern(after[i])) {
      if after[i] in entries && after[i] !in compressed {
        var j :| 0 <= j < |entries| && entries[j] == after[i];
      } else {
        var f :| f in compressed && after[i] == f + ".xz";
        XzNameEndsWithXz(f);
      }
    }
  }

  /** A candidate of the first run whose file is not among the compressed ones was not selected. */
  lemma UncompressedWasSkipped(entries: seq<string>, pattern: string -> MatchResult,
                               parseDay: string -> int, today: int, c: Candidate)
    requires c in MatchedCandidates(entries, pattern, parseDay)
    requires c.file !in CompressedFiles(entries, pattern, parseDay, today)
    ensures var cands := MatchedCandidates(entries, pattern, parseDay);
      !Keep(c, today, MaxDate(cands), entries)
  {
  }

  /** A newest candidate is never compressed, so it is found again and the newest date stays. */
  lemma RescanKeepsNewestDate(entries: seq<string>, after: seq<string>, pattern: string -> MatchResult,
                              parseDay: string -> int, today: int)
    requires CompressedListing(entries, CompressedFiles(entries, pattern, parseDay, today), after)
    requires forall c :: c in MatchedCandidates(after, pattern, parseDay) ==>
      c in MatchedCandidates(entries, pattern, parseDay)
    ensures MaxDate(MatchedCandidates(after, pattern, parseDay)) == MaxDate(MatchedCandidates(entries, pattern, parseDay))
  {
    var cands := MatchedCandidates(entries, pattern, parseDay);
    var rescan := MatchedCandidates(after, pattern, parseDay);
    var m := MaxDate(cands);
    var compressed := CompressedFiles(entries, pattern, parseDay, today);
    if exists k :: 0 <= k < |cands| && cands[k].fileDate == m {
      var k :| 0 <= k < |cands| && cands[k].fileDate == m;
      var newest := cands[k];
      CandidatesComeFromMatches(entries, pattern, parseDay, k);
      if newest.file in compressed {
        var s :| 0 <= s < |compressed| && compressed[s] == newest.file;
        CompressedFileWasCandidate(entries, pattern, parseDay, today, s);
        var sel := Select(cands, today, m, entries);
        SameFileSameCandidate(entries, pattern, parseDay, sel[s], newest);
      }
      var j :| 0 <= j < |after| && after[j] == newest.file;
      MatchesBecomeCandidates(after, pattern, parseDay, j);
      var r :| 0 <= r < |rescan| && rescan[r] == newest;
      NewestDateSurvivesCompression(cands, rescan, r);
    } else {
      SublistMaxDate(cands, rescan);
    }
  }

  /** A left-over candidate is skipped again: its reason to be skipped survives compression. */
  lemma LeftOverSkippedAgain(entries: seq<string>, after: seq<string>, pattern: string -> MatchResult,
                             parseDay: string -> int, today: int, c: Candidate)
    requires forall name :: EndsWithXz(name) ==> !pattern(name).Matched?
    requires CompressedListing(entries, CompressedFiles(entries, pattern, parseDay, today), after)
    requires c in MatchedCandidates(entries, pattern, parseDay)
    requires c.file !in CompressedFiles(entries, pattern, parseDay, today)
    ensures !Keep(c, today, MaxDate(MatchedCandidates(entries, pattern, parseDay)), after)
  {
    var compressed := CompressedFiles(entries, pattern, parseDay, today);
    UncompressedWasSkipped(entries, pattern, parseDay, today, c);
    if c.file + ".xz" in entries {
      XzNameEndsWithXz(c.file);
      if c.file + ".xz" in compressed {
        var s :| 0 <= s < |compressed| && compressed[s] == c.file + ".xz";
        CompressedFileWasCandidate(entries, pattern, parseDay, today, s);
      }
    }
  }

  /**
   * A same-day rerun (same `today`) after a full compression compresses
   * nothing, provided the pattern matches no name ending in `.xz`: the
   * rescan aborts on no entry, and the
   * selection among the files left over is empty, so the second run ends
   * with `Exit(0)` or `Compress([])`.
   */
  lemma RerunCompressesNothing(entries: seq<string>, after: seq<string>, pattern: string -> MatchResult,
                               parseDay: string -> int, today: int)
    requires !PatternRejected(entries, pattern)
    requires forall name :: EndsWithXz(name) ==> !pattern(name).Matched?
    requires CompressedListing(entries, CompressedFiles(entries, pattern, parseDay, today), after)
    ensures !PatternRejected(after, pattern)
    ensures var rescan := MatchedCandidates(after, pattern, parseDay);
      Select(rescan, today, MaxDate(rescan), after) == []
  {
    var compressed := CompressedFiles(entries, pattern, parseDay, today);
    forall f | f in compressed ensures !WellFormed(pattern(f + ".xz")) {
      XzNameEndsWithXz(f);
    }
    RescanFindsEarlierCandidates(entries, compressed, after, pattern, parseDay);
    RescanNotRejected(entries, compressed, after, pattern);
    RescanKeepsNewestDate(entries, after, pattern, parseDay, today);
    var rescan := MatchedCandidates(after, pattern, parseDay);
    forall c | c in rescan ensures !Keep(c, today, MaxDate(rescan), after) {
      LeftOverSkippedAgain(entries, after, pattern, parseDay, today, c);
    }
    NothingKeptSelectsNothing(rescan, today, MaxDate(rescan), after);
  }

  lemma NothingKeptSelectsNothing(cands: seq<Candidate>, today: int, maxDate: int, listing: seq<string>)
    requires forall c :: c in cands ==> !Keep(c, today, maxDate, listing)
    ensures Select(cands, today, maxDate, listing) == []
  {
  }

  /** The scan of the second listing, when the pattern matches all three names. */
  lemma UnanchoredRescan(pattern: string -> MatchResult, parseDay: string -> int)
    requires WellFormed(pattern("app-1.log.xz")) && DayOf(pattern("app-1.log.xz"), parseDay) == 1
    requires WellFormed(pattern("app-2.log.xz")) && DayOf(pattern("app-2.log.xz"), parseDay) == 2
    requires WellFormed(pattern("app-3.log")) && DayOf(pattern("app-3.log"), parseDay) == 3
    ensures var listing := ["app-1.log.xz", "app-2.log.xz", "app-3.log"];
      && !PatternRejected(listing, pattern)
      && MatchedCandidates(listing, pattern, parseDay)
         == [Candidate("app-1.log.xz", 1), Candidate("app-2.log.xz", 2), Candidate("app-3.log", 3)]
  {
    var listing := ["app-1.log.xz", "app-2.log.xz", "app-3.log"];
    assert listing[1..] == ["app-2.log.xz", "app-3.log"] && listing[1..][1..] == ["app-3.log"];
    assert listing[1..][1..][1..] == [];
    assert MatchedCandidates(listing[1..][1..], pattern, parseDay) == [Candidate("app-3.log", 3)];
    assert MatchedCandidates(listing[1..], pattern, parseDay) == [Candidate("app-2.log.xz", 2), Candidate("app-3.log", 3)];
  }

  /**
   * The source's behaviour with an unanchored pattern: if the pattern also
   * matches `.xz` names, a second run over `app-1.log.xz`, `app-2.log.xz`
   * and `app-3.log` with today 3 selects the two `.xz` files again, so they
   * are handed to `xz -9` once more.
   */
  lemma UnanchoredPatternReselects(pattern: string -> MatchResult, parseDay: string -> int)
    requires WellFormed(pattern("app-1.log.xz")) && DayOf(pattern("app-1.log.xz"), parseDay) == 1
    requires WellFormed(pattern("app-2.log.xz")) && DayOf(pattern("app-2.log.xz"), parseDay) == 2
    requires WellFormed(pattern("app-3.log")) && DayOf(pattern("app-3.log"), parseDay) == 3
    ensures var listing := ["app-1.log.xz", "app-2.log.xz", "app-3.log"];
      var cands := MatchedCandidates(listing, pattern, parseDay);
      && !PatternRejected(listing, pattern)
      && Files(Select(cands, 3, MaxDate(cands), listing)) == ["app-1.log.xz", "app-2.log.xz"]
  {
    UnanchoredRescan(pattern, parseDay);
    RecompressedSelection();
  }

  /** The selection among the `.xz` candidates and the newest plain log. */
  lemma RecompressedSelection()
    ensures var cands := [Candidate("app-1.log.xz", 1), Candidate("app-2.log.xz", 2), Candidate("app-3.log", 3)];
      var listing := ["app-1.log.xz", "app-2.log.xz", "app-3.log"];
      && MaxDate(cands) == 3
      && Files(Select(cands, 3, MaxDate(cands), listing)) == ["app-1.log.xz", "app-2.log.xz"]
  {
  }
}
