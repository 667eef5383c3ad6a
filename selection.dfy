/**
 * Choosing the files to compress (index.js:115-126): the newest candidate
 * date is computed by a loop that starts from 0, and a candidate is kept
 * only if its date is not today's, is not that newest date, and no
 * `<file>.xz` sibling exists.
 *
 * Dates are day numbers; `today` is a parameter.  The existence test
 * `fs.existsSync(`${dir}/${file}.xz`)` is membership of `file + ".xz"` in the
 * directory listing taken by the scan.
 */
module FileSelection {
  import opened LogTypes

  /**
   * The value `maxDate` reaches (index.js:115-120): the largest candidate
   * date, or the initial 0 when no candidate date exceeds 0.
   */
  function MaxDate(cands: seq<Candidate>): (m: int)
    ensures m >= 0
    ensures forall k :: 0 <= k < |cands| ==> cands[k].fileDate <= m
    ensures m == 0 || exists k :: 0 <= k < |cands| && cands[k].fileDate == m
  {
    if cands == [] then 0
    else
      var prev := MaxDate(cands[..|cands| - 1]);
      var d := cands[|cands| - 1].fileDate;
      if prev < d then d else prev
  }

  /** The `for...of` loop that raises `maxDate` to each larger candidate date. */
  method ComputeMaxDate(cands: seq<Candidate>) returns (maxDate: int)
    ensures maxDate == MaxDate(cands)
  {
    maxDate := 0;
    for i := 0 to |cands|
      invariant maxDate == MaxDate(cands[..i])
    {
      assert cands[..i + 1][..i] == cands[..i];
      if maxDate < cands[i].fileDate {
        maxDate := cands[i].fileDate;
      }
    }
    assert cands[..|cands|] == cands;
  }

  /**
   * The filter predicate of index.js:123-125: the file is not today's, not
   * the newest, and its compressed sibling is not listed.
   */
  predicate Keep(c: Candidate, today: int, maxDate: int, listing: seq<string>): (keep: bool)
    ensures keep <==>
      && c.fileDate != today && c.fileDate != maxDate
      && c.file + ".xz" !in listing
  {
    c.fileDate != today && c.fileDate != maxDate && c.file + ".xz" !in listing
  }

  /** `selectedFiles.filter(...)`: the candidates the predicate keeps, in order. */
  function Select(cands: seq<Candidate>, today: int, maxDate: int, listing: seq<string>): (r: seq<Candidate>)
    ensures |r| <= |cands|
    ensures forall c :: c in r <==> c in cands && Keep(c, today, maxDate, listing)
  {
    if cands == [] then []
    else
      var rest := Select(cands[1..], today, maxDate, listing);
      if Keep(cands[0], today, maxDate, listing) then [cands[0]] + rest else rest
  }

  /** The selection keeps the candidates' relative order. */
  lemma {:induction false} SelectionKeepsOrder(cands: seq<Candidate>, today: int, maxDate: int, listing: seq<string>)
    ensures IsSubsequence(Select(cands, today, maxDate, listing), cands)
  {
    if cands != [] {
      SelectionKeepsOrder(cands[1..], today, maxDate, listing);
      if !Keep(cands[0], today, maxDate, listing) {
        SubsequenceOfTail(Select(cands[1..], today, maxDate, listing), cands);
      }
    }
  }

  /** Dropping any one candidate makes the selection strictly shorter than the candidates. */
  lemma {:induction false} DroppedCandidateShortens(cands: seq<Candidate>, today: int, maxDate: int, listing: seq<string>, k: nat)
    requires k < |cands| && !Keep(cands[k], today, maxDate, listing)
    ensures |Select(cands, today, maxDate, listing)| < |cands|
  {
    if k > 0 {
      DroppedCandidateShortens(cands[1..], today, maxDate, listing, k - 1);
    }
  }

  /**
   * Once some candidate date is at least 0, the newest candidate is never
   * selected: every selected date is strictly older than the newest one and
   * the selection is strictly shorter than the candidate list.
   */
  lemma NewestFileNeverSelected(cands: seq<Candidate>, today: int, listing: seq<string>)
    requires exists k :: 0 <= k < |cands| && cands[k].fileDate >= 0
    ensures exists k :: (0 <= k < |cands| && cands[k].fileDate == MaxDate(cands)
                         && cands[k] !in Select(cands, today, MaxDate(cands), listing))
    ensures forall c :: c in Select(cands, today, MaxDate(cands), listing) ==> c.fileDate < MaxDate(cands)
    ensures |Select(cands, today, MaxDate(cands), listing)| < |cands|
  {
    var m := MaxDate(cands);
    var j :| 0 <= j < |cands| && cands[j].fileDate >= 0;
    var k :| 0 <= k < |cands| && cands[k].fileDate == m by {
      if m == 0 { assert cands[j].fileDate == m; }
    }
    DroppedCandidateShortens(cands, today, m, listing, k);
  }

  /** Candidates that all have a compressed sibling yield an empty selection. */
  lemma AllCompressedSelectsNothing(cands: seq<Candidate>, today: int, maxDate: int, listing: seq<string>)
    requires forall c :: c in cands ==> c.file + ".xz" in listing
    ensures Select(cands, today, maxDate, listing) == []
  {
  }

  /**
   * Re-running the selection after every selected file has been compressed
   * selects nothing: the files left over are those skipped the first time,
   * and each of them is skipped again as long as the newest date, today and
   * the earlier `.xz` siblings are unchanged.
   */
  lemma RerunSelectsNothing(cands: seq<Candidate>, today: int, maxDate: int, listing: seq<string>,
                            remaining: seq<Candidate>, listingAfter: seq<string>)
    requires forall c :: c in remaining ==> c in cands
    requires forall c :: c in cands && c.file + ".xz" in listing ==> c.file + ".xz" in listingAfter
    requires forall c :: c in Select(cands, today, maxDate, listing) ==> c.file + ".xz" in listingAfter
    ensures Select(remaining, today, maxDate, listingAfter) == []
  {
    var sel := Select(cands, today, maxDate, listing);
    forall c | c in remaining
      ensures !Keep(c, today, maxDate, listingAfter)
    {
      if Keep(c, today, maxDate, listing) {
        assert c in sel;
      }
    }
  }

  /** Dropping candidates never raises the newest date. */
  lemma SublistMaxDate(cands: seq<Candidate>, sub: seq<Candidate>)
    requires forall c :: c in sub ==> c in cands
    ensures MaxDate(sub) <= MaxDate(cands)
  {
    var m := MaxDate(sub);
    if m != 0 {
      var j :| 0 <= j < |sub| && sub[j].fileDate == m;
      assert sub[j] in cands;
    }
  }

  /**
   * Compressing files does not move the newest date, as long as the newest
   * candidate is among those left over.
   */
  lemma NewestDateSurvivesCompression(cands: seq<Candidate>, remaining: seq<Candidate>, k: nat)
    requires forall c :: c in remaining ==> c in cands
    requires k < |remaining| && remaining[k].fileDate == MaxDate(cands)
    ensures MaxDate(remaining) == MaxDate(cands)
  {
    SublistMaxDate(cands, remaining);
  }

  /**
   * Three daily logs, the newest dated today and none compressed: the two
   * older ones are selected.  `xz` then replaces them by their `.xz` files;
   * with a pattern that does not match `.xz` names the next scan finds only
   * the newest log, and nothing is selected.
   */
  lemma ThreeDailyLogs()
    ensures var cands := [Candidate("app-2024-01-01.log", 1), Candidate("app-2024-01-02.log", 2),
                          Candidate("app-2024-01-03.log", 3)];
      var listing := Files(cands);
      && MaxDate(cands) == 3
      && Select(cands, 3, 3, listing) == cands[..2]
      && var after := ["app-2024-01-01.log.xz", "app-2024-01-02.log.xz", "app-2024-01-03.log"];
         MaxDate(cands[2..]) == 3 && Select(cands[2..], 3, MaxDate(cands[2..]), after) == []
  {
    var cands := [Candidate("app-2024-01-01.log", 1), Candidate("app-2024-01-02.log", 2),
                  Candidate("app-2024-01-03.log", 3)];
    var listing := Files(cands);
    assert listing == ["app-2024-01-01.log", "app-2024-01-02.log", "app-2024-01-03.log"];
    assert cands[..2][..1] == cands[..1] && cands[..1][..0] == [];
    assert cands[1..][1..] == cands[2..] && cands[2..][1..] == [];
    assert Select(cands[2..], 3, 3, listing) == [];
    assert Select(cands[1..], 3, 3, listing) == [cands[1]];
    assert cands[2..][..0] == [];
  }

  /**
   * The filter tests `fileDate !== today`, not `fileDate < today`: a file
   * dated after today that is not the newest one is selected.
   */
  lemma FutureDatedFileSelected()
    ensures var cands := [Candidate("a.log", 12), Candidate("b.log", 15)];
      Select(cands, 10, MaxDate(cands), Files(cands)) == cands[..1]
  {
  }

  /**
   * `maxDate` starts at 0, so when every candidate date is below 0 no
   * candidate equals it and the newest file is selected too.
   */
  lemma NegativeDatesSelectNewest()
    ensures var cands := [Candidate("a.log", -3), Candidate("b.log", -1)];
      && MaxDate(cands) == 0
      && Select(cands, 5, MaxDate(cands), Files(cands)) == cands
  {
  }
}
