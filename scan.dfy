/**
 * The directory scan (index.js:94-106).  Every entry of the listing is
 * matched against the pattern; entries that do not match are ignored, a
 * match whose captures lack `year`, `month` or `day` aborts the run, and
 * every other match becomes a `{file, fileDate}` record in listing order.
 *
 * The regular-expression engine and `Date.parse` are not modelled: the
 * pattern is a function from a file name to a match result and the date
 * parser a function from the `year-month-day` text to a day number.
 */
module DirectoryScan {
  import opened LogTypes
  import opened RequiredFieldCheck

  /** The abort condition of index.js:98: no groups, or a required group missing. */
  predicate Malformed(m: MatchResult): (bad: bool)
    ensures bad <==> (m.Matched? &&
                      (m.groups.None? || !("year" in m.groups.value && "month" in m.groups.value
                                           && "day" in m.groups.value)))
  {
    m.Matched? && (m.groups.None? || !CheckRequiredFields(m.groups.value.Keys, RequiredFields))
  }

  /** A match that yields a candidate. */
  predicate WellFormed(m: MatchResult)
  {
    m.Matched? && !Malformed(m)
  }

  /** A template-literal substitution: `undefined` for a group that did not take part. */
  function CaptureText(v: Option<string>): string
  {
    match v
    case Some(s) => s
    case None => "undefined"
  }

  /** The day of a well-formed match: the parsed `${year}-${month}-${day}` text (index.js:103). */
  function DayOf(m: MatchResult, parseDay: string -> int): (day: int)
    requires WellFormed(m)
    ensures "year" in m.groups.value && "month" in m.groups.value && "day" in m.groups.value
    ensures var g := m.groups.value;
      day == parseDay(CaptureText(g["year"]) + "-" + CaptureText(g["month"]) + "-" + CaptureText(g["day"]))
  {
    var g := m.groups.value;
    assert "year" in RequiredFields && "month" in RequiredFields && "day" in RequiredFields;
    parseDay(CaptureText(g["year"]) + "-" + CaptureText(g["month"]) + "-" + CaptureText(g["day"]))
  }

  /** The records the scan pushes, in listing order (malformed matches contribute none). */
  function MatchedCandidates(entries: seq<string>, pattern: string -> MatchResult, parseDay: string -> int): seq<Candidate>
  {
    if entries == [] then []
    else
      var m := pattern(entries[0]);
      var rest := MatchedCandidates(entries[1..], pattern, parseDay);
      if WellFormed(m) then [Candidate(entries[0], DayOf(m, parseDay))] + rest else rest
  }

  /** The scan either aborts the run (exit 1) or produces the candidate list. */
  datatype ScanOutcome = PatternInvalid | Scanned(candidates: seq<Candidate>)

  /**
   * The `readdirSync(dir).forEach` loop: it aborts exactly when some entry
   * matches with malformed captures, and otherwise returns the candidates.
   */
  method ScanDirectory(entries: seq<string>, pattern: string -> MatchResult, parseDay: string -> int)
    returns (r: ScanOutcome)
    ensures r.PatternInvalid? <==> exists i :: 0 <= i < |entries| && Malformed(pattern(entries[i]))
    ensures r.Scanned? ==> r.candidates == MatchedCandidates(entries, pattern, parseDay)
  {
    var selected: seq<Candidate> := [];
    var i := 0;
    while i < |entries|
      invariant 0 <= i <= |entries|
      invariant forall j :: 0 <= j < i ==> !Malformed(pattern(entries[j]))
      invariant MatchedCandidates(entries, pattern, parseDay) == selected + MatchedCandidates(entries[i..], pattern, parseDay)
    {
      var file := entries[i];
      assert entries[i..][0] == file && entries[i..][1..] == entries[i + 1..];
      var capture := pattern(file);
      if capture.Matched? {
        if Malformed(capture) {
          return PatternInvalid;
        }
        selected := selected + [Candidate(file, DayOf(capture, parseDay))];
      }
      i := i + 1;
    }
    assert entries[i..] == [];
    r := Scanned(selected);
  }

  /** Every candidate is a listed entry that matched well-formed, dated from its captures. */
  lemma {:induction false} CandidatesComeFromMatches(entries: seq<string>, pattern: string -> MatchResult, parseDay: string -> int, k: nat)
    requires k < |MatchedCandidates(entries, pattern, parseDay)|
    ensures var c := MatchedCandidates(entries, pattern, parseDay)[k];
      c.file in entries && WellFormed(pattern(c.file)) && c.fileDate == DayOf(pattern(c.file), parseDay)
  {
    var m := pattern(entries[0]);
    if WellFormed(m) {
      if k > 0 { CandidatesComeFromMatches(entries[1..], pattern, parseDay, k - 1); }
    } else {
      CandidatesComeFromMatches(entries[1..], pattern, parseDay, k);
    }
  }

  /** Every well-formed match yields a candidate carrying its date. */
  lemma {:induction false} MatchesBecomeCandidates(entries: seq<string>, pattern: string -> MatchResult, parseDay: string -> int, i: nat)
    requires i < |entries| && WellFormed(pattern(entries[i]))
    ensures Candidate(entries[i], DayOf(pattern(entries[i]), parseDay)) in MatchedCandidates(entries, pattern, parseDay)
  {
    if i > 0 {
      MatchesBecomeCandidates(entries[1..], pattern, parseDay, i - 1);
    }
  }

  /** The candidates' names keep the listing order. */
  lemma {:induction false} CandidatesInListingOrder(entries: seq<string>, pattern: string -> MatchResult, parseDay: string -> int)
    ensures IsSubsequence(Files(MatchedCandidates(entries, pattern, parseDay)), entries)
  {
    if entries != [] {
      var rest := MatchedCandidates(entries[1..], pattern, parseDay);
      CandidatesInListingOrder(entries[1..], pattern, parseDay);
      if !WellFormed(pattern(entries[0])) {
        SubsequenceOfTail(Files(rest), entries);
      }
    }
  }
}
