/**
 * Values shared by the compress-logs model: the outcome of matching one
 * directory entry against the operator's pattern, and the dated candidate
 * record the scan builds from it.
 */
module LogTypes {

  datatype Option<+T> = None | Some(value: T)

  /**
   * What `file.match(pattern)` yields for one directory entry.  A match
   * carries the regex's `groups` object, which is absent when the pattern
   * declares no named group.  Every named group the pattern declares is a
   * key of that object; its value is `None` when the group took no part in
   * the match (JavaScript's `undefined`).
   */
  datatype MatchResult =
    | NoMatch
    | Matched(groups: Option<map<string, Option<string>>>)

  /** One `{file, fileDate}` record: a matching entry and its day number. */
  datatype Candidate = Candidate(file: string, fileDate: int)

  /** The capture names every match must provide (index.js:27). */
  const RequiredFields: seq<string> := ["year", "month", "day"]

  /** The names of a list of candidates, in order. */
  function Files(cs: seq<Candidate>): (r: seq<string>)
    ensures |r| == |cs|
    ensures forall k :: 0 <= k < |cs| ==> r[k] == cs[k].file
  {
    if cs == [] then [] else [cs[0].file] + Files(cs[1..])
  }

  /** `a` is `b` with some elements dropped and the rest in their original order. */
  predicate IsSubsequence<T(==)>(a: seq<T>, b: seq<T>)
  {
    if a == [] then true
    else if b == [] then false
    else if a[0] == b[0] then IsSubsequence(a[1..], b[1..])
    else IsSubsequence(a, b[1..])
  }

  /** A subsequence of a tail is a subsequence of the whole list. */
  lemma {:induction false} SubsequenceOfTail<T>(a: seq<T>, b: seq<T>)
    requires b != [] && IsSubsequence(a, b[1..])
    ensures IsSubsequence(a, b)
    decreases |b|, |a|
  {
    if a != [] && a[0] == b[0] {
      SubsequenceDropHead(a, b[1..]);
    }
  }

  /** Dropping the first element of a subsequence leaves a subsequence. */
  lemma {:induction false} SubsequenceDropHead<T>(a: seq<T>, b: seq<T>)
    requires a != [] && IsSubsequence(a, b)
    ensures IsSubsequence(a[1..], b)
    decreases |b|, |a|
  {
    if a[0] == b[0] {
      if a[1..] != [] { SubsequenceOfTail(a[1..], b); }
    } else {
      SubsequenceDropHead(a, b[1..]);
      SubsequenceOfTail(a[1..], b);
    }
  }
}
