/**
 * `checkRequiredFields` (index.js:32-46): do the property names of a
 * captures object include every required field?  The source intersects the
 * required list with the set of property names and compares the resulting
 * set with the set of required names by size and inclusion.
 */
module RequiredFieldCheck {

  /** `a.filter(Set.prototype.has, b)`: the elements of `a` that are in `b`, in order. */
  function Intersect(a: seq<string>, b: set<string>): (r: seq<string>)
    ensures forall x :: x in r <==> x in a && x in b
    ensures |r| <= |a|
  {
    if a == [] then []
    else if a[0] in b then [a[0]] + Intersect(a[1..], b)
    else Intersect(a[1..], b)
  }

  /**
   * `setsEqual`: equal sizes and every element of `a` is in `b`, which for
   * finite sets is exactly set equality.
   */
  predicate SetsEqual(a: set<string>, b: set<string>): (eq: bool)
    ensures eq <==> a == b
  {
    SameSizeSubsetIsEqual(a, b);
    |a| == |b| && forall k :: k in a ==> k in b
  }

  /** The set of the elements of a list, as `new Set(list)` builds it. */
  function SetOf(a: seq<string>): (s: set<string>)
    ensures forall x :: x in s <==> x in a
  {
    set x | x in a
  }

  /** A subset is never larger than the set containing it. */
  lemma {:induction false} SubsetSize(a: set<string>, b: set<string>)
    requires a <= b
    ensures |a| <= |b|
    decreases |a|
  {
    if a != {} {
      var y :| y in a;
      SubsetSize(a - {y}, b - {y});
    }
  }

  /**
   * A subset of `b` of the same size as `b` is `b` itself; the converse
   * direction of `setsEqual` needs this.
   */
  lemma SameSizeSubsetIsEqual(a: set<string>, b: set<string>)
    ensures a <= b && |a| == |b| ==> a == b
  {
    if a <= b && a != b {
      var x :| x in b && x !in a;
      SubsetSize(a, b - {x});
    }
  }

  /**
   * The check succeeds exactly when every required name is a key of the
   * captures object; extra keys and repeated required names do not matter.
   */
  function CheckRequiredFields(keys: set<string>, required: seq<string>): (ok: bool)
    ensures ok <==> forall f :: f in required ==> f in keys
  {
    var intersection := SetOf(Intersect(required, keys));
    var wanted := SetOf(required);
    SetsEqual(intersection, wanted)
  }
}
