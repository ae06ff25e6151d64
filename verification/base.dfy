/** Option and Outcome values, and first/last-match search over a sequence:
    the shape of a Django `.filter(...).first()` query over records that
    the storage layer has already loaded. */
module Base {

  datatype Option<+T> = None | Some(value: T)

  /** The result of a `clean()` validator: it either passes or raises one error. */
  datatype Outcome<+E> = Pass | Fail(error: E)

  /** The result of a validated update: the stored record, or the error. */
  datatype Result<+R, +E> = Success(value: R) | Failure(error: E)

  /** A request field that is absent keeps the stored value; a present one
      replaces it. */
  function Keep<T>(given: Option<T>, stored: T): (r: T)
    ensures given.None? ==> r == stored
    ensures given.Some? ==> r == given.value
  {
    match given
    case Some(v) => v
    case None => stored
  }

  /** The first element of `xs` satisfying `p`, or None. */
  function FindFirst<T>(xs: seq<T>, p: T -> bool): (r: Option<T>)
    ensures r.None? <==> forall i :: 0 <= i < |xs| ==> !p(xs[i])
    ensures r.Some? ==> exists i :: 0 <= i < |xs| && xs[i] == r.value && p(xs[i])
                                    && forall j :: 0 <= j < i ==> !p(xs[j])
  {
    if |xs| == 0 then None
    else if p(xs[0]) then Some(xs[0])
    else
      var r := FindFirst(xs[1..], p);
      assert forall i :: 1 <= i < |xs| ==> xs[i] == xs[1..][i - 1];
      r
  }

  /** The last element of `xs` satisfying `p`, or None: what a dictionary
      built by iterating over `xs` keeps when keys collide. */
  function FindLast<T>(xs: seq<T>, p: T -> bool): (r: Option<T>)
    ensures r.None? <==> forall i :: 0 <= i < |xs| ==> !p(xs[i])
    ensures r.Some? ==> exists i :: 0 <= i < |xs| && xs[i] == r.value && p(xs[i])
                                    && forall j :: i < j < |xs| ==> !p(xs[j])
  {
    if |xs| == 0 then None
    else if p(xs[|xs| - 1]) then Some(xs[|xs| - 1])
    else
      var init := xs[..|xs| - 1];
      var r := FindLast(init, p);
      assert forall i :: 0 <= i < |init| ==> xs[i] == init[i];
      assert r.Some? ==> exists i :: 0 <= i < |xs| && xs[i] == r.value && p(xs[i])
                                     && forall j :: i < j < |xs| ==> !p(xs[j]) by {
        if r.Some? {
          var i :| 0 <= i < |init| && init[i] == r.value && p(init[i])
                   && forall j :: i < j < |init| ==> !p(init[j]);
          assert forall j :: i < j < |xs| ==> !p(xs[j]) by {
            forall j | i < j < |xs| ensures !p(xs[j]) {
              if j < |init| { assert xs[j] == init[j]; }
            }
          }
        }
      }
      r
  }

  /** At most one element of `xs` satisfies `p`. */
  predicate AtMostOne<T>(xs: seq<T>, p: T -> bool) {
    forall i, j :: 0 <= i < |xs| && 0 <= j < |xs| && p(xs[i]) && p(xs[j]) ==> i == j
  }

  /** When the match is unique, first-match and last-match search agree. */
  lemma FirstIsLastWhenUnique<T>(xs: seq<T>, p: T -> bool)
    requires AtMostOne(xs, p)
    ensures FindFirst(xs, p) == FindLast(xs, p)
  {
    var f := FindFirst(xs, p);
    var l := FindLast(xs, p);
    if f.Some? {
      var i :| 0 <= i < |xs| && xs[i] == f.value && p(xs[i]);
      var k :| 0 <= k < |xs| && xs[k] == l.value && p(xs[k]);
      assert i == k;
    }
  }
}
