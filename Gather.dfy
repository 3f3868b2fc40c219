/** What the loops of `show()`, `msg()` and `hashes()` build: a Python set filled
    with one value per visited element. */
module Gather {
  import opened Wrappers

  /** The set of `f(x)` over `xs`, filled left to right. */
  function Image<X>(xs: seq<X>, f: X -> string): set<string>
  {
    if xs == [] then {} else Image(xs[..|xs| - 1], f) + {f(xs[|xs| - 1])}
  }

  /** `Image` holds exactly the values of the elements. */
  lemma {:induction false} ImageMembers<X>(xs: seq<X>, f: X -> string)
    ensures forall y :: y in Image(xs, f) <==> exists k :: 0 <= k < |xs| && f(xs[k]) == y
  {
    if xs != [] {
      var init := xs[..|xs| - 1];
      ImageMembers(init, f);
      assert forall k :: 0 <= k < |init| ==> init[k] == xs[k];
    }
  }

  /** Deduplication never adds lines: at most one value per element. */
  lemma {:induction false} ImageBound<X>(xs: seq<X>, f: X -> string)
    ensures |Image(xs, f)| <= |xs|
  {
    if xs != [] {
      ImageBound(xs[..|xs| - 1], f);
    }
  }

  /** The image depends only on which elements occur, not on their order or repetition. */
  lemma ImageSameElements<X>(a: seq<X>, b: seq<X>, f: X -> string)
    requires forall x :: x in a <==> x in b
    ensures Image(a, f) == Image(b, f)
  {
    ImageMembers(a, f);
    ImageMembers(b, f);
    forall y | y in Image(a, f) ensures y in Image(b, f) {
      var k :| 0 <= k < |a| && f(a[k]) == y;
      assert a[k] in b;
      var j :| 0 <= j < |b| && b[j] == a[k];
    }
    forall y | y in Image(b, f) ensures y in Image(a, f) {
      var k :| 0 <= k < |b| && f(b[k]) == y;
      assert b[k] in a;
      var j :| 0 <= j < |a| && a[j] == b[k];
    }
  }

  /** One more loop step adds the value of the next element. */
  lemma ImageStep<X>(xs: seq<X>, i: nat, f: X -> string)
    requires i < |xs|
    ensures Image(xs[..i + 1], f) == Image(xs[..i], f) + {f(xs[i])}
  {
    assert xs[..i + 1][..i] == xs[..i];
  }

  /** Like `Image`, for a value that may raise: the first failing element ends
      the loop with its error. */
  function Collect<X, E>(xs: seq<X>, f: X -> Result<string, E>): Result<set<string>, E>
  {
    if xs == [] then Ok({})
    else
      match Collect(xs[..|xs| - 1], f)
      case Err(e) => Err(e)
      case Ok(s) =>
        match f(xs[|xs| - 1])
        case Err(e) => Err(e)
        case Ok(y) => Ok(s + {y})
  }

  /** One more loop step: the next element's value joins the set, or its error ends the loop. */
  lemma CollectStep<X, E>(xs: seq<X>, x: X, f: X -> Result<string, E>)
    requires Collect(xs, f).Ok?
    ensures f(x).Ok? ==> Collect(xs + [x], f) == Ok(Collect(xs, f).value + {f(x).value})
    ensures f(x).Err? ==> Collect(xs + [x], f) == Err(f(x).error)
  {
    assert (xs + [x])[..|xs + [x]| - 1] == xs;
  }

  /** `Collect` fails exactly when some element fails, with the first failure's error. */
  lemma {:induction false} CollectError<X, E>(xs: seq<X>, f: X -> Result<string, E>)
    ensures Collect(xs, f).Ok? <==> forall k :: 0 <= k < |xs| ==> f(xs[k]).Ok?
    ensures Collect(xs, f).Err? ==>
      exists k :: 0 <= k < |xs| && f(xs[k]).Err? && Collect(xs, f).error == f(xs[k]).error
        && forall j :: 0 <= j < k ==> f(xs[j]).Ok?
  {
    if xs != [] {
      var init := xs[..|xs| - 1];
      CollectError(init, f);
      assert forall k :: 0 <= k < |init| ==> init[k] == xs[k];
    }
  }

  /** When it succeeds, the set holds exactly the values of the elements. */
  lemma {:induction false} CollectMembers<X, E>(xs: seq<X>, f: X -> Result<string, E>)
    requires Collect(xs, f).Ok?
    ensures forall y :: y in Collect(xs, f).value <==> exists k :: 0 <= k < |xs| && f(xs[k]) == Ok(y)
  {
    if xs != [] {
      var init := xs[..|xs| - 1];
      CollectMembers(init, f);
      assert forall k :: 0 <= k < |init| ==> init[k] == xs[k];
    }
  }

  /** At most one value per element. */
  lemma {:induction false} CollectBound<X, E>(xs: seq<X>, f: X -> Result<string, E>)
    requires Collect(xs, f).Ok?
    ensures |Collect(xs, f).value| <= |xs|
  {
    if xs != [] {
      CollectBound(xs[..|xs| - 1], f);
    }
  }

  /** Once a prefix has failed, every longer list fails with the same error. */
  lemma {:induction false} CollectErrorStays<X, E>(xs: seq<X>, more: seq<X>, f: X -> Result<string, E>)
    requires xs <= more && Collect(xs, f).Err?
    ensures Collect(more, f) == Collect(xs, f)
    decreases |more|
  {
    if |more| > |xs| {
      var init := more[..|more| - 1];
      assert xs <= init;
      CollectErrorStays(xs, init, f);
    } else {
      assert xs == more;
    }
  }

  /** Whether `Collect` succeeds, and with what set, depends only on which
      elements occur, not on their order or repetition. */
  lemma CollectSameElements<X, E>(a: seq<X>, b: seq<X>, f: X -> Result<string, E>)
    requires forall x :: x in a <==> x in b
    ensures Collect(a, f).Ok? <==> Collect(b, f).Ok?
    ensures Collect(a, f).Ok? ==> Collect(a, f).value == Collect(b, f).value
  {
    CollectError(a, f);
    CollectError(b, f);
    forall k | 0 <= k < |a| ensures exists j :: 0 <= j < |b| && b[j] == a[k] {
      assert a[k] in b;
    }
    forall k | 0 <= k < |b| ensures exists j :: 0 <= j < |a| && a[j] == b[k] {
      assert b[k] in a;
    }
    if Collect(a, f).Ok? && Collect(b, f).Ok? {
      CollectMembers(a, f);
      CollectMembers(b, f);
    }
  }
}
