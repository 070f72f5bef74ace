/**
 * The shape every child-walking loop of the loader has: visit the items in
 * order, update a state, stop at the first exception. Specified from the
 * end so that a loop over `xs[..i]` reads its invariant off directly.
 */
module Folds {
  import opened Results

  function Fold<A, S>(xs: seq<A>, init: S, step: (S, A) -> Result<S>): Result<S>
  {
    if xs == [] then Ok(init)
    else
      var acc :- Fold(xs[..|xs| - 1], init, step);
      step(acc, xs[|xs| - 1])
  }

  /** One more item: the fold of a longer prefix is one step after the shorter one. */
  lemma FoldStep<A, S>(xs: seq<A>, i: nat, init: S, step: (S, A) -> Result<S>)
    requires i < |xs|
    ensures Fold(xs[..i + 1], init, step) ==
      match Fold(xs[..i], init, step)
      case Err(e) => Err(e)
      case Ok(acc) => step(acc, xs[i])
  {
    assert xs[..i + 1][..i] == xs[..i];
  }

  /** An exception ends the walk: nothing after it is visited. */
  lemma {:induction false} FoldErr<A, S>(xs: seq<A>, i: nat, init: S, step: (S, A) -> Result<S>)
    requires i <= |xs| && Fold(xs[..i], init, step).Err?
    ensures Fold(xs, init, step) == Fold(xs[..i], init, step)
    decreases |xs| - i
  {
    if i < |xs| {
      FoldStep(xs, i, init, step);
      FoldErr(xs, i + 1, init, step);
    } else {
      assert xs[..i] == xs;
    }
  }

  /** Walking `a + b` is walking `a`, then walking `b` from where `a` left off. */
  lemma {:induction false} FoldAppend<A, S>(a: seq<A>, b: seq<A>, init: S, step: (S, A) -> Result<S>)
    ensures Fold(a + b, init, step) ==
      match Fold(a, init, step)
      case Err(e) => Err(e)
      case Ok(acc) => Fold(b, acc, step)
  {
    if b == [] {
      assert a + b == a;
    } else {
      assert (a + b)[..|a + b| - 1] == a + b[..|b| - 1];
      FoldAppend(a, b[..|b| - 1], init, step);
    }
  }

  /**
   * The same walk seen from the object it updates in place: where the walk
   * stopped, and with which exception. The state is the one reached just
   * before the failing item.
   */
  datatype Walked<S> = Walked(state: S, error: Option<LoadError>)

  function Walk<A, S>(xs: seq<A>, init: S, step: (S, A) -> Result<S>): Walked<S>
  {
    if xs == [] then Walked(init, None)
    else
      var w := Walk(xs[..|xs| - 1], init, step);
      if w.error.Some? then w
      else match step(w.state, xs[|xs| - 1])
        case Ok(s) => Walked(s, None)
        case Err(e) => Walked(w.state, Some(e))
  }

  lemma WalkStep<A, S>(xs: seq<A>, i: nat, init: S, step: (S, A) -> Result<S>)
    requires i < |xs|
    ensures Walk(xs[..i + 1], init, step) ==
      var w := Walk(xs[..i], init, step);
      if w.error.Some? then w
      else match step(w.state, xs[i])
        case Ok(s) => Walked(s, None)
        case Err(e) => Walked(w.state, Some(e))
  {
    assert xs[..i + 1][..i] == xs[..i];
  }

  lemma {:induction false} WalkErr<A, S>(xs: seq<A>, i: nat, init: S, step: (S, A) -> Result<S>)
    requires i <= |xs| && Walk(xs[..i], init, step).error.Some?
    ensures Walk(xs, init, step) == Walk(xs[..i], init, step)
    decreases |xs| - i
  {
    if i < |xs| {
      WalkStep(xs, i, init, step);
      WalkErr(xs, i + 1, init, step);
    } else {
      assert xs[..i] == xs;
    }
  }

  /** The walk fails exactly when the fold does, with the same exception, and otherwise agrees with it. */
  lemma {:induction false} WalkFold<A, S>(xs: seq<A>, init: S, step: (S, A) -> Result<S>)
    ensures Walk(xs, init, step).error.None? <==> Fold(xs, init, step).Ok?
    ensures Fold(xs, init, step).Ok? ==> Walk(xs, init, step).state == Fold(xs, init, step).value
    ensures Fold(xs, init, step).Err? ==> Walk(xs, init, step).error == Some(Fold(xs, init, step).error)
  {
    if xs != [] {
      WalkFold(xs[..|xs| - 1], init, step);
    }
  }
}
