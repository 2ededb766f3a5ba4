/** Optional values, which stand for a JavaScript value that may be `undefined` or `null`,
    and the filter-and-map over a sequence that keeps the defined ones. */
module Wrappers {
  datatype Option<+T> = None | Some(value: T)

  /** The values `f` yields over `xs`, in order, skipping the elements it yields none for. */
  function Collect<A, T>(xs: seq<A>, f: A -> Option<T>): (r: seq<T>)
    ensures |r| <= |xs|
  {
    if xs == [] then []
    else
      var prefix := Collect(xs[..|xs| - 1], f);
      match f(xs[|xs| - 1])
      case Some(e) => prefix + [e]
      case None => prefix
  }

  /** One more element extends the collected values by its own, if any. */
  lemma CollectNext<A, T>(xs: seq<A>, x: A, f: A -> Option<T>)
    ensures Collect(xs + [x], f) == Collect(xs, f) + (if f(x).Some? then [f(x).value] else [])
  {
    assert (xs + [x])[..|xs|] == xs;
  }

  /** Collecting over a concatenation collects over each part in turn. */
  lemma {:induction false} CollectAppend<A, T>(xs: seq<A>, ys: seq<A>, f: A -> Option<T>)
    ensures Collect(xs + ys, f) == Collect(xs, f) + Collect(ys, f)
    decreases |ys|
  {
    if ys == [] {
      assert xs + ys == xs;
    } else {
      var init, y := ys[..|ys| - 1], ys[|ys| - 1];
      assert ys == init + [y];
      assert xs + ys == (xs + init) + [y];
      CollectAppend(xs, init, f);
      CollectNext(xs + init, y, f);
      CollectNext(init, y, f);
    }
  }

  /** A value is collected exactly when some element yields it. */
  lemma {:induction false} CollectMembers<A, T>(xs: seq<A>, f: A -> Option<T>, e: T)
    ensures e in Collect(xs, f) <==> exists k :: 0 <= k < |xs| && f(xs[k]) == Some(e)
  {
    if xs != [] {
      var init, x := xs[..|xs| - 1], xs[|xs| - 1];
      assert xs == init + [x];
      CollectMembers(init, f, e);
      CollectNext(init, x, f);
      if exists k :: 0 <= k < |init| && f(init[k]) == Some(e) {
        var k :| 0 <= k < |init| && f(init[k]) == Some(e);
        assert xs[k] == init[k];
      }
      if exists k :: 0 <= k < |xs| && f(xs[k]) == Some(e) {
        var k :| 0 <= k < |xs| && f(xs[k]) == Some(e);
        if k < |init| {
          assert init[k] == xs[k];
        }
      }
    }
  }
}
