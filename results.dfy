/** Mapping a fallible step over a list and stopping at the first error:
    the shape of every `for ... { v.push(step(x)?) }` loop in the builders. */
module Results {
  import opened Wrappers

  /** Apply `f` to each position and element in order; the first `Err`
      is the result, otherwise all the values in order. */
  function TryMap<A, B, E>(xs: seq<A>, f: (nat, A) -> Result<B, E>): Result<seq<B>, E>
    decreases |xs|
  {
    if xs == [] then Ok([])
    else match TryMap(xs[..|xs| - 1], f)
      case Err(e) => Err(e)
      case Ok(ys) =>
        match f(|xs| - 1, xs[|xs| - 1])
        case Err(e) => Err(e)
        case Ok(y) => Ok(ys + [y])
  }

  /** Success maps every element in place, and happens exactly when no step
      fails. */
  lemma {:induction false} TryMapOk<A, B, E>(xs: seq<A>, f: (nat, A) -> Result<B, E>)
    ensures TryMap(xs, f).Ok? <==> forall j :: 0 <= j < |xs| ==> f(j, xs[j]).Ok?
    ensures TryMap(xs, f).Ok? ==>
      |TryMap(xs, f).value| == |xs| &&
      forall j :: 0 <= j < |xs| ==> TryMap(xs, f).value[j] == f(j, xs[j]).value
    decreases |xs|
  {
    if xs != [] {
      var p := xs[..|xs| - 1];
      TryMapOk(p, f);
      assert forall j :: 0 <= j < |p| ==> p[j] == xs[j];
    }
  }

  /** Failure is the error of the first failing step. */
  lemma {:induction false} TryMapErr<A, B, E>(xs: seq<A>, f: (nat, A) -> Result<B, E>)
    ensures TryMap(xs, f).Err? ==>
      exists j :: 0 <= j < |xs| && f(j, xs[j]) == Err(TryMap(xs, f).error) &&
        forall l :: 0 <= l < j ==> f(l, xs[l]).Ok?
    decreases |xs|
  {
    if xs != [] {
      var p := xs[..|xs| - 1];
      TryMapErr(p, f);
      TryMapOk(p, f);
      assert forall j :: 0 <= j < |p| ==> p[j] == xs[j];
      if TryMap(p, f).Err? {
        var j :| 0 <= j < |p| && f(j, p[j]) == Err(TryMap(p, f).error) &&
          forall l :: 0 <= l < j ==> f(l, p[l]).Ok?;
        assert f(j, xs[j]) == Err(TryMap(xs, f).error);
      }
    }
  }

  /** One more step after a successful prefix. */
  lemma TryMapSnoc<A, B, E>(xs: seq<A>, i: nat, f: (nat, A) -> Result<B, E>)
    requires i < |xs| && TryMap(xs[..i], f).Ok?
    ensures TryMap(xs[..i + 1], f) ==
      match f(i, xs[i])
      case Err(e) => Err(e)
      case Ok(y) => Ok(TryMap(xs[..i], f).value + [y])
  {
    assert xs[..i + 1][..i] == xs[..i];
  }

  /** A failure in a prefix is the failure of the whole list. */
  lemma {:induction false} TryMapPrefixErr<A, B, E>(xs: seq<A>, i: nat, f: (nat, A) -> Result<B, E>)
    requires i <= |xs| && TryMap(xs[..i], f).Err?
    ensures TryMap(xs, f) == TryMap(xs[..i], f)
    decreases |xs| - i
  {
    if i < |xs| {
      assert xs[..i + 1][..i] == xs[..i];
      TryMapPrefixErr(xs, i + 1, f);
    } else {
      assert xs[..i] == xs;
    }
  }
}
