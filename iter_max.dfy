/** `iter_max_map` (src/internals/utils.rs): of the items of an iterator,
    keep those whose evaluation is maximal, mapped through a second
    function, in iteration order. The ordered key type is modelled as `int`. */
module IterMax {

  /** The largest evaluation of a non-empty list. */
  function MaxOf<T>(xs: seq<T>, eval: T -> int): int
    requires |xs| >= 1
  {
    if |xs| == 1 then eval(xs[0])
    else var m := MaxOf(xs[..|xs| - 1], eval);
      if m < eval(xs[|xs| - 1]) then eval(xs[|xs| - 1]) else m
  }

  /** The items evaluating to `m`, in order. */
  function Select<T>(xs: seq<T>, eval: T -> int, m: int): seq<T>
  {
    if xs == [] then []
    else Select(xs[..|xs| - 1], eval, m) + (if eval(xs[|xs| - 1]) == m then [xs[|xs| - 1]] else [])
  }

  function Map<T, W>(xs: seq<T>, f: T -> W): (r: seq<W>)
    ensures |r| == |xs|
    ensures forall j :: 0 <= j < |xs| ==> r[j] == f(xs[j])
  {
    if xs == [] then [] else Map(xs[..|xs| - 1], f) + [f(xs[|xs| - 1])]
  }

  /** The value `iter_max_map` returns. */
  function MaxMapped<T, W>(xs: seq<T>, eval: T -> int, f: T -> W): seq<W>
  {
    if xs == [] then [] else Map(Select(xs, eval, MaxOf(xs, eval)), f)
  }

  /** `iter_max_map`: `cur` holds the best evaluation so far and `v` the
      mapped items that reach it; a strictly better item clears `v`. */
  method IterMaxMap<T, W>(xs: seq<T>, eval: T -> int, f: T -> W) returns (v: seq<W>)
    ensures v == MaxMapped(xs, eval, f)
    ensures |v| == 0 <==> |xs| == 0
  {
    var cur: int := 0;
    var seen := false;
    v := [];
    var i := 0;
    while i < |xs|
      invariant 0 <= i <= |xs|
      invariant seen <==> i > 0
      invariant seen ==> cur == MaxOf(xs[..i], eval)
      invariant v == MaxMapped(xs[..i], eval, f)
    {
      var x := xs[i];
      ghost var ys := xs[..i + 1];
      assert ys[..i] == xs[..i] && ys[i] == x;
      if seen {
        var e := eval(x);
        if cur == e {
          MapSnoc(Select(xs[..i], eval, cur), x, f);
          v := v + [f(x)];
        } else if cur < e {
          SelectAllBelow(xs[..i], eval, e);
          assert Select(ys, eval, e) == [x];
          cur := e;
          v := [f(x)];
        }
      } else {
        assert ys == [x];
        assert Select(ys, eval, eval(x)) == [x];
        cur := eval(x);
        seen := true;
        v := [f(x)];
      }
      i := i + 1;
    }
    assert xs[..i] == xs;
    if |xs| > 0 {
      MaxIsReached(xs, eval);
    }
  }

  lemma MapSnoc<T, W>(xs: seq<T>, x: T, f: T -> W)
    ensures Map(xs + [x], f) == Map(xs, f) + [f(x)]
  {
    assert (xs + [x])[..|xs|] == xs;
  }

  /** Nothing is selected at a value above every evaluation. */
  lemma {:induction false} SelectAllBelow<T>(xs: seq<T>, eval: T -> int, m: int)
    requires |xs| >= 1 && MaxOf(xs, eval) < m
    ensures Select(xs, eval, m) == []
    decreases |xs|
  {
    if |xs| > 1 {
      SelectAllBelow(xs[..|xs| - 1], eval, m);
    }
  }

  /** The maximum is an upper bound of every evaluation and is reached. */
  lemma {:induction false} MaxOfIsMax<T>(xs: seq<T>, eval: T -> int)
    requires |xs| >= 1
    ensures forall j :: 0 <= j < |xs| ==> eval(xs[j]) <= MaxOf(xs, eval)
    ensures exists j :: 0 <= j < |xs| && eval(xs[j]) == MaxOf(xs, eval)
    decreases |xs|
  {
    if |xs| > 1 {
      var ys := xs[..|xs| - 1];
      MaxOfIsMax(ys, eval);
      var j :| 0 <= j < |ys| && eval(ys[j]) == MaxOf(ys, eval);
      if MaxOf(xs, eval) == MaxOf(ys, eval) {
        assert eval(xs[j]) == MaxOf(xs, eval);
      } else {
        assert eval(xs[|xs| - 1]) == MaxOf(xs, eval);
      }
    } else {
      assert eval(xs[0]) == MaxOf(xs, eval);
    }
  }

  /** An item is selected at `m` exactly when it is in the list and
      evaluates to `m`; the selection keeps list order. */
  lemma {:induction false} SelectMembers<T>(xs: seq<T>, eval: T -> int, m: int)
    ensures forall x :: x in Select(xs, eval, m) <==> x in xs && eval(x) == m
    ensures |Select(xs, eval, m)| <= |xs|
    decreases |xs|
  {
    if xs != [] {
      var ys := xs[..|xs| - 1];
      SelectMembers(ys, eval, m);
      assert xs == ys + [xs[|xs| - 1]];
    }
  }

  /** A non-empty list has at least one item of maximal evaluation. */
  lemma MaxIsReached<T>(xs: seq<T>, eval: T -> int)
    requires |xs| >= 1
    ensures |Select(xs, eval, MaxOf(xs, eval))| >= 1
  {
    MaxOfIsMax(xs, eval);
    var j :| 0 <= j < |xs| && eval(xs[j]) == MaxOf(xs, eval);
    SelectMembers(xs, eval, MaxOf(xs, eval));
    assert xs[j] in Select(xs, eval, MaxOf(xs, eval));
  }

  /** What `iter_max_map` promises: its result is the image under `f` of
      exactly the items whose evaluation no other item exceeds. */
  lemma MaxMappedSpec<T, W>(xs: seq<T>, eval: T -> int, f: T -> W)
    requires |xs| >= 1
    ensures var sel := Select(xs, eval, MaxOf(xs, eval));
      MaxMapped(xs, eval, f) == Map(sel, f) &&
      |sel| >= 1 &&
      (forall x :: x in sel <==> x in xs && forall j :: 0 <= j < |xs| ==> eval(xs[j]) <= eval(x))
  {
    var m := MaxOf(xs, eval);
    MaxOfIsMax(xs, eval);
    MaxIsReached(xs, eval);
    SelectMembers(xs, eval, m);
    var sel := Select(xs, eval, m);
    forall x
      ensures x in sel <==> x in xs && forall j :: 0 <= j < |xs| ==> eval(xs[j]) <= eval(x)
    {
      if x in xs && forall j :: 0 <= j < |xs| ==> eval(xs[j]) <= eval(x) {
        var j :| 0 <= j < |xs| && eval(xs[j]) == m;
        var l :| 0 <= l < |xs| && xs[l] == x;
        assert eval(x) == m;
      }
    }
  }

  /** With the identity as both functions, every copy of the maximum is kept. */
  lemma IterMaxMapExample()
    ensures MaxMapped([3, 7, 2, 7], (x: int) => x, (x: int) => x) == [7, 7]
  {
    var xs := [3, 7, 2, 7];
    var id := (x: int) => x;
    assert xs[..3] == [3, 7, 2];
    assert xs[..3][..2] == [3, 7];
    assert xs[..3][..2][..1] == [3];
    assert MaxOf([3], id) == 3;
    assert MaxOf([3, 7], id) == 7;
    assert MaxOf([3, 7, 2], id) == 7;
    assert MaxOf(xs, id) == 7;
    assert Select([3], id, 7) == [];
    assert Select([3, 7], id, 7) == [7];
    assert Select([3, 7, 2], id, 7) == [7];
    assert Select(xs, id, 7) == [7, 7];
    assert [7, 7][..1] == [7];
    assert Map([7, 7], id) == [7, 7];
  }
}
