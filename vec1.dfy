/** A vector that is never empty (src/internals/types/vec1.rs). */
module NonEmpty {
  import opened Wrappers

  /** A growable vector of the standard library: only what `Vec1::append`
      needs of it, its contents. */
  class Vec<T> {
    var elems: seq<T>

    constructor (elems: seq<T>)
      ensures this.elems == elems
    {
      this.elems := elems;
    }
  }

  class Vec1<T> {
    /** The wrapped `Vec`. */
    var elems: seq<T>

    /** The invariant every constructor establishes and every mutator keeps. */
    ghost predicate Valid()
      reads this
    {
      |elems| >= 1
    }

    /** `Vec1::new`: the one-element vector. */
    constructor (t: T)
      ensures Valid()
      ensures elems == [t]
    {
      elems := [t];
    }

    /** The TryFrom success path: wrap a vector already known to be non-empty. */
    constructor Wrap(v: seq<T>)
      requires |v| >= 1
      ensures Valid()
      ensures elems == v
    {
      elems := v;
    }

    /** `push`: `t` goes to the end. */
    method Push(t: T)
      requires Valid()
      modifies this
      ensures Valid()
      ensures elems == old(elems) + [t]
      ensures |elems| == old(|elems|) + 1
    {
      elems := elems + [t];
    }

    /** `append`: the contents of `other` go to the end and `other` is left empty. */
    method Append(other: Vec<T>)
      requires Valid()
      modifies this, other
      ensures Valid()
      ensures elems == old(elems) + old(other.elems)
      ensures other.elems == []
    {
      elems := elems + other.elems;
      other.elems := [];
    }

    /** `into_vec`, `as_vec` and `into_iter`: the same, non-empty, sequence. */
    function AsVec(): (s: seq<T>)
      reads this
      requires Valid()
      ensures |s| >= 1
      ensures s == elems
    {
      elems
    }
  }

  /** `TryFrom<Vec<T>>`: fails exactly on the empty vector. */
  method TryFrom<T>(v: seq<T>) returns (r: Option<Vec1<T>>)
    ensures r.None? <==> |v| == 0
    ensures r.Some? ==> fresh(r.value) && r.value.Valid() && r.value.elems == v
  {
    if |v| == 0 {
      r := None;
    } else {
      var w := new Vec1.Wrap(v);
      r := Some(w);
    }
  }

  /** The `vec1![first, rest...]` macro: `Vec1::new(first)` followed by one
      `push` per further item. */
  method Vec1Of<T>(first: T, rest: seq<T>) returns (v: Vec1<T>)
    ensures fresh(v) && v.Valid()
    ensures v.elems == [first] + rest
  {
    v := new Vec1(first);
    var i := 0;
    while i < |rest|
      invariant 0 <= i <= |rest|
      invariant v.Valid()
      invariant v.elems == [first] + rest[..i]
    {
      v.Push(rest[i]);
      i := i + 1;
    }
    assert rest[..i] == rest;
  }
}
