/** Interval merging (src/utils.rs and the identical `interval_merging`
    module of src/internals/utils.rs): inserting an interval into a sorted,
    gap-separated interval list, and normalising a list of ranges. */
module Intervals {
  import opened Wrappers
  import opened Types
  import Seqs

  /** A closed interval `(lo, hi)` of version numbers. */
  type Interval = (Version, Version)
  type ISet = seq<Interval>

  predicate InInterval(a: Interval, x: int)
  {
    a.0 <= x <= a.1
  }

  predicate WellFormed(a: Interval)
  {
    a.0 <= a.1
  }

  /** `less_no_overlap`: `a` ends at least one integer before `b` starts. */
  predicate LessNoOverlap(a: Interval, b: Interval)
  {
    a.1 + 1 < b.0
  }

  predicate GreaterNoOverlap(a: Interval, b: Interval)
  {
    LessNoOverlap(b, a)
  }

  /** `overlaps`: the intervals share an integer or touch end to end. */
  predicate Overlaps(a: Interval, b: Interval)
  {
    !(LessNoOverlap(a, b) || GreaterNoOverlap(a, b))
  }

  /** `merge`: the smallest interval spanning both. */
  function Merge(a: Interval, b: Interval): Interval
  {
    (if a.0 <= b.0 then a.0 else b.0, if a.1 >= b.1 then a.1 else b.1)
  }

  /** For well-formed intervals, `overlaps` is exactly the case in which the
      span computed by `merge` adds no integer that neither interval held;
      in particular intervals that merely touch overlap. */
  lemma OverlapsIffMergeIsUnion(a: Interval, b: Interval)
    requires WellFormed(a) && WellFormed(b)
    ensures Overlaps(a, b) <==>
              forall x :: InInterval(Merge(a, b), x) ==> InInterval(a, x) || InInterval(b, x)
  {
    if !Overlaps(a, b) {
      var gap := if LessNoOverlap(a, b) then a.1 + 1 else b.1 + 1;
      assert InInterval(Merge(a, b), gap) && !InInterval(a, gap) && !InInterval(b, gap);
    }
  }

  /** Intervals that merely touch (`a.1 + 1 == b.0`) count as overlapping
      and are merged into one. */
  lemma TouchingMerge(a: Interval, b: Interval)
    requires WellFormed(a) && WellFormed(b) && a.1 + 1 == b.0
    ensures Overlaps(a, b) && Overlaps(b, a)
    ensures Inserted([a], b) == [(a.0, b.1)]
    ensures Inserted([b], a) == [(a.0, b.1)]
  {
    assert CountBefore([a], b) == 0 && CountTouching([a], b) == 1;
    assert [a][0..] == [a] && [a][0..1] == [a] && [a][1..] == [];
    assert MergeAll(b, [a]) == Merge(b, a);
    assert CountBefore([b], a) == 0 && CountTouching([b], a) == 1;
    assert [b][0..] == [b] && [b][0..1] == [b] && [b][1..] == [];
    assert MergeAll(a, [b]) == Merge(a, b);
  }

  /** The integers an interval list covers. */
  predicate Covers(s: ISet, x: int)
  {
    exists j :: 0 <= j < |s| && InInterval(s[j], x)
  }

  /** Sorted, well-formed and gap-separated: the form `merge_insert` keeps. */
  predicate Normalised(s: ISet)
  {
    && (forall j :: 0 <= j < |s| ==> WellFormed(s[j]))
    && (forall j :: 0 <= j < |s| - 1 ==> LessNoOverlap(s[j], s[j + 1]))
  }

  // ---------------------------------------------------------------------
  // merge_insert, as a function

  /** Length of the leading run of intervals wholly before `i`. */
  function CountBefore(s: ISet, i: Interval): (k: nat)
    ensures k <= |s|
  {
    if s == [] || !LessNoOverlap(s[0], i) then 0 else 1 + CountBefore(s[1..], i)
  }

  /** Length of the leading run of intervals overlapping `i`. */
  function CountTouching(s: ISet, i: Interval): (k: nat)
    ensures k <= |s|
  {
    if s == [] || !Overlaps(s[0], i) then 0 else 1 + CountTouching(s[1..], i)
  }

  /** `CountBefore` counts exactly the leading intervals wholly before `i`. */
  lemma {:induction false} CountBeforeSpec(s: ISet, i: Interval)
    ensures forall j :: 0 <= j < CountBefore(s, i) ==> LessNoOverlap(s[j], i)
    ensures CountBefore(s, i) < |s| ==> !LessNoOverlap(s[CountBefore(s, i)], i)
    decreases |s|
  {
    if s != [] && LessNoOverlap(s[0], i) {
      CountBeforeSpec(s[1..], i);
    }
  }

  /** `CountTouching` counts exactly the leading intervals overlapping `i`. */
  lemma {:induction false} CountTouchingSpec(s: ISet, i: Interval)
    ensures forall j :: 0 <= j < CountTouching(s, i) ==> Overlaps(s[j], i)
    ensures CountTouching(s, i) < |s| ==> !Overlaps(s[CountTouching(s, i)], i)
    decreases |s|
  {
    if s != [] && Overlaps(s[0], i) {
      CountTouchingSpec(s[1..], i);
    }
  }

  /** `merged = merge(merged, *i)` over a run of intervals. */
  function MergeAll(m: Interval, t: ISet): Interval
    decreases |t|
  {
    if t == [] then m else MergeAll(Merge(m, t[0]), t[1..])
  }

  /** The three phases of `merge_insert`: the intervals wholly before,
      the span of `i` with the overlapping run, then everything else. */
  function Inserted(s: ISet, i: Interval): ISet
  {
    var k := CountBefore(s, i);
    var m := k + CountTouching(s[k..], i);
    s[..k] + [MergeAll(i, s[k..m])] + s[m..]
  }

  lemma {:induction false} MergeAllSnoc(m: Interval, t: ISet, a: Interval)
    ensures MergeAll(m, t + [a]) == Merge(MergeAll(m, t), a)
    decreases |t|
  {
    if t != [] {
      assert (t + [a])[1..] == t[1..] + [a];
      MergeAllSnoc(Merge(m, t[0]), t[1..], a);
    }
  }

  /** `merge_insert` (src/utils.rs:29-56): three loops over the list. */
  method MergeInsert(ivs: ISet, interval: Interval) returns (result: ISet)
    ensures result == Inserted(ivs, interval)
  {
    result := [];
    var merged := interval;
    var n := 0;
    while n < |ivs| && LessNoOverlap(ivs[n], interval)
      invariant 0 <= n <= |ivs|
      invariant result == ivs[..n]
      invariant forall j :: 0 <= j < n ==> LessNoOverlap(ivs[j], interval)
    {
      result := result + [ivs[n]];
      n := n + 1;
    }
    var k := n;
    CountBeforeIs(ivs, interval, k);
    while n < |ivs| && Overlaps(ivs[n], interval)
      invariant k <= n <= |ivs|
      invariant forall j :: k <= j < n ==> Overlaps(ivs[j], interval)
      invariant merged == MergeAll(interval, ivs[k..n])
    {
      Seqs.SliceSnoc(ivs, k, n);
      MergeAllSnoc(interval, ivs[k..n], ivs[n]);
      merged := Merge(merged, ivs[n]);
      n := n + 1;
    }
    var m := n;
    CountTouchingIs(ivs, interval, k, m);
    result := result + [merged];
    ghost var head := result;
    while n < |ivs|
      invariant m <= n <= |ivs|
      invariant result == head + ivs[m..n]
    {
      TailSnoc(head, ivs, m, n);
      result := result + [ivs[n]];
      n := n + 1;
    }
    assert ivs[m..n] == ivs[m..];
    InsertedSplit(ivs, interval, k, m);
  }

  /** Where the first loop of `merge_insert` stops is `CountBefore`. */
  lemma {:induction false} CountBeforeIs(s: ISet, i: Interval, k: nat)
    requires k <= |s|
    requires forall j :: 0 <= j < k ==> LessNoOverlap(s[j], i)
    requires k < |s| ==> !LessNoOverlap(s[k], i)
    ensures k == CountBefore(s, i)
    decreases k
  {
    if k > 0 {
      assert forall j :: 0 <= j < k - 1 ==> s[1..][j] == s[j + 1];
      CountBeforeIs(s[1..], i, k - 1);
    }
  }

  /** Where the second loop of `merge_insert` stops is `k` plus
      `CountTouching`. */
  lemma CountTouchingIs(s: ISet, i: Interval, k: nat, m: nat)
    requires k <= m <= |s|
    requires forall j :: k <= j < m ==> Overlaps(s[j], i)
    requires m < |s| ==> !Overlaps(s[m], i)
    ensures m == k + CountTouching(s[k..], i)
  {
    CountTouchingFrom(s[k..], i, m - k);
  }

  lemma {:induction false} CountTouchingFrom(t: ISet, i: Interval, n: nat)
    requires n <= |t|
    requires forall j :: 0 <= j < n ==> Overlaps(t[j], i)
    requires n < |t| ==> !Overlaps(t[n], i)
    ensures n == CountTouching(t, i)
    decreases n
  {
    if n > 0 {
      assert forall j :: 0 <= j < n - 1 ==> t[1..][j] == t[j + 1];
      CountTouchingFrom(t[1..], i, n - 1);
    }
  }

  /** One step of the third loop of `merge_insert`: the next interval is
      copied. */
  lemma TailSnoc(head: ISet, s: ISet, m: nat, n: nat)
    requires m <= n < |s|
    ensures head + s[m..n + 1] == head + s[m..n] + [s[n]]
  {
    Seqs.SliceSnoc(s, m, n);
  }

  lemma InsertedSplit(s: ISet, i: Interval, k: nat, m: nat)
    requires k == CountBefore(s, i) && m == k + CountTouching(s[k..], i)
    ensures Inserted(s, i) == s[..k] + [MergeAll(i, s[k..m])] + s[m..]
  {
  }

  // ---------------------------------------------------------------------
  // Coverage: merge_insert adds exactly the integers of the new interval

  lemma CoversConcat(a: ISet, b: ISet)
    ensures forall x :: Covers(a + b, x) <==> Covers(a, x) || Covers(b, x)
  {
    forall x
      ensures Covers(a + b, x) <==> Covers(a, x) || Covers(b, x)
    {
      if Covers(a + b, x) {
        var j :| 0 <= j < |a + b| && InInterval((a + b)[j], x);
        if j >= |a| {
          assert InInterval(b[j - |a|], x);
        }
      }
      if Covers(b, x) {
        var j :| 0 <= j < |b| && InInterval(b[j], x);
        assert InInterval((a + b)[|a| + j], x);
      }
      if Covers(a, x) {
        var j :| 0 <= j < |a| && InInterval(a[j], x);
        assert InInterval((a + b)[j], x);
      }
    }
  }

  /** What the running span `merged` satisfies with respect to the inserted
      interval `i`: a well-formed span around `i`, or, when `i` is reversed
      (and so covers nothing), `i` itself or a span reaching across it. */
  ghost predicate SpanInv(m: Interval, i: Interval)
  {
    if WellFormed(i) then WellFormed(m) && m.0 <= i.0 && i.1 <= m.1
    else m == i || (WellFormed(m) && m.0 <= i.1 + 1 && i.0 <= m.1 + 1)
  }

  lemma MergeStep(m: Interval, i: Interval, a: Interval)
    requires SpanInv(m, i) && Overlaps(a, i)
    ensures SpanInv(Merge(m, a), i)
    ensures forall x :: InInterval(Merge(m, a), x) <==> InInterval(m, x) || InInterval(a, x)
  {
  }

  lemma {:induction false} MergeAllCovers(m: Interval, i: Interval, t: ISet)
    requires SpanInv(m, i)
    requires forall j :: 0 <= j < |t| ==> Overlaps(t[j], i)
    ensures SpanInv(MergeAll(m, t), i)
    ensures forall x :: InInterval(MergeAll(m, t), x) <==> InInterval(m, x) || Covers(t, x)
    decreases |t|
  {
    if t != [] {
      MergeStep(m, i, t[0]);
      MergeAllCovers(Merge(m, t[0]), i, t[1..]);
      CoversConcat([t[0]], t[1..]);
      assert [t[0]] + t[1..] == t;
    }
  }

  /** The integers covered after `merge_insert` are the old ones together
      with those of the inserted interval, whatever list it is given. */
  lemma InsertedCovers(s: ISet, i: Interval)
    ensures forall x :: Covers(Inserted(s, i), x) <==> Covers(s, x) || InInterval(i, x)
  {
    var k := CountBefore(s, i);
    var m := k + CountTouching(s[k..], i);
    TouchingRun(s, i, k, m);
    MergeAllCovers(i, i, s[k..m]);
    CoversAround(s[..k], MergeAll(i, s[k..m]), s[m..]);
    CoversSplit(s, k, m);
  }

  /** A list with one interval in the middle covers what the three parts
      cover. */
  lemma CoversAround(a: ISet, v: Interval, b: ISet)
    ensures forall x :: Covers(a + [v] + b, x) <==> Covers(a, x) || InInterval(v, x) || Covers(b, x)
  {
    CoversConcat(a + [v], b);
    CoversConcat(a, [v]);
    forall x
      ensures Covers([v], x) <==> InInterval(v, x)
    {
      if InInterval(v, x) {
        assert InInterval([v][0], x);
      }
    }
  }

  /** A list covers what its three slices at `k` and `m` cover. */
  lemma CoversSplit(s: ISet, k: nat, m: nat)
    requires k <= m <= |s|
    ensures forall x :: Covers(s, x) <==> Covers(s[..k], x) || Covers(s[k..m], x) || Covers(s[m..], x)
  {
    CoversConcat(s[..k], s[k..m]);
    CoversConcat(s[..k] + s[k..m], s[m..]);
    assert s[..k] + s[k..m] + s[m..] == s;
  }

  // ---------------------------------------------------------------------
  // Normal form: merge_insert keeps a normalised list normalised

  lemma {:induction false} NormalisedOrdered(s: ISet, j: nat, l: nat)
    requires Normalised(s) && j < l < |s|
    ensures LessNoOverlap(s[j], s[l])
    decreases l - j
  {
    if j + 1 < l {
      NormalisedOrdered(s, j + 1, l);
    }
  }

  lemma {:induction false} MergeAllLower(m: Interval, t: ISet, lo: int)
    requires lo <= m.0
    requires forall j :: 0 <= j < |t| ==> lo <= t[j].0
    ensures lo <= MergeAll(m, t).0
    decreases |t|
  {
    if t != [] {
      MergeAllLower(Merge(m, t[0]), t[1..], lo);
    }
  }

  lemma {:induction false} MergeAllUpper(m: Interval, t: ISet, hi: int)
    requires m.1 <= hi
    requires forall j :: 0 <= j < |t| ==> t[j].1 <= hi
    ensures MergeAll(m, t).1 <= hi
    decreases |t|
  {
    if t != [] {
      MergeAllUpper(Merge(m, t[0]), t[1..], hi);
    }
  }

  lemma NormalisedConcat(a: ISet, b: ISet)
    requires Normalised(a) && Normalised(b)
    requires a != [] && b != [] ==> LessNoOverlap(a[|a| - 1], b[0])
    ensures Normalised(a + b)
  {
    var c := a + b;
    forall j | 0 <= j < |c| - 1
      ensures LessNoOverlap(c[j], c[j + 1])
    {
      if j < |a| - 1 {
        assert c[j] == a[j] && c[j + 1] == a[j + 1];
      } else if j == |a| - 1 {
        assert c[j] == a[|a| - 1] && c[j + 1] == b[0];
      } else {
        assert c[j] == b[j - |a|] && c[j + 1] == b[j - |a| + 1];
      }
    }
  }

  lemma NormalisedSlice(s: ISet, lo: nat, hi: nat)
    requires Normalised(s) && lo <= hi <= |s|
    ensures Normalised(s[lo..hi])
  {
    var t := s[lo..hi];
    forall j | 0 <= j < |t| - 1
      ensures LessNoOverlap(t[j], t[j + 1])
    {
      assert t[j] == s[lo + j] && t[j + 1] == s[lo + j + 1];
    }
  }

  /** The run `s[k..m]` that `merge_insert` merges all overlaps `i`. */
  lemma TouchingRun(s: ISet, i: Interval, k: nat, m: nat)
    requires k == CountBefore(s, i) && m == k + CountTouching(s[k..], i)
    ensures k <= m <= |s|
    ensures forall j :: 0 <= j < k ==> LessNoOverlap(s[j], i)
    ensures k < |s| ==> !LessNoOverlap(s[k], i)
    ensures forall j :: k <= j < m ==> Overlaps(s[j], i)
    ensures m < |s| ==> !Overlaps(s[m], i)
    ensures forall j :: 0 <= j < |s[k..m]| ==> Overlaps(s[k..m][j], i)
  {
    CountBeforeSpec(s, i);
    CountTouchingSpec(s[k..], i);
    var t := s[k..m];
    assert forall j :: 0 <= j < |t| ==> t[j] == s[k..][j] == s[k + j];
    assert forall j :: k <= j < m ==> s[j] == s[k..][j - k];
    assert m < |s| ==> s[m] == s[k..][m - k];
  }

  /** The intervals before the merged one, then the merged one, are
      normalised. */
  lemma InsertedPrefixNormalised(s: ISet, i: Interval, k: nat, m: nat)
    requires Normalised(s) && WellFormed(i)
    requires k == CountBefore(s, i) && m == k + CountTouching(s[k..], i)
    ensures WellFormed(MergeAll(i, s[k..m]))
    ensures Normalised(s[..k] + [MergeAll(i, s[k..m])])
  {
    TouchingRun(s, i, k, m);
    var t := s[k..m];
    MergeAllCovers(i, i, t);
    NormalisedSlice(s, 0, k);
    assert s[0..k] == s[..k];
    if k > 0 {
      forall j | 0 <= j < |t|
        ensures s[k - 1].1 + 2 <= t[j].0
      {
        NormalisedOrdered(s, k - 1, k + j);
      }
      MergeAllLower(i, t, s[k - 1].1 + 2);
    }
    NormalisedConcat(s[..k], [MergeAll(i, t)]);
  }

  /** The intervals after the merged run stay normalised, and the merged
      interval ends more than one integer before the first of them. */
  lemma InsertedSuffixNormalised(s: ISet, i: Interval, k: nat, m: nat)
    requires Normalised(s) && WellFormed(i)
    requires k == CountBefore(s, i) && m == k + CountTouching(s[k..], i)
    ensures Normalised(s[m..])
    ensures s[m..] != [] ==> LessNoOverlap(MergeAll(i, s[k..m]), s[m..][0])
  {
    TouchingRun(s, i, k, m);
    NormalisedSlice(s, m, |s|);
    assert s[m..|s|] == s[m..];
    if m < |s| {
      var t := s[k..m];
      assert s[m] == s[k..][m - k] == s[m..][0];
      assert !Overlaps(s[m], i);
      if m == k {
        assert !LessNoOverlap(s[m], i);
      } else {
        assert Overlaps(s[m - 1], i) by {
          assert s[m - 1] == t[m - 1 - k];
        }
        NormalisedOrdered(s, m - 1, m);
      }
      assert GreaterNoOverlap(s[m], i);
      forall j | 0 <= j < |t|
        ensures t[j].1 <= s[m].0 - 2
      {
        NormalisedOrdered(s, k + j, m);
      }
      MergeAllUpper(i, t, s[m].0 - 2);
    }
  }

  /** A sorted, well-formed, gap-separated list stays so after inserting a
      well-formed interval. */
  lemma InsertedNormalised(s: ISet, i: Interval)
    requires Normalised(s) && WellFormed(i)
    ensures Normalised(Inserted(s, i))
  {
    var k := CountBefore(s, i);
    var m := k + CountTouching(s[k..], i);
    var left := s[..k] + [MergeAll(i, s[k..m])];
    assert Inserted(s, i) == left + s[m..];
    InsertedPrefixNormalised(s, i, k, m);
    InsertedSuffixNormalised(s, i, k, m);
    NormalisedConcat(left, s[m..]);
  }

  // ---------------------------------------------------------------------
  // The untouched intervals: wholly-before ones stay a prefix, wholly-after
  // ones a suffix

  function Filter(s: ISet, p: Interval -> bool): (r: ISet)
    ensures |r| <= |s|
  {
    if s == [] then [] else (if p(s[0]) then [s[0]] else []) + Filter(s[1..], p)
  }

  lemma {:induction false} FilterConcat(a: ISet, b: ISet, p: Interval -> bool)
    ensures Filter(a + b, p) == Filter(a, p) + Filter(b, p)
    decreases |a|
  {
    if a != [] {
      assert (a + b)[1..] == a[1..] + b;
      FilterConcat(a[1..], b, p);
    } else {
      assert a + b == b;
    }
  }

  lemma {:induction false} FilterAll(s: ISet, p: Interval -> bool)
    requires forall j :: 0 <= j < |s| ==> p(s[j])
    ensures Filter(s, p) == s
    decreases |s|
  {
    if s != [] {
      FilterAll(s[1..], p);
    }
  }

  lemma {:induction false} FilterNone(s: ISet, p: Interval -> bool)
    requires forall j :: 0 <= j < |s| ==> !p(s[j])
    ensures Filter(s, p) == []
    decreases |s|
  {
    if s != [] {
      FilterNone(s[1..], p);
    }
  }

  function IsBefore(i: Interval): Interval -> bool
  {
    a => LessNoOverlap(a, i)
  }

  function IsTouching(i: Interval): Interval -> bool
  {
    a => Overlaps(a, i)
  }

  function IsAfter(i: Interval): Interval -> bool
  {
    a => GreaterNoOverlap(a, i)
  }

  /** On a normalised list, `merge_insert` keeps every interval wholly
      before `i`, then one span of `i` with every interval it overlaps or
      touches, then every interval wholly after `i`, each group in its
      original order. */
  lemma InsertedPartition(s: ISet, i: Interval)
    requires Normalised(s) && WellFormed(i)
    ensures Inserted(s, i) ==
              Filter(s, IsBefore(i)) + [MergeAll(i, Filter(s, IsTouching(i)))] + Filter(s, IsAfter(i))
  {
    var k := CountBefore(s, i);
    var m := k + CountTouching(s[k..], i);
    InsertedSplit(s, i, k, m);
    Groups(s, i, k, m);
    assert s[m..] == s[m..|s|];
    assert s[..k] == s[0..k];
    assert Filter(s, IsBefore(i)) == s[..k] by {
      FilterThree(s, k, m, IsBefore(i));
      FilterAllSlice(s, 0, k, IsBefore(i));
      FilterNoneSlice(s, k, m, IsBefore(i));
      FilterNoneSlice(s, m, |s|, IsBefore(i));
    }
    assert Filter(s, IsTouching(i)) == s[k..m] by {
      FilterThree(s, k, m, IsTouching(i));
      FilterNoneSlice(s, 0, k, IsTouching(i));
      FilterAllSlice(s, k, m, IsTouching(i));
      FilterNoneSlice(s, m, |s|, IsTouching(i));
    }
    assert Filter(s, IsAfter(i)) == s[m..] by {
      FilterThree(s, k, m, IsAfter(i));
      FilterNoneSlice(s, 0, k, IsAfter(i));
      FilterNoneSlice(s, k, m, IsAfter(i));
      FilterAllSlice(s, m, |s|, IsAfter(i));
    }
  }

  /** On a normalised list the three groups `merge_insert` finds are the
      wholly-before, the overlapping-or-touching and the wholly-after
      intervals. */
  lemma Groups(s: ISet, i: Interval, k: nat, m: nat)
    requires Normalised(s) && WellFormed(i)
    requires k == CountBefore(s, i) && m == k + CountTouching(s[k..], i)
    ensures m <= |s|
    ensures forall j :: 0 <= j < k ==> IsBefore(i)(s[j]) && !IsTouching(i)(s[j]) && !IsAfter(i)(s[j])
    ensures forall j :: k <= j < m ==> !IsBefore(i)(s[j]) && IsTouching(i)(s[j]) && !IsAfter(i)(s[j])
    ensures forall j :: m <= j < |s| ==> !IsBefore(i)(s[j]) && !IsTouching(i)(s[j]) && IsAfter(i)(s[j])
  {
    TouchingRun(s, i, k, m);
    GroupsNotBefore(s, i, k, m);
    GroupsAfter(s, i, k, m);
  }

  /** Past the wholly-before prefix nothing lies wholly before `i`, and the
      run `s[k..m]` overlaps or touches it. */
  lemma GroupsNotBefore(s: ISet, i: Interval, k: nat, m: nat)
    requires Normalised(s)
    requires k == CountBefore(s, i) && m == k + CountTouching(s[k..], i)
    ensures m <= |s|
    ensures forall j :: k <= j < |s| ==> !LessNoOverlap(s[j], i)
    ensures forall j :: k <= j < m ==> Overlaps(s[j], i)
  {
    TouchingRun(s, i, k, m);
    forall j | k <= j < |s|
      ensures !LessNoOverlap(s[j], i)
    {
      if j > k {
        NormalisedOrdered(s, k, j);
      }
    }
  }

  /** From the first interval after the run on, everything lies wholly
      after `i`. */
  lemma GroupsAfter(s: ISet, i: Interval, k: nat, m: nat)
    requires Normalised(s)
    requires k == CountBefore(s, i) && m == k + CountTouching(s[k..], i)
    ensures forall j :: m <= j < |s| ==> GreaterNoOverlap(s[j], i)
  {
    TouchingRun(s, i, k, m);
    if m < |s| {
      assert !Overlaps(s[m], i);
      if m > k {
        assert !LessNoOverlap(s[m], i) by {
          NormalisedOrdered(s, k, m);
        }
      }
      forall j | m <= j < |s|
        ensures GreaterNoOverlap(s[j], i)
      {
        if j > m {
          NormalisedOrdered(s, m, j);
        }
      }
    }
  }

  lemma FilterThree(s: ISet, k: nat, m: nat, p: Interval -> bool)
    requires k <= m <= |s|
    ensures Filter(s, p) == Filter(s[0..k], p) + Filter(s[k..m], p) + Filter(s[m..|s|], p)
  {
    Seqs.SplitThree(s, k, m);
    FilterConcat(s[0..k] + s[k..m], s[m..|s|], p);
    FilterConcat(s[0..k], s[k..m], p);
  }

  lemma FilterAllSlice(s: ISet, lo: nat, hi: nat, p: Interval -> bool)
    requires lo <= hi <= |s|
    requires forall j :: lo <= j < hi ==> p(s[j])
    ensures Filter(s[lo..hi], p) == s[lo..hi]
  {
    forall j | 0 <= j < hi - lo
      ensures p(s[lo..hi][j])
    {
      assert s[lo..hi][j] == s[lo + j];
    }
    FilterAll(s[lo..hi], p);
  }

  lemma FilterNoneSlice(s: ISet, lo: nat, hi: nat, p: Interval -> bool)
    requires lo <= hi <= |s|
    requires forall j :: lo <= j < hi ==> !p(s[j])
    ensures Filter(s[lo..hi], p) == []
  {
    forall j | 0 <= j < hi - lo
      ensures !p(s[lo..hi][j])
    {
      assert s[lo..hi][j] == s[lo + j];
    }
    FilterNone(s[lo..hi], p);
  }

  /** The unit test `test_merge_insert`. */
  lemma MergeInsertTestPoint()
    ensures Inserted([(0, 1), (5, 6)], (3, 3)) == [(0, 1), (3, 3), (5, 6)]
  {
  }

  lemma MergeInsertTestSpan()
    ensures Inserted([(0, 1), (3, 4), (7, 8)], (2, 6)) == [(0, 8)]
  {
  }

  // ---------------------------------------------------------------------
  // merge_and_sort_ranges

  function ToInterval(r: Range): (a: Interval)
    requires !r.All?
    ensures forall x :: InInterval(a, x) <==> InRange(r, x)
  {
    match r
    case Interval(l, u) => (l, u)
    case Point(p) => (p, p)
  }

  /** The loop of `merge_and_sort_ranges`: insert each range in turn, and
      give up (`None`) at the first `All`. */
  function InsertRanges(acc: ISet, ranges: seq<Range>): Option<ISet>
    decreases |ranges|
  {
    if ranges == [] then Some(acc)
    else if ranges[0].All? then None
    else InsertRanges(Inserted(acc, ToInterval(ranges[0])), ranges[1..])
  }

  /** Single-point intervals come out as `Point`. */
  function FromInterval(a: Interval): (r: Range)
    ensures !r.All?
    ensures forall x :: InRange(r, x) <==> InInterval(a, x)
  {
    if a.0 == a.1 then Point(a.0) else Interval(a.0, a.1)
  }

  function FromIntervals(s: ISet): (r: seq<Range>)
    ensures |r| == |s|
    ensures forall j :: 0 <= j < |s| ==> r[j] == FromInterval(s[j])
  {
    if s == [] then [] else [FromInterval(s[0])] + FromIntervals(s[1..])
  }

  /** What `merge_and_sort_ranges` yields. */
  function SortedMerged(ranges: seq<Range>): seq<Range>
  {
    match InsertRanges([], ranges)
    case None => [All]
    case Some(ivs) => FromIntervals(ivs)
  }

  /** `merge_and_sort_ranges` (src/utils.rs:59-76). */
  method MergeAndSortRanges(ranges: seq<Range>) returns (r: seq<Range>)
    ensures r == SortedMerged(ranges)
  {
    var ivs: ISet := [];
    var i := 0;
    while i < |ranges|
      invariant 0 <= i <= |ranges|
      invariant InsertRanges([], ranges) == InsertRanges(ivs, ranges[i..])
    {
      InsertRangesStep(ivs, ranges, i);
      match ranges[i] {
        case Interval(lower, upper) =>
          ivs := MergeInsert(ivs, (lower, upper));
        case Point(p) =>
          ivs := MergeInsert(ivs, (p, p));
        case All =>
          return [All];
      }
      i := i + 1;
    }
    r := FromIntervals(ivs);
  }

  /** One iteration of the loop of `merge_and_sort_ranges`. */
  lemma InsertRangesStep(acc: ISet, ranges: seq<Range>, i: nat)
    requires i < |ranges|
    ensures ranges[i].All? ==> InsertRanges(acc, ranges[i..]).None?
    ensures !ranges[i].All? ==>
      InsertRanges(acc, ranges[i..]) == InsertRanges(Inserted(acc, ToInterval(ranges[i])), ranges[i + 1..])
  {
    assert ranges[i..][1..] == ranges[i + 1..];
  }

  predicate HasAll(ranges: seq<Range>)
  {
    exists j :: 0 <= j < |ranges| && ranges[j].All?
  }

  /** Some version of the list of ranges admits `x`. */
  predicate RangesCover(ranges: seq<Range>, x: int)
  {
    exists j :: 0 <= j < |ranges| && InRange(ranges[j], x)
  }

  lemma {:induction false} InsertRangesResult(acc: ISet, ranges: seq<Range>)
    ensures InsertRanges(acc, ranges).None? <==> HasAll(ranges)
    ensures InsertRanges(acc, ranges).Some? ==>
              |InsertRanges(acc, ranges).value| <= |acc| + |ranges|
    ensures InsertRanges(acc, ranges).Some? ==>
              forall x :: Covers(InsertRanges(acc, ranges).value, x) <==> Covers(acc, x) || RangesCover(ranges, x)
    decreases |ranges|
  {
    if ranges != [] {
      var rest := ranges[1..];
      assert forall j :: 0 <= j < |rest| ==> rest[j] == ranges[j + 1];
      assert HasAll(ranges) <==> ranges[0].All? || HasAll(rest) by {
        if HasAll(ranges) && !ranges[0].All? {
          var j :| 0 <= j < |ranges| && ranges[j].All?;
          assert rest[j - 1].All?;
        }
      }
      if !ranges[0].All? {
        var next := Inserted(acc, ToInterval(ranges[0]));
        InsertRangesResult(next, rest);
        InsertedCovers(acc, ToInterval(ranges[0]));
        assert |next| <= |acc| + 1;
        forall x
          ensures RangesCover(ranges, x) <==> InRange(ranges[0], x) || RangesCover(rest, x)
        {
          if RangesCover(ranges, x) && !InRange(ranges[0], x) {
            var j :| 0 <= j < |ranges| && InRange(ranges[j], x);
            assert InRange(rest[j - 1], x);
          }
        }
      }
    }
  }

  /** Any `All` makes the result exactly `[All]`. */
  lemma SortedMergedWithAll(ranges: seq<Range>)
    requires HasAll(ranges)
    ensures SortedMerged(ranges) == [All]
  {
    InsertRangesResult([], ranges);
  }

  /** The result admits exactly the versions some input range admits, and is
      no longer than the input. */
  lemma SortedMergedCovers(ranges: seq<Range>)
    ensures forall x :: RangesCover(SortedMerged(ranges), x) <==> RangesCover(ranges, x)
    ensures |SortedMerged(ranges)| <= |ranges|
  {
    InsertRangesResult([], ranges);
    if HasAll(ranges) {
      var j :| 0 <= j < |ranges| && ranges[j].All?;
      assert forall x :: InRange(ranges[j], x);
      assert forall x :: InRange(SortedMerged(ranges)[0], x);
    } else {
      FromIntervalsCovers(InsertRanges([], ranges).value);
    }
  }

  /** Converting intervals to ranges keeps what they cover. */
  lemma FromIntervalsCovers(ivs: ISet)
    ensures forall x :: RangesCover(FromIntervals(ivs), x) <==> Covers(ivs, x)
  {
    var r := FromIntervals(ivs);
    forall x
      ensures RangesCover(r, x) <==> Covers(ivs, x)
    {
      if RangesCover(r, x) {
        var j :| 0 <= j < |r| && InRange(r[j], x);
        assert InInterval(ivs[j], x);
      }
      if Covers(ivs, x) {
        var j :| 0 <= j < |ivs| && InInterval(ivs[j], x);
        assert InRange(r[j], x);
      }
    }
  }

  /** Lower and upper bound of a non-`All` range. */
  function Lo(r: Range): Version
    requires !r.All?
  {
    if r.Interval? then r.lower else r.v
  }

  function Hi(r: Range): Version
    requires !r.All?
  {
    if r.Interval? then r.upper else r.v
  }

  /** Ranges in normal form: no `All`, proper intervals only for two or more
      versions, ascending and gap-separated. */
  predicate NormalForm(rs: seq<Range>)
  {
    && (forall j :: 0 <= j < |rs| ==> !rs[j].All?)
    && (forall j :: 0 <= j < |rs| ==> rs[j].Interval? ==> rs[j].lower < rs[j].upper)
    && (forall j :: 0 <= j < |rs| - 1 ==> Hi(rs[j]) + 1 < Lo(rs[j + 1]))
  }

  /** Every input range is non-empty (no reversed `Interval`). */
  predicate AllWellFormed(ranges: seq<Range>)
  {
    forall j :: 0 <= j < |ranges| ==> ranges[j].Interval? ==> ranges[j].lower <= ranges[j].upper
  }

  lemma {:induction false} InsertRangesNormalised(acc: ISet, ranges: seq<Range>)
    requires Normalised(acc) && AllWellFormed(ranges)
    ensures InsertRanges(acc, ranges).Some? ==> Normalised(InsertRanges(acc, ranges).value)
    decreases |ranges|
  {
    if ranges != [] && !ranges[0].All? {
      InsertedNormalised(acc, ToInterval(ranges[0]));
      InsertRangesNormalised(Inserted(acc, ToInterval(ranges[0])), ranges[1..]);
    }
  }

  /** Without `All`, and with no reversed interval in the input, the result
      is in normal form. */
  lemma SortedMergedNormalForm(ranges: seq<Range>)
    requires !HasAll(ranges) && AllWellFormed(ranges)
    ensures NormalForm(SortedMerged(ranges))
  {
    InsertRangesResult([], ranges);
    InsertRangesNormalised([], ranges);
    var ivs := InsertRanges([], ranges).value;
    var r := FromIntervals(ivs);
    forall j | 0 <= j < |r| - 1
      ensures Hi(r[j]) + 1 < Lo(r[j + 1])
    {
      assert LessNoOverlap(ivs[j], ivs[j + 1]);
    }
  }
}
