/** Extended repositories (src/internals/types/extended.rs): packages named
    by keys of any type `K`, versions keyed by an ordered type (modelled as
    `int`), requirements given as sets of version keys. A builder checks
    and translates such a repository into the numeric "spine" of
    src/types.rs: package `i` of the key map becomes package id `i`, and the
    `x`-th version key of a package (in key-map order) becomes version `x`. */
module Extended {
  import opened Wrappers
  import opened Types
  import opened IndexMaps
  import Intervals
  import Seqs
  import opened Results

  // ---------------------------------------------------------------------
  // Sets of version keys (the `SetOf` implementations)

  /** One end of a `RangeBounds` value. */
  datatype Bound = Included(b: int) | Excluded(b: int) | Unbounded

  datatype VersionSet =
    | ViaRangeBound(start: Bound, end: Bound)
    | Union(members: seq<VersionSet>)
    | Intersection(members: seq<VersionSet>)
    | ViaFunPtr(test: int -> bool)

  predicate AboveStart(b: Bound, t: int)
  {
    match b
    case Included(s) => s <= t
    case Excluded(s) => s < t
    case Unbounded => true
  }

  predicate BelowEnd(b: Bound, t: int)
  {
    match b
    case Included(e) => t <= e
    case Excluded(e) => t < e
    case Unbounded => true
  }

  /** `SetOf::contains`: a range bound contains what lies between its ends,
      a union what some member contains (`any`), an intersection what every
      member contains (`all`), a function pointer what it accepts. */
  predicate Contains(vs: VersionSet, t: int)
  {
    match vs
    case ViaRangeBound(s, e) => AboveStart(s, t) && BelowEnd(e, t)
    case Union(ms) => exists j :: 0 <= j < |ms| && Contains(ms[j], t)
    case Intersection(ms) => forall j :: 0 <= j < |ms| ==> Contains(ms[j], t)
    case ViaFunPtr(p) => p(t)
  }

  /** Which keys of `keys` the set contains, position by position. */
  function Mask(vs: VersionSet, keys: seq<int>): (m: seq<bool>)
    ensures |m| == |keys|
    ensures forall j :: 0 <= j < |keys| ==> (m[j] <==> Contains(vs, keys[j]))
  {
    seq(|keys|, j requires 0 <= j < |keys| => Contains(vs, keys[j]))
  }

  // ---------------------------------------------------------------------
  // `to_ranges`: maximal runs of contained keys, as 1-based version ranges

  /** For a mask ending in `true`: the 1-based position where its final run
      of `true` starts. */
  function RunStart(m: seq<bool>): (s: nat)
    requires |m| >= 1 && m[|m| - 1]
    ensures 1 <= s <= |m|
    ensures forall j :: s - 1 <= j < |m| ==> m[j]
    ensures s == 1 || !m[s - 2]
    decreases |m|
  {
    if |m| >= 2 && m[|m| - 2] then RunStart(m[..|m| - 1]) else |m|
  }

  /** The range `low..=high` as `to_ranges` pushes it. */
  function MkRange(low: nat, high: nat): (r: Range)
    requires low <= high
    ensures forall x :: InRange(r, x) <==> low <= x <= high
    ensures !r.All? && Intervals.Lo(r) == low && Intervals.Hi(r) == high
    ensures r.Interval? ==> r.lower < r.upper
  {
    if high == low then Point(low) else Interval(low, high)
  }

  /** The runs of `m` already ended by a `false`. */
  function Closed(m: seq<bool>): seq<Range>
    decreases |m|
  {
    if |m| < 2 then []
    else
      var p := m[..|m| - 1];
      if p[|p| - 1] && !m[|m| - 1] then Closed(p) + [MkRange(RunStart(p), |p|)] else Closed(p)
  }

  /** What `to_ranges` returns for mask `m`: the closed runs, then the run
      still open at the end, if any. */
  function Runs(m: seq<bool>): seq<Range>
  {
    if |m| >= 1 && m[|m| - 1] then Closed(m) + [MkRange(RunStart(m), |m|)] else Closed(m)
  }

  /** How one more mask entry changes the closed runs and the start of
      the final run. */
  lemma ClosedSnoc(p: seq<bool>, b: bool)
    ensures |p| == 0 ==> Closed(p + [b]) == []
    ensures |p| >= 1 && p[|p| - 1] && !b ==> Closed(p + [b]) == Closed(p) + [MkRange(RunStart(p), |p|)]
    ensures !(|p| >= 1 && p[|p| - 1] && !b) ==> Closed(p + [b]) == Closed(p)
    ensures |p| >= 1 && p[|p| - 1] && b ==> RunStart(p + [b]) == RunStart(p)
    ensures !(|p| >= 1 && p[|p| - 1]) && b ==> RunStart(p + [b]) == |p| + 1
  {
    assert (p + [b])[..|p|] == p;
  }

  /** What `to_ranges` knows after the first `i` keys: the runs already
      closed are pushed, `open` tells whether the last key seen is
      contained, and `low` is then where its run starts. */
  ghost predicate ToRangesInv(mask: seq<bool>, i: nat, ranges: seq<Range>, open: bool, low: nat)
  {
    && i <= |mask|
    && ranges == Closed(mask[..i])
    && (open <==> i > 0 && mask[i - 1])
    && (open ==> low <= i && low == RunStart(mask[..i]))
  }

  /** One step of `to_ranges` in terms of the mask: entry `i` closes the
      open run at `i`, extends it, opens one at `i + 1`, or changes
      nothing, and the state after it again describes the mask. */
  lemma ToRangesStep(mask: seq<bool>, i: nat, ranges: seq<Range>, open: bool, low: nat,
                     ranges': seq<Range>, open': bool, low': nat)
    requires i < |mask| && ToRangesInv(mask, i, ranges, open, low)
    requires open && !mask[i] ==> !open' && ranges' == ranges + [MkRange(low, i)]
    requires open && mask[i] ==> open' && low' == low && ranges' == ranges
    requires !open && mask[i] ==> open' && low' == i + 1 && ranges' == ranges
    requires !open && !mask[i] ==> !open' && ranges' == ranges
    ensures ToRangesInv(mask, i + 1, ranges', open', low')
  {
    Seqs.TakeSnoc(mask, i);
    ClosedSnoc(mask[..i], mask[i]);
  }

  /** `SetOf::to_ranges`: one pass over the keys of `keys`, opening a run at
      a contained key and closing it at the next key not contained. */
  method ToRanges(vs: VersionSet, keys: seq<int>) returns (ranges: seq<Range>)
    ensures ranges == Runs(Mask(vs, keys))
  {
    ghost var mask := Mask(vs, keys);
    ranges := [];
    var containing := false;
    var low: nat := 1;
    var high: nat;
    var i := 0;
    while i < |keys|
      invariant ToRangesInv(mask, i, ranges, containing, low)
    {
      ghost var (ranges0, containing0, low0) := (ranges, containing, low);
      var c := Contains(vs, keys[i]);
      assert c == mask[i];
      if containing {
        if !c {
          containing := false;
          high := i;
          if high == low {
            ranges := ranges + [PointRange(low)];
          } else {
            ranges := ranges + [Interval(low, high)];
          }
        }
      } else {
        if c {
          containing := true;
          low := i + 1;
        }
      }
      ToRangesStep(mask, i, ranges0, containing0, low0, ranges, containing, low);
      i := i + 1;
    }
    assert mask[..i] == mask;
    if containing {
      high := |keys|;
      if high == low {
        ranges := ranges + [PointRange(low)];
      } else {
        ranges := ranges + [Interval(low, high)];
      }
    }
  }

  /** How one more mask entry changes the runs: a `false` changes nothing,
      a `true` after a `true` extends the last run, and any other `true`
      opens the run `{|m|}`. */
  lemma RunsSnoc(p: seq<bool>, b: bool)
    ensures !b ==> Runs(p + [b]) == Runs(p)
    ensures b && |p| >= 1 && p[|p| - 1] ==>
      Runs(p) == Closed(p) + [MkRange(RunStart(p), |p|)] &&
      Runs(p + [b]) == Closed(p) + [MkRange(RunStart(p), |p| + 1)]
    ensures b && !(|p| >= 1 && p[|p| - 1]) ==> Runs(p + [b]) == Runs(p) + [Point(|p| + 1)]
  {
    var m := p + [b];
    assert m[..|m| - 1] == p;
    if b && |p| >= 1 && p[|p| - 1] {
      assert RunStart(m) == RunStart(p);
    }
  }

  lemma RangesCoverConcat(a: seq<Range>, b: seq<Range>)
    ensures forall x :: Intervals.RangesCover(a + b, x) <==> Intervals.RangesCover(a, x) || Intervals.RangesCover(b, x)
  {
    forall x
      ensures Intervals.RangesCover(a + b, x) <==> Intervals.RangesCover(a, x) || Intervals.RangesCover(b, x)
    {
      if Intervals.RangesCover(a + b, x) {
        var j :| 0 <= j < |a + b| && InRange((a + b)[j], x);
        if j >= |a| {
          assert InRange(b[j - |a|], x);
        }
      }
      if Intervals.RangesCover(a, x) {
        var j :| 0 <= j < |a| && InRange(a[j], x);
        assert InRange((a + b)[j], x);
      }
      if Intervals.RangesCover(b, x) {
        var j :| 0 <= j < |b| && InRange(b[j], x);
        assert InRange((a + b)[|a| + j], x);
      }
    }
  }

  lemma RangesCoverSingle(r: Range)
    ensures forall x :: Intervals.RangesCover([r], x) <==> InRange(r, x)
  {
    forall x
      ensures Intervals.RangesCover([r], x) <==> InRange(r, x)
    {
      if InRange(r, x) {
        assert InRange([r][0], x);
      }
    }
  }

  /** The runs cover exactly the 1-based positions of `true` entries. */
  lemma {:induction false} RunsCover(m: seq<bool>)
    ensures forall x :: Intervals.RangesCover(Runs(m), x) <==> 1 <= x <= |m| && m[x - 1]
    decreases |m|
  {
    if |m| == 0 {
    } else {
      var p := m[..|m| - 1];
      var b := m[|m| - 1];
      assert m == p + [b];
      RunsCover(p);
      RunsSnoc(p, b);
      if b && |p| >= 1 && p[|p| - 1] {
        var c := Closed(p);
        var s := RunStart(p);
        RangesCoverConcat(c, [MkRange(s, |p|)]);
        RangesCoverConcat(c, [MkRange(s, |p| + 1)]);
        RangesCoverSingle(MkRange(s, |p|));
        RangesCoverSingle(MkRange(s, |p| + 1));
      } else if b {
        RangesCoverConcat(Runs(p), [Point(|p| + 1)]);
        RangesCoverSingle(Point(|p| + 1));
      }
    }
  }

  /** Every range of `rs` lies within `1..=n`. */
  predicate WithinKeys(rs: seq<Range>, n: nat)
  {
    forall j :: 0 <= j < |rs| ==> !rs[j].All? && 1 <= Intervals.Lo(rs[j]) && Intervals.Hi(rs[j]) <= n
  }

  /** Appending a proper range beyond a gap keeps the normal form. */
  lemma NormalFormSnoc(rs: seq<Range>, x: Range)
    requires Intervals.NormalForm(rs) && !x.All? && (x.Interval? ==> x.lower < x.upper)
    requires |rs| > 0 ==> !rs[|rs| - 1].All? && Intervals.Hi(rs[|rs| - 1]) + 1 < Intervals.Lo(x)
    ensures Intervals.NormalForm(rs + [x])
  {
    var r := rs + [x];
    assert forall j :: 0 <= j < |rs| ==> r[j] == rs[j];
  }

  /** Replacing the last range by a proper range with the same lower end
      keeps the normal form. */
  lemma NormalFormReplaceLast(c: seq<Range>, x: Range, y: Range)
    requires Intervals.NormalForm(c + [x]) && !x.All? && !y.All? && (y.Interval? ==> y.lower < y.upper)
    requires Intervals.Lo(y) == Intervals.Lo(x)
    ensures Intervals.NormalForm(c + [y])
  {
    var r := c + [x];
    assert forall j :: 0 <= j < |c| ==> r[j] == c[j];
    if |c| > 0 {
      assert r[|c| - 1] == c[|c| - 1] && r[|c|] == x;
    }
    NormalFormSnoc(c, y);
  }

  /** The runs are in normal form (ascending, gap-separated, `Point`
      exactly for runs of one key) and lie within `1..=|m|`. */
  lemma {:induction false} RunsNormalForm(m: seq<bool>)
    ensures Intervals.NormalForm(Runs(m))
    ensures WithinKeys(Runs(m), |m|)
    decreases |m|
  {
    if |m| > 0 {
      var p := m[..|m| - 1];
      var b := m[|m| - 1];
      assert m == p + [b];
      RunsNormalForm(p);
      if b && |p| >= 1 && p[|p| - 1] {
        RunsExtendLast(p, m);
      } else if b {
        RunsOpenNew(p, m);
      } else {
        RunsSnoc(p, b);
      }
    }
  }

  /** The case of `RunsNormalForm` where `m` extends the run open at the
      end of `p`. */
  lemma RunsExtendLast(p: seq<bool>, m: seq<bool>)
    requires |p| >= 1 && p[|p| - 1] && m == p + [true]
    requires Intervals.NormalForm(Runs(p)) && WithinKeys(Runs(p), |p|)
    ensures Intervals.NormalForm(Runs(m)) && WithinKeys(Runs(m), |m|)
  {
    RunsSnoc(p, true);
    var c := Closed(p);
    var s := RunStart(p);
    NormalFormReplaceLast(c, MkRange(s, |p|), MkRange(s, |p| + 1));
    var r := Runs(p);
    var r' := Runs(m);
    assert forall j :: 0 <= j < |c| ==> r'[j] == r[j];
  }

  /** The case of `RunsNormalForm` where `m` opens a new run `{|m|}`. */
  lemma RunsOpenNew(p: seq<bool>, m: seq<bool>)
    requires !(|p| >= 1 && p[|p| - 1]) && m == p + [true]
    requires Intervals.NormalForm(Runs(p)) && WithinKeys(Runs(p), |p|)
    ensures Intervals.NormalForm(Runs(m)) && WithinKeys(Runs(m), |m|)
  {
    RunsSnoc(p, true);
    var r := Runs(p);
    if |r| > 0 {
      RunsCover(p);
      var last := r[|r| - 1];
      assert InRange(last, Intervals.Hi(last));
      assert Intervals.RangesCover(r, Intervals.Hi(last));
      assert Intervals.Hi(last) < |p|;
    }
    NormalFormSnoc(r, Point(|p| + 1));
    var r' := Runs(m);
    assert forall j :: 0 <= j < |r| ==> r'[j] == r[j];
  }

  /** `to_ranges` returns nothing exactly when no key is in the set. */
  lemma RunsEmpty(m: seq<bool>)
    ensures |Runs(m)| == 0 <==> forall j :: 0 <= j < |m| ==> !m[j]
  {
    RunsCover(m);
    RunsNormalForm(m);
    if |Runs(m)| > 0 {
      var r := Runs(m)[0];
      assert InRange(r, Intervals.Lo(r));
      assert Intervals.RangesCover(Runs(m), Intervals.Lo(r));
    } else {
      forall j | 0 <= j < |m|
        ensures !m[j]
      {
        assert !Intervals.RangesCover(Runs(m), j + 1);
      }
    }
  }

  /** Keys 1, 3 and 4 of five: the runs `{1}` and `[3, 4]`. */
  lemma RunsExample()
    ensures Runs([true, false, true, true, false]) == [Point(1), Interval(3, 4)]
  {
    var m1, m2, m3, m4, m5 := [true], [true, false], [true, false, true], [true, false, true, true], [true, false, true, true, false];
    assert m1 == [] + [true] && m2 == m1 + [false] && m3 == m2 + [true] && m4 == m3 + [true] && m5 == m4 + [false];
    RunsSnoc([], true);
    assert Runs(m1) == [Point(1)];
    RunsSnoc(m1, false);
    assert Runs(m2) == [Point(1)];
    RunsSnoc(m2, true);
    assert Runs(m3) == [Point(1), Point(3)];
    assert m3[..2] == m2;
    assert Closed(m3) == [Point(1)];
    assert RunStart(m3) == 3;
    RunsSnoc(m3, true);
    assert Runs(m4) == [Point(1), Interval(3, 4)];
    RunsSnoc(m4, false);
  }

  // ---------------------------------------------------------------------
  // Extended requirements, versions and packages

  datatype ERequirement<K> = ERequirement(package: K, versions: VersionSet)

  /** Why a requirement cannot be translated: its package name is not in
      the map (`Err(Ok(name))` in the source), or its set contains none of
      that package's version keys (`Err(Err(requirement))`). */
  datatype TranslateError<K> = UnknownName(name: K) | EmptyRanges(requirement: ERequirement<K>)

  datatype EVersion<K> = EVersion(version: int, dependencies: seq<ERequirement<K>>,
                                  conflicts: seq<ERequirement<K>>)
  {
    /** `add_dependency`. */
    function AddDependency(r: ERequirement<K>): (e: EVersion<K>)
      ensures e.dependencies == dependencies + [r]
      ensures e.version == version && e.conflicts == conflicts
    {
      this.(dependencies := dependencies + [r])
    }

    /** `add_conflict`. */
    function AddConflict(r: ERequirement<K>): (e: EVersion<K>)
      ensures e.conflicts == conflicts + [r]
      ensures e.version == version && e.dependencies == dependencies
    {
      this.(conflicts := conflicts + [r])
    }
  }

  /** `EVersion::new`: a version without requirements. */
  function NewEVersion<K>(version: int): (e: EVersion<K>)
    ensures e.version == version && e.dependencies == [] && e.conflicts == []
  {
    EVersion(version, [], [])
  }

  datatype EPackage<K> = EPackage(name: K, versions: IndexMap<int, EVersion<K>>)

  type PackageMap<K(==)> = IndexMap<K, EPackage<K>>

  /** `ERequirement::translate`: look the package up by name, turn the set
      into ranges over that package's version keys, and insist on at least
      one range. */
  function TranslateReq<K(==)>(req: ERequirement<K>, pkgs: PackageMap<K>): Result<Requirement, TranslateError<K>>
  {
    match pkgs.GetFull(req.package)
    case None => Err(UnknownName(req.package))
    case Some((id, pkg)) =>
      var ranges := Runs(Mask(req.versions, pkg.versions.Keys()));
      if |ranges| == 0 then Err(EmptyRanges(req)) else Ok(Requirement(id, ranges))
  }

  /** An unknown package name is reported as such, and only then. */
  lemma TranslateReqUnknown<K>(req: ERequirement<K>, pkgs: PackageMap<K>)
    ensures TranslateReq(req, pkgs) == Err(UnknownName(req.package)) <==> !pkgs.ContainsKey(req.package)
  {
  }

  /** What a translated requirement means: it names the package by its
      position `id` in the map, and admits version number `x` exactly when
      the `x`-th version key of that package is in the requirement's set;
      its ranges are in normal form within the package's versions. It fails
      exactly when the set contains none of the keys. */
  lemma TranslateReqSpec<K>(req: ERequirement<K>, pkgs: PackageMap<K>, id: nat, pkg: EPackage<K>)
    requires pkgs.GetFull(req.package) == Some((id, pkg))
    ensures TranslateReq(req, pkgs).Err? <==>
      forall j :: 0 <= j < |pkg.versions.entries| ==> !Contains(req.versions, pkg.versions.entries[j].0)
    ensures TranslateReq(req, pkgs).Err? ==> TranslateReq(req, pkgs) == Err(EmptyRanges(req))
    ensures TranslateReq(req, pkgs).Ok? ==>
      TranslateReq(req, pkgs).value.package == id && pkgs.entries[id].0 == req.package
    ensures TranslateReq(req, pkgs).Ok? ==> TranslateReqRanges(TranslateReq(req, pkgs).value, req, pkg)
  {
    var keys := pkg.versions.Keys();
    var mask := Mask(req.versions, keys);
    RunsEmpty(mask);
    if |Runs(mask)| > 0 {
      var r := Requirement(id, Runs(mask));
      assert TranslateReq(req, pkgs) == Ok(r);
      RunsCover(mask);
      RunsNormalForm(mask);
      assert forall x :: Admits(r, x) <==> Intervals.RangesCover(Runs(mask), x);
    }
  }

  /** The ranges of a translated requirement: normal form, within the
      target package's versions `1..=n`, and admitting version `x` exactly
      when the set contains the `x`-th key. */
  ghost predicate TranslateReqRanges<K>(r: Requirement, req: ERequirement<K>, pkg: EPackage<K>)
  {
    var keys := pkg.versions.Keys();
    && Intervals.NormalForm(r.versions)
    && (forall j :: 0 <= j < |r.versions| ==>
          1 <= Intervals.Lo(r.versions[j]) && Intervals.Hi(r.versions[j]) <= |keys|)
    && (forall x :: Admits(r, x) <==> 1 <= x <= |keys| && Contains(req.versions, keys[x - 1]))
  }

  /** One step of the loops of `EVersion::translate`. */
  function ReqStep<K(==)>(pkgs: PackageMap<K>): (nat, ERequirement<K>) -> Result<Requirement, TranslateError<K>>
  {
    (j: nat, req: ERequirement<K>) => TranslateReq(req, pkgs)
  }

  /** The loop of `EVersion::translate` over one list, as a function: the
      first failing requirement decides the error. */
  function TranslateAll<K(==)>(reqs: seq<ERequirement<K>>, pkgs: PackageMap<K>): Result<seq<Requirement>, TranslateError<K>>
  {
    TryMap(reqs, ReqStep(pkgs))
  }

  /** Success translates each requirement in place. */
  lemma TranslateAllOk<K>(reqs: seq<ERequirement<K>>, pkgs: PackageMap<K>)
    ensures TranslateAll(reqs, pkgs).Ok? <==> forall j :: 0 <= j < |reqs| ==> TranslateReq(reqs[j], pkgs).Ok?
    ensures TranslateAll(reqs, pkgs).Ok? ==>
      |TranslateAll(reqs, pkgs).value| == |reqs| &&
      forall j :: 0 <= j < |reqs| ==> TranslateAll(reqs, pkgs).value[j] == TranslateReq(reqs[j], pkgs).value
  {
    TryMapOk(reqs, ReqStep(pkgs));
  }

  /** Failure is the error of the first requirement that fails. */
  lemma TranslateAllErr<K>(reqs: seq<ERequirement<K>>, pkgs: PackageMap<K>)
    ensures TranslateAll(reqs, pkgs).Err? ==>
      exists j :: 0 <= j < |reqs| && TranslateReq(reqs[j], pkgs) == Err(TranslateAll(reqs, pkgs).error) &&
        forall l :: 0 <= l < j ==> TranslateReq(reqs[l], pkgs).Ok?
  {
    TryMapErr(reqs, ReqStep(pkgs));
    if TranslateAll(reqs, pkgs).Err? {
      var j :| 0 <= j < |reqs| && ReqStep(pkgs)(j, reqs[j]) == Err(TranslateAll(reqs, pkgs).error) &&
        forall l :: 0 <= l < j ==> ReqStep(pkgs)(l, reqs[l]).Ok?;
      assert TranslateReq(reqs[j], pkgs) == Err(TranslateAll(reqs, pkgs).error);
    }
  }

  /** `EVersion::translate` as a function. */
  function TranslateVersionF<K(==)>(ev: EVersion<K>, pkgs: PackageMap<K>): Result<PackageVer, TranslateError<K>>
  {
    match TranslateAll(ev.dependencies, pkgs)
    case Err(e) => Err(e)
    case Ok(ds) =>
      match TranslateAll(ev.conflicts, pkgs)
      case Err(e) => Err(e)
      case Ok(cs) => Ok(PackageVer(RequirementSet(ds, cs)))
  }

  /** One list of `EVersion::translate`: push each translation, returning
      at the first error. */
  method TranslateList<K(==)>(reqs: seq<ERequirement<K>>, pkgs: PackageMap<K>) returns (r: Result<seq<Requirement>, TranslateError<K>>)
    ensures r == TranslateAll(reqs, pkgs)
  {
    var out: seq<Requirement> := [];
    var i := 0;
    while i < |reqs|
      invariant 0 <= i <= |reqs|
      invariant TryMap(reqs[..i], ReqStep(pkgs)) == Ok(out)
    {
      TryMapSnoc(reqs, i, ReqStep(pkgs));
      var t := TranslateReq(reqs[i], pkgs);
      if t.Err? {
        TryMapPrefixErr(reqs, i + 1, ReqStep(pkgs));
        return Err(t.error);
      }
      out := out + [t.value];
      i := i + 1;
    }
    assert reqs[..i] == reqs;
    r := Ok(out);
  }

  /** `EVersion::translate`: the dependencies, then the conflicts. */
  method TranslateVersion<K(==)>(ev: EVersion<K>, pkgs: PackageMap<K>) returns (r: Result<PackageVer, TranslateError<K>>)
    ensures r == TranslateVersionF(ev, pkgs)
  {
    var ds := TranslateList(ev.dependencies, pkgs);
    if ds.Err? {
      return Err(ds.error);
    }
    var cs := TranslateList(ev.conflicts, pkgs);
    if cs.Err? {
      return Err(cs.error);
    }
    r := Ok(PackageVer(RequirementSet(ds.value, cs.value)));
  }

  /** A translated version carries, in order, the translations of the
      version's dependencies and of its conflicts. */
  lemma TranslateVersionSpec<K>(ev: EVersion<K>, pkgs: PackageMap<K>)
    ensures TranslateVersionF(ev, pkgs).Ok? <==>
      (forall j :: 0 <= j < |ev.dependencies| ==> TranslateReq(ev.dependencies[j], pkgs).Ok?) &&
      (forall j :: 0 <= j < |ev.conflicts| ==> TranslateReq(ev.conflicts[j], pkgs).Ok?)
    ensures TranslateVersionF(ev, pkgs).Ok? ==>
      var rs := TranslateVersionF(ev, pkgs).value.requirements;
      |rs.dependencies| == |ev.dependencies| && |rs.conflicts| == |ev.conflicts| &&
      (forall j :: 0 <= j < |ev.dependencies| ==> rs.dependencies[j] == TranslateReq(ev.dependencies[j], pkgs).value) &&
      (forall j :: 0 <= j < |ev.conflicts| ==> rs.conflicts[j] == TranslateReq(ev.conflicts[j], pkgs).value)
  {
    TranslateAllOk(ev.dependencies, pkgs);
    TranslateAllOk(ev.conflicts, pkgs);
  }

  // ---------------------------------------------------------------------
  // `EPackageBuilder`: versions sorted by key (stably), first one of each
  // key kept

  /** Insert `x` after every element whose key is not above its own. */
  function InsertByVersion<K>(x: EVersion<K>, s: seq<EVersion<K>>): (r: seq<EVersion<K>>)
    ensures |r| == |s| + 1
    decreases |s|
  {
    if s == [] then [x]
    else if x.version < s[0].version then [x] + s
    else [s[0]] + InsertByVersion(x, s[1..])
  }

  /** `sort_by` on the version key: a stable sort, here by insertion. */
  function SortByVersion<K>(s: seq<EVersion<K>>): (r: seq<EVersion<K>>)
    ensures |r| == |s|
    decreases |s|
  {
    if s == [] then [] else InsertByVersion(s[|s| - 1], SortByVersion(s[..|s| - 1]))
  }

  ghost predicate SortedByVersion<K>(s: seq<EVersion<K>>)
  {
    forall j, l :: 0 <= j < l < |s| ==> s[j].version <= s[l].version
  }

  /** The elements with key `k`, in order. */
  function WithVersion<K>(s: seq<EVersion<K>>, k: int): seq<EVersion<K>>
    decreases |s|
  {
    if s == [] then [] else (if s[0].version == k then [s[0]] else []) + WithVersion(s[1..], k)
  }

  lemma {:induction false} WithVersionConcat<K>(a: seq<EVersion<K>>, b: seq<EVersion<K>>, k: int)
    ensures WithVersion(a + b, k) == WithVersion(a, k) + WithVersion(b, k)
    decreases |a|
  {
    if a != [] {
      assert (a + b)[1..] == a[1..] + b;
      WithVersionConcat(a[1..], b, k);
    } else {
      assert a + b == b;
    }
  }

  lemma {:induction false} WithVersionNone<K>(s: seq<EVersion<K>>, k: int)
    requires forall j :: 0 <= j < |s| ==> s[j].version != k
    ensures WithVersion(s, k) == []
    decreases |s|
  {
    if s != [] {
      WithVersionNone(s[1..], k);
    }
  }

  /** Inserting into a sorted list keeps it sorted; the first element is
      the smaller of `x` and the old first element. */
  lemma {:induction false} InsertByVersionSorted<K>(x: EVersion<K>, s: seq<EVersion<K>>)
    requires SortedByVersion(s)
    ensures SortedByVersion(InsertByVersion(x, s))
    ensures InsertByVersion(x, s)[0].version ==
      if s == [] || x.version < s[0].version then x.version else s[0].version
    decreases |s|
  {
    if s != [] && x.version >= s[0].version {
      var t := s[1..];
      InsertByVersionSorted(x, t);
      var r' := InsertByVersion(x, t);
      var r := InsertByVersion(x, s);
      assert r == [s[0]] + r';
      assert s[0].version <= r'[0].version;
      forall j, l | 0 <= j < l < |r|
        ensures r[j].version <= r[l].version
      {
        if j == 0 && l > 1 {
          assert r'[0].version <= r'[l - 1].version;
        }
      }
    }
  }

  /** Insertion puts `x` after every element with the same key. */
  lemma {:induction false} InsertByVersionStable<K>(x: EVersion<K>, s: seq<EVersion<K>>, k: int)
    requires SortedByVersion(s)
    ensures WithVersion(InsertByVersion(x, s), k) == WithVersion(s, k) + WithVersion([x], k)
    decreases |s|
  {
    if s == [] {
      assert WithVersion([x], k) == (if x.version == k then [x] else []) + WithVersion([], k);
    } else if x.version < s[0].version {
      WithVersionConcat([x], s, k);
      if k == x.version {
        WithVersionNone(s, k);
      }
    } else {
      var t := s[1..];
      InsertByVersionStable(x, t, k);
      WithVersionConcat([s[0]], InsertByVersion(x, t), k);
      WithVersionConcat([s[0]], t, k);
      assert s == [s[0]] + t;
    }
  }

  /** The sort orders by key and is stable: for every key, the elements
      carrying it keep their relative order. */
  lemma {:induction false} SortByVersionSpec<K>(s: seq<EVersion<K>>)
    ensures SortedByVersion(SortByVersion(s))
    ensures forall k :: WithVersion(SortByVersion(s), k) == WithVersion(s, k)
    decreases |s|
  {
    if s != [] {
      var p := s[..|s| - 1];
      SortByVersionSpec(p);
      InsertByVersionSorted(s[|s| - 1], SortByVersion(p));
      assert s == p + [s[|s| - 1]];
      forall k
        ensures WithVersion(SortByVersion(s), k) == WithVersion(s, k)
      {
        InsertByVersionStable(s[|s| - 1], SortByVersion(p), k);
        WithVersionConcat(p, [s[|s| - 1]], k);
      }
    }
  }

  /** The loop of `EPackageBuilder::build`: insert each version under its
      key unless the key is already taken. */
  function Dedupe<K>(s: seq<EVersion<K>>): IndexMap<int, EVersion<K>>
    decreases |s|
  {
    if s == [] then IndexMaps.Empty()
    else
      var m := Dedupe(s[..|s| - 1]);
      var x := s[|s| - 1];
      if m.ContainsKey(x.version) then m else m.Insert(x.version, x)
  }

  /** The deduplicated map holds exactly the keys of the list, under each
      key the first element carrying it. */
  ghost predicate HoldsFirsts<K>(m: IndexMap<int, EVersion<K>>, s: seq<EVersion<K>>)
  {
    && (forall k :: m.ContainsKey(k) <==> |WithVersion(s, k)| >= 1)
    && (forall j :: 0 <= j < |m.entries| ==>
          |WithVersion(s, m.entries[j].0)| >= 1 && m.entries[j].1 == WithVersion(s, m.entries[j].0)[0])
  }

  lemma {:induction false} DedupeContents<K>(s: seq<EVersion<K>>)
    ensures HoldsFirsts(Dedupe(s), s)
    decreases |s|
  {
    if s != [] {
      var p := s[..|s| - 1];
      var x := s[|s| - 1];
      assert s == p + [x];
      DedupeContents(p);
      forall k
        ensures WithVersion(s, k) == WithVersion(p, k) + (if x.version == k then [x] else [])
      {
        WithVersionConcat(p, [x], k);
        assert WithVersion([x], k) == (if x.version == k then [x] else []) + WithVersion([], k);
      }
      if Dedupe(p).ContainsKey(x.version) {
        DedupeKept(Dedupe(p), p, x, s);
      } else {
        assert Dedupe(s).entries == Dedupe(p).entries + [(x.version, x)];
        DedupeAdded(Dedupe(p), Dedupe(s), p, x, s);
      }
    }
  }

  /** A key already present: the map, and every first element, stay. */
  lemma DedupeKept<K>(m: IndexMap<int, EVersion<K>>, p: seq<EVersion<K>>, x: EVersion<K>, s: seq<EVersion<K>>)
    requires HoldsFirsts(m, p) && m.ContainsKey(x.version)
    requires forall k :: WithVersion(s, k) == WithVersion(p, k) + (if x.version == k then [x] else [])
    ensures HoldsFirsts(m, s)
  {
    forall j | 0 <= j < |m.entries|
      ensures |WithVersion(s, m.entries[j].0)| >= 1 && m.entries[j].1 == WithVersion(s, m.entries[j].0)[0]
    {
      assert |WithVersion(p, m.entries[j].0)| >= 1;
    }
  }

  /** A new key: it goes to the end, holding `x`, the first (and only)
      element with that key. */
  lemma DedupeAdded<K>(m: IndexMap<int, EVersion<K>>, n: IndexMap<int, EVersion<K>>,
                       p: seq<EVersion<K>>, x: EVersion<K>, s: seq<EVersion<K>>)
    requires HoldsFirsts(m, p) && !m.ContainsKey(x.version)
    requires n.entries == m.entries + [(x.version, x)]
    requires forall k :: WithVersion(s, k) == WithVersion(p, k) + (if x.version == k then [x] else [])
    ensures HoldsFirsts(n, s)
  {
    DedupeAddedKeys(m, n, p, x, s);
    forall j | 0 <= j < |n.entries|
      ensures |WithVersion(s, n.entries[j].0)| >= 1 && n.entries[j].1 == WithVersion(s, n.entries[j].0)[0]
    {
      if j < |m.entries| {
        assert n.entries[j] == m.entries[j];
        assert |WithVersion(p, m.entries[j].0)| >= 1;
      } else {
        assert |WithVersion(p, x.version)| == 0;
      }
    }
  }

  lemma DedupeAddedKeys<K>(m: IndexMap<int, EVersion<K>>, n: IndexMap<int, EVersion<K>>,
                           p: seq<EVersion<K>>, x: EVersion<K>, s: seq<EVersion<K>>)
    requires forall k :: m.ContainsKey(k) <==> |WithVersion(p, k)| >= 1
    requires n.entries == m.entries + [(x.version, x)]
    requires forall k :: WithVersion(s, k) == WithVersion(p, k) + (if x.version == k then [x] else [])
    ensures forall k :: n.ContainsKey(k) <==> |WithVersion(s, k)| >= 1
  {
    forall k
      ensures n.ContainsKey(k) <==> |WithVersion(s, k)| >= 1
    {
      if k != x.version {
        if n.ContainsKey(k) {
          var j :| 0 <= j < |n.entries| && n.entries[j].0 == k;
          assert m.entries[j].0 == k;
        }
        if m.ContainsKey(k) {
          var j :| 0 <= j < |m.entries| && m.entries[j].0 == k;
          assert n.entries[j].0 == k;
        }
      } else {
        assert n.entries[|m.entries|].0 == k;
      }
    }
  }

  /** Every key of the deduplicated map is the key of some element. */
  lemma DedupeKeyFrom<K>(s: seq<EVersion<K>>, j: nat)
    requires j < |Dedupe(s).entries|
    ensures exists l :: 0 <= l < |s| && s[l].version == Dedupe(s).entries[j].0
  {
    DedupeContents(s);
    WithVersionMembers(s, Dedupe(s).entries[j].0);
  }

  /** On a sorted list the keys come out strictly ascending (so distinct). */
  lemma {:induction false} DedupeAscending<K>(s: seq<EVersion<K>>)
    requires SortedByVersion(s)
    ensures forall j, l :: 0 <= j < l < |Dedupe(s).entries| ==> Dedupe(s).entries[j].0 < Dedupe(s).entries[l].0
    decreases |s|
  {
    if s != [] {
      var p := s[..|s| - 1];
      var x := s[|s| - 1];
      DedupeAscending(p);
      var m := Dedupe(p);
      if !m.ContainsKey(x.version) {
        forall j | 0 <= j < |m.entries|
          ensures m.entries[j].0 < x.version
        {
          DedupeKeyFrom(p, j);
          var q :| 0 <= q < |p| && p[q].version == m.entries[j].0;
          assert s[q] == p[q];
        }
        assert Dedupe(s).entries == m.entries + [(x.version, x)];
      }
    }
  }

  function BuildPackage<K>(name: K, versions: seq<EVersion<K>>): EPackage<K>
  {
    EPackage(name, Dedupe(SortByVersion(versions)))
  }

  /** What `EPackageBuilder::build` promises: the built package has the
      builder's name; its version map has one entry per distinct version
      key, in ascending key order, holding the first version added with
      that key. */
  lemma BuildPackageSpec<K>(name: K, versions: seq<EVersion<K>>)
    ensures BuildPackage(name, versions).name == name
    ensures BuildPackage(name, versions).versions.Valid()
    ensures var es := BuildPackage(name, versions).versions.entries;
      forall j, l :: 0 <= j < l < |es| ==> es[j].0 < es[l].0
    ensures forall k :: BuildPackage(name, versions).versions.ContainsKey(k) <==>
      exists j :: 0 <= j < |versions| && versions[j].version == k
    ensures var es := BuildPackage(name, versions).versions.entries;
      forall j :: 0 <= j < |es| ==>
        |WithVersion(versions, es[j].0)| >= 1 && es[j].1 == WithVersion(versions, es[j].0)[0]
  {
    var sorted := SortByVersion(versions);
    SortByVersionSpec(versions);
    DedupeContents(sorted);
    DedupeAscending(sorted);
    forall k
      ensures BuildPackage(name, versions).versions.ContainsKey(k) <==>
              exists j :: 0 <= j < |versions| && versions[j].version == k
    {
      WithVersionMembers(versions, k);
    }
  }

  /** Some element has key `k` exactly when the elements with key `k` are
      not none. */
  lemma {:induction false} WithVersionMembers<K>(s: seq<EVersion<K>>, k: int)
    ensures (exists j :: 0 <= j < |s| && s[j].version == k) <==> |WithVersion(s, k)| >= 1
    decreases |s|
  {
    if s != [] {
      WithVersionMembers(s[1..], k);
      if s[0].version != k && exists j :: 0 <= j < |s| && s[j].version == k {
        var j :| 0 <= j < |s| && s[j].version == k;
        assert s[1..][j - 1].version == k;
      }
      if exists j :: 0 <= j < |s[1..]| && s[1..][j].version == k {
        var j :| 0 <= j < |s[1..]| && s[1..][j].version == k;
        assert s[j + 1].version == k;
      }
    }
  }

  class EPackageBuilder<K> {
    var name: K
    var versions: seq<EVersion<K>>

    /** `EPackageBuilder::new`. */
    constructor (name: K)
      ensures this.name == name && versions == []
    {
      this.name := name;
      versions := [];
    }

    /** `add_version`: appended, duplicates included. */
    method AddVersion(version: EVersion<K>)
      modifies this
      ensures versions == old(versions) + [version]
      ensures name == old(name)
    {
      versions := versions + [version];
    }

    /** `build`: sort by key, then keep the first version of each key. */
    method Build() returns (p: EPackage<K>)
      ensures p == BuildPackage(name, versions)
    {
      var sorted := SortByVersion(versions);
      var m: IndexMap<int, EVersion<K>> := IndexMaps.Empty();
      var i := 0;
      while i < |sorted|
        invariant 0 <= i <= |sorted|
        invariant m == Dedupe(sorted[..i])
      {
        Seqs.TakeSnoc(sorted, i);
        assert sorted[..i + 1][..i] == sorted[..i];
        var v := sorted[i];
        if !m.ContainsKey(v.version) {
          m := m.Insert(v.version, v);
        }
        i := i + 1;
      }
      assert sorted[..i] == sorted;
      p := EPackage(name, m);
    }
  }

  // ---------------------------------------------------------------------
  // `ERepositoryBuilder`: check every requirement and build the spine

  datatype RepositoryBuildError<K> =
    | UnknownPackage(source: K, version: int, unknown: K)
    | IllformedRequirement(source: K, version: int, requirement: ERequirement<K>)

  datatype ERepository<K(==)> = ERepository(packages: PackageMap<K>, spine: Repository)

  /** The `map_err` of `build`: attach the package name and version key. */
  function BuildError<K>(source: K, version: int, e: TranslateError<K>): (r: RepositoryBuildError<K>)
    ensures e.UnknownName? <==> r.UnknownPackage?
    ensures r.source == source && r.version == version
  {
    match e
    case UnknownName(k) => UnknownPackage(source, version, k)
    case EmptyRanges(req) => IllformedRequirement(source, version, req)
  }

  /** One step of the inner loop of `build`: translate one version. */
  function VersionStep<K(==)>(name: K, pkgs: PackageMap<K>): (nat, (int, EVersion<K>)) -> Result<PackageVer, RepositoryBuildError<K>>
  {
    (j: nat, e: (int, EVersion<K>)) =>
      match TranslateVersionF(e.1, pkgs)
      case Err(err) => Err(BuildError(name, e.0, err))
      case Ok(pv) => Ok(pv)
  }

  /** One step of the outer loop: the package at position `i` gets id `i`. */
  function PackageStep<K(==)>(pkgs: PackageMap<K>): (nat, (K, EPackage<K>)) -> Result<Package, RepositoryBuildError<K>>
  {
    (i: nat, e: (K, EPackage<K>)) =>
      match TryMap(e.1.versions.entries, VersionStep(e.0, pkgs))
      case Err(err) => Err(err)
      case Ok(vs) => Ok(Package(i, vs))
  }

  /** What `ERepositoryBuilder::build` returns. */
  function BuildRepo<K(==)>(pkgs: PackageMap<K>): Result<ERepository<K>, RepositoryBuildError<K>>
  {
    match TryMap(pkgs.entries, PackageStep(pkgs))
    case Err(e) => Err(e)
    case Ok(ps) => Ok(ERepository(pkgs, Repository(ps)))
  }

  /** Every requirement of the spine names a package of the spine, and its
      ranges are in normal form within that package's versions `1..=n`. */
  ghost predicate FitsRepository(r: Requirement, repo: Repository)
  {
    && r.package < |repo.packages|
    && Intervals.NormalForm(r.versions)
    && forall j :: 0 <= j < |r.versions| ==>
         1 <= Intervals.Lo(r.versions[j]) && Intervals.Hi(r.versions[j]) <= |repo.packages[r.package].versions|
  }

  ghost predicate SpineClosed(repo: Repository)
  {
    forall i, v :: 0 <= i < |repo.packages| && 0 <= v < |repo.packages[i].versions| ==>
      var rs := repo.packages[i].versions[v].requirements;
      (forall l :: 0 <= l < |rs.dependencies| ==> FitsRepository(rs.dependencies[l], repo)) &&
      (forall l :: 0 <= l < |rs.conflicts| ==> FitsRepository(rs.conflicts[l], repo))
  }

  /** The package at position `i`, translated (when it translates). */
  lemma PackageStepSpec<K>(pkgs: PackageMap<K>, i: nat)
    requires i < |pkgs.entries|
    ensures var (name, pkg) := pkgs.entries[i];
      var r := PackageStep(pkgs)(i, pkgs.entries[i]);
      (r.Ok? <==> forall j :: 0 <= j < |pkg.versions.entries| ==> TranslateVersionF(pkg.versions.entries[j].1, pkgs).Ok?) &&
      (r.Ok? ==>
         && r.value.id == i
         && |r.value.versions| == |pkg.versions.entries|
         && forall j :: 0 <= j < |pkg.versions.entries| ==>
              r.value.versions[j] == TranslateVersionF(pkg.versions.entries[j].1, pkgs).value)
  {
    var (name, pkg) := pkgs.entries[i];
    TryMapOk(pkg.versions.entries, VersionStep(name, pkgs));
  }

  /** `build` succeeds exactly when every version of every package
      translates; then the spine has one package per map entry, with id its
      position, and one version per version of the entry, translated in
      order. */
  lemma BuildRepoSpec<K>(pkgs: PackageMap<K>)
    ensures BuildRepo(pkgs).Ok? <==>
      forall i, j :: 0 <= i < |pkgs.entries| && 0 <= j < |pkgs.entries[i].1.versions.entries| ==>
        TranslateVersionF(pkgs.entries[i].1.versions.entries[j].1, pkgs).Ok?
    ensures BuildRepo(pkgs).Ok? ==>
      var repo := BuildRepo(pkgs).value;
      repo.packages == pkgs && |repo.spine.packages| == |pkgs.entries| &&
      forall i :: 0 <= i < |pkgs.entries| ==>
        var pkg := pkgs.entries[i].1;
        repo.spine.packages[i].id == i &&
        |repo.spine.packages[i].versions| == |pkg.versions.entries| &&
        forall j :: 0 <= j < |pkg.versions.entries| ==>
          repo.spine.packages[i].versions[j] == TranslateVersionF(pkg.versions.entries[j].1, pkgs).value
  {
    TryMapOk(pkgs.entries, PackageStep(pkgs));
    forall i | 0 <= i < |pkgs.entries|
      ensures var (name, pkg) := pkgs.entries[i];
      var r := PackageStep(pkgs)(i, pkgs.entries[i]);
      (r.Ok? <==> forall j :: 0 <= j < |pkg.versions.entries| ==> TranslateVersionF(pkg.versions.entries[j].1, pkgs).Ok?) &&
      (r.Ok? ==>
         && r.value.id == i
         && |r.value.versions| == |pkg.versions.entries|
         && forall j :: 0 <= j < |pkg.versions.entries| ==>
              r.value.versions[j] == TranslateVersionF(pkg.versions.entries[j].1, pkgs).value)
    {
      PackageStepSpec(pkgs, i);
    }
  }

  /** A failed build reports, with its package name and version key, the
      translation error of the first version that fails: every version of
      every earlier package translates, and so does every earlier version
      of the same package. */
  lemma BuildRepoErr<K>(pkgs: PackageMap<K>)
    ensures BuildRepo(pkgs).Err? ==>
      exists i, j :: 0 <= i < |pkgs.entries| && 0 <= j < |pkgs.entries[i].1.versions.entries| &&
        var (v, ev) := pkgs.entries[i].1.versions.entries[j];
        && TranslateVersionF(ev, pkgs).Err?
        && BuildRepo(pkgs).error == BuildError(pkgs.entries[i].0, v, TranslateVersionF(ev, pkgs).error)
        && (forall l, m :: 0 <= l < i && 0 <= m < |pkgs.entries[l].1.versions.entries| ==>
              TranslateVersionF(pkgs.entries[l].1.versions.entries[m].1, pkgs).Ok?)
        && (forall m :: 0 <= m < j ==> TranslateVersionF(pkgs.entries[i].1.versions.entries[m].1, pkgs).Ok?)
  {
    TryMapErr(pkgs.entries, PackageStep(pkgs));
    if BuildRepo(pkgs).Err? {
      var e := BuildRepo(pkgs).error;
      var i :| 0 <= i < |pkgs.entries| && PackageStep(pkgs)(i, pkgs.entries[i]) == Err(e) &&
        forall l :: 0 <= l < i ==> PackageStep(pkgs)(l, pkgs.entries[l]).Ok?;
      var (name, pkg) := pkgs.entries[i];
      var vs := pkg.versions.entries;
      TryMapErr(vs, VersionStep(name, pkgs));
      var j :| 0 <= j < |vs| && VersionStep(name, pkgs)(j, vs[j]) == Err(e) &&
        forall l :: 0 <= l < j ==> VersionStep(name, pkgs)(l, vs[l]).Ok?;
      assert TranslateVersionF(vs[j].1, pkgs).Err?;
      assert forall m :: 0 <= m < j ==> TranslateVersionF(vs[m].1, pkgs).Ok?;
      forall l | 0 <= l < i
        ensures forall m :: 0 <= m < |pkgs.entries[l].1.versions.entries| ==>
          TranslateVersionF(pkgs.entries[l].1.versions.entries[m].1, pkgs).Ok?
      {
        PackageStepSpec(pkgs, l);
      }
    }
  }

  /** The built spine is closed: no requirement names a package id outside
      the spine or a version outside its package. */
  lemma BuildRepoClosed<K>(pkgs: PackageMap<K>)
    requires BuildRepo(pkgs).Ok?
    ensures SpineClosed(BuildRepo(pkgs).value.spine)
  {
    BuildRepoSpec(pkgs);
    var repo := BuildRepo(pkgs).value.spine;
    forall i, v | 0 <= i < |repo.packages| && 0 <= v < |repo.packages[i].versions|
      ensures var rs := repo.packages[i].versions[v].requirements;
        (forall l :: 0 <= l < |rs.dependencies| ==> FitsRepository(rs.dependencies[l], repo)) &&
        (forall l :: 0 <= l < |rs.conflicts| ==> FitsRepository(rs.conflicts[l], repo))
    {
      var ev := pkgs.entries[i].1.versions.entries[v].1;
      TranslateVersionSpec(ev, pkgs);
      var rs := repo.packages[i].versions[v].requirements;
      forall l | 0 <= l < |rs.dependencies|
        ensures FitsRepository(rs.dependencies[l], repo)
      {
        TranslatedFits(ev.dependencies[l], pkgs, repo);
      }
      forall l | 0 <= l < |rs.conflicts|
        ensures FitsRepository(rs.conflicts[l], repo)
      {
        TranslatedFits(ev.conflicts[l], pkgs, repo);
      }
    }
  }

  lemma TranslatedFits<K>(req: ERequirement<K>, pkgs: PackageMap<K>, repo: Repository)
    requires TranslateReq(req, pkgs).Ok?
    requires |repo.packages| == |pkgs.entries|
    requires forall i :: 0 <= i < |pkgs.entries| ==>
      |repo.packages[i].versions| == |pkgs.entries[i].1.versions.entries|
    ensures FitsRepository(TranslateReq(req, pkgs).value, repo)
  {
    var (id, pkg) := pkgs.GetFull(req.package).value;
    TranslateReqSpec(req, pkgs, id, pkg);
  }

  class ERepositoryBuilder<K(==)> {
    var packages: PackageMap<K>

    /** Every package is stored under its own name, and names are distinct. */
    ghost predicate Valid()
      reads this
    {
      packages.Valid() &&
      forall j :: 0 <= j < |packages.entries| ==> packages.entries[j].1.name == packages.entries[j].0
    }

    /** `ERepositoryBuilder::new` (and `Default`). */
    constructor ()
      ensures Valid() && packages.entries == []
    {
      packages := IndexMaps.Empty();
    }

    /** `add_package`: a package whose name is new goes to the end and the
        result is `true`; otherwise nothing changes and it is `false`. */
    method AddPackage(package: EPackage<K>) returns (added: bool)
      requires Valid()
      modifies this
      ensures Valid()
      ensures added <==> !old(packages).ContainsKey(package.name)
      ensures added ==> packages.entries == old(packages.entries) + [(package.name, package)]
      ensures !added ==> packages == old(packages)
    {
      if !packages.ContainsKey(package.name) {
        IndexMaps.InsertValid(packages, package.name, package);
        packages := packages.Insert(package.name, package);
        added := true;
      } else {
        added := false;
      }
    }

    /** `build`: translate every version of every package, in map order,
        stopping at the first failure. */
    method Build() returns (r: Result<ERepository<K>, RepositoryBuildError<K>>)
      ensures r == BuildRepo(packages)
    {
      var entries := packages.entries;
      var pkgs: seq<Package> := [];
      var i := 0;
      while i < |entries|
        invariant 0 <= i <= |entries|
        invariant TryMap(entries[..i], PackageStep(packages)) == Ok(pkgs)
      {
        var (name, package) := entries[i];
        var ventries := package.versions.entries;
        var versions: seq<PackageVer> := [];
        var j := 0;
        while j < |ventries|
          invariant 0 <= j <= |ventries|
          invariant TryMap(ventries[..j], VersionStep(name, packages)) == Ok(versions)
        {
          TryMapSnoc(ventries, j, VersionStep(name, packages));
          var (v, version) := ventries[j];
          var t := TranslateVersion(version, packages);
          if t.Err? {
            TryMapPrefixErr(ventries, j + 1, VersionStep(name, packages));
            TryMapSnoc(entries, i, PackageStep(packages));
            TryMapPrefixErr(entries, i + 1, PackageStep(packages));
            return Err(BuildError(name, v, t.error));
          }
          versions := versions + [t.value];
          j := j + 1;
        }
        assert ventries[..j] == ventries;
        TryMapSnoc(entries, i, PackageStep(packages));
        pkgs := pkgs + [Package(i, versions)];
        i := i + 1;
      }
      assert entries[..i] == entries;
      r := Ok(ERepository(packages, Repository(pkgs)));
    }
  }
}
