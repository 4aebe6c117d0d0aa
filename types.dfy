/** The core value types of the resolver (src/types.rs): version ranges,
    requirements, requirement sets, packages, repositories and resolution
    results. Versions of a package are numbered 1, 2, ... in its version list;
    0 stands for "not installed". */
module Types {
  import opened Wrappers
  import Strings

  type Version = nat
  type PackageId = nat

  datatype Range = Interval(lower: Version, upper: Version) | Point(v: Version) | All

  /** The versions a range admits: the meaning the constraint encoder gives it
      (`lower <= Ver <= upper`, `Ver == v`, and `true`). */
  predicate InRange(r: Range, x: int)
  {
    match r
    case Interval(l, u) => l <= x <= u
    case Point(v) => x == v
    case All => true
  }

  /** `Range::point`. */
  function PointRange(v: Version): (r: Range)
    ensures forall x :: InRange(r, x) <==> x == v
  {
    Point(v)
  }

  /** `Range::all`. */
  function AllRange(): (r: Range)
    ensures forall x :: InRange(r, x)
  {
    All
  }

  /** `Range::interval`: a checked interval, collapsing to a point when the
      bounds agree and rejecting reversed bounds. */
  function IntervalRange(lower: Version, upper: Version): (r: Option<Range>)
    ensures r.None? <==> lower > upper
    ensures lower < upper ==> r == Some(Interval(lower, upper))
    ensures lower == upper ==> r == Some(Point(lower))
    ensures r.Some? ==> forall x :: InRange(r.value, x) <==> lower <= x <= upper
  {
    if lower < upper then Some(Interval(lower, upper))
    else if lower == upper then Some(Point(lower))
    else None
  }

  /** `Display for Range`: `[l, u]`, `{v}` and `𝒰`. */
  function RangeToString(r: Range): (s: string)
    ensures |s| >= 1
    ensures s[0] == '[' <==> r.Interval?
    ensures s[0] == '{' <==> r.Point?
    ensures s[0] == '𝒰' <==> r.All?
  {
    match r
    case Interval(l, u) => "[" + Strings.NatToString(l) + ", " + Strings.NatToString(u) + "]"
    case Point(v) => "{" + Strings.NatToString(v) + "}"
    case All => "𝒰"
  }

  /** A non-empty list of ranges: the contents of the `Vec1<Range>` a
      requirement carries. */
  type Ranges1 = s: seq<Range> | |s| >= 1 witness [All]

  datatype Requirement = Requirement(package: PackageId, versions: Ranges1)

  /** Version number `x` of `r.package` meets requirement `r`: it lies in the
      union of the requirement's ranges. */
  predicate Admits(r: Requirement, x: int)
  {
    exists j :: 0 <= j < |r.versions| && InRange(r.versions[j], x)
  }

  /** `Requirement::any_version`. */
  function AnyVersion(package: PackageId): (r: Requirement)
    ensures r.package == package && r.versions == [All]
    ensures forall x :: Admits(r, x)
  {
    var r := Requirement(package, [AllRange()]);
    assert InRange(r.versions[0], 0);
    r
  }

  /** `Requirement::single_version`. */
  function SingleVersion(package: PackageId, version: Version): (r: Requirement)
    ensures r.package == package && r.versions == [Point(version)]
    ensures forall x :: Admits(r, x) <==> x == version
  {
    var r := Requirement(package, [PointRange(version)]);
    assert forall x :: Admits(r, x) <==> InRange(r.versions[0], x);
    r
  }

  /** `Requirement::range`: `None` exactly when the bounds are reversed. */
  function RangeRequirement(package: PackageId, lower: Version, upper: Version): (r: Option<Requirement>)
    ensures r.None? <==> lower > upper
    ensures r.Some? ==> r.value.package == package && |r.value.versions| == 1
    ensures r.Some? ==> r.value.versions[0] == IntervalRange(lower, upper).value
    ensures r.Some? ==> forall x :: Admits(r.value, x) <==> lower <= x <= upper
  {
    match IntervalRange(lower, upper)
    case None => None
    case Some(range) =>
      var req := Requirement(package, [range]);
      assert forall x :: Admits(req, x) <==> InRange(req.versions[0], x);
      Some(req)
  }

  /** Dependencies and conflicts of one package version (or of a request).
      The `add_*` mutators are modelled as functions returning the updated
      set; `Default` is the empty set. */
  datatype RequirementSet = RequirementSet(dependencies: seq<Requirement>, conflicts: seq<Requirement>)
  {
    /** `add_dep`: `dep` goes to the end of the dependencies. */
    function AddDep(dep: Requirement): (r: RequirementSet)
      ensures r.dependencies == dependencies + [dep] && r.conflicts == conflicts
    {
      this.(dependencies := dependencies + [dep])
    }

    /** `add_deps`: all of `deps`, in order, go to the end of the dependencies. */
    function AddDeps(deps: seq<Requirement>): (r: RequirementSet)
      ensures r.dependencies == dependencies + deps && r.conflicts == conflicts
    {
      this.(dependencies := dependencies + deps)
    }

    /** `add_antidep`. */
    function AddAntidep(antidep: Requirement): (r: RequirementSet)
      ensures r.conflicts == conflicts + [antidep] && r.dependencies == dependencies
    {
      this.(conflicts := conflicts + [antidep])
    }

    /** `add_antideps`. */
    function AddAntideps(antideps: seq<Requirement>): (r: RequirementSet)
      ensures r.conflicts == conflicts + antideps && r.dependencies == dependencies
    {
      this.(conflicts := conflicts + antideps)
    }

    /** `IntoIterator`: every dependency, then every conflict. */
    function Iter(): (s: seq<Requirement>)
      ensures |s| == |dependencies| + |conflicts|
      ensures forall j :: 0 <= j < |dependencies| ==> s[j] == dependencies[j]
      ensures forall j :: 0 <= j < |conflicts| ==> s[|dependencies| + j] == conflicts[j]
    {
      dependencies + conflicts
    }
  }

  /** `RequirementSet::default()`. */
  function EmptySet(): (r: RequirementSet)
    ensures r.Iter() == []
  {
    RequirementSet([], [])
  }

  function FromDep(dep: Requirement): (r: RequirementSet)
    ensures r == EmptySet().AddDep(dep)
  {
    RequirementSet([dep], [])
  }

  function FromDeps(deps: seq<Requirement>): (r: RequirementSet)
    ensures r == EmptySet().AddDeps(deps)
  {
    RequirementSet(deps, [])
  }

  function FromAntidep(antidep: Requirement): (r: RequirementSet)
    ensures r == EmptySet().AddAntidep(antidep)
  {
    RequirementSet([], [antidep])
  }

  function FromAntideps(antideps: seq<Requirement>): (r: RequirementSet)
    ensures r == EmptySet().AddAntideps(antideps)
  {
    RequirementSet([], antideps)
  }

  /** Adding the elements of `deps` one `AddDep` at a time. */
  function AddDepsOneByOne(rs: RequirementSet, deps: seq<Requirement>): RequirementSet
    decreases deps
  {
    if deps == [] then rs else AddDepsOneByOne(rs.AddDep(deps[0]), deps[1..])
  }

  function AddAntidepsOneByOne(rs: RequirementSet, antideps: seq<Requirement>): RequirementSet
    decreases antideps
  {
    if antideps == [] then rs else AddAntidepsOneByOne(rs.AddAntidep(antideps[0]), antideps[1..])
  }

  /** `add_deps` (Vec::append) is the same as pushing each element in turn. */
  lemma {:induction false} AddDepsIsRepeatedAddDep(rs: RequirementSet, deps: seq<Requirement>)
    ensures rs.AddDeps(deps) == AddDepsOneByOne(rs, deps)
    decreases deps
  {
    if deps != [] {
      AddDepsIsRepeatedAddDep(rs.AddDep(deps[0]), deps[1..]);
      assert rs.dependencies + deps == rs.dependencies + [deps[0]] + deps[1..];
    }
  }

  lemma {:induction false} AddAntidepsIsRepeatedAddAntidep(rs: RequirementSet, antideps: seq<Requirement>)
    ensures rs.AddAntideps(antideps) == AddAntidepsOneByOne(rs, antideps)
    decreases antideps
  {
    if antideps != [] {
      AddAntidepsIsRepeatedAddAntidep(rs.AddAntidep(antideps[0]), antideps[1..]);
      assert rs.conflicts + antideps == rs.conflicts + [antideps[0]] + antideps[1..];
    }
  }

  /** Iteration after an `add_dep` puts the new dependency just before the conflicts. */
  lemma IterAfterAddDep(rs: RequirementSet, dep: Requirement)
    ensures rs.AddDep(dep).Iter() == rs.dependencies + [dep] + rs.conflicts
  {
  }

  datatype PackageVer = PackageVer(requirements: RequirementSet)

  datatype Package = Package(id: PackageId, versions: seq<PackageVer>)
  {
    /** `newest_version_number`: versions are numbered 1..n, so the newest is n. */
    function NewestVersionNumber(): (n: Version)
      ensures n == |versions|
    {
      |versions|
    }

    /** `newest_version`: the last version; panics on an empty version list. */
    function NewestVersion(): (v: PackageVer)
      requires |versions| > 0
      ensures v == versions[NewestVersionNumber() - 1]
      ensures v == versions[|versions| - 1]
    {
      versions[NewestVersionNumber() - 1]
    }
  }

  datatype Repository = Repository(packages: seq<Package>)
  {
    /** `get_package`: `Vec::get` on the package list. */
    function GetPackage(id: PackageId): (r: Option<Package>)
      ensures r.Some? <==> id < |packages|
      ensures r.Some? ==> r.value == packages[id]
    {
      if id < |packages| then Some(packages[id]) else None
    }

    /** `get_package_unchecked`: panics when `id` is out of range. */
    function GetPackageUnchecked(id: PackageId): (p: Package)
      requires id < |packages|
      ensures GetPackage(id) == Some(p)
    {
      packages[id]
    }

    /** `newest_ver_of`. */
    function NewestVerOf(id: PackageId): (r: Option<Version>)
      ensures r.Some? <==> id < |packages|
      ensures r.Some? ==> r.value == |packages[id].versions|
    {
      match GetPackage(id)
      case None => None
      case Some(p) => Some(p.NewestVersionNumber())
    }

    /** `newest_ver_of_unchecked`. */
    function NewestVerOfUnchecked(id: PackageId): (n: Version)
      requires id < |packages|
      ensures NewestVerOf(id) == Some(n)
    {
      GetPackageUnchecked(id).NewestVersionNumber()
    }
  }

  /** Resolution errors. src/types.rs declares only `TimeOut`; the closure
      computation of src/constraints.rs also raises `IllegalIndex`, so both
      are cases here. */
  datatype ResolutionError = TimeOut | IllegalIndex(index: PackageId)

  /** An installation plan: package ids paired with chosen version numbers. */
  type Plan = seq<(PackageId, Version)>

  /** Id-keyed maps of per-version requirement sets, plus the top-level ones. */
  datatype ConstraintSet = ConstraintSet(packageReqs: map<PackageId, map<Version, RequirementSet>>,
                                         toplevelReqs: RequirementSet)

  /** A non-empty list of plans: the contents of the `Vec1<Plan>` a
      satisfiable result carries. */
  type Plans1 = s: seq<Plan> | |s| >= 1 witness [[]]

  datatype ResolutionResult = Unsat | UnsatWithCore(core: ConstraintSet) | Sat(plans: Plans1)
  {
    function IsSat(): (b: bool)
      ensures b <==> this.Sat?
    {
      match this
      case Sat(_) => true
      case _ => false
    }

    function IsUnsat(): (b: bool)
      ensures b == !IsSat()
      ensures b <==> (this.Unsat? || this.UnsatWithCore?)
    {
      !IsSat()
    }
  }
}
