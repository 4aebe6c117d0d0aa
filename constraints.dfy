/** The dependency closure of a request and the formulas the solver is given
    (src/constraints.rs). The closure is the set of package ids reachable
    from the request through the requirements of every version; the
    formulas say, for each package in it, which version may be installed
    and what installing that version demands. The solver's terms are
    modelled as `Formulas.Expr` values, which `Formulas.Eval` interprets. */
module Constraints {
  import opened Wrappers
  import opened Types
  import Intervals
  import opened Formulas

  // ---------------------------------------------------------------------
  // find_closure

  /** The ids below `n`. */
  function Below(n: nat): (s: set<PackageId>)
    ensures forall p: PackageId :: p in s <==> p < n
  {
    if n == 0 then {} else Below(n - 1) + {n - 1}
  }

  /** The ids that index a package of `repo`. */
  function ValidIds(repo: Repository): (s: set<PackageId>)
    ensures forall p: PackageId :: p in s <==> p < |repo.packages|
  {
    Below(|repo.packages|)
  }

  /** A subset is no larger, and a proper subset is smaller. */
  lemma {:induction false} SubsetCard<T>(a: set<T>, b: set<T>)
    requires a <= b
    ensures |a| <= |b|
    ensures a != b ==> |a| < |b|
    decreases a
  {
    if a == {} {
      if a != b {
        var x :| x in b;
        assert |b| >= 1 by { assert x in b; }
      }
    } else {
      var x :| x in a;
      SubsetCard(a - {x}, b - {x});
      if a != b {
        assert a - {x} != b - {x} by {
          var y :| (y in b && y !in a) || (y in a && y !in b);
        }
      }
    }
  }

  /** Every requirement of `reqs` names a member of `s`. */
  predicate CoversReqs(reqs: seq<Requirement>, s: set<PackageId>)
  {
    forall j :: 0 <= j < |reqs| ==> reqs[j].package in s
  }

  /** Every requirement of every version in `vers` names a member of `s`. */
  predicate CoversVers(vers: seq<PackageVer>, s: set<PackageId>)
  {
    forall j :: 0 <= j < |vers| ==> CoversReqs(vers[j].requirements.Iter(), s)
  }

  /** Each member of `s` that is a package of `repo` requires only members. */
  predicate EdgeClosed(repo: Repository, s: set<PackageId>)
  {
    forall p :: p in s && p < |repo.packages| ==> CoversVers(repo.packages[p].versions, s)
  }

  /** `s` is a set of packages of `repo` closed under requirements. */
  predicate Closed(repo: Repository, s: set<PackageId>)
  {
    (forall p :: p in s ==> p < |repo.packages|) && EdgeClosed(repo, s)
  }

  /** `find_closure_helper` over the requirements `reqs` with accumulator
      `acc`: a requirement whose package is already in `acc` is skipped;
      otherwise the package joins `acc` and, unless its id is out of range
      (`IllegalIndex`), the requirements of each of its versions are
      processed in turn. The first error ends everything. */
  function ClosureReqs(repo: Repository, reqs: seq<Requirement>, acc: set<PackageId>): (r: Result<set<PackageId>, ResolutionError>)
    ensures r.Ok? ==> acc <= r.value && r.value - acc <= ValidIds(repo)
    ensures r.Err? ==> r.error.IllegalIndex? && r.error.index >= |repo.packages|
    decreases |ValidIds(repo) - acc|, 0, |reqs|
  {
    if reqs == [] then Ok(acc)
    else
      var p := reqs[0].package;
      if p in acc then ClosureReqs(repo, reqs[1..], acc)
      else if p >= |repo.packages| then Err(IllegalIndex(p))
      else
        var acc1 := acc + {p};
        SubsetCard(ValidIds(repo) - acc1, ValidIds(repo) - acc);
        match ClosureVers(repo, repo.packages[p].versions, acc1)
        case Err(e) => Err(e)
        case Ok(acc2) =>
          SubsetCard(ValidIds(repo) - acc2, ValidIds(repo) - acc1);
          ClosureReqs(repo, reqs[1..], acc2)
  }

  /** The inner loop of `find_closure_helper`: the versions of one package. */
  function ClosureVers(repo: Repository, vers: seq<PackageVer>, acc: set<PackageId>): (r: Result<set<PackageId>, ResolutionError>)
    ensures r.Ok? ==> acc <= r.value && r.value - acc <= ValidIds(repo)
    ensures r.Err? ==> r.error.IllegalIndex? && r.error.index >= |repo.packages|
    decreases |ValidIds(repo) - acc|, 1, |vers|
  {
    if vers == [] then Ok(acc)
    else match ClosureReqs(repo, vers[0].requirements.Iter(), acc)
      case Err(e) => Err(e)
      case Ok(acc1) =>
        SubsetCard(ValidIds(repo) - acc1, ValidIds(repo) - acc);
        ClosureVers(repo, vers[1..], acc1)
  }

  /** What `find_closure` returns. */
  function Closure(repo: Repository, reqs: seq<Requirement>): Result<set<PackageId>, ResolutionError>
  {
    ClosureReqs(repo, reqs, {})
  }

  /** `find_closure_helper`: `acc` is the caller's set, threaded through the
      loop and the recursive calls. */
  method FindClosureHelper(repo: Repository, reqs: seq<Requirement>, acc0: set<PackageId>)
    returns (r: Result<set<PackageId>, ResolutionError>)
    ensures r == ClosureReqs(repo, reqs, acc0)
    decreases |ValidIds(repo) - acc0|, 0
  {
    var acc := acc0;
    var i := 0;
    while i < |reqs|
      invariant 0 <= i <= |reqs|
      invariant acc0 <= acc && acc - acc0 <= ValidIds(repo)
      invariant ClosureReqs(repo, reqs, acc0) == ClosureReqs(repo, reqs[i..], acc)
    {
      var p := reqs[i].package;
      assert reqs[i..][0] == reqs[i] && reqs[i..][1..] == reqs[i + 1..];
      var notPresent := p !in acc;
      ghost var before := acc;
      acc := acc + {p};
      if notPresent {
        if p >= |repo.packages| {
          return Err(IllegalIndex(p));
        }
        assert p in ValidIds(repo) - acc0 && p !in ValidIds(repo) - acc;
        SubsetCard(ValidIds(repo) - acc, ValidIds(repo) - acc0);
        var sub := VisitVersions(repo, repo.packages[p].versions, acc);
        if sub.Err? {
          return Err(sub.error);
        }
        acc := sub.value;
      } else {
        assert acc == before;
      }
      i := i + 1;
    }
    assert reqs[i..] == [];
    return Ok(acc);
  }

  /** The inner loop of `find_closure_helper`, over the versions of the
      package just added. */
  method VisitVersions(repo: Repository, vers: seq<PackageVer>, acc0: set<PackageId>)
    returns (r: Result<set<PackageId>, ResolutionError>)
    ensures r == ClosureVers(repo, vers, acc0)
    decreases |ValidIds(repo) - acc0|, 1
  {
    var acc := acc0;
    var j := 0;
    while j < |vers|
      invariant 0 <= j <= |vers|
      invariant acc0 <= acc && acc - acc0 <= ValidIds(repo)
      invariant ClosureVers(repo, vers, acc0) == ClosureVers(repo, vers[j..], acc)
    {
      assert vers[j..][0] == vers[j] && vers[j..][1..] == vers[j + 1..];
      SubsetCard(ValidIds(repo) - acc, ValidIds(repo) - acc0);
      var sub := FindClosureHelper(repo, vers[j].requirements.Iter(), acc);
      if sub.Err? {
        return Err(sub.error);
      }
      acc := sub.value;
      j := j + 1;
    }
    assert vers[j..] == [];
    return Ok(acc);
  }

  /** `find_closure`: the helper from an empty set. */
  method FindClosure(repo: Repository, reqs: seq<Requirement>) returns (r: Result<set<PackageId>, ResolutionError>)
    ensures r == Closure(repo, reqs)
  {
    r := FindClosureHelper(repo, reqs, {});
  }

  /** Each member the helper adds beyond `acc` is a package whose
      requirements all name members of the result. */
  predicate DoneBeyond(repo: Repository, acc: set<PackageId>, s: set<PackageId>)
  {
    forall p :: p in s && p !in acc ==> p < |repo.packages| && CoversVers(repo.packages[p].versions, s)
  }

  lemma CoversMonotone(vers: seq<PackageVer>, s: set<PackageId>, t: set<PackageId>)
    requires s <= t && CoversVers(vers, s)
    ensures CoversVers(vers, t)
  {
    forall j | 0 <= j < |vers|
      ensures CoversReqs(vers[j].requirements.Iter(), t)
    {
      assert CoversReqs(vers[j].requirements.Iter(), s);
    }
  }

  lemma {:induction false} ReqsSound(repo: Repository, reqs: seq<Requirement>, acc: set<PackageId>)
    ensures var r := ClosureReqs(repo, reqs, acc);
      r.Ok? ==> CoversReqs(reqs, r.value) && DoneBeyond(repo, acc, r.value)
    decreases |ValidIds(repo) - acc|, 0, |reqs|
  {
    if reqs != [] {
      var p := reqs[0].package;
      var tail := reqs[1..];
      assert forall j :: 1 <= j < |reqs| ==> reqs[j] == tail[j - 1];
      if p in acc {
        ReqsSound(repo, tail, acc);
      } else if p < |repo.packages| {
        var acc1 := acc + {p};
        SubsetCard(ValidIds(repo) - acc1, ValidIds(repo) - acc);
        var vers := repo.packages[p].versions;
        VersSound(repo, vers, acc1);
        var mid := ClosureVers(repo, vers, acc1);
        if mid.Ok? {
          var acc2 := mid.value;
          SubsetCard(ValidIds(repo) - acc2, ValidIds(repo) - acc1);
          ReqsSound(repo, tail, acc2);
          var r := ClosureReqs(repo, tail, acc2);
          assert ClosureReqs(repo, reqs, acc) == r;
          if r.Ok? {
            forall q | q in r.value && q !in acc
              ensures q < |repo.packages| && CoversVers(repo.packages[q].versions, r.value)
            {
              if q in acc2 {
                CoversMonotone(repo.packages[q].versions, acc2, r.value);
              }
            }
          }
        }
      }
    }
  }

  lemma {:induction false} VersSound(repo: Repository, vers: seq<PackageVer>, acc: set<PackageId>)
    ensures var r := ClosureVers(repo, vers, acc);
      r.Ok? ==> CoversVers(vers, r.value) && DoneBeyond(repo, acc, r.value)
    decreases |ValidIds(repo) - acc|, 1, |vers|
  {
    if vers != [] {
      ReqsSound(repo, vers[0].requirements.Iter(), acc);
      var mid := ClosureReqs(repo, vers[0].requirements.Iter(), acc);
      if mid.Ok? {
        var acc1 := mid.value;
        SubsetCard(ValidIds(repo) - acc1, ValidIds(repo) - acc);
        var tail := vers[1..];
        VersSound(repo, tail, acc1);
        var r := ClosureVers(repo, tail, acc1);
        if r.Ok? {
          assert forall j :: 1 <= j < |vers| ==> vers[j] == tail[j - 1];
          CoversMonotone([vers[0]], acc1, r.value);
          assert CoversReqs(vers[0].requirements.Iter(), r.value) by {
            assert [vers[0]][0] == vers[0];
          }
          forall q | q in r.value && q !in acc
            ensures q < |repo.packages| && CoversVers(repo.packages[q].versions, r.value)
          {
            if q in acc1 {
              CoversMonotone(repo.packages[q].versions, acc1, r.value);
            }
          }
        }
      }
    }
  }

  lemma {:induction false} ReqsLeast(repo: Repository, reqs: seq<Requirement>, acc: set<PackageId>, t: set<PackageId>)
    requires acc <= t && CoversReqs(reqs, t) && EdgeClosed(repo, t)
    ensures var r := ClosureReqs(repo, reqs, acc);
      (r.Ok? ==> r.value <= t) && (r.Err? ==> r.error.index in t)
    decreases |ValidIds(repo) - acc|, 0, |reqs|
  {
    if reqs != [] {
      var p := reqs[0].package;
      var tail := reqs[1..];
      assert forall j :: 0 <= j < |tail| ==> tail[j] == reqs[j + 1];
      assert p in t;
      if p in acc {
        ReqsLeast(repo, tail, acc, t);
      } else if p < |repo.packages| {
        var acc1 := acc + {p};
        SubsetCard(ValidIds(repo) - acc1, ValidIds(repo) - acc);
        var vers := repo.packages[p].versions;
        VersLeast(repo, vers, acc1, t);
        var mid := ClosureVers(repo, vers, acc1);
        if mid.Ok? {
          SubsetCard(ValidIds(repo) - mid.value, ValidIds(repo) - acc1);
          ReqsLeast(repo, tail, mid.value, t);
        }
      }
    }
  }

  lemma {:induction false} VersLeast(repo: Repository, vers: seq<PackageVer>, acc: set<PackageId>, t: set<PackageId>)
    requires acc <= t && CoversVers(vers, t) && EdgeClosed(repo, t)
    ensures var r := ClosureVers(repo, vers, acc);
      (r.Ok? ==> r.value <= t) && (r.Err? ==> r.error.index in t)
    decreases |ValidIds(repo) - acc|, 1, |vers|
  {
    if vers != [] {
      assert CoversReqs(vers[0].requirements.Iter(), t);
      ReqsLeast(repo, vers[0].requirements.Iter(), acc, t);
      var mid := ClosureReqs(repo, vers[0].requirements.Iter(), acc);
      if mid.Ok? {
        SubsetCard(ValidIds(repo) - mid.value, ValidIds(repo) - acc);
        var tail := vers[1..];
        assert forall j :: 0 <= j < |tail| ==> tail[j] == vers[j + 1];
        VersLeast(repo, tail, mid.value, t);
      }
    }
  }

  /** What `find_closure` computes, for any repository and request:
      - on success, a set of packages of the repository, closed under
        requirements, that holds the package of every requirement of the
        request, and is contained in every set closed under requirements
        that holds them (so it has only reachable packages);
      - on failure, `IllegalIndex` of an id that is out of range and that
        every such set holds (so it is reachable);
      - success exactly when some closed set of packages of the repository
        holds the request's packages. */
  lemma FindClosureSpec(repo: Repository, reqs: seq<Requirement>)
    ensures var r := Closure(repo, reqs);
      && (r.Ok? ==> CoversReqs(reqs, r.value) && Closed(repo, r.value))
      && (r.Ok? ==> forall t :: CoversReqs(reqs, t) && EdgeClosed(repo, t) ==> r.value <= t)
      && (r.Err? ==> r.error.IllegalIndex? && r.error.index >= |repo.packages|)
      && (r.Err? ==> forall t :: CoversReqs(reqs, t) && EdgeClosed(repo, t) ==> r.error.index in t)
      && (r.Ok? <==> exists t :: CoversReqs(reqs, t) && Closed(repo, t))
  {
    var r := Closure(repo, reqs);
    ReqsSound(repo, reqs, {});
    forall t | CoversReqs(reqs, t) && EdgeClosed(repo, t)
      ensures (r.Ok? ==> r.value <= t) && (r.Err? ==> r.error.index in t)
    {
      ReqsLeast(repo, reqs, {}, t);
    }
    if r.Ok? {
      assert CoversReqs(reqs, r.value) && Closed(repo, r.value);
    }
    if exists t :: CoversReqs(reqs, t) && Closed(repo, t) {
      var t :| CoversReqs(reqs, t) && Closed(repo, t);
      ReqsLeast(repo, reqs, {}, t);
    }
  }

  /** Asked with a requirement set, the closure holds the package of every
      dependency and of every conflict. */
  lemma FindClosureOfSet(repo: Repository, rs: RequirementSet)
    ensures var r := Closure(repo, rs.Iter());
      r.Ok? ==>
        && (forall j :: 0 <= j < |rs.dependencies| ==> rs.dependencies[j].package in r.value)
        && (forall j :: 0 <= j < |rs.conflicts| ==> rs.conflicts[j].package in r.value)
  {
    FindClosureSpec(repo, rs.Iter());
    var r := Closure(repo, rs.Iter());
    if r.Ok? {
      assert forall j :: 0 <= j < |rs.conflicts| ==> rs.Iter()[|rs.dependencies| + j] == rs.conflicts[j];
    }
  }

  // ---------------------------------------------------------------------
  // add_constraints

  /** All the formulas hold. */
  predicate AllHold(asg: Assignment, fs: seq<Expr>)
  {
    forall j :: 0 <= j < |fs| ==> Eval(asg, fs[j])
  }

  lemma AllHoldConcat(asg: Assignment, a: seq<Expr>, b: seq<Expr>)
    ensures AllHold(asg, a + b) <==> AllHold(asg, a) && AllHold(asg, b)
  {
    if AllHold(asg, a) && AllHold(asg, b) {
      forall j | 0 <= j < |a + b|
        ensures Eval(asg, (a + b)[j])
      {
        if j >= |a| {
          assert (a + b)[j] == b[j - |a|];
        }
      }
    }
    if AllHold(asg, a + b) {
      assert forall j :: 0 <= j < |b| ==> (a + b)[|a| + j] == b[j];
      assert forall j :: 0 <= j < |a| ==> (a + b)[j] == a[j];
    }
  }

  /** The disjunction the loop of `Requirement::add_constraints` builds:
      from `acc`, each interval `[l, u]` adds `Ver ≥ l ∧ Ver ≤ u`, each point
      `v` adds `Ver = v`, and an `All` replaces everything by `Top` and
      ends the loop. */
  function RangesFormula(pid: PackageId, acc: Expr, rs: seq<Range>): Expr
    decreases |rs|
  {
    if rs == [] then acc
    else match rs[0]
      case Interval(l, u) => RangesFormula(pid, Or(acc, And(Atom(VerGE(pid, l)), Atom(VerLE(pid, u)))), rs[1..])
      case Point(v) => RangesFormula(pid, Or(acc, Atom(VerEq(pid, v))), rs[1..])
      case All => Top
  }

  /** The formula of a requirement, built over its merged and sorted ranges
      from `Bot` (false). */
  function RequirementFormula(req: Requirement): Expr
  {
    RangesFormula(req.package, Bot, Intervals.SortedMerged(req.versions))
  }

  /** `Requirement::add_constraints`, with the one formula it emits as the
      result. */
  method RequirementConstraint(req: Requirement) returns (e: Expr)
    ensures e == RequirementFormula(req)
  {
    var rs := Intervals.MergeAndSortRanges(req.versions);
    e := Bot;
    var i := 0;
    while i < |rs|
      invariant 0 <= i <= |rs|
      invariant RangesFormula(req.package, Bot, rs) == RangesFormula(req.package, e, rs[i..])
    {
      assert rs[i..][0] == rs[i] && rs[i..][1..] == rs[i + 1..];
      match rs[i] {
        case Interval(lower, upper) =>
          e := Or(e, And(Atom(VerGE(req.package, lower)), Atom(VerLE(req.package, upper))));
        case Point(v) =>
          e := Or(e, Atom(VerEq(req.package, v)));
        case All =>
          e := Top;
          return;
      }
      i := i + 1;
    }
    assert rs[i..] == [];
  }

  lemma {:induction false} RangesFormulaMeaning(asg: Assignment, pid: PackageId, acc: Expr, rs: seq<Range>)
    ensures Eval(asg, RangesFormula(pid, acc, rs)) <==> Eval(asg, acc) || Intervals.RangesCover(rs, asg(pid))
    decreases |rs|
  {
    if rs != [] {
      var tail := rs[1..];
      assert Intervals.RangesCover(rs, asg(pid)) <==> InRange(rs[0], asg(pid)) || Intervals.RangesCover(tail, asg(pid)) by {
        assert forall j :: 0 <= j < |tail| ==> tail[j] == rs[j + 1];
        if Intervals.RangesCover(rs, asg(pid)) {
          var j :| 0 <= j < |rs| && InRange(rs[j], asg(pid));
          if j > 0 {
            assert InRange(tail[j - 1], asg(pid));
          }
        }
        if InRange(rs[0], asg(pid)) {
          assert exists j :: 0 <= j < |rs| && InRange(rs[j], asg(pid)) by { assert InRange(rs[0], asg(pid)); }
        }
      }
      match rs[0]
      case Interval(l, u) =>
        var step := And(Atom(VerGE(pid, l)), Atom(VerLE(pid, u)));
        assert Eval(asg, step) <==> InRange(rs[0], asg(pid));
        RangesFormulaMeaning(asg, pid, Or(acc, step), tail);
      case Point(v) =>
        var step := Atom(VerEq(pid, v));
        assert Eval(asg, step) <==> InRange(rs[0], asg(pid));
        RangesFormulaMeaning(asg, pid, Or(acc, step), tail);
      case All =>
    }
  }

  /** A requirement's formula holds exactly when the version assigned to
      its package lies in one of its ranges; an `All` range makes the
      formula `Top`. */
  lemma RequirementFormulaMeaning(asg: Assignment, req: Requirement)
    ensures Eval(asg, RequirementFormula(req)) <==> Admits(req, asg(req.package))
    ensures Intervals.HasAll(req.versions) ==> RequirementFormula(req) == Top
  {
    RangesFormulaMeaning(asg, req.package, Bot, Intervals.SortedMerged(req.versions));
    Intervals.SortedMergedCovers(req.versions);
    assert Admits(req, asg(req.package)) <==> Intervals.RangesCover(req.versions, asg(req.package));
    if Intervals.HasAll(req.versions) {
      Intervals.SortedMergedWithAll(req.versions);
    }
  }

  /** The formulas of the dependencies, in order. */
  function DepFormulas(deps: seq<Requirement>): (fs: seq<Expr>)
    ensures |fs| == |deps|
    ensures forall j :: 0 <= j < |deps| ==> fs[j] == RequirementFormula(deps[j])
  {
    seq(|deps|, j requires 0 <= j < |deps| => RequirementFormula(deps[j]))
  }

  /** The negated formulas of the conflicts, in order. */
  function ConflictFormulas(conflicts: seq<Requirement>): (fs: seq<Expr>)
    ensures |fs| == |conflicts|
    ensures forall j :: 0 <= j < |conflicts| ==> fs[j] == Not(RequirementFormula(conflicts[j]))
  {
    seq(|conflicts|, j requires 0 <= j < |conflicts| => Not(RequirementFormula(conflicts[j])))
  }

  /** The formulas of a requirement set: each dependency's formula, then
      the negation of each conflict's. */
  function ReqSetFormulas(rs: RequirementSet): seq<Expr>
  {
    DepFormulas(rs.dependencies) + ConflictFormulas(rs.conflicts)
  }

  /** `RequirementSet::add_constraints`: the formulas passed to the
      continuation, in order. */
  method ReqSetConstraints(rs: RequirementSet) returns (out: seq<Expr>)
    ensures out == ReqSetFormulas(rs)
  {
    out := [];
    var i := 0;
    while i < |rs.dependencies|
      invariant 0 <= i <= |rs.dependencies|
      invariant out == DepFormulas(rs.dependencies[..i])
    {
      var e := RequirementConstraint(rs.dependencies[i]);
      DepFormulasSnoc(rs.dependencies, i);
      out := out + [e];
      i := i + 1;
    }
    assert rs.dependencies[..i] == rs.dependencies;
    ghost var deps := out;
    i := 0;
    while i < |rs.conflicts|
      invariant 0 <= i <= |rs.conflicts|
      invariant out == deps + ConflictFormulas(rs.conflicts[..i])
    {
      var e := RequirementConstraint(rs.conflicts[i]);
      ConflictFormulasSnoc(rs.conflicts, i);
      out := out + [Not(e)];
      i := i + 1;
    }
    assert rs.conflicts[..i] == rs.conflicts;
  }

  lemma DepFormulasSnoc(deps: seq<Requirement>, i: nat)
    requires i < |deps|
    ensures DepFormulas(deps[..i + 1]) == DepFormulas(deps[..i]) + [RequirementFormula(deps[i])]
  {
    var a := DepFormulas(deps[..i + 1]);
    var b := DepFormulas(deps[..i]) + [RequirementFormula(deps[i])];
    assert forall j :: 0 <= j < |a| ==> a[j] == b[j];
  }

  lemma ConflictFormulasSnoc(conflicts: seq<Requirement>, i: nat)
    requires i < |conflicts|
    ensures ConflictFormulas(conflicts[..i + 1]) == ConflictFormulas(conflicts[..i]) + [Not(RequirementFormula(conflicts[i]))]
  {
    var a := ConflictFormulas(conflicts[..i + 1]);
    var b := ConflictFormulas(conflicts[..i]) + [Not(RequirementFormula(conflicts[i]))];
    assert forall j :: 0 <= j < |a| ==> a[j] == b[j];
  }

  /** Every dependency admits, and no conflict admits, the version assigned
      to its package. */
  predicate ReqSetHolds(asg: Assignment, rs: RequirementSet)
  {
    && (forall j :: 0 <= j < |rs.dependencies| ==> Admits(rs.dependencies[j], asg(rs.dependencies[j].package)))
    && (forall j :: 0 <= j < |rs.conflicts| ==> !Admits(rs.conflicts[j], asg(rs.conflicts[j].package)))
  }

  /** Dependencies are emitted as they are and conflicts negated, so the
      formulas hold exactly when the dependencies are met and the
      conflicts are not. */
  lemma ReqSetFormulasOrder(rs: RequirementSet)
    ensures |ReqSetFormulas(rs)| == |rs.dependencies| + |rs.conflicts|
    ensures forall j :: 0 <= j < |rs.dependencies| ==> ReqSetFormulas(rs)[j] == RequirementFormula(rs.dependencies[j])
    ensures forall j :: 0 <= j < |rs.conflicts| ==>
      ReqSetFormulas(rs)[|rs.dependencies| + j] == Not(RequirementFormula(rs.conflicts[j]))
  {
  }

  lemma ReqSetFormulasMeaning(asg: Assignment, rs: RequirementSet)
    ensures AllHold(asg, ReqSetFormulas(rs)) <==> ReqSetHolds(asg, rs)
  {
    var ds := DepFormulas(rs.dependencies);
    var cs := ConflictFormulas(rs.conflicts);
    AllHoldConcat(asg, ds, cs);
    forall j | 0 <= j < |rs.dependencies|
      ensures Eval(asg, ds[j]) <==> Admits(rs.dependencies[j], asg(rs.dependencies[j].package))
    {
      RequirementFormulaMeaning(asg, rs.dependencies[j]);
    }
    forall j | 0 <= j < |rs.conflicts|
      ensures Eval(asg, cs[j]) <==> !Admits(rs.conflicts[j], asg(rs.conflicts[j].package))
    {
      RequirementFormulaMeaning(asg, rs.conflicts[j]);
    }
  }

  /** Each formula made conditional on `guard`. */
  function Guard(guard: Expr, fs: seq<Expr>): (r: seq<Expr>)
    ensures |r| == |fs|
  {
    seq(|fs|, j requires 0 <= j < |fs| => Implies(guard, fs[j]))
  }

  lemma GuardMeaning(asg: Assignment, guard: Expr, fs: seq<Expr>)
    ensures AllHold(asg, Guard(guard, fs)) <==> (Eval(asg, guard) ==> AllHold(asg, fs))
  {
    if Eval(asg, guard) && AllHold(asg, Guard(guard, fs)) {
      forall j | 0 <= j < |fs|
        ensures Eval(asg, fs[j])
      {
        assert Eval(asg, Guard(guard, fs)[j]);
      }
    }
  }

  /** The requirement formulas of the versions `vers` of package `pid`, the
      k-th version's (counting from 1) guarded by `Ver(pid) = k`. */
  function VersionsFormulas(pid: PackageId, vers: seq<PackageVer>): seq<Expr>
    decreases |vers|
  {
    if vers == [] then []
    else
      VersionsFormulas(pid, vers[..|vers| - 1]) +
      Guard(Atom(VerEq(pid, |vers|)), ReqSetFormulas(vers[|vers| - 1].requirements))
  }

  /** All the formulas of a package: its version lies between 0 and the
      number of its versions, and each version's requirements hold when
      that version is chosen. */
  function PackageFormulas(pkg: Package): seq<Expr>
  {
    [Atom(VerGE(pkg.id, 0))] + VersionsFormulas(pkg.id, pkg.versions) + [Atom(VerLE(pkg.id, |pkg.versions|))]
  }

  /** `Package::add_constraints`; `counter` is `ver_counter`. */
  method PackageConstraints(pkg: Package) returns (out: seq<Expr>)
    ensures out == PackageFormulas(pkg)
  {
    out := [Atom(VerGE(pkg.id, 0))];
    var counter := 0;
    while counter < |pkg.versions|
      invariant 0 <= counter <= |pkg.versions|
      invariant out == [Atom(VerGE(pkg.id, 0))] + VersionsFormulas(pkg.id, pkg.versions[..counter])
    {
      var ver := pkg.versions[counter];
      counter := counter + 1;
      var eq := Atom(VerEq(pkg.id, counter));
      var emitted := ReqSetConstraints(ver.requirements);
      assert pkg.versions[..counter][..counter - 1] == pkg.versions[..counter - 1];
      out := out + Guard(eq, emitted);
    }
    assert pkg.versions[..counter] == pkg.versions;
    out := out + [Atom(VerLE(pkg.id, counter))];
  }

  /** The requirements of the version assigned to `pid` hold, when that
      version is one of `vers`. */
  predicate ChosenVersionHolds(asg: Assignment, pid: PackageId, vers: seq<PackageVer>)
  {
    1 <= asg(pid) <= |vers| ==> ReqSetHolds(asg, vers[asg(pid) - 1].requirements)
  }

  lemma {:induction false} VersionsFormulasMeaning(asg: Assignment, pid: PackageId, vers: seq<PackageVer>)
    ensures AllHold(asg, VersionsFormulas(pid, vers)) <==> ChosenVersionHolds(asg, pid, vers)
    decreases |vers|
  {
    if vers != [] {
      var init := vers[..|vers| - 1];
      var rs := vers[|vers| - 1].requirements;
      var guard := Atom(VerEq(pid, |vers|));
      VersionsFormulasMeaning(asg, pid, init);
      AllHoldConcat(asg, VersionsFormulas(pid, init), Guard(guard, ReqSetFormulas(rs)));
      GuardMeaning(asg, guard, ReqSetFormulas(rs));
      ReqSetFormulasMeaning(asg, rs);
      ChosenVersionSnoc(asg, pid, vers);
    }
  }

  /** The version chosen among `vers` is either one of all but the last
      version, or the last one. */
  lemma ChosenVersionSnoc(asg: Assignment, pid: PackageId, vers: seq<PackageVer>)
    requires vers != []
    ensures ChosenVersionHolds(asg, pid, vers) <==>
      ChosenVersionHolds(asg, pid, vers[..|vers| - 1]) &&
      (asg(pid) == |vers| ==> ReqSetHolds(asg, vers[|vers| - 1].requirements))
  {
    var init := vers[..|vers| - 1];
    if 1 <= asg(pid) < |vers| {
      assert init[asg(pid) - 1] == vers[asg(pid) - 1];
    }
  }

  /** A package's formulas hold exactly when its assigned version is 0 (not
      installed) or one of its version numbers, and in the latter case
      that version's requirements hold. */
  predicate PackageHolds(asg: Assignment, pkg: Package)
  {
    && 0 <= asg(pkg.id) <= |pkg.versions|
    && (asg(pkg.id) >= 1 ==> ReqSetHolds(asg, pkg.versions[asg(pkg.id) - 1].requirements))
  }

  lemma PackageFormulasMeaning(asg: Assignment, pkg: Package)
    ensures AllHold(asg, PackageFormulas(pkg)) <==> PackageHolds(asg, pkg)
    ensures asg(pkg.id) == 0 ==> AllHold(asg, PackageFormulas(pkg))
  {
    var ge := [Atom(VerGE(pkg.id, 0))];
    var vs := VersionsFormulas(pkg.id, pkg.versions);
    var le := [Atom(VerLE(pkg.id, |pkg.versions|))];
    AllHoldConcat(asg, ge + vs, le);
    AllHoldConcat(asg, ge, vs);
    VersionsFormulasMeaning(asg, pkg.id, pkg.versions);
    AllHoldSingle(asg, Atom(VerGE(pkg.id, 0)));
    AllHoldSingle(asg, Atom(VerLE(pkg.id, |pkg.versions|)));
    PackageHoldsSplit(asg, pkg);
  }

  lemma AllHoldSingle(asg: Assignment, e: Expr)
    ensures AllHold(asg, [e]) <==> Eval(asg, e)
  {
    assert [e][0] == e;
  }

  /** `PackageHolds` is the bounds on the assigned version together with
      `ChosenVersionHolds`. */
  lemma PackageHoldsSplit(asg: Assignment, pkg: Package)
    ensures PackageHolds(asg, pkg) <==>
      asg(pkg.id) >= 0 && ChosenVersionHolds(asg, pkg.id, pkg.versions) && asg(pkg.id) <= |pkg.versions|
  {
  }

  /** The formulas of the packages `pids`, in order. */
  function PackagesFormulas(repo: Repository, pids: seq<PackageId>): seq<Expr>
    requires forall j :: 0 <= j < |pids| ==> pids[j] < |repo.packages|
    decreases |pids|
  {
    if pids == [] then []
    else PackagesFormulas(repo, pids[..|pids| - 1]) + PackageFormulas(repo.GetPackageUnchecked(pids[|pids| - 1]))
  }

  /** What `add_all_constraints` emits: the formulas of each listed package,
      then those of the top-level requirements. */
  function AllFormulas(repo: Repository, pids: seq<PackageId>, requirements: RequirementSet): seq<Expr>
    requires forall j :: 0 <= j < |pids| ==> pids[j] < |repo.packages|
  {
    PackagesFormulas(repo, pids) + ReqSetFormulas(requirements)
  }

  /** `add_all_constraints`. `get_package_unchecked` demands every listed id
      be a package of the repository. */
  method AddAllConstraints(repo: Repository, pids: seq<PackageId>, requirements: RequirementSet) returns (out: seq<Expr>)
    requires forall j :: 0 <= j < |pids| ==> pids[j] < |repo.packages|
    ensures out == AllFormulas(repo, pids, requirements)
  {
    out := [];
    var i := 0;
    while i < |pids|
      invariant 0 <= i <= |pids|
      invariant out == PackagesFormulas(repo, pids[..i])
    {
      var package := repo.GetPackageUnchecked(pids[i]);
      var emitted := PackageConstraints(package);
      assert pids[..i + 1][..i] == pids[..i];
      out := out + emitted;
      i := i + 1;
    }
    assert pids[..i] == pids;
    var top := ReqSetConstraints(requirements);
    out := out + top;
  }

  lemma {:induction false} PackagesFormulasMeaning(asg: Assignment, repo: Repository, pids: seq<PackageId>)
    requires forall j :: 0 <= j < |pids| ==> pids[j] < |repo.packages|
    ensures AllHold(asg, PackagesFormulas(repo, pids)) <==>
      forall j :: 0 <= j < |pids| ==> PackageHolds(asg, repo.packages[pids[j]])
    decreases |pids|
  {
    if pids != [] {
      var init := pids[..|pids| - 1];
      var last := repo.packages[pids[|pids| - 1]];
      PackagesFormulasMeaning(asg, repo, init);
      AllHoldConcat(asg, PackagesFormulas(repo, init), PackageFormulas(last));
      PackageFormulasMeaning(asg, last);
      assert forall j :: 0 <= j < |init| ==> init[j] == pids[j];
    }
  }

  /** The emitted formulas hold exactly when every listed package's
      formulas hold and the top-level requirements are met. */
  lemma AllFormulasMeaning(asg: Assignment, repo: Repository, pids: seq<PackageId>, requirements: RequirementSet)
    requires forall j :: 0 <= j < |pids| ==> pids[j] < |repo.packages|
    ensures AllHold(asg, AllFormulas(repo, pids, requirements)) <==>
      && (forall j :: 0 <= j < |pids| ==> PackageHolds(asg, repo.packages[pids[j]]))
      && ReqSetHolds(asg, requirements)
  {
    AllHoldConcat(asg, PackagesFormulas(repo, pids), ReqSetFormulas(requirements));
    PackagesFormulasMeaning(asg, repo, pids);
    ReqSetFormulasMeaning(asg, requirements);
  }
}
