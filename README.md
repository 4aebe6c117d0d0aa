# libresolv: a verified model of the deterministic core

libresolv resolves package dependencies by handing a constraint problem to
the Z3 solver. This project models in Dafny the parts of the resolver that
do not depend on the solver, and proves what they compute:

- **The core value types** (`types.dfy`, module `Types`) come from `src/types.rs`:
  - ranges `Interval`, `Point` and `All`, and how they print;
  - requirements on the versions of a package, and requirement sets of dependencies and conflicts, with their mutators and iteration order;
  - packages and repositories with their lookups;
  - resolution results.

  Version numbers of a package are `1..n` in its version list, and `0` means "not installed".
- **The non-empty vector** `Vec1` (`vec1.dfy`, module `NonEmpty`) is a class whose invariant is length at least one. Every constructor keeps it, and so do `push` and `append`.
- **Interval merging** (`intervals.dfy`, module `Intervals`) covers `merge_insert` and `merge_and_sort_ranges`, which appear twice in the sources: once in `src/utils.rs` and once in the `interval_merging` module of `src/internals/utils.rs`. Both copies share one model. `merge_insert` is an imperative method with three loops, proved equal to a specification function. About that function it is proved that:
  - the covered versions are the old ones plus the new interval;
  - a sorted list with gaps between its intervals stays that way;
  - the result is the intervals wholly below, then one merged interval, then the intervals wholly above.
- **`iter_max_map`** (`iter_max.dfy`, module `IterMax`) keeps the images of every element whose key is the maximum, in input order.
- **The extended-repository builder** (`extended.dfy`, module `Extended`, with the `indexmap` map in `index_map.dfy`) covers packages named by arbitrary keys and version sets given as membership tests. Its pieces:
  - `to_ranges` compresses a set of version keys into maximal runs of 1-based positions;
  - `EPackageBuilder` sorts and de-duplicates versions (the first added wins);
  - `ERepositoryBuilder` translates names into ids and builds the numeric repository, stopping at the first error.
- **The dependency closure and the constraint encoding** (`constraints.dfy`, module `Constraints`):
  - `find_closure` is proved to compute the least set of package ids that contains every requested package and is closed under the requirements of every version. It fails exactly when that set would contain an id outside the repository.
  - The `add_constraints` impls emit formulas, modelled as values of the `Expr` type of `src/types/expr.rs`. An evaluator over version assignments gives them their meaning. A package's formulas hold exactly when it is uninstalled, or installed at one of its versions whose requirements hold.
- **The formula type and its printer** (`formulas.dfy`, `partial_orders.dfy`) cover:
  - the `Chain` and `AntiChain` combinations of partial orders, proved to preserve duality and transitivity;
  - the precedence order of the printer;
  - `fmt_prec`, proved to only add balanced parentheses around the bare rendering;
  - the exact placement of those parentheses.

Shared helpers:
- `wrappers.dfy`: `Option` and `Result`.
- `results.dfy`: the first-error loop `TryMap`.
- `strings.dfy`: decimal printing.
- `seqs.dfy`: slice facts.

Where the repository's own files disagree with each other, the model follows the code that uses the definition:
- `src/types.rs` declares `ResolutionError` with the single case `TimeOut`.
- `src/constraints.rs` raises `ResolutionError::IllegalIndex`.
- The model has both cases.

## Model

| member | source | states |
|---|---|---|
| Types.PointRange | src/types.rs:59-61 | the point range admits exactly its version |
| Types.AllRange | src/types.rs:75-77 | the `All` range admits every version |
| Types.IntervalRange | src/types.rs:63-69 | `None` exactly when lower > upper; `Interval` when lower < upper, `Point` when equal; the range admits exactly `lower..=upper` |
| Types.RangeToString | src/types.rs:38-46 | intervals print starting with `[`, points with `{`, `All` as `𝒰`, and the first character tells the case apart |
| Types.AnyVersion | src/types.rs:134-139 | a requirement on the given package with the single range `All`, admitting every version |
| Types.SingleVersion | src/types.rs:141-146 | a requirement with the single range `Point(v)`, admitting exactly `v` |
| Types.RangeRequirement | src/types.rs:148-154 | `None` exactly when lower > upper; otherwise one range on the given package, admitting exactly `lower..=upper` |
| Types.RequirementSet.AddDep | src/types.rs:228-230 | the dependency is appended at the end and the conflicts are unchanged |
| Types.RequirementSet.AddDeps | src/types.rs:232-234 | the dependencies are appended in order and the conflicts are unchanged |
| Types.RequirementSet.AddAntidep | src/types.rs:236-238 | the conflict is appended at the end and the dependencies are unchanged |
| Types.RequirementSet.AddAntideps | src/types.rs:240-242 | the conflicts are appended in order and the dependencies are unchanged |
| Types.AddDepsIsRepeatedAddDep | src/types.rs:228-234 | appending a list of dependencies is the same as adding them one at a time |
| Types.AddAntidepsIsRepeatedAddAntidep | src/types.rs:236-242 | appending a list of conflicts is the same as adding them one at a time |
| Types.RequirementSet.Iter | src/types.rs:181-197 | iteration yields all dependencies, then all conflicts, each in stored order |
| Types.IterAfterAddDep | src/types.rs:190-197 | after `add_dep`, iteration yields the old dependencies, the new one, then the conflicts |
| Types.EmptySet | src/types.rs:157-161 | the default requirement set iterates nothing |
| Types.FromDep | src/types.rs:200-205 | `from_dep` is `add_dep` on the empty set |
| Types.FromDeps | src/types.rs:207-212 | `from_deps` is `add_deps` on the empty set |
| Types.FromAntidep | src/types.rs:214-219 | `from_antidep` is `add_antidep` on the empty set |
| Types.FromAntideps | src/types.rs:221-226 | `from_antideps` is `add_antideps` on the empty set |
| Types.Package.NewestVersionNumber | src/types.rs:323-325 | the newest version number is the number of versions |
| Types.Package.NewestVersion | src/types.rs:327-329 | requires a version; yields the last one, the one numbered `newest_version_number` |
| Types.Repository.GetPackage | src/types.rs:350-352 | `Some` exactly when the id is below the number of packages, and then the package at that index |
| Types.Repository.GetPackageUnchecked | src/types.rs:354-356 | for a valid id, agrees with `get_package` |
| Types.Repository.NewestVerOf | src/types.rs:358-360 | `Some` exactly for valid ids, holding that package's number of versions |
| Types.Repository.NewestVerOfUnchecked | src/types.rs:362-364 | for a valid id, agrees with `newest_ver_of` |
| Types.ResolutionResult.IsSat | src/types.rs:461-463 | true exactly for `Sat` |
| Types.ResolutionResult.IsUnsat | src/types.rs:465-467 | the negation of `is_sat`: true exactly for the two unsatisfiable cases |
| NonEmpty.Vec1.constructor | src/internals/types/vec1.rs:8-12 | the new vector holds exactly `[t]` and satisfies the invariant |
| NonEmpty.Vec1.Wrap | src/internals/types/vec1.rs:40-50 | wrapping a non-empty vector keeps its contents and establishes the invariant |
| NonEmpty.Vec1.Push | src/internals/types/vec1.rs:14-16 | appends `t` at the end, grows the length by one and keeps the invariant |
| NonEmpty.Vec1.Append | src/internals/types/vec1.rs:18-20 | appends the other vector's contents at the end, leaves the other vector empty and keeps the invariant |
| NonEmpty.Vec1.AsVec | src/internals/types/vec1.rs:22-28 | exposes the contents, which are never empty |
| NonEmpty.TryFrom | src/internals/types/vec1.rs:40-50 | fails exactly on the empty vector; otherwise a fresh `Vec1` with exactly the given contents |
| NonEmpty.Vec1Of | src/internals/types/vec1.rs:53-66 | `vec1![first, rest..]` holds the items in order and satisfies the invariant |
| Intervals.OverlapsIffMergeIsUnion | src/utils.rs:13-27 | two intervals "overlap" (intersect or touch) exactly when their merge covers nothing beyond the two |
| Intervals.TouchingMerge | src/internals/utils.rs:21-35 | intervals that only touch (`a.1 + 1 == b.0`) count as overlapping and `merge_insert` fuses them into one |
| Intervals.CountBeforeSpec | src/utils.rs:33-40 | the first loop takes the longest prefix whose intervals lie wholly below the new one |
| Intervals.CountTouchingSpec | src/utils.rs:42-48 | the second loop takes the longest following run of intervals that overlap the new one |
| Intervals.MergeInsert | src/utils.rs:29-56 | the three-phase method returns exactly the specification `Inserted` |
| Intervals.InsertedCovers | src/internals/utils.rs:37-64 | the inserted list covers exactly the old coverage plus the new interval, for every input |
| Intervals.InsertedNormalised | src/utils.rs:13-56 | a sorted, gap-separated, well-formed list stays so after inserting a well-formed interval |
| Intervals.InsertedPartition | src/utils.rs:33-53 | on such a list the result is the intervals wholly before the new one, unchanged, then the merge of the new one with every interval it touches, then the intervals wholly after, unchanged |
| Intervals.MergeInsertTestPoint | src/utils.rs:82-92 | inserting (3,3) into [(0,1),(5,6)] gives [(0,1),(3,3),(5,6)] |
| Intervals.MergeInsertTestSpan | src/internals/utils.rs:142-152 | inserting (2,6) into [(0,1),(3,4),(7,8)] gives [(0,8)] |
| Intervals.ToInterval | src/utils.rs:62-64 | an interval or a point becomes the interval covering the same versions |
| Intervals.FromInterval | src/utils.rs:69-75 | an interval becomes a `Point` when its ends agree and an `Interval` otherwise, covering the same versions |
| Intervals.MergeAndSortRanges | src/internals/utils.rs:67-84 | the loop returns exactly the specification `SortedMerged` |
| Intervals.InsertRangesResult | src/utils.rs:60-67 | the accumulation stops exactly when some range is `All`; otherwise it covers the accumulator plus the ranges, and grows by at most one interval per range |
| Intervals.SortedMergedWithAll | src/utils.rs:65 | any `All` among the inputs makes the result exactly `[All]` |
| Intervals.SortedMergedCovers | src/utils.rs:59-76 | the result covers exactly the versions the inputs cover, and is no longer than the input |
| Intervals.InsertRangesNormalised | src/internals/utils.rs:67-79 | merging ranges with no reversed interval into a normalised list keeps it normalised |
| Intervals.SortedMergedNormalForm | src/internals/utils.rs:67-84 | without `All` and with no reversed interval among the inputs, the result is sorted, gap-separated, uses `Point` exactly for single versions and `Interval` only when lower < upper |
| IterMax.IterMaxMap | src/internals/utils.rs:89-114 | the loop returns exactly `MaxMapped`, and is empty exactly when the input is |
| IterMax.MaxOfIsMax | src/internals/utils.rs:96-111 | the running maximum bounds every key and is reached by one |
| IterMax.SelectMembers | src/internals/utils.rs:96-111 | the kept elements are exactly the inputs with the selected key |
| IterMax.MaxIsReached | src/internals/utils.rs:96-111 | on a non-empty input at least one element is kept |
| IterMax.MaxMappedSpec | src/internals/utils.rs:89-114 | the result is `f` of exactly the elements whose key is maximal, in input order, and is non-empty on non-empty input |
| IterMax.IterMaxMapExample | src/internals/utils.rs:89-114 | keys [3, 7, 2, 7] keep [7, 7] |
| IndexMaps.IndexMap.Keys | src/internals/types/extended.rs:20 | the keys in insertion order |
| IndexMaps.IndexMap.ContainsKey | src/internals/types/extended.rs:172 | true exactly when some entry has the key |
| IndexMaps.IndexMap.IndexOf | src/internals/types/extended.rs:337 | `None` exactly for absent keys; otherwise the first position holding the key |
| IndexMaps.IndexMap.GetFull | src/internals/types/extended.rs:337 | `None` exactly for absent keys; otherwise the position and the value stored with the key |
| IndexMaps.IndexMap.Insert | src/internals/types/extended.rs:173 | a new key is appended at the end; an existing key keeps its position and takes the new value |
| IndexMaps.Empty | src/internals/types/extended.rs:159-163 | the empty map has no entries and no repeated key |
| IndexMaps.InsertValid | src/internals/types/extended.rs:171-178 | insertion keeps keys distinct, makes the key present with the new value and moves no other key |
| IndexMaps.IndexOfUnique | src/internals/types/extended.rs:337 | in a map with distinct keys the index of a key is the only position holding it |
| Extended.Mask | src/internals/types/extended.rs:56-80 | position `j` is set exactly when the version set contains key `j`; a union contains what some member does, an intersection what all do |
| Extended.MkRange | src/internals/types/extended.rs:25-29 | a run `low..=high` becomes a `Point` when it has one element and an `Interval` otherwise, covering exactly `low..=high` |
| Extended.ToRanges | src/internals/types/extended.rs:14-49 | the loop returns exactly the runs of the membership mask |
| Extended.RunsCover | src/internals/types/extended.rs:14-49 | the ranges cover exactly the 1-based positions whose key the set contains |
| Extended.RunsNormalForm | src/internals/types/extended.rs:20-46 | the ranges are ascending with a gap between each two (maximal runs), points for single positions, and all bounds within `1..=len` |
| Extended.RunsEmpty | src/internals/types/extended.rs:338-342 | no range is produced exactly when the set contains none of the keys |
| Extended.RunsExample | src/internals/types/extended.rs:14-49 | the mask [T, F, T, T, F] gives [Point(1), Interval(3, 4)] |
| Extended.EVersion.AddDependency | src/internals/types/extended.rs:284-286 | appends the dependency and changes nothing else |
| Extended.EVersion.AddConflict | src/internals/types/extended.rs:288-290 | appends the conflict and changes nothing else |
| Extended.NewEVersion | src/internals/types/extended.rs:256-262 | a version with the given key and no requirements |
| Extended.TranslateReqUnknown | src/internals/types/extended.rs:337 | the unknown-name error is reported exactly when the name is not in the map |
| Extended.TranslateReqSpec | src/internals/types/extended.rs:330-347 | for a known name, fails (with the requirement itself) exactly when the set contains none of the package's versions; otherwise the id is the name's index and the ranges are the runs over its versions |
| Extended.TranslateAllOk | src/internals/types/extended.rs:299-305 | a list translates exactly when every element does, element by element in order |
| Extended.TranslateAllErr | src/internals/types/extended.rs:299-305 | a failure is the error of the first requirement that fails |
| Extended.TranslateList | src/internals/types/extended.rs:299-301 | the first-error loop returns exactly `TranslateAll` |
| Extended.TranslateVersion | src/internals/types/extended.rs:292-313 | the method returns exactly `TranslateVersionF` |
| Extended.TranslateVersionSpec | src/internals/types/extended.rs:292-313 | a version translates exactly when all its dependencies and conflicts do, into the translated lists in order |
| Extended.InsertByVersionSorted | src/internals/types/extended.rs:229 | inserting into a key-sorted list keeps it sorted |
| Extended.InsertByVersionStable | src/internals/types/extended.rs:229 | insertion puts the new version after every version with the same key |
| Extended.SortByVersionSpec | src/internals/types/extended.rs:229 | the sort yields key order and keeps the versions of each key in their original order (stability) |
| Extended.DedupeContents | src/internals/types/extended.rs:231-235 | the insert-if-absent loop keeps exactly the keys present, each holding the first version with that key |
| Extended.DedupeAscending | src/internals/types/extended.rs:231-235 | on a sorted list the kept keys are strictly ascending |
| Extended.BuildPackageSpec | src/internals/types/extended.rs:226-241 | the built package keeps its name, and its keys are distinct, strictly ascending and exactly the keys added; each key holds the earliest-added version with that key |
| Extended.EPackageBuilder.constructor | src/internals/types/extended.rs:208-213 | a builder with the name and no versions |
| Extended.EPackageBuilder.AddVersion | src/internals/types/extended.rs:222-224 | appends the version and keeps the name |
| Extended.EPackageBuilder.Build | src/internals/types/extended.rs:226-241 | returns exactly `BuildPackage` of the added versions |
| Extended.BuildError | src/internals/types/extended.rs:134-145 | an unknown name becomes `UnknownPackage` and an empty range list `IllformedRequirement`, both carrying the source package and version key |
| Extended.PackageStepSpec | src/internals/types/extended.rs:130-152 | the package at position `i` gets id `i` and one translated version per stored version, in order, exactly when they all translate |
| Extended.BuildRepoSpec | src/internals/types/extended.rs:122-157 | the build succeeds exactly when every version of every package translates; the spine then has one package per entry with id = position and the translated versions in order |
| Extended.BuildRepoErr | src/internals/types/extended.rs:130-146 | a failure carries the name and version key of the first version that fails, in package order and then version order, with that version's translation error; every earlier version translates |
| Extended.BuildRepoClosed | src/internals/types/extended.rs:122-157 | in a built spine every requirement names a spine package and has normalised ranges within that package's version numbers |
| Extended.TranslatedFits | src/internals/types/extended.rs:337-346 | a translated requirement fits any repository shaped like the key map |
| Extended.ERepositoryBuilder.constructor | src/internals/types/extended.rs:159-163 | a builder with an empty map |
| Extended.ERepositoryBuilder.AddPackage | src/internals/types/extended.rs:171-178 | returns true exactly when the name was absent, and then appends the package; otherwise the map is unchanged |
| Extended.ERepositoryBuilder.Build | src/internals/types/extended.rs:122-157 | returns exactly `BuildRepo` of the collected packages |
| Constraints.ClosureReqs | src/constraints.rs:18-41 | the accumulator only grows, and only by valid ids; an error is `IllegalIndex` of an id outside the repository |
| Constraints.ClosureVers | src/constraints.rs:35-37 | the same for the requirements of a list of versions |
| Constraints.FindClosureHelper | src/constraints.rs:18-41 | the recursive method with its accumulator returns exactly `ClosureReqs` |
| Constraints.VisitVersions | src/constraints.rs:35-37 | the loop over the versions returns exactly `ClosureVers` |
| Constraints.FindClosure | src/constraints.rs:9-16 | starting from the empty set, returns exactly `Closure` |
| Constraints.ReqsSound | src/constraints.rs:26-39 | on success, every requirement's package is in the result, and each newly added package has a valid id and all its versions' requirements inside the result |
| Constraints.VersSound | src/constraints.rs:35-37 | the same for the requirements of a list of versions |
| Constraints.ReqsLeast | src/constraints.rs:18-41 | any set that contains the accumulator and the requested packages and is closed under requirements contains the result, or the offending id |
| Constraints.VersLeast | src/constraints.rs:35-37 | the same for the requirements of a list of versions |
| Constraints.FindClosureSpec | src/constraints.rs:9-41 | success gives the least requirement-closed set of valid ids containing the requested packages; failure happens exactly when no such set exists, with an out-of-range id that every closed set must contain |
| Constraints.FindClosureOfSet | src/constraints.rs:9-16 | on a requirement set, the closure holds the package of every dependency and every conflict |
| Constraints.RequirementConstraint | src/constraints.rs:48-68 | the loop over the merged ranges builds exactly `RequirementFormula` |
| Constraints.RangesFormulaMeaning | src/constraints.rs:52-65 | the disjunction holds exactly when its start holds or the version lies in one of the ranges |
| Constraints.RequirementFormulaMeaning | src/constraints.rs:48-68 | a requirement's formula holds exactly when the package's version meets the requirement; any `All` makes it `Top` |
| Constraints.DepFormulas | src/constraints.rs:73-75 | one formula per dependency, in order |
| Constraints.ConflictFormulas | src/constraints.rs:76-79 | one negated formula per conflict, in order |
| Constraints.ReqSetConstraints | src/constraints.rs:71-81 | the two loops emit exactly `ReqSetFormulas` |
| Constraints.ReqSetFormulasOrder | src/constraints.rs:71-81 | the dependencies' formulas come first, in order, then the negated conflicts' formulas, in order |
| Constraints.ReqSetFormulasMeaning | src/constraints.rs:71-81 | the formulas hold exactly when every dependency is met and no conflict is |
| Constraints.Guard | src/constraints.rs:93 | one guarded formula per formula |
| Constraints.GuardMeaning | src/constraints.rs:92-94 | guarded formulas hold exactly when the guard implies all of them |
| Constraints.PackageConstraints | src/constraints.rs:83-99 | the loop with its version counter emits exactly `PackageFormulas` |
| Constraints.VersionsFormulasMeaning | src/constraints.rs:88-95 | the guarded formulas hold exactly when the chosen version (counted from 1) has its requirements met |
| Constraints.PackageFormulasMeaning | src/constraints.rs:83-99 | a package's formulas hold exactly when its version is 0 or one of its numbers whose requirements hold; version 0 triggers nothing |
| Constraints.AddAllConstraints | src/constraints.rs:101-113 | emits exactly `AllFormulas`: the listed packages' formulas in order, then the top-level requirements' |
| Constraints.PackagesFormulasMeaning | src/constraints.rs:108-111 | the listed packages' formulas hold exactly when each listed package's do |
| Constraints.AllFormulasMeaning | src/constraints.rs:101-113 | all emitted formulas hold exactly when every listed package holds and the top-level requirements are met |
| PartialOrders.ChainDual | src/types/expr.rs:123-136 | `Chain` of two dual comparisons is dual: every `Top` is above every `Bot`, and within a side the payloads compare |
| PartialOrders.ChainTransitive | src/types/expr.rs:123-136 | `Chain` of two transitive orders is transitive |
| PartialOrders.AntiChainDual | src/types/expr.rs:145-158 | `AntiChain` of two dual comparisons is dual |
| PartialOrders.AntiChainTransitive | src/types/expr.rs:145-158 | `AntiChain` of two transitive orders is transitive |
| PartialOrders.AntiChainIncomparable | src/types/expr.rs:152-153 | a `Left` and a `Right` are never `<=` in either direction |
| PartialOrders.PrecIsPartialOrder | src/types/expr.rs:160 | `ExprPrec` is reflexive, transitive, antisymmetric and dual |
| PartialOrders.PrecTable | src/types/expr.rs:162-167 | `NOT` is above all others, `AND` and `OR` are incomparable, and `OUTER < IMPL < IMPL_L` lie below both |
| Formulas.NotE | src/types/expr.rs:88-93 | `not` of a negation returns its operand; anything else is wrapped in `Not` |
| Formulas.NotENegates | src/types/expr.rs:88-93 | the smart negation always means the negation |
| Formulas.ParensTable | src/types/expr.rs:175-219 | in each printer context: `∧` is parenthesised only under `¬` or `∨`, `∨` only under `¬` or `∧`, `→` everywhere except the outer and right-`→` contexts |
| Formulas.NotOperandParens | src/types/expr.rs:180-183 | the operand of `¬` is parenthesised exactly when it is a binary connective |
| Formulas.FmtPrecOnlyAddsParens | src/types/expr.rs:175-224 | deleting the parentheses from the output gives the bare rendering, in every context |
| Formulas.FmtPrecBalanced | src/types/expr.rs:175-224 | the output has as many `(` as `)` |
| Formulas.AtomsPrinted | src/types/expr.rs:36-43 | atoms print as `Ver(p) = v`, `Ver(p) ≤ v` and `Ver(p) ≥ v` |
| Formulas.PrettyPrintingAndUnderOr | src/types/expr.rs:237-242 | `∧` under `∨` is parenthesised, on either side |
| Formulas.PrettyPrintingImpliesUnderOr | src/types/expr.rs:243-244 | `→` under `∨` is parenthesised |
| Formulas.PrettyPrintingAndUnderAnd | src/types/expr.rs:245-246 | `∧` under `∧` is not parenthesised |
| Formulas.PrettyPrintingImplies | src/types/expr.rs:247-250 | a left `→` operand of `→` is parenthesised and a right one is not |
| Formulas.PrettyPrintingImpliesNested | src/types/expr.rs:251-255 | the nested left operands of `→` are parenthesised at each level |

## Left out

- Machine integers: `Version` (`u64`) and `PackageId` (`u32`) are unbounded `nat`s. The overflow of `a.1 + 1` at `u64::MAX` in `less_no_overlap` and the truncating `as u32` / `as Version` casts are not modelled.
- The Z3 solver and its terms: `src/solver.rs`, `src/z3_helpers.rs`, `simplify()` and the `Context` are left out. Emitted constraints are `Formulas.Expr` values, and the solver's integer variable `Ver(p)` is an `Assignment`.
- The continuation-passing style of `add_constraints`: each impl returns the sequence of formulas its continuation would receive, in order. The negating and guarding continuations become `Not` and `Guard`.
- `Types.RequirementSet.AddDep`, `Types.RequirementSet.AddDeps`, `Types.RequirementSet.AddAntidep`, `Types.RequirementSet.AddAntideps`, `Extended.EVersion.AddDependency` and `Extended.EVersion.AddConflict` push onto `self.dependencies` or `self.conflicts` in place through `&mut self`. They are modelled as functions returning the updated value, because `RequirementSet` and `EVersion` are stored by value inside versions, packages and repositories. Exclusive `&mut` borrows make no aliasing observable, but the update in place itself is not modelled as a state change.
- `Constraints.FindClosure`: on an error the source's accumulator is discarded, and the model returns only the error, as `?` does. The `Backtrace` carried by `IllegalIndex` is left out.
- `Constraints.AddAllConstraints`: `pids` is a sequence, and like `get_package_unchecked` it requires valid ids.
- `Intervals.MergeAndSortRanges`: the boxed iterator becomes a returned sequence, and `return` on `All` models the early exit.
- `Constraints.RequirementConstraint`: `break` on `All` becomes `return`.
- `Extended`, sorting: the library `sort_by` is modelled as a stable insertion sort (`SortByVersion`), which has the same result as any stable sort.
- `Extended` and `IterMax.IterMaxMap`, types: the ordered version key type `V` of the builders and the ordered key type `V: Ord` of `iter_max_map` are both `int`. The package name type `K` is any type with equality.
- The `indexmap` crate is modelled only through the operations the builders call (`contains_key`, `insert`, `get_full`, `keys`, `len`), as an entry list with distinct keys. Hashing is left out.
- `Extended.VersionSet.ViaFunPtr`: the function pointer is a Dafny function value.
- The `with_capacity` constructors of `ERepositoryBuilder`, `EPackageBuilder` and `EVersion` are left out: capacity is not observable. So are the trivial `EVersion::from` and `ERequirement::new`, which are the datatype constructors, and the `Default` impl, which is the `ERepositoryBuilder` constructor.
- `Vec1::into_vec` and `IntoIterator for Vec1` hand out the same contents that `NonEmpty.Vec1.AsVec` returns, so they have no members of their own.
- `Requirement::new` and `Range::interval_unchecked` are the datatype constructors.
- Pretty printing (`Pretty` impls, terminal colors), rkyv serialisation derives, `src/types/arbitrary.rs` and `src/lib.rs` are left out.
- `Formulas.Eval` gives `Bot` the meaning false and `Top` the meaning true. The printer renders them `⊤` and `⊥`, as the source writes them.
