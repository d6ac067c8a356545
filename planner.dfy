/**
  The planning half of the hook's `main`: every staged path is normalised,
  paths that cannot be normalised or whose target is already claimed by
  another path become problems, and the remaining renames are ordered
  deepest first so that a directory is renamed only after what it holds.
 */
module Planner {
  import opened Normalize

  /** One rename: the staged path and the path it should become. */
  datatype Entry = Entry(src: string, dst: string)

  /**
    The entries of `main`'s single `errors` list: the first two kinds are
    found while planning, the last is added by the execution loop (see
    `Executor`), so the one list holds all three.
   */
  datatype Problem =
    | EmptyComponent(path: string, component: string)  // a component would vanish
    | Conflict(claimant: string, rival: string, target: string)  // two paths, one target
    | MoveFailed(src: string, dst: string)  // the rename itself did not happen

  /**
    What planning needs of the normaliser: a path's normal form, or the
    component that stops it from having one. The lemmas below hold for any
    such function; the hook uses `normalize_path` with the chosen style.
   */
  type Normalizer = string -> Result<string, string>

  function PathNormalizer(style: Style): Normalizer {
    p => NormalizedPath(p, style)
  }

  /** The state of the planning loop: planned renames, problems, and who claimed each target. */
  datatype Planning = Planning(plan: seq<Entry>, errors: seq<Problem>, claims: map<string, string>)

  /** True when the path is already in normal form and needs no rename. */
  predicate Compliant(p: string, norm: Normalizer) {
    norm(p) == Ok(p)
  }

  /**
    One turn of the planning loop for the staged path `p`: an
    unnormalisable path adds one problem, a compliant path adds nothing, a
    target claimed by a different path adds a conflict, and otherwise `p`
    claims its target and its rename is planned.
   */
  function Step(st: Planning, p: string, norm: Normalizer): (r: Planning)
    ensures |r.plan| + |r.errors| == |st.plan| + |st.errors| + (if Compliant(p, norm) then 0 else 1)
    ensures |st.plan| <= |r.plan| && r.plan[..|st.plan|] == st.plan
    ensures |st.errors| <= |r.errors| && r.errors[..|st.errors|] == st.errors
  {
    match norm(p)
    case Err(c) => st.(errors := st.errors + [EmptyComponent(p, c)])
    case Ok(dst) =>
      if p == dst then st
      else if dst in st.claims && st.claims[dst] != p then
        st.(errors := st.errors + [Conflict(st.claims[dst], p, dst)])
      else Planning(st.plan + [Entry(p, dst)], st.errors, st.claims[dst := p])
  }

  /** The planning loop over the staged paths, in order. */
  function Planned(inputs: seq<string>, norm: Normalizer): Planning {
    if |inputs| == 0 then Planning([], [], map[])
    else Step(Planned(inputs[..|inputs| - 1], norm), inputs[|inputs| - 1], norm)
  }

  // ---------------------------------------------------------------------
  // Ordering: `plan.sort(key=lambda t: t[0].count("/"), reverse=True)`
  // ---------------------------------------------------------------------

  function CountChar(s: string, c: char): (n: nat)
    ensures n <= |s|
  {
    if |s| == 0 then 0
    else CountChar(s[..|s| - 1], c) + (if s[|s| - 1] == c then 1 else 0)
  }

  /** The sort key: how many `/` the source path holds. */
  function Depth(e: Entry): (d: nat)
    ensures d <= |e.src|
  {
    CountChar(e.src, '/')
  }

  /** Deepest source first. */
  predicate DepthOrdered(s: seq<Entry>) {
    forall i, j :: 0 <= i < j < |s| ==> Depth(s[i]) >= Depth(s[j])
  }

  /** The entries of `s` at depth `d`, in their order in `s`. */
  function AtDepth(s: seq<Entry>, d: nat): seq<Entry> {
    if |s| == 0 then []
    else AtDepth(s[..|s| - 1], d) + (if Depth(s[|s| - 1]) == d then [s[|s| - 1]] else [])
  }

  /** Places `e` after every entry at least as deep as it, keeping the others after it. */
  function InsertByDepth(s: seq<Entry>, e: Entry): (r: seq<Entry>)
    ensures |r| == |s| + 1
  {
    if |s| == 0 || Depth(s[|s| - 1]) >= Depth(e) then s + [e]
    else InsertByDepth(s[..|s| - 1], e) + [s[|s| - 1]]
  }

  /** The stable sort, descending by depth, that Python's `list.sort` performs. */
  function SortedByDepth(plan: seq<Entry>): (r: seq<Entry>)
    ensures |r| == |plan|
  {
    if |plan| == 0 then []
    else InsertByDepth(SortedByDepth(plan[..|plan| - 1]), plan[|plan| - 1])
  }

  lemma {:induction false} InsertByDepthOrdered(s: seq<Entry>, e: Entry)
    requires DepthOrdered(s)
    ensures DepthOrdered(InsertByDepth(s, e))
    ensures |s| > 0 ==> InsertByDepth(s, e)[0] == s[0] || InsertByDepth(s, e)[0] == e
  {
    if |s| > 0 && Depth(s[|s| - 1]) < Depth(e) {
      var init := s[..|s| - 1];
      var x := s[|s| - 1];
      assert DepthOrdered(init);
      InsertByDepthOrdered(init, e);
      var r := InsertByDepth(init, e);
      InsertByDepthElements(init, e);
      forall i | 0 <= i < |r| ensures Depth(r[i]) >= Depth(x) {
        assert r[i] in init || r[i] == e;
      }
    }
  }

  lemma {:induction false} InsertByDepthElements(s: seq<Entry>, e: Entry)
    ensures forall x :: x in InsertByDepth(s, e) ==> x in s || x == e
  {
    if |s| > 0 && Depth(s[|s| - 1]) < Depth(e) {
      InsertByDepthElements(s[..|s| - 1], e);
    }
  }

  lemma {:induction false} InsertByDepthMembers(s: seq<Entry>, e: Entry)
    ensures multiset(InsertByDepth(s, e)) == multiset(s) + multiset{e}
  {
    if |s| > 0 && Depth(s[|s| - 1]) < Depth(e) {
      var init := s[..|s| - 1];
      InsertByDepthMembers(init, e);
      assert s == init + [s[|s| - 1]];
    }
  }

  lemma {:induction false} InsertByDepthAtDepth(s: seq<Entry>, e: Entry, d: nat)
    ensures AtDepth(InsertByDepth(s, e), d) == AtDepth(s, d) + (if Depth(e) == d then [e] else [])
  {
    if |s| > 0 && Depth(s[|s| - 1]) < Depth(e) {
      var init := s[..|s| - 1];
      var r := InsertByDepth(init, e);
      InsertByDepthAtDepth(init, e, d);
      assert (r + [s[|s| - 1]])[..|r|] == r;
    } else {
      assert (s + [e])[..|s|] == s;
    }
  }

  /** The sort puts deeper sources first. */
  lemma {:induction false} SortedByDepthOrdered(plan: seq<Entry>)
    ensures DepthOrdered(SortedByDepth(plan))
  {
    if |plan| > 0 {
      var init := plan[..|plan| - 1];
      SortedByDepthOrdered(init);
      InsertByDepthOrdered(SortedByDepth(init), plan[|plan| - 1]);
    }
  }

  /** The sort keeps every entry, as often as it occurs. */
  lemma {:induction false} SortedByDepthPermutes(plan: seq<Entry>)
    ensures multiset(SortedByDepth(plan)) == multiset(plan)
  {
    if |plan| > 0 {
      var init := plan[..|plan| - 1];
      SortedByDepthPermutes(init);
      InsertByDepthMembers(SortedByDepth(init), plan[|plan| - 1]);
      MultisetLast(plan);
    }
  }

  /** The sort is stable: entries of equal depth keep their planned order. */
  lemma {:induction false} SortedByDepthStable(plan: seq<Entry>, d: nat)
    ensures AtDepth(SortedByDepth(plan), d) == AtDepth(plan, d)
  {
    if |plan| > 0 {
      var init := plan[..|plan| - 1];
      SortedByDepthStable(init, d);
      InsertByDepthAtDepth(SortedByDepth(init), plan[|plan| - 1], d);
    }
  }

  // ---------------------------------------------------------------------
  // The planning loop of `main`, with `desired_targets`
  // ---------------------------------------------------------------------

  /**
    The planning part of `main`: normalise every staged path, collect
    problems and claimed renames, then order the renames deepest first.
   */
  method BuildPlan(inputs: seq<string>, style: Style) returns (plan: seq<Entry>, errors: seq<Problem>)
    ensures errors == Planned(inputs, PathNormalizer(style)).errors
    ensures plan == SortedByDepth(Planned(inputs, PathNormalizer(style)).plan)
  {
    plan := [];
    errors := [];
    var desiredTargets: map<string, string> := map[];
    for i := 0 to |inputs|
      invariant Planned(inputs[..i], PathNormalizer(style)) == Planning(plan, errors, desiredTargets)
    {
      var p := inputs[i];
      assert inputs[..i + 1][..i] == inputs[..i];
      var dst := NormalizePath(p, style);
      match dst {
        case Err(c) =>
          errors := errors + [EmptyComponent(p, c)];
        case Ok(d) =>
          if p == d {
          } else if d in desiredTargets && desiredTargets[d] != p {
            errors := errors + [Conflict(desiredTargets[d], p, d)];
          } else {
            desiredTargets := desiredTargets[d := p];
            plan := plan + [Entry(p, d)];
          }
      }
    }
    assert inputs[..|inputs|] == inputs;
    plan := SortedByDepth(plan);
  }

  // ---------------------------------------------------------------------
  // What the plan means
  // ---------------------------------------------------------------------

  /**
    The invariant of the planning loop over the paths `seen` so far: every
    planned rename moves a seen path to its normal form, a different path,
    and holds the claim on its target; every claim belongs to a planned
    rename; every problem is about a seen path and says why.
   */
  predicate PlanningValid(st: Planning, seen: seq<string>, norm: Normalizer) {
    && (forall e :: e in st.plan ==>
          && e.src in seen && e.src != e.dst && norm(e.src) == Ok(e.dst)
          && e.dst in st.claims && st.claims[e.dst] == e.src)
    && (forall t :: t in st.claims ==> Entry(st.claims[t], t) in st.plan)
    && (forall q :: q in st.errors ==> ProblemValid(q, st.plan, seen, norm))
  }

  predicate ProblemValid(q: Problem, plan: seq<Entry>, seen: seq<string>, norm: Normalizer) {
    && !q.MoveFailed?
    && (q.EmptyComponent? ==> q.path in seen && norm(q.path) == Err(q.component))
    && (q.Conflict? ==>
          && q.claimant != q.rival && q.rival != q.target && q.rival in seen && norm(q.rival) == Ok(q.target)
          && Entry(q.claimant, q.target) in plan)
  }

  lemma StepValid(st: Planning, seen: seq<string>, p: string, norm: Normalizer)
    requires PlanningValid(st, seen, norm)
    ensures PlanningValid(Step(st, p, norm), seen + [p], norm)
  {
    var r := Step(st, p, norm);
    var seen' := seen + [p];
    assert forall x :: x in seen ==> x in seen';
    match norm(p)
    case Err(c) =>
      assert r.plan == st.plan;
      assert ProblemValid(EmptyComponent(p, c), r.plan, seen', norm);
    case Ok(dst) =>
      if p == dst {
      } else if dst in st.claims && st.claims[dst] != p {
        assert r.plan == st.plan;
        assert ProblemValid(Conflict(st.claims[dst], p, dst), r.plan, seen', norm);
      } else {
        assert r.errors == st.errors && r.plan == st.plan + [Entry(p, dst)];
        assert r.claims == st.claims[dst := p];
        forall e | e in r.plan
          ensures e.src in seen' && e.src != e.dst && norm(e.src) == Ok(e.dst)
          ensures e.dst in r.claims && r.claims[e.dst] == e.src
        {
          if e in st.plan && e.dst == dst {
            assert st.claims[dst] == e.src;
          }
        }
        forall t | t in r.claims ensures Entry(r.claims[t], t) in r.plan {
          if t != dst {
            assert Entry(st.claims[t], t) in st.plan;
          }
        }
        forall q | q in st.errors ensures ProblemValid(q, r.plan, seen', norm) {
          assert ProblemValid(q, st.plan, seen, norm);
        }
      }
  }

  /** The planning loop keeps its invariant from the first path to the last. */
  lemma {:induction false} PlannedValid(inputs: seq<string>, norm: Normalizer)
    ensures PlanningValid(Planned(inputs, norm), inputs, norm)
  {
    if |inputs| > 0 {
      var init := inputs[..|inputs| - 1];
      PlannedValid(init, norm);
      StepValid(Planned(init, norm), init, inputs[|inputs| - 1], norm);
      assert init + [inputs[|inputs| - 1]] == inputs;
    }
  }

  /**
    The planned renames are consistent: each moves a staged path to its
    normal form, a different path, and two renames with the same target
    have the same source (the first path to claim a target keeps it; the
    same path staged twice is planned twice, not reported as a conflict).
   */
  lemma PlanConsistent(inputs: seq<string>, norm: Normalizer)
    ensures var plan := Planned(inputs, norm).plan;
      forall e :: e in plan ==> e.src in inputs && e.src != e.dst && norm(e.src) == Ok(e.dst)
    ensures var plan := Planned(inputs, norm).plan;
      forall i, j :: 0 <= i < |plan| && 0 <= j < |plan| && plan[i].dst == plan[j].dst ==>
        plan[i].src == plan[j].src
  {
    PlannedValid(inputs, norm);
  }

  /**
    Every problem found while planning names a staged path and the reason:
    the component that would vanish, or the earlier path that claimed the
    same target, whose rename is planned.
   */
  lemma PlanProblemsExplained(inputs: seq<string>, norm: Normalizer)
    ensures var st := Planned(inputs, norm);
      forall q :: q in st.errors ==> ProblemValid(q, st.plan, inputs, norm)
  {
    PlannedValid(inputs, norm);
  }

  // ---------------------------------------------------------------------
  // Every staged path is accounted for exactly once
  // ---------------------------------------------------------------------

  /** The staged path a problem is about. */
  function Subject(q: Problem): string {
    match q
    case EmptyComponent(p, _) => p
    case Conflict(_, rival, _) => rival
    case MoveFailed(src, _) => src
  }

  /** The sources of the planned renames, in order. */
  function Sources(plan: seq<Entry>): (r: seq<string>)
    ensures |r| == |plan|
  {
    if |plan| == 0 then []
    else Sources(plan[..|plan| - 1]) + [plan[|plan| - 1].src]
  }

  /** The staged paths the problems are about, in order. */
  function Subjects(errors: seq<Problem>): (r: seq<string>)
    ensures |r| == |errors|
  {
    if |errors| == 0 then []
    else Subjects(errors[..|errors| - 1]) + [Subject(errors[|errors| - 1])]
  }

  /** The staged paths that are already in normal form, in order. */
  function CompliantPaths(inputs: seq<string>, norm: Normalizer): (r: seq<string>)
    ensures |r| <= |inputs|
    ensures forall p :: p in r ==> p in inputs && Compliant(p, norm)
  {
    if |inputs| == 0 then []
    else
      var p := inputs[|inputs| - 1];
      CompliantPaths(inputs[..|inputs| - 1], norm) + (if Compliant(p, norm) then [p] else [])
  }

  /**
    The planning loop partitions the staged paths, counting repetitions:
    each is either already in normal form, or the source of one planned
    rename, or the subject of one problem (the path with a vanishing
    component, or the rival of a conflict).
   */
  lemma {:induction false} PlannedPartition(inputs: seq<string>, norm: Normalizer)
    ensures Partitioned(Planned(inputs, norm), CompliantPaths(inputs, norm), inputs)
  {
    if |inputs| > 0 {
      var n := |inputs| - 1;
      var init, p := inputs[..n], inputs[n];
      PlannedPartition(init, norm);
      MultisetLast(inputs);
      PartitionStep(Planned(init, norm), Planned(inputs, norm), CompliantPaths(init, norm),
        CompliantPaths(inputs, norm), init, inputs, p, norm);
    }
  }

  /**
    The paths `seen` are split, counting repetitions, between the sources of
    the planned renames, the subjects of the problems and the paths `done`
    that needed nothing.
   */
  predicate Partitioned(st: Planning, done: seq<string>, seen: seq<string>) {
    multiset(Sources(st.plan)) + multiset(Subjects(st.errors)) + multiset(done) == multiset(seen)
  }

  /** One turn of the loop extends the partition of the paths seen so far by the path it handles. */
  lemma PartitionStep(st0: Planning, st: Planning, done0: seq<string>, done: seq<string>,
                      init: seq<string>, inputs: seq<string>, p: string, norm: Normalizer)
    requires st == Step(st0, p, norm)
    requires done == done0 + (if Compliant(p, norm) then [p] else [])
    requires multiset(inputs) == multiset(init) + multiset{p}
    requires Partitioned(st0, done0, init)
    ensures Partitioned(st, done, inputs)
  {
    StepPartition(st0, p, norm);
    var mine := if Compliant(p, norm) then [p] else [];
    MultisetStep(multiset(Sources(st0.plan)), multiset(Subjects(st0.errors)), multiset(done0), multiset(init),
      multiset(Sources(st.plan)), multiset(Subjects(st.errors)), multiset(mine), multiset{p},
      multiset(done), multiset(inputs));
  }

  lemma MultisetLast<T>(s: seq<T>)
    requires |s| > 0
    ensures multiset(s) == multiset(s[..|s| - 1]) + multiset{s[|s| - 1]}
  {
    assert s == s[..|s| - 1] + [s[|s| - 1]];
  }

  lemma MultisetStep<T>(a: multiset<T>, b: multiset<T>, c: multiset<T>, all: multiset<T>,
                        a': multiset<T>, b': multiset<T>, m: multiset<T>, x: multiset<T>,
                        c': multiset<T>, all': multiset<T>)
    requires a + b + c == all
    requires a' + b' + m == a + b + x
    requires c' == c + m && all' == all + x
    ensures a' + b' + c' == all'
  {
    assert forall z :: (a' + b' + (c + m))[z] == (a' + b' + m)[z] + c[z];
    assert forall z :: (all + x)[z] == (a + b + x)[z] + c[z];
  }

  /** None of the renamed or reported paths is already in normal form. */
  lemma PlannedNotCompliant(inputs: seq<string>, norm: Normalizer)
    ensures var st := Planned(inputs, norm);
      forall e :: e in st.plan ==> !Compliant(e.src, norm)
    ensures var st := Planned(inputs, norm);
      forall q :: q in st.errors ==> !Compliant(Subject(q), norm)
  {
    PlannedValid(inputs, norm);
  }

  /** One turn of the planning loop accounts for its path exactly once. */
  lemma StepPartition(st: Planning, p: string, norm: Normalizer)
    ensures var r := Step(st, p, norm);
      multiset(Sources(r.plan)) + multiset(Subjects(r.errors)) + multiset(if Compliant(p, norm) then [p] else [])
        == multiset(Sources(st.plan)) + multiset(Subjects(st.errors)) + multiset{p}
  {
    var r := Step(st, p, norm);
    match norm(p)
    case Err(c) =>
      assert r.plan == st.plan && r.errors == st.errors + [EmptyComponent(p, c)] && !Compliant(p, norm);
      SubjectsSnoc(st.errors, EmptyComponent(p, c));
    case Ok(dst) =>
      if p == dst {
        assert r == st && Compliant(p, norm);
      } else if dst in st.claims && st.claims[dst] != p {
        assert r.plan == st.plan && r.errors == st.errors + [Conflict(st.claims[dst], p, dst)];
        SubjectsSnoc(st.errors, Conflict(st.claims[dst], p, dst));
      } else {
        assert r.plan == st.plan + [Entry(p, dst)] && r.errors == st.errors;
        SourcesSnoc(st.plan, Entry(p, dst));
      }
  }

  lemma SourcesSnoc(plan: seq<Entry>, e: Entry)
    ensures Sources(plan + [e]) == Sources(plan) + [e.src]
  {
    assert (plan + [e])[..|plan|] == plan;
  }

  lemma SubjectsSnoc(errors: seq<Problem>, q: Problem)
    ensures Subjects(errors + [q]) == Subjects(errors) + [Subject(q)]
  {
    assert (errors + [q])[..|errors|] == errors;
  }

  /**
    Each staged path that is not in normal form gives exactly one planned
    rename or one problem; compliant paths give neither. So nothing is
    planned and nothing reported exactly when every path is compliant.
   */
  lemma PlannedAccounts(inputs: seq<string>, norm: Normalizer)
    ensures var st := Planned(inputs, norm);
      |st.plan| + |st.errors| + |CompliantPaths(inputs, norm)| == |inputs|
    ensures var st := Planned(inputs, norm);
      (|st.plan| == 0 && |st.errors| == 0) <==> forall p :: p in inputs ==> Compliant(p, norm)
  {
    var st := Planned(inputs, norm);
    PlannedPartition(inputs, norm);
    assert |multiset(inputs)| == |inputs|;
    CompliantPathsAll(inputs, norm);
  }

  lemma {:induction false} CompliantPathsAll(inputs: seq<string>, norm: Normalizer)
    ensures |CompliantPaths(inputs, norm)| == |inputs| <==> forall p :: p in inputs ==> Compliant(p, norm)
  {
    if |inputs| > 0 {
      var init := inputs[..|inputs| - 1];
      CompliantPathsAll(init, norm);
      assert inputs == init + [inputs[|inputs| - 1]];
    }
  }

  // ---------------------------------------------------------------------
  // The first path to claim a target keeps it
  // ---------------------------------------------------------------------

  /** True when the staged path `p` would be renamed onto `t`. */
  predicate Claims(p: string, t: string, norm: Normalizer) {
    norm(p) == Ok(t) && p != t
  }

  /** The position of the first staged path that would be renamed onto `t`, or `|inputs|` when none would. */
  function FirstClaim(inputs: seq<string>, t: string, norm: Normalizer): (k: nat)
    ensures k <= |inputs|
    ensures k < |inputs| ==> Claims(inputs[k], t, norm)
    ensures forall j :: 0 <= j < k ==> !Claims(inputs[j], t, norm)
  {
    if |inputs| == 0 then 0
    else
      var k := FirstClaim(inputs[..|inputs| - 1], t, norm);
      if k < |inputs| - 1 then k
      else if Claims(inputs[|inputs| - 1], t, norm) then |inputs| - 1
      else |inputs|
  }

  /**
    The invariant behind `desired_targets`: a target is claimed exactly
    when some staged path would be renamed onto it, and it is claimed by
    the first such path.
   */
  lemma {:induction false} PlannedClaims(inputs: seq<string>, norm: Normalizer)
    ensures ClaimedFirst(Planned(inputs, norm), inputs, norm)
  {
    if |inputs| > 0 {
      var n := |inputs| - 1;
      PlannedClaims(inputs[..n], norm);
      StepClaims(Planned(inputs[..n], norm), inputs[..n], inputs[n], norm);
      assert inputs[..n] + [inputs[n]] == inputs;
    }
  }

  /** Every target is claimed exactly when some path would be renamed onto it, and then by the first. */
  ghost predicate ClaimedFirst(st: Planning, inputs: seq<string>, norm: Normalizer) {
    forall t :: (t in st.claims <==> FirstClaim(inputs, t, norm) < |inputs|)
      && (t in st.claims ==> st.claims[t] == inputs[FirstClaim(inputs, t, norm)])
  }

  lemma StepClaims(st: Planning, inputs: seq<string>, p: string, norm: Normalizer)
    requires ClaimedFirst(st, inputs, norm)
    ensures ClaimedFirst(Step(st, p, norm), inputs + [p], norm)
  {
    var r := Step(st, p, norm);
    var all := inputs + [p];
    assert all[..|inputs|] == inputs;
    forall t
      ensures (t in r.claims <==> FirstClaim(all, t, norm) < |all|)
      ensures t in r.claims ==> r.claims[t] == all[FirstClaim(all, t, norm)]
    {
      var k0 := FirstClaim(inputs, t, norm);
      if k0 < |inputs| {
        assert all[k0] == inputs[k0];
      }
    }
  }

  /**
    The renames onto a target come from the first staged path that would
    be renamed onto it; every such target gets that rename; and every
    conflict names that first path as the claimant.
   */
  lemma FirstClaimPlanned(inputs: seq<string>, norm: Normalizer)
    ensures var st := Planned(inputs, norm);
      forall e :: e in st.plan ==>
        FirstClaim(inputs, e.dst, norm) < |inputs| && e.src == inputs[FirstClaim(inputs, e.dst, norm)]
    ensures var st := Planned(inputs, norm);
      forall t :: FirstClaim(inputs, t, norm) < |inputs| ==>
        Entry(inputs[FirstClaim(inputs, t, norm)], t) in st.plan
    ensures var st := Planned(inputs, norm);
      forall q :: q in st.errors && q.Conflict? ==>
        FirstClaim(inputs, q.target, norm) < |inputs| && q.claimant == inputs[FirstClaim(inputs, q.target, norm)]
  {
    PlannedValid(inputs, norm);
    PlannedClaims(inputs, norm);
  }

  /**
    Every staged path that would be renamed onto `t` and differs from the
    first one to claim `t` is reported as a conflict naming that first path.
   */
  lemma {:induction false} LaterClaimsConflict(inputs: seq<string>, t: string, norm: Normalizer)
    ensures ConflictsWithFirst(Planned(inputs, norm), inputs, t, norm)
  {
    if |inputs| > 0 {
      var init := inputs[..|inputs| - 1];
      LaterClaimsConflict(init, t, norm);
      PlannedClaims(init, norm);
      ConflictsStep(Planned(init, norm), inputs, t, norm);
    }
  }

  /**
    Every claimant of `t` among `seen` comes no earlier than the first one,
    and is either that path again or reported in a conflict naming it.
   */
  ghost predicate ConflictsWithFirst(st: Planning, seen: seq<string>, t: string, norm: Normalizer) {
    var k := FirstClaim(seen, t, norm);
    forall j :: 0 <= j < |seen| && Claims(seen[j], t, norm) ==>
      k <= j && (seen[j] == seen[k] || Conflict(seen[k], seen[j], t) in st.errors)
  }

  /** One turn of the loop keeps `ConflictsWithFirst` for the path it handles. */
  lemma ConflictsStep(st0: Planning, inputs: seq<string>, t: string, norm: Normalizer)
    requires |inputs| > 0
    requires ClaimedFirst(st0, inputs[..|inputs| - 1], norm)
    requires ConflictsWithFirst(st0, inputs[..|inputs| - 1], t, norm)
    ensures ConflictsWithFirst(Step(st0, inputs[|inputs| - 1], norm), inputs, t, norm)
  {
    var n := |inputs| - 1;
    var init, p := inputs[..n], inputs[n];
    var st := Step(st0, p, norm);
    var k0 := FirstClaim(init, t, norm);
    var k := FirstClaim(inputs, t, norm);
    assert k0 < n ==> k == k0;
    forall j | 0 <= j < |inputs| && Claims(inputs[j], t, norm)
      ensures k <= j && (inputs[j] == inputs[k] || Conflict(inputs[k], inputs[j], t) in st.errors)
    {
      if j < n {
        assert inputs[j] == init[j];
        assert inputs[k0] == init[k0];
        if inputs[j] != inputs[k] {
          assert Conflict(inputs[k], inputs[j], t) in st0.errors;
          assert st.errors[..|st0.errors|] == st0.errors;
        }
      } else if k0 < n {
        assert inputs[k0] == init[k0];
        if p != inputs[k0] {
          StepConflict(st0, p, t, norm);
        }
      }
    }
  }

  /** A path whose target is already held by a different path is reported against that path. */
  lemma StepConflict(st: Planning, p: string, t: string, norm: Normalizer)
    requires Claims(p, t, norm) && t in st.claims && st.claims[t] != p
    ensures Conflict(st.claims[t], p, t) in Step(st, p, norm).errors
  {
  }

}
