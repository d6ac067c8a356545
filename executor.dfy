/**
  The executing half of the hook's `main`: every planned rename is carried
  out with `git mv`, falling back to a plain file-system rename followed by
  staging, and the exit status summarises the run (0 nothing to do, 1 some
  path could not be fixed, 2 bad invocation, 3 files were renamed and must
  be re-staged by the user).

  The version-control and file-system calls are not modelled; what they
  report is given by a `MoveEnv` per executed rename.
 */
module Executor {
  import opened Normalize
  import opened Args
  import opened Planner

  /** How the fallback `os.replace` ended. */
  datatype RawRename = Renamed | NotFound | OtherError

  /**
    What the outside world answers during one rename: whether `git mv`
    succeeded, how the plain rename ended, and whether the source path is
    still known to the index afterwards.
   */
  datatype MoveEnv = MoveEnv(vcsMoveOk: bool, raw: RawRename, srcTracked: bool)

  /** The commands one rename issues, in order. */
  datatype Action =
    | CreateParents(target: string)   // the parent directories of the target
    | VcsMove(src: string, dst: string)   // `git mv -f -k`
    | RawMove(src: string, dst: string)   // `os.replace`
    | Warn(src: string, dst: string)   // the warning on an unexpected failure
    | Stage(path: string)   // `git add`
    | Unstage(path: string)   // `git rm --cached`

  datatype MoveResult = MoveResult(ok: bool, actions: seq<Action>)

  /**
    `git_mv`: a rename to itself does nothing and fails; otherwise `git mv`
    is tried, then a plain rename that, when it succeeds, stages the new
    path and unstages the old one if the index still tracks it.
   */
  function GitMv(src: string, dst: string, env: MoveEnv): (r: MoveResult)
    ensures r.ok <==> src != dst && (env.vcsMoveOk || env.raw == Renamed)
    ensures src == dst ==> r.actions == []
    ensures Stage(dst) in r.actions <==> src != dst && !env.vcsMoveOk && env.raw == Renamed
    ensures Unstage(src) in r.actions <==>
      src != dst && !env.vcsMoveOk && env.raw == Renamed && env.srcTracked
  {
    if src == dst then MoveResult(false, [])
    else
      var tried := [CreateParents(dst), VcsMove(src, dst)];
      if env.vcsMoveOk then MoveResult(true, tried)
      else
        match env.raw
        case NotFound => MoveResult(false, tried + [RawMove(src, dst)])
        case OtherError => MoveResult(false, tried + [RawMove(src, dst), Warn(src, dst)])
        case Renamed =>
          var staged := tried + [RawMove(src, dst), Stage(dst)];
          MoveResult(true, if env.srcTracked then staged + [Unstage(src)] else staged)
  }

  /** The effect of one command on the set of paths the index tracks: only staging commands touch it. */
  function Applied(index: set<string>, a: Action): set<string> {
    match a
    case Stage(p) => index + {p}
    case Unstage(p) => index - {p}
    case _ => index
  }

  /** The paths the index tracks after the staging commands among `actions`. */
  function IndexAfter(index: set<string>, actions: seq<Action>): set<string> {
    if |actions| == 0 then index
    else Applied(IndexAfter(index, actions[..|actions| - 1]), actions[|actions| - 1])
  }

  lemma IndexAfterSnoc(index: set<string>, actions: seq<Action>, a: Action)
    ensures IndexAfter(index, actions + [a]) == Applied(IndexAfter(index, actions), a)
  {
    assert (actions + [a])[..|actions|] == actions;
  }

  /** The commands up to and including the failed or successful plain rename leave the index alone. */
  lemma TriedKeepsIndex(src: string, dst: string, index: set<string>)
    ensures IndexAfter(index, [CreateParents(dst), VcsMove(src, dst), RawMove(src, dst)]) == index
  {
    IndexAfterSnoc(index, [], CreateParents(dst));
    assert [] + [CreateParents(dst)] == [CreateParents(dst)];
    IndexAfterSnoc(index, [CreateParents(dst)], VcsMove(src, dst));
    assert [CreateParents(dst)] + [VcsMove(src, dst)] == [CreateParents(dst), VcsMove(src, dst)];
    IndexAfterSnoc(index, [CreateParents(dst), VcsMove(src, dst)], RawMove(src, dst));
    assert [CreateParents(dst), VcsMove(src, dst)] + [RawMove(src, dst)]
      == [CreateParents(dst), VcsMove(src, dst), RawMove(src, dst)];
  }

  /**
    After the fallback rename, the index tracks the new path and no longer
    the old one, provided the tracking query answers truthfully.
   */
  lemma FallbackReconcilesIndex(src: string, dst: string, env: MoveEnv, index: set<string>)
    requires src != dst && !env.vcsMoveOk && env.raw == Renamed
    requires env.srcTracked <==> src in index
    ensures IndexAfter(index, GitMv(src, dst, env).actions) == index - {src} + {dst}
  {
    var raw := [CreateParents(dst), VcsMove(src, dst), RawMove(src, dst)];
    TriedKeepsIndex(src, dst, index);
    IndexAfterSnoc(index, raw, Stage(dst));
    IndexAfterSnoc(index, raw + [Stage(dst)], Unstage(src));
    var tried := [CreateParents(dst), VcsMove(src, dst)];
    assert tried + [RawMove(src, dst), Stage(dst)] == raw + [Stage(dst)];
  }

  /** A rename that fails issues no staging command, so the index is left as it was. */
  lemma FailedMoveKeepsIndex(src: string, dst: string, env: MoveEnv, index: set<string>)
    requires !GitMv(src, dst, env).ok
    ensures IndexAfter(index, GitMv(src, dst, env).actions) == index
  {
    if src != dst {
      var raw := [CreateParents(dst), VcsMove(src, dst), RawMove(src, dst)];
      TriedKeepsIndex(src, dst, index);
      IndexAfterSnoc(index, raw, Warn(src, dst));
      var tried := [CreateParents(dst), VcsMove(src, dst)];
      assert tried + [RawMove(src, dst)] == raw;
      assert tried + [RawMove(src, dst), Warn(src, dst)] == raw + [Warn(src, dst)];
    }
  }

  // ---------------------------------------------------------------------
  // Executing the plan
  // ---------------------------------------------------------------------

  /** The renames that happened and the problems the failed ones left. */
  datatype Outcome = Outcome(changed: seq<Entry>, failures: seq<Problem>)

  /**
    The execution loop over the sorted plan; the `i`-th rename sees the
    world as `env(i)` describes it.
   */
  function Executed(plan: seq<Entry>, env: nat -> MoveEnv): (o: Outcome)
    ensures |o.changed| + |o.failures| <= |plan|
  {
    if |plan| == 0 then Outcome([], [])
    else
      var e := plan[|plan| - 1];
      Record(Executed(plan[..|plan| - 1], env), e, GitMv(e.src, e.dst, env(|plan| - 1)).ok)
  }

  /** What one rename adds to the outcome: the entry when it succeeded, a failure when it did not and was not to itself. */
  function Record(o: Outcome, e: Entry, ok: bool): Outcome {
    if ok then o.(changed := o.changed + [e])
    else if e.src != e.dst then o.(failures := o.failures + [MoveFailed(e.src, e.dst)])
    else o
  }

  /** The execution loop of `main`, appending failures to the problems found while planning. */
  method Execute(plan: seq<Entry>, errors0: seq<Problem>, env: nat -> MoveEnv)
    returns (changed: seq<Entry>, errors: seq<Problem>)
    ensures changed == Executed(plan, env).changed
    ensures errors == errors0 + Executed(plan, env).failures
  {
    changed := [];
    errors := errors0;
    ghost var failures: seq<Problem> := [];
    for i := 0 to |plan|
      invariant Executed(plan[..i], env) == Outcome(changed, failures)
      invariant errors == errors0 + failures
    {
      var e := plan[i];
      assert plan[..i + 1][..i] == plan[..i];
      var ok := GitMv(e.src, e.dst, env(i)).ok;
      if ok {
        changed := changed + [e];
      } else {
        if e.src != e.dst {
          errors := errors + [MoveFailed(e.src, e.dst)];
          failures := failures + [MoveFailed(e.src, e.dst)];
        }
      }
    }
    assert plan[..|plan|] == plan;
  }

  /** The renames a list of problems reports as failed, in order. */
  function FailedEntries(failures: seq<Problem>): (r: seq<Entry>)
    ensures |r| <= |failures|
  {
    if |failures| == 0 then []
    else
      var q := failures[|failures| - 1];
      FailedEntries(failures[..|failures| - 1]) + (if q.MoveFailed? then [Entry(q.src, q.dst)] else [])
  }

  /**
    When no planned rename is to itself, the plan is partitioned, counting
    repetitions: every entry ends up exactly once either among the renames
    that happened or as a failure naming it. The `i`-th entry is changed
    when its rename succeeds and reported as failed when it does not.
   */
  lemma ExecutedPartition(plan: seq<Entry>, env: nat -> MoveEnv)
    requires forall e :: e in plan ==> e.src != e.dst
    ensures var o := Executed(plan, env);
      multiset(o.changed) + multiset(FailedEntries(o.failures)) == multiset(plan)
    ensures var o := Executed(plan, env); forall q :: q in o.failures ==> q.MoveFailed?
    ensures var o := Executed(plan, env);
      forall i :: 0 <= i < |plan| && GitMv(plan[i].src, plan[i].dst, env(i)).ok ==> plan[i] in o.changed
    ensures var o := Executed(plan, env);
      forall i :: 0 <= i < |plan| && !GitMv(plan[i].src, plan[i].dst, env(i)).ok ==>
        MoveFailed(plan[i].src, plan[i].dst) in o.failures
  {
    ExecutedMembers(plan, env);
    ExecutedAt(plan, env);
  }

  lemma {:induction false} ExecutedMembers(plan: seq<Entry>, env: nat -> MoveEnv)
    requires forall e :: e in plan ==> e.src != e.dst
    ensures var o := Executed(plan, env);
      multiset(o.changed) + multiset(FailedEntries(o.failures)) == multiset(plan)
  {
    if |plan| > 0 {
      var n := |plan| - 1;
      var init, e := plan[..n], plan[n];
      assert e in plan;
      assert forall x :: x in init ==> x in plan;
      ExecutedMembers(init, env);
      MultisetLast(plan);
      RecordMembers(Executed(init, env), e, GitMv(e.src, e.dst, env(n)).ok);
    }
  }

  /** One recorded rename adds its entry once, to the changed or to the failed ones. */
  lemma RecordMembers(o: Outcome, e: Entry, ok: bool)
    requires e.src != e.dst
    ensures var r := Record(o, e, ok);
      multiset(r.changed) + multiset(FailedEntries(r.failures))
        == multiset(o.changed) + multiset(FailedEntries(o.failures)) + multiset{e}
  {
    var a, b := multiset(o.changed), multiset(FailedEntries(o.failures));
    if !ok {
      var q := MoveFailed(e.src, e.dst);
      assert (o.failures + [q])[..|o.failures|] == o.failures;
    }
    MultisetAdd(a, b, a + b, multiset{e});
  }

  lemma MultisetAdd<T>(a: multiset<T>, b: multiset<T>, all: multiset<T>, x: multiset<T>)
    requires a + b == all
    ensures (a + x) + b == all + x && a + (b + x) == all + x
  {
    assert forall z :: ((a + x) + b)[z] == (a + b)[z] + x[z];
    assert forall z :: (a + (b + x))[z] == (a + b)[z] + x[z];
  }

  lemma {:induction false} ExecutedAt(plan: seq<Entry>, env: nat -> MoveEnv)
    requires forall e :: e in plan ==> e.src != e.dst
    ensures var o := Executed(plan, env); forall q :: q in o.failures ==> q.MoveFailed?
    ensures var o := Executed(plan, env);
      forall i :: 0 <= i < |plan| && GitMv(plan[i].src, plan[i].dst, env(i)).ok ==> plan[i] in o.changed
    ensures var o := Executed(plan, env);
      forall i :: 0 <= i < |plan| && !GitMv(plan[i].src, plan[i].dst, env(i)).ok ==>
        MoveFailed(plan[i].src, plan[i].dst) in o.failures
  {
    if |plan| > 0 {
      var n := |plan| - 1;
      var init, e := plan[..n], plan[n];
      assert e in plan;
      assert forall x :: x in init ==> x in plan;
      ExecutedAt(init, env);
      var o0 := Executed(init, env);
      var ok := GitMv(e.src, e.dst, env(n)).ok;
      RecordKeeps(o0, e, ok);
      var o := Executed(plan, env);
      assert o == Record(o0, e, ok);
      forall i | 0 <= i < |plan|
        ensures GitMv(plan[i].src, plan[i].dst, env(i)).ok ==> plan[i] in o.changed
        ensures !GitMv(plan[i].src, plan[i].dst, env(i)).ok ==> MoveFailed(plan[i].src, plan[i].dst) in o.failures
      {
        if i < n {
          assert plan[i] == init[i];
        }
      }
    }
  }

  /** Recording keeps what was there and adds the entry to the side its outcome says. */
  lemma RecordKeeps(o: Outcome, e: Entry, ok: bool)
    requires e.src != e.dst
    ensures var r := Record(o, e, ok);
      && (forall x :: x in o.changed ==> x in r.changed)
      && (forall q :: q in o.failures ==> q in r.failures)
      && (forall q :: q in r.failures ==> q in o.failures || q == MoveFailed(e.src, e.dst))
      && (ok ==> e in r.changed)
      && (!ok ==> MoveFailed(e.src, e.dst) in r.failures)
  {
  }

  /**
    When, in addition, no entry is planned twice, the `i`-th entry is among
    the renames that happened exactly when its rename succeeded.
   */
  lemma {:induction false} ExecutedExactly(plan: seq<Entry>, env: nat -> MoveEnv)
    requires forall i, j :: 0 <= i < j < |plan| ==> plan[i] != plan[j]
    ensures var o := Executed(plan, env);
      forall i :: 0 <= i < |plan| ==> (plan[i] in o.changed <==> GitMv(plan[i].src, plan[i].dst, env(i)).ok)
  {
    if |plan| > 0 {
      var n := |plan| - 1;
      var init := plan[..n];
      ExecutedExactly(init, env);
      ExecutedChangedFromPlan(init, env);
      forall i | 0 <= i < n ensures plan[i] == init[i] && plan[i] != plan[n] {
      }
      assert plan[n] !in init;
    }
  }

  /** Only planned entries are changed. */
  lemma {:induction false} ExecutedChangedFromPlan(plan: seq<Entry>, env: nat -> MoveEnv)
    ensures forall e :: e in Executed(plan, env).changed ==> e in plan
  {
    if |plan| > 0 {
      var init := plan[..|plan| - 1];
      ExecutedChangedFromPlan(init, env);
      assert forall x :: x in init ==> x in plan;
    }
  }

  /** If every rename succeeds, everything planned is changed and nothing fails. */
  lemma {:induction false} ExecutedAllSucceed(plan: seq<Entry>, env: nat -> MoveEnv)
    requires forall i :: 0 <= i < |plan| ==> GitMv(plan[i].src, plan[i].dst, env(i)).ok
    ensures Executed(plan, env) == Outcome(plan, [])
  {
    if |plan| > 0 {
      var init := plan[..|plan| - 1];
      ExecutedAllSucceed(init, env);
      assert init + [plan[|plan| - 1]] == plan;
    }
  }

  // ---------------------------------------------------------------------
  // A whole run
  // ---------------------------------------------------------------------

  /** The exit status once the arguments are valid: problems win over renames. */
  function ExitCode(errors: seq<Problem>, changed: seq<Entry>): (code: int)
    ensures code == 1 <==> |errors| > 0
    ensures code == 3 <==> |errors| == 0 && |changed| > 0
    ensures code == 0 <==> |errors| == 0 && |changed| == 0
  {
    if |errors| > 0 then 1
    else if |changed| > 0 then 3
    else 0
  }

  /**
    `main`: outside a repository, or with an invalid style, the run stops
    with status 2 before touching anything; otherwise it plans, renames,
    and reports 0 when every staged path was already in normal form, 1 when
    some path could not be fixed, 3 when paths were renamed.
   */
  method Run(inRepo: bool, argv: seq<string>, env: nat -> MoveEnv)
    returns (code: int, changed: seq<Entry>, errors: seq<Problem>)
    ensures code == 2 <==> !inRepo || ParsedArgs(Tail(argv)).BadStyle?
    ensures code == 2 ==> changed == [] && errors == []
    ensures code != 2 ==> code == ExitCode(errors, changed)
    ensures code != 2 ==> var cfg := ParsedArgs(Tail(argv));
      var st := Planned(cfg.files, PathNormalizer(cfg.style));
      var o := Executed(SortedByDepth(st.plan), env);
      changed == o.changed && errors == st.errors + o.failures
    ensures code != 2 ==> var cfg := ParsedArgs(Tail(argv));
      (|Planned(cfg.files, PathNormalizer(cfg.style)).errors| > 0 ==> code == 1)
    ensures code != 2 ==> var cfg := ParsedArgs(Tail(argv));
      (code == 0 <==> forall p :: p in cfg.files ==> Compliant(p, PathNormalizer(cfg.style)))
  {
    if !inRepo {
      return 2, [], [];
    }
    var parsed := ParseArgs(argv);
    if parsed.BadStyle? {
      return 2, [], [];
    }
    var style, inputs := parsed.style, parsed.files;
    var plan, planErrors := BuildPlan(inputs, style);
    changed, errors := Execute(plan, planErrors, env);
    code := ExitCode(errors, changed);

    var norm := PathNormalizer(style);
    var planned := Planned(inputs, norm).plan;
    PlannedAccounts(inputs, norm);
    PlanConsistent(inputs, norm);
    SortedByDepthPermutes(planned);
    forall e | e in plan ensures e.src != e.dst {
      assert e in multiset(plan);
    }
    ExecutedPartition(plan, env);
  }
}
