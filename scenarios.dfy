/**
  The behaviour the hook's documentation illustrates with examples, stated
  for every input of the same shape: words without spaces or slashes,
  separated by runs of spaces.
 */
module Scenarios {
  import opened Normalize
  import opened Planner
  import opened Executor

  /** A non-empty piece of a component holding neither a space nor a slash. */
  predicate Word(w: string) {
    |w| > 0 && ' ' !in w && '/' !in w
  }

  lemma WordUnchanged(w: string)
    requires Word(w)
    ensures Collapsed(w) == w && Underscored(w) == w && Removed(w) == w
  {
    CollapsedUnchanged(w);
    UnderscoredUnchanged(w);
    RemovedUnchanged(w);
  }

  /** A non-empty run of spaces. */
  predicate Run(r: string) {
    |r| > 0 && AllSpaces(r)
  }

  /**
    The shape of the documented component `  My  Report .txt  `: three
    words separated by two runs of spaces, padded at both edges by any
    number of spaces.
   */
  predicate Shape(lead: string, a: string, r1: string, b: string, r2: string, c: string, trail: string) {
    AllSpaces(lead) && Word(a) && Run(r1) && Word(b) && Run(r2) && Word(c) && AllSpaces(trail)
  }

  function Sample(a: string, r1: string, b: string, r2: string, c: string): string {
    a + r1 + b + r2 + c
  }

  lemma SampleTrimmed(lead: string, a: string, r1: string, b: string, r2: string, c: string, trail: string)
    requires Shape(lead, a, r1, b, r2, c, trail)
    ensures Trimmed(lead + Sample(a, r1, b, r2, c) + trail) == Sample(a, r1, b, r2, c)
  {
    var s := Sample(a, r1, b, r2, c);
    assert s[0] == a[0] && a[0] in a;
    assert s[|s| - 1] == c[|c| - 1] && c[|c| - 1] in c;
    TrimmedPadded(lead, s, trail);
  }

  // ---------------------------------------------------------------------
  // The four styles on one component
  // ---------------------------------------------------------------------

  /** `none` strips the padding and leaves the inner runs as they are: `My  Report .txt`. */
  lemma TrimOnlyExample(lead: string, a: string, r1: string, b: string, r2: string, c: string, trail: string)
    requires Shape(lead, a, r1, b, r2, c, trail)
    ensures Normalized(lead + Sample(a, r1, b, r2, c) + trail, TrimOnly) == a + r1 + b + r2 + c
  {
    SampleTrimmed(lead, a, r1, b, r2, c, trail);
  }

  /** `collapse` turns each inner run into one space: `My Report .txt`. */
  lemma CollapseExample(lead: string, a: string, r1: string, b: string, r2: string, c: string, trail: string)
    requires Shape(lead, a, r1, b, r2, c, trail)
    ensures Normalized(lead + Sample(a, r1, b, r2, c) + trail, Collapse) == a + " " + b + " " + c
  {
    SampleTrimmed(lead, a, r1, b, r2, c, trail);
    SampleCollapsed(a, r1, b, r2, c);
    WordUnchanged(a);
    WordUnchanged(b);
    WordUnchanged(c);
    SpacedAssoc(a, b, c);
  }

  lemma SampleCollapsed(a: string, r1: string, b: string, r2: string, c: string)
    requires Word(a) && Run(r1) && Word(b) && Run(r2) && Word(c)
    ensures Collapsed(Sample(a, r1, b, r2, c)) == Collapsed(a) + " " + (Collapsed(b) + " " + Collapsed(c))
  {
    var rest := b + r2 + c;
    assert Sample(a, r1, b, r2, c) == a + r1 + rest;
    assert a[|a| - 1] in a && b[0] in b && c[0] in c;
    assert rest[0] == b[0];
    CollapsedRun(a, r1, rest);
    CollapsedRun(b, r2, c);
  }

  lemma SpacedAssoc(a: string, b: string, c: string)
    ensures a + " " + (b + " " + c) == a + " " + b + " " + c
  {
  }

  /** `n` underscores. */
  function Underscores(n: nat): string {
    seq(n, _ => '_')
  }

  lemma UnderscoredRun(r: string)
    requires AllSpaces(r)
    ensures Underscored(r) == Underscores(|r|)
  {
    UnderscoredPointwise(r);
  }

  /** `underscore` replaces each inner space by its own `_`: `My__Report_.txt`. */
  lemma UnderscoreExample(lead: string, a: string, r1: string, b: string, r2: string, c: string, trail: string)
    requires Shape(lead, a, r1, b, r2, c, trail)
    ensures Normalized(lead + Sample(a, r1, b, r2, c) + trail, Underscore)
      == a + Underscores(|r1|) + b + Underscores(|r2|) + c
  {
    SampleTrimmed(lead, a, r1, b, r2, c, trail);
    UnderscoredAppend(a + r1 + b + r2, c);
    UnderscoredAppend(a + r1 + b, r2);
    UnderscoredAppend(a + r1, b);
    UnderscoredAppend(a, r1);
    UnderscoredRun(r1);
    UnderscoredRun(r2);
    WordUnchanged(a);
    WordUnchanged(b);
    WordUnchanged(c);
  }

  /** `remove` deletes every inner space: `MyReport.txt`. */
  lemma RemoveExample(lead: string, a: string, r1: string, b: string, r2: string, c: string, trail: string)
    requires Shape(lead, a, r1, b, r2, c, trail)
    ensures Normalized(lead + Sample(a, r1, b, r2, c) + trail, Remove) == a + b + c
  {
    SampleTrimmed(lead, a, r1, b, r2, c, trail);
    SampleRemoved(a, r1, b, r2, c);
  }

  lemma SampleRemoved(a: string, r1: string, b: string, r2: string, c: string)
    requires Word(a) && Run(r1) && Word(b) && Run(r2) && Word(c)
    ensures Removed(Sample(a, r1, b, r2, c)) == a + b + c
  {
    WordUnchanged(a);
    WordUnchanged(b);
    WordUnchanged(c);
    RemovedAllSpaces(r1);
    RemovedAllSpaces(r2);
    RemovedAppend(a, r1);
    assert Removed(a + r1) == a;
    RemovedAppend(a + r1, b);
    assert Removed(a + r1 + b) == a + b;
    RemovedAppend(a + r1 + b, r2);
    assert Removed(a + r1 + b + r2) == a + b;
    RemovedAppend(a + r1 + b + r2, c);
  }

  // ---------------------------------------------------------------------
  // Whole paths
  // ---------------------------------------------------------------------

  /** A word is already in normal form under every style. */
  lemma WordNormalized(w: string, style: Style)
    requires Word(w)
    ensures Normalized(w, style) == w
  {
    assert w[0] in w && w[|w| - 1] in w;
    TrimmedUnchanged(w);
    WordUnchanged(w);
  }

  /**
    A component of spaces only between two words makes the whole path fail
    under every style, naming that component: `dir/   /file.txt` fails
    with `   `.
   */
  lemma EmptyComponentExample(d: string, run: string, f: string, style: Style)
    requires Word(d) && Word(f) && |run| > 0 && AllSpaces(run)
    ensures NormalizedPath(d + "/" + run + "/" + f, style) == Err(run)
  {
    var path := d + "/" + run + "/" + f;
    assert '/' !in run by {
      assert forall i :: 0 <= i < |run| ==> run[i] == ' ';
    }
    ThreeParts(d, run, f);
    var parts := Split(path);
    var ns := NormalizedEach(parts, style);
    NormalizedEachAt(parts, style);
    WordNormalized(d, style);
    NormalizedEmpty(run, style);
    FirstEmptyAt(ns, 1);
  }

  /** `x/y/z` splits into its three components when none holds a `/`. */
  lemma ThreeParts(x: string, y: string, z: string)
    requires '/' !in x && '/' !in y && '/' !in z
    ensures Split(x + "/" + y + "/" + z) == [x, y, z]
  {
    assert x + "/" + y + "/" + z == x + "/" + (y + "/" + z);
    SplitAfterWord(x, y + "/" + z);
    SplitAfterWord(y, z);
    SplitSingle(z);
  }

  /**
    A three-component path none of whose components vanishes is normalised
    component by component: `  dir  /  subdir  /  file .txt  ` becomes
    `dir/subdir/file .txt` under `none` (each component by
    `TrimmedPadded`).
   */
  lemma ThreeComponents(x: string, y: string, z: string, style: Style)
    requires '/' !in x && '/' !in y && '/' !in z
    requires !AllSpaces(x) && !AllSpaces(y) && !AllSpaces(z)
    ensures NormalizedPath(x + "/" + y + "/" + z, style)
         == Ok(Normalized(x, style) + "/" + Normalized(y, style) + "/" + Normalized(z, style))
  {
    ThreeParts(x, y, z);
    var parts := Split(x + "/" + y + "/" + z);
    var ns := NormalizedEach(parts, style);
    NormalizedEachAt(parts, style);
    NormalizedEmpty(x, style);
    NormalizedEmpty(y, style);
    NormalizedEmpty(z, style);
    FirstEmptyAt(ns, 3);
    assert ns == [Normalized(x, style), Normalized(y, style), Normalized(z, style)];
    JoinThree(Normalized(x, style), Normalized(y, style), Normalized(z, style));
  }

  /** `x/y/z` is the join of its three components. */
  lemma JoinThree(x: string, y: string, z: string)
    ensures Join([x, y, z]) == x + "/" + y + "/" + z
  {
    assert [x, y, z][1..] == [y, z];
    JoinTwo(y, z);
    assert x + "/" + (y + "/" + z) == x + "/" + y + "/" + z;
  }

  /** `d/a<run>f` splits into its two components. */
  lemma TwoParts(d: string, a: string, run: string, f: string)
    requires Word(d) && Word(a) && Word(f) && AllSpaces(run)
    ensures Split(d + "/" + (a + run + f)) == [d, a + run + f]
  {
    assert '/' !in run by {
      assert forall i :: 0 <= i < |run| ==> run[i] == ' ';
    }
    SplitAfterWord(d, a + run + f);
    SplitSingle(a + run + f);
  }

  /** `d/x` is the join of its two components. */
  lemma JoinTwo(d: string, x: string)
    ensures Join([d, x]) == d + "/" + x
  {
    assert [d, x][1..] == [x];
  }

  /** The last component `a<run>f` of a path collapses to `a f`. */
  lemma ComponentCollapsed(a: string, run: string, f: string)
    requires Word(a) && Word(f) && |run| > 0 && AllSpaces(run)
    ensures Normalized(a + run + f, Collapse) == a + " " + f
  {
    var file := a + run + f;
    assert file[0] == a[0] && a[0] in a;
    assert file[|file| - 1] == f[|f| - 1] && f[|f| - 1] in f;
    TrimmedUnchanged(file);
    assert a[|a| - 1] in a && f[0] in f;
    CollapsedRun(a, run, f);
    WordUnchanged(a);
    WordUnchanged(f);
  }

  /** `d/a<run>f` normalises under `collapse` to `d/a f`. */
  lemma PathCollapsed(d: string, a: string, run: string, f: string)
    requires Word(d) && Word(a) && Word(f) && |run| > 0 && AllSpaces(run)
    ensures NormalizedPath(d + "/" + (a + run + f), Collapse) == Ok(d + "/" + (a + " " + f))
  {
    var file := a + run + f;
    TwoParts(d, a, run, f);
    var parts := Split(d + "/" + file);
    var ns := NormalizedEach(parts, Collapse);
    NormalizedEachAt(parts, Collapse);
    WordNormalized(d, Collapse);
    ComponentCollapsed(a, run, f);
    assert ns == [d, a + " " + f];
    FirstEmptyAt(ns, 2);
    JoinTwo(d, a + " " + f);
  }

  /**
    Two paths that differ only in the length of one run of spaces collapse
    onto one target: the first claims it and is planned, the second is
    reported as a conflict naming both (`dir/A  file.txt` and
    `dir/A   file.txt` onto `dir/A file.txt`).
   */
  lemma ConflictExample(d: string, a: string, f: string, r1: string, r2: string)
    requires Word(d) && Word(a) && Word(f)
    requires 1 < |r1| && AllSpaces(r1) && 1 < |r2| && AllSpaces(r2) && |r1| != |r2|
    ensures var p1, p2 := d + "/" + (a + r1 + f), d + "/" + (a + r2 + f);
      var target := d + "/" + (a + " " + f);
      var st := Planned([p1, p2], PathNormalizer(Collapse));
      && st.plan == [Entry(p1, target)]
      && st.errors == [Conflict(p1, p2, target)]
  {
    var p1, p2 := d + "/" + (a + r1 + f), d + "/" + (a + r2 + f);
    var target := d + "/" + (a + " " + f);
    PathCollapsed(d, a, r1, f);
    PathCollapsed(d, a, r2, f);
    assert p1 != target && p2 != target && p1 != p2 by {
      assert |p1| != |target| && |p2| != |target| && |p1| != |p2|;
    }
    var norm := PathNormalizer(Collapse);
    assert norm(p1) == Ok(target) && norm(p2) == Ok(target);
    var st1 := Planning([Entry(p1, target)], [], map[target := p1]);
    assert Planned([p1], norm) == st1 by {
      assert [p1][..0] == [];
    }
    assert [p1, p2][..1] == [p1];
    assert Planned([p1, p2], norm) == Step(st1, p2, norm);
  }

  /**
    A path staged twice that needs a rename is not in conflict with itself:
    both copies are planned. After the first move succeeds, the fate of the
    second is whatever `git` answers for it. With `-k`, `git mv` may report
    success, and the rename is then counted twice with status 3; if it
    fails, the fallback finds no source and the run ends with status 1.
   */
  lemma StagedTwice(p: string, t: string, norm: Normalizer, first: MoveEnv, second: MoveEnv)
    requires norm(p) == Ok(t) && p != t
    requires first.vcsMoveOk
    ensures var st := Planned([p, p], norm);
      st.plan == [Entry(p, t), Entry(p, t)] && st.errors == []
    ensures var e := Entry(p, t);
      var o := Executed([e, e], (i: nat) => if i == 0 then first else second);
      && (second.vcsMoveOk ==> o.changed == [e, e] && o.failures == [] && ExitCode(o.failures, o.changed) == 3)
      && (!second.vcsMoveOk && second.raw == NotFound ==>
            o.changed == [e] && o.failures == [MoveFailed(p, t)] && ExitCode(o.failures, o.changed) == 1)
  {
    var e := Entry(p, t);
    assert [p, p][..1] == [p];
    assert [p][..0] == [];
    var st1 := Planning([e], [], map[t := p]);
    assert Planned([p], norm) == st1;
    assert Planned([p, p], norm) == Step(st1, p, norm);
    var env := (i: nat) => if i == 0 then first else second;
    assert [e, e][..1] == [e];
    assert [e][..0] == [];
    assert GitMv(p, t, env(0)).ok;
    var o1 := Outcome([e], []);
    assert Executed([e], env) == o1;
    assert Executed([e, e], env) == Record(o1, e, GitMv(p, t, second).ok);
  }
}
