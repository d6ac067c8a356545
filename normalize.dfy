/**
  The path normaliser: trimming the edge spaces of every `/`-separated
  component of a path and applying one of four internal-space styles.
  Everything here is a total, deterministic string computation; the two
  places where `normalize_component` and `normalize_path` loop (the
  collapse scan and the per-component pass over a path) are methods proved equal to the
  functions that specify them.
 */
module Normalize {

  /** The internal-space policy of one run of the hook. */
  datatype Style = TrimOnly | Collapse | Underscore | Remove

  datatype Result<T, E> = Ok(value: T) | Err(error: E)

  /** True when `s` consists of spaces only (the empty string included). */
  predicate AllSpaces(s: string) {
    forall i :: 0 <= i < |s| ==> s[i] == ' '
  }

  predicate NoEdgeSpaces(s: string) {
    |s| == 0 || (s[0] != ' ' && s[|s| - 1] != ' ')
  }

  predicate NoDoubleSpace(s: string) {
    forall i :: 0 <= i < |s| - 1 ==> s[i] != ' ' || s[i + 1] != ' '
  }

  // ---------------------------------------------------------------------
  // Trimming: `str.strip(" ")`
  // ---------------------------------------------------------------------

  /** Drops the maximal run of leading spaces. */
  function TrimLeft(s: string): (r: string)
    ensures |r| <= |s|
    ensures |r| > 0 ==> r[0] != ' '
  {
    if |s| > 0 && s[0] == ' ' then TrimLeft(s[1..]) else s
  }

  /** `TrimLeft` keeps a suffix and drops spaces only. */
  lemma {:induction false} TrimLeftDropsSpaces(s: string)
    ensures TrimLeft(s) == s[|s| - |TrimLeft(s)|..]
    ensures forall i :: 0 <= i < |s| - |TrimLeft(s)| ==> s[i] == ' '
  {
    if |s| > 0 && s[0] == ' ' {
      TrimLeftDropsSpaces(s[1..]);
    }
  }

  /** Drops the maximal run of trailing spaces. */
  function TrimRight(s: string): (r: string)
    ensures |r| <= |s|
    ensures |r| > 0 ==> r[|r| - 1] != ' ' && r[0] == s[0]
  {
    if |s| > 0 && s[|s| - 1] == ' ' then TrimRight(s[..|s| - 1]) else s
  }

  /** `TrimRight` keeps a prefix and drops spaces only. */
  lemma {:induction false} TrimRightDropsSpaces(s: string)
    ensures TrimRight(s) == s[..|TrimRight(s)|]
    ensures forall i :: |TrimRight(s)| <= i < |s| ==> s[i] == ' '
  {
    if |s| > 0 && s[|s| - 1] == ' ' {
      TrimRightDropsSpaces(s[..|s| - 1]);
    }
  }

  /** `s.strip(" ")`: only the ASCII space is stripped, never tabs. */
  function Trimmed(s: string): (r: string)
    ensures NoEdgeSpaces(r)
  {
    TrimRight(TrimLeft(s))
  }

  /** Trimming leaves nothing exactly when the string holds only spaces. */
  lemma {:induction false} TrimmedEmpty(s: string)
    ensures Trimmed(s) == "" <==> AllSpaces(s)
  {
    var l := TrimLeft(s);
    var r := TrimRight(l);
    TrimLeftDropsSpaces(s);
    TrimRightDropsSpaces(l);
    if r == "" {
      assert l == "";
    }
  }

  /** Trimming deletes spaces only: the other characters stay, in order. */
  lemma {:induction false} TrimmedKeepsNonSpaces(s: string)
    ensures Removed(Trimmed(s)) == Removed(s)
  {
    TrimRightKeepsNonSpaces(TrimLeft(s));
    TrimLeftKeepsNonSpaces(s);
  }

  lemma {:induction false} TrimLeftKeepsNonSpaces(s: string)
    ensures Removed(TrimLeft(s)) == Removed(s)
  {
    if |s| > 0 && s[0] == ' ' {
      TrimLeftKeepsNonSpaces(s[1..]);
      assert s == [' '] + s[1..];
      RemovedAppend([' '], s[1..]);
      RemovedSnoc([], ' ');
    }
  }

  lemma {:induction false} TrimRightKeepsNonSpaces(s: string)
    ensures Removed(TrimRight(s)) == Removed(s)
  {
    if |s| > 0 && s[|s| - 1] == ' ' {
      TrimRightKeepsNonSpaces(s[..|s| - 1]);
    }
  }

  lemma {:induction false} TrimmedUnchanged(s: string)
    requires NoEdgeSpaces(s)
    ensures Trimmed(s) == s
  {
    assert TrimLeft(s) == s;
    assert TrimRight(s) == s;
  }

  lemma {:induction false} TrimLeftPadded(l: string, t: string)
    requires AllSpaces(l) && (|t| == 0 || t[0] != ' ')
    ensures TrimLeft(l + t) == t
  {
    if |l| == 0 {
      assert l + t == t;
    } else {
      assert (l + t)[0] == ' ';
      assert (l + t)[1..] == l[1..] + t;
      TrimLeftPadded(l[1..], t);
    }
  }

  lemma {:induction false} TrimRightPadded(t: string, r: string)
    requires AllSpaces(r) && (|t| == 0 || t[|t| - 1] != ' ')
    ensures TrimRight(t + r) == t
  {
    if |r| == 0 {
      assert t + r == t;
    } else {
      var s := t + r;
      assert s[|s| - 1] == ' ';
      assert s[..|s| - 1] == t + r[..|r| - 1];
      TrimRightPadded(t, r[..|r| - 1]);
    }
  }

  /** Trimming removes exactly the padding of spaces around a text with no edge spaces. */
  lemma TrimmedPadded(l: string, core: string, r: string)
    requires AllSpaces(l) && AllSpaces(r) && |core| > 0 && NoEdgeSpaces(core)
    ensures Trimmed(l + core + r) == core
  {
    assert l + core + r == l + (core + r);
    assert (core + r)[0] == core[0];
    TrimLeftPadded(l, core + r);
    TrimRightPadded(core, r);
  }

  // ---------------------------------------------------------------------
  // Removing spaces: `s.replace(" ", "")`
  // ---------------------------------------------------------------------

  /** The characters of `s` other than the space, in their original order. */
  function Removed(s: string): (r: string)
    ensures |r| <= |s|
  {
    if |s| == 0 then ""
    else
      var init := Removed(s[..|s| - 1]);
      var c := s[|s| - 1];
      if c == ' ' then init else init + [c]
  }

  /** No space is left. */
  lemma {:induction false} RemovedNoSpace(s: string)
    ensures ' ' !in Removed(s)
  {
    if |s| > 0 {
      RemovedNoSpace(s[..|s| - 1]);
    }
  }

  lemma RemovedSnoc(a: string, c: char)
    ensures Removed(a + [c]) == if c == ' ' then Removed(a) else Removed(a) + [c]
  {
    assert (a + [c])[..|a|] == a;
  }

  lemma {:induction false} RemovedAppend(a: string, b: string)
    ensures Removed(a + b) == Removed(a) + Removed(b)
    decreases |b|
  {
    if |b| == 0 {
      assert a + b == a;
    } else {
      var b' := b[..|b| - 1];
      assert (a + b)[..|a + b| - 1] == a + b';
      RemovedAppend(a, b');
    }
  }

  lemma {:induction false} RemovedAllSpaces(s: string)
    requires AllSpaces(s)
    ensures Removed(s) == ""
  {
    if |s| > 0 {
      RemovedAllSpaces(s[..|s| - 1]);
    }
  }

  lemma {:induction false} RemovedUnchanged(s: string)
    requires ' ' !in s
    ensures Removed(s) == s
  {
    if |s| > 0 {
      assert s == s[..|s| - 1] + [s[|s| - 1]];
      RemovedUnchanged(s[..|s| - 1]);
    }
  }

  /** A non-space character occurs in `Removed(s)` exactly when it occurs in `s`. */
  lemma {:induction false} RemovedKeeps(s: string, ch: char)
    requires ch != ' '
    ensures ch in Removed(s) <==> ch in s
  {
    if |s| > 0 {
      var init := s[..|s| - 1];
      RemovedKeeps(init, ch);
      assert s == init + [s[|s| - 1]];
    }
  }

  // ---------------------------------------------------------------------
  // Replacing spaces: `s.replace(" ", "_")`
  // ---------------------------------------------------------------------

  /** Every space of `s` replaced, one for one, by an underscore. */
  function Underscored(s: string): (r: string)
    ensures |r| == |s|
  {
    if |s| == 0 then ""
    else
      var c := s[|s| - 1];
      Underscored(s[..|s| - 1]) + [if c == ' ' then '_' else c]
  }

  /** Position by position, a space becomes `_` and every other character stays. */
  lemma {:induction false} UnderscoredPointwise(s: string)
    ensures forall i :: 0 <= i < |s| ==>
      Underscored(s)[i] == if s[i] == ' ' then '_' else s[i]
  {
    if |s| > 0 {
      UnderscoredPointwise(s[..|s| - 1]);
    }
  }

  /** Replacing spaces distributes over concatenation. */
  lemma {:induction false} UnderscoredAppend(a: string, b: string)
    ensures Underscored(a + b) == Underscored(a) + Underscored(b)
    decreases |b|
  {
    if |b| == 0 {
      assert a + b == a;
    } else {
      var init := b[..|b| - 1];
      assert (a + b)[..|a + b| - 1] == a + init;
      UnderscoredAppend(a, init);
    }
  }

  /** No space is left. */
  lemma UnderscoredNoSpace(s: string)
    ensures ' ' !in Underscored(s)
  {
    UnderscoredPointwise(s);
  }

  lemma UnderscoredUnchanged(s: string)
    requires ' ' !in s
    ensures Underscored(s) == s
  {
    UnderscoredPointwise(s);
  }

  // ---------------------------------------------------------------------
  // Collapsing runs of spaces
  // ---------------------------------------------------------------------

  /**
    The result of the collapse scan over `s`: a space is emitted only when
    the character before it was not a space, every other character is
    emitted as it is.
   */
  function Collapsed(s: string): (r: string)
    ensures |r| <= |s|
  {
    if |s| == 0 then ""
    else
      var init := Collapsed(s[..|s| - 1]);
      var c := s[|s| - 1];
      if c == ' ' && |s| >= 2 && s[|s| - 2] == ' ' then init
      else init + [c]
  }

  /** The collapse keeps the first and the last character of a non-empty string. */
  lemma {:induction false} CollapsedEdges(s: string)
    requires |s| > 0
    ensures |Collapsed(s)| > 0
    ensures Collapsed(s)[0] == s[0] && Collapsed(s)[|Collapsed(s)| - 1] == s[|s| - 1]
  {
    if |s| > 1 {
      CollapsedEdges(s[..|s| - 1]);
    }
  }

  /** After the collapse no two spaces are adjacent. */
  lemma {:induction false} CollapsedNoDoubleSpace(s: string)
    ensures NoDoubleSpace(Collapsed(s))
  {
    if |s| > 0 {
      CollapsedNoDoubleSpace(s[..|s| - 1]);
    }
  }

  /** Collapsing keeps every non-space character, in order. */
  lemma {:induction false} CollapsedKeepsNonSpaces(s: string)
    ensures Removed(Collapsed(s)) == Removed(s)
  {
    if |s| > 0 {
      var init, c := s[..|s| - 1], s[|s| - 1];
      CollapsedKeepsNonSpaces(init);
      assert s == init + [c];
      RemovedSnoc(init, c);
      if c == ' ' && |init| > 0 && init[|init| - 1] == ' ' {
        CollapsedSnocDrop(init);
      } else {
        CollapsedSnocKeep(init, c);
        RemovedSnoc(Collapsed(init), c);
      }
    }
  }

  /** A string without two adjacent spaces is left alone by the collapse scan. */
  lemma {:induction false} CollapsedUnchanged(s: string)
    requires NoDoubleSpace(s)
    ensures Collapsed(s) == s
  {
    if |s| > 0 {
      var init := s[..|s| - 1];
      assert NoDoubleSpace(init) by {
        forall i | 0 <= i < |init| - 1 ensures init[i] != ' ' || init[i + 1] != ' ' {
          assert init[i] == s[i] && init[i + 1] == s[i + 1];
        }
      }
      CollapsedUnchanged(init);
      var c := s[|s| - 1];
      assert s == init + [c];
      if |init| > 0 {
        assert init[|init| - 1] == s[|s| - 2];
      }
      CollapsedSnocKeep(init, c);
    }
  }

  /** A character that does not follow a space is appended by the collapse scan. */
  lemma CollapsedSnocKeep(x: string, c: char)
    requires c != ' ' || |x| == 0 || x[|x| - 1] != ' '
    ensures Collapsed(x + [c]) == Collapsed(x) + [c]
  {
    var s := x + [c];
    assert s[..|s| - 1] == x;
    assert !(s[|s| - 1] == ' ' && |s| >= 2 && s[|s| - 2] == ' ') by {
      if |x| > 0 {
        assert s[|s| - 2] == x[|x| - 1];
      }
    }
  }

  /** A space that follows a space is dropped by the collapse scan. */
  lemma CollapsedSnocDrop(x: string)
    requires |x| > 0 && x[|x| - 1] == ' '
    ensures Collapsed(x + [' ']) == Collapsed(x)
  {
    var s := x + [' '];
    assert s[..|s| - 1] == x && s[|s| - 1] == ' ';
    assert s[|s| - 2] == x[|x| - 1];
  }

  /** Collapsing distributes over a concatenation that does not join two spaces. */
  lemma {:induction false} CollapsedAppend(a: string, b: string)
    requires |a| == 0 || |b| == 0 || a[|a| - 1] != ' ' || b[0] != ' '
    ensures Collapsed(a + b) == Collapsed(a) + Collapsed(b)
    decreases |b|
  {
    if |b| == 0 {
      assert a + b == a;
    } else {
      var init, c := b[..|b| - 1], b[|b| - 1];
      assert b == init + [c];
      assert a + b == (a + init) + [c];
      CollapsedAppend(a, init);
      CollapsedAppendStep(a, init, c);
    }
  }

  lemma SnocAssoc(p: string, q: string, c: char)
    ensures (p + q) + [c] == p + (q + [c])
  {
  }

  /** One step of `CollapsedAppend`: extending the right operand by one character. */
  lemma CollapsedAppendStep(a: string, init: string, c: char)
    requires |a| == 0 || |init| > 0 || a[|a| - 1] != ' ' || c != ' '
    requires Collapsed(a + init) == Collapsed(a) + Collapsed(init)
    ensures Collapsed((a + init) + [c]) == Collapsed(a) + Collapsed(init + [c])
  {
    var x := a + init;
    SnocAssoc(Collapsed(a), Collapsed(init), c);
    if |init| > 0 {
      assert x[|x| - 1] == init[|init| - 1];
    }
    if c == ' ' && |init| > 0 && init[|init| - 1] == ' ' {
      CollapsedSnocDrop(x);
      CollapsedSnocDrop(init);
    } else {
      CollapsedSnocKeep(x, c);
      CollapsedSnocKeep(init, c);
    }
  }

  /** A non-empty run of spaces collapses to a single space. */
  lemma {:induction false} CollapsedSpaces(s: string)
    requires |s| > 0 && AllSpaces(s)
    ensures Collapsed(s) == " "
  {
    if |s| > 1 {
      CollapsedSpaces(s[..|s| - 1]);
    }
  }

  /**
    Between two words, however long a run of spaces is, the collapse
    leaves exactly one space there.
   */
  lemma CollapsedRun(a: string, run: string, b: string)
    requires |a| == 0 || a[|a| - 1] != ' '
    requires |run| > 0 && AllSpaces(run)
    requires |b| == 0 || b[0] != ' '
    ensures Collapsed(a + run + b) == Collapsed(a) + " " + Collapsed(b)
  {
    CollapsedAppend(a, run);
    CollapsedAppend(a + run, b);
    CollapsedSpaces(run);
  }

  /** The `collapse` branch of `normalize_component`: a scan with a `prev_space` flag. */
  method CollapseSpaces(s: string) returns (r: string)
    ensures r == Collapsed(s)
  {
    var out: string := [];
    var prevSpace := false;
    for i := 0 to |s|
      invariant out == Collapsed(s[..i])
      invariant prevSpace == (i > 0 && s[i - 1] == ' ')
    {
      assert s[..i + 1][..i] == s[..i];
      if s[i] == ' ' {
        if !prevSpace {
          out := out + [' '];
        }
        prevSpace := true;
      } else {
        out := out + [s[i]];
        prevSpace := false;
      }
    }
    assert s[..|s|] == s;
    r := out;
  }

  // ---------------------------------------------------------------------
  // One component
  // ---------------------------------------------------------------------

  /**
    `normalize_component`: trim the edge spaces, then apply the style to
    the spaces that are left inside. The result never starts or ends with
    a space.
   */
  function Normalized(comp: string, style: Style): (r: string)
    ensures |r| <= |comp|
  {
    var s := Trimmed(comp);
    match style
    case TrimOnly => s
    case Collapse => Collapsed(s)
    case Underscore => Underscored(s)
    case Remove => Removed(s)
  }

  /**
    A component becomes empty exactly when it holds nothing but spaces,
    whatever the style.
   */
  lemma NormalizedEmpty(comp: string, style: Style)
    ensures Normalized(comp, style) == "" <==> AllSpaces(comp)
  {
    var s := Trimmed(comp);
    TrimmedEmpty(comp);
    if style == Remove && |s| > 0 {
      RemovedKeeps(s, s[0]);
    }
  }

  /** The result never starts or ends with a space. */
  lemma NormalizedNoEdgeSpaces(comp: string, style: Style)
    ensures NoEdgeSpaces(Normalized(comp, style))
  {
    var s := Trimmed(comp);
    match style
    case TrimOnly =>
    case Collapse =>
      if |s| > 0 {
        CollapsedEdges(s);
      }
    case Underscore =>
      UnderscoredPointwise(s);
    case Remove =>
      RemovedNoSpace(s);
      if |Removed(s)| > 0 {
        assert Removed(s)[0] in Removed(s);
      }
  }

  /** `normalize_component`: trim, then the chosen style, with the `collapse` scan as a loop. */
  method NormalizeComponent(comp: string, style: Style) returns (r: string)
    ensures r == Normalized(comp, style)
  {
    var s := Trimmed(comp);
    match style {
      case TrimOnly => r := s;
      case Collapse => r := CollapseSpaces(s);
      case Underscore => r := Underscored(s);
      case Remove => r := Removed(s);
    }
  }

  /** Normalising a normalised component changes nothing. */
  lemma NormalizedIdempotent(comp: string, style: Style)
    ensures Normalized(Normalized(comp, style), style) == Normalized(comp, style)
  {
    var r := Normalized(comp, style);
    NormalizedNoEdgeSpaces(comp, style);
    TrimmedUnchanged(r);
    match style
    case TrimOnly =>
    case Collapse =>
      CollapsedNoDoubleSpace(Trimmed(comp));
      CollapsedUnchanged(r);
    case Underscore =>
      UnderscoredNoSpace(Trimmed(comp));
      UnderscoredUnchanged(r);
    case Remove =>
      RemovedNoSpace(Trimmed(comp));
      RemovedUnchanged(r);
  }

  /**
    Normalisation adds and drops only spaces and underscores: any other
    character (in particular `/`) occurs in the result exactly when it
    occurs in the component.
   */
  lemma NormalizedKeepsOtherChars(comp: string, style: Style, ch: char)
    requires ch != ' ' && ch != '_'
    ensures ch in Normalized(comp, style) <==> ch in comp
  {
    var s := Trimmed(comp);
    TrimmedKeepsNonSpaces(comp);
    RemovedKeeps(s, ch);
    RemovedKeeps(comp, ch);
    match style
    case TrimOnly =>
    case Collapse =>
      CollapsedKeepsNonSpaces(s);
      RemovedKeeps(Collapsed(s), ch);
    case Underscore =>
      var u := Underscored(s);
      UnderscoredPointwise(s);
      if ch in u {
        var i :| 0 <= i < |u| && u[i] == ch;
        assert s[i] == ch;
      }
      if ch in s {
        var i :| 0 <= i < |s| && s[i] == ch;
        assert u[i] == ch;
      }
    case Remove =>
  }

  // ---------------------------------------------------------------------
  // Splitting and joining on `/`
  // ---------------------------------------------------------------------

  /** `str.split("/")`: purely syntactic, empty segments are kept. */
  function Split(s: string): (parts: seq<string>)
    ensures |parts| >= 1
    ensures forall i :: 0 <= i < |parts| ==> '/' !in parts[i]
  {
    if |s| == 0 then [""]
    else
      var rest := Split(s[1..]);
      if s[0] == '/' then [""] + rest
      else [[s[0]] + rest[0]] + rest[1..]
  }

  /** `"/".join(parts)`. */
  function Join(parts: seq<string>): string {
    if |parts| == 0 then ""
    else if |parts| == 1 then parts[0]
    else parts[0] + "/" + Join(parts[1..])
  }

  /** Joining the parts of a split gives the original string back. */
  lemma {:induction false} JoinSplit(s: string)
    ensures Join(Split(s)) == s
  {
    if |s| > 0 {
      var rest := Split(s[1..]);
      JoinSplit(s[1..]);
      if s[0] == '/' {
        assert s == "/" + s[1..];
        assert Split(s) == [""] + rest;
      } else {
        var parts := [[s[0]] + rest[0]] + rest[1..];
        assert parts[1..] == rest[1..];
        assert s == [s[0]] + s[1..];
      }
    }
  }

  lemma {:induction false} SplitSingle(w: string)
    requires '/' !in w
    ensures Split(w) == [w]
  {
    if |w| > 0 {
      SplitSingle(w[1..]);
      assert [w[0]] + w[1..] == w;
    }
  }

  lemma {:induction false} SplitAfterWord(w: string, rest: string)
    requires '/' !in w
    ensures Split(w + "/" + rest) == [w] + Split(rest)
  {
    if |w| == 0 {
      assert (w + "/" + rest)[1..] == rest;
    } else {
      assert (w + "/" + rest)[1..] == w[1..] + "/" + rest;
      SplitAfterWord(w[1..], rest);
      assert [w[0]] + w[1..] == w;
    }
  }

  /** Splitting a join of slash-free parts gives the parts back. */
  lemma {:induction false} SplitJoin(parts: seq<string>)
    requires |parts| >= 1
    requires forall i :: 0 <= i < |parts| ==> '/' !in parts[i]
    ensures Split(Join(parts)) == parts
  {
    if |parts| == 1 {
      SplitSingle(parts[0]);
    } else {
      SplitJoin(parts[1..]);
      SplitAfterWord(parts[0], Join(parts[1..]));
      assert [parts[0]] + parts[1..] == parts;
    }
  }

  // ---------------------------------------------------------------------
  // A whole path
  // ---------------------------------------------------------------------

  /** `normalize_component` with a fixed style, as a function value. */
  function ComponentNormalizer(style: Style): string -> string {
    c => Normalized(c, style)
  }

  /** `f` applied to every component, in order. */
  function EachBy(parts: seq<string>, f: string -> string): (r: seq<string>)
    ensures |r| == |parts|
  {
    if |parts| == 0 then []
    else EachBy(parts[..|parts| - 1], f) + [f(parts[|parts| - 1])]
  }

  lemma {:induction false} EachByAt(parts: seq<string>, f: string -> string)
    ensures forall i :: 0 <= i < |parts| ==> EachBy(parts, f)[i] == f(parts[i])
  {
    if |parts| > 0 {
      EachByAt(parts[..|parts| - 1], f);
    }
  }

  /** Every component normalised, in order. */
  function NormalizedEach(parts: seq<string>, style: Style): (r: seq<string>)
    ensures |r| == |parts|
  {
    EachBy(parts, ComponentNormalizer(style))
  }

  /** The `i`-th entry of `NormalizedEach` is the `i`-th component normalised. */
  lemma NormalizedEachAt(parts: seq<string>, style: Style)
    ensures forall i :: 0 <= i < |parts| ==> NormalizedEach(parts, style)[i] == Normalized(parts[i], style)
  {
    EachByAt(parts, ComponentNormalizer(style));
  }

  /** The position of the first empty string in `ns`, or `|ns|` when there is none. */
  function FirstEmpty(ns: seq<string>): (k: nat)
    ensures k <= |ns|
    ensures forall j :: 0 <= j < k ==> ns[j] != ""
    ensures k < |ns| ==> ns[k] == ""
  {
    if |ns| == 0 then 0
    else if ns[0] == "" then 0
    else 1 + FirstEmpty(ns[1..])
  }

  /** The first empty string is the one at `i` when all before it are non-empty. */
  lemma {:induction false} FirstEmptyAt(ns: seq<string>, i: nat)
    requires i <= |ns|
    requires i < |ns| ==> ns[i] == ""
    requires forall j :: 0 <= j < i ==> ns[j] != ""
    ensures FirstEmpty(ns) == i
  {
    if 0 < i {
      FirstEmptyAt(ns[1..], i - 1);
    }
  }

  /**
    The loop of `normalize_path` over the components, with its early return,
    for any component normaliser `f`: it stops at the first component that
    `f` empties and reports it, and otherwise yields every component mapped.
   */
  method NormalizeComponentsBy(parts: seq<string>, f: string -> string) returns (r: Result<seq<string>, string>)
    ensures var ns := EachBy(parts, f); var k := FirstEmpty(ns);
      r == if k < |parts| then Err(parts[k]) else Ok(ns)
  {
    ghost var ns := EachBy(parts, f);
    EachByAt(parts, f);
    var normParts: seq<string> := [];
    var i := 0;
    while i < |parts|
      invariant 0 <= i <= |parts|
      invariant normParts == ns[..i]
      invariant forall j :: 0 <= j < i ==> ns[j] != ""
    {
      var nc := f(parts[i]);
      if nc == "" {
        FirstEmptyAt(ns, i);
        return Err(parts[i]);
      }
      assert ns[..i + 1] == normParts + [nc];
      normParts := normParts + [nc];
      i := i + 1;
    }
    assert ns[..i] == ns;
    FirstEmptyAt(ns, i);
    return Ok(normParts);
  }

  /** The component loop of `normalize_path` with the style's `normalize_component`. */
  method NormalizeComponents(parts: seq<string>, style: Style) returns (r: Result<seq<string>, string>)
    ensures var ns := NormalizedEach(parts, style); var k := FirstEmpty(ns);
      r == if k < |parts| then Err(parts[k]) else Ok(ns)
  {
    r := NormalizeComponentsBy(parts, ComponentNormalizer(style));
  }

  /**
    `normalize_path`: `Err(c)` names the first original component `c` that
    would become empty; otherwise the normalised components rejoined.
   */
  function NormalizedPath(path: string, style: Style): (r: Result<string, string>)
    ensures r.Err? ==> r.error in Split(path)
  {
    var parts := Split(path);
    var ns := NormalizedEach(parts, style);
    var k := FirstEmpty(ns);
    if k < |parts| then Err(parts[k]) else Ok(Join(ns))
  }

  /**
    When `normalize_path` fails, it names the first component that would
    vanish.
   */
  lemma NormalizedPathFails(path: string, style: Style)
    requires NormalizedPath(path, style).Err?
    ensures exists k :: (0 <= k < |Split(path)| && NormalizedPath(path, style).error == Split(path)[k]
      && Normalized(Split(path)[k], style) == ""
      && forall j :: 0 <= j < k ==> Normalized(Split(path)[j], style) != "")
  {
    var parts := Split(path);
    var ns := NormalizedEach(parts, style);
    var k := FirstEmpty(ns);
    NormalizedEachAt(parts, style);
    assert ns[k] == "" && NormalizedPath(path, style).error == parts[k];
    assert forall j :: 0 <= j < k ==> Normalized(parts[j], style) != "";
  }

  /**
    When `normalize_path` succeeds, every component survived, and splitting
    its result gives the normalised components back, one for each original.
   */
  lemma NormalizedPathSucceeds(path: string, style: Style)
    requires NormalizedPath(path, style).Ok?
    ensures var parts := Split(path); var q := NormalizedPath(path, style).value;
      && (forall i :: 0 <= i < |parts| ==> Normalized(parts[i], style) != "")
      && |Split(q)| == |parts|
      && (forall i :: 0 <= i < |parts| ==> Split(q)[i] == Normalized(parts[i], style))
  {
    var parts := Split(path);
    var ns := NormalizedEach(parts, style);
    assert FirstEmpty(ns) == |ns|;
    assert NormalizedPath(path, style).value == Join(ns);
    SplitNormalizedEach(parts, style);
    NormalizedEachAt(parts, style);
  }

  /** Conversely, a path none of whose components would vanish is normalised without error. */
  lemma NormalizedPathSurvives(path: string, style: Style)
    requires forall i :: 0 <= i < |Split(path)| ==> Normalized(Split(path)[i], style) != ""
    ensures NormalizedPath(path, style).Ok?
  {
    var parts := Split(path);
    var ns := NormalizedEach(parts, style);
    NormalizedEachAt(parts, style);
    FirstEmptyAt(ns, |ns|);
  }

  /** Normalised components hold no `/`, so joining them and splitting again gives them back. */
  lemma SplitNormalizedEach(parts: seq<string>, style: Style)
    requires |parts| >= 1
    requires forall i :: 0 <= i < |parts| ==> '/' !in parts[i]
    ensures Split(Join(NormalizedEach(parts, style))) == NormalizedEach(parts, style)
  {
    var ns := NormalizedEach(parts, style);
    NormalizedEachAt(parts, style);
    forall i | 0 <= i < |ns| ensures '/' !in ns[i] {
      NormalizedKeepsOtherChars(parts[i], style, '/');
    }
    SplitJoin(ns);
  }

  /** `normalize_path`: split on `/`, normalise each component with an early return, rejoin. */
  method NormalizePath(path: string, style: Style) returns (r: Result<string, string>)
    ensures r == NormalizedPath(path, style)
  {
    var parts := Split(path);
    var norm := NormalizeComponents(parts, style);
    match norm {
      case Err(c) => r := Err(c);
      case Ok(ns) => r := Ok(Join(ns));
    }
  }

  /** Normalising a normalised path gives it back unchanged. */
  lemma NormalizedPathIdempotent(path: string, style: Style)
    requires NormalizedPath(path, style).Ok?
    ensures NormalizedPath(NormalizedPath(path, style).value, style)
         == NormalizedPath(path, style)
  {
    var parts := Split(path);
    var ns := NormalizedEach(parts, style);
    NormalizedEachAt(parts, style);
    SplitNormalizedEach(parts, style);
    NormalizedEachAt(ns, style);
    forall i | 0 <= i < |ns| ensures NormalizedEach(ns, style)[i] == ns[i] {
      NormalizedIdempotent(parts[i], style);
    }
    assert NormalizedEach(ns, style) == ns;
  }

  /** Every component of a normalised path is non-empty and has no edge spaces. */
  lemma NormalizedPathTrimmed(path: string, style: Style)
    requires NormalizedPath(path, style).Ok?
    ensures var ps := Split(NormalizedPath(path, style).value);
      forall i :: 0 <= i < |ps| ==> ps[i] != "" && NoEdgeSpaces(ps[i])
  {
    NormalizedPathSucceeds(path, style);
    var parts := Split(path);
    forall i | 0 <= i < |parts| ensures NoEdgeSpaces(Normalized(parts[i], style)) {
      NormalizedNoEdgeSpaces(parts[i], style);
    }
  }
}
