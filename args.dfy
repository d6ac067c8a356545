/**
  The command line of the hook: `--internal-style=<name>` options and the
  staged file paths, in the order pre-commit passes them. Invalid style
  names stop the run with exit status 2.
 */
module Args {
  import opened Normalize

  /** The only option the hook understands. */
  const StyleOption: string := "--internal-style="

  /** The four names an `--internal-style=` value may take. */
  predicate IsStyleName(name: string) {
    name == "none" || name == "collapse" || name == "underscore" || name == "remove"
  }

  /** The name that selects each style on the command line. */
  function StyleName(style: Style): (name: string)
    ensures IsStyleName(name)
  {
    match style
    case TrimOnly => "none"
    case Collapse => "collapse"
    case Underscore => "underscore"
    case Remove => "remove"
  }

  /**
    The style `normalize_component` applies for a style name: the four
    known names select their style, any other name falls back to trimming
    only.
   */
  function StyleNamed(name: string): Style {
    if name == "collapse" then Collapse
    else if name == "underscore" then Underscore
    else if name == "remove" then Remove
    else TrimOnly
  }

  /** Names and styles correspond one to one; an unknown name means trimming only. */
  lemma StyleNameRoundTrip(style: Style, name: string)
    ensures StyleNamed(StyleName(style)) == style
    ensures IsStyleName(name) ==> StyleName(StyleNamed(name)) == name
    ensures !IsStyleName(name) ==> StyleNamed(name) == TrimOnly
  {
  }

  predicate StartsWith(a: string, prefix: string) {
    |prefix| <= |a| && a[..|prefix|] == prefix
  }

  /** An argument that sets the style. */
  predicate IsOption(a: string) {
    StartsWith(a, StyleOption)
  }

  /** `a.split(sep, 1)[1]`: what follows the first `sep`. */
  function AfterFirst(a: string, sep: char): (r: string)
    requires sep in a
    ensures |r| < |a| && r == a[|a| - |r|..] && a[|a| - |r| - 1] == sep
    ensures forall i :: 0 <= i < |a| - |r| - 1 ==> a[i] != sep
  {
    if a[0] == sep then a[1..] else AfterFirst(a[1..], sep)
  }

  /** The value of a style option: everything after its first `=`. */
  function OptionValue(a: string): string
    requires IsOption(a)
  {
    assert a[|StyleOption| - 1] == '=';
    AfterFirst(a, '=')
  }

  /** Since the option name holds no `=` before its last character, the value is what follows the option name. */
  lemma OptionValueIsSuffix(a: string)
    requires IsOption(a)
    ensures OptionValue(a) == a[|StyleOption|..]
  {
    var r := OptionValue(a);
    var k := |a| - |r| - 1;
    assert forall i :: 0 <= i < |StyleOption| - 1 ==> a[i] == StyleOption[i] != '=';
    assert a[|StyleOption| - 1] == '=';
    assert k == |StyleOption| - 1;
  }

  /** The outcome of `parse_args`: a style and the files, or the invalid style value it stopped at. */
  datatype Parsed = Config(style: Style, files: seq<string>) | BadStyle(value: string)

  /**
    `parse_args` over `argv[1:]`, argument by argument: an option replaces
    the style (or stops everything when its value is not a style name),
    any other argument is a file.
   */
  function ParsedArgs(args: seq<string>): (r: Parsed)
    ensures r.Config? ==> |r.files| <= |args|
    ensures r.BadStyle? ==> !IsStyleName(r.value)
  {
    if |args| == 0 then Config(TrimOnly, [])
    else
      match ParsedArgs(args[..|args| - 1])
      case BadStyle(v) => BadStyle(v)
      case Config(style, files) =>
        var a := args[|args| - 1];
        if IsOption(a) then
          var v := OptionValue(a);
          if IsStyleName(v) then Config(StyleNamed(v), files) else BadStyle(v)
        else Config(style, files + [a])
  }

  /** `argv[1:]`, which is empty for an empty `argv`. */
  function Tail(argv: seq<string>): (r: seq<string>)
    ensures |argv| > 0 ==> r == argv[1..]
    ensures |argv| == 0 ==> r == []
  {
    if |argv| == 0 then [] else argv[1..]
  }

  /** `parse_args`: one pass over `argv[1:]`, stopping at the first invalid style. */
  method ParseArgs(argv: seq<string>) returns (r: Parsed)
    ensures r == ParsedArgs(Tail(argv))
  {
    var args := Tail(argv);
    var style := TrimOnly;
    var files: seq<string> := [];
    var i := 0;
    while i < |args|
      invariant 0 <= i <= |args|
      invariant ParsedArgs(args[..i]) == Config(style, files)
    {
      var a := args[i];
      assert args[..i + 1][..i] == args[..i];
      if IsOption(a) {
        var v := OptionValue(a);
        if !IsStyleName(v) {
          BadStyleSticks(args, i + 1);
          return BadStyle(v);
        }
        style := StyleNamed(v);
      } else {
        files := files + [a];
      }
      i := i + 1;
    }
    assert args[..i] == args;
    return Config(style, files);
  }

  /** Once a prefix has hit an invalid style, the rest of the arguments change nothing. */
  lemma {:induction false} BadStyleSticks(args: seq<string>, k: nat)
    requires k <= |args| && ParsedArgs(args[..k]).BadStyle?
    ensures ParsedArgs(args) == ParsedArgs(args[..k])
    decreases |args| - k
  {
    if k < |args| {
      assert args[..k + 1][..k] == args[..k];
      BadStyleSticks(args, k + 1);
    } else {
      assert args[..k] == args;
    }
  }

  // ---------------------------------------------------------------------
  // What the parse means
  // ---------------------------------------------------------------------

  /** The arguments that are not style options, in their original order. */
  function NonOptions(args: seq<string>): (r: seq<string>)
    ensures |r| <= |args|
    ensures forall i :: 0 <= i < |r| ==> r[i] in args && !IsOption(r[i])
  {
    if |args| == 0 then []
    else (if IsOption(args[0]) then [] else [args[0]]) + NonOptions(args[1..])
  }

  lemma {:induction false} NonOptionsSnoc(args: seq<string>, a: string)
    ensures NonOptions(args + [a]) == NonOptions(args) + (if IsOption(a) then [] else [a])
  {
    if |args| == 0 {
      assert args + [a] == [a];
    } else {
      assert (args + [a])[1..] == args[1..] + [a];
      NonOptionsSnoc(args[1..], a);
    }
  }

  /** Every style option of `args` names a valid style. */
  predicate AllOptionsValid(args: seq<string>) {
    forall i :: 0 <= i < |args| && IsOption(args[i]) ==> IsStyleName(OptionValue(args[i]))
  }

  /**
    When the parse succeeds, the files are exactly the non-option
    arguments in order and every option named a valid style; the parse
    fails exactly when some option does not, and then reports the first
    such value.
   */
  lemma {:induction false} ParsedArgsMeaning(args: seq<string>)
    ensures ParsedArgs(args).Config? <==> AllOptionsValid(args)
    ensures ParsedArgs(args).Config? ==> ParsedArgs(args).files == NonOptions(args)
    ensures ParsedArgs(args).BadStyle? ==>
      exists i :: (0 <= i < |args| && IsOption(args[i])
        && ParsedArgs(args).value == OptionValue(args[i])
        && !IsStyleName(OptionValue(args[i]))
        && AllOptionsValid(args[..i]))
  {
    if |args| > 0 {
      var n := |args| - 1;
      var init := args[..n];
      var a := args[n];
      ParsedArgsMeaning(init);
      assert args == init + [a];
      NonOptionsSnoc(init, a);
      assert forall j :: 0 <= j < n ==> args[j] == init[j];
      match ParsedArgs(init)
      case BadStyle(v) =>
        var i :| 0 <= i < |init| && IsOption(init[i])
          && v == OptionValue(init[i]) && !IsStyleName(OptionValue(init[i]))
          && AllOptionsValid(init[..i]);
        assert init[..i] == args[..i];
        assert !AllOptionsValid(args) by {
          assert IsOption(args[i]) && !IsStyleName(OptionValue(args[i]));
        }
      case Config(_, _) =>
        if IsOption(a) && !IsStyleName(OptionValue(a)) {
          assert args[..n] == init;
        }
    }
  }

  /** The position of the last style option in `args`, or -1 when there is none. */
  function LastOption(args: seq<string>): (k: int)
    ensures -1 <= k < |args|
    ensures k >= 0 ==> IsOption(args[k])
    ensures forall j :: k < j < |args| ==> !IsOption(args[j])
  {
    if |args| == 0 then -1
    else if IsOption(args[|args| - 1]) then |args| - 1
    else LastOption(args[..|args| - 1])
  }

  /**
    The last style option decides the style; without any, the style is
    `none` (trimming only).
   */
  lemma {:induction false} LastOptionWins(args: seq<string>)
    requires ParsedArgs(args).Config?
    ensures var k := LastOption(args);
      ParsedArgs(args).style == if k < 0 then TrimOnly else StyleNamed(OptionValue(args[k]))
  {
    if |args| > 0 {
      var n := |args| - 1;
      var init := args[..n];
      LastOptionWins(init);
      if !IsOption(args[n]) {
        var k := LastOption(init);
        assert k >= 0 ==> args[k] == init[k];
      }
    }
  }
}
