/**
 * Command-line scanning (src/parser.c). `argv` is the argument vector as given
 * to `main`, `argv[0]` the program name; its length is `argc`.
 */
module Parser {
  import opened Wrappers
  import opened Strings

  /** `include(arg, c)`: the loop over the characters of `arg`. */
  method IncludesChar(arg: string, value: char) returns (r: int)
    ensures r == 0 || r == 1
    ensures r == 1 <==> value in arg
  {
    var i := 0;
    while i < |arg|
      invariant i <= |arg|
      invariant value !in arg[..i]
    {
      if arg[i] == value {
        return 1;
      }
      assert arg[..i + 1] == arg[..i] + [arg[i]];
      i := i + 1;
    }
    assert arg[..i] == arg;
    return 0;
  }

  /**
   * `is_directive`: at least two characters, the first two `-D`; that is, exactly
   * an argument that starts with `-D`.
   */
  predicate IsDirective(arg: string): (b: bool)
    ensures b <==> IsPrefix("-D", arg)
  {
    if |arg| >= 2 then
      assert arg[..2] == [arg[0], arg[1]];
      arg[0] == '-' && arg[1] == 'D'
    else false
  }

  /** The first index from `i` on whose argument equals `arg`. */
  function FirstMatch(argv: seq<string>, arg: string, i: nat): (r: Option<nat>)
    ensures r.Some? ==> i <= r.value < |argv| && argv[r.value] == arg
    ensures forall j :: i <= j < |argv| && (r.None? || j < r.value) ==> argv[j] != arg
    decreases |argv| - i
  {
    if i >= |argv| then None
    else if argv[i] == arg then Some(i)
    else FirstMatch(argv, arg, i + 1)
  }

  /** `has_arg`: the loop over `argv[1..]`; the program name is never compared. */
  method HasArg(argv: seq<string>, arg: string) returns (r: int)
    ensures r == 0 || r == 1
    ensures r == 1 <==> exists i :: 1 <= i < |argv| && argv[i] == arg
  {
    var i := 1;
    while i < |argv|
      invariant 1 <= i
      invariant forall k :: 1 <= k < i && k < |argv| ==> argv[k] != arg
    {
      if argv[i] == arg {
        return 1;
      }
      i := i + 1;
    }
    return 0;
  }

  /**
   * `get_arg_value`: a copy of the element after the first match, or NULL
   * without a match. The element after the match is copied before line 38
   * compares `i + 1` with `argc`, so a match must not be the last element.
   */
  method GetArgValue(argv: seq<string>, arg: string) returns (r: Option<string>)
    requires FirstMatch(argv, arg, 1).Some? ==> FirstMatch(argv, arg, 1).value + 1 < |argv|
    ensures r.None? <==> FirstMatch(argv, arg, 1).None?
    ensures r.Some? ==> r.value == argv[FirstMatch(argv, arg, 1).value + 1]
  {
    var i := 1;
    while i < |argv|
      invariant 1 <= i
      invariant FirstMatch(argv, arg, 1) == FirstMatch(argv, arg, i)
    {
      if argv[i] == arg {
        return Some(argv[i + 1]);
      }
      i := i + 1;
    }
    return None;
  }

  /** The value of an option is whatever follows its first occurrence, even another option. */
  lemma ArgValueExample(argv: seq<string>)
    requires argv == ["builder", "-input", "src", "-input", "other"]
    ensures FirstMatch(argv, "-input", 1) == Some(1) && argv[2] == "src"
  {
  }

  /**
   * The `-D` arguments `get_extra_args` keeps from index `i` on, in order:
   * `-noclean` is skipped, `-input` and `-output` are skipped with the element
   * after them, and anything else is kept only if it is a directive.
   */
  function ExtraArgs(argv: seq<string>, i: nat): (r: seq<string>)
    ensures forall a :: a in r ==> IsDirective(a) && a in argv
    decreases |argv| - i
  {
    if i >= |argv| then []
    else if argv[i] == "-noclean" then ExtraArgs(argv, i + 1)
    else if argv[i] == "-input" || argv[i] == "-output" then ExtraArgs(argv, i + 2)
    else if IsDirective(argv[i]) then [argv[i]] + ExtraArgs(argv, i + 1)
    else ExtraArgs(argv, i + 1)
  }

  /**
   * `get_extra_args`: writes the kept arguments to the front of `buffer`, one
   * slot per argument, and returns how many it wrote.
   */
  method GetExtraArgs(buffer: array<string>, argv: seq<string>) returns (j: nat)
    requires buffer.Length >= |argv|
    modifies buffer
    ensures j <= buffer.Length
    ensures buffer[..j] == ExtraArgs(argv, 1)
    ensures buffer[j..] == old(buffer[j..])
  {
    j := 0;
    var i := 1;
    ghost var kept: seq<string> := [];
    while i < |argv|
      invariant 1 <= i && j <= i - 1 && j <= buffer.Length
      invariant i <= |argv| + 1
      invariant |kept| == j && forall t :: 0 <= t < j ==> buffer[t] == kept[t]
      invariant forall t :: j <= t < buffer.Length ==> buffer[t] == old(buffer[t])
      invariant kept + ExtraArgs(argv, i) == ExtraArgs(argv, 1)
    {
      if argv[i] == "-noclean" {
        i := i + 1;
        continue;
      }
      if argv[i] == "-input" || argv[i] == "-output" {
        i := i + 2;
        continue;
      }
      if IsDirective(argv[i]) {
        buffer[j] := argv[i];
        KeepOne(kept, argv[i], ExtraArgs(argv, i + 1), ExtraArgs(argv, 1));
        kept := kept + [argv[i]];
        j := j + 1;
      }
      i := i + 1;
    }
    assert buffer[..j] == kept;
    assert kept + [] == kept;
  }

  /** Moving one kept argument from the arguments still to scan onto those written. */
  lemma KeepOne(kept: seq<string>, x: string, rest: seq<string>, whole: seq<string>)
    requires kept + ([x] + rest) == whole
    ensures kept + [x] + rest == whole
  {
    assert kept + [x] + rest == kept + ([x] + rest);
  }

  /** An argument taken as the value of `-input` or `-output` is never kept, even a directive. */
  lemma OptionValueSkipped(argv: seq<string>, d: string)
    requires argv == ["builder", "-input", d]
    ensures ExtraArgs(argv, 1) == []
  {
  }

  /** Without options, the kept arguments are exactly the directives, in their order. */
  lemma {:induction false} DirectivesKept(argv: seq<string>, i: nat)
    requires forall k :: i <= k < |argv| ==> argv[k] != "-noclean" && argv[k] != "-input" && argv[k] != "-output"
    ensures ExtraArgs(argv, i) == Directives(argv, i)
    decreases |argv| - i
  {
    if i < |argv| {
      DirectivesKept(argv, i + 1);
    }
  }

  /** The directives among `argv[i..]`, in order. */
  function Directives(argv: seq<string>, i: nat): (r: seq<string>)
    ensures forall a :: a in r ==> IsDirective(a)
    decreases |argv| - i
  {
    if i >= |argv| then []
    else if IsDirective(argv[i]) then [argv[i]] + Directives(argv, i + 1)
    else Directives(argv, i + 1)
  }
}
