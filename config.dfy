/**
 * The `builder.ini` configuration (src/config.c): `key: value` lines fill a
 * `BuildContext`. The file's lines are given as a sequence, each as `fgets`
 * returns it, newline included.
 */
module Config {
  import opened Wrappers
  import opened Strings

  /**
   * `get_value`: NULL without a `:`; otherwise the text after the first `:`,
   * without its leading spaces and without one trailing newline.
   */
  function GetValue(line: string): (r: Option<string>)
    ensures r.None? <==> !Contains(line, ":")
    ensures r.Some? ==> r.value == [] || r.value[0] != ' '
  {
    match IndexOf(line, ":")
    case None => None
    case Some(k) => Some(DropNewline(RemoveLeadingSpaces(line[k + 1..])))
  }

  /** `get_bool`: 1 exactly when the value is `true`, so 0 without a colon. */
  function GetBool(line: string): (r: int)
    ensures r == 0 || r == 1
    ensures r == 1 <==> GetValue(line) == Some("true")
  {
    match GetValue(line)
    case None => 0
    case Some(v) => if v == "true" then 1 else 0
  }

  /** `parse_values`: the value cut at spaces, in order; none without a colon. */
  function ParseValues(line: string): (r: seq<string>)
    ensures !Contains(line, ":") ==> r == []
    ensures forall t :: t in r ==> |t| > 0 && ' ' !in t
  {
    match GetValue(line)
    case None => []
    case Some(v) => Tokens(v, ' ')
  }

  /** The field a configuration line sets. */
  datatype Key = InputKey | OutputKey | PrependKey | AppendKey
               | DeadcodeKey | SourcemapKey | CleanKey | WatchKey
               | PluginKey | ImportKey | NoKey

  /** A comment line or an empty line (lines 90-91). */
  predicate Skipped(line: string) {
    |line| > 0 && (line[0] == '#' || line[0] == '\n')
  }

  /** Lines 93-155: the first key, in this fixed order, that occurs anywhere in the line. */
  function KeyOf(line: string): (k: Key)
    ensures Skipped(line) ==> k == NoKey
    ensures !Skipped(line) && Contains(line, "input:") ==> k == InputKey
  {
    if Skipped(line) then NoKey
    else if Contains(line, "input:") then InputKey
    else if Contains(line, "output:") then OutputKey
    else if Contains(line, "prepend:") then PrependKey
    else if Contains(line, "append:") then AppendKey
    else if Contains(line, "deadcode:") then DeadcodeKey
    else if Contains(line, "sourcemap:") then SourcemapKey
    else if Contains(line, "clean:") then CleanKey
    else if Contains(line, "watch:") then WatchKey
    else if Contains(line, "plugin:") then PluginKey
    else if Contains(line, "import:") then ImportKey
    else NoKey
  }

  /** The fields `get_config` fills. */
  datatype Config = Config(
    input: Option<string>, output: Option<string>,
    prepend: Option<string>, append: Option<string>,
    deadcode: int, sourcemap: int, mustClean: int, watch: int,
    imports: seq<string>, plugins: seq<string>)

  /** Lines 74-86: every string NULL, every flag 0 except `must_clean`, which is 1. */
  const Defaults := Config(None, None, None, None, 0, 0, 1, 0, [], [])

  /** One line of the loop: a scalar key overwrites its field, a list key appends to its list. */
  function Step(c: Config, line: string): (r: Config)
    ensures KeyOf(line) == NoKey ==> r == c
    ensures KeyOf(line) != PluginKey ==> r.plugins == c.plugins
    ensures KeyOf(line) != ImportKey ==> r.imports == c.imports
  {
    SetField(c, KeyOf(line), line)
  }

  /** The field of key `k` set from `line`. */
  function SetField(c: Config, k: Key, line: string): Config {
    match k
    case InputKey => c.(input := GetValue(line))
    case OutputKey => c.(output := GetValue(line))
    case PrependKey => c.(prepend := GetValue(line))
    case AppendKey => c.(append := GetValue(line))
    case DeadcodeKey => c.(deadcode := GetBool(line))
    case SourcemapKey => c.(sourcemap := GetBool(line))
    case CleanKey => c.(mustClean := GetBool(line))
    case WatchKey => c.(watch := GetBool(line))
    case PluginKey => c.(plugins := c.plugins + ParseValues(line))
    case ImportKey => c.(imports := c.imports + ParseValues(line))
    case NoKey => c
  }

  /** No line sets a key: comments, empty lines and lines without a known key. */
  predicate NoKeys(lines: seq<string>)
    decreases |lines|
  {
    lines == [] || (NoKeys(lines[..|lines| - 1]) && KeyOf(lines[|lines| - 1]) == NoKey)
  }

  /** `NoKeys` holds exactly when every single line has no key. */
  lemma {:induction false} NoKeysEvery(lines: seq<string>)
    ensures NoKeys(lines) <==> forall i :: 0 <= i < |lines| ==> KeyOf(lines[i]) == NoKey
    decreases |lines|
  {
    if lines != [] {
      var init := lines[..|lines| - 1];
      NoKeysEvery(init);
      assert forall i :: 0 <= i < |init| ==> init[i] == lines[i];
    }
  }

  /** The context after the given lines, read in order. */
  function ConfigOf(lines: seq<string>): (r: Config)
    ensures NoKeys(lines) ==> r == Defaults
    decreases |lines|
  {
    if lines == [] then Defaults else Step(ConfigOf(lines[..|lines| - 1]), lines[|lines| - 1])
  }

  /** The `BuildContext` of include/config.h, with the fields `get_config` sets. */
  class BuildContext {
    var input: Option<string>
    var output: Option<string>
    var prepend: Option<string>
    var append: Option<string>
    var deadcode: int
    var sourcemap: int
    var mustClean: int
    var watch: int
    var imports: seq<string>
    var pluginsStr: seq<string>

    /** The fields as a value. */
    function Snapshot(): Config
      reads this
    {
      Config(input, output, prepend, append, deadcode, sourcemap, mustClean, watch, imports, pluginsStr)
    }

    /** Lines 68-86: a new context with the defaults. */
    constructor ()
      ensures Snapshot() == Defaults
    {
      input, output, prepend, append := None, None, None, None;
      deadcode, sourcemap, mustClean, watch := 0, 0, 1, 0;
      imports, pluginsStr := [], [];
    }

    /** The body of the loop of lines 89-156 for one line. */
    method ApplyLine(line: string)
      modifies this
      ensures Snapshot() == Step(old(Snapshot()), line)
    {
      var k := KeyOf(line);
      SetKey(k, line);
    }

    /** The field of key `k` set from `line`. */
    method SetKey(k: Key, line: string)
      modifies this
      ensures Snapshot() == SetField(old(Snapshot()), k, line)
    {
      match k
      case InputKey | OutputKey | PrependKey | AppendKey => SetString(k, line);
      case DeadcodeKey | SourcemapKey | CleanKey | WatchKey => SetFlag(k, line);
      case PluginKey | ImportKey => AppendValues(k, line);
      case NoKey =>
    }

    /** A string field: its `get_value`. */
    method SetString(k: Key, line: string)
      requires k == InputKey || k == OutputKey || k == PrependKey || k == AppendKey
      modifies this
      ensures Snapshot() == SetField(old(Snapshot()), k, line)
    {
      var v := GetValue(line);
      match k
      case InputKey => input := v;
      case OutputKey => output := v;
      case PrependKey => prepend := v;
      case AppendKey => append := v;
    }

    /** A flag: its `get_bool`. */
    method SetFlag(k: Key, line: string)
      requires k == DeadcodeKey || k == SourcemapKey || k == CleanKey || k == WatchKey
      modifies this
      ensures Snapshot() == SetField(old(Snapshot()), k, line)
    {
      var b := GetBool(line);
      match k
      case DeadcodeKey => deadcode := b;
      case SourcemapKey => sourcemap := b;
      case CleanKey => mustClean := b;
      case WatchKey => watch := b;
    }

    /** A list: the parsed values appended. */
    method AppendValues(k: Key, line: string)
      requires k == PluginKey || k == ImportKey
      modifies this
      ensures Snapshot() == SetField(old(Snapshot()), k, line)
    {
      var vs := ParseValues(line);
      if k == PluginKey {
        pluginsStr := pluginsStr + vs;
      } else {
        imports := imports + vs;
      }
    }
  }

  /** `get_config` over the lines of the file. */
  method GetConfig(lines: seq<string>) returns (ctx: BuildContext)
    ensures fresh(ctx) && ctx.Snapshot() == ConfigOf(lines)
  {
    ctx := new BuildContext();
    var i := 0;
    while i < |lines|
      invariant i <= |lines|
      invariant ctx.Snapshot() == ConfigOf(lines[..i])
    {
      ConfigOfNext(lines, i);
      ctx.ApplyLine(lines[i]);
      i := i + 1;
    }
    assert lines[..i] == lines;
  }

  /** The context after one more line is one more `Step`. */
  lemma ConfigOfNext(lines: seq<string>, i: nat)
    requires i < |lines|
    ensures ConfigOf(lines[..i + 1]) == Step(ConfigOf(lines[..i]), lines[i])
  {
    assert lines[..i + 1][..i] == lines[..i];
  }

  /** The values of every line of key `k`, in file order. */
  function Collected(lines: seq<string>, k: Key): (r: seq<string>)
    decreases |lines|
  {
    if lines == [] then []
    else
      var last := lines[|lines| - 1];
      Collected(lines[..|lines| - 1], k) + (if KeyOf(last) == k then ParseValues(last) else [])
  }

  /** `plugin:` and `import:` values accumulate over the whole file, in file order. */
  lemma {:induction false} ListsAccumulate(lines: seq<string>)
    ensures ConfigOf(lines).plugins == Collected(lines, PluginKey)
    ensures ConfigOf(lines).imports == Collected(lines, ImportKey)
    decreases |lines|
  {
    if lines != [] {
      ListsAccumulate(lines[..|lines| - 1]);
    }
  }

  /** The value of the last `input:` line, or NULL when there is none. */
  function LastInput(lines: seq<string>): Option<string>
    decreases |lines|
  {
    if lines == [] then None
    else if KeyOf(lines[|lines| - 1]) == InputKey then GetValue(lines[|lines| - 1])
    else LastInput(lines[..|lines| - 1])
  }

  /** A later `input:` line overwrites an earlier one: the last one decides. */
  lemma {:induction false} LastInputWins(lines: seq<string>)
    ensures ConfigOf(lines).input == LastInput(lines)
    decreases |lines|
  {
    if lines != [] {
      LastInputWins(lines[..|lines| - 1]);
    }
  }

  /** The flag of the last `clean:` line, or 1 when there is none. */
  function LastClean(lines: seq<string>): int
    decreases |lines|
  {
    if lines == [] then 1
    else if KeyOf(lines[|lines| - 1]) == CleanKey then GetBool(lines[|lines| - 1])
    else LastClean(lines[..|lines| - 1])
  }

  /** Cleaning stays on unless the last `clean:` line says otherwise. */
  lemma {:induction false} LastCleanWins(lines: seq<string>)
    ensures ConfigOf(lines).mustClean == LastClean(lines)
    decreases |lines|
  {
    if lines != [] {
      LastCleanWins(lines[..|lines| - 1]);
    }
  }

  /** Keys are matched anywhere in the line: a `prepend:` line whose value holds `input:` sets the input. */
  lemma KeyAnywhere(line: string)
    requires line == "prepend: myinput: x\n"
    ensures KeyOf(line) == InputKey
  {
    assert line[11..17] == "input:";
    assert OccursAt(line, "input:", 11);
  }

  /** A `key: value` line gives back its value, whatever spaces follow the colon. */
  lemma {:induction false} ValueOf(key: string, v: string)
    requires ':' !in key && (v == [] || v[0] != ' ')
    ensures GetValue(key + ": " + v + "\n") == Some(v)
  {
    var line := key + ": " + v + "\n";
    var after := [' '] + (v + "\n");
    ValueLine(key, v, line, after);
    ValueAfterColon(line, |key|, after);
    ValueText(v, after);
  }

  lemma ValueLine(key: string, v: string, line: string, after: string)
    requires ':' !in key && line == key + ": " + v + "\n" && after == [' '] + (v + "\n")
    ensures IndexOf(line, ":") == Some(|key|) && line[|key| + 1..] == after
  {
    assert line == key + ":" + after;
    FirstAfter(key, ":", after);
  }

  lemma ValueAfterColon(line: string, k: nat, after: string)
    requires IndexOf(line, ":") == Some(k) && line[k + 1..] == after
    ensures GetValue(line) == Some(DropNewline(RemoveLeadingSpaces(after)))
  {
  }

  lemma ValueText(v: string, after: string)
    requires (v == [] || v[0] != ' ') && after == [' '] + (v + "\n")
    ensures DropNewline(RemoveLeadingSpaces(after)) == v
  {
    var u := v + "\n";
    SkipOneSpace(after, u);
    KeptWithoutSpace(v, u);
    DropLineEnd(v, u);
  }

  lemma SkipOneSpace(after: string, u: string)
    requires after == [' '] + u
    ensures RemoveLeadingSpaces(after) == RemoveLeadingSpaces(u)
  {
    assert after[1..] == u;
  }

  lemma KeptWithoutSpace(v: string, u: string)
    requires (v == [] || v[0] != ' ') && u == v + "\n"
    ensures RemoveLeadingSpaces(u) == u
  {
    assert u[0] != ' ';
  }

  lemma DropLineEnd(v: string, u: string)
    requires u == v + "\n"
    ensures DropNewline(u) == v
  {
    assert u[..|v|] == v;
  }

  /** `clean: false` turns cleaning off and `clean: true` back on. */
  lemma CleanFlag(b: string)
    requires b == "true" || b == "false"
    ensures GetBool("clean: " + b + "\n") == (if b == "true" then 1 else 0)
  {
    assert "clean: " + b + "\n" == "clean" + ": " + b + "\n";
    ValueOf("clean", b);
  }
}
