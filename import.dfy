/**
 * Header import (src/import.c): resolving an import spec to a path, with the
 * `pkg::path` form split at the first `::` and resolved by R's
 * `system.file(path, package = pkg)`, and feeding every line of every imported
 * file to the `#define` parser.
 */
module Import {
  import opened Wrappers
  import opened Strings
  import opened Define

  /**
   * The split of `get_path_from_package`: the package name is the text before the
   * first `::` and the relative path the text after it.
   */
  function SplitPackage(spec: string): (r: (string, string))
    requires Contains(spec, "::")
    ensures r.0 + "::" + r.1 == spec
    ensures !Contains(r.0, "::")
  {
    var k := IndexOf(spec, "::").value;
    assert !Contains(spec[..k], "::") by {
      if Contains(spec[..k], "::") {
        var j: nat :| j <= k && OccursAt(spec[..k], "::", j);
        assert spec[j..j + 2] == spec[..k][j..j + 2];
        assert OccursAt(spec, "::", j);
      }
    }
    assert spec[..k] + "::" + spec[k + 2..] == spec;
    (spec[..k], spec[k + 2..])
  }

  /** A package name without `:` and any path, joined by `::`, split back apart. */
  lemma SplitPackageRoundTrip(pkg: string, path: string)
    requires ':' !in pkg
    ensures Contains(pkg + "::" + path, "::")
    ensures SplitPackage(pkg + "::" + path) == (pkg, path)
  {
    var spec := pkg + "::" + path;
    assert OccursAt(spec, "::", |pkg|);
    var r := SplitPackage(spec);
    var k := IndexOf(spec, "::").value;
    assert k <= |pkg|;
    assert k == |pkg| by {
      if k < |pkg| {
        NoSeparatorInName(pkg, path, k);
        assert false;
      }
    }
    assert spec[..k] == pkg;
    assert spec[k + 2..] == path;
  }

  lemma NoSeparatorInName(pkg: string, path: string, k: nat)
    requires ':' !in pkg && k < |pkg|
    ensures !OccursAt(pkg + "::" + path, "::", k)
  {
    var spec := pkg + "::" + path;
    assert spec[k] == pkg[k];
    assert pkg[k] in pkg;
    if k + 2 <= |spec| {
      assert spec[k..k + 2][0] == spec[k];
    }
  }

  /**
   * `get_path`: a spec with `::` goes to package resolution, `systemFile(pkg, path)`
   * standing for R's `system.file`; any other spec is the path itself.
   */
  function GetPath(spec: string, systemFile: (string, string) -> string): (r: string)
    ensures !Contains(spec, "::") ==> r == spec
    ensures Contains(spec, "::") ==> r == systemFile(SplitPackage(spec).0, SplitPackage(spec).1)
  {
    if Contains(spec, "::") then
      var (pkg, path) := SplitPackage(spec);
      systemFile(pkg, path)
    else spec
  }

  /** Every line of every imported file: files in list order, lines in file order. */
  function ImportedLines(paths: seq<string>, systemFile: (string, string) -> string,
                         readLines: string -> seq<string>): seq<string>
  {
    if paths == [] then []
    else ImportedLines(paths[..|paths| - 1], systemFile, readLines) + readLines(GetPath(paths[|paths| - 1], systemFile))
  }

  /** The rows a sequence of lines contributes through `define`, in line order. */
  function DefinitionsOf(lines: seq<string>): (r: seq<Entry>)
    ensures |r| <= |lines|
    ensures forall e :: e in r ==> e.kind.None?
  {
    if lines == [] then []
    else
      var last := ParseDefine(lines[|lines| - 1]);
      DefinitionsOf(lines[..|lines| - 1]) + (if last.Some? then [last.value] else [])
  }

  /** What a concatenation of line sequences defines is what each part defines, in order. */
  lemma {:induction false} DefinitionsOfAppend(a: seq<string>, b: seq<string>)
    ensures DefinitionsOf(a + b) == DefinitionsOf(a) + DefinitionsOf(b)
    decreases |b|
  {
    if b != [] {
      assert (a + b)[..|a + b| - 1] == a + b[..|b| - 1];
      assert (a + b)[|a + b| - 1] == b[|b| - 1];
      DefinitionsOfAppend(a, b[..|b| - 1]);
    } else {
      assert a + b == a;
    }
  }

  /** Lines that are not `#define` lines define nothing. */
  lemma {:induction false} DefinitionsOfPlainLines(lines: seq<string>)
    requires forall l :: l in lines ==> !IsPrefix("#define", l)
    ensures DefinitionsOf(lines) == []
    decreases |lines|
  {
    if lines != [] {
      assert lines[|lines| - 1] in lines;
      assert forall l :: l in lines[..|lines| - 1] ==> l in lines;
      DefinitionsOfPlainLines(lines[..|lines| - 1]);
    }
  }

  /** One iteration of the inner loop: one line goes to `define`. */
  method DefineOne(defs: DefineTable, line: string, ghost start: seq<Entry>, ghost done: seq<Entry>)
    requires defs.Valid() && defs.Entries() == start + done
    modifies defs, defs.name, defs.value, defs.kind
    ensures defs.Valid()
    ensures defs.Entries() == start + (done + DefinitionsOf([line]))
    ensures (defs.name == old(defs.name) || fresh(defs.name)) && (defs.value == old(defs.value) || fresh(defs.value))
    ensures defs.kind == old(defs.kind) || fresh(defs.kind)
  {
    defs.DefineLine(line, true, true);
    assert [line][..0] == [];
    var row := if ParseDefine(line).Some? then [ParseDefine(line).value] else [];
    assert (start + done) + row == start + (done + row);
  }

  /** One more line of a file adds what that line defines. */
  lemma DefinitionsOfPrefix(lines: seq<string>, j: nat)
    requires j < |lines|
    ensures DefinitionsOf(lines[..j + 1]) == DefinitionsOf(lines[..j]) + DefinitionsOf([lines[j]])
  {
    assert lines[..j + 1] == lines[..j] + [lines[j]];
    DefinitionsOfAppend(lines[..j], [lines[j]]);
  }

  /** The inner loop of `import_defines`: every line of one file goes to `define`, in order. */
  method DefineLines(defs: DefineTable, lines: seq<string>)
    requires defs.Valid()
    modifies defs, defs.name, defs.value, defs.kind
    ensures defs.Valid()
    ensures defs.Entries() == old(defs.Entries()) + DefinitionsOf(lines)
    ensures (defs.name == old(defs.name) || fresh(defs.name)) && (defs.value == old(defs.value) || fresh(defs.value))
    ensures defs.kind == old(defs.kind) || fresh(defs.kind)
  {
    ghost var start := defs.Entries();
    var j := 0;
    while j < |lines|
      invariant 0 <= j <= |lines|
      invariant defs.Valid()
      invariant defs.name == old(defs.name) || fresh(defs.name)
      invariant defs.value == old(defs.value) || fresh(defs.value)
      invariant defs.kind == old(defs.kind) || fresh(defs.kind)
      invariant defs.Entries() == start + DefinitionsOf(lines[..j])
    {
      DefineOne(defs, lines[j], start, DefinitionsOf(lines[..j]));
      DefinitionsOfPrefix(lines, j);
      j := j + 1;
    }
    assert lines[..j] == lines;
  }

  /** The rows the listed files contribute, file by file. */
  function ImportedDefinitions(paths: seq<string>, systemFile: (string, string) -> string,
                               readLines: string -> seq<string>): seq<Entry>
  {
    if paths == [] then []
    else ImportedDefinitions(paths[..|paths| - 1], systemFile, readLines)
           + DefinitionsOf(readLines(GetPath(paths[|paths| - 1], systemFile)))
  }

  /** File by file is line by line over all the files' lines. */
  lemma {:induction false} ImportedDefinitionsOfLines(paths: seq<string>, systemFile: (string, string) -> string,
                                                     readLines: string -> seq<string>)
    ensures ImportedDefinitions(paths, systemFile, readLines) == DefinitionsOf(ImportedLines(paths, systemFile, readLines))
    decreases |paths|
  {
    if paths != [] {
      var init := paths[..|paths| - 1];
      ImportedDefinitionsOfLines(init, systemFile, readLines);
      DefinitionsOfAppend(ImportedLines(init, systemFile, readLines), readLines(GetPath(paths[|paths| - 1], systemFile)));
    }
  }

  /** One iteration of the outer loop: the lines of one file go to `define`. */
  method ImportFile(defs: DefineTable, spec: string, systemFile: (string, string) -> string,
                    readLines: string -> seq<string>, ghost start: seq<Entry>, ghost done: seq<Entry>)
    requires defs.Valid() && defs.Entries() == start + done
    modifies defs, defs.name, defs.value, defs.kind
    ensures defs.Valid()
    ensures defs.Entries() == start + (done + DefinitionsOf(readLines(GetPath(spec, systemFile))))
    ensures (defs.name == old(defs.name) || fresh(defs.name)) && (defs.value == old(defs.value) || fresh(defs.value))
    ensures defs.kind == old(defs.kind) || fresh(defs.kind)
  {
    var lines := readLines(GetPath(spec, systemFile));
    DefineLines(defs, lines);
    assert (start + done) + DefinitionsOf(lines) == start + (done + DefinitionsOf(lines));
  }

  /**
   * `import_defines`: feeds every line of every listed file to `define`, files in
   * list order and lines in file order; an empty list (NULL) does nothing.
   * `readLines` stands for reading a file with `fgets`; allocations succeed.
   */
  method ImportDefines(defs: DefineTable, paths: seq<string>, systemFile: (string, string) -> string,
                       readLines: string -> seq<string>)
    requires defs.Valid()
    modifies defs, defs.name, defs.value, defs.kind
    ensures defs.Valid()
    ensures defs.Entries() == old(defs.Entries()) + DefinitionsOf(ImportedLines(paths, systemFile, readLines))
  {
    if paths == [] {
      return;
    }
    ghost var start := defs.Entries();
    var i := 0;
    while i < |paths|
      invariant 0 <= i <= |paths|
      invariant defs.Valid()
      invariant defs.name == old(defs.name) || fresh(defs.name)
      invariant defs.value == old(defs.value) || fresh(defs.value)
      invariant defs.kind == old(defs.kind) || fresh(defs.kind)
      invariant defs.Entries() == start + ImportedDefinitions(paths[..i], systemFile, readLines)
    {
      ImportFile(defs, paths[i], systemFile, readLines, start, ImportedDefinitions(paths[..i], systemFile, readLines));
      assert paths[..i + 1][..i] == paths[..i];
      i := i + 1;
    }
    assert paths[..i] == paths;
    ImportedDefinitionsOfLines(paths, systemFile, readLines);
  }
}
