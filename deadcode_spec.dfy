/**
 * Dead-code analysis (src/deadcode.c): a walk over parsed R expressions that
 * defines assignment targets in pass 1, marks symbol uses in pass 2, and
 * counts the global bindings never used. The `SEXP` trees that R's parser
 * returns are an `Expr` datatype here.
 */
module DeadcodeSpec {
  import opened Wrappers

  /** The `Binding` struct of include/deadcode.h, without its `next` link. */
  datatype Binding = Binding(name: string, isFunction: int, isUsed: int, line: int, file: Option<string>)

  /**
   * The binding lists of an environment and of its ancestors, innermost
   * first; each list holds the newest binding first, as `env_define` prepends.
   */
  type Frames = seq<seq<Binding>>

  /**
   * The shapes of `SEXP` the walk tells apart: `R_NilValue`, a symbol, a call
   * (`LANGSXP`: head and arguments), a pairlist (`LISTSXP`/`DOTSXP`: tagged
   * elements), an expression or generic vector (`EXPRSXP`/`VECSXP`, walked
   * alike), and anything else (constants, strings, ...).
   */
  datatype Expr =
    | Nil
    | Sym(name: string)
    | Lang(head: Expr, args: seq<Expr>)
    | Pairlist(items: seq<Tagged>)
    | Vector(elems: seq<Expr>)
    | Other

  /** A pairlist cell: its `TAG` (a symbol or none) and its `CAR`. */
  datatype Tagged = Tagged(tag: Option<string>, value: Expr)

  /** `EXCLUDED_NAMES`: package hooks that are used without being called. */
  const ExcludedNames: seq<string> := [".onLoad", ".onUnload", ".onAttach", ".onDetach", ".Last.lib",
    ".First.lib", ".packageName", ".conflicts.OK", ".noGenerics"]

  /**
   * `is_excluded_name`: NULL, a leading dot, or a listed hook. Every listed
   * hook starts with a dot, so the list never decides.
   */
  function IsExcludedName(name: Option<string>): (r: bool)
    ensures r <==> name.None? || (|name.value| > 0 && name.value[0] == '.')
  {
    name.None? || (|name.value| > 0 && name.value[0] == '.') || name.value in ExcludedNames
  }

  /** `find_binding_local`: the first (newest) binding of `name` in one list. */
  function FindLocal(bs: seq<Binding>, name: string): (r: Option<nat>)
    ensures r.Some? ==> r.value < |bs| && bs[r.value].name == name
    ensures r.Some? ==> forall j :: 0 <= j < r.value ==> bs[j].name != name
    ensures r.None? ==> forall j :: 0 <= j < |bs| ==> bs[j].name != name
  {
    if bs == [] then None
    else if bs[0].name == name then Some(0)
    else match FindLocal(bs[1..], name)
      case None => None
      case Some(i) => Some(i + 1)
  }

  /**
   * `find_binding`: the innermost environment whose own list binds `name`,
   * with the binding's place in that list.
   */
  function FindBinding(st: Frames, name: string): (r: Option<(nat, nat)>)
    ensures r.Some? ==> r.value.0 < |st| && FindLocal(st[r.value.0], name) == Some(r.value.1)
    ensures r.Some? ==> forall k :: 0 <= k < r.value.0 ==> FindLocal(st[k], name).None?
    ensures r.None? ==> forall k :: 0 <= k < |st| ==> FindLocal(st[k], name).None?
  {
    if st == [] then None
    else match FindLocal(st[0], name)
      case Some(i) => Some((0, i))
      case None =>
        match FindBinding(st[1..], name)
        case None => None
        case Some(p) => Some((p.0 + 1, p.1))
  }

  /** The first environment with a local binding is the one `find_binding` picks. */
  lemma {:induction false} InnermostAt(st: Frames, name: string, k: nat)
    requires k < |st| && FindLocal(st[k], name).Some?
    requires forall j :: 0 <= j < k ==> FindLocal(st[j], name).None?
    ensures FindBinding(st, name) == Some((k, FindLocal(st[k], name).value))
  {
    if k > 0 {
      InnermostAt(st[1..], name, k - 1);
    }
  }

  /** With no local binding anywhere, `find_binding` finds nothing. */
  lemma {:induction false} NowhereBound(st: Frames, name: string)
    requires forall j :: 0 <= j < |st| ==> FindLocal(st[j], name).None?
    ensures FindBinding(st, name).None?
  {
    if st != [] {
      NowhereBound(st[1..], name);
    }
  }

  /** The binding `find_binding` returns, as a value. */
  function Visible(st: Frames, name: string): (r: Option<Binding>)
    ensures r.Some? ==> r.value.name == name
  {
    match FindBinding(st, name)
    case None => None
    case Some(p) => Some(st[p.0][p.1])
  }

  /**
   * `env_define` on one list: an existing binding of `name` takes the new
   * kind and line; otherwise a fresh, unused binding goes in front.
   */
  function DefineIn(bs: seq<Binding>, name: string, isFunc: int, line: int, file: Option<string>): seq<Binding> {
    match FindLocal(bs, name)
    case Some(i) => bs[i := bs[i].(isFunction := isFunc, line := line)]
    case None => [Binding(name, isFunc, 0, line, file)] + bs
  }

  /** `env_define` on the innermost environment. */
  function Define(st: Frames, name: string, isFunc: int, line: int, file: Option<string>): (r: Frames)
    requires |st| > 0
    ensures |r| == |st| && r[1..] == st[1..]
  {
    st[0 := DefineIn(st[0], name, isFunc, line, file)]
  }

  /**
   * `env_mark_used`: sets `is_used` on the binding `find_binding` returns, if
   * any; every other environment, shadowed ones included, stays as it was.
   */
  function MarkUsed(st: Frames, name: string): (r: Frames)
    ensures Marked(st, r)
    ensures FindBinding(st, name).Some? ==>
      forall j :: 0 <= j < |st| && j != FindBinding(st, name).value.0 ==> r[j] == st[j]
  {
    match FindBinding(st, name)
    case None => st
    case Some(p) => st[p.0 := st[p.0][p.1 := st[p.0][p.1].(isUsed := 1)]]
  }

  /** `is_assignment_symbol`. */
  predicate IsAssignment(head: Expr) {
    head.Sym? && head.name in ["<-", "=", "<<-", "assign"]
  }

  /** `is_function_call`. */
  predicate IsFunctionHead(head: Expr) {
    head.Sym? && head.name == "function"
  }

  /** A call whose head is `function`, the right side that makes a binding a function. */
  predicate IsFunctionDef(e: Expr) {
    e.Lang? && IsFunctionHead(e.head)
  }

  /**
   * `walk_expr`: pass 1 defines the target of an assignment to a symbol in the
   * innermost environment; pass 2 marks every symbol met as used; a function
   * definition is walked by `WalkFunctionDef` in both passes.
   */
  function Walk(e: Expr, st: Frames, pass: int, line: int, file: Option<string>): (r: Frames)
    requires |st| > 0
    ensures |r| == |st|
    decreases e, 1
  {
    match e
    case Nil => st
    case Other => st
    case Sym(n) => if pass == 2 then MarkUsed(st, n) else st
    case Lang(head, args) =>
      if IsAssignment(head) then
        if |args| > 0 && args[0].Sym? then
          var isFunc := if |args| > 1 && IsFunctionDef(args[1]) then 1 else 0;
          var st1 := if pass == 1 then Define(st, args[0].name, isFunc, line, file) else st;
          if |args| <= 1 then st1
          else if isFunc == 1 then WalkFunctionDef(args[1], st1, pass, line, file)
          else Walk(args[1], st1, pass, line, file)
        else
          var st1 := if |args| > 0 then Walk(args[0], st, pass, line, file) else st;
          if |args| > 1 then Walk(args[1], st1, pass, line, file) else st1
      else if IsFunctionHead(head) then WalkFunctionDef(e, st, pass, line, file)
      else WalkAll(args, Walk(head, st, pass, line, file), pass, line, file)
    case Pairlist(items) => WalkPairs(items, st, pass, line, file)
    case Vector(elems) => WalkAll(elems, st, pass, line, file)
  }

  /** The expressions of a list walked in order. */
  function WalkAll(es: seq<Expr>, st: Frames, pass: int, line: int, file: Option<string>): (r: Frames)
    requires |st| > 0
    ensures |r| == |st|
    decreases es, 0
  {
    if es == [] then st
    else Walk(es[|es| - 1], WalkAll(es[..|es| - 1], st, pass, line, file), pass, line, file)
  }

  /** The elements (`CAR`s) of a pairlist walked in order. */
  function WalkPairs(items: seq<Tagged>, st: Frames, pass: int, line: int, file: Option<string>): (r: Frames)
    requires |st| > 0
    ensures |r| == |st|
    decreases items, 0
  {
    if items == [] then st
    else WalkCell(items[|items| - 1], WalkPairs(items[..|items| - 1], st, pass, line, file), pass, line, file)
  }

  /** One pairlist cell: its `CAR` walked, its tag ignored. */
  function WalkCell(c: Tagged, st: Frames, pass: int, line: int, file: Option<string>): (r: Frames)
    requires |st| > 0
    ensures |r| == |st|
    decreases c, 0
  {
    Walk(c.value, st, pass, line, file)
  }

  /** The formals of a function: `env_define` of every tag, in order, with kind 0. */
  function DefineFormals(formals: seq<Tagged>, bs: seq<Binding>, line: int, file: Option<string>): seq<Binding>
    decreases |formals|
  {
    if formals == [] then bs
    else
      var before := DefineFormals(formals[..|formals| - 1], bs, line, file);
      match formals[|formals| - 1].tag
      case None => before
      case Some(n) => DefineIn(before, n, 0, line, file)
  }

  /** The formals of `function(...)`: `CADR`, when it is a pairlist. */
  function Formals(f: Expr): seq<Tagged>
    requires f.Lang?
  {
    if |f.args| > 0 && f.args[0].Pairlist? then f.args[0].items else []
  }

  /**
   * `walk_function_def`: a new environment below the current one holds the
   * formals; the body (`CADDR`) is walked with pass 1 and then pass 2 in it,
   * whatever the outer pass, and the new environment is dropped.
   */
  function WalkFunctionDef(f: Expr, st: Frames, pass: int, line: int, file: Option<string>): (r: Frames)
    requires f.Lang? && |st| > 0
    ensures |r| == |st|
    decreases f, 0
  {
    var local := [DefineFormals(Formals(f), [], line, file)] + st;
    if |f.args| <= 1 then st
    else
      var inner := Walk(f.args[1], Walk(f.args[1], local, 1, line, file), 2, line, file);
      inner[1..]
  }

  /** The binding `find_binding_local` returns, as a value. */
  function LocalBinding(bs: seq<Binding>, name: string): (r: Option<Binding>)
    ensures r.Some? ==> r.value.name == name
  {
    match FindLocal(bs, name)
    case None => None
    case Some(i) => Some(bs[i])
  }

  /** No two bindings of one list share a name. */
  predicate Unique(bs: seq<Binding>) {
    forall i, j :: 0 <= i < j < |bs| ==> bs[i].name != bs[j].name
  }

  /**
   * After `env_define`, the name is bound locally with the new kind and line;
   * a binding it already had keeps its `is_used` and file, a new one is unused.
   */
  lemma DefineFinds(bs: seq<Binding>, n: string, f: int, l: int, file: Option<string>)
    ensures LocalBinding(DefineIn(bs, n, f, l, file), n) ==
      match LocalBinding(bs, n)
      case None => Some(Binding(n, f, 0, l, file))
      case Some(b) => Some(b.(isFunction := f, line := l))
  {
    var r := DefineIn(bs, n, f, l, file);
    match FindLocal(bs, n)
    case None =>
      assert r[0].name == n;
    case Some(i) =>
      assert r[i].name == n;
      assert forall j :: 0 <= j < i ==> r[j] == bs[j];
  }

  /** `env_define` leaves what every other name is bound to alone. */
  lemma DefineKeepsOthers(bs: seq<Binding>, n: string, m: string, f: int, l: int, file: Option<string>)
    requires m != n
    ensures LocalBinding(DefineIn(bs, n, f, l, file), m) == LocalBinding(bs, m)
  {
    var r := DefineIn(bs, n, f, l, file);
    match FindLocal(bs, n)
    case None =>
      assert r[1..] == bs;
      match FindLocal(bs, m) {
        case None =>
          assert forall j :: 0 < j < |r| ==> r[j] == bs[j - 1];
        case Some(i) =>
          assert r[i + 1] == bs[i];
          assert forall j :: 0 < j < i + 1 ==> r[j] == bs[j - 1];
      }
    case Some(k) =>
      assert forall j :: 0 <= j < |r| && j != k ==> r[j] == bs[j];
      assert r[k].name == n;
      match FindLocal(bs, m) {
        case None =>
        case Some(i) =>
          assert r[i] == bs[i];
      }
  }

  /** A redefinition adds no duplicate: a list without repeated names keeps none. */
  lemma DefineNoDuplicate(bs: seq<Binding>, n: string, f: int, l: int, file: Option<string>)
    requires Unique(bs)
    ensures Unique(DefineIn(bs, n, f, l, file))
    ensures |DefineIn(bs, n, f, l, file)| == |bs| + (if LocalBinding(bs, n).None? then 1 else 0)
  {
    var r := DefineIn(bs, n, f, l, file);
    match FindLocal(bs, n)
    case None =>
      assert forall j :: 0 < j < |r| ==> r[j] == bs[j - 1];
    case Some(k) =>
      assert forall j :: 0 <= j < |r| ==> r[j].name == bs[j].name;
  }

  /** `env_mark_used` marks the binding `find_binding` sees, and nothing when the name is unbound. */
  lemma MarkUsedVisible(st: Frames, n: string)
    ensures Visible(MarkUsed(st, n), n) ==
      match Visible(st, n)
      case None => None
      case Some(b) => Some(b.(isUsed := 1))
  {
    match FindBinding(st, n)
    case None =>
    case Some(p) =>
      var r := MarkUsed(st, n);
      assert forall j :: 0 <= j < |st| && j != p.0 ==> r[j] == st[j];
      assert forall i :: 0 <= i < |st[p.0]| && i != p.1 ==> r[p.0][i] == st[p.0][i];
      FindLocalSameNames(st[p.0], r[p.0], n);
      FindBindingSameNames(st, r, n);
  }

  /** Lookup depends only on the names of a list. */
  lemma FindLocalSameNames(a: seq<Binding>, b: seq<Binding>, n: string)
    requires |a| == |b| && forall i :: 0 <= i < |a| ==> a[i].name == b[i].name
    ensures FindLocal(a, n) == FindLocal(b, n)
  {
    if a != [] {
      FindLocalSameNames(a[1..], b[1..], n);
    }
  }

  /** The innermost binding depends only on the names in each environment. */
  lemma FindBindingSameNames(a: Frames, b: Frames, n: string)
    requires |a| == |b|
    requires forall k :: 0 <= k < |a| ==> |a[k]| == |b[k]|
    requires forall k, i :: 0 <= k < |a| && 0 <= i < |a[k]| ==> a[k][i].name == b[k][i].name
    ensures FindBinding(a, n) == FindBinding(b, n)
  {
    if a != [] {
      FindLocalSameNames(a[0], b[0], n);
      FindBindingSameNames(a[1..], b[1..], n);
    }
  }

  /** `b` differs from `a` only in `is_used` flags that were set. */
  predicate Marked(a: Frames, b: Frames) {
    |a| == |b| && (forall k :: 0 <= k < |a| ==> |a[k]| == |b[k]|) &&
    forall k, i :: 0 <= k < |a| && 0 <= i < |a[k]| ==> b[k][i] == a[k][i] || b[k][i] == a[k][i].(isUsed := 1)
  }

  lemma MarkedTrans(a: Frames, b: Frames, c: Frames)
    requires Marked(a, b) && Marked(b, c)
    ensures Marked(a, c)
  {
  }

  lemma MarkedTail(a: Frames, b: Frames)
    requires |a| > 0 && Marked(a, b)
    ensures Marked(a[1..], b[1..])
  {
    assert forall k :: 0 <= k < |a| - 1 ==> a[1..][k] == a[k + 1] && b[1..][k] == b[k + 1];
  }

  /**
   * A walk changes the environments below the innermost one only by marking
   * uses, and outside pass 1 it changes the innermost one only so as well:
   * definitions happen in pass 1 and only in the innermost environment.
   */
  lemma {:induction false} WalkMarks(e: Expr, st: Frames, pass: int, line: int, file: Option<string>)
    requires |st| > 0
    ensures Marked(st[1..], Walk(e, st, pass, line, file)[1..])
    ensures pass != 1 ==> Marked(st, Walk(e, st, pass, line, file))
    decreases e, 1
  {
    var r := Walk(e, st, pass, line, file);
    match e
    case Nil =>
    case Other =>
    case Sym(n) =>
      if pass == 2 {
        MarkedTail(st, r);
      }
    case Lang(head, args) =>
      if IsAssignment(head) {
        if |args| > 0 && args[0].Sym? {
          var isFunc := if |args| > 1 && IsFunctionDef(args[1]) then 1 else 0;
          var st1 := if pass == 1 then Define(st, args[0].name, isFunc, line, file) else st;
          assert st1[1..] == st[1..];
          if |args| > 1 {
            if isFunc == 1 {
              WalkFunctionDefMarks(args[1], st1, pass, line, file);
              MarkedTail(st1, r);
            } else {
              WalkMarks(args[1], st1, pass, line, file);
            }
          }
        } else {
          var st1 := if |args| > 0 then Walk(args[0], st, pass, line, file) else st;
          if |args| > 0 {
            WalkMarks(args[0], st, pass, line, file);
          }
          if |args| > 1 {
            WalkMarks(args[1], st1, pass, line, file);
            MarkedTrans(st[1..], st1[1..], r[1..]);
            if pass != 1 {
              MarkedTrans(st, st1, r);
            }
          }
        }
      } else if IsFunctionHead(head) {
        WalkFunctionDefMarks(e, st, pass, line, file);
        MarkedTail(st, r);
      } else {
        var st1 := Walk(head, st, pass, line, file);
        WalkMarks(head, st, pass, line, file);
        WalkAllMarks(args, st1, pass, line, file);
        MarkedTrans(st[1..], st1[1..], r[1..]);
        if pass != 1 {
          MarkedTrans(st, st1, r);
        }
      }
    case Pairlist(items) =>
      WalkPairsMarks(items, st, pass, line, file);
    case Vector(elems) =>
      WalkAllMarks(elems, st, pass, line, file);
  }

  lemma {:induction false} WalkAllMarks(es: seq<Expr>, st: Frames, pass: int, line: int, file: Option<string>)
    requires |st| > 0
    ensures Marked(st[1..], WalkAll(es, st, pass, line, file)[1..])
    ensures pass != 1 ==> Marked(st, WalkAll(es, st, pass, line, file))
    decreases es, 0
  {
    if es != [] {
      var st1 := WalkAll(es[..|es| - 1], st, pass, line, file);
      var r := WalkAll(es, st, pass, line, file);
      WalkAllMarks(es[..|es| - 1], st, pass, line, file);
      WalkMarks(es[|es| - 1], st1, pass, line, file);
      MarkedTrans(st[1..], st1[1..], r[1..]);
      if pass != 1 {
        MarkedTrans(st, st1, r);
      }
    }
  }

  lemma {:induction false} WalkPairsMarks(items: seq<Tagged>, st: Frames, pass: int, line: int, file: Option<string>)
    requires |st| > 0
    ensures Marked(st[1..], WalkPairs(items, st, pass, line, file)[1..])
    ensures pass != 1 ==> Marked(st, WalkPairs(items, st, pass, line, file))
    decreases items, 0
  {
    if items != [] {
      var st1 := WalkPairs(items[..|items| - 1], st, pass, line, file);
      var r := WalkPairs(items, st, pass, line, file);
      WalkPairsMarks(items[..|items| - 1], st, pass, line, file);
      WalkCellMarks(items[|items| - 1], st1, pass, line, file);
      MarkedTrans(st[1..], st1[1..], r[1..]);
      if pass != 1 {
        MarkedTrans(st, st1, r);
      }
    }
  }

  lemma {:induction false} WalkCellMarks(c: Tagged, st: Frames, pass: int, line: int, file: Option<string>)
    requires |st| > 0
    ensures Marked(st[1..], WalkCell(c, st, pass, line, file)[1..])
    ensures pass != 1 ==> Marked(st, WalkCell(c, st, pass, line, file))
    decreases c, 0
  {
    WalkMarks(c.value, st, pass, line, file);
  }

  /** A function definition, in either pass, only marks uses in the environments around it. */
  lemma {:induction false} WalkFunctionDefMarks(f: Expr, st: Frames, pass: int, line: int, file: Option<string>)
    requires f.Lang? && |st| > 0
    ensures Marked(st, WalkFunctionDef(f, st, pass, line, file))
    decreases f, 0
  {
    if |f.args| > 1 {
      var local := [DefineFormals(Formals(f), [], line, file)] + st;
      var s2 := Walk(f.args[1], local, 1, line, file);
      var s3 := Walk(f.args[1], s2, 2, line, file);
      WalkMarks(f.args[1], local, 1, line, file);
      WalkMarks(f.args[1], s2, 2, line, file);
      MarkedTail(s2, s3);
      assert local[1..] == st;
      MarkedTrans(st, s2[1..], s3[1..]);
    }
  }

  /** A file of the build: its destination (`dst`) and what R's parser made of it, NULL when reading or parsing failed. */
  datatype Source = Source(dst: Option<string>, parsed: Option<seq<Expr>>)

  /** The top-level expressions of one file, walked in order; the i-th (from 0) gets line number i + 1. */
  function WalkTop(exprs: seq<Expr>, st: Frames, pass: int, file: Option<string>): (r: Frames)
    requires |st| > 0
    ensures |r| == |st|
    decreases |exprs|
  {
    if exprs == [] then st
    else Walk(exprs[|exprs| - 1], WalkTop(exprs[..|exprs| - 1], st, pass, file), pass, |exprs|, file)
  }

  /** One pass over the files: a file without destination or without a parse is skipped. */
  function PassFiles(st: Frames, files: seq<Source>, pass: int): (r: Frames)
    requires |st| > 0
    ensures |r| == |st|
    decreases |files|
  {
    if files == [] then st
    else
      var before := PassFiles(st, files[..|files| - 1], pass);
      var f := files[|files| - 1];
      if f.dst.None? || f.parsed.None? then before
      else WalkTop(f.parsed.value, before, pass, f.dst)
  }

  /** The global environment's bindings after pass 1 and then pass 2 over the files. */
  function Analysed(files: seq<Source>): (r: seq<Binding>)
    ensures var first := PassFiles([[]], files, 1)[0];
      |r| == |first| && forall i :: 0 <= i < |r| ==> r[i] == first[i] || r[i] == first[i].(isUsed := 1)
  {
    var first := PassFiles([[]], files, 1);
    PassFilesMarks(first, files, 2);
    PassFiles(first, files, 2)[0]
  }

  /** A binding the analysis reports: never used, and not an excluded name. */
  predicate Reported(b: Binding) {
    b.isUsed == 0 && !IsExcludedName(Some(b.name))
  }

  /** How many bindings of a list are reported. */
  function UnusedCount(bs: seq<Binding>): (r: nat)
    ensures r <= |bs|
    decreases |bs|
  {
    if bs == [] then 0
    else UnusedCount(bs[..|bs| - 1]) + (if Reported(bs[|bs| - 1]) then 1 else 0)
  }

  lemma {:induction false} WalkTopMarks(exprs: seq<Expr>, st: Frames, pass: int, file: Option<string>)
    requires |st| > 0 && pass != 1
    ensures Marked(st, WalkTop(exprs, st, pass, file))
    decreases |exprs|
  {
    if exprs != [] {
      var st1 := WalkTop(exprs[..|exprs| - 1], st, pass, file);
      WalkTopMarks(exprs[..|exprs| - 1], st, pass, file);
      WalkMarks(exprs[|exprs| - 1], st1, pass, |exprs|, file);
      MarkedTrans(st, st1, WalkTop(exprs, st, pass, file));
    }
  }

  /** Outside pass 1 no binding is added or changed, only marked used. */
  lemma {:induction false} PassFilesMarks(st: Frames, files: seq<Source>, pass: int)
    requires |st| > 0 && pass != 1
    ensures Marked(st, PassFiles(st, files, pass))
    decreases |files|
  {
    if files != [] {
      var before := PassFiles(st, files[..|files| - 1], pass);
      PassFilesMarks(st, files[..|files| - 1], pass);
      var f := files[|files| - 1];
      if f.dst.Some? && f.parsed.Some? {
        WalkTopMarks(f.parsed.value, before, pass, f.dst);
        MarkedTrans(st, before, PassFiles(st, files, pass));
      }
    }
  }

  /** Marking uses never raises the count. */
  lemma {:induction false} MarkedCount(a: seq<Binding>, b: seq<Binding>)
    requires Marked([a], [b])
    ensures UnusedCount(b) <= UnusedCount(a)
    decreases |a|
  {
    if a != [] {
      assert Marked([a[..|a| - 1]], [b[..|b| - 1]]) by {
        assert forall i :: 0 <= i < |a| - 1 ==> [a][0][i] == a[i] && [b][0][i] == b[i];
      }
      MarkedCount(a[..|a| - 1], b[..|b| - 1]);
      assert [a][0][|a| - 1] == a[|a| - 1];
    }
  }

  /**
   * Pass 2 defines nothing: the global bindings it leaves are those pass 1
   * made, same names, kinds and lines, in the same order, and the count
   * can only have dropped.
   */
  lemma PassTwoOnlyMarks(files: seq<Source>)
    ensures var first := PassFiles([[]], files, 1);
      Marked(first, PassFiles(first, files, 2)) && UnusedCount(Analysed(files)) <= UnusedCount(first[0])
  {
    var first := PassFiles([[]], files, 1);
    PassFilesMarks(first, files, 2);
    var second := PassFiles(first, files, 2);
    assert Marked([first[0]], [second[0]]) by {
      assert [first[0]] == first && [second[0]] == second;
    }
    MarkedCount(first[0], second[0]);
  }

  /** Pass 1 binds the target of `name <- function(...) ...` in the innermost environment as a function. */
  lemma FunctionAssignDefines(name: string, f: Expr, st: Frames, line: int, file: Option<string>)
    requires |st| > 0 && IsFunctionDef(f)
    ensures var r := Walk(Lang(Sym("<-"), [Sym(name), f]), st, 1, line, file);
      LocalBinding(r[0], name).Some? && LocalBinding(r[0], name).value.isFunction == 1
      && LocalBinding(r[0], name).value.line == line
  {
    var st1 := Define(st, name, 1, line, file);
    var r := Walk(Lang(Sym("<-"), [Sym(name), f]), st, 1, line, file);
    assert IsAssignment(Sym("<-"));
    assert r == WalkFunctionDef(f, st1, 1, line, file);
    DefineFinds(st[0], name, 1, line, file);
    WalkFunctionDefMarks(f, st1, 1, line, file);
    FindLocalSameNames(st1[0], r[0], name);
  }

  /** Pass 2 marks a bound symbol it meets. */
  lemma UseMarks(name: string, st: Frames, line: int, file: Option<string>)
    requires Visible(st, name).Some?
    ensures Visible(Walk(Sym(name), st, 2, line, file), name) == Some(Visible(st, name).value.(isUsed := 1))
  {
    MarkUsedVisible(st, name);
  }

  /** `x <- 1` followed by `y <- x`: `x` is used, `y` is not, so one binding is reported. */
  lemma OneUnused(files: seq<Source>)
    requires files == [Source(Some("a.R"), Some([Lang(Sym("<-"), [Sym("x"), Other]), Lang(Sym("<-"), [Sym("y"), Sym("x")])]))]
    ensures UnusedCount(Analysed(files)) == 1
  {
    var file := Some("a.R");
    var x1 := Binding("x", 0, 0, 1, file);
    var y2 := Binding("y", 0, 0, 2, file);
    OneUnusedDefines(files, x1, y2);
    OneUnusedMarks(files, x1, y2);
    var xUsed := x1.(isUsed := 1);
    assert Analysed(files) == [y2, xUsed];
    assert !IsExcludedName(Some("y")) && !IsExcludedName(Some("x"));
    assert [y2, xUsed][..1] == [y2] && [y2][..0] == [];
    assert UnusedCount([y2]) == 1;
  }

  /** Pass 1 of the example defines `x` on line 1, then `y` on line 2 in front of it. */
  lemma OneUnusedDefines(files: seq<Source>, x1: Binding, y2: Binding)
    requires files == [Source(Some("a.R"), Some([Lang(Sym("<-"), [Sym("x"), Other]), Lang(Sym("<-"), [Sym("y"), Sym("x")])]))]
    requires x1 == Binding("x", 0, 0, 1, Some("a.R")) && y2 == Binding("y", 0, 0, 2, Some("a.R"))
    ensures PassFiles([[]], files, 1) == [[y2, x1]]
  {
    var e1 := Lang(Sym("<-"), [Sym("x"), Other]);
    var e2 := Lang(Sym("<-"), [Sym("y"), Sym("x")]);
    var file := Some("a.R");
    assert IsAssignment(Sym("<-"));
    assert FindLocal([], "x").None?;
    assert DefineIn([], "x", 0, 1, file) == [x1] + [] == [x1];
    assert Define([[]], "x", 0, 1, file) == [[x1]];
    assert Walk(e1, [[]], 1, 1, file) == Walk(Other, [[x1]], 1, 1, file) == [[x1]];
    assert FindLocal([x1], "y").None?;
    assert DefineIn([x1], "y", 0, 2, file) == [y2] + [x1] == [y2, x1];
    assert Define([[x1]], "y", 0, 2, file) == [[y2, x1]];
    assert Walk(e2, [[x1]], 1, 2, file) == Walk(Sym("x"), [[y2, x1]], 1, 2, file) == [[y2, x1]];
    var exprs := [e1, e2];
    assert exprs[..1] == [e1] && exprs[..1][..0] == [];
    assert WalkTop(exprs[..1], [[]], 1, file) == Walk(e1, [[]], 1, 1, file);
    assert WalkTop(exprs, [[]], 1, file) == [[y2, x1]];
    assert files[..0] == [];
  }

  /** Pass 2 of the example marks `x`, read on line 2, as used. */
  lemma OneUnusedMarks(files: seq<Source>, x1: Binding, y2: Binding)
    requires files == [Source(Some("a.R"), Some([Lang(Sym("<-"), [Sym("x"), Other]), Lang(Sym("<-"), [Sym("y"), Sym("x")])]))]
    requires x1 == Binding("x", 0, 0, 1, Some("a.R")) && y2 == Binding("y", 0, 0, 2, Some("a.R"))
    ensures PassFiles([[y2, x1]], files, 2) == [[y2, x1.(isUsed := 1)]]
  {
    var e1 := Lang(Sym("<-"), [Sym("x"), Other]);
    var e2 := Lang(Sym("<-"), [Sym("y"), Sym("x")]);
    var file := Some("a.R");
    var xUsed := x1.(isUsed := 1);
    assert IsAssignment(Sym("<-"));
    assert Walk(e1, [[y2, x1]], 2, 1, file) == Walk(Other, [[y2, x1]], 2, 1, file) == [[y2, x1]];
    assert FindLocal([y2, x1], "x") == Some(1);
    assert FindBinding([[y2, x1]], "x") == Some((0, 1));
    assert [y2, x1][1 := xUsed] == [y2, xUsed];
    assert MarkUsed([[y2, x1]], "x") == [[y2, x1]][0 := [y2, xUsed]] == [[y2, xUsed]];
    assert Walk(e2, [[y2, x1]], 2, 2, file) == Walk(Sym("x"), [[y2, x1]], 2, 2, file) == [[y2, xUsed]];
    var exprs := [e1, e2];
    assert exprs[..1] == [e1] && exprs[..1][..0] == [];
    assert WalkTop(exprs[..1], [[y2, x1]], 2, file) == Walk(e1, [[y2, x1]], 2, 1, file);
    assert WalkTop(exprs, [[y2, x1]], 2, file) == [[y2, xUsed]];
    assert files[..0] == [];
  }
}
