/**
 * The environments of the dead-code analysis (src/deadcode.c) as objects:
 * each `Environment` owns a list of bindings that `env_define` and
 * `env_mark_used` update in place, and points to its parent. Every method is
 * proved against the value model of module `DeadcodeSpec`.
 */
module Deadcode {
  import opened Wrappers
  import opened DeadcodeSpec

  /** The binding lists of some environments, in order. */
  ghost function FramesOf(envs: seq<Environment>): (r: Frames)
    reads envs
    ensures |r| == |envs|
    ensures forall i :: 0 <= i < |envs| ==> r[i] == envs[i].bindings
  {
    if envs == [] then [] else [envs[0].bindings] + FramesOf(envs[1..])
  }

  /** The `Environment` struct of include/deadcode.h. */
  class Environment {
    var bindings: seq<Binding>
    const parent: Environment?
    const isGlobal: int
    /** The parent, its parent, and so on up to the global environment. */
    ghost const ancestors: seq<Environment>

    /** The parent chain is finite, without cycles, and each ancestor is itself valid. */
    ghost predicate Valid()
      decreases |ancestors|
    {
      this !in ancestors &&
      (parent == null ==> ancestors == []) &&
      (parent != null ==> ancestors == [parent] + parent.ancestors && parent.Valid())
    }

    /** This environment followed by its ancestors. */
    ghost function Chain(): seq<Environment> {
      [this] + ancestors
    }

    /** The binding lists visible from here, innermost first. */
    ghost function Stack(): Frames
      reads this, ancestors
    {
      [bindings] + FramesOf(ancestors)
    }

    /** `env_create`: no bindings, global exactly when there is no parent. */
    constructor (parent: Environment?)
      requires parent != null ==> parent.Valid()
      ensures Valid() && bindings == [] && this.parent == parent
      ensures isGlobal == (if parent == null then 1 else 0)
      ensures ancestors == (if parent == null then [] else [parent] + parent.ancestors)
    {
      bindings := [];
      this.parent := parent;
      isGlobal := if parent == null then 1 else 0;
      ancestors := if parent == null then [] else [parent] + parent.ancestors;
    }
  }

  /** Every environment along a valid chain is valid, and its own chain is the rest of this one. */
  lemma {:induction false} ChainSuffixes(env: Environment)
    requires env.Valid()
    ensures forall i :: 0 <= i < |env.Chain()| ==> env.Chain()[i].Valid() && env.Chain()[i].Chain() == env.Chain()[i..]
    decreases |env.ancestors|
  {
    var c := env.Chain();
    if env.parent != null {
      ChainSuffixes(env.parent);
      var pc := env.parent.Chain();
      assert c == [env] + pc;
      forall i | 1 <= i < |c|
        ensures c[i].Valid() && c[i].Chain() == c[i..]
      {
        assert c[i] == pc[i - 1] && c[i..] == pc[i - 1..];
      }
    }
  }

  /** Along a valid chain each environment's parent is the next one, and the last has none. */
  lemma {:induction false} ChainParents(env: Environment)
    requires env.Valid()
    ensures forall i :: 0 <= i < |env.Chain()| - 1 ==> env.Chain()[i].parent == env.Chain()[i + 1]
    ensures env.Chain()[|env.Chain()| - 1].parent == null
    decreases |env.ancestors|
  {
    var c := env.Chain();
    if env.parent != null {
      ChainParents(env.parent);
      var pc := env.parent.Chain();
      assert c == [env] + pc;
      assert forall i :: 1 <= i < |c| ==> c[i] == pc[i - 1];
    }
  }

  /** No environment occurs twice along a valid chain. */
  lemma {:induction false} ChainDistinct(env: Environment)
    requires env.Valid()
    ensures forall i, j :: 0 <= i < j < |env.Chain()| ==> env.Chain()[i] != env.Chain()[j]
    decreases |env.ancestors|
  {
    var c := env.Chain();
    if env.parent != null {
      ChainDistinct(env.parent);
      var pc := env.parent.Chain();
      assert c == [env] + pc;
      assert env !in pc;
      forall i, j | 0 <= i < j < |c|
        ensures c[i] != c[j]
      {
        if i > 0 {
          assert c[i] == pc[i - 1] && c[j] == pc[j - 1];
        } else {
          assert c[j] == pc[j - 1];
        }
      }
    }
  }

  /** `find_binding_local`: the list walked from its head (the newest binding). */
  method FindBindingLocal(env: Environment?, name: string) returns (r: Option<nat>)
    ensures env == null ==> r.None?
    ensures env != null ==> r == FindLocal(env.bindings, name)
  {
    if env == null {
      return None;
    }
    var i := 0;
    while i < |env.bindings|
      invariant i <= |env.bindings|
      invariant forall j :: 0 <= j < i ==> env.bindings[j].name != name
    {
      if env.bindings[i].name == name {
        return Some(i);
      }
      i := i + 1;
    }
    return None;
  }

  /**
   * `find_binding`: the environments searched from this one outwards; the
   * result is the environment owning the binding and its place in the list.
   */
  method FindBinding(env: Environment, name: string) returns (owner: Environment?, i: nat)
    requires env.Valid()
    ensures DeadcodeSpec.FindBinding(env.Stack(), name).None? ==> owner == null
    ensures DeadcodeSpec.FindBinding(env.Stack(), name).Some? ==>
      owner == env.Chain()[DeadcodeSpec.FindBinding(env.Stack(), name).value.0] && i == DeadcodeSpec.FindBinding(env.Stack(), name).value.1
  {
    ghost var st := env.Stack();
    owner, i := SearchChain(env, name, st);
    assert env.Stack() == st;
  }

  /** The frame at each position of the stack belongs to the environment at that position of the chain. */
  lemma FramesOfChain(env: Environment, st: Frames)
    requires st == env.Stack()
    ensures |st| == |env.Chain()|
    ensures forall j :: 0 <= j < |st| ==> st[j] == env.Chain()[j].bindings
  {
    assert env.Chain() == [env] + env.ancestors;
    assert forall j :: 1 <= j < |st| ==> st[j] == FramesOf(env.ancestors)[j - 1];
  }

  /** The loop of `find_binding` over the frames `st` visible from `env`. */
  method SearchChain(env: Environment, name: string, ghost st: Frames) returns (owner: Environment?, i: nat)
    requires env.Valid() && st == env.Stack()
    ensures DeadcodeSpec.FindBinding(st, name).None? ==> owner == null
    ensures DeadcodeSpec.FindBinding(st, name).Some? ==>
      owner == env.Chain()[DeadcodeSpec.FindBinding(st, name).value.0] && i == DeadcodeSpec.FindBinding(st, name).value.1
  {
    ChainParents(env);
    ghost var c := env.Chain();
    var cur: Environment? := env;
    ghost var k := 0;
    FramesOfChain(env, st);
    while cur != null
      invariant k <= |c| == |st|
      invariant cur == (if k < |c| then c[k] else null)
      invariant forall j :: 0 <= j < k ==> FindLocal(st[j], name).None?
      decreases |c| - k
    {
      var found := FindBindingLocal(cur, name);
      assert st[k] == cur.bindings;
      if found.Some? {
        InnermostAt(st, name, k);
        return cur, found.value;
      }
      cur := cur.parent;
      k := k + 1;
    }
    assert k == |st|;
    NowhereBound(st, name);
    return null, 0;
  }

  /**
   * `env_define`: nothing for a NULL environment or name; otherwise an
   * existing local binding takes the new kind and line, or a fresh unused
   * binding is put in front.
   */
  method EnvDefine(env: Environment?, name: Option<string>, isFunc: int, line: int, file: Option<string>)
    modifies env
    ensures env != null && name.Some? ==> env.bindings == DefineIn(old(env.bindings), name.value, isFunc, line, file)
    ensures env != null && name.None? ==> env.bindings == old(env.bindings)
  {
    if env == null || name.None? {
      return;
    }
    var existing := FindBindingLocal(env, name.value);
    if existing.Some? {
      var i := existing.value;
      env.bindings := env.bindings[i := env.bindings[i].(isFunction := isFunc, line := line)];
      return;
    }
    env.bindings := [Binding(name.value, isFunc, 0, line, file)] + env.bindings;
  }

  /** The frames of a chain are its first environment's bindings and then the rest's. */
  lemma StackOfChild(child: Environment, env: Environment)
    requires child.ancestors == [env] + env.ancestors
    ensures child.Stack() == [child.bindings] + env.Stack()
  {
    assert FramesOf([env] + env.ancestors) == [env.bindings] + FramesOf(env.ancestors);
  }

  /** `env_mark_used`: the binding `find_binding` returns, if any, gets `is_used = 1`. */
  method EnvMarkUsed(env: Environment, name: string)
    requires env.Valid()
    modifies env, env.ancestors
    ensures env.Stack() == MarkUsed(old(env.Stack()), name)
  {
    ghost var st := env.Stack();
    var owner, i := FindBinding(env, name);
    if owner != null {
      ghost var k := DeadcodeSpec.FindBinding(st, name).value.0;
      MarkUsedAt(st, name, k, i);
      ChainOwner(env, k);
      assert owner.bindings == st[k];
      MarkBinding(env, owner, i, k);
    }
  }

  /** The binding `i` of the environment `k` along the chain gets `is_used = 1`. */
  method MarkBinding(env: Environment, owner: Environment, i: nat, ghost k: nat)
    requires env.Valid() && k < |env.Chain()| && owner == env.Chain()[k] && i < |owner.bindings|
    modifies owner
    ensures env.Stack() == old(env.Stack())[k := old(owner.bindings)[i := old(owner.bindings)[i].(isUsed := 1)]]
  {
    ghost var st := env.Stack();
    ghost var c := env.Chain();
    ChainOthers(env, k);
    assert st[k] == owner.bindings;
    owner.bindings := owner.bindings[i := owner.bindings[i].(isUsed := 1)];
    ghost var now := env.Stack();
    assert forall j :: 0 <= j < |c| ==> now[j] == c[j].bindings;
    FrameReplaced(now, st, k, owner.bindings);
  }

  /** Along a valid chain, every other environment differs from the one at `k`. */
  lemma ChainOthers(env: Environment, k: nat)
    requires env.Valid() && k < |env.Chain()|
    ensures forall j :: 0 <= j < |env.Chain()| && j != k ==> env.Chain()[j] != env.Chain()[k]
  {
    ChainDistinct(env);
    var c := env.Chain();
    forall j | 0 <= j < |c| && j != k
      ensures c[j] != c[k]
    {
      if j < k {
        assert c[j] != c[k];
      } else {
        assert c[k] != c[j];
      }
    }
  }

  /** Where `find_binding` finds the name, marking touches that binding alone. */
  lemma MarkUsedAt(st: Frames, name: string, k: nat, i: nat)
    requires DeadcodeSpec.FindBinding(st, name) == Some((k, i))
    ensures k < |st| && i < |st[k]|
    ensures MarkUsed(st, name) == st[k := st[k][i := st[k][i].(isUsed := 1)]]
  {
  }

  /** The environment at `k` along the chain is `env` or one of its ancestors, and owns frame `k`. */
  lemma ChainOwner(env: Environment, k: nat)
    requires k < |env.Chain()|
    ensures env.Chain()[k] == env || env.Chain()[k] in env.ancestors
    ensures env.Stack()[k] == env.Chain()[k].bindings
  {
    if k > 0 {
      assert env.Chain()[k] == env.ancestors[k - 1];
    }
  }

  /** Frames equal to `st` except at `k`, where they hold `row`. */
  lemma FrameReplaced(now: Frames, st: Frames, k: nat, row: seq<Binding>)
    requires |now| == |st| && k < |st| && now[k] == row
    requires forall j :: 0 <= j < |st| && j != k ==> now[j] == st[j]
    ensures now == st[k := row]
  {
  }

  /** `walk_expr`, proved to compute `Walk` on the frames visible from `env`. */
  method WalkExpr(e: Expr, env: Environment, pass: int, line: int, file: Option<string>)
    requires env.Valid()
    modifies env, env.ancestors
    ensures env.Stack() == Walk(e, old(env.Stack()), pass, line, file)
    decreases e, 1
  {
    match e
    case Nil =>
    case Other =>
    case Sym(n) =>
      if pass == 2 {
        EnvMarkUsed(env, n);
      }
    case Lang(head, args) =>
      if IsAssignment(head) {
        WalkAssignment(e, env, pass, line, file);
      } else if IsFunctionHead(head) {
        WalkFunctionDef(e, env, pass, line, file);
      } else {
        WalkExpr(head, env, pass, line, file);
        WalkArgs(e, args, env, pass, line, file);
      }
    case Pairlist(items) =>
      WalkItems(e, items, env, pass, line, file);
    case Vector(elems) =>
      WalkArgs(e, elems, env, pass, line, file);
  }

  /**
   * The assignment branch of `walk_expr`: to a symbol, pass 1 defines it (as a
   * function when the right side is `function(...)`) before the right side is
   * walked; otherwise both sides are walked.
   */
  method WalkAssignment(e: Expr, env: Environment, pass: int, line: int, file: Option<string>)
    requires env.Valid() && e.Lang? && IsAssignment(e.head)
    modifies env, env.ancestors
    ensures env.Stack() == Walk(e, old(env.Stack()), pass, line, file)
    decreases e, 0
  {
    ghost var st := env.Stack();
    var args := e.args;
    if |args| > 0 && args[0].Sym? {
      var isFunc := if |args| > 1 && IsFunctionDef(args[1]) then 1 else 0;
      if pass == 1 {
        EnvDefine(env, Some(args[0].name), isFunc, line, file);
        assert env.Stack() == Define(st, args[0].name, isFunc, line, file);
      }
      ghost var st1 := env.Stack();
      if |args| > 1 {
        if isFunc == 1 {
          assert Walk(e, st, pass, line, file) == DeadcodeSpec.WalkFunctionDef(args[1], st1, pass, line, file);
          WalkFunctionDef(args[1], env, pass, line, file);
        } else {
          WalkExpr(args[1], env, pass, line, file);
        }
      }
    } else {
      if |args| > 0 {
        WalkExpr(args[0], env, pass, line, file);
      }
      if |args| > 1 {
        WalkExpr(args[1], env, pass, line, file);
      }
    }
  }

  /** The loop over the arguments of a call, or over the elements of a vector, of `parent`. */
  method WalkArgs(ghost parent: Expr, es: seq<Expr>, env: Environment, pass: int, line: int, file: Option<string>)
    requires env.Valid()
    requires (parent.Lang? && es == parent.args) || (parent.Vector? && es == parent.elems)
    modifies env, env.ancestors
    ensures env.Stack() == WalkAll(es, old(env.Stack()), pass, line, file)
    decreases parent, 0
  {
    ghost var st := env.Stack();
    var i := 0;
    while i < |es|
      invariant i <= |es|
      invariant env.Stack() == WalkAll(es[..i], st, pass, line, file)
    {
      assert es[..i + 1][..i] == es[..i];
      WalkExpr(es[i], env, pass, line, file);
      i := i + 1;
    }
    assert es[..i] == es;
  }

  /** The loop over the cells of the pairlist `parent`. */
  method WalkItems(ghost parent: Expr, items: seq<Tagged>, env: Environment, pass: int, line: int, file: Option<string>)
    requires env.Valid()
    requires parent.Pairlist? && items == parent.items
    modifies env, env.ancestors
    ensures env.Stack() == WalkPairs(items, old(env.Stack()), pass, line, file)
    decreases parent, 0
  {
    ghost var st := env.Stack();
    var i := 0;
    while i < |items|
      invariant i <= |items|
      invariant env.Stack() == WalkPairs(items[..i], st, pass, line, file)
    {
      assert items[i] in items;
      ghost var before := env.Stack();
      WalkExpr(items[i].value, env, pass, line, file);
      WalkPairsStep(items, i, st, before, pass, line, file);
      i := i + 1;
    }
    assert items[..i] == items;
  }

  /** One more cell of a pairlist walked after the cells before it. */
  lemma WalkPairsStep(items: seq<Tagged>, i: nat, st: Frames, before: Frames, pass: int, line: int, file: Option<string>)
    requires i < |items| && |st| > 0 && before == WalkPairs(items[..i], st, pass, line, file)
    ensures WalkPairs(items[..i + 1], st, pass, line, file) == Walk(items[i].value, before, pass, line, file)
  {
    assert items[..i + 1][..i] == items[..i];
  }

  /**
   * `walk_function_def`: a child environment gets the formals, the body is
   * walked in it with pass 1 and then pass 2, and the child is dropped.
   */
  method WalkFunctionDef(f: Expr, env: Environment, pass: int, line: int, file: Option<string>)
    requires f.Lang? && env.Valid()
    modifies env, env.ancestors
    ensures env.Stack() == DeadcodeSpec.WalkFunctionDef(f, old(env.Stack()), pass, line, file)
    decreases f, 0
  {
    ghost var st := env.Stack();
    var funcEnv := new Environment(env);
    var formals := if |f.args| > 0 && f.args[0].Pairlist? then f.args[0].items else [];
    DefineFormalsIn(funcEnv, formals, line, file);
    StackOfChild(funcEnv, env);
    assert env.Stack() == st;
    if |f.args| > 1 {
      ghost var local := funcEnv.Stack();
      assert local == [DefineFormals(DeadcodeSpec.Formals(f), [], line, file)] + st;
      WalkExpr(f.args[1], funcEnv, 1, line, file);
      WalkExpr(f.args[1], funcEnv, 2, line, file);
      ghost var second := funcEnv.Stack();
      assert second == Walk(f.args[1], Walk(f.args[1], local, 1, line, file), 2, line, file);
      StackOfChild(funcEnv, env);
      DropChildFrame(second, funcEnv.bindings, env.Stack());
    }
  }

  /** Leaving a function's environment: the stack without its first frame. */
  lemma DropChildFrame(whole: Frames, top: seq<Binding>, rest: Frames)
    requires whole == [top] + rest
    ensures whole[1..] == rest
  {
  }

  /** Each tagged formal of a function definition is defined, in order, in its new environment. */
  method DefineFormalsIn(funcEnv: Environment, formals: seq<Tagged>, line: int, file: Option<string>)
    requires funcEnv.bindings == []
    modifies funcEnv
    ensures funcEnv.bindings == DefineFormals(formals, [], line, file)
  {
    var i := 0;
    while i < |formals|
      invariant i <= |formals|
      invariant funcEnv.bindings == DefineFormals(formals[..i], [], line, file)
    {
      assert formals[..i + 1][..i] == formals[..i];
      if formals[i].tag.Some? {
        EnvDefine(funcEnv, formals[i].tag, 0, line, file);
      }
      i := i + 1;
    }
    assert formals[..i] == formals;
  }

  /**
   * One pass of `analyse_deadcode` (lines 305-336, and again 338-367): each
   * file with a destination and a parse has its top-level expressions walked
   * in the global environment, the i-th (from 0) with line number i + 1.
   */
  method WalkFiles(global: Environment, files: seq<Source>, pass: int)
    requires global.Valid() && global.ancestors == []
    modifies global
    ensures global.Stack() == PassFiles(old(global.Stack()), files, pass)
  {
    ghost var st := global.Stack();
    var n := 0;
    while n < |files|
      invariant n <= |files|
      invariant global.Stack() == PassFiles(st, files[..n], pass)
    {
      assert files[..n + 1][..n] == files[..n];
      var current := files[n];
      if current.dst.Some? && current.parsed.Some? {
        var exprs := current.parsed.value;
        ghost var before := global.Stack();
        var i := 0;
        while i < |exprs|
          invariant i <= |exprs|
          invariant global.Stack() == WalkTop(exprs[..i], before, pass, current.dst)
        {
          assert exprs[..i + 1][..i] == exprs[..i];
          WalkExpr(exprs[i], global, pass, i + 1, current.dst);
          i := i + 1;
        }
        assert exprs[..i] == exprs;
      }
      n := n + 1;
    }
    assert files[..n] == files;
  }

  /**
   * `analyse_deadcode`: both passes over the files in a new global
   * environment, then the global bindings counted that are neither used nor
   * excluded. The count is what the function reports; it returns 0.
   */
  method AnalyseDeadcode(files: seq<Source>) returns (status: int, unused: nat)
    ensures status == 0
    ensures unused == UnusedCount(Analysed(files))
  {
    var global := new Environment(null);
    assert global.Stack() == [[]];
    WalkFiles(global, files, 1);
    WalkFiles(global, files, 2);
    assert global.Stack() == [global.bindings];
    var bs := global.bindings;
    unused := 0;
    var i := 0;
    while i < |bs|
      invariant i <= |bs|
      invariant unused == UnusedCount(bs[..i])
    {
      assert bs[..i + 1][..i] == bs[..i];
      if bs[i].isUsed == 0 && !IsExcludedName(Some(bs[i].name)) {
        unused := unused + 1;
      }
      i := i + 1;
    }
    assert bs[..i] == bs;
    status := 0;
  }
}
