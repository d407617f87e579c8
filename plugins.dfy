/**
 * Plugins (src/plugins.c): each plugin named in the configuration is
 * instantiated in R and then set up; the list records, per name and in order,
 * whether both steps succeeded. The two R evaluations are oracles: for the
 * `i`-th name, `instantiated[i]` says whether `` `name`=name() `` evaluated and
 * `setUp[i]` whether `` `name`$setup() `` did.
 */
module Plugins {
  /** A `Plugins` node of include/plugins.h, without its `next` link. */
  datatype Plugin = Plugin(name: string, setup: int)

  /** `push_plugins`: the list with a new node for `name` at its tail. */
  function PushPlugins(head: seq<Plugin>, name: string, setup: int): (r: seq<Plugin>)
    ensures |r| == |head| + 1 && r[..|head|] == head
    ensures r[|head|] == Plugin(name, setup)
  {
    head + [Plugin(name, setup)]
  }

  /** The setup flag of the `i`-th plugin: 1 only when both evaluations succeed. */
  function SetupFlag(instantiated: bool, setUp: bool): (r: int)
    ensures r == 0 || r == 1
    ensures r == 1 <==> instantiated && setUp
  {
    if !instantiated then 0 else if !setUp then 0 else 1
  }

  /** The list `plugins_init` builds for the first `n` names. */
  function Initialized(names: seq<string>, instantiated: seq<bool>, setUp: seq<bool>, n: nat): (r: seq<Plugin>)
    requires n <= |names| == |instantiated| == |setUp|
    decreases n
  {
    if n == 0 then []
    else PushPlugins(Initialized(names, instantiated, setUp, n - 1), names[n - 1],
                     SetupFlag(instantiated[n - 1], setUp[n - 1]))
  }

  /** `plugins_init`: the loop of lines 49-90 over the configured names. */
  method PluginsInit(names: seq<string>, instantiated: seq<bool>, setUp: seq<bool>) returns (head: seq<Plugin>)
    requires |names| == |instantiated| == |setUp|
    ensures head == Initialized(names, instantiated, setUp, |names|)
  {
    head := [];
    var i := 0;
    while i < |names|
      invariant i <= |names|
      invariant head == Initialized(names, instantiated, setUp, i)
    {
      if !instantiated[i] {
        head := PushPlugins(head, names[i], 0);
        i := i + 1;
        continue;
      }
      if !setUp[i] {
        head := PushPlugins(head, names[i], 0);
        i := i + 1;
        continue;
      }
      head := PushPlugins(head, names[i], 1);
      i := i + 1;
    }
  }

  /** One entry per name, in the order of the names, set up exactly when both evaluations succeeded. */
  lemma {:induction false} InitializedEntries(names: seq<string>, instantiated: seq<bool>, setUp: seq<bool>, n: nat)
    requires n <= |names| == |instantiated| == |setUp|
    ensures |Initialized(names, instantiated, setUp, n)| == n
    ensures forall i :: 0 <= i < n ==> Initialized(names, instantiated, setUp, n)[i].name == names[i]
    ensures forall i :: 0 <= i < n ==>
      Initialized(names, instantiated, setUp, n)[i].setup == SetupFlag(instantiated[i], setUp[i])
    decreases n
  {
    if n > 0 {
      InitializedEntries(names, instantiated, setUp, n - 1);
    }
  }

  /** Some plugin failed to set up. */
  predicate Failed(head: seq<Plugin>) {
    exists i :: 0 <= i < |head| && head[i].setup == 0
  }

  /** `plugins_failed`: the read-only walk of lines 97-104. */
  method PluginsFailed(head: seq<Plugin>) returns (r: int)
    ensures r == 0 || r == 1
    ensures r == 1 <==> Failed(head)
  {
    var i := 0;
    while i < |head|
      invariant i <= |head|
      invariant forall k :: 0 <= k < i ==> head[k].setup != 0
    {
      if head[i].setup == 0 {
        return 1;
      }
      i := i + 1;
    }
    return 0;
  }

  /** After initialisation, the build reports a failure exactly when some plugin's evaluation failed. */
  lemma InitFailed(names: seq<string>, instantiated: seq<bool>, setUp: seq<bool>)
    requires |names| == |instantiated| == |setUp|
    ensures Failed(Initialized(names, instantiated, setUp, |names|))
      <==> exists i :: 0 <= i < |names| && !(instantiated[i] && setUp[i])
  {
    InitializedEntries(names, instantiated, setUp, |names|);
    FailedWhere(Initialized(names, instantiated, setUp, |names|), instantiated, setUp);
  }

  lemma FailedWhere(head: seq<Plugin>, instantiated: seq<bool>, setUp: seq<bool>)
    requires |head| == |instantiated| == |setUp|
    requires forall i :: 0 <= i < |head| ==> head[i].setup == SetupFlag(instantiated[i], setUp[i])
    ensures Failed(head) <==> exists i :: 0 <= i < |head| && !(instantiated[i] && setUp[i])
  {
    if exists i :: 0 <= i < |head| && !(instantiated[i] && setUp[i]) {
      var i :| 0 <= i < |head| && !(instantiated[i] && setUp[i]);
      assert head[i].setup == 0;
    }
  }
}
