/**
 * The definition table of src/define.c: two parallel arrays `name`/`value` with a
 * `size` and a `capacity`, grown by a fixed step of 8 with `realloc`, and the
 * parser for `#define NAME [VALUE]` lines.
 *
 * Two generations of the header exist: src/define.h declares the three-argument
 * `push(arr, name, value)` that src/define.c implements, and include/define.h the
 * four-argument `push(arr, name, value, type)` that src/unique.c calls. The model
 * keeps a third parallel array `kind` whose entries are `None` for the
 * three-argument push and `Some(kind)` for the four-argument one.
 */
module Define {
  import opened Wrappers
  import opened Strings

  /** `DefineType` of include/define.h. */
  datatype DefineType = DefVariable | DefFunction

  /** One row across the parallel arrays. */
  datatype Entry = Entry(name: string, value: Option<string>, kind: Option<DefineType>)

  /** Capacity of a new table, and the amount each growth adds. */
  const InitialCapacity: nat := 8
  const GrowthStep: nat := 8

  /**
   * `realloc(a, n)`: a fresh array of length `n` whose first `min(a.Length, n)`
   * elements are those of `a`; the rest hold `pad`.
   */
  method Realloc<T>(a: array<T>, n: nat, pad: T) returns (b: array<T>)
    ensures fresh(b) && b.Length == n
    ensures forall i :: 0 <= i < n && i < a.Length ==> b[i] == a[i]
  {
    b := new T[n](_ => pad);
    var i := 0;
    while i < n
      invariant 0 <= i <= n
      invariant forall j :: 0 <= j < i && j < a.Length ==> b[j] == a[j]
    {
      b[i] := if i < a.Length then a[i] else pad;
      i := i + 1;
    }
  }

  class DefineTable {
    var name: array<string>
    var value: array<Option<string>>
    var kind: array<Option<DefineType>>
    var size: nat
    var capacity: nat

    /** The rows of the table, in insertion order. */
    ghost var entries: seq<Entry>

    /**
     * The first `capacity` slots of every array exist; the first `size` are
     * filled and hold `entries`.
     */
    ghost predicate Valid()
      reads this, name, value, kind
    {
      && size <= capacity && capacity <= name.Length && capacity <= value.Length && capacity <= kind.Length
      && |entries| == size
      && forall i :: 0 <= i < size ==> entries[i] == Entry(name[i], value[i], kind[i])
    }

    /** The rows of the table, in insertion order. */
    ghost function Entries(): (es: seq<Entry>)
      reads this
      requires |entries| == size
      ensures |es| == size
    {
      entries
    }

    /** `create_define`: size 0, capacity 8. */
    constructor ()
      ensures Valid() && fresh(name) && fresh(value) && fresh(kind)
      ensures size == 0 && capacity == InitialCapacity && Entries() == []
    {
      capacity := InitialCapacity;
      size := 0;
      name := new string[InitialCapacity];
      value := new Option<string>[InitialCapacity];
      kind := new Option<DefineType>[InitialCapacity];
      entries := [];
    }

    /**
     * `push`: when the table is full the capacity grows by exactly `GrowthStep`
     * (not geometrically); `nameRealloc` and `valueRealloc` say whether the two
     * `realloc` calls succeed. On a failed `realloc` the capacity is restored and
     * nothing is appended; otherwise the entry goes to index `size`, `size` grows
     * by one and the earlier entries stay as they were. Names are not checked for
     * duplicates.
     */
    method Push(n: string, v: Option<string>, k: Option<DefineType>, nameRealloc: bool, valueRealloc: bool)
      requires Valid()
      modifies this, name, value, kind
      ensures Valid()
      ensures old(size) < old(capacity) ==> capacity == old(capacity)
      ensures old(size) == old(capacity) && nameRealloc && valueRealloc ==>
                capacity == old(capacity) + GrowthStep
      ensures old(size) == old(capacity) && !(nameRealloc && valueRealloc) ==>
                capacity == old(capacity) && size == old(size) && Entries() == old(Entries())
      ensures old(size) < old(capacity) || (nameRealloc && valueRealloc) ==>
                size == old(size) + 1 && Entries() == old(Entries()) + [Entry(n, v, k)]
      ensures (name == old(name) || fresh(name)) && (value == old(value) || fresh(value))
      ensures kind == old(kind) || fresh(kind)
    {
      if size == capacity {
        var grown := Grow(nameRealloc, valueRealloc);
        if !grown {
          return;
        }
      }
      Append(n, v, k);
    }

    /** Lines 34-50 of `push`: the capacity grows by 8, or is restored on a failed `realloc`. */
    method Grow(nameRealloc: bool, valueRealloc: bool) returns (ok: bool)
      requires Valid() && size == capacity
      modifies this
      ensures Valid() && size == old(size) && Entries() == old(Entries())
      ensures ok == (nameRealloc && valueRealloc)
      ensures ok ==> capacity == old(capacity) + GrowthStep
      ensures !ok ==> capacity == old(capacity)
      ensures (name == old(name) || fresh(name)) && (value == old(value) || fresh(value))
      ensures kind == old(kind) || fresh(kind)
    {
      capacity := capacity + GrowthStep;
      if !nameRealloc {
        capacity := capacity - GrowthStep;
        return false;
      }
      name := Realloc(name, capacity, "");
      if !valueRealloc {
        capacity := capacity - GrowthStep;
        return false;
      }
      value := Realloc(value, capacity, None);
      kind := Realloc(kind, capacity, None);
      return true;
    }

    /** Lines 52-54 of `push`: the entry goes to index `size`. */
    method Append(n: string, v: Option<string>, k: Option<DefineType>)
      requires Valid() && size < capacity
      modifies this, name, value, kind
      ensures Valid() && capacity == old(capacity) && size == old(size) + 1
      ensures Entries() == old(Entries()) + [Entry(n, v, k)]
      ensures name == old(name) && value == old(value) && kind == old(kind)
    {
      name[size] := n;
      value[size] := v;
      kind[size] := k;
      size := size + 1;
      entries := entries + [Entry(n, v, k)];
    }

    /** `get_define_value`: the value of the first row named `n`, if it has one. */
    function Lookup(n: string): (r: Option<string>)
      reads this, name, value, kind
      requires Valid()
      ensures (forall i :: 0 <= i < size ==> name[i] != n) ==> r.None?
      ensures forall i :: 0 <= i < size && name[i] == n && (forall k :: 0 <= k < i ==> name[k] != n) ==> r == value[i]
    {
      LookupFrom(n, 0)
    }

    function LookupFrom(n: string, i: nat): (r: Option<string>)
      reads this, name, value, kind
      requires Valid() && i <= size
      ensures (forall j :: i <= j < size ==> name[j] != n) ==> r.None?
      ensures forall j :: i <= j < size && name[j] == n && (forall k :: i <= k < j ==> name[k] != n) ==> r == value[j]
      decreases size - i
    {
      if i == size then None
      else if name[i] == n then value[i]
      else LookupFrom(n, i + 1)
    }

    /**
     * `define`: a `#define NAME [VALUE]` line pushes `(NAME, VALUE)` with no kind;
     * any other line leaves the table alone.
     */
    method DefineLine(line: string, nameRealloc: bool, valueRealloc: bool)
      requires Valid()
      modifies this, name, value, kind
      ensures Valid()
      ensures ParseDefine(line).None? ==> size == old(size) && capacity == old(capacity) && Entries() == old(Entries())
      ensures ParseDefine(line).Some? && (old(size) < old(capacity) || (nameRealloc && valueRealloc)) ==>
                size == old(size) + 1 && Entries() == old(Entries()) + [ParseDefine(line).value]
      ensures ParseDefine(line).Some? && old(size) < old(capacity) ==> capacity == old(capacity)
      ensures ParseDefine(line).Some? && old(size) == old(capacity) && nameRealloc && valueRealloc ==>
                capacity == old(capacity) + GrowthStep
      ensures ParseDefine(line).Some? && old(size) == old(capacity) && !(nameRealloc && valueRealloc) ==>
                size == old(size) && capacity == old(capacity) && Entries() == old(Entries())
      ensures (name == old(name) || fresh(name)) && (value == old(value) || fresh(value))
      ensures kind == old(kind) || fresh(kind)
    {
      var parsed := ParseDefine(line);
      if parsed.None? {
        return;
      }
      Push(parsed.value.name, parsed.value.value, parsed.value.kind, nameRealloc, valueRealloc);
    }
  }

  /**
   * The row a `#define` line contributes: the line must start with `#define`; it is
   * cut at `' '` only, as `strtok` does, the second token is the name and the third,
   * if any, the value; later tokens are dropped.
   */
  function ParseDefine(line: string): (r: Option<Entry>)
    ensures !IsPrefix("#define", line) ==> r.None?
    ensures r.Some? ==> |r.value.name| > 0 && ' ' !in r.value.name && r.value.kind.None?
    ensures r.Some? && r.value.value.Some? ==> |r.value.value.value| > 0 && ' ' !in r.value.value.value
  {
    if !IsPrefix("#define", line) then None
    else
      var toks := Tokens(line, ' ');
      if |toks| < 2 then None
      else Some(Entry(toks[1], if |toks| >= 3 then Some(toks[2]) else None, None))
  }

  /** A name and a value written after `#define`, single-space separated, are read back. */
  lemma DefineRoundTrip(n: string, v: string)
    requires |n| > 0 && ' ' !in n && |v| > 0 && ' ' !in v
    ensures ParseDefine("#define" + [' '] + (n + [' '] + v)) == Some(Entry(n, Some(v), None))
  {
    TokensOfWord(n);
    TokensOfWord(v);
    TokensAppend(n, v, ' ');
    var mid := n + [' '] + v;
    assert Tokens(mid, ' ') == [n] + ([v] + []);
    DefineFromTokens(mid, n, Some(v), []);
  }

  /** Tokens after the value are dropped. */
  lemma DefineDropsExtraTokens(n: string, v: string, rest: string)
    requires |n| > 0 && ' ' !in n && |v| > 0 && ' ' !in v
    ensures ParseDefine("#define" + [' '] + (n + [' '] + (v + [' '] + rest))) == Some(Entry(n, Some(v), None))
  {
    TokensOfWord(n);
    TokensOfWord(v);
    var tail := v + [' '] + rest;
    TokensAppend(v, rest, ' ');
    TokensAppend(n, tail, ' ');
    var mid := n + [' '] + tail;
    assert Tokens(mid, ' ') == [n] + ([v] + Tokens(rest, ' '));
    DefineFromTokens(mid, n, Some(v), Tokens(rest, ' '));
  }

  /** A `#define` with a name and nothing else defines the name with no value. */
  lemma DefineWithoutValue(n: string)
    requires |n| > 0 && ' ' !in n
    ensures ParseDefine("#define" + [' '] + n) == Some(Entry(n, None, None))
  {
    TokensOfWord(n);
    assert Tokens(n, ' ') == [n] + [];
    DefineFromTokens(n, n, None, []);
  }

  /** `#define` followed by nothing but blanks defines nothing. */
  lemma DefineWithoutName(blanks: string)
    requires forall c :: c in blanks ==> c == ' '
    ensures ParseDefine("#define" + blanks).None?
  {
    if blanks != [] {
      assert blanks[0] in blanks;
      assert forall c :: c in blanks[1..] ==> c in blanks;
      TokensOfBlanks(blanks[1..]);
      TokensAfterWord("#define", blanks[1..]);
      assert "#define" + blanks == "#define" + [' '] + blanks[1..];
    } else {
      TokensOfWord("#define");
      assert "#define" + blanks == "#define";
    }
  }

  /** `ParseDefine` of `#define` and a space before text whose tokens start with a name. */
  lemma DefineFromTokens(mid: string, n: string, v: Option<string>, more: seq<string>)
    requires v.None? ==> Tokens(mid, ' ') == [n] + more && more == []
    requires v.Some? ==> Tokens(mid, ' ') == [n] + ([v.value] + more)
    ensures ParseDefine("#define" + [' '] + mid) == Some(Entry(n, v, None))
  {
    var s := "#define" + [' '] + mid;
    DefineLineTokens(s, mid);
    var toks := ["#define"] + Tokens(mid, ' ');
    assert toks[1] == n && (v.Some? ==> |toks| >= 3 && toks[2] == v.value) && (v.None? ==> |toks| == 2);
  }

  /** A line of `#define`, a space and `mid` has `#define` as its first token, then those of `mid`. */
  lemma DefineLineTokens(s: string, mid: string)
    requires s == "#define" + [' '] + mid
    ensures IsPrefix("#define", s) && Tokens(s, ' ') == ["#define"] + Tokens(mid, ' ')
  {
    assert ' ' !in "#define";
    TokensAfterWord("#define", mid);
    assert s[..7] == "#define";
  }

  /** The tokens of a word, a space and more text. */
  lemma TokensAfterWord(w: string, mid: string)
    requires |w| > 0 && ' ' !in w
    ensures Tokens(w + [' '] + mid, ' ') == [w] + Tokens(mid, ' ')
  {
    TokensOfWord(w);
    TokensAppend(w, mid, ' ');
  }

  lemma {:induction false} TokensOfBlanks(s: string)
    requires forall c :: c in s ==> c == ' '
    ensures Tokens(s, ' ') == []
    decreases |s|
  {
    if s != [] {
      assert s[0] in s;
      assert forall c :: c in s[1..] ==> c in s;
      TokensOfBlanks(s[1..]);
    }
  }

  lemma TokensOfWord(w: string)
    requires |w| > 0 && ' ' !in w
    ensures Tokens(w, ' ') == [w]
  {
    RunLengthWord(w);
    assert w[0] in w;
    assert w[..|w|] == w;
    assert w[|w|..] == [];
  }

  lemma {:induction false} RunLengthWord(w: string)
    requires ' ' !in w
    ensures RunLength(w, ' ') == |w|
    decreases |w|
  {
    if w != [] {
      assert w[0] in w;
      assert forall c :: c in w[1..] ==> c in w;
      RunLengthWord(w[1..]);
    }
  }
}
