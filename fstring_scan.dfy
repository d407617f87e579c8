/**
 * The pieces both f-string dialects share (src/fstring.c and
 * Rpkg/inst/builder_src/fstring.c): the escape-aware search for the closing quote,
 * the brace scan that collects `{name}` spans as argument names, the format string
 * with every `{name}` turned into `%s`, and the `, name` argument list.
 */
module FstringScan {
  import opened Wrappers
  import opened Strings

  // ------------------------------------------------------------ closing quote

  /** The number of backslashes directly before index `i`. */
  function BackslashRun(s: string, i: nat): (k: nat)
    requires i <= |s|
    ensures k <= i
  {
    if i == 0 || s[i - 1] != '\\' then 0 else BackslashRun(s, i - 1) + 1
  }

  /** Index `j` does not hold a `q` that closes: it holds another character, or an escaped `q`. */
  predicate NotClosingAt(s: string, q: char, j: nat)
    requires j < |s|
  {
    s[j] == q ==> BackslashRun(s, j) % 2 == 1
  }

  /**
   * The first `q` in `s` that no backslash escapes, a backslash escaping the
   * character after it (so `\\` is an escaped backslash): a quote is escaped
   * exactly when an odd run of backslashes stands before it.
   */
  function ClosingQuote(s: string, q: char): (r: Option<nat>)
    ensures r.Some? ==> r.value < |s| && s[r.value] == q && BackslashRun(s, r.value) % 2 == 0
    ensures forall j :: 0 <= j < |s| && (r.None? || j < r.value) ==> NotClosingAt(s, q, j)
  {
    ClosingQuoteFrom(s, q, 0)
  }

  function ClosingQuoteFrom(s: string, q: char, i: nat): (r: Option<nat>)
    requires i <= |s|
    ensures r.Some? ==> i <= r.value < |s| && s[r.value] == q && BackslashRun(s, r.value) % 2 == 0
    ensures forall j :: i <= j < |s| && (r.None? || j < r.value) ==> NotClosingAt(s, q, j)
    decreases |s| - i
  {
    if i == |s| then None
    else if s[i] == q && BackslashRun(s, i) % 2 == 0 then Some(i)
    else ClosingQuoteFrom(s, q, i + 1)
  }

  /**
   * `find_closing_quote`: walks the text with an `escaped` flag, skipping the
   * character after every unescaped backslash, and stops at the first `q` it meets
   * unescaped.
   */
  method FindClosingQuote(s: string, q: char) returns (r: Option<nat>)
    requires q != '\\'
    ensures r == ClosingQuote(s, q)
  {
    var i := 0;
    var escaped := false;
    while i < |s|
      invariant i <= |s|
      invariant escaped == (BackslashRun(s, i) % 2 == 1)
      invariant ClosingQuoteFrom(s, q, i) == ClosingQuoteFrom(s, q, 0)
    {
      if escaped {
        escaped := false;
        i := i + 1;
        continue;
      }
      if s[i] == '\\' {
        escaped := true;
        i := i + 1;
        continue;
      }
      if s[i] == q {
        return Some(i);
      }
      i := i + 1;
    }
    return None;
  }

  /** Without backslashes the closing quote is simply the first `q`. */
  lemma {:induction false} ClosingQuotePlain(s: string, q: char, i: nat)
    requires i <= |s| && '\\' !in s
    ensures ClosingQuoteFrom(s, q, i).Some? <==> q in s[i..]
    ensures ClosingQuoteFrom(s, q, i).Some? ==> q !in s[i..ClosingQuoteFrom(s, q, i).value]
    decreases |s| - i
  {
    if i < |s| {
      if i > 0 {
        assert s[i - 1] in s;
      }
      assert s[i..] == [s[i]] + s[i + 1..];
      if s[i] != q {
        ClosingQuotePlain(s, q, i + 1);
        var r := ClosingQuoteFrom(s, q, i + 1);
        if r.Some? {
          assert s[i..r.value] == [s[i]] + s[i + 1..r.value];
        }
      }
    }
  }

  /** A quote behind a single backslash is skipped and the search goes on after it. */
  lemma EscapedQuoteSkipped(s: string, q: char)
    requires q != '\\'
    ensures ClosingQuote(s, q).None? ==> ClosingQuote(['\\', q] + s, q).None?
    ensures ClosingQuote(s, q).Some? ==> ClosingQuote(['\\', q] + s, q) == Some(ClosingQuote(s, q).value + 2)
  {
    var t := ['\\', q] + s;
    assert BackslashRun(t, 1) == 1;
    assert ClosingQuoteFrom(t, q, 0) == ClosingQuoteFrom(t, q, 1) == ClosingQuoteFrom(t, q, 2);
    ClosingQuoteShift(s, q, 0);
  }

  lemma {:induction false} ClosingQuoteShift(s: string, q: char, i: nat)
    requires q != '\\' && i <= |s|
    ensures ClosingQuoteFrom(s, q, i).None? ==> ClosingQuoteFrom(['\\', q] + s, q, i + 2).None?
    ensures ClosingQuoteFrom(s, q, i).Some? ==>
              ClosingQuoteFrom(['\\', q] + s, q, i + 2) == Some(ClosingQuoteFrom(s, q, i).value + 2)
    decreases |s| - i
  {
    var t := ['\\', q] + s;
    if i < |s| {
      assert t[i + 2] == s[i];
      BackslashRunShift(s, q, i);
      ClosingQuoteShift(s, q, i + 1);
      if s[i] == q && BackslashRun(s, i) % 2 == 0 {
        assert ClosingQuoteFrom(t, q, i + 2) == Some(i + 2);
      } else {
        assert ClosingQuoteFrom(t, q, i + 2) == ClosingQuoteFrom(t, q, i + 3);
      }
    } else {
      assert |t| == i + 2;
    }
  }

  lemma {:induction false} BackslashRunShift(s: string, q: char, i: nat)
    requires q != '\\' && i <= |s|
    ensures BackslashRun(['\\', q] + s, i + 2) == BackslashRun(s, i)
    decreases i
  {
    var t := ['\\', q] + s;
    if i > 0 {
      assert t[i + 1] == s[i - 1];
      if s[i - 1] == '\\' {
        BackslashRunShift(s, q, i - 1);
      }
    }
  }

  /** The closing quote of a text is the closing quote of every prefix that reaches it. */
  lemma ClosingQuoteKept(s: string, q: char, k: nat)
    requires ClosingQuote(s, q) == Some(k)
    ensures ClosingQuote(s[..k + 1], q) == Some(k)
  {
    var t := s[..k + 1];
    forall j | 0 <= j <= k
      ensures BackslashRun(t, j) == BackslashRun(s, j)
    {
      BackslashRunPrefix(s, k + 1, j);
    }
    ClosingQuoteKeptFrom(s, q, k, 0);
  }

  lemma {:induction false} ClosingQuoteKeptFrom(s: string, q: char, k: nat, i: nat)
    requires ClosingQuote(s, q) == Some(k) && i <= k
    requires forall j | 0 <= j <= k :: BackslashRun(s[..k + 1], j) == BackslashRun(s, j)
    ensures ClosingQuoteFrom(s[..k + 1], q, i) == Some(k)
    decreases k - i
  {
    if i < k {
      assert NotClosingAt(s, q, i);
      ClosingQuoteKeptFrom(s, q, k, i + 1);
    }
  }

  lemma {:induction false} BackslashRunPrefix(s: string, m: nat, j: nat)
    requires j <= m <= |s|
    ensures BackslashRun(s[..m], j) == BackslashRun(s, j)
    decreases j
  {
    if j > 0 {
      BackslashRunPrefix(s, m, j - 1);
    }
  }

  // ---------------------------------------------------------------- brace scan

  /**
   * The state of the brace scan: the brace depth (it may go below zero), the
   * characters collected since the last name, and the names so far.
   */
  datatype BraceState = BraceState(depth: int, buffer: string, names: seq<string>)

  const BraceStart := BraceState(0, [], [])

  /** One character of the brace scan. */
  function BraceStep(st: BraceState, c: char): (r: BraceState)
    ensures c == '{' ==> r == st.(depth := st.depth + 1)
    ensures c == '}' && st.depth == 1 ==> r == BraceState(0, [], st.names + [st.buffer])
    ensures c == '}' && st.depth != 1 ==> r == st.(depth := st.depth - 1)
    ensures c != '{' && c != '}' && st.depth > 0 ==> r == st.(buffer := st.buffer + [c])
    ensures c != '{' && c != '}' && st.depth <= 0 ==> r == st
  {
    if c == '{' then st.(depth := st.depth + 1)
    else
      var buffer := if st.depth > 0 && c != '}' then st.buffer + [c] else st.buffer;
      if c == '}' then
        if st.depth - 1 == 0 then BraceState(0, [], st.names + [buffer])
        else BraceState(st.depth - 1, buffer, st.names)
      else BraceState(st.depth, buffer, st.names)
  }

  /** The brace scan run over `s` from state `st`. */
  function BraceScan(st: BraceState, s: string): BraceState
  {
    if s == [] then st else BraceStep(BraceScan(st, s[..|s| - 1]), s[|s| - 1])
  }

  /** The argument names of a format string: every completed outermost brace span. */
  function BraceNames(s: string): seq<string>
  {
    BraceScan(BraceStart, s).names
  }

  /**
   * The brace scan of lines 132-153 of src/fstring.c (125-146 of the other dialect),
   * each completed name appended to the list as `push_fstring` does.
   */
  method CollectBraceNames(content: string) returns (names: seq<string>)
    ensures names == BraceNames(content)
  {
    var depth := 0;
    var buffer := "";
    names := [];
    var i := 0;
    while i < |content|
      invariant i <= |content|
      invariant BraceState(depth, buffer, names) == BraceScan(BraceStart, content[..i])
    {
      assert content[..i + 1][..i] == content[..i];
      if content[i] == '{' {
        depth := depth + 1;
        i := i + 1;
        continue;
      }
      if depth > 0 && content[i] != '}' {
        buffer := buffer + [content[i]];
      }
      if content[i] == '}' {
        depth := depth - 1;
        if depth == 0 {
          names := names + [buffer];
          buffer := "";
          i := i + 1;
          continue;
        }
      }
      i := i + 1;
    }
    assert content[..i] == content;
  }

  /** Scanning a concatenation is scanning one part after the other. */
  lemma {:induction false} BraceScanAppend(st: BraceState, a: string, b: string)
    ensures BraceScan(st, a + b) == BraceScan(BraceScan(st, a), b)
    decreases |b|
  {
    if b == [] {
      assert a + b == a;
    } else {
      assert (a + b)[..|a + b| - 1] == a + b[..|b| - 1];
      BraceScanAppend(st, a, b[..|b| - 1]);
    }
  }

  /** The names found so far only ever get later names appended. */
  lemma {:induction false} BraceScanNames(d: int, buffer: string, acc: seq<string>, s: string)
    ensures BraceScan(BraceState(d, buffer, acc), s) ==
            var r := BraceScan(BraceState(d, buffer, []), s); r.(names := acc + r.names)
    decreases |s|
  {
    if s != [] {
      BraceScanNames(d, buffer, acc, s[..|s| - 1]);
    }
  }

  /** Outside any brace, text without braces changes nothing. */
  lemma {:induction false} BraceScanPlain(st: BraceState, s: string)
    requires st.depth <= 0 && '{' !in s && '}' !in s
    ensures BraceScan(st, s) == st
    decreases |s|
  {
    if s != [] {
      assert s[|s| - 1] in s;
      assert forall c :: c in s[..|s| - 1] ==> c in s;
      BraceScanPlain(st, s[..|s| - 1]);
    }
  }

  /** Inside a brace, text without braces is collected into the buffer. */
  lemma {:induction false} BraceScanInside(st: BraceState, s: string)
    requires st.depth > 0 && '{' !in s && '}' !in s
    ensures BraceScan(st, s) == st.(buffer := st.buffer + s)
    decreases |s|
  {
    if s == [] {
      assert st.buffer + s == st.buffer;
    } else {
      assert s[|s| - 1] in s;
      assert forall c :: c in s[..|s| - 1] ==> c in s;
      BraceScanInside(st, s[..|s| - 1]);
      assert st.buffer + s[..|s| - 1] + [s[|s| - 1]] == st.buffer + s;
    }
  }

  /** A format string without `{` has no argument names. */
  lemma NoBraceNoNames(s: string)
    requires '{' !in s
    ensures BraceNames(s) == []
  {
    NoOpenBraceScan(BraceStart, s);
  }

  lemma {:induction false} NoOpenBraceScan(st: BraceState, s: string)
    requires st.depth == 0 && st.buffer == [] && st.names == [] && '{' !in s
    ensures BraceScan(st, s).depth <= 0 && BraceScan(st, s).names == []
    decreases |s|
  {
    if s != [] {
      assert s[|s| - 1] in s;
      assert forall c :: c in s[..|s| - 1] ==> c in s;
      NoOpenBraceScan(st, s[..|s| - 1]);
    }
  }

  /**
   * A `{name}` span with brace-free text around it contributes `name`, in order
   * before the names of whatever follows.
   */
  lemma BraceNamesSpan(a: string, n: string, b: string)
    requires '{' !in a && '}' !in a && '{' !in n && '}' !in n
    ensures BraceNames(a + "{" + n + "}" + b) == [n] + BraceNames(b)
  {
    var st1 := BraceScan(BraceStart, a);
    BraceScanPlain(BraceStart, a);
    BraceScanAppend(BraceStart, a, "{");
    var st2 := BraceState(1, [], []);
    assert BraceScan(BraceStart, a + "{") == st2 by {
      assert BraceScan(st1, "{") == BraceStep(BraceScan(st1, []), '{');
    }
    BraceScanAppend(BraceStart, a + "{", n);
    BraceScanInside(st2, n);
    assert [] + n == n;
    var st3 := BraceState(1, n, []);
    BraceScanAppend(BraceStart, a + "{" + n, "}");
    assert BraceScan(st3, "}") == BraceStep(BraceScan(st3, []), '}');
    var st4 := BraceState(0, [], [n]);
    assert BraceScan(BraceStart, a + "{" + n + "}") == st4;
    BraceScanAppend(BraceStart, a + "{" + n + "}", b);
    BraceScanNames(0, [], [n], b);
  }

  /**
   * A stray `}` sends the depth below zero, so the next `{name}` only brings it
   * back to zero and is not collected.
   */
  lemma StrayCloseBraceHidesNext(n: string)
    requires '{' !in n && '}' !in n
    ensures BraceNames("}{" + n + "}") == []
  {
    var st1 := BraceState(-1, [], []);
    assert BraceScan(BraceStart, "}{") == BraceState(0, [], []) by {
      assert "}{"[..1] == "}";
      assert BraceScan(BraceStart, "}") == BraceStep(BraceScan(BraceStart, []), '}');
    }
    BraceScanAppend(BraceStart, "}{", n);
    BraceScanPlain(BraceState(0, [], []), n);
    BraceScanAppend(BraceStart, "}{" + n, "}");
    assert BraceScan(BraceState(0, [], []), "}") == BraceStep(BraceScan(BraceState(0, [], []), []), '}');
  }

  /** Collected names never hold a brace. */
  lemma {:induction false} BraceNamesBraceFree(st: BraceState, s: string)
    requires '{' !in st.buffer && '}' !in st.buffer
    requires forall x :: x in st.names ==> '{' !in x && '}' !in x
    ensures var r := BraceScan(st, s);
            '{' !in r.buffer && '}' !in r.buffer && forall x :: x in r.names ==> '{' !in x && '}' !in x
    decreases |s|
  {
    if s != [] {
      BraceNamesBraceFree(st, s[..|s| - 1]);
    }
  }

  // ------------------------------------------------------------ format and args

  /** The `{name}` text a name is written as in the format string. */
  function Placeholder(name: string): (r: string)
    ensures |r| == |name| + 2 && r[0] == '{' && r[|r| - 1] == '}'
  {
    "{" + name + "}"
  }

  /** The format string: `{name}` replaced by `%s` for each name in turn. */
  function Template(content: string, names: seq<string>): string
  {
    if names == [] then content
    else StrReplace(Template(content, names[..|names| - 1]), Placeholder(names[|names| - 1]), "%s")
  }

  /** The argument list: `, name` for each name, in order. */
  function ArgList(names: seq<string>): string
  {
    if names == [] then [] else ArgList(names[..|names| - 1]) + ", " + names[|names| - 1]
  }

  /** Replacing one name after the other (lines 155-170 of src/fstring.c). */
  method BuildTemplate(content: string, names: seq<string>) returns (r: string)
    ensures r == Template(content, names)
  {
    r := content;
    var i := 0;
    while i < |names|
      invariant i <= |names|
      invariant r == Template(content, names[..i])
    {
      assert names[..i + 1][..i] == names[..i];
      r := StrReplace(r, Placeholder(names[i]), "%s");
      i := i + 1;
    }
    assert names[..i] == names;
  }

  /** The `strcat` loop into `args_list` (lines 172-179 of src/fstring.c). */
  method BuildArgList(names: seq<string>) returns (r: string)
    ensures r == ArgList(names)
  {
    r := "";
    var i := 0;
    while i < |names|
      invariant i <= |names|
      invariant r == ArgList(names[..i])
    {
      assert names[..i + 1][..i] == names[..i];
      r := r + ", " + names[i];
      i := i + 1;
    }
    assert names[..i] == names;
  }

  /** The argument list of a concatenation of name lists is the concatenation of theirs. */
  lemma {:induction false} ArgListAppend(a: seq<string>, b: seq<string>)
    ensures ArgList(a + b) == ArgList(a) + ArgList(b)
    decreases |b|
  {
    if b == [] {
      assert a + b == a;
    } else {
      assert (a + b)[..|a + b| - 1] == a + b[..|b| - 1];
      ArgListAppend(a, b[..|b| - 1]);
    }
  }

  /** Each name becomes exactly `, name` in the argument list. */
  lemma ArgListSingle(n: string)
    ensures ArgList([n]) == ", " + n
  {
    assert [n][..0] == [];
  }

  /** A single `{name}` in brace-free surroundings becomes `%s`. */
  lemma TemplateSpan(a: string, n: string, b: string)
    requires '{' !in a && '{' !in b
    ensures Template(a + "{" + n + "}" + b, [n]) == a + "%s" + b
  {
    assert [n][..0] == [];
    assert a + "{" + n + "}" + b == a + Placeholder(n) + b;
    NoCharOf(b, Placeholder(n), 0);
    StrReplaceOnce(a, Placeholder(n), "%s", b);
  }

  /** The `sprintf(...)` call a format string is rewritten to. */
  function SprintfCall(content: string): string
  {
    var names := BraceNames(content);
    "sprintf('" + Template(content, names) + "'" + ArgList(names) + ")"
  }

  /** Without braces the content is the format string and there are no arguments. */
  lemma SprintfCallPlain(content: string)
    requires '{' !in content
    ensures SprintfCall(content) == "sprintf('" + content + "')"
  {
    NoBraceNoNames(content);
  }

  /** One `{name}` placeholder gives `%s` in the format and `, name` as the argument. */
  lemma SprintfCallSpan(a: string, n: string, b: string)
    requires '{' !in a && '}' !in a && '{' !in n && '}' !in n && '{' !in b
    ensures SprintfCall(a + "{" + n + "}" + b) == "sprintf('" + a + "%s" + b + "', " + n + ")"
  {
    var c := a + "{" + n + "}" + b;
    BraceNamesSpan(a, n, b);
    NoBraceNoNames(b);
    assert BraceNames(c) == [n];
    TemplateSpan(a, n, b);
    ArgListSingle(n);
    CallText(a, n, b);
  }

  lemma CallText(a: string, n: string, b: string)
    ensures "sprintf('" + (a + "%s" + b) + "'" + (", " + n) + ")" == "sprintf('" + a + "%s" + b + "', " + n + ")"
  {
    assert "'" + ", " == "', ";
  }
}
