/**
 * `#include:` directives (src/include.c): the text after the marker holds up
 * to three space-separated fields, the function, the path and the object.
 */
module Include {
  import opened Wrappers
  import opened Strings
  import opened Define

  /** The `Include` struct of include/include.h; NULL fields are `None`. */
  datatype Include = Include(func: Option<string>, path: Option<string>, obj: Option<string>)

  const Marker := "#include:"

  /** The `i`-th token, or NULL when there are fewer. */
  function Nth(toks: seq<string>, i: nat): (r: Option<string>)
    ensures r.Some? <==> i < |toks|
    ensures r.Some? ==> r.value == toks[i]
  {
    if i < |toks| then Some(toks[i]) else None
  }

  /** The struct filled from the tokens read so far, in the order function, path, object. */
  function Fields(toks: seq<string>): Include {
    Include(Nth(toks, 0), Nth(toks, 1), Nth(toks, 2))
  }

  /**
   * `parse_include`: no marker, all fields NULL; otherwise the first three
   * tokens of what follows it, cut at `' '` as `strtok` does.
   */
  function ParseInclude(line: string): (r: Include)
    ensures !Contains(line, Marker) ==> r == Include(None, None, None)
    ensures r.path.Some? ==> r.func.Some?
    ensures r.obj.Some? ==> r.path.Some?
    ensures r.func.Some? ==> |r.func.value| > 0 && ' ' !in r.func.value
  {
    match IndexOf(line, Marker)
    case None => Include(None, None, None)
    case Some(k) => Fields(Tokens(line[k + |Marker|..], ' '))
  }

  /** The token loop of lines 30-42: a `part` counter picks the field each token fills. */
  method ParseIncludeLine(line: string) returns (result: Include)
    ensures result == ParseInclude(line)
  {
    result := Include(None, None, None);
    var start := IndexOf(line, Marker);
    if start.None? {
      return;
    }
    var toks := Tokens(line[start.value + |Marker|..], ' ');
    var part := 0;
    while part < |toks| && part < 3
      invariant part <= |toks| && part <= 3
      invariant result == Fields(toks[..part])
    {
      var token := toks[part];
      if part == 0 {
        result := result.(func := Some(token));
      } else if part == 1 {
        result := result.(path := Some(token));
      } else {
        result := result.(obj := Some(token));
      }
      part := part + 1;
    }
    assert Fields(toks[..part]) == Fields(toks);
  }

  /**
   * `include_replace`: the same line when there is no function field or the
   * function has no definition; NULL (an unfinished stub) when it has one.
   */
  function IncludeReplace(defs: DefineTable, line: string): (r: Option<string>)
    reads defs, defs.name, defs.value, defs.kind
    requires defs.Valid()
    ensures r.Some? ==> r.value == line
    ensures r.None? <==> ParseInclude(line).func.Some? && defs.Lookup(ParseInclude(line).func.value).Some?
  {
    var inc := ParseInclude(line);
    if inc.func.None? then Some(line)
    else if defs.Lookup(inc.func.value).None? then Some(line)
    else None
  }

  /** After a text without `:`, the fields are those of the tokens after the marker. */
  lemma IncludeOf(pre: string, after: string)
    requires ':' !in pre
    ensures ParseInclude(pre + Marker + after) == Fields(Tokens(after, ' '))
  {
    MarkerAt(pre, after);
    assert (pre + Marker + after)[|pre| + |Marker|..] == after;
  }

  /** Three fields after the marker fill function, path and object; whatever follows is ignored. */
  lemma IncludeFields(pre: string, f: string, p: string, o: string, rest: string)
    requires ':' !in pre
    requires |f| > 0 && ' ' !in f && |p| > 0 && ' ' !in p && |o| > 0 && ' ' !in o
    ensures ParseInclude(pre + Marker + " " + f + " " + p + " " + o + " " + rest)
      == Include(Some(f), Some(p), Some(o))
  {
    var after := " " + f + " " + p + " " + o + " " + rest;
    assert pre + Marker + " " + f + " " + p + " " + o + " " + rest == pre + Marker + after;
    IncludeOf(pre, after);
    ThreeTokens(f, p, o, rest);
    assert Fields([f, p, o] + Tokens(rest, ' ')) == Include(Some(f), Some(p), Some(o));
  }

  lemma ThreeTokens(f: string, p: string, o: string, rest: string)
    requires |f| > 0 && ' ' !in f && |p| > 0 && ' ' !in p && |o| > 0 && ' ' !in o
    ensures Tokens(" " + f + " " + p + " " + o + " " + rest, ' ') == [f, p, o] + Tokens(rest, ' ')
  {
    var t3 := o + [' '] + rest;
    var t2 := p + [' '] + t3;
    var t1 := f + [' '] + t2;
    calc {
      Tokens(" " + f + " " + p + " " + o + " " + rest, ' ');
      { assert " " + f + " " + p + " " + o + " " + rest == [' '] + t1; }
      Tokens([' '] + t1, ' ');
      { TokensAfterBlank(t1); }
      Tokens(t1, ' ');
      { TokensAfterWord(f, t2); }
      [f] + Tokens(t2, ' ');
      { TokensAfterWord(p, t3); }
      [f] + ([p] + Tokens(t3, ' '));
      { TokensAfterWord(o, rest); }
      [f] + ([p] + ([o] + Tokens(rest, ' ')));
      [f, p, o] + Tokens(rest, ' ');
    }
  }

  /** `strtok` skips a leading delimiter. */
  lemma TokensAfterBlank(t: string)
    ensures Tokens([' '] + t, ' ') == Tokens(t, ' ')
  {
    assert ([' '] + t)[1..] == t;
  }

  /** A single field, its path left out: the later fields stay NULL. */
  lemma FunctionOnly(pre: string, f: string)
    requires ':' !in pre && |f| > 0 && ' ' !in f
    ensures ParseInclude(pre + Marker + " " + f) == Include(Some(f), None, None)
  {
    assert pre + Marker + " " + f == pre + Marker + ([' '] + f);
    IncludeOf(pre, [' '] + f);
    TokensAfterBlank(f);
    TokensOfWord(f);
  }

  /** The first marker is the one after a text without `:`. */
  lemma MarkerAt(pre: string, after: string)
    requires ':' !in pre
    ensures IndexOf(pre + Marker + after, Marker) == Some(|pre|)
  {
    assert Marker[|Marker| - 1] == ':';
    assert ':' !in Marker[..|Marker| - 1];
    FirstAfter(pre, Marker, after);
  }
}
