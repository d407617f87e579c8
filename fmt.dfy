/**
 * The `..FMT("...")` dialect of string interpolation (Rpkg/inst/builder_src/fstring.c):
 * the first `..FMT(` followed by a quote, the content up to the same quote unescaped,
 * and the one character after that quote are replaced by a
 * `sprintf('FORMAT', name, ...)` call; the result is processed again, at most 33
 * times in all.
 */
module FmtMacro {
  import opened Wrappers
  import opened Strings
  import opened FstringScan
  import opened Rescan

  /** Calls with a depth above this return their input (the recursion bound). */
  const MaxDepth := 32

  const Marker := "..FMT("

  predicate IsQuote(c: char) {
    c == '"' || c == '\''
  }

  /** The suffix the source resumes at: two characters after the closing quote. */
  function SkipOne(rest: string): (r: string)
    ensures rest == [] ==> r == []
    ensures rest != [] ==> rest == [rest[0]] + r
  {
    if rest == [] then [] else rest[1..]
  }

  /**
   * The parts of a line around its first `..FMT(` call: the text before it, the
   * quote character, the content up to the closing quote, and the text from two
   * characters after that quote; nothing when there is no marker, no quote right
   * after it or no closing quote.
   */
  function SplitFmt(s: string): (r: Option<(string, char, string, string)>)
    ensures r.Some? ==> IsQuote(r.value.1)
    ensures !Contains(s, Marker) ==> r.None?
  {
    match IndexOf(s, Marker)
    case None => None
    case Some(k) => SplitAtMarker(s, k)
  }

  /** The split once the marker is found at `k`: a quote must follow it and close again. */
  function SplitAtMarker(s: string, k: nat): (r: Option<(string, char, string, string)>)
    requires k + 6 <= |s|
    ensures r.Some? ==> IsQuote(r.value.1)
  {
    if k + 6 == |s| || !IsQuote(s[k + 6]) then None
    else
      var qc := s[k + 6];
      match ClosingQuote(s[k + 7..], qc)
      case None => None
      case Some(q) => Some((s[..k], qc, s[k + 7..k + 7 + q], SkipOne(s[k + 7 + q + 1..])))
  }

  /**
   * A split puts the line back together: the prefix holds no marker, the content
   * sits between two copies of the opening quote, and the rest resumes one
   * character after the closing quote.
   */
  lemma SplitFmtShape(s: string)
    requires SplitFmt(s).Some?
    ensures var (pre, qc, content, post) := SplitFmt(s).value;
            |pre| + |content| + 8 <= |s| &&
            s == pre + Marker + [qc] + content + [qc] + s[|pre| + |content| + 8..] &&
            post == SkipOne(s[|pre| + |content| + 8..]) &&
            !Contains(pre, Marker) &&
            ClosingQuote(content + [qc], qc) == Some(|content|)
  {
    var k := IndexOf(s, Marker).value;
    SplitFound(s, k);
    var qc := s[k + 6];
    var t := s[k + 7..];
    var q := ClosingQuote(t, qc).value;
    SplitFmtAt(s, k, q);
    BeforeFirst(s, Marker);
    CallLayout(s, k, q);
    ClosingQuoteKept(t, qc, q);
    QuotedContent(s, t, k, q, qc);
  }

  /** A split found at the marker `k` has its opening quote after it and a closing quote. */
  lemma SplitFound(s: string, k: nat)
    requires SplitFmt(s).Some? && IndexOf(s, Marker) == Some(k)
    ensures k + 6 < |s| && IsQuote(s[k + 6]) && ClosingQuote(s[k + 7..], s[k + 6]).Some?
  {
    assert SplitFmt(s) == SplitAtMarker(s, k);
  }

  lemma QuotedContent(s: string, t: string, k: nat, q: nat, qc: char)
    requires k + 7 + q < |s| && t == s[k + 7..] && s[k + 7 + q] == qc
    ensures t[..q + 1] == s[k + 7..k + 7 + q] + [qc]
  {
  }

  /** A line with the marker at `k` and the opening quote repeated at `k + 7 + q`, cut into its pieces. */
  lemma CallLayout(s: string, k: nat, q: nat)
    requires k + 7 + q < |s| && s[k..k + 6] == Marker && s[k + 7 + q] == s[k + 6]
    ensures s == s[..k] + Marker + [s[k + 6]] + s[k + 7..k + 7 + q] + [s[k + 6]] + s[k + 7 + q + 1..]
    ensures s[k + q + 8..] == s[k + 7 + q + 1..]
  {
    assert s == s[..k] + s[k..k + 6] + [s[k + 6]] + s[k + 7..k + 7 + q] + [s[k + 7 + q]] + s[k + 7 + q + 1..];
  }

  /**
   * `fstring_replace(s, n)` of the `..FMT(` dialect: the first call becomes its
   * `sprintf`, always single-quoted, and the whole result is processed again at
   * depth `n + 1`.
   */
  function FmtRewrite(s: string, n: int): (r: string)
    ensures n > MaxDepth || SplitFmt(s).None? ==> r == s
    decreases if n > MaxDepth then 0 else MaxDepth + 1 - n
  {
    if n > MaxDepth then s
    else match SplitFmt(s)
      case None => s
      case Some((pre, qc, content, post)) => FmtRewrite(pre + SprintfCall(content) + post, n + 1)
  }

  /** One pass of this `fstring_replace`: the first call becomes its `sprintf`, if there is one. */
  function FmtOnce(s: string): (r: string)
    ensures SplitFmt(s).None? ==> r == s
  {
    match SplitFmt(s)
    case None => s
    case Some((pre, qc, content, post)) => pre + SprintfCall(content) + post
  }

  /** How many passes a call at depth `n` still allows. */
  function Remaining(n: int): nat
  {
    if n > MaxDepth then 0 else MaxDepth + 1 - n
  }

  /** `s` still holds a complete call for `FmtRewrite` to replace. */
  predicate HasFmt(s: string)
  {
    SplitFmt(s).Some?
  }

  /**
   * Lines 217-221: this `fstring_replace` rescans its own output, so a call at
   * depth `n` is exactly `Remaining(n)` passes, each on the output of the one before.
   */
  lemma {:induction false} FmtRewriteIterates(s: string, n: int)
    ensures FmtRewrite(s, n) == Times(FmtOnce, s, Remaining(n))
    decreases Remaining(n)
  {
    if n > MaxDepth {
    } else if SplitFmt(s).None? {
      TimesOfFixed(FmtOnce, s, Remaining(n));
    } else {
      var t := FmtOnce(s);
      FmtRewriteUnfolds(s, n);
      FmtRewriteIterates(t, n + 1);
    }
  }

  /** One level of the recursion of `FmtRewrite`, and of `Times`, through `FmtOnce`. */
  lemma FmtRewriteUnfolds(s: string, n: int)
    requires n <= MaxDepth && SplitFmt(s).Some?
    ensures FmtRewrite(s, n) == FmtRewrite(FmtOnce(s), n + 1)
    ensures Remaining(n + 1) + 1 == Remaining(n)
    ensures Times(FmtOnce, s, Remaining(n)) == Times(FmtOnce, FmtOnce(s), Remaining(n + 1))
  {
    var (pre, qc, content, post) := SplitFmt(s).value;
    assert FmtOnce(s) == pre + SprintfCall(content) + post;
  }

  /**
   * The recursion stops for one of two reasons only: no complete call is left in
   * the output, or the depth bound was reached with every line along the way,
   * the output included, still holding one.
   */
  lemma FmtFixpointOrBound(s: string, n: int)
    ensures !HasFmt(FmtRewrite(s, n)) || AllHeld(FmtOnce, HasFmt, s, Remaining(n))
  {
    FmtRewriteIterates(s, n);
    FixpointOrBound(FmtOnce, HasFmt, s, Remaining(n));
  }

  /** Lines 87-117: the marker, the quote after it and the closing quote. */
  method LocateFmt(s: string) returns (r: Option<(string, char, string, string)>)
    ensures r == SplitFmt(s)
  {
    var at := IndexOf(s, Marker);
    if at.None? {
      return None;
    }
    var k := at.value;
    if k + 6 == |s| || !IsQuote(s[k + 6]) {
      return None;
    }
    var qc := s[k + 6];
    var quote := FindClosingQuote(s[k + 7..], qc);
    if quote.None? {
      return None;
    }
    var q := quote.value;
    var suffixStart := k + 7 + q + 2;
    var post := if suffixStart <= |s| then s[suffixStart..] else [];
    assert post == SkipOne(s[k + 7 + q + 1..]);
    SplitFmtAt(s, k, q);
    return Some((s[..k], qc, s[k + 7..k + 7 + q], post));
  }

  /** Lines 119-193: names, format string, argument list and the call. */
  method BuildFmtCall(content: string) returns (call: string)
    ensures call == SprintfCall(content)
  {
    var names := CollectBraceNames(content);
    var format;
    if names != [] {
      format := BuildTemplate(content, names);
    } else {
      format := content;
    }
    var args := "";
    if names != [] {
      args := BuildArgList(names);
    }
    call := "sprintf('" + format + "'" + args + ")";
  }

  /** `fstring_replace` of the `..FMT(` dialect, computed with the loops of the source. */
  method FmtReplace(s: string, n: int) returns (r: string)
    ensures r == FmtRewrite(s, n)
    decreases if n > MaxDepth then 0 else MaxDepth + 1 - n
  {
    if n > MaxDepth {
      return s;
    }
    var parts := LocateFmt(s);
    if parts.None? {
      return s;
    }
    var pre, content, post := parts.value.0, parts.value.2, parts.value.3;
    var call := BuildFmtCall(content);
    var result := pre + call + post;
    assert FmtRewrite(s, n) == FmtRewrite(result, n + 1);
    r := FmtReplace(result, n + 1);
  }

  /** The first marker of `pre + Marker + rest` is the one after `pre` when no marker ends inside it. */
  lemma FirstMarker(pre: string, rest: string)
    requires !Contains(pre + "..FMT", Marker)
    ensures IndexOf(pre + Marker + rest, Marker) == Some(|pre|)
  {
    var s := pre + Marker + rest;
    assert s[|pre|..|pre| + 6] == Marker;
    assert OccursAt(s, Marker, |pre|);
    forall j: nat | j < |pre|
      ensures !OccursAt(s, Marker, j)
    {
      assert s[..|pre| + 5] == pre + "..FMT";
      assert !OccursAt(pre + "..FMT", Marker, j);
      if j + 6 <= |s| {
        assert s[j..j + 6] == (pre + "..FMT")[j..j + 6];
      }
    }
  }

  /** A content free of the quote and of backslashes ends at the first quote after it. */
  lemma QuoteAfterPlain(c: string, qc: char, rest: string)
    requires IsQuote(qc) && qc !in c && '\\' !in c
    ensures ClosingQuote(c + [qc] + rest, qc) == Some(|c|)
  {
    QuoteAfterPlainFrom(c, qc, rest, 0);
  }

  lemma {:induction false} QuoteAfterPlainFrom(c: string, qc: char, rest: string, i: nat)
    requires IsQuote(qc) && qc !in c && '\\' !in c && i <= |c|
    ensures ClosingQuoteFrom(c + [qc] + rest, qc, i) == Some(|c|)
    decreases |c| - i
  {
    var s := c + [qc] + rest;
    if i < |c| {
      assert s[i] == c[i] && c[i] in c;
      QuoteAfterPlainFrom(c, qc, rest, i + 1);
    } else {
      assert s[i] == qc;
      if i > 0 {
        assert s[i - 1] == c[i - 1] && c[i - 1] in c;
      }
      assert BackslashRun(s, i) == 0;
    }
  }

  /** The split of a call whose content has neither the quote nor a backslash. */
  lemma SplitFmtPlain(pre: string, qc: char, c: string, rest: string)
    requires !Contains(pre + "..FMT", Marker) && IsQuote(qc) && qc !in c && '\\' !in c
    ensures SplitFmt(pre + Marker + [qc] + c + [qc] + rest) == Some((pre, qc, c, SkipOne(rest)))
  {
    var after := [qc] + c + [qc] + rest;
    var s := pre + Marker + after;
    assert s == pre + Marker + [qc] + c + [qc] + rest;
    FirstMarker(pre, after);
    QuoteAfterPlain(c, qc, rest);
    SplitFmtOfPieces(s, pre, qc, c, rest);
  }

  /** The split of `pre ..FMT( q c q rest` when the marker and the closing quote are the ones shown. */
  lemma SplitFmtOfPieces(s: string, pre: string, qc: char, c: string, rest: string)
    requires s == pre + Marker + ([qc] + c + [qc] + rest) && IsQuote(qc)
    requires IndexOf(s, Marker) == Some(|pre|) && ClosingQuote(c + [qc] + rest, qc) == Some(|c|)
    ensures SplitFmt(s) == Some((pre, qc, c, SkipOne(rest)))
  {
    CallPieces(s, pre, qc, c, rest);
    SplitFmtNamed(s, |pre|, |c|, pre, qc, c, rest);
  }

  /** `SplitFmtAt` with the pieces given their names. */
  lemma SplitFmtNamed(s: string, k: nat, q: nat, pre: string, qc: char, c: string, rest: string)
    requires IndexOf(s, Marker) == Some(k) && k + 6 < |s| && s[k + 6] == qc && IsQuote(qc)
    requires s[k + 7..] == c + [qc] + rest && ClosingQuote(c + [qc] + rest, qc) == Some(q)
    requires s[..k] == pre && s[k + 7..k + 7 + q] == c && s[k + 7 + q + 1..] == rest
    ensures SplitFmt(s) == Some((pre, qc, c, SkipOne(rest)))
  {
    SplitFmtAt(s, k, q);
  }

  /** Where the pieces of `pre ..FMT( q c q rest` sit in the line. */
  lemma CallPieces(s: string, pre: string, qc: char, c: string, rest: string)
    requires s == pre + Marker + ([qc] + c + [qc] + rest)
    ensures |pre| + 6 < |s| && s[|pre| + 6] == qc && s[|pre| + 7..] == c + [qc] + rest
    ensures s[..|pre|] == pre && s[|pre| + 7..|pre| + 7 + |c|] == c && s[|pre| + 7 + |c| + 1..] == rest
  {
    var k := |pre|;
    assert s[k + 6] == qc;
    assert s[k + 7..] == c + [qc] + rest;
    assert s[..k] == pre;
    assert s[k + 7..k + 7 + |c|] == c;
    assert s[k + 7 + |c| + 1..] == rest;
  }

  lemma SplitFmtAt(s: string, k: nat, q: nat)
    requires IndexOf(s, Marker) == Some(k) && k + 6 < |s| && IsQuote(s[k + 6])
    requires ClosingQuote(s[k + 7..], s[k + 6]) == Some(q)
    ensures SplitFmt(s) == Some((s[..k], s[k + 6], s[k + 7..k + 7 + q], SkipOne(s[k + 7 + q + 1..])))
  {
    assert SplitFmt(s) == SplitAtMarker(s, k);
    SplitAtQuote(s, k, q);
  }

  lemma SplitAtQuote(s: string, k: nat, q: nat)
    requires k + 6 < |s| && IsQuote(s[k + 6]) && ClosingQuote(s[k + 7..], s[k + 6]) == Some(q)
    ensures SplitAtMarker(s, k) == Some((s[..k], s[k + 6], s[k + 7..k + 7 + q], SkipOne(s[k + 7 + q + 1..])))
  {
  }

  /**
   * One rewrite step: whichever quote opened the call, the result is the prefix, the
   * single-quoted `sprintf`, and the text from the second character after the
   * closing quote, which is dropped whatever it is.
   */
  lemma FmtStep(pre: string, qc: char, c: string, d: char, post: string, n: int)
    requires n <= MaxDepth && !Contains(pre + "..FMT", Marker) && IsQuote(qc) && qc !in c && '\\' !in c
    ensures FmtRewrite(pre + Marker + [qc] + c + [qc] + [d] + post, n) ==
            FmtRewrite(pre + SprintfCall(c) + post, n + 1)
  {
    assert pre + Marker + [qc] + c + [qc] + [d] + post == pre + Marker + [qc] + c + [qc] + ([d] + post);
    SplitFmtPlain(pre, qc, c, [d] + post);
    assert SkipOne([d] + post) == post;
  }

  /** A line ending with the closing quote loses nothing after the call: the suffix is empty. */
  lemma FmtQuoteLast(pre: string, qc: char, c: string, n: int)
    requires n <= MaxDepth && !Contains(pre + "..FMT", Marker) && IsQuote(qc) && qc !in c && '\\' !in c
    ensures FmtRewrite(pre + Marker + [qc] + c + [qc], n) == FmtRewrite(pre + SprintfCall(c), n + 1)
  {
    assert pre + Marker + [qc] + c + [qc] == pre + Marker + [qc] + c + [qc] + [];
    SplitFmtPlain(pre, qc, c, []);
    assert pre + SprintfCall(c) + [] == pre + SprintfCall(c);
  }

  /** A marker not followed by a quote leaves the line unchanged. */
  lemma FmtNeedsQuote(pre: string, d: char, rest: string, n: int)
    requires !Contains(pre + "..FMT", Marker) && !IsQuote(d)
    ensures FmtRewrite(pre + Marker + [d] + rest, n) == pre + Marker + [d] + rest
  {
    var s := pre + Marker + [d] + rest;
    FirstMarker(pre, [d] + rest);
    assert s == pre + Marker + ([d] + rest);
    assert s[|pre| + 6] == d;
  }

  /**
   * `x <- ..FMT("Hello {name}, you are {age}")` becomes
   * `x <- sprintf('Hello %s, you are %s', name, age)`.
   */
  lemma HelloExample()
    ensures FmtRewrite("x <- ..FMT(" + "\"Hello {name}, you are {age}\")", 0) ==
            "x <- " + "sprintf('Hello %s, you are %s'" + ", name, age)"
  {
    var c := "Hello {name}, you are {age}";
    ExampleSplit();
    FmtStep("x <- ", '"', c, ')', "", 0);
    ExampleCall();
    ExampleDone();
  }

  lemma ExampleSplit()
    ensures "x <- ..FMT(" + "\"Hello {name}, you are {age}\")" ==
            "x <- " + Marker + ['"'] + "Hello {name}, you are {age}" + ['"'] + [')'] + ""
    ensures !Contains("x <- " + "..FMT", Marker)
    ensures '"' !in "Hello {name}, you are {age}" && '\\' !in "Hello {name}, you are {age}"
  {
    ExampleInputText();
    NoCharOf("x <- ..FMT", Marker, 5);
  }

  lemma ExampleInputText()
    ensures "x <- ..FMT(" + "\"Hello {name}, you are {age}\")" ==
            "x <- " + "..FMT(" + ['"'] + "Hello {name}, you are {age}" + ['"'] + [')'] + ""
    ensures "x <- " + "..FMT" == "x <- ..FMT"
    ensures '(' !in "x <- ..FMT"
  {
    ExampleQuoted();
    assert "x <- ..FMT(" == "x <- " + "..FMT(";
    Regroup6("x <- ..FMT(", "\"Hello {name}, you are {age}\")", "x <- ", "..FMT(",
             ['"'], "Hello {name}, you are {age}", ['"'], [')']);
  }

  lemma ExampleQuoted()
    ensures "\"Hello {name}, you are {age}\")" == ['"'] + "Hello {name}, you are {age}" + ['"'] + [')']
  {
  }

  lemma Regroup6(x: string, y: string, a: string, b: string, c: string, d: string, e: string, f: string)
    requires x == a + b && y == c + d + e + f
    ensures x + y == a + b + c + d + e + f + ""
  {
    assert a + b + c + d + e + f + "" == (a + b) + (c + d + e + f);
  }

  lemma ExampleNames()
    ensures BraceNames("Hello {name}, you are {age}") == ["name", "age"]
  {
    ExampleNamesText();
    BraceNamesSpan("Hello ", "name", ", you are " + "{" + "age" + "}" + "");
    BraceNamesSpan(", you are ", "age", "");
    NoBraceNoNames("");
  }

  lemma ExampleNamesText()
    ensures "Hello {name}, you are {age}" == "Hello " + "{" + "name" + "}" + (", you are " + "{" + "age" + "}" + "")
  {
  }

  lemma ExampleTemplate()
    ensures Template("Hello {name}, you are {age}", ["name", "age"]) == "Hello %s, you are %s"
  {
    var c := "Hello {name}, you are {age}";
    assert ["name", "age"][..1] == ["name"];
    assert ["name"][..0] == [];
    ExampleTemplateText();
    ExampleTemplateTail();
    NoCharOf(", you are {age}", "{name}", 1);
    StrReplaceOnce("Hello ", "{name}", "%s", ", you are {age}");
    NoCharOf("", "{age}", 0);
    StrReplaceOnce("Hello %s, you are ", "{age}", "%s", "");
  }

  lemma ExampleTemplateText()
    ensures Placeholder("name") == "{name}" && Placeholder("age") == "{age}"
    ensures "Hello {name}, you are {age}" == "Hello " + "{name}" + ", you are {age}"
    ensures 'n' !in ", you are {age}"
  {
  }

  lemma ExampleTemplateTail()
    ensures "Hello " + "%s" + ", you are {age}" == "Hello %s, you are " + "{age}" + ""
    ensures "Hello %s, you are " + "%s" + "" == "Hello %s, you are %s"
  {
  }

  lemma ExampleCall()
    ensures SprintfCall("Hello {name}, you are {age}") == "sprintf('Hello %s, you are %s'" + ", name, age)"
  {
    ExampleNames();
    ExampleTemplate();
    ExampleArgs();
    ExampleCallText();
  }

  lemma ExampleArgs()
    ensures ArgList(["name", "age"]) == ", name, age"
  {
    ArgListSingle("name");
    assert ["name", "age"][..1] == ["name"];
    assert ArgList(["name", "age"]) == ArgList(["name"]) + ", " + "age";
    ExampleArgsText();
  }

  lemma ExampleArgsText()
    ensures ", " + "name" + ", " + "age" == ", name, age"
  {
  }

  lemma ExampleCallText()
    ensures "sprintf('" + "Hello %s, you are %s" + "'" + ", name, age" + ")" ==
            "sprintf('Hello %s, you are %s'" + ", name, age)"
  {
  }

  lemma ExampleDone()
    ensures !Contains("x <- " + "sprintf('Hello %s, you are %s'" + ", name, age)", Marker)
    ensures "x <- " + ("sprintf('Hello %s, you are %s'" + ", name, age)") + "" ==
            "x <- " + "sprintf('Hello %s, you are %s'" + ", name, age)"
  {
    var out := "x <- " + "sprintf('Hello %s, you are %s'" + ", name, age)";
    assert '.' !in "x <- " && '.' !in "sprintf('Hello %s, you are %s'" && '.' !in ", name, age)";
    assert '.' !in out;
    NoCharOf(out, Marker, 0);
  }
}
