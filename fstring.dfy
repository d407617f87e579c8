/**
 * The `f'...'` dialect of string interpolation (src/fstring.c): the first `f'` of a
 * line and the text up to its unescaped closing `'` are replaced by a
 * `sprintf('FORMAT', name, ...)` call, and the result is processed again, at most
 * 17 times in all.
 */
module Fstring {
  import opened Wrappers
  import opened Strings
  import opened FstringScan
  import opened Rescan

  /** Calls with a depth above this return their input (the recursion bound). */
  const MaxDepth := 16

  /**
   * The parts of a line around its first f-string: the text before the first `f'`,
   * the content up to the first unescaped `'` after it, and the text after that
   * quote; nothing when the line has no `f'` or the quote is never closed.
   */
  function SplitFString(s: string): (r: Option<(string, string, string)>)
    ensures r.Some? ==> s == r.value.0 + "f'" + r.value.1 + "'" + r.value.2
    ensures r.Some? ==> !Contains(r.value.0, "f'")
    ensures r.Some? ==> ClosingQuote(r.value.1 + "'" + r.value.2, '\'') == Some(|r.value.1|)
    ensures r.None? <==> !Contains(s, "f'") || ClosingQuote(s[IndexOf(s, "f'").value + 2..], '\'').None?
  {
    match IndexOf(s, "f'")
    case None => None
    case Some(k) =>
      match ClosingQuote(s[k + 2..], '\'')
      case None => None
      case Some(q) =>
        BeforeFirst(s, "f'");
        FStringCut(s, k, q);
        Some((s[..k], s[k + 2..k + 2 + q], s[k + 2 + q + 1..]))
  }

  /** The line cut around the `f'` at `k` and the closing quote `q` characters after it. */
  lemma FStringCut(s: string, k: nat, q: nat)
    requires OccursAt(s, "f'", k) && k + 2 + q < |s| && s[k + 2 + q] == '\''
    ensures s == s[..k] + "f'" + s[k + 2..k + 2 + q] + "'" + s[k + 2 + q + 1..]
    ensures s[k + 2..] == s[k + 2..k + 2 + q] + "'" + s[k + 2 + q + 1..]
  {
    assert s[k..k + 2] == "f'";
    assert s == s[..k] + "f'" + s[k + 2..k + 2 + q] + "'" + s[k + 2 + q + 1..];
    assert s[k + 2..] == s[k + 2..k + 2 + q] + "'" + s[k + 2 + q + 1..];
  }

  /**
   * `fstring_replace(s, n)` as written: the first f-string becomes its call and the
   * whole result, call included, is processed again at depth `n + 1`.
   */
  function Rewrite(s: string, n: int): (r: string)
    ensures n > MaxDepth || SplitFString(s).None? ==> r == s
    decreases if n > MaxDepth then 0 else MaxDepth + 1 - n
  {
    if n > MaxDepth then s
    else match SplitFString(s)
      case None => s
      case Some((pre, content, post)) => Rewrite(pre + SprintfCall(content) + post, n + 1)
  }

  /** One pass of `fstring_replace`: the first f-string becomes its call, if there is one. */
  function RewriteOnce(s: string): (r: string)
    ensures SplitFString(s).None? ==> r == s
  {
    match SplitFString(s)
    case None => s
    case Some((pre, content, post)) => pre + SprintfCall(content) + post
  }

  /** How many passes a call at depth `n` still allows. */
  function Remaining(n: int): nat
  {
    if n > MaxDepth then 0 else MaxDepth + 1 - n
  }

  /** `s` still holds an f-string for `Rewrite` to replace. */
  predicate HasFString(s: string)
  {
    SplitFString(s).Some?
  }

  /**
   * Lines 222-226: `fstring_replace` rescans its own output, so a call at depth
   * `n` is exactly `Remaining(n)` passes, each on the output of the one before.
   */
  lemma {:induction false} RewriteIterates(s: string, n: int)
    ensures Rewrite(s, n) == Times(RewriteOnce, s, Remaining(n))
    decreases Remaining(n)
  {
    if n > MaxDepth {
    } else if SplitFString(s).None? {
      TimesOfFixed(RewriteOnce, s, Remaining(n));
    } else {
      var t := RewriteOnce(s);
      RewriteUnfolds(s, n);
      RewriteIterates(t, n + 1);
    }
  }

  /** One level of the recursion of `Rewrite`, and of `Times`, through `RewriteOnce`. */
  lemma RewriteUnfolds(s: string, n: int)
    requires n <= MaxDepth && SplitFString(s).Some?
    ensures Rewrite(s, n) == Rewrite(RewriteOnce(s), n + 1)
    ensures Remaining(n + 1) + 1 == Remaining(n)
    ensures Times(RewriteOnce, s, Remaining(n)) == Times(RewriteOnce, RewriteOnce(s), Remaining(n + 1))
  {
    var (pre, content, post) := SplitFString(s).value;
    assert RewriteOnce(s) == pre + SprintfCall(content) + post;
  }

  /**
   * The recursion stops for one of two reasons only: no f-string is left in the
   * output, or the depth bound was reached with every line along the way, the
   * output included, still holding one.
   */
  lemma RewriteFixpointOrBound(s: string, n: int)
    ensures !HasFString(Rewrite(s, n)) || AllHeld(RewriteOnce, HasFString, s, Remaining(n))
  {
    RewriteIterates(s, n);
    FixpointOrBound(RewriteOnce, HasFString, s, Remaining(n));
  }

  /**
   * The `was_f` loop of lines 91-109: the index just after the first `f` that is
   * directly followed by `'`, which is where `strstr(str, "f'")` points plus two.
   */
  method FindContentStart(s: string) returns (r: Option<nat>)
    ensures r.None? <==> !Contains(s, "f'")
    ensures r.Some? ==> r.value == IndexOf(s, "f'").value + 2
  {
    var wasF := false;
    var i := 0;
    while i < |s|
      invariant i <= |s|
      invariant wasF == (i > 0 && s[i - 1] == 'f')
      invariant forall j: nat :: j + 1 < i ==> !OccursAt(s, "f'", j)
    {
      if s[i] == 'f' {
        wasF := true;
        i := i + 1;
        continue;
      }
      if wasF && s[i] == '\'' {
        assert s[i - 1..i + 1] == "f'";
        assert OccursAt(s, "f'", i - 1);
        return Some(i + 1);
      }
      wasF := false;
      i := i + 1;
    }
    assert forall j: nat :: j <= |s| ==> !OccursAt(s, "f'", j);
    return None;
  }

  /**
   * Lines 126-200 and 242-248: the names are collected; with names the format
   * string and argument list are built, without them the content is the format.
   */
  method BuildCall(content: string) returns (call: string)
    ensures call == SprintfCall(content)
  {
    var names := CollectBraceNames(content);
    if names != [] {
      var format := BuildTemplate(content, names);
      var args := BuildArgList(names);
      call := "sprintf('" + format + "'" + args + ")";
    } else {
      call := "sprintf('" + content + "')";
    }
  }

  /**
   * Lines 91-124: the content starts after the first `f'` and ends at the closing
   * quote that `find_closing_quote` finds; without either the line is left alone.
   */
  method LocateFString(s: string) returns (r: Option<(string, string, string)>)
    ensures r == SplitFString(s)
  {
    var ptr := FindContentStart(s);
    if ptr.None? {
      return None;
    }
    var p := ptr.value;
    var quote := FindClosingQuote(s[p..], '\'');
    if quote.None? {
      return None;
    }
    SplitAt(s, p - 2, quote.value);
    return Some((s[..p - 2], s[p..p + quote.value], s[p + quote.value + 1..]));
  }

  /** `fstring_replace`, computed with the loops of the source. */
  method FstringReplace(s: string, n: int) returns (r: string)
    ensures r == Rewrite(s, n)
    decreases if n > MaxDepth then 0 else MaxDepth + 1 - n
  {
    if n > MaxDepth {
      return s;
    }
    var parts := LocateFString(s);
    if parts.None? {
      return s;
    }
    var pre, content, post := parts.value.0, parts.value.1, parts.value.2;
    var call := BuildCall(content);
    var result := pre + call + post;
    assert Rewrite(s, n) == Rewrite(result, n + 1);
    r := FstringReplace(result, n + 1);
  }

  lemma SplitAt(s: string, k: nat, q: nat)
    requires IndexOf(s, "f'") == Some(k) && ClosingQuote(s[k + 2..], '\'') == Some(q)
    ensures SplitFString(s) == Some((s[..k], s[k + 2..k + 2 + q], s[k + 2 + q + 1..]))
  {
  }

  /** The first `f'` of `pre + "f'" + rest` is the one after `pre` when `pre` has none. */
  lemma FirstFQuote(pre: string, rest: string)
    requires !Contains(pre, "f'")
    ensures IndexOf(pre + "f'" + rest, "f'") == Some(|pre|)
  {
    var s := pre + "f'" + rest;
    assert s[|pre|..|pre| + 2] == "f'";
    assert OccursAt(s, "f'", |pre|);
    forall j: nat | j < |pre|
      ensures !OccursAt(s, "f'", j)
    {
      if j + 1 < |pre| {
        assert s[j..j + 2] == pre[j..j + 2];
        assert !OccursAt(pre, "f'", j);
      } else {
        assert s[j + 1] == 'f';
        assert s[j..j + 2][1] == s[j + 1];
      }
    }
  }

  /** A content free of quotes and backslashes ends at the first quote after it. */
  lemma QuoteAfterPlain(c: string, q: char, post: string)
    requires q != '\\' && q !in c && '\\' !in c
    ensures ClosingQuote(c + [q] + post, q) == Some(|c|)
  {
    QuoteAfterPlainFrom(c, q, post, 0);
  }

  lemma {:induction false} QuoteAfterPlainFrom(c: string, q: char, post: string, i: nat)
    requires q != '\\' && q !in c && '\\' !in c && i <= |c|
    ensures ClosingQuoteFrom(c + [q] + post, q, i) == Some(|c|)
    decreases |c| - i
  {
    var s := c + [q] + post;
    if i < |c| {
      assert s[i] == c[i] && c[i] in c;
      QuoteAfterPlainFrom(c, q, post, i + 1);
    } else {
      assert s[i] == q;
      if i > 0 {
        assert s[i - 1] == c[i - 1] && c[i - 1] in c;
      }
      assert BackslashRun(s, i) == 0;
    }
  }

  /** The split of an f-string whose content has no quote or backslash, after a prefix without `f'`. */
  lemma SplitPlain(pre: string, c: string, post: string)
    requires !Contains(pre, "f'") && '\'' !in c && '\\' !in c
    ensures SplitFString(pre + "f'" + c + "'" + post) == Some((pre, c, post))
  {
    var s := pre + "f'" + c + "'" + post;
    FStringPieces(pre, c, post);
    FirstFQuote(pre, c + "'" + post);
    QuoteAfterPlain(c, '\'', post);
    SplitFStringAt(s, |pre|, |c|);
  }

  /** Where the pieces of `pre f' c ' post` sit in the line. */
  lemma FStringPieces(pre: string, c: string, post: string)
    ensures var s := pre + "f'" + c + "'" + post;
            var k := |pre|;
            && s == pre + "f'" + (c + "'" + post)
            && k + 2 <= |s| && s[k + 2..] == c + ['\''] + post
            && s[..k] == pre && s[k + 2..k + 2 + |c|] == c && s[k + 2 + |c| + 1..] == post
  {
    var s := pre + "f'" + c + "'" + post;
    var k := |pre|;
    assert s == pre + "f'" + (c + "'" + post);
    assert s[k + 2..] == c + ['\''] + post;
    assert s[..k] == pre;
    assert s[k + 2..k + 2 + |c|] == c;
    assert s[k + 2 + |c| + 1..] == post;
  }

  /** The split once the first `f'` and its closing quote are known. */
  lemma SplitFStringAt(s: string, k: nat, q: nat)
    requires IndexOf(s, "f'") == Some(k) && k + 2 <= |s|
    requires ClosingQuote(s[k + 2..], '\'') == Some(q)
    ensures SplitFString(s) == Some((s[..k], s[k + 2..k + 2 + q], s[k + 2 + q + 1..]))
  {
  }

  /**
   * One rewrite step as written: the `f'c'` after a prefix without `f'` becomes its
   * call and the whole line, call included, is scanned again one level deeper.
   */
  lemma RewriteStep(pre: string, c: string, post: string, n: int)
    requires n <= MaxDepth && !Contains(pre, "f'") && '\'' !in c && '\\' !in c
    ensures Rewrite(pre + "f'" + c + "'" + post, n) == Rewrite(pre + SprintfCall(c) + post, n + 1)
  {
    SplitPlain(pre, c, post);
  }

  /** One rescanning step between two whole lines, each given by its pieces. */
  lemma RewriteStepTo(s: string, pre: string, c: string, post: string, t: string, n: int)
    requires n <= MaxDepth && !Contains(pre, "f'") && '\'' !in c && '\\' !in c && '{' !in c
    requires s == pre + "f'" + c + "'" + post
    requires t == pre + "sprintf('" + c + "')" + post
    ensures Rewrite(s, n) == Rewrite(t, n + 1)
  {
    SprintfCallPlain(c);
    assert pre + SprintfCall(c) + post == t;
    RewriteStep(pre, c, post, n);
  }

  /** A line without `f'` is left as it is. */
  lemma RewriteDone(s: string, n: int)
    requires !Contains(s, "f'")
    ensures Rewrite(s, n) == s
  {
  }

  /** `f'of' 'a'`: the `f` that ends the first format string, followed by the quote the call adds. */
  lemma RescanCounterexample()
    ensures Rewrite("f'of' 'a'", 0) == "sprintf('osprintf(') ')a'"
  {
    var s0, s1, s2 := "f'of' 'a'", "sprintf('of') 'a'", "sprintf('osprintf(') ')a'";
    CounterexampleFirstSplit();
    RewriteStepTo(s0, "", "of", " 'a'", s1, 0);
    CounterexampleSecondSplit();
    RewriteStepTo(s1, "sprintf('o", ") ", "a'", s2, 1);
    CounterexampleOutput();
    RewriteDone(s2, 2);
  }

  lemma CounterexampleFirstSplit()
    ensures "f'of' 'a'" == "" + "f'" + "of" + "'" + " 'a'"
    ensures "sprintf('of') 'a'" == "" + "sprintf('" + "of" + "')" + " 'a'"
    ensures !Contains("", "f'")
  {
    NoPair("", 'f', '\'');
  }

  lemma CounterexampleSecondSplit()
    ensures "sprintf('of') 'a'" == "sprintf('o" + "f'" + ") " + "'" + "a'"
    ensures "sprintf('osprintf(') ')a'" == "sprintf('o" + "sprintf('" + ") " + "')" + "a'"
    ensures !Contains("sprintf('o", "f'")
  {
    NoPair("sprintf('o", 'f', '\'');
  }

  lemma CounterexampleOutput()
    ensures !Contains("sprintf('osprintf(') ')a'", "f'")
  {
    NoPair("sprintf('osprintf(') ')a'", 'f', '\'');
  }

  /**
   * The evidently intended rewrite: each `f'...'` becomes its call once and the
   * scan resumes after it, so a call's own text is never taken for an f-string.
   */
  function RewriteResuming(s: string, n: int): (r: string)
    ensures n > MaxDepth || SplitFString(s).None? ==> r == s
    decreases if n > MaxDepth then 0 else MaxDepth + 1 - n
  {
    if n > MaxDepth then s
    else match SplitFString(s)
      case None => s
      case Some((pre, content, post)) => pre + SprintfCall(content) + RewriteResuming(post, n + 1)
  }

  /** The intended step: the prefix and the call are final, only the rest is rewritten. */
  lemma ResumingStep(pre: string, c: string, post: string, n: int)
    requires n <= MaxDepth && !Contains(pre, "f'") && '\'' !in c && '\\' !in c
    ensures RewriteResuming(pre + "f'" + c + "'" + post, n) == pre + SprintfCall(c) + RewriteResuming(post, n + 1)
  {
    SplitPlain(pre, c, post);
  }

  /** On the counterexample the intended rewrite gives the call followed by the untouched rest. */
  lemma ResumingOnCounterexample()
    ensures RewriteResuming("f'of' 'a'", 0) == "sprintf('of') 'a'"
  {
    CounterexampleFirstSplit();
    ResumingStepTo("", "of", " 'a'", 0);
    ResumingRest();
  }

  /** One intended step on a content without placeholders. */
  lemma ResumingStepTo(pre: string, c: string, post: string, n: int)
    requires n <= MaxDepth && !Contains(pre, "f'") && '\'' !in c && '\\' !in c && '{' !in c
    ensures RewriteResuming(pre + "f'" + c + "'" + post, n) == pre + "sprintf('" + c + "')" + RewriteResuming(post, n + 1)
  {
    ResumingStep(pre, c, post, n);
    SprintfCallPlain(c);
    SwapMiddle(RewriteResuming(pre + "f'" + c + "'" + post, n), pre, SprintfCall(c), c, RewriteResuming(post, n + 1));
  }

  /** Replacing a call by its text inside a line, regrouped as the line is written. */
  lemma SwapMiddle(whole: string, pre: string, call: string, c: string, rest: string)
    requires whole == pre + call + rest && call == "sprintf('" + c + "')"
    ensures whole == pre + "sprintf('" + c + "')" + rest
  {
    assert pre + ("sprintf('" + c + "')") + rest == pre + "sprintf('" + c + "')" + rest;
  }

  lemma ResumingRest()
    ensures "" + "sprintf('" + "of" + "')" + " 'a'" == "sprintf('of') 'a'"
    ensures !Contains(" 'a'", "f'")
  {
    NoPair(" 'a'", 'f', '\'');
  }
}
