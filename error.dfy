/**
 * `#error` directives (src/error.c): a line holding `#error` stops the build
 * and reports the text after `#error `.
 */
module Error {
  import opened Wrappers
  import opened Strings

  const Directive := "#error"
  const MessageMarker := "#error "

  /** Line 11: the line after its leading spaces and tabs. */
  function SkipIndent(s: string): (r: string)
    ensures |r| <= |s| && r == s[|s| - |r|..]
    ensures forall i :: 0 <= i < |s| - |r| ==> s[i] == ' ' || s[i] == '\t'
    ensures r == [] || (r[0] != ' ' && r[0] != '\t')
    decreases |s|
  {
    if |s| > 0 && (s[0] == ' ' || s[0] == '\t') then SkipIndent(s[1..]) else s
  }

  /** Lines 13-15: the text after the first `#error `. */
  function MessageOf(s: string): (r: string)
    requires Contains(s, MessageMarker)
    ensures |r| < |s| && r == s[|s| - |r|..]
  {
    s[IndexOf(s, MessageMarker).value + |MessageMarker|..]
  }

  /**
   * `catch_error`: the value it returns and the message it prints. A line with
   * `#error` must hold `#error ` with its space, or line 15 reads through NULL.
   */
  function CatchError(line: string): (r: (int, Option<string>))
    requires Contains(line, Directive) ==> Contains(line, MessageMarker)
    ensures r.0 == 0 || r.0 == 1
    ensures r.0 == 1 <==> Contains(line, Directive)
    ensures r.1.Some? <==> r.0 == 1
  {
    if !Contains(line, Directive) then (0, None)
    else
      var t := SkipIndent(line);
      IndentFree(line, MessageMarker);
      (1, Some(MessageOf(t)))
  }

  /** The skipped indentation cannot hold the directive: the message is read from the line as given. */
  lemma MessageIgnoresIndent(line: string)
    requires Contains(line, MessageMarker)
    ensures CatchError(line) == (1, Some(MessageOf(line)))
  {
    var k := IndexOf(line, MessageMarker).value;
    assert line[k..k + |Directive|] == line[k..k + |MessageMarker|][..|Directive|];
    assert OccursAt(line, Directive, k);
    IndentFree(line, MessageMarker);
    var t := SkipIndent(line);
    assert t[IndexOf(t, MessageMarker).value + |MessageMarker|..] == line[k + |MessageMarker|..];
  }

  /** `#error` followed by a message reports the message, whatever precedes it. */
  lemma ErrorMessage(pre: string, msg: string)
    requires '#' !in pre
    ensures IndexOf(pre + MessageMarker + msg, MessageMarker) == Some(|pre|)
    ensures CatchError(pre + MessageMarker + msg) == (1, Some(msg))
  {
    var line := pre + MessageMarker + msg;
    assert line == pre + (MessageMarker + msg);
    assert (MessageMarker + msg)[..|MessageMarker|] == MessageMarker;
    FirstAfterHash(pre, MessageMarker + msg);
    MessageIgnoresIndent(line);
    assert line[|pre| + |MessageMarker|..] == msg;
  }

  /** A pattern starting with `#` is first found at the same place after the skipped indentation. */
  lemma IndentFree(line: string, pat: string)
    requires |pat| > 0 && pat[0] == '#' && Contains(line, pat)
    ensures Contains(SkipIndent(line), pat)
    ensures IndexOf(line, pat).value >= |line| - |SkipIndent(line)|
    ensures IndexOf(SkipIndent(line), pat).value == IndexOf(line, pat).value - (|line| - |SkipIndent(line)|)
  {
    var t := SkipIndent(line);
    var d := |line| - |t|;
    assert forall i :: 0 <= i < d ==> line[i] != pat[0];
    IndexOfSuffix(line, d, pat);
  }

  /** Dropping a prefix that cannot start `pat` moves its first occurrence back by the prefix length. */
  lemma IndexOfSuffix(line: string, d: nat, pat: string)
    requires d <= |line| && |pat| > 0 && Contains(line, pat)
    requires forall i :: 0 <= i < d ==> line[i] != pat[0]
    ensures IndexOf(line, pat).value >= d
    ensures IndexOf(line[d..], pat) == Some(IndexOf(line, pat).value - d)
  {
    var k := IndexOf(line, pat).value;
    assert line[k..k + |pat|][0] == line[k];
    var t := line[d..];
    OccursShift(line, d, pat, k - d);
    assert Contains(t, pat);
    var m := IndexOf(t, pat).value;
    OccursShift(line, d, pat, m);
    assert m + d >= k;
    assert m + d <= k;
  }

  /** An occurrence in the text after its first `d` characters is one `d` further in the whole text. */
  lemma OccursShift(line: string, d: nat, pat: string, j: nat)
    requires d <= |line|
    ensures OccursAt(line[d..], pat, j) <==> OccursAt(line, pat, j + d)
  {
    if j + d + |pat| <= |line| {
      assert line[d..][j..j + |pat|] == line[j + d..j + d + |pat|];
    }
  }

  /** In a text whose prefix has no `#`, the first `#error ` is right after the prefix when the rest starts with it. */
  lemma FirstAfterHash(pre: string, rest: string)
    requires '#' !in pre && IsPrefix(MessageMarker, rest)
    ensures IndexOf(pre + rest, MessageMarker) == Some(|pre|)
  {
    var s := pre + rest;
    assert s[|pre|..|pre| + |MessageMarker|] == rest[..|MessageMarker|];
    assert OccursAt(s, MessageMarker, |pre|);
    forall j: nat | j < |pre|
      ensures !OccursAt(s, MessageMarker, j)
    {
      assert s[j] == pre[j] && pre[j] in pre;
      assert j + |MessageMarker| <= |s|;
      assert s[j..j + |MessageMarker|][0] == s[j];
    }
  }
}
