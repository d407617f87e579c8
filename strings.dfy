/**
 * Text primitives shared by the preprocessor's rewrites: the C library calls the
 * core relies on (`strstr`, `strncmp`, `strtok` on a single delimiter, `isspace`,
 * `sprintf("%d")`) and the two helpers whose bodies live outside the modelled
 * files, `str_replace` and `remove_leading_spaces`, stated abstractly.
 */
module Strings {
  import opened Wrappers

  /** `p` is a prefix of `s` (`strncmp(s, p, strlen(p)) == 0`). */
  predicate IsPrefix(p: string, s: string) {
    |p| <= |s| && s[..|p|] == p
  }

  /** `pat` occurs in `s` starting at index `i`. */
  predicate OccursAt(s: string, pat: string, i: nat) {
    i + |pat| <= |s| && s[i..i + |pat|] == pat
  }

  /** `strstr(s, pat) != NULL`. */
  predicate Contains(s: string, pat: string) {
    exists i: nat | i <= |s| :: OccursAt(s, pat, i)
  }

  function IndexFrom(s: string, pat: string, i: nat): (r: Option<nat>)
    requires i <= |s|
    ensures r.Some? ==> i <= r.value && OccursAt(s, pat, r.value)
    ensures forall j: nat :: i <= j && (r.None? || j < r.value) ==> !OccursAt(s, pat, j)
    decreases |s| - i
  {
    if OccursAt(s, pat, i) then Some(i)
    else if i == |s| then None
    else IndexFrom(s, pat, i + 1)
  }

  /** The index of the first occurrence of `pat` in `s`: what `strstr` points at. */
  function IndexOf(s: string, pat: string): (r: Option<nat>)
    ensures r.Some? <==> Contains(s, pat)
    ensures r.Some? ==> OccursAt(s, pat, r.value)
    ensures r.Some? ==> forall j: nat :: j < r.value ==> !OccursAt(s, pat, j)
  {
    IndexFrom(s, pat, 0)
  }

  /** The text before the first occurrence of `pat` does not contain `pat`. */
  lemma BeforeFirst(s: string, pat: string)
    requires |pat| > 0 && Contains(s, pat)
    ensures !Contains(s[..IndexOf(s, pat).value], pat)
  {
    var k := IndexOf(s, pat).value;
    forall j: nat | j <= k
      ensures !OccursAt(s[..k], pat, j)
    {
      if j + |pat| <= k {
        assert j < k;
        assert !OccursAt(s, pat, j);
        assert s[..k][j..j + |pat|] == s[j..j + |pat|];
      }
    }
  }

  /** `isspace` in the C locale. */
  predicate IsSpace(c: char) {
    c == ' ' || c == '\t' || c == '\n' || c == '\r' || c == 11 as char || c == 12 as char
  }

  /** `s` without its final character when that character is a newline. */
  function DropNewline(s: string): (r: string)
    ensures |s| > 0 && s[|s| - 1] == '\n' ==> r + "\n" == s
    ensures !(|s| > 0 && s[|s| - 1] == '\n') ==> r == s
  {
    if |s| > 0 && s[|s| - 1] == '\n' then s[..|s| - 1] else s
  }

  /**
   * `remove_leading_spaces`: the line with its leading blanks (`' '` only) dropped.
   * Its body is not part of this model; this is its specification.
   */
  function RemoveLeadingSpaces(s: string): (r: string)
    ensures |r| <= |s| && r == s[|s| - |r|..]
    ensures forall k :: 0 <= k < |s| - |r| ==> s[k] == ' '
    ensures r == [] || r[0] != ' '
  {
    if |s| > 0 && s[0] == ' ' then RemoveLeadingSpaces(s[1..]) else s
  }

  /**
   * `str_replace(orig, find, replace)`: every non-overlapping occurrence of `find`,
   * taken left to right, replaced by `rep`. Its body is not part of this model;
   * this is its specification. A string without `find` is returned as it was.
   */
  function StrReplace(s: string, find: string, rep: string): (r: string)
    requires |find| > 0
    ensures !Contains(s, find) ==> r == s
    decreases |s|
  {
    if |s| < |find| then s
    else if s[..|find|] == find then
      assert OccursAt(s, find, 0);
      rep + StrReplace(s[|find|..], find, rep)
    else
      assert !Contains(s, find) ==> !Contains(s[1..], find) by {
        if Contains(s[1..], find) {
          var i: nat :| i <= |s[1..]| && OccursAt(s[1..], find, i);
          assert s[i + 1..i + 1 + |find|] == s[1..][i..i + |find|];
          assert OccursAt(s, find, i + 1);
        }
      }
      [s[0]] + StrReplace(s[1..], find, rep)
  }

  /** The characters `StrReplace` produces come from the input or from `rep`. */
  lemma {:induction false} StrReplaceChars(s: string, find: string, rep: string, c: char)
    requires |find| > 0
    requires c in StrReplace(s, find, rep)
    ensures c in s || c in rep
    decreases |s|
  {
    if |s| < |find| {
    } else if s[..|find|] == find {
      var tail := StrReplace(s[|find|..], find, rep);
      if c !in rep {
        assert c in tail;
        StrReplaceChars(s[|find|..], find, rep, c);
      }
    } else {
      var tail := StrReplace(s[1..], find, rep);
      if c != s[0] {
        assert c in tail;
        StrReplaceChars(s[1..], find, rep, c);
      }
    }
  }

  /**
   * One occurrence of `find`, in a text whose part before it cannot start an
   * occurrence and whose part after it holds none, is the only thing replaced.
   */
  lemma {:induction false} StrReplaceOnce(a: string, find: string, rep: string, b: string)
    requires |find| > 0 && find[0] !in a && !Contains(b, find)
    ensures StrReplace(a + find + b, find, rep) == a + rep + b
    decreases |a|
  {
    var s := a + find + b;
    if a == [] {
      assert s == find + b;
      StrReplaceHit(s, find, rep, b);
    } else {
      var t := a[1..] + find + b;
      HeadSplit(a, find, b);
      assert a[0] in a;
      StrReplaceMiss(s, find, rep, t);
      assert forall c :: c in a[1..] ==> c in a;
      StrReplaceOnce(a[1..], find, rep, b);
      HeadSplit(a, rep, b);
    }
  }

  /** The first character of `a + x + y` split off. */
  lemma HeadSplit(a: string, x: string, y: string)
    requires |a| > 0
    ensures a + x + y == [a[0]] + (a[1..] + x + y)
  {
    assert a == [a[0]] + a[1..];
  }

  /** A text that starts with `find` has it replaced, then the rest is processed. */
  lemma StrReplaceHit(s: string, find: string, rep: string, b: string)
    requires |find| > 0 && s == find + b
    ensures StrReplace(s, find, rep) == rep + StrReplace(b, find, rep)
  {
    assert s[..|find|] == find && s[|find|..] == b;
  }

  /** A text that starts with a character other than `find`'s first keeps it. */
  lemma StrReplaceMiss(s: string, find: string, rep: string, t: string)
    requires |find| > 0 && |s| > 0 && s[0] != find[0] && s == [s[0]] + t
    ensures StrReplace(s, find, rep) == [s[0]] + StrReplace(t, find, rep)
  {
    assert s[1..] == t;
    if |s| >= |find| {
      assert s[..|find|][0] == s[0];
    }
  }

  /** A text that lacks some character of `pat` does not contain `pat`. */
  lemma NoCharOf(s: string, pat: string, k: nat)
    requires k < |pat| && pat[k] !in s
    ensures !Contains(s, pat)
  {
    forall i: nat | i <= |s|
      ensures !OccursAt(s, pat, i)
    {
      if i + |pat| <= |s| {
        assert s[i..i + |pat|][k] == s[i + k];
        assert s[i + k] in s;
      }
    }
  }

  /**
   * When the last character of `pat` occurs neither in `pre` nor earlier in `pat`,
   * the first occurrence of `pat` in `pre + pat + rest` is the one after `pre`.
   */
  lemma FirstAfter(pre: string, pat: string, rest: string)
    requires |pat| > 0 && pat[|pat| - 1] !in pre && pat[|pat| - 1] !in pat[..|pat| - 1]
    ensures IndexOf(pre + pat + rest, pat) == Some(|pre|)
  {
    var s := pre + pat + rest;
    var m := |pat| - 1;
    assert s[|pre|..|pre| + |pat|] == pat;
    assert OccursAt(s, pat, |pre|);
    forall j: nat | j < |pre|
      ensures !OccursAt(s, pat, j)
    {
      var e := j + m;
      if e < |pre| {
        assert s[e] == pre[e] && pre[e] in pre;
      } else {
        assert s[e] == pat[..m][e - |pre|] && pat[..m][e - |pre|] in pat[..m];
      }
      assert s[j..j + |pat|][m] == s[e];
    }
  }

  /** A text in which `x` is never directly followed by `y` does not contain `[x, y]`. */
  lemma NoPair(s: string, x: char, y: char)
    requires forall i :: 0 <= i < |s| - 1 ==> !(s[i] == x && s[i + 1] == y)
    ensures !Contains(s, [x, y])
  {
    forall i: nat | i <= |s|
      ensures !OccursAt(s, [x, y], i)
    {
      if i + 2 <= |s| {
        assert s[i..i + 2] == [s[i], s[i + 1]];
      }
    }
  }

  /** Length of the maximal run of characters other than `d` at the start of `s`. */
  function RunLength(s: string, d: char): (k: nat)
    ensures k <= |s|
    ensures forall j :: 0 <= j < k ==> s[j] != d
    ensures k == |s| || s[k] == d
  {
    if s == [] || s[0] == d then 0 else 1 + RunLength(s[1..], d)
  }

  /**
   * The tokens `strtok` returns for the delimiter set `{d}`, in order: maximal runs
   * of non-delimiters; empty tokens never appear.
   */
  function Tokens(s: string, d: char): (r: seq<string>)
    ensures forall t :: t in r ==> |t| > 0 && d !in t
    decreases |s|
  {
    if s == [] then []
    else if s[0] == d then Tokens(s[1..], d)
    else
      var k := RunLength(s, d);
      [s[..k]] + Tokens(s[k..], d)
  }

  /** Tokens of a concatenation separated by the delimiter are the tokens of each side. */
  lemma {:induction false} TokensAppend(a: string, b: string, d: char)
    ensures Tokens(a + [d] + b, d) == Tokens(a, d) + Tokens(b, d)
    decreases |a|
  {
    if a == [] {
      assert a + [d] + b == [d] + b;
      assert ([d] + b)[1..] == b;
    } else if a[0] == d {
      assert (a + [d] + b)[1..] == a[1..] + [d] + b;
      TokensAppend(a[1..], b, d);
    } else {
      var s := a + [d] + b;
      var k := RunLength(a, d);
      AppendPieces(a, b, d, s, k);
      TokensWord(s, k, d);
      TokensWord(a, k, d);
      TokensAppend(a[k..], b, d);
      TokensRegroup(Tokens(s, d), Tokens(a, d), [a[..k]], Tokens(a[k..], d), Tokens(b, d));
    }
  }

  /** A text that starts with a token: that token, then the tokens of the rest. */
  lemma TokensWord(s: string, k: nat, d: char)
    requires |s| > 0 && s[0] != d && k == RunLength(s, d)
    ensures Tokens(s, d) == [s[..k]] + Tokens(s[k..], d)
  {
  }

  /** Where the pieces of `a`, the delimiter and `b` sit, when `a` starts with a token. */
  lemma AppendPieces(a: string, b: string, d: char, s: string, k: nat)
    requires s == a + [d] + b && |a| > 0 && a[0] != d && k == RunLength(a, d)
    ensures |s| > 0 && s[0] != d && RunLength(s, d) == k && k < |a| + 1
    ensures s[..k] == a[..k] && s[k..] == a[k..] + [d] + b
  {
    RunLengthOfJoin(a, b, d, s);
    JoinSlices(a, b, d, s, k);
  }

  /** The first token of `a`, the delimiter and `b` lies within `a`. */
  lemma RunLengthOfJoin(a: string, b: string, d: char, s: string)
    requires s == a + [d] + b
    ensures RunLength(s, d) == RunLength(a, d)
  {
    assert s == a + ([d] + b);
    RunLengthAppend(a, [d] + b, d);
  }

  /** Cutting `a`, the delimiter and `b` at `k <= |a|`. */
  lemma JoinSlices(a: string, b: string, d: char, s: string, k: nat)
    requires s == a + [d] + b && k <= |a|
    ensures s[..k] == a[..k] && s[k..] == a[k..] + [d] + b
  {
    assert s[..k] == a[..k];
    assert s[k..] == a[k..] + [d] + b;
  }

  /** The first token, then the rest of `a`'s tokens and `b`'s, regrouped. */
  lemma TokensRegroup(whole: seq<string>, left: seq<string>, x: seq<string>, y: seq<string>, z: seq<string>)
    requires whole == x + (y + z) && left == x + y
    ensures whole == left + z
  {
  }

  lemma {:induction false} RunLengthAppend(a: string, b: string, d: char)
    requires b == [] || b[0] == d || RunLength(a, d) < |a|
    ensures RunLength(a + b, d) == RunLength(a, d)
    decreases |a|
  {
    if a == [] {
    } else if a[0] == d {
    } else {
      assert (a + b)[1..] == a[1..] + b;
      RunLengthAppend(a[1..], b, d);
    }
  }

  // ---------------------------------------------------------------- decimal numbers

  predicate IsDigit(c: char) {
    '0' <= c <= '9'
  }

  function DigitChar(d: nat): (c: char)
    requires d < 10
    ensures IsDigit(c)
  {
    ('0' as int + d) as char
  }

  function DigitValue(c: char): (d: nat)
    requires IsDigit(c)
    ensures d < 10 && DigitChar(d) == c
  {
    c as int - '0' as int
  }

  /** `sprintf("%d", n)` for a non-negative `n`. */
  function NatToString(n: nat): (r: string)
    ensures |r| > 0 && forall i :: 0 <= i < |r| ==> IsDigit(r[i])
    decreases n
  {
    if n < 10 then [DigitChar(n)] else NatToString(n / 10) + [DigitChar(n % 10)]
  }

  /** `sprintf("%d", i)` for any `i`. */
  function IntToString(i: int): (r: string)
    ensures |r| > 0
    ensures i < 0 <==> r[0] == '-'
  {
    if i < 0 then "-" + NatToString(-i)
    else
      var r := NatToString(i);
      assert IsDigit(r[0]);
      r
  }

  /** The value of a non-empty run of decimal digits. */
  function ParseNat(s: string): (n: nat)
    requires |s| > 0 && forall i :: 0 <= i < |s| ==> IsDigit(s[i])
    decreases |s|
  {
    if |s| == 1 then DigitValue(s[0])
    else ParseNat(s[..|s| - 1]) * 10 + DigitValue(s[|s| - 1])
  }

  /** Reading back what `NatToString` wrote gives the number. */
  lemma {:induction false} ParseNatToString(n: nat)
    ensures ParseNat(NatToString(n)) == n
    decreases n
  {
    if n >= 10 {
      var s := NatToString(n);
      assert s[..|s| - 1] == NatToString(n / 10);
      ParseNatToString(n / 10);
    }
  }

  /** Distinct numbers are written differently. */
  lemma NatToStringInjective(a: nat, b: nat)
    requires NatToString(a) == NatToString(b)
    ensures a == b
  {
    ParseNatToString(a);
    ParseNatToString(b);
  }
}
