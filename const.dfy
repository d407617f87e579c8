/**
 * Constant bindings (Rpkg/inst/builder_src/const.c): a line `x -< v` becomes
 * `x <- v;lockBinding("x", environment());`. The arrow is rewritten in the
 * caller's own buffer, which also loses its trailing newline.
 */
module Const {
  import opened Strings
  import opened CStr

  /** `s` without its trailing `isspace` characters. */
  function TrimEnd(s: string): (r: string)
    ensures |r| <= |s| && r == s[..|r|]
    ensures r == [] || !IsSpace(r[|r| - 1])
    ensures forall i :: |r| <= i < |s| ==> IsSpace(s[i])
    decreases |s|
  {
    if |s| > 0 && IsSpace(s[|s| - 1]) then TrimEnd(s[..|s| - 1]) else s
  }

  /**
   * The swap loop of lines 27-37 on a string: each `-` before the first `<`
   * becomes `<`, and that first `<` becomes `-`.
   */
  function Swapped(t: string): (r: string)
    ensures |r| == |t|
    decreases |t|
  {
    if t == [] then []
    else if t[0] == '-' then ['<'] + Swapped(t[1..])
    else if t[0] == '<' then ['-'] + t[1..]
    else [t[0]] + Swapped(t[1..])
  }

  /** The call appended after the rewritten line (lines 41-43). */
  function LockBinding(lhs: string): string {
    ";lockBinding(\"" + lhs + "\", environment());"
  }

  /** The text `replace_const` returns for the line `s`. */
  function ConstRewrite(s: string): (r: string)
    ensures !Contains(s, "-<") ==> r == s
  {
    match IndexOf(s, "-<")
    case None => s
    case Some(k) => Swapped(DropNewline(s)) + LockBinding(TrimEnd(s[..k]))
  }

  /**
   * The caller's buffer after the call: without `-<` it is untouched; otherwise
   * its string is the swapped line less its newline, whose place takes a NUL.
   */
  ghost function ConstBuffer(a: seq<char>): seq<char> {
    var t := Text(a);
    if !Contains(t, "-<") then a
    else
      var d := DropNewline(t);
      Swapped(d) + (if |d| < |t| then [NUL] else []) + a[|t|..]
  }

  /** The decrementing loop of lines 17-20 that trims the left-hand side. */
  method TrimLhs(s: string) returns (r: string)
    ensures r == TrimEnd(s)
  {
    var n := |s|;
    while n > 0 && IsSpace(s[n - 1])
      invariant 0 <= n <= |s|
      invariant TrimEnd(s) == TrimEnd(s[..n])
    {
      assert s[..n][..n - 1] == s[..n - 1];
      n := n - 1;
    }
    assert s[..n] == TrimEnd(s[..n]);
    r := s[..n];
  }

  /** Lines 27-37 on the first `n` characters of the buffer. */
  method SwapArrow(line: array<char>, n: nat)
    requires n <= line.Length
    modifies line
    ensures line[..] == Swapped(old(line[..n])) + old(line[n..])
  {
    ghost var o := line[..];
    var i := 0;
    while i < n
      invariant i <= n
      invariant forall j :: 0 <= j < i ==> o[j] != '<' && line[j] == Dashed(o[j])
      invariant forall j :: i <= j < line.Length ==> line[j] == o[j]
    {
      if line[i] == '-' {
        line[i] := '<';
        i := i + 1;
        continue;
      }
      if line[i] == '<' {
        line[i] := '-';
        SwapFinish(o, line[..], n, i);
        return;
      }
      i := i + 1;
    }
    SwapFinish(o, line[..], n, n);
  }

  /** What the swap loop does to a character before the first `<`. */
  function Dashed(c: char): char {
    if c == '-' then '<' else c
  }

  /**
   * `Swapped` character by character: before the first `<` every `-` becomes `<`,
   * that `<` becomes `-`, and everything after it is kept.
   */
  lemma {:induction false} SwappedIndex(t: string, j: nat)
    requires j < |t|
    ensures Swapped(t)[j] == if '<' in t[..j] then t[j] else if t[j] == '<' then '-' else Dashed(t[j])
    decreases j
  {
    if t[0] != '<' && j > 0 {
      assert Swapped(t) == [Dashed(t[0])] + Swapped(t[1..]);
      assert t[..j] == [t[0]] + t[1..][..j - 1];
      SwappedIndex(t[1..], j - 1);
    }
  }

  /**
   * The buffer after the loop stopped at `i`: the characters before `i` had no
   * `<` and were dashed, and either `i` held the first `<` and now holds `-`, or
   * the loop ran to `n`; nothing else changed.
   */
  lemma SwapFinish(o: seq<char>, cur: seq<char>, n: nat, i: nat)
    requires i <= n <= |o| == |cur|
    requires forall j :: 0 <= j < i ==> o[j] != '<' && cur[j] == Dashed(o[j])
    requires i < n ==> o[i] == '<' && cur[i] == '-'
    requires forall j :: i < j < |o| ==> cur[j] == o[j]
    requires i == n && n < |o| ==> cur[n] == o[n]
    ensures cur == Swapped(o[..n]) + o[n..]
  {
    var t := o[..n];
    forall j | 0 <= j < |cur|
      ensures cur[j] == (Swapped(t) + o[n..])[j]
    {
      if j < n {
        SwappedIndex(t, j);
        if j <= i {
          assert '<' !in t[..j] by {
            forall k | 0 <= k < j ensures t[..j][k] != '<' { assert t[..j][k] == o[k]; }
          }
        } else {
          assert t[..j][i] == '<';
        }
      }
    }
  }

  /**
   * Lines 23-25: skip the blanks after `-<`, then cut a newline at the end of
   * what is left, which is the end of the line.
   */
  method CutNewline(line: array<char>, k: nat) returns (d: string)
    requires OccursAt(Text(line[..]), "-<", k)
    modifies line
    ensures d == DropNewline(old(Text(line[..])))
    ensures Text(line[..]) == d
    ensures line[..] == if |d| < |old(Text(line[..]))| then old(line[..])[|d| := NUL] else old(line[..])
  {
    var t := Text(line[..]);
    var p := k + 2;
    while p < |t| && IsSpace(t[p])
      invariant k + 2 <= p <= |t|
    {
      p := p + 1;
    }
    // `pos[strlen(pos) - 1]` is the last character of the line
    var last := p + (|t| - p) - 1;
    d := t;
    if line[last] == '\n' {
      Truncate(line[..], last);
      line[last] := NUL;
      d := t[..last];
    }
  }

  /** `replace_const`: computes the new line and rewrites the caller's buffer. */
  method ReplaceConst(line: array<char>) returns (r: string)
    modifies line
    ensures r == ConstRewrite(old(Text(line[..])))
    ensures line[..] == ConstBuffer(old(line[..]))
  {
    var t := Text(line[..]);
    var pos := IndexOf(t, "-<");
    if pos.None? {
      return t;
    }
    var k := pos.value;
    var lhs := TrimLhs(t[..k]);
    var d := CutNewline(line, k);
    ghost var mid := line[..];
    CutTail(old(line[..]), t, d);
    ConstBufferOf(old(line[..]), t, d);
    var swapped := SwapLine(line, d);
    assert line[..] == Swapped(d) + mid[|d|..];
    r := swapped + LockBinding(lhs);
  }

  /** The buffer `replace_const` leaves when the line `t` of `o` holds an arrow. */
  lemma ConstBufferOf(o: seq<char>, t: string, d: string)
    requires t == Text(o) && Contains(t, "-<") && d == DropNewline(t)
    ensures ConstBuffer(o) == Swapped(d) + ((if |d| < |t| then [NUL] else []) + o[|t|..])
  {
  }

  /** Lines 27-39: the arrow is swapped in the buffer, whose string is then read back. */
  method SwapLine(line: array<char>, d: string) returns (r: string)
    requires Text(line[..]) == d
    modifies line
    ensures r == Swapped(d) && Text(line[..]) == r
    ensures line[..] == Swapped(d) + old(line[..])[|d|..]
  {
    SwapArrow(line, |d|);
    assert line[..] == Swapped(d) + old(line[..])[|d|..];
    SwappedLacks(d, NUL);
    TextUnique(Swapped(d), line[..]);
    r := Text(line[..]);
  }

  /** After the newline cut, the buffer from the end of the string on is the NUL, if any, and the old tail. */
  lemma CutTail(o: seq<char>, t: string, d: string)
    requires t == Text(o) && d == DropNewline(t)
    ensures (if |d| < |t| then o[|d| := NUL] else o)[|d|..] == (if |d| < |t| then [NUL] else []) + o[|t|..]
  {
  }

  /** The swap brings in no character but `<` and `-`. */
  lemma {:induction false} SwappedLacks(t: string, c: char)
    requires c !in t && c != '<' && c != '-'
    ensures c !in Swapped(t)
    decreases |t|
  {
    if t != [] && t[0] != '<' {
      assert forall x :: x in t[1..] ==> x in t;
      SwappedLacks(t[1..], c);
    }
  }

  /** The first arrow `-<` after a text free of `-` and `<` becomes `<-`; the rest is kept. */
  lemma {:induction false} SwappedArrow(a: string, b: string)
    requires '-' !in a && '<' !in a
    ensures Swapped(a + "-<" + b) == a + "<-" + b
    decreases |a|
  {
    if a == [] {
      assert a + "-<" + b == ['-'] + (['<'] + b);
      assert (['-'] + (['<'] + b))[1..] == ['<'] + b;
      assert (['<'] + b)[1..] == b;
    } else {
      assert a[0] in a;
      SwappedHead(a + "-<" + b, a[0], a[1..] + "-<" + b);
      SwappedArrow(a[1..], b);
      ConsRegroup(a, "<-", b);
    }
  }

  /** A character other than `-` and `<` is kept and the swap goes on after it. */
  lemma SwappedHead(t: string, c: char, u: string)
    requires t == [c] + u && c != '-' && c != '<'
    ensures Swapped(t) == [c] + Swapped(u)
  {
    assert t[1..] == u;
  }

  lemma ConsRegroup(a: string, m: string, b: string)
    requires a != []
    ensures a + m + b == [a[0]] + (a[1..] + m + b)
  {
    assert a == [a[0]] + a[1..];
  }

  /** Trailing blanks after a text that does not end in one are exactly what is trimmed. */
  lemma {:induction false} TrimEndPad(lhs: string, pad: string)
    requires lhs == [] || !IsSpace(lhs[|lhs| - 1])
    requires forall i :: 0 <= i < |pad| ==> IsSpace(pad[i])
    ensures TrimEnd(lhs + pad) == lhs
    decreases |pad|
  {
    if pad == [] {
      assert lhs + pad == lhs;
    } else {
      var s := lhs + pad;
      assert s[|s| - 1] == pad[|pad| - 1];
      assert s[..|s| - 1] == lhs + pad[..|pad| - 1];
      TrimEndPad(lhs, pad[..|pad| - 1]);
    }
  }

  /**
   * `x -< v`: the line becomes `x <- v` without its newline, followed by the
   * call that locks `x`, the text before the arrow less its trailing blanks.
   */
  lemma ConstLine(lhs: string, pad: string, v: string)
    requires '-' !in lhs && '<' !in lhs && (lhs == [] || !IsSpace(lhs[|lhs| - 1]))
    requires forall i :: 0 <= i < |pad| ==> IsSpace(pad[i])
    ensures ConstRewrite(lhs + pad + "-<" + v) == lhs + pad + "<-" + DropNewline(v) + LockBinding(lhs)
  {
    var pre := lhs + pad;
    var s := pre + "-<" + v;
    assert '<' !in pre && '-' !in pre by {
      assert forall i :: 0 <= i < |pad| ==> pad[i] != '<' && pad[i] != '-';
    }
    FirstAfter(pre, "-<", v);
    assert s[..|pre|] == pre;
    TrimEndPad(lhs, pad);
    assert DropNewline(s) == pre + "-<" + DropNewline(v) by {
      if |v| > 0 && v[|v| - 1] == '\n' {
        assert s[..|s| - 1] == pre + "-<" + v[..|v| - 1];
      }
    }
    SwappedArrow(pre, DropNewline(v));
  }

  /** The buffer the caller keeps holds the rewritten line, without the newline and the lock call. */
  lemma ConstBufferText(a: seq<char>)
    requires Contains(Text(a), "-<")
    ensures Text(ConstBuffer(a)) == Swapped(DropNewline(Text(a)))
  {
    var t := Text(a);
    var d := DropNewline(t);
    SwappedLacks(d, NUL);
    TextUnique(Swapped(d), ConstBuffer(a));
  }

  /** `x -< 5` with its newline becomes `x <- 5;lockBinding("x", environment());`. */
  lemma ConstExample(line: string)
    requires line == "x -< 5\n"
    ensures ConstRewrite(line) == "x <- 5" + ";lockBinding(\"x\"" + ", environment());"
  {
    ConstExampleText(line);
    ConstLine("x", " ", " 5\n");
  }

  lemma ConstExampleText(line: string)
    requires line == "x -< 5\n"
    ensures line == "x" + " " + "-<" + " 5\n"
    ensures '-' !in "x" && '<' !in "x" && !IsSpace("x"[0]) && IsSpace(" "[0])
    ensures DropNewline(" 5\n") == " 5"
    ensures "x" + " " + "<-" + " 5" == "x <- 5"
    ensures LockBinding("x") == ";lockBinding(\"x\"" + ", environment());"
  {
  }
}
