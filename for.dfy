/**
 * Loop unrolling (src/for.c): a block whose first line is `#for TOKEN in A:B`
 * becomes its body repeated for i = A..B, with every `..TOKEN..` replaced by i.
 */
module For {
  import opened Wrappers
  import opened Strings
  import opened Scanf
  import opened CStr

  /** `enter_for`: the line opens a loop. */
  predicate EnterFor(line: string): (b: bool)
    ensures IsPrefix("#for", line) ==> b
    ensures b ==> |line| >= 4
  {
    assert IsPrefix("#for", line) ==> OccursAt(line, "#for", 0);
    Contains(line, "#for")
  }

  /** `exit_for`: the line closes a loop. */
  predicate ExitFor(line: string): (b: bool)
    ensures IsPrefix("#endfor", line) ==> b
    ensures b ==> |line| >= 7
  {
    assert IsPrefix("#endfor", line) ==> OccursAt(line, "#endfor", 0);
    Contains(line, "#endfor")
  }

  /** The width of `%63s`, the longest token read. */
  const TokenWidth := 63

  /**
   * `sscanf(statement, "#for %63s in %d:%d", ...)` with all three conversions
   * done: `#for` exactly, a word of at most 63 characters, then the range.
   */
  function ParseHeader(h: string): (r: Option<(string, int, int)>)
    ensures r.Some? ==> IsPrefix("#for", h) && 0 < |r.value.0| <= TokenWidth
  {
    if !IsPrefix("#for", h) then None
    else match ScanWord(h[4..], TokenWidth)
      case None => None
      case Some((token, s1)) =>
        match ParseRange(s1)
        case None => None
        case Some((start, end)) => Some((token, start, end))
  }

  /** The ` in %d:%d` part of the format: `in` after blanks, then the bounds. */
  function ParseRange(s1: string): (r: Option<(int, int)>)
    ensures r.Some? ==> IsPrefix("in", SkipSpace(s1))
  {
    var s2 := SkipSpace(s1);
    if !IsPrefix("in", s2) then None else ParseBounds(s2[2..])
  }

  /** `%d:%d`: a number, `:` right after it, a number; the rest is ignored. */
  function ParseBounds(s: string): (r: Option<(int, int)>)
    ensures r.Some? ==> ScanInt(s).Some?
  {
    match ScanInt(s)
    case None => None
    case Some((start, s3)) =>
      if !IsPrefix(":", s3) then None
      else match ScanInt(s3[1..])
        case None => None
        case Some((end, _)) => Some((start, end))
  }

  /** The text a loop body marks its counter with (line 46). */
  function Placeholder(token: string): (r: string)
    ensures |r| == |token| + 4 && r[0] == '.'
  {
    ".." + token + ".."
  }

  /** The first `count` iterations from `start`: the body with the counter written in, in order. */
  function Iterations(body: string, pattern: string, start: int, count: nat): string
    requires |pattern| > 0
    decreases count
  {
    if count == 0 then ""
    else Iterations(body, pattern, start, count - 1) + StrReplace(body, pattern, IntToString(start + count - 1))
  }

  /**
   * `replace_for` on the text of its buffer: `""` without a newline or with a
   * header that does not parse, NULL for an empty range, else the iterations.
   */
  function Unrolled(text: string): (r: Option<string>)
    ensures !Contains(text, "\n") ==> r == Some("")
  {
    match IndexOf(text, "\n")
    case None => Some("")
    case Some(k) => UnrolledBlock(ParseHeader(text[..k]), text[k + 1..])
  }

  /** The result for the parsed statement line `header` and the `body` after it. */
  function UnrolledBlock(header: Option<(string, int, int)>, body: string): (r: Option<string>)
    ensures header.None? ==> r == Some("")
  {
    if header.None? then Some("")
    else
      var token, start, end := header.value.0, header.value.1, header.value.2;
      if start > end then None
      else Some(Iterations(body, Placeholder(token), start, end - start + 1))
  }

  /** The caller's buffer afterwards: its first newline, if any, is now a NUL. */
  ghost function ForBuffer(a: seq<char>): seq<char> {
    match IndexOf(Text(a), "\n")
    case None => a
    case Some(k) => a[k := NUL]
  }

  /** The counted loop of lines 49-78; `result` stays NULL when the range is empty. */
  method Unroll(body: string, pattern: string, start: int, end: int) returns (r: Option<string>)
    requires |pattern| > 0
    ensures r == if start > end then None else Some(Iterations(body, pattern, start, end - start + 1))
  {
    r := None;
    var i := start;
    while i <= end
      invariant start <= i && (start <= end ==> i <= end + 1) && (start > end ==> i == start)
      invariant r == if i == start then None else Some(Iterations(body, pattern, start, i - start))
      decreases end - i + 1
    {
      var iteration := StrReplace(body, pattern, IntToString(i));
      assert Iterations(body, pattern, start, i + 1 - start)
        == Iterations(body, pattern, start, i - start) + iteration;
      if r.None? {
        assert "" + iteration == iteration;
        r := Some(iteration);
      } else {
        r := Some(r.value + iteration);
      }
      i := i + 1;
    }
    if start <= end {
      assert i == end + 1 && i != start;
      assert r == Some(Iterations(body, pattern, start, end - start + 1));
    }
  }

  /** Lines 27-29: the newline becomes a NUL; the statement ends there and the body starts after it. */
  method SplitAtNewline(buffer: array<char>, k: nat) returns (statement: string, body: string)
    requires IndexOf(Text(buffer[..]), "\n") == Some(k)
    modifies buffer
    ensures statement == old(Text(buffer[..]))[..k] && body == old(Text(buffer[..]))[k + 1..]
    ensures buffer[..] == old(buffer[..])[k := NUL] == ForBuffer(old(buffer[..]))
    ensures Unrolled(old(Text(buffer[..]))) == UnrolledBlock(ParseHeader(statement), body)
  {
    Truncate(buffer[..], k);
    TextFrom(buffer[..], k + 1);
    ghost var rest := buffer[k + 1..];
    buffer[k] := NUL;
    assert buffer[k + 1..] == rest;
    statement := Text(buffer[..]);
    body := Text(buffer[k + 1..]);
  }

  /** Lines 31-78 once the statement is parsed: `""` for a bad header, else the counted loop. */
  method UnrollBlock(header: Option<(string, int, int)>, body: string) returns (r: Option<string>)
    ensures r == UnrolledBlock(header, body)
  {
    if header.None? {
      return Some("");
    }
    var token, start, end := header.value.0, header.value.1, header.value.2;
    r := Unroll(body, Placeholder(token), start, end);
  }

  /** `replace_for`: splits its buffer at the first newline in place and unrolls. */
  method ReplaceFor(buffer: array<char>) returns (r: Option<string>)
    modifies buffer
    ensures r == Unrolled(old(Text(buffer[..])))
    ensures buffer[..] == ForBuffer(old(buffer[..]))
  {
    var text := Text(buffer[..]);
    var delimiter := IndexOf(text, "\n");
    if delimiter.None? {
      return Some("");
    }
    var k := delimiter.value;
    var statement, body := SplitAtNewline(buffer, k);
    r := UnrollBlock(ParseHeader(statement), body);
  }

  /** The `%Ns` conversion after a blank reads a word of at most N non-blank characters up to the next blank. */
  lemma ScanWordBack(tok: string, tail: string, width: nat)
    requires 0 < |tok| <= width && forall i :: 0 <= i < |tok| ==> !IsSpace(tok[i])
    requires |tail| > 0 && IsSpace(tail[0])
    ensures ScanWord(" " + tok + tail, width) == Some((tok, tail))
  {
    var s := " " + tok + tail;
    assert s[1..] == tok + tail;
    assert SkipSpace(s) == tok + tail by {
      assert !IsSpace((tok + tail)[0]);
    }
    WordLengthAppend(tok, tail);
    assert (tok + tail)[..|tok|] == tok;
  }

  /** A word followed by a blank has exactly its own length as leading word. */
  lemma {:induction false} WordLengthAppend(tok: string, tail: string)
    requires forall i :: 0 <= i < |tok| ==> !IsSpace(tok[i])
    requires |tail| > 0 && IsSpace(tail[0])
    ensures WordLength(tok + tail) == |tok|
    decreases |tok|
  {
    if tok == [] {
      assert tok + tail == tail;
    } else {
      assert (tok + tail)[1..] == tok[1..] + tail;
      WordLengthAppend(tok[1..], tail);
    }
  }

  /** `%d:%d` succeeds when both numbers scan and the first is followed by `:`. */
  lemma BoundsOf(s: string, a: int, t3: string, b: int, rest: string)
    requires ScanInt(s) == Some((a, t3))
    requires |t3| > 0 && t3[0] == ':' && ScanInt(t3[1..]) == Some((b, rest))
    ensures ParseBounds(s) == Some((a, b))
  {
    assert IsPrefix(":", t3);
  }

  /** The bounds part reads back the two numbers `%d` wrote, whatever non-digit follows. */
  lemma BoundsRoundTrip(a: int, b: int, rest: string)
    requires rest == [] || !IsDigit(rest[0])
    ensures ParseBounds(IntToString(a) + ":" + IntToString(b) + rest) == Some((a, b))
  {
    var tb := IntToString(b) + rest;
    var t3 := ":" + tb;
    var s := IntToString(a) + t3;
    BoundsText(IntToString(a), IntToString(b), rest);
    ScanIntToString(a, t3);
    ScanIntToString(b, rest);
    BoundsOf(s, a, t3, b, rest);
  }

  /** The text `x:y` and the rest, grouped as the two conversions read it. */
  lemma BoundsText(x: string, y: string, rest: string)
    ensures x + ":" + y + rest == x + (":" + (y + rest))
    ensures (":" + (y + rest))[1..] == y + rest
  {
  }

  /** The bounds are read after `in` and the blanks before it. */
  lemma RangeOf(s1: string, t: string)
    requires SkipSpace(s1) == "in" + t
    ensures ParseRange(s1) == ParseBounds(t)
  {
    assert ("in" + t)[2..] == t;
  }

  /** `%d` skips blanks, so the bounds do too. */
  lemma BoundsBlank(t: string)
    ensures ParseBounds(" " + t) == ParseBounds(t)
  {
    ScanIntBlank(t);
  }

  /** ` in ` before the bounds is what the format asks for. */
  lemma RangeIn(t: string)
    ensures ParseRange(" in " + t) == ParseBounds(t)
  {
    var s2 := "in" + (" " + t);
    assert " in " + t == " " + s2;
    SkipSpaceBlank(s2);
    assert s2[0] == 'i';
    SkipSpaceStops(s2);
    RangeOf(" in " + t, " " + t);
    BoundsBlank(t);
  }

  /** The range part reads back the two numbers `%d` wrote, whatever non-digit follows. */
  lemma RangeRoundTrip(a: int, b: int, rest: string)
    requires rest == [] || !IsDigit(rest[0])
    ensures ParseRange(" in " + IntToString(a) + ":" + IntToString(b) + rest) == Some((a, b))
  {
    var t := IntToString(a) + ":" + IntToString(b) + rest;
    RangeText(IntToString(a), IntToString(b), rest);
    RangeIn(t);
    BoundsRoundTrip(a, b, rest);
  }

  /** The text ` in x:y` and the rest, with the bounds grouped. */
  lemma RangeText(x: string, y: string, rest: string)
    ensures " in " + x + ":" + y + rest == " in " + (x + ":" + y + rest)
  {
  }

  /** After `#for`, a word `%63s` reads whole, then the range. */
  lemma HeaderOf(tok: string, range: string)
    requires 0 < |tok| <= TokenWidth && forall i :: 0 <= i < |tok| ==> !IsSpace(tok[i])
    requires |range| > 0 && IsSpace(range[0])
    ensures ParseHeader("#for " + tok + range) == match ParseRange(range)
      case None => None
      case Some((start, end)) => Some((tok, start, end))
  {
    var h := "#for " + tok + range;
    assert h == "#for" + (" " + tok + range);
    assert IsPrefix("#for", h) && h[4..] == " " + tok + range;
    ScanWordBack(tok, range, TokenWidth);
  }

  /** The header `#for TOKEN in A:B`, for a token `%63s` reads whole, parses back to its parts. */
  lemma HeaderRoundTrip(tok: string, a: int, b: int, rest: string)
    requires 0 < |tok| <= TokenWidth && forall i :: 0 <= i < |tok| ==> !IsSpace(tok[i])
    requires rest == [] || !IsDigit(rest[0])
    ensures ParseHeader("#for " + tok + " in " + IntToString(a) + ":" + IntToString(b) + rest) == Some((tok, a, b))
  {
    var range := " in " + IntToString(a) + ":" + IntToString(b) + rest;
    HeaderText(tok, IntToString(a), IntToString(b), rest, range);
    RangeRoundTrip(a, b, rest);
    HeaderOf(tok, range);
  }

  /** The header line is the keyword and token followed by the range text. */
  lemma HeaderText(tok: string, sa: string, sb: string, rest: string, range: string)
    requires range == " in " + sa + ":" + sb + rest
    ensures "#for " + tok + " in " + sa + ":" + sb + rest == "#for " + tok + range
    ensures |range| > 0 && IsSpace(range[0])
  {
    assert range[0] == ' ';
  }

  /** A loop block: the statement line up to the first newline, the body after it. */
  lemma ForBlock(statement: string, body: string)
    requires '\n' !in statement
    ensures Unrolled(statement + "\n" + body) == UnrolledBlock(ParseHeader(statement), body)
  {
    var text := statement + "\n" + body;
    FirstAfter(statement, "\n", body);
    assert text[..|statement|] == statement;
    assert text[|statement| + 1..] == body;
  }

  /** The iterations are the body for each counter value from `start`, one after the other. */
  lemma {:induction false} IterationsSplit(body: string, pattern: string, start: int, m: nat, n: nat)
    requires |pattern| > 0
    ensures Iterations(body, pattern, start, m + n)
      == Iterations(body, pattern, start, m) + Iterations(body, pattern, start + m, n)
    decreases n
  {
    if n == 0 {
      var before := Iterations(body, pattern, start, m);
      assert before + "" == before;
    } else {
      var k: nat := n - 1;
      IterationsSplit(body, pattern, start, m, k);
      IterationsSplitStep(body, pattern, start, m, k, n);
    }
  }

  /** The split for `n` iterations from the split for `n - 1`. */
  lemma IterationsSplitStep(body: string, pattern: string, start: int, m: nat, k: nat, n: nat)
    requires |pattern| > 0 && n == k + 1
    requires Iterations(body, pattern, start, m + k)
      == Iterations(body, pattern, start, m) + Iterations(body, pattern, start + m, k)
    ensures Iterations(body, pattern, start, m + n)
      == Iterations(body, pattern, start, m) + Iterations(body, pattern, start + m, n)
  {
    var v := start + m + k;
    var last := StrReplace(body, pattern, IntToString(v));
    IterationsStep(body, pattern, start, m + k, m + n, v);
    IterationsStep(body, pattern, start + m, k, n, v);
    AppendRegroup(Iterations(body, pattern, start, m + n), Iterations(body, pattern, start, m + k),
                  Iterations(body, pattern, start, m), Iterations(body, pattern, start + m, k), last,
                  Iterations(body, pattern, start + m, n));
  }

  /** Appending `last` to `before + middle` is appending `middle + last` to `before`. */
  lemma AppendRegroup(whole: string, prefix: string, before: string, middle: string, last: string, tail: string)
    requires whole == prefix + last && prefix == before + middle && tail == middle + last
    ensures whole == before + tail
  {
  }

  /** One more iteration appends the body for the last counter value `v`. */
  lemma IterationsStep(body: string, pattern: string, start: int, prev: nat, count: nat, v: int)
    requires |pattern| > 0 && count == prev + 1 && v == start + prev
    ensures Iterations(body, pattern, start, count)
      == Iterations(body, pattern, start, prev) + StrReplace(body, pattern, IntToString(v))
  {
  }

  /** `n` copies of `body`, one after the other. */
  function Repeat(body: string, n: nat): (r: string)
    ensures |r| == n * |body|
  {
    if n == 0 then "" else Repeat(body, n - 1) + body
  }

  /** A body without the placeholder is repeated once per counter value. */
  lemma {:induction false} IterationsPlain(body: string, pattern: string, start: int, count: nat)
    requires |pattern| > 0 && !Contains(body, pattern)
    ensures Iterations(body, pattern, start, count) == Repeat(body, count)
    decreases count
  {
    if count > 0 {
      IterationsPlain(body, pattern, start, count - 1);
    }
  }

  /** The statement line that declares `tok` running from `a` to `b`. */
  function Header(tok: string, a: int, b: int): (r: string)
    ensures IsPrefix("#for ", r)
  {
    "#for " + tok + " in " + IntToString(a) + ":" + IntToString(b)
  }

  /** `sprintf("%d")` writes no newline. */
  lemma NoNewlineInNumber(i: int)
    ensures '\n' !in IntToString(i)
  {
    if i < 0 {
      assert IntToString(i) == "-" + NatToString(-i);
    }
  }

  /**
   * A whole loop block: for a token `%63s` reads whole, the body is unrolled for
   * the counter from `a` up to `b`; an empty range gives NULL.
   */
  lemma ForLoop(tok: string, a: int, b: int, body: string)
    requires 0 < |tok| <= TokenWidth && forall i :: 0 <= i < |tok| ==> !IsSpace(tok[i])
    ensures Unrolled(Header(tok, a, b) + "\n" + body)
      == if a > b then None else Some(Iterations(body, Placeholder(tok), a, b - a + 1))
  {
    HeaderBlock(tok, a, b, body);
  }

  /** The statement line `Header` writes is the whole first line of the block. */
  lemma HeaderBlock(tok: string, a: int, b: int, body: string)
    requires 0 < |tok| <= TokenWidth && forall i :: 0 <= i < |tok| ==> !IsSpace(tok[i])
    ensures Unrolled(Header(tok, a, b) + "\n" + body) == UnrolledBlock(Some((tok, a, b)), body)
  {
    HeaderLacksNewline(tok, a, b);
    ForBlock(Header(tok, a, b), body);
    HeaderParses(tok, a, b);
  }

  /** The statement line `Header` writes parses back to its parts. */
  lemma HeaderParses(tok: string, a: int, b: int)
    requires 0 < |tok| <= TokenWidth && forall i :: 0 <= i < |tok| ==> !IsSpace(tok[i])
    ensures ParseHeader(Header(tok, a, b)) == Some((tok, a, b))
  {
    assert Header(tok, a, b) == "#for " + tok + " in " + IntToString(a) + ":" + IntToString(b) + "";
    HeaderRoundTrip(tok, a, b, "");
  }

  lemma HeaderLacksNewline(tok: string, a: int, b: int)
    requires forall i :: 0 <= i < |tok| ==> !IsSpace(tok[i])
    ensures '\n' !in Header(tok, a, b)
  {
    assert forall i :: 0 <= i < |tok| ==> tok[i] != '\n';
    NoNewlineInNumber(a);
    NoNewlineInNumber(b);
  }

  /** `#for i in 1:2` over `y <- ..i..` unrolls to `y <- 1` and `y <- 2`, in that order. */
  lemma TwoIterations(text: string)
    requires text == "#for i in 1:2\ny <- ..i..\n"
    ensures Unrolled(text) == Some("y <- 1\ny <- 2\n")
  {
    var body := "y <- ..i..\n";
    ExampleText(text, body);
    ForLoop("i", 1, 2, body);
    TwoReplacements(body);
  }

  lemma ExampleText(text: string, body: string)
    requires text == "#for i in 1:2\ny <- ..i..\n" && body == "y <- ..i..\n"
    ensures text == Header("i", 1, 2) + "\n" + body
    ensures !IsSpace("i"[0]) && 0 < |"i"| <= TokenWidth
  {
    assert IntToString(1) == "1" && IntToString(2) == "2";
  }

  lemma TwoReplacements(body: string)
    requires body == "y <- ..i..\n"
    ensures Iterations(body, Placeholder("i"), 1, 2) == "y <- 1\ny <- 2\n"
  {
    var pattern := Placeholder("i");
    assert pattern == "..i..";
    ReplaceExample(body, pattern, 1, "1");
    ReplaceExample(body, pattern, 2, "2");
    assert Iterations(body, pattern, 1, 0) == "";
    IterationsStep(body, pattern, 1, 1, 2, 2);
    IterationsStep(body, pattern, 1, 0, 1, 1);
    TwoLines(Iterations(body, pattern, 1, 0), StrReplace(body, pattern, IntToString(1)),
             StrReplace(body, pattern, IntToString(2)));
  }

  /** The two lines of the example, one after the other. */
  lemma TwoLines(none: string, first: string, second: string)
    requires none == "" && first == "y <- " + "1" + "\n" && second == "y <- " + "2" + "\n"
    ensures none + first + second == "y <- 1\ny <- 2\n"
  {
  }

  /** The example body with the counter `v`, written `num`, in place of its placeholder. */
  lemma ReplaceExample(body: string, pattern: string, v: int, num: string)
    requires body == "y <- ..i..\n" && pattern == "..i.." && 0 <= v < 10 && num == [DigitChar(v)]
    ensures StrReplace(body, pattern, IntToString(v)) == "y <- " + num + "\n"
  {
    assert body == "y <- " + pattern + "\n" && '.' !in "y <- ";
    assert !Contains("\n", pattern) by {
      NoCharOf("\n", pattern, 0);
    }
    assert IntToString(v) == num;
    StrReplaceOnce("y <- ", pattern, num, "\n");
  }

  /** The closing line `#endfor` closes a loop and does not open one. */
  lemma EndforIsNotFor(line: string)
    requires line == "#endfor"
    ensures ExitFor(line) && !EnterFor(line)
  {
    assert OccursAt(line, "#endfor", 0);
    forall i: nat | i <= |line|
      ensures !OccursAt(line, "#for", i)
    {
      if i + 4 <= |line| {
        assert line[i..i + 4][0] == line[i] && line[i..i + 4][1] == line[i + 1];
      }
    }
  }
}
