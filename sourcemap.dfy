/**
 * Source-map annotation (src/sourcemap.c): a line of code gets a trailing
 * comment ` # line: N` naming its line in the original file. The caller's line
 * is released by the call, so its in-place newline cut is not observable and
 * the line is taken as a value.
 */
module Sourcemap {
  import opened Strings

  /** The characters the skip loop of line 13 passes over. */
  predicate IsBlank(c: char) {
    c == ' ' || c == '\t' || c == '\n' || c == '\r'
  }

  /** A line made only of blanks (the empty line included). */
  predicate Blank(s: string) {
    forall i :: 0 <= i < |s| ==> IsBlank(s[i])
  }

  /** The comment of line 19 for line `n` (`%d`, so negative numbers keep their sign). */
  function LineComment(n: int): (r: string)
    ensures IsPrefix("# line: ", r)
  {
    "# line: " + IntToString(n)
  }

  /**
   * `add_sourcemap`: a line with `#` anywhere or with nothing but blanks is
   * returned as it is; any other loses one trailing newline and gets the comment.
   */
  function Annotate(line: string, n: int): (r: string)
    ensures Contains(line, "#") || Blank(line) ==> r == line
  {
    if Contains(line, "#") || Blank(line) then line
    else DropNewline(line) + " " + LineComment(n) + "\n"
  }

  /** Lines 8-27, with the skip loop of line 13. */
  method AddSourcemap(line: string, n: int) returns (r: string)
    ensures r == Annotate(line, n)
  {
    if IndexOf(line, "#").Some? {
      return line;
    }
    var p := 0;
    while p < |line| && IsBlank(line[p])
      invariant p <= |line|
      invariant forall i :: 0 <= i < p ==> IsBlank(line[i])
    {
      p := p + 1;
    }
    if p == |line| {
      return line;
    }
    var lineStr := "# line: " + IntToString(n);
    var text := line;
    if |text| > 0 && text[|text| - 1] == '\n' {
      text := text[..|text| - 1];
    }
    r := text + " " + lineStr + "\n";
  }

  /** An annotated line holds a `#`, which is what makes annotation idempotent. */
  lemma AnnotatedHasHash(line: string, n: int)
    ensures Contains(DropNewline(line) + " " + LineComment(n) + "\n", "#")
  {
    HashAfter(DropNewline(line), IntToString(n));
  }

  /** The `#` of the comment sits right after the code and its blank. */
  lemma HashAfter(d: string, num: string)
    ensures OccursAt(d + " " + ("# line: " + num) + "\n", "#", |d| + 1)
  {
    var s := d + " " + ("# line: " + num) + "\n";
    assert s[|d| + 1] == '#';
    assert s[|d| + 1..|d| + 2] == "#";
  }

  /** Annotating an annotated line changes nothing, whatever line number is given. */
  lemma AnnotateIdempotent(line: string, n: int, m: int)
    ensures Annotate(Annotate(line, n), m) == Annotate(line, n)
  {
    if !(Contains(line, "#") || Blank(line)) {
      AnnotatedHasHash(line, n);
    }
  }

  /** A line of code that is not a comment: its text, less the newline, then ` # line: N` and a newline. */
  lemma AnnotateCode(code: string, n: int)
    requires '#' !in code && |code| > 0 && !IsBlank(code[0])
    ensures Annotate(code + "\n", n) == code + " # line: " + IntToString(n) + "\n"
  {
    var s := code + "\n";
    NoCharOf(s, "#", 0);
    assert !Blank(s) by {
      assert !IsBlank(s[0]);
    }
    assert DropNewline(s) == code;
    CommentText(code, IntToString(n));
  }

  /** The blank and the comment `# line: ` `num` after the code, regrouped. */
  lemma CommentText(code: string, num: string)
    ensures code + " " + ("# line: " + num) + "\n" == code + " # line: " + num + "\n"
  {
  }
}
