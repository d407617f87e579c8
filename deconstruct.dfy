/**
 * Destructuring assignment (src/deconstruct.c): a line `.[a, b] <- rhs` becomes
 * `.destructure_tmp_ <- rhs` followed by one line `a <- .destructure_tmp_[[1]]`
 * per collected name, in order.
 */
module Deconstruct {
  import opened Wrappers
  import opened Strings
  import opened CStr

  /** The temporary that receives the right-hand side. */
  const TmpName := ".destructure_tmp_"

  /**
   * The state of the character loop of lines 68-96: whether `.[` has been seen,
   * the name being read, and the names pushed so far.
   */
  datatype ScanState = ScanState(active: bool, buffer: string, names: seq<string>)

  const ScanStart := ScanState(false, [], [])

  /**
   * The loop run over the rest `s` of the line. `.[` switches collection on,
   * spaces are skipped, nothing is kept before the switch, and `,` or `]` pushes
   * the name read so far; other characters extend it. With `stop` the scan also
   * ends after the name a `]` pushes, which is what the `break` of lines 92-95
   * is for. As written that `break` sits after a branch that already continues on
   * `]`, so it never runs: `deconstruct_replace` scans with `stop` false and
   * collection goes on after the bracket.
   */
  function Scan(s: string, st: ScanState, stop: bool): (r: ScanState)
    ensures st.names <= r.names
    decreases |s|
  {
    if s == [] then st
    else if |s| > 1 && s[0] == '.' && s[1] == '[' then Scan(s[2..], st.(active := true), stop)
    else if s[0] == ' ' || !st.active then Scan(s[1..], st, stop)
    else if s[0] == ']' && stop then ScanState(false, [], st.names + [st.buffer])
    else if s[0] == ',' || s[0] == ']' then Scan(s[1..], ScanState(true, [], st.names + [st.buffer]), stop)
    else Scan(s[1..], st.(buffer := st.buffer + [s[0]]), stop)
  }

  /** The names `deconstruct_replace` pushes with `push_var` for a line, in order. */
  function Names(s: string): seq<string> {
    Scan(s, ScanStart, false).names
  }

  /** The names the scan collects when `]` ends it, as lines 92-95 intend. */
  function NamesStopping(s: string): seq<string> {
    Scan(s, ScanStart, true).names
  }

  /** Lines 58-61 and 98-100: the line starts with `.` after its spaces and yields names. */
  predicate Applies(s: string) {
    var t := RemoveLeadingSpaces(s);
    t != [] && t[0] == '.' && Names(s) != []
  }

  /** Lines 102-105: the text from the first ` <-` on, less one trailing newline. */
  function Rhs(s: string): (r: string)
    requires Contains(s, " <-")
    ensures IsPrefix(" <-", r)
  {
    var k := IndexOf(s, " <-").value;
    assert s[k..][..3] == " <-";
    DropNewline(s[k..])
  }

  /** The `i`-th extraction line of lines 117-122. */
  function Extraction(name: string, i: nat): string {
    "\n" + name + " <- " + TmpName + "[[" + NatToString(i) + "]]"
  }

  /** The extraction lines for `ns`, numbered from `i`. */
  function Extractions(ns: seq<string>, i: nat): string
    decreases |ns|
  {
    if ns == [] then "" else Extraction(ns[0], i) + Extractions(ns[1..], i + 1)
  }

  /** The text `deconstruct_replace` returns for the line `s`. */
  function Deconstructed(s: string): (r: string)
    requires Applies(s) ==> Contains(s, " <-")
    ensures !Applies(s) ==> r == s
    ensures Applies(s) ==> IsPrefix(TmpName + " <-", r)
  {
    if Applies(s) then TmpName + Rhs(s) + Extractions(Names(s), 1) else s
  }

  /** Whether the call cuts a trailing newline off the caller's line (lines 103-105). */
  predicate Truncates(s: string) {
    Applies(s) && |s| > 0 && s[|s| - 1] == '\n'
  }

  /** The loop of lines 68-96, with `push_var` as an append to a sequence. */
  method CollectNames(s: string) returns (names: seq<string>)
    ensures names == Names(s)
  {
    var active := false;
    var buffer := "";
    names := [];
    var i := 0;
    while i < |s|
      invariant i <= |s|
      invariant Scan(s[i..], ScanState(active, buffer, names), false) == Scan(s, ScanStart, false)
    {
      assert s[i..][1..] == s[i + 1..];
      if i + 1 < |s| && s[i] == '.' && s[i + 1] == '[' {
        assert s[i..][2..] == s[i + 2..];
        active := true;
        i := i + 2;
        continue;
      }
      if s[i] == ' ' || !active {
        i := i + 1;
        continue;
      }
      if s[i] == ',' || s[i] == ']' {
        names := names + [buffer];
        buffer := "";
      } else {
        buffer := buffer + [s[i]];
      }
      i := i + 1;
    }
    assert s[i..] == [];
  }

  /** Lines 110-125: the temporary assignment, then one extraction per name. */
  method BuildOutput(rhs: string, names: seq<string>) returns (out: string)
    ensures out == TmpName + rhs + Extractions(names, 1)
  {
    var head := TmpName + rhs;
    out := head;
    var i := 0;
    while i < |names|
      invariant i <= |names|
      invariant out == head + Extractions(names[..i], 1)
    {
      var next := "\n" + names[i] + " <- " + TmpName + "[[" + NatToString(i + 1) + "]]";
      OutputStep(head, names, i, next);
      out := out + next;
      i := i + 1;
    }
    assert names[..i] == names;
  }

  /** Appending the next extraction line extends the output by one name. */
  lemma OutputStep(head: string, names: seq<string>, i: nat, next: string)
    requires i < |names| && next == "\n" + names[i] + " <- " + TmpName + "[[" + NatToString(i + 1) + "]]"
    ensures head + Extractions(names[..i], 1) + next == head + Extractions(names[..i + 1], 1)
  {
    var pre := names[..i];
    var k := 1 + |pre|;
    assert k == i + 1;
    assert next == Extraction(names[i], k);
    assert names[..i + 1] == pre + [names[i]];
    ExtractionsSnoc(pre, names[i], 1);
    Regroup(head, Extractions(pre, 1), next);
  }

  /** Concatenation regrouped. */
  lemma Regroup(a: string, b: string, c: string)
    ensures a + b + c == a + (b + c)
  {
  }

  /**
   * `deconstruct_replace`: NULL stays NULL; a line that applies is rewritten and,
   * when it ends in a newline, loses that newline in the caller's buffer too.
   */
  method DeconstructReplace(line: array?<char>) returns (r: Option<string>)
    requires line != null ==> (Applies(Text(line[..])) ==> Contains(Text(line[..]), " <-"))
    modifies line
    ensures line == null ==> r == None
    ensures line != null ==> r == Some(Deconstructed(old(Text(line[..]))))
    ensures line != null ==> line[..] == if Truncates(old(Text(line[..])))
                                         then old(line[..])[|old(Text(line[..]))| - 1 := NUL]
                                         else old(line[..])
  {
    if line == null {
      return None;
    }
    var s := Text(line[..]);
    var out := ReplaceLine(line, s);
    return Some(out);
  }

  /** Lines 58-125 on a line that is there. */
  method ReplaceLine(line: array<char>, s: string) returns (out: string)
    requires s == Text(line[..]) && (Applies(s) ==> Contains(s, " <-"))
    modifies line
    ensures out == Deconstructed(s)
    ensures line[..] == if Truncates(s) then old(line[..])[|s| - 1 := NUL] else old(line[..])
  {
    var applies, names := Recognize(s);
    if !applies {
      return s;
    }
    out := Rewrite(line, s, names);
  }

  /** Lines 102-125: the rewrite of a line that applies. */
  method Rewrite(line: array<char>, s: string, names: seq<string>) returns (out: string)
    requires s == Text(line[..]) && Applies(s) && Contains(s, " <-") && names == Names(s)
    modifies line
    ensures out == Deconstructed(s)
    ensures line[..] == if s[|s| - 1] == '\n' then old(line[..])[|s| - 1 := NUL] else old(line[..])
  {
    var k := IndexOf(s, " <-").value;
    CutNewline(line, s, |s|);
    // the buffer now holds DropNewline(s); `subbed` is its tail from the arrow
    var subbed := DropNewline(s[k..]);
    assert subbed == Rhs(s);
    out := BuildOutput(subbed, names);
  }

  /** Lines 58-61 and 68-100: whether the line is rewritten, and the names it binds. */
  method Recognize(s: string) returns (applies: bool, names: seq<string>)
    ensures applies == Applies(s)
    ensures applies ==> names == Names(s)
  {
    var trimmed := RemoveLeadingSpaces(s);
    if trimmed == [] || trimmed[0] != '.' {
      return false, [];
    }
    names := CollectNames(s);
    applies := names != [];
  }

  /** Lines 103-105: a trailing newline of the caller's line is overwritten with NUL. */
  method CutNewline(line: array<char>, ghost s: string, n: nat)
    requires s == Text(line[..]) && 0 < n == |s|
    modifies line
    ensures Text(line[..]) == DropNewline(s)
    ensures line[..] == if s[|s| - 1] == '\n' then old(line[..])[|s| - 1 := NUL] else old(line[..])
  {
    if line[n - 1] == '\n' {
      Truncate(line[..], n - 1);
      line[n - 1] := NUL;
    }
  }

  lemma {:induction false} ExtractionsSnoc(ns: seq<string>, x: string, i: nat)
    ensures Extractions(ns + [x], i) == Extractions(ns, i) + Extraction(x, i + |ns|)
    decreases |ns|
  {
    if ns != [] {
      assert (ns + [x])[1..] == ns[1..] + [x];
      ExtractionsSnoc(ns[1..], x, i + 1);
    }
  }

  /** A character that neither ends nor starts a name: no space, `,`, `]` or `[`. */
  predicate NameChar(c: char) {
    c != ' ' && c != ',' && c != ']' && c != '['
  }

  /** A name as written between the brackets (an R name has no `-` either). */
  predicate ValidName(w: string) {
    forall i :: 0 <= i < |w| ==> NameChar(w[i]) && w[i] != '-'
  }

  /** The bracket list `a, b, c]` of a destructuring line. */
  function ListText(ns: seq<string>): string
    requires |ns| > 0
    decreases |ns|
  {
    if |ns| == 1 then ns[0] + "]" else ns[0] + ", " + ListText(ns[1..])
  }

  /** Once collecting, the characters of a word go to the buffer one by one. */
  lemma {:induction false} ScanWord(w: string, rest: string, st: ScanState, stop: bool)
    requires st.active && forall i :: 0 <= i < |w| ==> NameChar(w[i])
    requires rest == [] || rest[0] != '['
    ensures Scan(w + rest, st, stop) == Scan(rest, st.(buffer := st.buffer + w), stop)
    decreases |w|
  {
    if w == [] {
      assert w + rest == rest;
      assert st.buffer + w == st.buffer;
    } else {
      var s := w + rest;
      assert s[0] == w[0];
      assert |s| > 1 ==> s[1] != '[' by {
        if |w| > 1 {
          assert s[1] == w[1];
        } else if |s| > 1 {
          assert s[1] == rest[0];
        }
      }
      assert s[1..] == w[1..] + rest;
      ScanWord(w[1..], rest, st.(buffer := st.buffer + [w[0]]), stop);
      assert st.buffer + [w[0]] + w[1..] == st.buffer + w;
    }
  }

  /** Once collecting, `,` pushes the buffer and starts a new name; so does `]` without `stop`. */
  lemma ScanSeparator(c: char, rest: string, buffer: string, acc: seq<string>, stop: bool)
    requires c == ',' || (c == ']' && !stop)
    ensures Scan([c] + rest, ScanState(true, buffer, acc), stop) == Scan(rest, ScanState(true, [], acc + [buffer]), stop)
  {
    assert ([c] + rest)[1..] == rest;
  }

  /** With `stop`, `]` pushes the buffer and ends the scan. */
  lemma ScanClose(rest: string, buffer: string, acc: seq<string>)
    ensures Scan("]" + rest, ScanState(true, buffer, acc), true) == ScanState(false, [], acc + [buffer])
  {
  }

  /** A space is skipped. */
  lemma ScanBlank(rest: string, st: ScanState, stop: bool)
    ensures Scan(" " + rest, st, stop) == Scan(rest, st, stop)
  {
    assert (" " + rest)[1..] == rest;
  }

  /**
   * Collecting through `a, b]`: every name is pushed, in order, spaces dropped;
   * with `stop` the scan ends there, without it the scan goes on with the rest.
   */
  lemma {:induction false} ScanList(ns: seq<string>, rest: string, acc: seq<string>, stop: bool)
    requires |ns| > 0 && forall i :: 0 <= i < |ns| ==> ValidName(ns[i])
    requires rest == [] || rest[0] != '['
    ensures Scan(ListText(ns) + rest, ScanState(true, [], acc), stop)
            == if stop then ScanState(false, [], acc + ns) else Scan(rest, ScanState(true, [], acc + ns), false)
    decreases |ns|
  {
    var w := ns[0];
    assert ValidName(w);
    if |ns| == 1 {
      ListTextLast(ns, rest);
      ScanLastName(w, rest, acc, stop);
      assert ns == [w];
    } else {
      var tail := ListText(ns[1..]) + rest;
      ListTextNext(ns, rest);
      ScanNextName(w, tail, acc, stop);
      ScanList(ns[1..], rest, acc + [w], stop);
      PushedTail(acc, ns);
    }
  }

  lemma ListTextLast(ns: seq<string>, rest: string)
    requires |ns| == 1
    ensures ListText(ns) + rest == ns[0] + ("]" + rest)
  {
  }

  lemma ListTextNext(ns: seq<string>, rest: string)
    requires |ns| > 1
    ensures ListText(ns) + rest == ns[0] + (", " + (ListText(ns[1..]) + rest))
  {
  }

  lemma PushedTail(acc: seq<string>, ns: seq<string>)
    requires |ns| > 0
    ensures acc + [ns[0]] + ns[1..] == acc + ns
  {
    assert [ns[0]] + ns[1..] == ns;
  }

  /** The last name `w]`: pushed, then the scan ends (with `stop`) or goes on. */
  lemma ScanLastName(w: string, rest: string, acc: seq<string>, stop: bool)
    requires ValidName(w)
    ensures Scan(w + ("]" + rest), ScanState(true, [], acc), stop)
            == if stop then ScanState(false, [], acc + [w]) else Scan(rest, ScanState(true, [], acc + [w]), false)
  {
    var st := ScanState(true, [], acc);
    assert st.(buffer := st.buffer + w) == ScanState(true, w, acc) by {
      assert [] + w == w;
    }
    ScanWord(w, "]" + rest, st, stop);
    if stop {
      ScanClose(rest, w, acc);
    } else {
      ScanSeparator(']', rest, w, acc, stop);
    }
  }

  /** A name followed by `, `: pushed, and the scan goes on with the next one. */
  lemma ScanNextName(w: string, tail: string, acc: seq<string>, stop: bool)
    requires ValidName(w)
    ensures Scan(w + (", " + tail), ScanState(true, [], acc), stop) == Scan(tail, ScanState(true, [], acc + [w]), stop)
  {
    var st := ScanState(true, [], acc);
    assert st.(buffer := st.buffer + w) == ScanState(true, w, acc) by {
      assert [] + w == w;
    }
    ScanWord(w, ", " + tail, st, stop);
    CommaSpace(tail);
    ScanSeparator(',', " " + tail, w, acc, stop);
    ScanBlank(tail, ScanState(true, [], acc + [w]), stop);
  }

  /** `, ` before a text is a comma, then a blank before it. */
  lemma CommaSpace(tail: string)
    ensures ", " + tail == [','] + (" " + tail)
  {
  }

  /** After the names, text without `,` or `]` pushes nothing more. */
  lemma {:induction false} ScanQuiet(v: string, st: ScanState)
    requires st.active && ',' !in v && ']' !in v
    ensures Scan(v, st, false).names == st.names
    decreases |v|
  {
    if v != [] {
      assert v[0] in v;
      assert forall c :: c in v[1..] ==> c in v;
      if |v| > 1 && v[0] == '.' && v[1] == '[' {
        assert forall c :: c in v[2..] ==> c in v;
        ScanQuiet(v[2..], st.(active := true));
      } else if v[0] == ' ' {
        ScanQuiet(v[1..], st);
      } else {
        ScanQuiet(v[1..], st.(buffer := st.buffer + [v[0]]));
      }
    }
  }

  /** The names of `.[a, b] v` are `a` and `b` when `v` has no `,` or `]`. */
  lemma NamesOfList(ns: seq<string>, v: string)
    requires |ns| > 0 && forall i :: 0 <= i < |ns| ==> ValidName(ns[i])
    requires ',' !in v && ']' !in v && (v == [] || v[0] != '[')
    ensures Names(".[" + ListText(ns) + v) == ns
  {
    calc {
      Scan(".[" + ListText(ns) + v, ScanStart, false);
      { assert ".[" + ListText(ns) + v == ".[" + (ListText(ns) + v);
        ScanOpen(ListText(ns) + v, ScanStart, false); }
      Scan(ListText(ns) + v, ScanState(true, [], []), false);
      { ScanList(ns, v, [], false); }
      Scan(v, ScanState(true, [], [] + ns), false);
    }
    ScanQuiet(v, ScanState(true, [], [] + ns));
    assert [] + ns == ns;
  }

  /**
   * The corrected scan takes exactly the bracketed names of `.[a, b] rest`,
   * whatever follows the bracket.
   */
  lemma NamesStoppingOfList(ns: seq<string>, rest: string)
    requires |ns| > 0 && forall i :: 0 <= i < |ns| ==> ValidName(ns[i])
    requires rest == [] || rest[0] != '['
    ensures NamesStopping(".[" + ListText(ns) + rest) == ns
  {
    calc {
      Scan(".[" + ListText(ns) + rest, ScanStart, true);
      { assert ".[" + ListText(ns) + rest == ".[" + (ListText(ns) + rest);
        ScanOpen(ListText(ns) + rest, ScanStart, true); }
      Scan(ListText(ns) + rest, ScanState(true, [], []), true);
      { ScanList(ns, rest, [], true); }
      ScanState(false, [], [] + ns);
    }
    assert [] + ns == ns;
  }

  /** `.[` switches collection on. */
  lemma ScanOpen(rest: string, st: ScanState, stop: bool)
    ensures Scan(".[" + rest, st, stop) == Scan(rest, st.(active := true), stop)
  {
    assert (".[" + rest)[2..] == rest;
  }

  lemma {:induction false} ListTextLacks(ns: seq<string>, c: char)
    requires |ns| > 0 && forall i :: 0 <= i < |ns| ==> c !in ns[i]
    requires c != ',' && c != ' ' && c != ']'
    ensures c !in ListText(ns)
    decreases |ns|
  {
    if |ns| > 1 {
      ListTextLacks(ns[1..], c);
    }
  }

  /**
   * A destructuring line `.[a, b] <- v`: the temporary takes ` <- v` less one
   * trailing newline, then each name takes its element, numbered from 1 in order.
   */
  lemma DestructureList(ns: seq<string>, v: string)
    requires |ns| > 0 && forall i :: 0 <= i < |ns| ==> ValidName(ns[i])
    requires ',' !in v && ']' !in v
    ensures Applies(".[" + ListText(ns) + " <-" + v)
    ensures IndexOf(".[" + ListText(ns) + " <-" + v, " <-") == Some(|ListText(ns)| + 2)
    ensures Deconstructed(".[" + ListText(ns) + " <-" + v) == TmpName + " <-" + DropNewline(v) + Extractions(ns, 1)
  {
    var pre := ".[" + ListText(ns);
    var s := pre + " <-" + v;
    ListLine(ns, v);
    RhsAfter(s, pre, v);
    calc {
      Deconstructed(s);
      TmpName + Rhs(s) + Extractions(Names(s), 1);
      TmpName + (" <-" + DropNewline(v)) + Extractions(ns, 1);
      { assert TmpName + (" <-" + DropNewline(v)) == TmpName + " <-" + DropNewline(v); }
      TmpName + " <-" + DropNewline(v) + Extractions(ns, 1);
    }
  }

  /** When the first ` <-` follows `pre`, the right-hand side is ` <- v` less its newline. */
  lemma RhsAfter(s: string, pre: string, v: string)
    requires s == pre + " <-" + v && IndexOf(s, " <-") == Some(|pre|)
    ensures Rhs(s) == " <-" + DropNewline(v)
  {
    assert s[|pre|..] == " <-" + v;
    if |v| > 0 && v[|v| - 1] == '\n' {
      assert (" <-" + v)[..|v| + 2] == " <-" + v[..|v| - 1];
    }
  }

  /** A line `.[a, b] <- v` applies, yields its names, and has its ` <-` after the bracket. */
  lemma ListLine(ns: seq<string>, v: string)
    requires |ns| > 0 && forall i :: 0 <= i < |ns| ==> ValidName(ns[i])
    requires ',' !in v && ']' !in v
    ensures Names(".[" + ListText(ns) + " <-" + v) == ns
    ensures Applies(".[" + ListText(ns) + " <-" + v)
    ensures IndexOf(".[" + ListText(ns) + " <-" + v, " <-") == Some(|ListText(ns)| + 2)
  {
    var pre := ".[" + ListText(ns);
    var s := pre + " <-" + v;
    assert Names(s) == ns by {
      assert s == ".[" + ListText(ns) + (" <-" + v);
      NamesOfList(ns, " <-" + v);
    }
    assert RemoveLeadingSpaces(s) == s by {
      assert s[0] == '.';
    }
    forall i | 0 <= i < |ns|
      ensures '-' !in ns[i]
    {
      assert ValidName(ns[i]);
    }
    ListTextLacks(ns, '-');
    FirstAfter(pre, " <-", v);
  }

  /** `.[a, b] <- f()`: the temporary gets ` <- f()` and `a`, `b` get elements 1 and 2. */
  lemma PairExample(line: string)
    requires line == ".[a, b] <- f()\n"
    ensures Names(line) == ["a", "b"]
    ensures IndexOf(line, " <-") == Some(7)
    ensures Deconstructed(line) == TmpName + " <- f()" + Extraction("a", 1) + Extraction("b", 2)
  {
    PairText();
    ListExample(line, ["a", "b"], " f()\n");
    PairExtractions();
    var head := TmpName + " <- f()";
    assert head + Extractions(["a", "b"], 1) == head + Extraction("a", 1) + Extraction("b", 2);
  }

  /** A line `.[` names `] <-` value, seen whole. */
  lemma ListExample(line: string, ns: seq<string>, v: string)
    requires |ns| > 0 && forall i :: 0 <= i < |ns| ==> ValidName(ns[i])
    requires ',' !in v && ']' !in v
    requires line == ".[" + ListText(ns) + " <-" + v
    ensures Names(line) == ns
    ensures IndexOf(line, " <-") == Some(|ListText(ns)| + 2)
    ensures Deconstructed(line) == TmpName + " <-" + DropNewline(v) + Extractions(ns, 1)
  {
    DestructureList(ns, v);
    ListLine(ns, v);
  }

  lemma PairText()
    ensures ValidName("a") && ValidName("b")
    ensures ListText(["a", "b"]) == "a, b]"
    ensures ".[" + "a, b]" + " <-" + " f()\n" == ".[a, b] <- f()\n"
    ensures DropNewline(" f()\n") == " f()"
    ensures ',' !in " f()\n" && ']' !in " f()\n"
    ensures TmpName + " <-" + " f()" == TmpName + " <- f()"
  {
    assert ListText(["a", "b"][1..]) == "b]";
  }

  lemma PairExtractions()
    ensures Extractions(["a", "b"], 1) == Extraction("a", 1) + Extraction("b", 2)
  {
    assert ["a", "b"][1..] == ["b"];
    assert ["b"][1..] == [];
  }

  /**
   * `.[a] <- f(x, y)`: as written, the `,` inside the call pushes `<-f(x` as a
   * second name; the scan that stops at `]` takes `a` alone.
   */
  lemma CloseCounterexample(line: string)
    requires line == ".[a] <- f(x, y)"
    ensures Names(line) == ["a", "<-f(x"]
    ensures NamesStopping(line) == ["a"]
  {
    var v := " <- f(x, y)";
    CounterexampleText(line, v);
    NamesStoppingOfList(["a"], v);
    calc {
      Scan(line, ScanStart, false);
      { ScanOpen(ListText(["a"]) + v, ScanStart, false); }
      Scan(ListText(["a"]) + v, ScanState(true, [], []), false);
      { ScanList(["a"], v, [], false); }
      Scan(v, ScanState(true, [], [] + ["a"]), false);
      { assert [] + ["a"] == ["a"]; }
      Scan(v, ScanState(true, [], ["a"]), false);
    }
    AfterBracket(v);
  }

  lemma CounterexampleText(line: string, v: string)
    requires line == ".[a] <- f(x, y)" && v == " <- f(x, y)"
    ensures ValidName("a") && ListText(["a"]) == "a]"
    ensures line == ".[" + ListText(["a"]) + v && line == ".[" + (ListText(["a"]) + v)
  {
  }

  /** The rest ` <- f(x, y)` of the counterexample pushes `<-f(x` at its comma. */
  lemma AfterBracket(v: string)
    requires v == " <- f(x, y)"
    ensures Scan(v, ScanState(true, [], ["a"]), false).names == ["a", "<-f(x"]
  {
    var st := ScanState(true, [], ["a"]);
    AfterBracketText(v);
    calc {
      Scan(v, st, false);
      { ScanBlank("<-" + (" " + ("f(x" + (", y)"))), st, false); }
      Scan("<-" + (" " + ("f(x" + (", y)"))), st, false);
      { ScanWord("<-", " " + ("f(x" + (", y)")), st, false); }
      Scan(" " + ("f(x" + (", y)")), ScanState(true, [] + "<-", ["a"]), false);
      { ScanBlank("f(x" + (", y)"), ScanState(true, [] + "<-", ["a"]), false); }
      Scan("f(x" + (", y)"), ScanState(true, [] + "<-", ["a"]), false);
      { ScanWord("f(x", ", y)", ScanState(true, [] + "<-", ["a"]), false); }
      Scan(", y)", ScanState(true, [] + "<-" + "f(x", ["a"]), false);
      { ScanSeparator(',', " y)", [] + "<-" + "f(x", ["a"], false); }
      Scan(" y)", ScanState(true, [], ["a"] + [[] + "<-" + "f(x"]), false);
    }
    ScanQuiet(" y)", ScanState(true, [], ["a"] + [[] + "<-" + "f(x"]));
  }

  lemma AfterBracketText(v: string)
    requires v == " <- f(x, y)"
    ensures v == " " + ("<-" + (" " + ("f(x" + (", y)"))))
    ensures ", y)" == [','] + " y)"
    ensures [] + "<-" + "f(x" == "<-f(x"
    ensures ',' !in " y)" && ']' !in " y)"
    ensures forall i :: 0 <= i < 2 ==> NameChar("<-"[i])
    ensures forall i :: 0 <= i < 3 ==> NameChar("f(x"[i])
  {
  }

  /** A collected name holds no space, `,` or `]`. */
  predicate Clean(w: string) {
    ' ' !in w && ',' !in w && ']' !in w
  }

  /** Spaces never reach a name, and `,`/`]` only ever end one. */
  lemma {:induction false} ScanClean(s: string, st: ScanState, stop: bool)
    requires Clean(st.buffer) && forall n :: n in st.names ==> Clean(n)
    ensures forall n :: n in Scan(s, st, stop).names ==> Clean(n)
    decreases |s|
  {
    if s == [] {
    } else if |s| > 1 && s[0] == '.' && s[1] == '[' {
      ScanClean(s[2..], st.(active := true), stop);
    } else if s[0] == ' ' || !st.active {
      ScanClean(s[1..], st, stop);
    } else if s[0] == ',' || s[0] == ']' {
      ScanClean(s[1..], ScanState(true, [], st.names + [st.buffer]), stop);
    } else {
      assert Clean(st.buffer + [s[0]]);
      ScanClean(s[1..], st.(buffer := st.buffer + [s[0]]), stop);
    }
  }

  /** Every name of a line, as written or corrected, is free of spaces, `,` and `]`. */
  lemma NamesClean(s: string)
    ensures forall n :: n in Names(s) ==> Clean(n)
    ensures forall n :: n in NamesStopping(s) ==> Clean(n)
  {
    ScanClean(s, ScanStart, false);
    ScanClean(s, ScanStart, true);
  }
}
