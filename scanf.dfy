/**
 * The pieces of `sscanf` that the `#for` header format uses: a blank in the
 * format skips any run of `isspace` characters, `%Ns` reads a word of at most
 * N characters, `%d` reads an optionally signed decimal number.
 */
module Scanf {
  import opened Wrappers
  import opened Strings

  /** `s` after its leading `isspace` characters. */
  function SkipSpace(s: string): (r: string)
    ensures |r| <= |s| && r == s[|s| - |r|..]
    ensures r == [] || !IsSpace(r[0])
    decreases |s|
  {
    if |s| > 0 && IsSpace(s[0]) then SkipSpace(s[1..]) else s
  }

  /** The length of the leading run of non-`isspace` characters. */
  function WordLength(s: string): (n: nat)
    ensures n <= |s| && (n < |s| ==> IsSpace(s[n]))
    ensures forall i :: 0 <= i < n ==> !IsSpace(s[i])
    decreases |s|
  {
    if |s| == 0 || IsSpace(s[0]) then 0 else 1 + WordLength(s[1..])
  }

  /** The length of the leading run of digits. */
  function DigitRun(s: string): (n: nat)
    ensures n <= |s| && (n < |s| ==> !IsDigit(s[n]))
    ensures forall i :: 0 <= i < n ==> IsDigit(s[i])
    decreases |s|
  {
    if |s| == 0 || !IsDigit(s[0]) then 0 else 1 + DigitRun(s[1..])
  }

  /** `%Ns`: a word of 1 to `width` characters after blanks, and the rest. */
  function ScanWord(s: string, width: nat): (r: Option<(string, string)>)
    ensures r.Some? ==> 0 < |r.value.0| <= width && r.value.0 + r.value.1 == SkipSpace(s)
    ensures r.Some? ==> forall i :: 0 <= i < |r.value.0| ==> !IsSpace(r.value.0[i])
    ensures r.None? <==> width == 0 || WordLength(SkipSpace(s)) == 0
  {
    var t := SkipSpace(s);
    var n := WordLength(t);
    if n == 0 || width == 0 then None
    else
      var k := if n < width then n else width;
      WordPrefix(t, n, k);
      Some((t[..k], t[k..]))
  }

  /** The first `k` characters of a word of length `n >= k` split `t` and hold no blank. */
  lemma WordPrefix(t: string, n: nat, k: nat)
    requires n == WordLength(t) && 0 < k <= n
    ensures t[..k] + t[k..] == t && 0 < |t[..k]| == k
    ensures forall i :: 0 <= i < k ==> !IsSpace(t[..k][i])
  {
    assert t[..k] + t[k..] == t;
  }

  /** `%d`: blanks, an optional sign, at least one digit; the number and the rest. */
  function ScanInt(s: string): (r: Option<(int, string)>)
    ensures r.Some? ==> |r.value.1| < |s|
  {
    ScanSigned(SkipSpace(s))
  }

  /** `%d` once the blanks are skipped. */
  function ScanSigned(t: string): (r: Option<(int, string)>)
    ensures r.Some? ==> |r.value.1| < |t|
  {
    var signed := |t| > 0 && (t[0] == '-' || t[0] == '+');
    var u := if signed then t[1..] else t;
    var n := DigitRun(u);
    if n == 0 then None
    else
      var v: int := ParseNat(u[..n]);
      Some((if signed && t[0] == '-' then -v else v, u[n..]))
  }

  /** A blank in front is skipped. */
  lemma SkipSpaceBlank(x: string)
    ensures SkipSpace(" " + x) == SkipSpace(x)
  {
    assert (" " + x)[1..] == x;
  }

  /** Nothing is skipped before a non-blank. */
  lemma SkipSpaceStops(x: string)
    requires x != [] && !IsSpace(x[0])
    ensures SkipSpace(x) == x
  {
  }

  /** `%d` skips the blanks in front of the number. */
  lemma ScanIntBlank(x: string)
    ensures ScanInt(" " + x) == ScanInt(x)
  {
    assert (" " + x)[1..] == x;
    assert SkipSpace(" " + x) == SkipSpace(x);
  }

  /** A digit run followed by a non-digit is read up to that non-digit. */
  lemma {:induction false} DigitRunAppend(d: string, rest: string)
    requires forall i :: 0 <= i < |d| ==> IsDigit(d[i])
    requires rest == [] || !IsDigit(rest[0])
    ensures DigitRun(d + rest) == |d|
    decreases |d|
  {
    if d != [] {
      assert (d + rest)[1..] == d[1..] + rest;
      DigitRunAppend(d[1..], rest);
    } else {
      assert d + rest == rest;
    }
  }

  /** The digits `sprintf("%d")` writes for `n`, followed by a non-digit, read back as `n`. */
  lemma ScanDigits(n: nat, rest: string)
    requires rest == [] || !IsDigit(rest[0])
    ensures DigitRun(NatToString(n) + rest) == |NatToString(n)|
    ensures ParseNat((NatToString(n) + rest)[..|NatToString(n)|]) == n
    ensures (NatToString(n) + rest)[|NatToString(n)|..] == rest
  {
    var digits := NatToString(n);
    DigitRunAppend(digits, rest);
    ParseNatToString(n);
    assert (digits + rest)[..|digits|] == digits;
  }

  /** `%d` reads back what `sprintf("%d")` wrote, stopping before a non-digit. */
  lemma ScanIntToString(i: int, rest: string)
    requires rest == [] || !IsDigit(rest[0])
    ensures ScanInt(IntToString(i) + rest) == Some((i, rest))
  {
    if i < 0 {
      var n: nat := -i;
      assert IntToString(i) == "-" + NatToString(n);
      ScanNegative(n, rest);
    } else {
      assert IntToString(i) == NatToString(i);
      ScanNonNegative(i, rest);
    }
  }

  /** Concatenation regrouped. */
  lemma Regroup(a: string, b: string, c: string)
    ensures a + b + c == a + (b + c)
  {
  }

  /** `%d` on `-N` followed by a non-digit reads back the negative number. */
  lemma ScanNegative(n: nat, rest: string)
    requires n > 0 && (rest == [] || !IsDigit(rest[0]))
    ensures ScanInt("-" + NatToString(n) + rest) == Some((-(n as int), rest))
  {
    var d := NatToString(n);
    var u := d + rest;
    Regroup("-", d, rest);
    ScanDigits(n, rest);
    ScanMinusRun("-" + u, u, |d|, n, rest);
  }

  /** `%d` on `-` followed by `k` digits worth `v`: the negated number. */
  lemma ScanMinusRun(s: string, u: string, k: nat, v: nat, rest: string)
    requires s == "-" + u && 0 < k <= |u| && DigitRun(u) == k
    requires ParseNat(u[..k]) == v && u[k..] == rest
    ensures ScanInt(s) == Some((-(v as int), rest))
  {
    SkipSpaceStops(s);
    SignedMinusRun(s, u, k, v, rest);
  }

  /** `%d` after the blanks, on `-` followed by `k` digits worth `v`. */
  lemma SignedMinusRun(s: string, u: string, k: nat, v: nat, rest: string)
    requires s == "-" + u && 0 < k <= |u| && DigitRun(u) == k
    requires ParseNat(u[..k]) == v && u[k..] == rest
    ensures ScanSigned(s) == Some((-(v as int), rest))
  {
    assert s[0] == '-' && s[1..] == u;
  }

  /** `%d` on `k` digits worth `v`: the number. */
  lemma ScanPlainRun(s: string, k: nat, v: nat, rest: string)
    requires 0 < k <= |s| && DigitRun(s) == k
    requires ParseNat(s[..k]) == v && s[k..] == rest
    ensures ScanInt(s) == Some((v as int, rest))
  {
    assert IsDigit(s[0]);
    SkipSpaceStops(s);
    SignedPlainRun(s, k, v, rest);
  }

  /** `%d` after the blanks, on `k` digits worth `v`. */
  lemma SignedPlainRun(s: string, k: nat, v: nat, rest: string)
    requires 0 < k <= |s| && DigitRun(s) == k
    requires ParseNat(s[..k]) == v && s[k..] == rest
    ensures ScanSigned(s) == Some((v as int, rest))
  {
    assert IsDigit(s[0]);
    assert s[0] != '-' && s[0] != '+';
  }

  /** `%d` on the digits of `n` followed by a non-digit reads back `n`. */
  lemma ScanNonNegative(n: nat, rest: string)
    requires rest == [] || !IsDigit(rest[0])
    ensures ScanInt(NatToString(n) + rest) == Some((n, rest))
  {
    var digits := NatToString(n);
    ScanDigits(n, rest);
    ScanPlainRun(digits + rest, |digits|, n, rest);
  }
}
