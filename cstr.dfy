/**
 * A C character buffer seen as the string it holds: the characters before the
 * first NUL, or the whole buffer when it has none. Rewrites that change the
 * caller's line in place work on an `array<char>` read through this view.
 */
module CStr {
  const NUL: char := 0 as char

  /** `strlen`: the index of the first NUL. */
  function Strlen(a: seq<char>): (n: nat)
    ensures n <= |a|
    ensures forall j :: 0 <= j < n ==> a[j] != NUL
    ensures n < |a| ==> a[n] == NUL
    decreases |a|
  {
    if a == [] || a[0] == NUL then 0 else 1 + Strlen(a[1..])
  }

  /** The string a buffer holds. */
  function Text(a: seq<char>): (r: string)
    ensures NUL !in r && |r| <= |a|
    ensures IsTextOf(r, a)
  {
    a[..Strlen(a)]
  }

  /** `r` is what `strlen` and `strcpy` see in `a`. */
  ghost predicate IsTextOf(r: string, a: seq<char>) {
    |r| <= |a| && r == a[..|r|] && NUL !in r && (|r| < |a| ==> a[|r|] == NUL)
  }

  /** A buffer holds exactly one string: the one before its first NUL. */
  lemma TextUnique(r: string, a: seq<char>)
    requires IsTextOf(r, a)
    ensures Text(a) == r
  {
    assert forall j :: 0 <= j < |r| ==> a[j] == r[j] && r[j] != NUL;
  }

  /** Writing a NUL inside the string cuts the string there and nowhere else. */
  lemma Truncate(a: seq<char>, j: nat)
    requires j < Strlen(a)
    ensures Text(a[j := NUL]) == Text(a)[..j]
  {
    var b := a[j := NUL];
    var r := Text(a)[..j];
    assert r == b[..j];
    TextUnique(r, b);
  }

  /** A pointer `j` characters into the string sees the rest of that string. */
  lemma TextFrom(a: seq<char>, j: nat)
    requires j <= Strlen(a)
    ensures Text(a[j..]) == Text(a)[j..]
  {
    var r := Text(a)[j..];
    assert r == a[j..][..|r|];
    TextUnique(r, a[j..]);
  }
}
