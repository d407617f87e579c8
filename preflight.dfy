/**
 * Preflight blocks (src/preflight.c): a block opens on a line starting with
 * `#> preflight` and closes on one starting with `#> endpreflight` or its
 * short form `#> endflight`.
 */
module Preflight {
  import opened Strings

  const Start := "#> preflight"
  const End := "#> endpreflight"
  const ShortEnd := "#> endflight"

  /** `starts_preflight`: `strncmp` over the 12 characters of the marker. */
  predicate StartsPreflight(line: string): (b: bool)
    ensures b <==> |line| >= |Start| && forall i :: 0 <= i < |Start| ==> line[i] == Start[i]
  {
    IsPrefix(Start, line)
  }

  /** `ends_preflight`: either closing marker, compared over its own length. */
  predicate EndsPreflight(line: string): (b: bool)
    ensures b <==> ((|line| >= |End| && forall i :: 0 <= i < |End| ==> line[i] == End[i])
                    || (|line| >= |ShortEnd| && forall i :: 0 <= i < |ShortEnd| ==> line[i] == ShortEnd[i]))
  {
    IsPrefix(End, line) || IsPrefix(ShortEnd, line)
  }

  /** A line that starts with a marker has the marker's characters at its start. */
  lemma PrefixChars(line: string)
    ensures forall p, i :: IsPrefix(p, line) && 0 <= i < |p| ==> line[i] == p[i]
  {
    forall p, i | IsPrefix(p, line) && 0 <= i < |p|
      ensures line[i] == p[i]
    {
      assert line[..|p|][i] == line[i];
    }
  }

  /** No line both opens and closes a block: the fourth character tells them apart. */
  lemma PreflightExclusive(line: string)
    ensures !(StartsPreflight(line) && EndsPreflight(line))
  {
    PrefixChars(line);
    assert Start[3] == 'p' && End[3] == 'e' && ShortEnd[3] == 'e';
  }

  /** Matching is on the prefix: anything may follow the marker. */
  lemma MarkersAnyTail(rest: string)
    ensures StartsPreflight(Start + rest)
    ensures EndsPreflight(End + rest) && EndsPreflight(ShortEnd + rest)
  {
    assert (Start + rest)[..|Start|] == Start;
    assert (End + rest)[..|End|] == End;
    assert (ShortEnd + rest)[..|ShortEnd|] == ShortEnd;
  }

  /** Matching is on the prefix: a line that does not start with `#` matches neither marker, so indentation defeats both. */
  lemma IndentedMarkers(line: string)
    requires |line| > 0 && line[0] != '#'
    ensures !StartsPreflight(line) && !EndsPreflight(line)
  {
    PrefixChars(line);
    assert Start[0] == '#' && End[0] == '#' && ShortEnd[0] == '#';
  }
}
