/**
 * `#unique NAME` (src/unique.c): binds NAME to the identifier `._unq.N`, where N is
 * the current value of the global counter `UNIQUE`, then increments the counter.
 */
module Unique {
  import opened Wrappers
  import opened Strings
  import opened Define

  /** The global `int UNIQUE = 0` of src/unique.c. */
  class UniqueCounter {
    var unique: nat

    constructor ()
      ensures unique == 0
    {
      unique := 0;
    }
  }

  /** The identifier bound by the capture made when the counter reads `n`. */
  function UniqueValue(n: nat): (r: string)
    ensures |r| > 6 && r[..6] == "._unq."
  {
    "._unq." + NatToString(n)
  }

  /** Captures made at different counter values bind different identifiers. */
  lemma UniqueValuesDistinct(a: nat, b: nat)
    requires a != b
    ensures UniqueValue(a) != UniqueValue(b)
  {
    if UniqueValue(a) == UniqueValue(b) {
      assert NatToString(a) == UniqueValue(a)[6..];
      assert NatToString(b) == UniqueValue(b)[6..];
      NatToStringInjective(a, b);
    }
  }

  /** The name a `#unique ` line binds: everything after the first `#unique `. */
  function UniqueName(line: string): (r: string)
    requires Contains(line, "#unique ")
    ensures exists i: nat | i + 8 <= |line| :: OccursAt(line, "#unique ", i) && r == line[i + 8..] &&
              forall j: nat :: j < i ==> !OccursAt(line, "#unique ", j)
  {
    var i := IndexOf(line, "#unique ").value;
    line[i + 8..]
  }

  /**
   * `capture_unique_define`: a line without `#unique ` changes neither the table nor
   * the counter; otherwise `(UniqueName(line), ._unq.N)` is pushed as a variable and
   * the counter moves on. `sprintf` writes the counter into a two-byte buffer, so the
   * counter must still be a single digit when a capture happens.
   */
  method CaptureUniqueDefine(defs: DefineTable, counter: UniqueCounter, line: string,
                             nameRealloc: bool, valueRealloc: bool)
    requires defs.Valid()
    requires Contains(line, "#unique ") ==> counter.unique < 10
    modifies defs, defs.name, defs.value, defs.kind, counter
    ensures defs.Valid()
    ensures !Contains(line, "#unique ") ==>
              counter.unique == old(counter.unique) && defs.size == old(defs.size) &&
              defs.capacity == old(defs.capacity) && defs.Entries() == old(defs.Entries())
    ensures Contains(line, "#unique ") ==> counter.unique == old(counter.unique) + 1
    ensures (defs.name == old(defs.name) || fresh(defs.name)) && (defs.value == old(defs.value) || fresh(defs.value))
    ensures defs.kind == old(defs.kind) || fresh(defs.kind)
    ensures Contains(line, "#unique ") && (old(defs.size) < old(defs.capacity) || (nameRealloc && valueRealloc)) ==>
              defs.size == old(defs.size) + 1 &&
              defs.Entries() == old(defs.Entries()) +
                [Entry(UniqueName(line), Some(UniqueValue(old(counter.unique))), Some(DefVariable))]
    ensures Contains(line, "#unique ") && old(defs.size) < old(defs.capacity) ==> defs.capacity == old(defs.capacity)
    ensures Contains(line, "#unique ") && old(defs.size) == old(defs.capacity) && nameRealloc && valueRealloc ==>
              defs.capacity == old(defs.capacity) + GrowthStep
    ensures Contains(line, "#unique ") && old(defs.size) == old(defs.capacity) && !(nameRealloc && valueRealloc) ==>
              defs.size == old(defs.size) && defs.capacity == old(defs.capacity) && defs.Entries() == old(defs.Entries())
  {
    if !Contains(line, "#unique ") {
      return;
    }
    var name := UniqueName(line);
    var value := UniqueValue(counter.unique);
    defs.Push(name, Some(value), Some(DefVariable), nameRealloc, valueRealloc);
    counter.unique := counter.unique + 1;
  }
}
