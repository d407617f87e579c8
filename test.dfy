/**
 * Inline tests (src/test.c): a `#test ` line opens a test; tests are kept in
 * a list in the order they are met.
 */
module Test {
  import opened Strings

  /** A node of the `Tests` list of include/test.h, without its `next` link. */
  datatype Test = Test(description: string, expressions: string)

  /** The list `push_test` appends to; `tests` holds the nodes from the head to the tail. */
  class TestList {
    var tests: seq<Test>

    /** An empty list: the head pointer is NULL. */
    constructor ()
      ensures tests == []
    {
      tests := [];
    }

    /**
     * `push_test`: on an empty list the test becomes the head, otherwise it is
     * linked after the tail; the tests already there keep their order.
     */
    method Push(test: Test)
      modifies this
      ensures tests == old(tests) + [test]
    {
      tests := tests + [test];
    }
  }

  /** `create_test` followed by `push_test` for each pair, in order. */
  method PushAll(list: TestList, pairs: seq<(string, string)>)
    modifies list
    ensures |list.tests| == |old(list.tests)| + |pairs|
    ensures list.tests[..|old(list.tests)|] == old(list.tests)
    ensures forall i :: 0 <= i < |pairs| ==>
      list.tests[|old(list.tests)| + i] == Test(pairs[i].0, pairs[i].1)
  {
    var i := 0;
    while i < |pairs|
      invariant i <= |pairs|
      invariant |list.tests| == |old(list.tests)| + i
      invariant list.tests[..|old(list.tests)|] == old(list.tests)
      invariant forall k :: 0 <= k < i ==> list.tests[|old(list.tests)| + k] == Test(pairs[k].0, pairs[k].1)
    {
      list.Push(Test(pairs[i].0, pairs[i].1));
      i := i + 1;
    }
  }

  const TestMarker := "#test "

  /** `enter_test`: after its leading spaces, the line starts with `#test ` and its space. */
  predicate EnterTest(line: string): (b: bool)
    ensures b ==> Contains(line, TestMarker)
    ensures IsPrefix(TestMarker, line) ==> b
  {
    var trimmed := RemoveLeadingSpaces(line);
    assert IsPrefix(TestMarker, trimmed) ==> OccursAt(line, TestMarker, |line| - |trimmed|);
    assert IsPrefix(TestMarker, line) ==> line[0] == '#' && trimmed == line;
    IsPrefix(TestMarker, trimmed)
  }

  /** Leading spaces are dropped up to the first other character. */
  lemma {:induction false} SpacesDropped(spaces: string, rest: string)
    requires forall i :: 0 <= i < |spaces| ==> spaces[i] == ' '
    requires rest == [] || rest[0] != ' '
    ensures RemoveLeadingSpaces(spaces + rest) == rest
    decreases |spaces|
  {
    if spaces == [] {
      assert spaces + rest == rest;
    } else {
      assert (spaces + rest)[1..] == spaces[1..] + rest;
      SpacesDropped(spaces[1..], rest);
    }
  }

  /** An indented `#test ` line opens a test, whatever its description. */
  lemma IndentedTest(spaces: string, description: string)
    requires forall i :: 0 <= i < |spaces| ==> spaces[i] == ' '
    ensures EnterTest(spaces + TestMarker + description)
  {
    assert spaces + TestMarker + description == spaces + (TestMarker + description);
    SpacesDropped(spaces, TestMarker + description);
    assert (TestMarker + description)[..|TestMarker|] == TestMarker;
  }

  /** The space after `#test` is part of the marker: `#test` alone or `#testing` opens nothing. */
  lemma MarkerNeedsSpace(line: string)
    requires line == "#test" || IsPrefix("#testing", line)
    ensures !EnterTest(line)
  {
    SpacesDropped([], line);
    assert [] + line == line;
    if line != "#test" {
      assert line[..8][5] == line[5] == 'i';
    }
    assert |line| < |TestMarker| || line[..|TestMarker|][5] != TestMarker[5];
  }
}
