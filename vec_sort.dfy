/// `shell_sort` applied to vectors, as the test suite applies it to an
/// `std::array<HVec<3>, 5>`: the elements' `operator>` compares lengths.
module VecSort {
  import opened VecMath
  import opened Sorting

  /** The sort's comparison on vectors is `HVec::operator>`. */
  lemma AboveIsGreater(x: seq<real>, y: seq<real>)
    ensures Above(SqLen, x, y) <==> Greater(x, y)
  {
  }

  /** `shell_sort` over a buffer of vectors: longest first, the same vectors. */
  method SortByLength(a: array<seq<real>>)
    modifies a
    ensures forall i, j :: 0 <= i < j < a.Length ==> !Greater(a[j], a[i])
    ensures multiset(a[..]) == multiset(old(a[..]))
    ensures (forall i, j :: 0 <= i < j < a.Length ==> !Greater(old(a[j]), old(a[i]))) ==> a[..] == old(a[..])
  {
    ghost var before := a[..];
    assert (forall i, j :: 0 <= i < j < a.Length ==> !Greater(old(a[j]), old(a[i])))
      ==> NonIncreasing(SqLen, before);
    ShellSort(a, SqLen);
    assert NonIncreasing(SqLen, a[..]);
    forall i, j | 0 <= i < j < a.Length
      ensures !Greater(a[j], a[i])
    {
      assert !Above(SqLen, a[..][j], a[..][i]);
    }
  }

  /** The five vectors of the sorting test, in the order the test builds them. */
  function TestInput(): seq<seq<real>> {
    [[0.1, 0.2, 0.3], [0.6, 0.3, 0.3], [0.1, -0.7, 0.1], [-0.1, -0.2, 0.0], [0.0, 0.5, 0.4]]
  }

  /** The order the sorting test expects: by length, longest first. */
  function TestExpected(): seq<seq<real>> {
    [[0.6, 0.3, 0.3], [0.1, -0.7, 0.1], [0.0, 0.5, 0.4], [0.1, 0.2, 0.3], [-0.1, -0.2, 0.0]]
  }

  /** Squared lengths 0.54, 0.51, 0.41, 0.14 and 0.05: all different, and in
      the expected order they decrease. */
  lemma TestLengths()
    ensures SqLen(TestExpected()[0]) == 0.54
    ensures SqLen(TestExpected()[1]) == 0.51
    ensures SqLen(TestExpected()[2]) == 0.41
    ensures SqLen(TestExpected()[3]) == 0.14
    ensures SqLen(TestExpected()[4]) == 0.05
  {
    var e := TestExpected();
    SqLen3(e[0]);
    SqLen3(e[1]);
    SqLen3(e[2]);
    SqLen3(e[3]);
    SqLen3(e[4]);
  }

  /** The expected order is longest first. */
  lemma TestExpectedSorted()
    ensures NonIncreasing(SqLen, TestExpected())
  {
    TestLengths();
  }

  /** The test's vectors have pairwise different lengths, so any arrangement
      of them has no two different vectors of the same length. */
  lemma TestLengthsDistinct(r: seq<seq<real>>)
    requires multiset(r) == multiset(TestExpected())
    ensures forall x, y :: x in r && y in r && SqLen(x) == SqLen(y) ==> x == y
  {
    var e := TestExpected();
    TestLengths();
    forall x, y | x in r && y in r && SqLen(x) == SqLen(y)
      ensures x == y
    {
      assert x in multiset(e) && y in multiset(e);
      assert x in e && y in e;
    }
  }

  /** The expected order rearranges the input. */
  lemma TestIsRearranged()
    ensures multiset(TestInput()) == multiset(TestExpected())
  {
    var x, e := TestInput(), TestExpected();
    assert e == [x[1], x[2], x[4], x[0], x[3]];
  }

  /** Every longest-first arrangement of the test's vectors is the expected one. */
  lemma TestOutcome(r: seq<seq<real>>)
    requires NonIncreasing(SqLen, r) && multiset(r) == multiset(TestInput())
    ensures r == TestExpected()
  {
    var e := TestExpected();
    TestIsRearranged();
    TestExpectedSorted();
    TestLengthsDistinct(r);
    SortedPermutationUnique(SqLen, r, e);
  }

  /** The sorting test: sorting the test's five vectors gives exactly the
      order the test expects. */
  method SortsTestVectors() returns (r: seq<seq<real>>)
    ensures r == TestExpected()
  {
    var input := TestInput();
    var a := new seq<real>[5](i requires 0 <= i < 5 => input[i]);
    assert a[..] == input;
    SortByLength(a);
    r := a[..];
    forall i, j | 0 <= i < j < |r|
      ensures !Above(SqLen, r[j], r[i])
    {
      assert !Greater(a[j], a[i]);
    }
    TestOutcome(r);
  }
}
