/// `shell_sort`: Shell sort over Ciura's gap sequence, in place on a buffer.
/// Elements are compared through `operator>`, here a key: `x > y` when
/// `key(x) > key(y)`. An element moves down its stride while it is greater
/// than its predecessor, so the buffer ends up NON-INCREASING.
module Sorting {

  /** Ciura's gaps: sixteen of them, strictly decreasing, ending in 1 so that
      the last pass is a plain insertion sort. */
  function Gaps(): (g: seq<nat>)
    ensures |g| == 16 && g[15] == 1
    ensures forall i :: 0 <= i < |g| ==> g[i] >= 1
    ensures forall i :: 0 < i < |g| ==> g[i] < g[i - 1]
  {
    [510774, 227011, 100894, 44842, 19930, 8858,
     3937, 1750, 701, 301, 132, 57, 23, 10, 4, 1]
  }

  /** `x > y` as the sort sees it. */
  predicate Above<T>(key: T -> real, x: T, y: T) {
    key(x) > key(y)
  }

  /** The element `g` places after position `k` is no greater than the one at `k`. */
  ghost predicate InOrderAt<T>(key: T -> real, s: seq<T>, k: nat, g: nat)
    requires k + g < |s|
  {
    !Above(key, s[k + g], s[k])
  }

  /** Every element is no greater than the one `g` places before it. */
  ghost predicate GapSorted<T>(key: T -> real, s: seq<T>, g: nat) {
    forall k: nat :: k + g < |s| ==> InOrderAt(key, s, k, g)
  }

  /** No element is greater than any element before it. */
  ghost predicate NonIncreasing<T>(key: T -> real, s: seq<T>) {
    forall i, j :: 0 <= i < j < |s| ==> !Above(key, s[j], s[i])
  }

  /** Ordered neighbours make the whole sequence ordered. */
  lemma {:induction false} AdjacentToSorted<T>(key: T -> real, s: seq<T>)
    requires GapSorted(key, s, 1)
    ensures NonIncreasing(key, s)
  {
    if |s| > 1 {
      var t := s[1..];
      forall k: nat | k + 1 < |t|
        ensures InOrderAt(key, t, k, 1)
      {
        assert InOrderAt(key, s, k + 1, 1);
      }
      AdjacentToSorted(key, t);
      forall i, j | 0 <= i < j < |s|
        ensures !Above(key, s[j], s[i])
      {
        if i > 0 {
          assert s[i] == t[i - 1] && s[j] == t[j - 1];
        } else {
          assert InOrderAt(key, s, 0, 1);
          if j > 1 {
            assert s[1] == t[0] && s[j] == t[j - 1];
          }
        }
      }
    }
  }

  /** While `a[i]` moves down its stride it sits at `j`: every pair `g` apart
      up to `i` is ordered except the one ending at `j`, ... */
  ghost predicate OrderedAroundHole<T>(key: T -> real, s: seq<T>, g: nat, i: nat, j: nat) {
    forall k: nat :: k + g <= i && k + g != j && k + g < |s| ==> InOrderAt(key, s, k, g)
  }

  /** ... and the pair that straddles `j` is ordered too. */
  ghost predicate Bridged<T>(key: T -> real, s: seq<T>, g: nat, i: nat, j: nat)
    requires i < |s|
  {
    j + g <= i && j >= g ==> !Above(key, s[j + g], s[j - g])
  }

  /** One swap of the inner loop keeps both facts, one stride further down. */
  lemma SwapDown<T>(key: T -> real, s: seq<T>, g: nat, i: nat, j: nat)
    requires 1 <= g <= j <= i < |s|
    requires OrderedAroundHole(key, s, g, i, j) && Bridged(key, s, g, i, j)
    requires Above(key, s[j], s[j - g])
    ensures var t := s[j - g := s[j]][j := s[j - g]];
      OrderedAroundHole(key, t, g, i, j - g) && Bridged(key, t, g, i, j - g)
  {
    var t := s[j - g := s[j]][j := s[j - g]];
    forall k: nat | k + g <= i && k + g != j - g && k + g < |t|
      ensures InOrderAt(key, t, k, g)
    {
      if k + g == j {
        assert t[k + g] == s[j - g] && t[k] == s[j];
      } else if k == j {
        assert t[k + g] == s[j + g] && t[k] == s[j - g];
      } else {
        assert InOrderAt(key, s, k, g);
        assert t[k + g] == s[k + g] && t[k] == s[k];
      }
    }
    if j - g >= g {
      assert InOrderAt(key, s, j - 2 * g, g);
      assert t[j] == s[j - g] && t[j - 2 * g] == s[j - 2 * g];
    }
  }

  /** When `a[i]` stops, the pair ending at its place is ordered as well. */
  lemma HoleClosed<T>(key: T -> real, s: seq<T>, g: nat, i: nat, j: nat)
    requires 1 <= g && j <= i < |s|
    requires OrderedAroundHole(key, s, g, i, j)
    requires j < g || !Above(key, s[j], s[j - g])
    ensures OrderedAroundHole(key, s, g, i, i + g)
  {
    forall k: nat | k + g <= i && k + g < |s|
      ensures InOrderAt(key, s, k, g)
    {
    }
  }

  /** `std::swap` of two elements keeps the elements. */
  lemma Swapped<T>(s: seq<T>, p: nat, q: nat)
    requires p < q < |s|
    ensures multiset(s[p := s[q]][q := s[p]]) == multiset(s)
  {
  }

  /** The state of the inner loop, `s`, against the buffer it started from,
      `o`, while `o[i]` sits at `j`. */
  ghost predicate Inserting<T>(key: T -> real, o: seq<T>, s: seq<T>, g: nat, i: nat, j: nat) {
    1 <= g <= i < |s| == |o| && j <= i
    && OrderedAroundHole(key, s, g, i, j) && Bridged(key, s, g, i, j)
    && multiset(s) == multiset(o)
    && (j == i ==> s == o)
    && (j < i ==> Above(key, o[i], o[i - g]))
  }

  /** One turn of the inner loop keeps its state consistent. */
  lemma InsertStep<T>(key: T -> real, o: seq<T>, s: seq<T>, g: nat, i: nat, j: nat)
    requires Inserting(key, o, s, g, i, j)
    requires j >= g && Above(key, s[j], s[j - g])
    ensures Inserting(key, o, s[j - g := s[j]][j := s[j - g]], g, i, j - g)
  {
    SwapDown(key, s, g, i, j);
    Swapped(s, j - g, j);
  }

  /** When the inner loop stops, every pair `g` apart up to `i` is ordered. */
  lemma InsertDone<T>(key: T -> real, o: seq<T>, s: seq<T>, g: nat, i: nat, j: nat)
    requires Inserting(key, o, s, g, i, j)
    requires j < g || !Above(key, s[j], s[j - g])
    ensures OrderedAroundHole(key, s, g, i, i + g)
    ensures multiset(s) == multiset(o)
    ensures !Above(key, o[i], o[i - g]) ==> s == o
  {
    HoleClosed(key, s, g, i, j);
  }

  /** The inner loop: `a[i]` moves down its stride of gap `g` while it is
      greater than the element `g` places before it. Beforehand every pair
      `g` apart below `i` is ordered; afterwards every pair up to `i` is. */
  method InsertStrided<T>(a: array<T>, key: T -> real, g: nat, i: nat)
    requires 1 <= g <= i < a.Length
    requires OrderedAroundHole(key, a[..], g, i, i)
    modifies a
    ensures OrderedAroundHole(key, a[..], g, i, i + g)
    ensures multiset(a[..]) == multiset(old(a[..]))
    ensures !Above(key, old(a[i]), old(a[i - g])) ==> a[..] == old(a[..])
  {
    ghost var o := a[..];
    var j: nat := i;
    while j >= g && Above(key, a[j], a[j - g])
      invariant Inserting(key, o, a[..], g, i, j)
      decreases j
    {
      ghost var s := a[..];
      InsertStep(key, o, s, g, i, j);
      a[j], a[j - g] := a[j - g], a[j];
      assert a[..] == s[j - g := s[j]][j := s[j - g]];
      j := j - g;
    }
    InsertDone(key, o, a[..], g, i, j);
  }

  /** One pass at gap `g`: every element from position `g` on is inserted
      into its stride. Afterwards the buffer is ordered at gap `g`. */
  method GapPass<T>(a: array<T>, key: T -> real, g: nat)
    requires 1 <= g
    modifies a
    ensures GapSorted(key, a[..], g)
    ensures multiset(a[..]) == multiset(old(a[..]))
    ensures NonIncreasing(key, old(a[..])) ==> a[..] == old(a[..])
  {
    var i := g;
    while i < a.Length
      invariant g <= i
      invariant i <= a.Length || a.Length < g
      invariant OrderedAroundHole(key, a[..], g, i, i)
      invariant multiset(a[..]) == multiset(old(a[..]))
      invariant NonIncreasing(key, old(a[..])) ==> a[..] == old(a[..])
    {
      InsertStrided(a, key, g, i);
      i := i + 1;
    }
  }

  /** `shell_sort`: a pass for every gap no larger than the buffer, largest
      first. The result is non-increasing, holds the same elements, and a
      buffer that is already non-increasing is left as it was. */
  method ShellSort<T>(a: array<T>, key: T -> real)
    modifies a
    ensures NonIncreasing(key, a[..])
    ensures multiset(a[..]) == multiset(old(a[..]))
    ensures NonIncreasing(key, old(a[..])) ==> a[..] == old(a[..])
  {
    var x := 0;
    while x < |Gaps()|
      invariant 0 <= x <= |Gaps()|
      invariant x > 0 && Gaps()[x - 1] <= a.Length ==> GapSorted(key, a[..], Gaps()[x - 1])
      invariant multiset(a[..]) == multiset(old(a[..]))
      invariant NonIncreasing(key, old(a[..])) ==> a[..] == old(a[..])
    {
      var d := Gaps()[x];
      if d > a.Length {
        x := x + 1;
        continue;
      }
      GapPass(a, key, d);
      x := x + 1;
    }
    if a.Length > 0 {
      AdjacentToSorted(key, a[..]);
    }
  }

  /** The first element of a non-increasing sequence has the largest key. */
  lemma HeadIsLargest<T>(key: T -> real, s: seq<T>, x: T)
    requires NonIncreasing(key, s) && x in s
    ensures !Above(key, x, s[0])
  {
    var i :| 0 <= i < |s| && s[i] == x;
    if i > 0 {
      assert !Above(key, s[i], s[0]);
    }
  }

  /** Dropping the first element keeps a sequence non-increasing. */
  lemma SortedTail<T>(key: T -> real, s: seq<T>)
    requires NonIncreasing(key, s) && s != []
    ensures NonIncreasing(key, s[1..])
  {
    var t := s[1..];
    forall p, q | 0 <= p < q < |t|
      ensures !Above(key, t[q], t[p])
    {
      assert t[q] == s[q + 1] && t[p] == s[p + 1];
    }
  }

  /** Two arrangements of the same elements that start alike continue alike. */
  lemma SameTails<T>(s: seq<T>, t: seq<T>)
    requires multiset(s) == multiset(t) && s != [] && t != [] && s[0] == t[0]
    ensures multiset(s[1..]) == multiset(t[1..])
  {
    assert s == [s[0]] + s[1..] && t == [t[0]] + t[1..];
    calc {
      multiset(s[1..]);
      multiset(s) - multiset([s[0]]);
      multiset(t) - multiset([t[0]]);
      multiset(t[1..]);
    }
  }

  /** The two arrangements start with the same element. */
  lemma SameHeads<T>(key: T -> real, s: seq<T>, t: seq<T>)
    requires NonIncreasing(key, s) && NonIncreasing(key, t)
    requires multiset(s) == multiset(t) && s != []
    requires forall x, y :: x in s && y in s && key(x) == key(y) ==> x == y
    ensures t != [] && s[0] == t[0]
  {
    assert |t| == |multiset(t)| == |multiset(s)| == |s|;
    assert s[0] in multiset(s) && t[0] in multiset(t);
    assert s[0] in t && t[0] in s;
    HeadIsLargest(key, s, t[0]);
    HeadIsLargest(key, t, s[0]);
  }

  /** Two non-increasing arrangements of the same elements are the same
      arrangement when no two different elements share a key. */
  lemma {:induction false} SortedPermutationUnique<T>(key: T -> real, s: seq<T>, t: seq<T>)
    requires NonIncreasing(key, s) && NonIncreasing(key, t)
    requires multiset(s) == multiset(t)
    requires forall x, y :: x in s && y in s && key(x) == key(y) ==> x == y
    ensures s == t
  {
    if s == [] {
      assert |t| == |multiset(t)| == 0;
    } else {
      SameHeads(key, s, t);
      SameTails(s, t);
      SortedTail(key, s);
      SortedTail(key, t);
      var s', t' := s[1..], t[1..];
      forall x, y | x in s' && y in s' && key(x) == key(y)
        ensures x == y
      {
        assert x in s && y in s;
      }
      SortedPermutationUnique(key, s', t');
      assert s == [s[0]] + s' && t == [t[0]] + t';
    }
  }
}
