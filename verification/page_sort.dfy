/**
 * `sorted(pages)` over a Python set of page numbers: the result lists every
 * page once, in ascending order.
 */
module PageSort {

  function Elems(s: seq<int>): (elems: set<int>) {
    set x | x in s
  }

  predicate StrictlyIncreasing(s: seq<int>) {
    forall i, j :: 0 <= i < j < |s| ==> s[i] < s[j]
  }

  /** The elements of a list with one element put in front. */
  lemma ElemsCons(x: int, s: seq<int>)
    ensures Elems([x] + s) == {x} + Elems(s)
  {
    forall y | y in Elems([x] + s) ensures y in {x} + Elems(s) {
      var k :| 0 <= k < |[x] + s| && ([x] + s)[k] == y;
      if k > 0 {
        assert s[k - 1] == y;
      }
    }
  }

  /** In an ascending duplicate-free list every later element exceeds the first. */
  lemma FirstIsBelowRest(s: seq<int>)
    requires StrictlyIncreasing(s) && |s| > 0
    ensures forall y :: y in Elems(s[1..]) ==> s[0] < y
  {
    forall y | y in Elems(s[1..]) ensures s[0] < y {
      var k :| 0 <= k < |s[1..]| && s[1..][k] == y;
      assert s[k + 1] == y;
    }
  }

  /** Putting an element below all others in front keeps a list ascending and duplicate-free. */
  lemma PrependBelow(x: int, s: seq<int>)
    requires StrictlyIncreasing(s)
    requires forall y :: y in Elems(s) ==> x < y
    ensures StrictlyIncreasing([x] + s)
  {
    var r := [x] + s;
    forall i, j | 0 <= i < j < |r| ensures r[i] < r[j] {
      assert r[j] == s[j - 1] && s[j - 1] in Elems(s);
    }
  }

  /** Inserts `x` into an ascending list, keeping it ascending and free of duplicates. */
  function Insert(x: int, s: seq<int>): (r: seq<int>)
    requires StrictlyIncreasing(s)
    ensures StrictlyIncreasing(r)
    ensures Elems(r) == Elems(s) + {x}
    decreases |s|
  {
    if |s| == 0 then [x]
    else
      ElemsCons(s[0], s[1..]);
      assert [s[0]] + s[1..] == s;
      if x < s[0] then
        ElemsCons(x, s);
        FirstIsBelowRest(s);
        PrependBelow(x, s);
        [x] + s
      else if x == s[0] then s
      else
        var rest := Insert(x, s[1..]);
        ElemsCons(s[0], rest);
        FirstIsBelowRest(s);
        PrependBelow(s[0], rest);
        [s[0]] + rest
  }

  /** The pages in ascending order, each once. */
  function Sort(pages: seq<int>): (r: seq<int>)
    ensures StrictlyIncreasing(r)
    ensures Elems(r) == Elems(pages)
    decreases |pages|
  {
    if |pages| == 0 then []
    else
      var r := Insert(pages[|pages| - 1], Sort(pages[..|pages| - 1]));
      ElemsSnoc(pages[..|pages| - 1], pages[|pages| - 1]);
      assert pages[..|pages| - 1] + [pages[|pages| - 1]] == pages;
      r
  }

  /** An ascending duplicate-free list is determined by its elements. */
  lemma {:induction false} StrictlyIncreasingUnique(a: seq<int>, b: seq<int>)
    requires StrictlyIncreasing(a) && StrictlyIncreasing(b)
    requires Elems(a) == Elems(b)
    ensures a == b
    decreases |a|
  {
    StrictlyIncreasingLength(a);
    StrictlyIncreasingLength(b);
    if |a| > 0 {
      assert a[0] == b[0] by {
        assert b[0] in Elems(a) && a[0] in Elems(b);
      }
      assert Elems(a[1..]) == Elems(a) - {a[0]} by {
        assert a == [a[0]] + a[1..];
      }
      assert Elems(b[1..]) == Elems(b) - {b[0]} by {
        assert b == [b[0]] + b[1..];
      }
      StrictlyIncreasingUnique(a[1..], b[1..]);
      assert a == [a[0]] + a[1..] && b == [b[0]] + b[1..];
    }
  }

  lemma {:induction false} StrictlyIncreasingLength(s: seq<int>)
    requires StrictlyIncreasing(s)
    ensures |Elems(s)| == |s|
    decreases |s|
  {
    if |s| > 0 {
      TailIncreasing(s);
      StrictlyIncreasingLength(s[1..]);
      ElemsCons(s[0], s[1..]);
      assert [s[0]] + s[1..] == s;
      FirstIsBelowRest(s);
      assert s[0] !in Elems(s[1..]);
    }
  }

  lemma TailIncreasing(s: seq<int>)
    requires StrictlyIncreasing(s) && |s| > 0
    ensures StrictlyIncreasing(s[1..])
  {
    forall i, j | 0 <= i < j < |s[1..]| ensures s[1..][i] < s[1..][j] {
      assert s[1..][i] == s[i + 1] && s[1..][j] == s[j + 1];
    }
  }

  /** The elements of a list with one element put at the end. */
  lemma ElemsSnoc(s: seq<int>, x: int)
    ensures Elems(s + [x]) == Elems(s) + {x}
  {
    forall y | y in Elems(s + [x]) ensures y in Elems(s) + {x} {
      var k :| 0 <= k < |s + [x]| && (s + [x])[k] == y;
      if k < |s| {
        assert s[k] == y;
      }
    }
  }

  /**
   * `sorted(set(pages))` is the one ascending list of the distinct pages: it
   * does not depend on the order or repetition of the input, and it is as long
   * as the number of distinct pages.
   */
  lemma SortIsCanonical(pages: seq<int>, other: seq<int>)
    requires Elems(pages) == Elems(other)
    ensures Sort(pages) == Sort(other)
    ensures |Sort(pages)| == |Elems(pages)|
  {
    StrictlyIncreasingUnique(Sort(pages), Sort(other));
    StrictlyIncreasingLength(Sort(pages));
  }
}
