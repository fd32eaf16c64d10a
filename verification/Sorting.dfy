/** Sorted integer sequences: the reference notion of "middle of the sorted window". */
module Sorting {

  ghost predicate IsSorted(s: seq<int>) {
    forall i, j :: 0 <= i <= j < |s| ==> s[i] <= s[j]
  }

  lemma SortedAt(s: seq<int>, i: int, j: int)
    requires IsSorted(s) && 0 <= i <= j < |s|
    ensures s[i] <= s[j]
  {
  }

  /** Inserts x before the first element that is not smaller. */
  function Insert(x: int, s: seq<int>): (r: seq<int>)
    ensures multiset(r) == multiset(s) + multiset{x}
  {
    if s == [] then [x]
    else if x <= s[0] then [x] + s
    else
      assert s == [s[0]] + s[1..];
      [s[0]] + Insert(x, s[1..])
  }

  lemma ConcatSorted(a: seq<int>, b: seq<int>)
    requires IsSorted(a) && IsSorted(b)
    requires forall x, y :: x in a && y in b ==> x <= y
    ensures IsSorted(a + b)
  {
    var s := a + b;
    forall i, j | 0 <= i <= j < |s| ensures s[i] <= s[j] {
      if j < |a| {
        assert s[i] == a[i] && s[j] == a[j];
      } else if |a| <= i {
        assert s[i] == b[i - |a|] && s[j] == b[j - |a|];
      } else {
        assert s[i] == a[i] && s[j] == b[j - |a|];
        assert a[i] in a && b[j - |a|] in b;
      }
    }
  }

  lemma {:induction false} InsertKeepsOrder(x: int, s: seq<int>)
    requires IsSorted(s)
    ensures IsSorted(Insert(x, s))
  {
    hide IsSorted;
    SingletonSorted(x);
    if s != [] {
      FirstIsLeast(s);
      SingletonSorted(s[0]);
      if s[0] < x {
        InsertKeepsOrder(x, s[1..]);
        forall y | y in Insert(x, s[1..]) ensures s[0] <= y { InsertMembers(x, s[1..], y); }
        ConcatSorted([s[0]], Insert(x, s[1..]));
      } else {
        ConcatSorted([x], s);
      }
    }
  }

  lemma SingletonSorted(x: int)
    ensures IsSorted([x])
  {
  }

  lemma FirstIsLeast(s: seq<int>)
    requires s != [] && IsSorted(s)
    ensures IsSorted(s[1..])
    ensures forall y :: y in s ==> s[0] <= y
    ensures forall y :: y in s[1..] ==> s[0] <= y
  {
  }

  lemma {:induction false} InsertMembers(x: int, s: seq<int>, y: int)
    ensures y in Insert(x, s) <==> y == x || y in s
  {
    if s != [] && s[0] < x {
      InsertMembers(x, s[1..], y);
      assert s == [s[0]] + s[1..];
    }
  }

  lemma SameElements(a: seq<int>, b: seq<int>)
    requires multiset(a) == multiset(b)
    ensures |a| == |b|
    ensures forall x :: x in a <==> x in b
  {
    assert |multiset(a)| == |a| && |multiset(b)| == |b|;
    assert forall x :: x in a <==> x in multiset(a);
    assert forall x :: x in b <==> x in multiset(b);
  }

  /** Insertion sort; stands for the sorted arrangement, whatever algorithm finds it. */
  function Sort(s: seq<int>): (r: seq<int>)
    ensures IsSorted(r)
    ensures multiset(r) == multiset(s)
  {
    if s == [] then []
    else
      assert s == [s[0]] + s[1..];
      InsertKeepsOrder(s[0], Sort(s[1..]));
      Insert(s[0], Sort(s[1..]))
  }

  lemma SortLength(s: seq<int>)
    ensures |Sort(s)| == |s|
  {
    assert |multiset(Sort(s))| == |Sort(s)|;
    assert |multiset(s)| == |s|;
  }

  /** A multiset of integers has only one sorted arrangement. */
  lemma {:induction false} SortedUnique(a: seq<int>, b: seq<int>)
    requires IsSorted(a) && IsSorted(b)
    requires multiset(a) == multiset(b)
    ensures a == b
  {
    hide IsSorted;
    SameElements(a, b);
    if a != [] {
      SameHead(a, b);
      TailOf(a);
      TailOf(b);
      SortedUnique(a[1..], b[1..]);
      assert a == [a[0]] + a[1..] && b == [b[0]] + b[1..];
    }
  }

  lemma SameHead(a: seq<int>, b: seq<int>)
    requires IsSorted(a) && IsSorted(b) && a != [] && b != []
    requires forall x :: x in a <==> x in b
    ensures a[0] == b[0]
  {
    hide IsSorted;
    assert a[0] in a && b[0] in b;
    var i :| 0 <= i < |b| && b[i] == a[0];
    SortedAt(b, 0, i);
    var j :| 0 <= j < |a| && a[j] == b[0];
    SortedAt(a, 0, j);
  }

  lemma TailOf(a: seq<int>)
    requires a != []
    ensures multiset(a[1..]) == multiset(a) - multiset{a[0]}
    ensures IsSorted(a) ==> IsSorted(a[1..])
  {
    assert a == [a[0]] + a[1..];
  }

  /** Sorting a sequence split around a pivot: the lower part lands before it, the upper part after it. */
  lemma SortAroundPivot(lower: seq<int>, pivot: int, upper: seq<int>)
    requires forall x :: x in lower ==> x <= pivot
    requires forall x :: x in upper ==> pivot <= x
    ensures Sort(lower + [pivot] + upper) == Sort(lower) + [pivot] + Sort(upper)
  {
    var a, b := Sort(lower), Sort(upper);
    SameElements(a, lower);
    SameElements(b, upper);
    ConcatSorted(a, [pivot]);
    ConcatSorted(a + [pivot], b);
    assert multiset(a + [pivot] + b) == multiset(lower + [pivot] + upper);
    SortedUnique(a + [pivot] + b, Sort(lower + [pivot] + upper));
  }

  /** The last of the sorted values is the greatest, the first is the least. */
  lemma SortExtremes(s: seq<int>, x: int)
    requires x in s
    ensures |Sort(s)| == |s|
    ensures Sort(s)[0] <= x <= Sort(s)[|s| - 1]
    ensures Sort(s)[0] in s && Sort(s)[|s| - 1] in s
  {
    SortLength(s);
    var t := Sort(s);
    assert x in multiset(s) && x in multiset(t);
    assert x in t;
    assert t[0] in multiset(t) && t[|t| - 1] in multiset(t);
  }

  lemma SortOfEqual(a: seq<int>, b: seq<int>)
    requires multiset(a) == multiset(b)
    ensures Sort(a) == Sort(b)
  {
    SortedUnique(Sort(a), Sort(b));
  }

  lemma LeastIsFirst(s: seq<int>, x: int)
    requires x in s && forall y :: y in s ==> x <= y
    ensures |Sort(s)| == |s| && Sort(s)[0] == x
  {
    SortExtremes(s, x);
  }

  lemma GreatestIsLast(s: seq<int>, x: int)
    requires x in s && forall y :: y in s ==> y <= x
    ensures |Sort(s)| == |s| && Sort(s)[|s| - 1] == x
  {
    SortExtremes(s, x);
  }

  /** Where the pivot and the greatest value below it come to stand in the sorted sequence. */
  lemma PivotRank(lower: seq<int>, pivot: int, upper: seq<int>)
    requires forall x :: x in lower ==> x <= pivot
    requires forall x :: x in upper ==> pivot <= x
    ensures var s := Sort(lower + [pivot] + upper);
            && |s| == |lower| + 1 + |upper|
            && s[|lower|] == pivot
            && forall t :: t in lower && (forall x :: x in lower ==> x <= t) ==> s[|lower| - 1] == t
  {
    hide Sort, IsSorted;
    SortAroundPivot(lower, pivot, upper);
    SortLength(lower);
    SortLength(upper);
    forall t | t in lower && forall x :: x in lower ==> x <= t
      ensures Sort(lower + [pivot] + upper)[|lower| - 1] == t
    {
      GreatestIsLast(lower, t);
    }
  }
}
