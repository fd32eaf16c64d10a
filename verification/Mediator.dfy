/**
  The running median of `_snippets/med.c`.

  One array `heap` holds, around its middle cell, a max-heap (negative indices), the median
  (index 0) and a min-heap (positive indices) of slots of the circular queue `data`;
  `pos` is the inverse of `heap`.
*/
module HeapOrder {

  /*
   Both half-heaps are seen through the sequence w of the values they hold, with the median
   at w[h]. The min-heap cell j is w[h + j], the max-heap cell -j is w[h - j]; in both the
   parent of cell j is cell j / 2, so that cell 1 hangs from the median.
   */

  ghost predicate MinEdge(w: seq<int>, h: int, j: int) {
    0 <= h + j / 2 < |w| && 0 <= h + j < |w| && w[h + j / 2] <= w[h + j]
  }

  ghost predicate MaxEdge(w: seq<int>, h: int, j: int) {
    0 <= h - j / 2 < |w| && 0 <= h - j < |w| && w[h - j] <= w[h - j / 2]
  }

  /** Every cell 1..m of the min-heap is at least its parent. */
  ghost predicate MinHeap(w: seq<int>, h: int, m: int) {
    forall j :: 1 <= j <= m ==> MinEdge(w, h, j)
  }

  ghost predicate MaxHeap(w: seq<int>, h: int, m: int) {
    forall j :: 1 <= j <= m ==> MaxEdge(w, h, j)
  }

  /** The min-heap, except that cell p may be too large for its children. */
  ghost predicate MinBroken(w: seq<int>, h: int, m: int, p: int) {
    && (forall j :: 1 <= j <= m && j / 2 != p ==> MinEdge(w, h, j))
    && (forall j :: 1 <= j <= m && j / 2 == p && 1 <= p ==> MinSkip(w, h, j))
  }

  /** Cell j is at least its grandparent. */
  ghost predicate MinSkip(w: seq<int>, h: int, j: int) {
    0 <= h + j / 2 / 2 < |w| && 0 <= h + j < |w| && w[h + j / 2 / 2] <= w[h + j]
  }

  ghost predicate MaxBroken(w: seq<int>, h: int, m: int, p: int) {
    && (forall j :: 1 <= j <= m && j / 2 != p ==> MaxEdge(w, h, j))
    && (forall j :: 1 <= j <= m && j / 2 == p && 1 <= p ==> MaxSkip(w, h, j))
  }

  ghost predicate MaxSkip(w: seq<int>, h: int, j: int) {
    0 <= h - j / 2 / 2 < |w| && 0 <= h - j < |w| && w[h - j] <= w[h - j / 2 / 2]
  }

  /** The min-heap, except that cell i may be too small for its parent. */
  ghost predicate MinRaised(w: seq<int>, h: int, m: int, i: int) {
    && (forall j :: 1 <= j <= m && j != i ==> MinEdge(w, h, j))
    && (forall j :: 1 <= j <= m && j / 2 == i && 1 <= i ==> MinSkip(w, h, j))
  }

  ghost predicate MaxRaised(w: seq<int>, h: int, m: int, i: int) {
    && (forall j :: 1 <= j <= m && j != i ==> MaxEdge(w, h, j))
    && (forall j :: 1 <= j <= m && j / 2 == i && 1 <= i ==> MaxSkip(w, h, j))
  }

  function Swap(w: seq<int>, a: int, b: int): (r: seq<int>)
    requires 0 <= a < |w| && 0 <= b < |w|
    ensures |r| == |w|
    ensures r[a] == w[b] && r[b] == w[a]
    ensures forall k :: 0 <= k < |w| && k != a && k != b ==> r[k] == w[k]
  {
    w[a := w[b]][b := w[a]]
  }

  lemma SwapSymmetric(w: seq<int>, a: int, b: int)
    requires 0 <= a < |w| && 0 <= b < |w|
    ensures Swap(w, a, b) == Swap(w, b, a)
  {
  }

  /** Sinking one level below p through its least child i moves the defect to i. */
  lemma MinSink(w: seq<int>, h: int, m: int, p: int, i: int)
    requires MinBroken(w, h, m, p)
    requires 0 <= p && 1 <= i <= m && i / 2 == p && 0 <= h && h + m < |w|
    requires forall j :: 1 <= j <= m && j / 2 == p ==> w[h + i] <= w[h + j]
    requires w[h + i] < w[h + p]
    ensures MinBroken(Swap(w, h + i, h + p), h, m, i)
  {
    var r := Swap(w, h + i, h + p);
    forall j | 1 <= j <= m && j / 2 != i ensures MinEdge(r, h, j) {
      if j / 2 == p {
      } else if j == p {
        assert MinSkip(w, h, i);
      } else {
        assert MinEdge(w, h, j);
      }
    }
    forall j | 1 <= j <= m && j / 2 == i ensures MinSkip(r, h, j) {
      assert MinEdge(w, h, j);
    }
  }

  lemma MaxSink(w: seq<int>, h: int, m: int, p: int, i: int)
    requires MaxBroken(w, h, m, p)
    requires 0 <= p && 1 <= i <= m && i / 2 == p && m <= h < |w|
    requires forall j :: 1 <= j <= m && j / 2 == p ==> w[h - j] <= w[h - i]
    requires w[h - p] < w[h - i]
    ensures MaxBroken(Swap(w, h - i, h - p), h, m, i)
  {
    var r := Swap(w, h - i, h - p);
    forall j | 1 <= j <= m && j / 2 != i ensures MaxEdge(r, h, j) {
      if j / 2 == p {
      } else if j == p {
        assert MaxSkip(w, h, i);
      } else {
        assert MaxEdge(w, h, j);
      }
    }
    forall j | 1 <= j <= m && j / 2 == i ensures MaxSkip(r, h, j) {
      assert MaxEdge(w, h, j);
    }
  }

  lemma MaxSettled(w: seq<int>, h: int, m: int, p: int, i: int)
    requires MaxBroken(w, h, m, p)
    requires 0 <= p && 1 <= i <= m && i / 2 == p && m <= h < |w|
    requires forall j :: 1 <= j <= m && j / 2 == p ==> w[h - j] <= w[h - i]
    requires w[h - i] <= w[h - p]
    ensures MaxHeap(w, h, m)
  {
  }

  /** Rising one level from i to its parent moves the defect to the parent. */
  lemma MinRise(w: seq<int>, h: int, m: int, i: int)
    requires MinRaised(w, h, m, i)
    requires 1 <= i <= m && 0 <= h && h + m < |w|
    requires w[h + i] < w[h + i / 2]
    ensures MinRaised(Swap(w, h + i, h + i / 2), h, m, i / 2)
  {
    var r := Swap(w, h + i, h + i / 2);
    forall j | 1 <= j <= m && j != i / 2 ensures MinEdge(r, h, j) {
      if j == i {
      } else if j / 2 == i {
        assert MinSkip(w, h, j);
      } else {
        assert MinEdge(w, h, j);
      }
    }
    forall j | 1 <= j <= m && j / 2 == i / 2 && 1 <= i / 2 ensures MinSkip(r, h, j) {
      assert MinEdge(w, h, i / 2);
      if j != i { assert MinEdge(w, h, j); }
    }
  }

  lemma MaxRise(w: seq<int>, h: int, m: int, i: int)
    requires MaxRaised(w, h, m, i)
    requires 1 <= i <= m && m <= h < |w|
    requires w[h - i / 2] < w[h - i]
    ensures MaxRaised(Swap(w, h - i, h - i / 2), h, m, i / 2)
  {
    var r := Swap(w, h - i, h - i / 2);
    forall j | 1 <= j <= m && j != i / 2 ensures MaxEdge(r, h, j) {
      if j == i {
      } else if j / 2 == i {
        assert MaxSkip(w, h, j);
      } else {
        assert MaxEdge(w, h, j);
      }
    }
    forall j | 1 <= j <= m && j / 2 == i / 2 && 1 <= i / 2 ensures MaxSkip(r, h, j) {
      assert MaxEdge(w, h, i / 2);
      if j != i { assert MaxEdge(w, h, j); }
    }
  }

  /**
    What sinking into the min-heap from cell i0 / 2 achieves: order is restored, cells left of the
    median keep their values, and the median becomes the lesser of itself and cell 1 (or keeps its
    value when the sinking started below it).
   */
  ghost predicate MinSunk(w: seq<int>, w': seq<int>, h: int, m: nat, i0: int) {
    && |w'| == |w| && 0 <= h && h + m < |w|
    && MinHeap(w', h, m)
    && (forall k :: 0 <= k < h ==> w'[k] == w[k])
    && w'[h] == SunkMedian(w, h, m, i0)
    && (i0 == 1 && w'[h] == w[h] ==> w' == w)
  }

  ghost function SunkMedian(w: seq<int>, h: int, m: int, i0: int): int
    requires 0 <= h && h + m < |w| && h < |w|
  {
    if i0 == 1 && 1 <= m && w[h + 1] < w[h] then w[h + 1] else w[h]
  }

  /** The state of the min-heap when the defect has sunk to cell p. */
  ghost predicate MinSinking(w: seq<int>, w': seq<int>, h: int, m: nat, i0: int, p: int) {
    && |w'| == |w| && 0 <= h && h + m < |w| && 0 <= p
    && MinBroken(w', h, m, p)
    && (forall k :: 0 <= k < h ==> w'[k] == w[k])
    && (if p == 0 then i0 == 1 && w' == w
        else w'[h] == SunkMedian(w, h, m, i0) && (i0 == 1 ==> w'[h] != w[h]))
  }

  lemma FirstChildOf(p: int)
    ensures 1 <= p ==> FirstChild(p) == p * 2
  {
  }

  lemma MinSinkStarts(w: seq<int>, h: int, m: nat, i0: int)
    requires 0 <= h && h + m < |w| && 1 <= i0 && (i0 == 1 || i0 % 2 == 0)
    requires MinBroken(w, h, m, i0 / 2)
    ensures MinSinking(w, w, h, m, i0, i0 / 2) && i0 == FirstChild(i0 / 2)
  {
  }

  lemma MaxSinkStarts(w: seq<int>, h: int, m: nat, i0: int)
    requires m <= h < |w| && 1 <= i0 && (i0 == 1 || i0 % 2 == 0)
    requires MaxBroken(w, h, m, i0 / 2)
    ensures MaxSinking(w, w, h, m, i0, i0 / 2) && i0 == FirstChild(i0 / 2)
  {
  }

  /** The cell the sinking loop looks at first when the defect is at p. */
  function FirstChild(p: int): int { if p == 0 then 1 else 2 * p }

  /** One round of the sinking loop, with c the child that the round looks at. */
  lemma MinSinkRound(w: seq<int>, w': seq<int>, h: int, m: nat, i0: int, p: int, c: int)
    requires MinSinking(w, w', h, m, i0, p) && FirstChild(p) <= m
    requires var i := FirstChild(p); c == if 1 < i < m && w'[h + i + 1] < w'[h + i] then i + 1 else i
    ensures c / 2 == p < c <= m
    ensures w'[h + p] <= w'[h + c] ==> MinSunk(w, w', h, m, i0)
    ensures w'[h + c] < w'[h + p] ==> MinSinking(w, Swap(w', h + c, h + p), h, m, i0, c)
  {
    if w'[h + p] <= w'[h + c] {
    } else {
      MinSink(w', h, m, p, c);
    }
  }

  lemma MinSinkEnds(w: seq<int>, w': seq<int>, h: int, m: nat, i0: int, p: int)
    requires MinSinking(w, w', h, m, i0, p) && m < FirstChild(p)
    ensures MinSunk(w, w', h, m, i0)
  {
  }

  ghost predicate MaxSunk(w: seq<int>, w': seq<int>, h: int, m: nat, i0: int) {
    && |w'| == |w| && m <= h < |w|
    && MaxHeap(w', h, m)
    && (forall k :: h < k < |w| ==> w'[k] == w[k])
    && w'[h] == RisenMedian(w, h, m, i0)
    && (i0 == 1 && w'[h] == w[h] ==> w' == w)
  }

  ghost function RisenMedian(w: seq<int>, h: int, m: int, i0: int): int
    requires m <= h < |w| && 0 <= h
  {
    if i0 == 1 && 1 <= m && w[h] < w[h - 1] then w[h - 1] else w[h]
  }

  ghost predicate MaxSinking(w: seq<int>, w': seq<int>, h: int, m: nat, i0: int, p: int) {
    && |w'| == |w| && m <= h < |w| && 0 <= p
    && MaxBroken(w', h, m, p)
    && (forall k :: h < k < |w| ==> w'[k] == w[k])
    && (if p == 0 then i0 == 1 && w' == w
        else w'[h] == RisenMedian(w, h, m, i0) && (i0 == 1 ==> w'[h] != w[h]))
  }

  lemma MaxSinkRound(w: seq<int>, w': seq<int>, h: int, m: nat, i0: int, p: int, c: int)
    requires MaxSinking(w, w', h, m, i0, p) && FirstChild(p) <= m
    requires var i := FirstChild(p); c == if 1 < i < m && w'[h - i] < w'[h - i - 1] then i + 1 else i
    ensures c / 2 == p < c <= m
    ensures w'[h - c] <= w'[h - p] ==> MaxSunk(w, w', h, m, i0)
    ensures w'[h - p] < w'[h - c] ==> MaxSinking(w, Swap(w', h - p, h - c), h, m, i0, c)
  {
    if w'[h - c] <= w'[h - p] {
      MaxSettled(w', h, m, p, c);
    } else {
      SwapSymmetric(w', h - p, h - c);
      MaxSink(w', h, m, p, c);
    }
  }

  lemma MaxSinkEnds(w: seq<int>, w': seq<int>, h: int, m: nat, i0: int, p: int)
    requires MaxSinking(w, w', h, m, i0, p) && m < FirstChild(p)
    ensures MaxSunk(w, w', h, m, i0)
  {
  }

  /** What rising from a min-heap cell achieves; up tells whether the median was replaced. */
  ghost predicate MinRisen(w: seq<int>, w': seq<int>, h: int, m: nat, up: bool) {
    && |w'| == |w| && 0 <= h && h + m < |w|
    && MinHeap(w', h, m)
    && (forall k :: 0 <= k < h ==> w'[k] == w[k])
    && (if up then 1 <= m && w'[h] < w[h] && w'[h + 1] == w[h] else w'[h] == w[h])
  }

  ghost predicate MinRising(w: seq<int>, w': seq<int>, h: int, m: nat, i: int) {
    && |w'| == |w| && 0 <= h && h + m < |w| && 0 <= i <= m
    && MinRaised(w', h, m, i)
    && (forall k :: 0 <= k < h ==> w'[k] == w[k])
    && (if i == 0 then 1 <= m && w'[h] < w[h] && w'[h + 1] == w[h] else w'[h] == w[h])
  }

  lemma MinRiseStarts(w: seq<int>, h: int, m: nat, i: int)
    requires 0 <= h && h + m < |w| && 1 <= i <= m && MinRaised(w, h, m, i)
    ensures MinRising(w, w, h, m, i)
  {
  }

  lemma MinRiseRound(w: seq<int>, w': seq<int>, h: int, m: nat, i: int)
    requires MinRising(w, w', h, m, i) && 0 < i
    ensures i <= m && 0 <= h && h + m < |w| == |w'|
    ensures w'[h + i / 2] <= w'[h + i] ==> MinRisen(w, w', h, m, false)
    ensures w'[h + i] < w'[h + i / 2] ==> MinRising(w, Swap(w', h + i, h + i / 2), h, m, i / 2)
  {
    if w'[h + i] < w'[h + i / 2] { MinRise(w', h, m, i); }
  }

  lemma MinRiseEnds(w: seq<int>, w': seq<int>, h: int, m: nat)
    requires MinRising(w, w', h, m, 0)
    ensures MinRisen(w, w', h, m, true)
  {
  }

  ghost predicate MaxRisen(w: seq<int>, w': seq<int>, h: int, m: nat, up: bool) {
    && |w'| == |w| && m <= h < |w|
    && MaxHeap(w', h, m)
    && (forall k :: h < k < |w| ==> w'[k] == w[k])
    && (if up then 1 <= m && w[h] < w'[h] && w'[h - 1] == w[h] else w'[h] == w[h])
  }

  ghost predicate MaxRising(w: seq<int>, w': seq<int>, h: int, m: nat, i: int) {
    && |w'| == |w| && m <= h < |w| && 0 <= i <= m
    && MaxRaised(w', h, m, i)
    && (forall k :: h < k < |w| ==> w'[k] == w[k])
    && (if i == 0 then 1 <= m && w[h] < w'[h] && w'[h - 1] == w[h] else w'[h] == w[h])
  }

  lemma MaxRiseStarts(w: seq<int>, h: int, m: nat, i: int)
    requires m <= h < |w| && 1 <= i <= m && MaxRaised(w, h, m, i)
    ensures MaxRising(w, w, h, m, i)
  {
  }

  lemma MaxRiseRound(w: seq<int>, w': seq<int>, h: int, m: nat, i: int)
    requires MaxRising(w, w', h, m, i) && 0 < i
    ensures i <= m <= h < |w| == |w'|
    ensures w'[h - i] <= w'[h - i / 2] ==> MaxRisen(w, w', h, m, false)
    ensures w'[h - i / 2] < w'[h - i] ==> MaxRising(w, Swap(w', h - i / 2, h - i), h, m, i / 2)
  {
    if w'[h - i / 2] < w'[h - i] {
      SwapSymmetric(w', h - i / 2, h - i);
      MaxRise(w', h, m, i);
    }
  }

  lemma MaxRiseEnds(w: seq<int>, w': seq<int>, h: int, m: nat)
    requires MaxRising(w, w', h, m, 0)
    ensures MaxRisen(w, w', h, m, true)
  {
  }

  /*
   Overwriting one cell of ordered half-heaps. In each of these lemmas a is w with cell p (or -p)
   set to v; the cell is either an old one, or the newest cell of its half.
   */

  lemma GrowInMin(w: seq<int>, h: int, m: nat, p: int, v: int)
    requires 0 <= h && h + m < |w| && 1 <= p <= m
    requires MinHeap(w, h, m) && w[h + p] <= v
    ensures MinBroken(w[h + p := v], h, m, p)
  {
    var a := w[h + p := v];
    forall j | 1 <= j <= m && j / 2 != p ensures MinEdge(a, h, j) { assert MinEdge(w, h, j); }
    forall j | 1 <= j <= m && j / 2 == p ensures MinSkip(a, h, j) {
      assert MinEdge(w, h, j) && MinEdge(w, h, p);
    }
  }

  lemma ShrinkInMin(w: seq<int>, h: int, m: nat, p: int, v: int)
    requires 0 <= h && h + m < |w| && 1 <= p <= m
    requires (MinHeap(w, h, m) && v <= w[h + p]) || (p == m && MinHeap(w, h, m - 1))
    ensures MinRaised(w[h + p := v], h, m, p)
  {
    var a := w[h + p := v];
    forall j | 1 <= j <= m && j != p ensures MinEdge(a, h, j) { assert MinEdge(w, h, j); }
    forall j | 1 <= j <= m && j / 2 == p ensures MinSkip(a, h, j) {
      assert MinEdge(w, h, j) && MinEdge(w, h, p);
    }
  }

  lemma GrowInMax(w: seq<int>, h: int, m: nat, p: int, v: int)
    requires m <= h < |w| && 1 <= p <= m
    requires MaxHeap(w, h, m) && v <= w[h - p]
    ensures MaxBroken(w[h - p := v], h, m, p)
  {
    var a := w[h - p := v];
    forall j | 1 <= j <= m && j / 2 != p ensures MaxEdge(a, h, j) { assert MaxEdge(w, h, j); }
    forall j | 1 <= j <= m && j / 2 == p ensures MaxSkip(a, h, j) {
      assert MaxEdge(w, h, j) && MaxEdge(w, h, p);
    }
  }

  lemma ShrinkInMax(w: seq<int>, h: int, m: nat, p: int, v: int)
    requires m <= h < |w| && 1 <= p <= m
    requires (MaxHeap(w, h, m) && w[h - p] <= v) || (p == m && MaxHeap(w, h, m - 1))
    ensures MaxRaised(w[h - p := v], h, m, p)
  {
    var a := w[h - p := v];
    forall j | 1 <= j <= m && j != p ensures MaxEdge(a, h, j) { assert MaxEdge(w, h, j); }
    forall j | 1 <= j <= m && j / 2 == p ensures MaxSkip(a, h, j) {
      assert MaxEdge(w, h, j) && MaxEdge(w, h, p);
    }
  }

  /** A half-heap depends only on its own side and the median; without the median, one edge is open. */
  lemma MinHeapFrame(w: seq<int>, a: seq<int>, h: int, m: nat)
    requires |a| == |w| && 0 <= h && h + m < |w| && MinHeap(w, h, m)
    requires forall k :: h < k < |w| ==> a[k] == w[k]
    ensures MinBroken(a, h, m, 0)
    ensures (1 <= m ==> a[h] <= w[h + 1]) ==> MinHeap(a, h, m)
  {
    forall j | 2 <= j <= m ensures MinEdge(a, h, j) { assert MinEdge(w, h, j); }
  }

  lemma MaxHeapFrame(w: seq<int>, a: seq<int>, h: int, m: nat)
    requires |a| == |w| && m <= h < |w| && MaxHeap(w, h, m)
    requires forall k :: 0 <= k < h ==> a[k] == w[k]
    ensures MaxBroken(a, h, m, 0)
    ensures (1 <= m ==> w[h - 1] <= a[h]) ==> MaxHeap(a, h, m)
  {
    forall j | 2 <= j <= m ensures MaxEdge(a, h, j) { assert MaxEdge(w, h, j); }
  }

  /** Every min-heap cell is at least the median, every max-heap cell at most. */
  lemma {:induction false} MinAboveMedian(w: seq<int>, h: int, m: int, j: int)
    requires MinHeap(w, h, m) && 0 <= j <= m && 0 <= h && h + m < |w|
    ensures w[h] <= w[h + j]
    decreases j
  {
    if j > 0 {
      assert MinEdge(w, h, j);
      MinAboveMedian(w, h, m, j / 2);
    }
  }

  lemma {:induction false} MaxBelowTop(w: seq<int>, h: int, m: int, j: int)
    requires MaxHeap(w, h, m) && 1 <= j <= m <= h < |w|
    ensures w[h - j] <= w[h - 1] <= w[h]
    decreases j
  {
    assert MaxEdge(w, h, 1);
    if j > 1 {
      assert MaxEdge(w, h, j);
      MaxBelowTop(w, h, m, j / 2);
    }
  }
}

module Mediators {
  import opened HeapOrder
  import opened Sorting

  /** C division by two, which truncates toward zero. */
  function Halved(x: int): int {
    if x >= 0 then x / 2 else -(-x / 2)
  }

  lemma HalvedNegative(i: int)
    requires i <= 0
    ensures Halved(i) == -(-i / 2)
  {
  }

  function MinCount(ct: nat): int { if ct == 0 then 0 else (ct - 1) / 2 }
  function MaxCount(ct: nat): int { ct / 2 }

  /** The initial fill pattern: slots 0, 1, 2, 3, 4... go to cells 0, -1, 1, -2, 2... */
  function InitialCell(k: nat): int {
    (k + 1) / 2 * (if k % 2 == 1 then -1 else 1)
  }

  ghost function InitialSlot(i: int): nat { if i < 0 then -2 * i - 1 else 2 * i }

  lemma PatternCell(k: nat, n: nat)
    requires k < n
    ensures InitialCell(k) == (k + 1) / 2 * (if k % 2 == 1 then -1 else 1) && 0 <= InitialCell(k) + n / 2 < n
    ensures forall j: nat :: InitialCell(j) == InitialCell(k) ==> j == k
  {
  }

  lemma PatternSlot(i: nat, n: nat)
    requires i < n
    ensures InitialSlot(i - n / 2) < n && InitialCell(InitialSlot(i - n / 2)) == i - n / 2
  {
    var c := i - n / 2;
    if c < 0 {
      assert (-2 * c - 1) % 2 == 1 && (-2 * c - 1 + 1) / 2 == -c;
    } else {
      assert (2 * c) % 2 == 0 && (2 * c + 1) / 2 == c;
    }
  }

  /** `pos` and `heap` are mutually inverse; heap cell i is stored at index i + h. */
  ghost predicate Linked(pos: seq<int>, heap: seq<int>, h: int) {
    && |pos| == |heap|
    && (forall k :: 0 <= k < |pos| ==> SlotLinked(pos, heap, h, k))
    && (forall i :: 0 <= i < |heap| ==> CellLinked(pos, heap, h, i))
  }

  ghost predicate SlotLinked(pos: seq<int>, heap: seq<int>, h: int, k: int)
    requires 0 <= k < |pos|
  {
    0 <= pos[k] + h < |heap| && heap[pos[k] + h] == k
  }

  ghost predicate CellLinked(pos: seq<int>, heap: seq<int>, h: int, i: int)
    requires 0 <= i < |heap|
  {
    0 <= heap[i] < |pos| && pos[heap[i]] + h == i
  }

  /** Cells -(ct/2) .. (ct-1)/2 hold the slots filled so far, and no other cell does. */
  ghost predicate Occupied(heap: seq<int>, h: int, ct: nat) {
    forall i :: 0 <= i < |heap| ==> CellOccupied(heap, h, ct, i)
  }

  ghost predicate CellOccupied(heap: seq<int>, h: int, ct: nat, i: int)
    requires 0 <= i < |heap|
  {
    heap[i] < ct <==> InUse(i, h, ct)
  }

  ghost predicate InUse(i: int, h: int, ct: nat) {
    0 < ct && h - MaxCount(ct) <= i <= h + MinCount(ct)
  }

  /** Slots not filled yet are still where the fill pattern put them. */
  ghost predicate Untouched(pos: seq<int>, ct: nat) {
    forall k :: ct <= k < |pos| ==> pos[k] == InitialCell(k)
  }

  ghost predicate InRange(heap: seq<int>, n: nat) {
    forall i :: 0 <= i < |heap| ==> 0 <= heap[i] < n
  }

  lemma LinkedInRange(pos: seq<int>, heap: seq<int>, h: int)
    requires Linked(pos, heap, h)
    ensures InRange(heap, |pos|)
  {
    forall i | 0 <= i < |heap| ensures 0 <= heap[i] < |pos| {
      assert CellLinked(pos, heap, h, i);
    }
  }

  /** The values held by the heap cells, in cell order. */
  ghost function ValuesOf(data: seq<int>, heap: seq<int>): (w: seq<int>)
    requires InRange(heap, |data|)
    ensures |w| == |heap|
  {
    if heap == [] then [] else ValuesOf(data, heap[..|heap| - 1]) + [data[heap[|heap| - 1]]]
  }

  lemma {:induction false} ValueAt(data: seq<int>, heap: seq<int>, i: int)
    requires InRange(heap, |data|) && 0 <= i < |heap|
    ensures ValuesOf(data, heap)[i] == data[heap[i]]
  {
    if i < |heap| - 1 {
      ValueAt(data, heap[..|heap| - 1], i);
    }
  }

  /** The last n elements of s, or all of them when there are fewer. */
  function LastN(s: seq<int>, n: nat): (r: seq<int>) {
    if |s| <= n then s else s[|s| - n..]
  }

  lemma PatternIsLinked(pos: seq<int>, heap: seq<int>)
    requires |pos| == |heap| > 0
    requires forall k :: 0 <= k < |pos| ==> pos[k] == InitialCell(k)
    requires forall i :: 0 <= i < |heap| ==> heap[i] == InitialSlot(i - |heap| / 2)
    ensures Linked(pos, heap, |heap| / 2)
    ensures forall ct: nat :: ct <= |heap| ==> Occupied(heap, |heap| / 2, ct)
  {
    hide InitialCell, InitialSlot;
    var h, n := |heap| / 2, |heap|;
    forall k | 0 <= k < n ensures SlotLinked(pos, heap, h, k) {
      PatternCell(k, n);
      PatternSlot(InitialCell(k) + h, n);
    }
    forall i | 0 <= i < n ensures CellLinked(pos, heap, h, i) { PatternSlot(i, n); }
    forall ct: nat | ct <= |heap| ensures Occupied(heap, h, ct) {
      forall i | 0 <= i < |heap| ensures CellOccupied(heap, h, ct, i) { PatternCellOccupied(i - h, ct); }
    }
  }

  /** The first ct slots are those of the cells -(ct/2) .. (ct-1)/2. */
  lemma PatternCellOccupied(c: int, ct: nat)
    ensures InitialSlot(c) < ct <==> InUse(c, 0, ct)
  {
  }

  /** Swapping two occupied cells and re-linking them keeps all cross links. */
  lemma SwapKeepsLinks(pos: seq<int>, heap: seq<int>, h: int, ct: nat, a: int, b: int)
    requires Linked(pos, heap, h) && Occupied(heap, h, ct) && Untouched(pos, ct)
    requires 0 <= a < |heap| && 0 <= b < |heap| && a != b
    requires InUse(a, h, ct) && InUse(b, h, ct)
    requires CellLinked(pos, heap, h, a) && CellLinked(pos, heap, h, b)
    ensures var heap' := Swap(heap, a, b);
            var pos' := pos[heap[b] := a - h][heap[a] := b - h];
            Linked(pos', heap', h) && Occupied(heap', h, ct) && Untouched(pos', ct)
  {
    var heap' := Swap(heap, a, b);
    var pos' := pos[heap[b] := a - h][heap[a] := b - h];
    assert CellOccupied(heap, h, ct, a) && CellOccupied(heap, h, ct, b);
    forall i | 0 <= i < |heap'| ensures CellLinked(pos', heap', h, i) && CellOccupied(heap', h, ct, i) {
      assert CellLinked(pos, heap, h, i) && CellOccupied(heap, h, ct, i);
    }
    forall k | 0 <= k < |pos'| ensures SlotLinked(pos', heap', h, k) {
      assert SlotLinked(pos, heap, h, k);
    }
  }

  lemma SwapCommutes(data: seq<int>, heap: seq<int>, a: int, b: int)
    requires InRange(heap, |data|)
    requires 0 <= a < |heap| && 0 <= b < |heap|
    ensures InRange(Swap(heap, a, b), |data|)
    ensures ValuesOf(data, Swap(heap, a, b)) == Swap(ValuesOf(data, heap), a, b)
  {
    var l, r := ValuesOf(data, Swap(heap, a, b)), Swap(ValuesOf(data, heap), a, b);
    ValueAt(data, heap, a);
    ValueAt(data, heap, b);
    forall i | 0 <= i < |heap| ensures l[i] == r[i] {
      ValueAt(data, heap, i);
      ValueAt(data, Swap(heap, a, b), i);
    }
  }

  /** Counting one more slot as filled brings its fill-pattern cell into use. */
  lemma AdmitSlot(pos: seq<int>, heap: seq<int>, h: int, ct: nat)
    requires Linked(pos, heap, h) && Occupied(heap, h, ct) && Untouched(pos, ct)
    requires h == |heap| / 2 && ct < |pos|
    ensures Occupied(heap, h, ct + 1) && Untouched(pos, ct + 1)
  {
    var c := InitialCell(ct) + h;
    assert SlotLinked(pos, heap, h, ct);
    forall i {:trigger heap[i]} | 0 <= i < |heap| ensures CellOccupied(heap, h, ct + 1, i) {
      assert CellOccupied(heap, h, ct, i) && CellLinked(pos, heap, h, i);
      assert InUse(i, h, ct + 1) <==> InUse(i, h, ct) || i == c;
    }
  }

  lemma StoreValue(data: seq<int>, pos: seq<int>, heap: seq<int>, h: int, k: int, v: int)
    requires Linked(pos, heap, h) && |data| == |pos| && 0 <= k < |pos|
    requires InRange(heap, |data|) && 0 <= pos[k] + h < |heap|
    ensures ValuesOf(data[k := v], heap) == ValuesOf(data, heap)[pos[k] + h := v]
  {
    var l, r := ValuesOf(data[k := v], heap), ValuesOf(data, heap)[pos[k] + h := v];
    assert SlotLinked(pos, heap, h, k);
    forall i | 0 <= i < |heap| ensures l[i] == r[i] {
      ValueAt(data, heap, i);
      ValueAt(data[k := v], heap, i);
      assert CellLinked(pos, heap, h, i);
    }
  }

  /** The queue after one more value: the oldest one drops out once the queue is full. */
  lemma WindowStep(d: seq<int>, idx: nat, ct: nat, v: int, history: seq<int>)
    requires 0 < |d| && idx < |d| && ct <= |d| && (ct < |d| ==> idx == ct)
    requires ct == (if |history| < |d| then |history| else |d|)
    requires WindowOf(d, idx, ct) == LastN(history, |d|)
    ensures var ct' := if ct < |d| then ct + 1 else ct;
            WindowOf(d[idx := v], (idx + 1) % |d|, ct') == LastN(history + [v], |d|)
  {
    NextSlot(idx, |d|);
    if ct < |d| { FillingStep(d, idx, v); } else { RollingStep(d, idx, v, history); }
  }

  lemma FillingStep(d: seq<int>, idx: nat, v: int)
    requires idx < |d|
    ensures var i' := if idx + 1 == |d| then 0 else idx + 1;
            WindowOf(d[idx := v], i', idx + 1) == d[..idx] + [v]
  {
    var d' := d[idx := v];
    assert d'[..idx + 1] == d[..idx] + [v];
    if idx + 1 == |d| { assert d'[0..] + d'[..0] == d'[..idx + 1]; }
  }

  lemma RollingStep(d: seq<int>, idx: nat, v: int, history: seq<int>)
    requires idx < |d| <= |history| && d[idx..] + d[..idx] == LastN(history, |d|)
    ensures var i' := if idx + 1 == |d| then 0 else idx + 1;
            WindowOf(d[idx := v], i', |d|) == LastN(history + [v], |d|)
  {
    var d', w := d[idx := v], d[idx..] + d[..idx];
    assert w == history[|history| - |d|..];
    assert LastN(history + [v], |d|) == w[1..] + [v];
    if idx + 1 == |d| {
      assert d'[0..] + d'[..0] == w[1..] + [v];
    } else {
      assert d'[idx + 1..] + d'[..idx + 1] == w[1..] + [v];
    }
  }

  /** The content of a circular queue, oldest value first. */
  ghost function WindowOf(d: seq<int>, idx: nat, ct: nat): seq<int>
    requires ct <= |d| && idx <= |d|
  {
    if ct < |d| then d[..ct] else d[idx..] + d[..idx]
  }

  ghost predicate Ordered(w: seq<int>, h: int, ct: nat) {
    MinHeap(w, h, MinCount(ct)) && MaxHeap(w, h, MaxCount(ct))
  }

  /** Cell p of ordered half-heaps has just received v in place of was, or is a new cell. */
  ghost predicate Overwritten(w: seq<int>, a: seq<int>, h: int, ct: nat, p: int, isNew: bool, was: int, v: int) {
    && 0 < ct <= |w| && h == |w| / 2
    && -MaxCount(ct) <= p <= MinCount(ct)
    && a == w[h + p := v]
    && (isNew ==> p == InitialCell(ct - 1) && Ordered(w, h, ct - 1))
    && (!isNew ==> was == w[h + p] && Ordered(w, h, ct))
  }

  lemma OverwrittenMin(w: seq<int>, a: seq<int>, h: int, ct: nat, p: int, isNew: bool, was: int, v: int)
    requires Overwritten(w, a, h, ct, p, isNew, was, v) && 0 < p
    ensures MaxHeap(a, h, MaxCount(ct)) && |a| == |w|
    ensures if !isNew && was < v then MinBroken(a, h, MinCount(ct), p) else MinRaised(a, h, MinCount(ct), p)
  {
    assert isNew ==> MaxCount(ct) == MaxCount(ct - 1) && p == MinCount(ct) == MinCount(ct - 1) + 1;
    forall j | 1 <= j <= MaxCount(ct) ensures MaxEdge(a, h, j) { assert MaxEdge(w, h, j); }
    if !isNew && was < v { GrowInMin(w, h, MinCount(ct), p, v); } else { ShrinkInMin(w, h, MinCount(ct), p, v); }
  }

  lemma OverwrittenMax(w: seq<int>, a: seq<int>, h: int, ct: nat, p: int, isNew: bool, was: int, v: int)
    requires Overwritten(w, a, h, ct, p, isNew, was, v) && p < 0
    ensures MinHeap(a, h, MinCount(ct)) && |a| == |w|
    ensures if !isNew && v < was then MaxBroken(a, h, MaxCount(ct), -p) else MaxRaised(a, h, MaxCount(ct), -p)
  {
    assert isNew ==> MinCount(ct) == MinCount(ct - 1) && -p == MaxCount(ct) == MaxCount(ct - 1) + 1;
    forall j | 1 <= j <= MinCount(ct) ensures MinEdge(a, h, j) { assert MinEdge(w, h, j); }
    if !isNew && v < was { GrowInMax(w, h, MaxCount(ct), -p, v); } else { ShrinkInMax(w, h, MaxCount(ct), -p, v); }
  }

  lemma OverwrittenMedian(w: seq<int>, a: seq<int>, h: int, ct: nat, isNew: bool, was: int, v: int)
    requires Overwritten(w, a, h, ct, 0, isNew, was, v)
    ensures |a| == |w|
    ensures MaxBroken(a, h, MaxCount(ct), 0) && MinBroken(a, h, MinCount(ct), 0)
    ensures 1 <= MaxCount(ct) && 1 <= MinCount(ct) ==> a[h - 1] <= a[h + 1]
  {
    if isNew {
      assert ct == 1;
    } else {
      MinHeapFrame(w, a, h, MinCount(ct));
      MaxHeapFrame(w, a, h, MaxCount(ct));
      if 1 <= MaxCount(ct) && 1 <= MinCount(ct) { assert MinEdge(w, h, 1) && MaxEdge(w, h, 1); }
    }
  }

  /** Work that leaves the median alone leaves the other half in order. */
  lemma MinSideOnly(a: seq<int>, c: seq<int>, h: int, ct: nat, i0: int)
    requires 0 < ct <= |a| && h == |a| / 2 && MaxHeap(a, h, MaxCount(ct))
    ensures MinSunk(a, c, h, MinCount(ct), i0) && i0 != 1 ==> Ordered(c, h, ct)
    ensures MinRisen(a, c, h, MinCount(ct), false) ==> Ordered(c, h, ct)
  {
    if (MinSunk(a, c, h, MinCount(ct), i0) && i0 != 1) || MinRisen(a, c, h, MinCount(ct), false) {
      if 1 <= MaxCount(ct) { assert MaxEdge(a, h, 1); }
      MaxHeapFrame(a, c, h, MaxCount(ct));
    }
  }

  lemma MaxSideOnly(a: seq<int>, c: seq<int>, h: int, ct: nat, i0: int)
    requires 0 < ct <= |a| && h == |a| / 2 && MinHeap(a, h, MinCount(ct))
    ensures MaxSunk(a, c, h, MaxCount(ct), i0) && i0 != 1 ==> Ordered(c, h, ct)
    ensures MaxRisen(a, c, h, MaxCount(ct), false) ==> Ordered(c, h, ct)
  {
    if (MaxSunk(a, c, h, MaxCount(ct), i0) && i0 != 1) || MaxRisen(a, c, h, MaxCount(ct), false) {
      if 1 <= MinCount(ct) { assert MinEdge(a, h, 1); }
      MinHeapFrame(a, c, h, MinCount(ct));
    }
  }

  /** Sinking from the max-heap side after the median was replaced from the min-heap side. */
  lemma MedianFromMin(a: seq<int>, b: seq<int>, c: seq<int>, h: int, ct: nat)
    requires 0 < ct <= |a| && h == |a| / 2 && MaxHeap(a, h, MaxCount(ct))
    requires MinRisen(a, b, h, MinCount(ct), true)
    ensures MaxBroken(b, h, MaxCount(ct), 0)
    ensures MaxSunk(b, c, h, MaxCount(ct), 1) ==> Ordered(c, h, ct)
  {
    MaxHeapFrame(a, b, h, MaxCount(ct));
    if MaxSunk(b, c, h, MaxCount(ct), 1) {
      if 1 <= MaxCount(ct) { assert MaxEdge(a, h, 1); }
      MinHeapFrame(b, c, h, MinCount(ct));
    }
  }

  lemma MedianFromMax(a: seq<int>, b: seq<int>, c: seq<int>, h: int, ct: nat)
    requires 0 < ct <= |a| && h == |a| / 2 && MinHeap(a, h, MinCount(ct))
    requires MaxRisen(a, b, h, MaxCount(ct), true)
    ensures MinBroken(b, h, MinCount(ct), 0)
    ensures MinSunk(b, c, h, MinCount(ct), 1) ==> Ordered(c, h, ct)
  {
    MinHeapFrame(a, b, h, MinCount(ct));
    if MinSunk(b, c, h, MinCount(ct), 1) {
      if 1 <= MinCount(ct) { assert MinEdge(a, h, 1); }
      MaxHeapFrame(b, c, h, MaxCount(ct));
    }
  }

  /** A new value at the median: first sunk into the max-heap (a to b), then into the min-heap (b to c). */
  lemma MedianReplaced(a: seq<int>, b: seq<int>, c: seq<int>, h: int, ct: nat)
    requires 0 < ct <= |a| && h == |a| / 2
    requires MinBroken(a, h, MinCount(ct), 0)
    requires 1 <= MaxCount(ct) && 1 <= MinCount(ct) ==> a[h - 1] <= a[h + 1]
    requires MaxSunk(a, b, h, MaxCount(ct), 1)
    ensures |b| == |a| && MinBroken(b, h, MinCount(ct), 0)
    ensures MinSunk(b, c, h, MinCount(ct), 1) ==> Ordered(c, h, ct)
  {
    forall j | 1 <= j <= MinCount(ct) && j / 2 != 0 ensures MinEdge(b, h, j) { assert MinEdge(a, h, j); }
    if MinSunk(b, c, h, MinCount(ct), 1) {
      if 1 <= MaxCount(ct) { assert MaxEdge(b, h, 1); }
      MaxHeapFrame(b, c, h, MaxCount(ct));
    }
  }

  lemma OverwrittenBounds(w: seq<int>, a: seq<int>, h: int, ct: nat, p: int, isNew: bool, was: int, v: int)
    requires Overwritten(w, a, h, ct, p, isNew, was, v)
    ensures -MaxCount(ct) <= p <= MinCount(ct) && ct <= |w| == |a| && h == |a| / 2
  {
  }

  lemma NothingToSink(a: seq<int>, h: int, ct: nat)
    requires 0 < ct <= |a| && h == |a| / 2
    ensures MaxCount(ct) == 0 ==> MaxSunk(a, a, h, 0, 1)
    ensures MinCount(ct) == 0 ==> MinSunk(a, a, h, 0, 1)
  {
  }

  lemma NextSlot(i: nat, n: nat)
    requires i < n
    ensures (i + 1) % n == if i + 1 == n then 0 else i + 1
  {
  }

  lemma LastNStep(s: seq<int>, v: int, n: nat)
    ensures LastN(s + [v], n) == LastN(LastN(s, n) + [v], n)
  {
    if n < |s| { assert (s + [v])[|s| + 1 - n..] == (s[|s| - n..] + [v])[1..]; }
  }

  /** Storing v into slot idx overwrites one cell of the ordered half-heaps and keeps the links. */
  lemma InsertPlan(d: seq<int>, pos: seq<int>, heap: seq<int>, h: int, idx: nat, ct: nat, v: int)
    requires Linked(pos, heap, h) && Occupied(heap, h, ct) && Untouched(pos, ct) && h == |heap| / 2
    requires |d| == |pos| && ct <= |d| && idx < |d| && (ct < |d| ==> idx == ct) && InRange(heap, |d|)
    requires Ordered(ValuesOf(d, heap), h, ct)
    ensures var ct' := if ct < |d| then ct + 1 else ct;
            && Occupied(heap, h, ct') && Untouched(pos, ct')
            && Overwritten(ValuesOf(d, heap), ValuesOf(d[idx := v], heap), h, ct', pos[idx], ct < |d|, d[idx], v)
  {
    assert SlotLinked(pos, heap, h, idx);
    StoreValue(d, pos, heap, h, idx, v);
    ValueAt(d, heap, pos[idx] + h);
    if ct < |d| {
      AdmitSlot(pos, heap, h, ct);
    } else {
      assert CellOccupied(heap, h, ct, pos[idx] + h);
    }
  }

  /** The median of a sorted window; a window of even size averages its two middle values. */
  function MiddleOf(s: seq<int>): int
    requires s != []
  {
    var k := |s| / 2;
    if |s| % 2 == 1 then s[k] else Halved(s[k - 1] + s[k])
  }

  /**
    The middle of sorted values: of an odd number the one with as many before it as behind it,
    of an even number the mean of the two in the middle, without its fraction.
   */
  lemma MiddleMeans(s: seq<int>)
    requires s != [] && IsSorted(s)
    ensures |s| % 2 == 1 ==>
      exists k: nat :: 2 * k + 1 == |s| && s[k] == MiddleOf(s)
    ensures |s| % 2 == 0 ==>
      var m, sum := MiddleOf(s), s[|s| / 2 - 1] + s[|s| / 2];
      (sum >= 0 ==> sum - 1 <= 2 * m <= sum) && (sum <= 0 ==> sum <= 2 * m <= sum + 1)
  {
    var k := |s| / 2;
    if |s| % 2 == 1 { assert 2 * k + 1 == |s| && s[k] == MiddleOf(s); }
  }

  /** Reading data through a permutation of its slots gives the same values. */
  lemma {:induction false} PermutedValues(d: seq<int>, pos: seq<int>, heap: seq<int>)
    requires Linked(pos, heap, 0) && |d| == |heap| && InRange(heap, |d|)
    ensures multiset(ValuesOf(d, heap)) == multiset(d)
    decreases |d|
  {
    hide Linked, InRange, ValuesOf;
    if d != [] {
      var n := |d| - 1;
      ShorterPermutation(pos, heap);
      var i := pos[n];
      var g := heap[i := heap[n]][..n];
      SwapCommutes(d, heap, i, n);
      SwapMultiset(ValuesOf(d, heap), i, n);
      assert Swap(heap, i, n) == g + [n];
      ValuesOfPrefix(d, g);
      ValuesOfSnoc(d, g, n);
      PermutedValues(d[..n], pos[heap[n] := i][..n], g);
      SnocMultiset(d, n);
    }
  }

  lemma SnocMultiset(d: seq<int>, n: nat)
    requires |d| == n + 1
    ensures multiset(d) == multiset(d[..n] + [d[n]]) == multiset(d[..n]) + multiset{d[n]}
  {
    assert d == d[..n] + [d[n]];
  }

  lemma ValuesOfSnoc(d: seq<int>, g: seq<int>, k: int)
    requires InRange(g, |d|) && 0 <= k < |d|
    ensures InRange(g + [k], |d|) && ValuesOf(d, g + [k]) == ValuesOf(d, g) + [d[k]]
  {
    assert (g + [k])[..|g|] == g;
  }

  lemma SwapMultiset(w: seq<int>, a: int, b: int)
    requires 0 <= a < |w| && 0 <= b < |w|
    ensures multiset(Swap(w, a, b)) == multiset(w)
  {
  }

  lemma {:induction false} ValuesOfPrefix(d: seq<int>, heap: seq<int>)
    requires d != [] && InRange(heap, |d| - 1)
    ensures InRange(heap, |d|) && ValuesOf(d, heap) == ValuesOf(d[..|d| - 1], heap)
  {
    if heap != [] { ValuesOfPrefix(d, heap[..|heap| - 1]); }
  }

  /** Dropping the last slot from a permutation; its cell takes over the last cell's slot. */
  lemma ShorterPermutation(pos: seq<int>, heap: seq<int>)
    requires Linked(pos, heap, 0) && heap != []
    ensures var n := |heap| - 1;
            && |pos| == n + 1 && 0 <= pos[n] <= n && 0 <= heap[n] <= n && heap[pos[n]] == n
            && Linked(pos[heap[n] := pos[n]][..n], heap[pos[n] := heap[n]][..n], 0)
            && InRange(heap[pos[n] := heap[n]][..n], n)
  {
    var n := |heap| - 1;
    assert SlotLinked(pos, heap, 0, n) && CellLinked(pos, heap, 0, n);
    var q, g := pos[heap[n] := pos[n]][..n], heap[pos[n] := heap[n]][..n];
    assert CellLinked(pos, heap, 0, pos[n]) && SlotLinked(pos, heap, 0, heap[n]);
    forall k | 0 <= k < n ensures SlotLinked(q, g, 0, k) { assert SlotLinked(pos, heap, 0, k); }
    forall i | 0 <= i < n ensures CellLinked(q, g, 0, i) { assert CellLinked(pos, heap, 0, i); }
    LinkedInRange(q, g, 0);
  }

  /** The occupied cells in order, seen as a permutation of the filled slots. */
  lemma OccupiedValues(d: seq<int>, pos: seq<int>, heap: seq<int>, h: int, ct: nat)
    requires Linked(pos, heap, h) && Occupied(heap, h, ct) && h == |heap| / 2
    requires |d| == |pos| == |heap| && 0 < ct <= |d| && InRange(heap, |d|)
    ensures multiset(ValuesOf(d, heap)[h - MaxCount(ct)..h + MinCount(ct) + 1]) == multiset(d[..ct])
  {
    hide Linked, Occupied, InRange, ValuesOf;
    var lo, hi := h - MaxCount(ct), h + MinCount(ct) + 1;
    var q := OccupiedPermutation(pos, heap, h, ct);
    PermutedValues(d[..ct], q, heap[lo..hi]);
    OccupiedSlice(d, heap, lo, hi, ct);
  }

  lemma OccupiedPermutation(pos: seq<int>, heap: seq<int>, h: int, ct: nat) returns (q: seq<int>)
    requires Linked(pos, heap, h) && Occupied(heap, h, ct) && h == |heap| / 2 && 0 < ct <= |heap|
    ensures |pos| == |heap| && h - MaxCount(ct) <= h + MinCount(ct) + 1 == h - MaxCount(ct) + ct
    ensures var g := heap[h - MaxCount(ct)..h + MinCount(ct) + 1];
            Linked(q, g, 0) && InRange(g, ct)
  {
    var lo, hi := h - MaxCount(ct), h + MinCount(ct) + 1;
    var g := heap[lo..hi];
    q := seq(ct, k requires 0 <= k < ct => pos[k] + h - lo);
    forall i | 0 <= i < |g| ensures CellLinked(q, g, 0, i) {
      assert CellLinked(pos, heap, h, i + lo) && CellOccupied(heap, h, ct, i + lo);
    }
    forall k | 0 <= k < ct ensures SlotLinked(q, g, 0, k) {
      assert SlotLinked(pos, heap, h, k);
      assert CellOccupied(heap, h, ct, pos[k] + h);
    }
    LinkedInRange(q, g, 0);
  }

  lemma OccupiedSlice(d: seq<int>, heap: seq<int>, lo: int, hi: int, ct: nat)
    requires 0 <= lo <= hi <= |heap| && hi - lo == ct <= |d|
    requires InRange(heap, |d|) && InRange(heap[lo..hi], ct)
    ensures ValuesOf(d, heap)[lo..hi] == ValuesOf(d[..ct], heap[lo..hi])
  {
    var l, r := ValuesOf(d, heap)[lo..hi], ValuesOf(d[..ct], heap[lo..hi]);
    forall i | 0 <= i < ct ensures l[i] == r[i] {
      ValueAt(d, heap, i + lo);
      ValueAt(d[..ct], heap[lo..hi], i);
    }
  }

  lemma WindowMultiset(d: seq<int>, idx: nat, ct: nat)
    requires ct <= |d| && idx <= |d|
    ensures multiset(WindowOf(d, idx, ct)) == multiset(d[..ct])
  {
    if ct == |d| {
      assert d[..ct] == d[..idx] + d[idx..];
    }
  }

  /** The values of the occupied cells -(ct/2) .. (ct-1)/2. */
  ghost function CellsOf(w: seq<int>, h: int, ct: nat): (s: seq<int>)
    requires 0 < ct <= |w| && h == |w| / 2
    ensures |s| == ct
  {
    w[h - MaxCount(ct)..h + MinCount(ct) + 1]
  }

  /** Ordered half-heaps put the middle of the sorted values at cell 0 and its lower neighbour at cell -1. */
  lemma HeapMedian(w: seq<int>, h: int, ct: nat)
    requires 0 < ct <= |w| && h == |w| / 2 && Ordered(w, h, ct)
    ensures var s := Sort(CellsOf(w, h, ct));
            && |s| == ct && s[ct / 2] == w[h]
            && (2 <= ct ==> s[ct / 2 - 1] == w[h - 1])
  {
    hide Sort, IsSorted, Ordered, CellsOf, MaxCount, MinCount;
    CellsSplit(w, h, ct);
    var lower, upper := w[h - MaxCount(ct)..h], w[h + 1..h + MinCount(ct) + 1];
    HalvesApart(w, h, ct, lower, upper);
    PivotRank(lower, w[h], upper);
  }

  lemma CellsSplit(w: seq<int>, h: int, ct: nat)
    requires 0 < ct <= |w| && h == |w| / 2
    ensures 0 <= h - MaxCount(ct) <= h < h + MinCount(ct) + 1 <= |w| && MaxCount(ct) == ct / 2
    ensures CellsOf(w, h, ct) == w[h - MaxCount(ct)..h] + [w[h]] + w[h + 1..h + MinCount(ct) + 1]
  {
  }

  lemma HalvesApart(w: seq<int>, h: int, ct: nat, lower: seq<int>, upper: seq<int>)
    requires 0 < ct <= |w| && h == |w| / 2 && Ordered(w, h, ct)
    requires lower == w[h - MaxCount(ct)..h] && upper == w[h + 1..h + MinCount(ct) + 1]
    ensures forall x :: x in lower ==> x <= w[h] && x <= w[h - 1]
    ensures forall x :: x in upper ==> w[h] <= x
    ensures 2 <= ct ==> w[h - 1] in lower
  {
    forall x | x in lower ensures x <= w[h] && x <= w[h - 1] {
      var i :| 0 <= i < |lower| && lower[i] == x;
      MaxBelowTop(w, h, MaxCount(ct), MaxCount(ct) - i);
    }
    forall x | x in upper ensures w[h] <= x {
      var i :| 0 <= i < |upper| && upper[i] == x;
      MinAboveMedian(w, h, MinCount(ct), i + 1);
    }
    if 2 <= ct { assert lower[|lower| - 1] == w[h - 1]; }
  }

  /** The value Median computes from cells 0 and -1. */
  ghost function CentralValue(w: seq<int>, h: int, ct: nat): int
    requires 0 < ct <= |w| && h == |w| / 2
  {
    if ct % 2 == 1 then w[h] else Halved(w[h] + w[h - 1])
  }

  lemma MedianValue(w: seq<int>, h: int, ct: nat)
    requires 0 < ct <= |w| && h == |w| / 2 && Ordered(w, h, ct)
    ensures var s := Sort(CellsOf(w, h, ct));
            s != [] && CentralValue(w, h, ct) == MiddleOf(s)
    ensures CentralValue(w, h, ct) == if ct % 2 == 1 then w[h] else Halved(w[h] + w[h - 1])
  {
    hide Sort, IsSorted, Ordered, CellsOf, Halved;
    HeapMedian(w, h, ct);
  }

  /** x is the least of v and the max-heap values stored before k. */
  ghost predicate LeastSoFar(w: seq<int>, h: int, ct: nat, v: int, k: int, x: int)
    requires 0 < ct <= |w| && h == |w| / 2
  {
    && h - MaxCount(ct) <= k <= h
    && x <= v
    && (forall j :: h - MaxCount(ct) <= j < k ==> x <= w[j])
    && (x == v || x in CellsOf(w, h, ct))
  }

  lemma LeastStep(w: seq<int>, h: int, ct: nat, v: int, k: int, x: int)
    requires 0 < ct <= |w| && h == |w| / 2 && LeastSoFar(w, h, ct, v, k, x) && k < h
    ensures 0 <= k < |w| && LeastSoFar(w, h, ct, v, k + 1, if w[k] < x then w[k] else x)
  {
    assert CellsOf(w, h, ct)[k - h + MaxCount(ct)] == w[k];
  }

  /** The two central cells give the middle value, from which the search for the least starts. */
  lemma CentralFacts(w: seq<int>, h: int, ct: nat)
    requires 0 < ct <= |w| && h == |w| / 2 && Ordered(w, h, ct)
    ensures ct % 2 == 0 ==> 1 <= MaxCount(ct)
    ensures 0 <= MinCount(ct) && 0 <= MaxCount(ct) <= h && h + MinCount(ct) < |w|
    ensures |Sort(CellsOf(w, h, ct))| == ct
    ensures var v := if ct % 2 == 1 then w[h] else Halved(w[h] + w[h - 1]);
            && v == MiddleOf(Sort(CellsOf(w, h, ct)))
            && v == CentralValue(w, h, ct)
            && LeastSoFar(w, h, ct, v, h - MaxCount(ct), v)
  {
    hide Ordered, Sort, IsSorted, MiddleOf, CellsOf, Halved;
    HeapMedian(w, h, ct);
    MedianValue(w, h, ct);
  }

  /** The least of the median and the max-heap values is the least value of all. */
  lemma MinimumFound(w: seq<int>, h: int, ct: nat, v: int, x: int)
    requires 0 < ct <= |w| && h == |w| / 2 && Ordered(w, h, ct)
    requires v == CentralValue(w, h, ct) && LeastSoFar(w, h, ct, v, h, x)
    ensures x == Sort(CellsOf(w, h, ct))[0]
  {
    var s := CellsOf(w, h, ct);
    assert s[MaxCount(ct)] == w[h];
    if 1 <= MaxCount(ct) {
      assert s[MaxCount(ct) - 1] == w[h - 1];
      assert MaxEdge(w, h, 1);
    }
    assert x in s && x <= w[h];
    forall y | y in s ensures x <= y {
      var i :| 0 <= i < |s| && s[i] == y;
      var k := h - MaxCount(ct) + i;
      if h <= k { MinAboveMedian(w, h, MinCount(ct), k - h); }
    }
    LeastIsFirst(s, x);
  }

  class Mediator {
    const N: nat
    const data: array<int>
    const pos: array<int>
    const heap: array<int>
    const mid: int  // where cell 0 of the heap is stored
    var idx: nat
    var ct: nat
    ghost var history: seq<int>  // every value inserted so far

    ghost predicate Shaped()
      reads this
    {
      && 1 <= N && data.Length == N && pos.Length == N && heap.Length == N
      && data != pos && data != heap && pos != heap
      && ct <= N && idx < N && mid == N / 2
    }

    /** The cross links and the occupied part of the heap array. */
    ghost predicate Loaded()
      reads this, pos, heap
    {
      && Shaped()
      && Linked(pos[..], heap[..], mid)
      && Occupied(heap[..], mid, ct)
      && Untouched(pos[..], ct)
    }

    ghost function Values(): (w: seq<int>)
      requires Loaded()
      reads this, data, pos, heap
    {
      LinkedInRange(pos[..], heap[..], mid);
      ValuesOf(data[..], heap[..])
    }

    /** The queue's content, oldest value first. */
    ghost function Window(): seq<int>
      requires Shaped()
      reads this, data
    {
      WindowOf(data[..], idx, ct)
    }

    ghost predicate Valid()
      reads this, data, pos, heap
    {
      && Loaded()
      && Ordered(Values(), mid, ct)
      && (ct < N ==> idx == ct)
      && ct == (if |history| < N then |history| else N)
      && Window() == LastN(history, N)
    }

    constructor (nItems: nat)
      requires 1 <= nItems
      ensures Valid() && N == nItems && history == []
      ensures fresh(data) && fresh(pos) && fresh(heap)
    {
      N := nItems;
      data := new int[nItems];
      pos := new int[nItems];
      heap := new int[nItems];
      mid := nItems / 2;
      idx, ct, history := 0, 0, [];
      new;
      FillPattern();
      PatternIsLinked(pos[..], heap[..]);
    }

    /** Spreads the slots over the cells: median, max, min, max, ... */
    method FillPattern()
      requires Shaped()
      modifies pos, heap
      ensures forall k :: 0 <= k < N ==> pos[k] == InitialCell(k)
      ensures forall i :: 0 <= i < N ==> heap[i] == InitialSlot(i - mid)
    {
      hide InitialCell, InitialSlot;
      var k := N;
      while k > 0
        modifies pos, heap
        invariant 0 <= k <= N
        invariant forall j :: k <= j < N ==> pos[j] == InitialCell(j) && 0 <= InitialCell(j) + mid < N
        invariant forall j :: k <= j < N ==> heap[InitialCell(j) + mid] == j
      {
        k := k - 1;
        PatternCell(k, N);
        pos[k] := (k + 1) / 2 * (if k % 2 == 1 then -1 else 1);
        heap[pos[k] + mid] := k;
      }
      forall i | 0 <= i < N ensures heap[i] == InitialSlot(i - mid) {
        PatternSlot(i, N);
        assert heap[InitialCell(InitialSlot(i - mid)) + mid] == InitialSlot(i - mid);
      }
    }

    /** Whether the value in cell i is less than the value in cell j. */
    predicate Less(i: int, j: int)
      requires Loaded()
      requires 0 <= i + mid < N && 0 <= j + mid < N
      reads this, data, pos, heap
      ensures Less(i, j) <==> Values()[i + mid] < Values()[j + mid]
    {
      LinkedInRange(pos[..], heap[..], mid);
      ValueAt(data[..], heap[..], i + mid);
      ValueAt(data[..], heap[..], j + mid);
      data[heap[i + mid]] < data[heap[j + mid]]
    }

    /** Swaps cells i and j of the heap and re-links the two slots they hold. */
    method Relink(i: int, j: int)
      requires heap != pos && heap.Length == N && pos.Length == N
      requires 0 <= i + mid < N && 0 <= j + mid < N && i != j
      requires 0 <= heap[i + mid] < N && 0 <= heap[j + mid] < N && heap[i + mid] != heap[j + mid]
      modifies pos, heap
      ensures heap[..] == Swap(old(heap[..]), i + mid, j + mid)
      ensures pos[..] == old(pos[..][heap[j + mid] := i][heap[i + mid] := j])
    {
      var a, b := i + mid, j + mid;
      var t := heap[a];
      heap[a] := heap[b];
      heap[b] := t;
      pos[heap[a]] := i;
      pos[heap[b]] := j;
    }

    /** Swaps two occupied cells: the cross links stay inverse, the values swap. */
    method Exchange(i: int, j: int)
      requires Loaded() && i != j
      requires InUse(i + mid, mid, ct) && InUse(j + mid, mid, ct)
      modifies pos, heap
      ensures Loaded()
      ensures Values() == Swap(old(Values()), i + mid, j + mid)
    {
      hide Linked, Occupied, Untouched, ValuesOf, InRange;
      var a, b := i + mid, j + mid;
      CellsExist(a);
      CellsExist(b);
      ghost var p0, h0, d0 := pos[..], heap[..], data[..];
      LinkedInRange(p0, h0, mid);
      assert CellLinked(p0, h0, mid, a) && CellLinked(p0, h0, mid, b);
      SwapKeepsLinks(p0, h0, mid, ct, a, b);
      SwapCommutes(d0, h0, a, b);
      Relink(i, j);
    }

    /** Swaps cells i and j when cell i holds the smaller value; tells whether it did. */
    method ExchangeIfLess(i: int, j: int) returns (swapped: bool)
      requires Loaded() && i != j
      requires InUse(i + mid, mid, ct) && InUse(j + mid, mid, ct)
      modifies pos, heap
      ensures Loaded()
      ensures swapped == (old(Values())[i + mid] < old(Values())[j + mid])
      ensures Values() == if swapped then Swap(old(Values()), i + mid, j + mid) else old(Values())
    {
      CellsExist(i + mid);
      CellsExist(j + mid);
      swapped := Less(i, j);
      if swapped { Exchange(i, j); }
    }

    /** Sinks the value of cell i0 / 2 into the min-heap below it. */
    method MinSortDown(i0: int)
      requires Loaded() && 1 <= i0 && (i0 == 1 || i0 % 2 == 0) && 0 < ct
      requires MinBroken(Values(), mid, MinCount(ct), i0 / 2)
      modifies pos, heap
      ensures Loaded() && MinSunk(old(Values()), Values(), mid, MinCount(ct), i0)
    {
      hide *;
      var i := i0;
      ghost var w0, w, p := Values(), Values(), i0 / 2;
      InUseBounds(0);
      MinSinkStarts(w0, mid, MinCount(ct), i0);
      while i <= MinCount(ct)
        invariant Loaded() && w == Values() && 1 <= i && 0 <= p && i == FirstChild(p)
        invariant MinSinking(w0, w, mid, MinCount(ct), i0, p)
        decreases MinCount(ct) + 1 - i
      {
        InUseBounds(i);
        if 1 < i && i < MinCount(ct) {
          InUseBounds(i + 1);
          if Less(i + 1, i) { i := i + 1; }
        }
        MinSinkRound(w0, w, mid, MinCount(ct), i0, p, i);
        InUseBounds(p);
        var swapped := ExchangeIfLess(i, i / 2);
        if !swapped { return; }
        w, p := Swap(w, mid + i, mid + p), i;
        i := i * 2;
        FirstChildOf(p);
      }
      MinSinkEnds(w0, w, mid, MinCount(ct), i0, p);
    }

    /** Sinks the value of cell i0 / 2 into the max-heap below it; i0 is negative. */
    method MaxSortDown(i0: int)
      requires Loaded() && i0 <= -1 && (i0 == -1 || i0 % 2 == 0) && 0 < ct
      requires MaxBroken(Values(), mid, MaxCount(ct), -i0 / 2)
      modifies pos, heap
      ensures Loaded() && MaxSunk(old(Values()), Values(), mid, MaxCount(ct), -i0)
    {
      hide *;
      var i := i0;
      ghost var w0, w, p := Values(), Values(), -i0 / 2;
      InUseBounds(0);
      MaxSinkStarts(w0, mid, MaxCount(ct), -i0);
      while i >= -MaxCount(ct)
        invariant Loaded() && w == Values() && i <= -1 && 0 <= p && -i == FirstChild(p)
        invariant MaxSinking(w0, w, mid, MaxCount(ct), -i0, p)
        decreases MaxCount(ct) + 1 + i
      {
        InUseBounds(i);
        if i < -1 && i > -MaxCount(ct) {
          InUseBounds(i - 1);
          if Less(i, i - 1) { i := i - 1; }
        }
        MaxSinkRound(w0, w, mid, MaxCount(ct), -i0, p, -i);
        HalvedNegative(i);
        InUseBounds(-p);
        var swapped := ExchangeIfLess(Halved(i), i);
        if !swapped { return; }
        w, p := Swap(w, mid - p, mid + i), -i;
        i := i * 2;
        FirstChildOf(p);
      }
      MaxSinkEnds(w0, w, mid, MaxCount(ct), -i0, p);
    }

    /** Raises the value of cell i0 toward the median; tells whether it became the median. */
    method MinSortUp(i0: int) returns (up: bool)
      requires Loaded() && 0 < ct && 1 <= i0 <= MinCount(ct)
      requires MinRaised(Values(), mid, MinCount(ct), i0)
      modifies pos, heap
      ensures Loaded() && MinRisen(old(Values()), Values(), mid, MinCount(ct), up)
    {
      hide *;
      var i := i0;
      ghost var w0, w := Values(), Values();
      InUseBounds(0);
      MinRiseStarts(w0, mid, MinCount(ct), i0);
      while i > 0
        invariant Loaded() && w == Values() && 0 <= i
        invariant MinRising(w0, w, mid, MinCount(ct), i)
      {
        MinRiseRound(w0, w, mid, MinCount(ct), i);
        InUseBounds(i);
        InUseBounds(i / 2);
        var swapped := ExchangeIfLess(i, i / 2);
        if !swapped { return false; }
        w := Swap(w, mid + i, mid + i / 2);
        i := i / 2;
      }
      MinRiseEnds(w0, w, mid, MinCount(ct));
      return true;
    }

    method MaxSortUp(i0: int) returns (up: bool)
      requires Loaded() && 0 < ct && -MaxCount(ct) <= i0 <= -1
      requires MaxRaised(Values(), mid, MaxCount(ct), -i0)
      modifies pos, heap
      ensures Loaded() && MaxRisen(old(Values()), Values(), mid, MaxCount(ct), up)
    {
      hide *;
      var i := i0;
      ghost var w0, w := Values(), Values();
      InUseBounds(0);
      MaxRiseStarts(w0, mid, MaxCount(ct), -i0);
      while i < 0
        invariant Loaded() && w == Values() && i <= 0
        invariant MaxRising(w0, w, mid, MaxCount(ct), -i)
      {
        MaxRiseRound(w0, w, mid, MaxCount(ct), -i);
        HalvedNegative(i);
        InUseBounds(i);
        InUseBounds(Halved(i));
        var swapped := ExchangeIfLess(Halved(i), i);
        if !swapped { return false; }
        w := Swap(w, mid + Halved(i), mid + i);
        i := Halved(i);
      }
      MaxRiseEnds(w0, w, mid, MaxCount(ct));
      return true;
    }

    /** Inserts v, dropping the oldest value once N values are held. */
    method Insert(v: int)
      requires Valid()
      modifies this, data, pos, heap
      ensures Valid() && history == old(history) + [v]
      ensures Window() == LastN(old(Window()) + [v], N)
    {
      hide Linked, Occupied, Untouched, Ordered, Overwritten, ValuesOf, WindowOf, InRange, LastN;
      var isNew := ct < N;
      var p := pos[idx];
      var was := data[idx];
      ghost var w := Values();
      ghost var d := data[..];
      LinkedInRange(pos[..], heap[..], mid);
      InsertPlan(d, pos[..], heap[..], mid, idx, ct, v);
      WindowStep(d, idx, ct, v, history);
      LastNStep(history, v, N);
      NextSlot(idx, N);
      data[idx] := v;
      assert data[..] == d[idx := v];
      idx := (idx + 1) % N;
      ct := if isNew then ct + 1 else ct;
      history := history + [v];
      assert Window() == LastN(history, N);
      Rebalance(w, p, isNew, was, v);
      assert data[..] == d[old(idx) := v];
    }

    /** Restores the order of the half-heaps after cell p received v in place of was. */
    method Rebalance(ghost w: seq<int>, p: int, isNew: bool, was: int, v: int)
      requires Loaded() && 0 < ct && Overwritten(w, Values(), mid, ct, p, isNew, was, v)
      modifies pos, heap
      ensures Loaded() && Ordered(Values(), mid, ct)
    {
      hide *;
      ghost var a := Values();
      InUseBounds(0);
      OverwrittenBounds(w, a, mid, ct, p, isNew, was, v);
      if p > 0 {
        OverwrittenMin(w, a, mid, ct, p, isNew, was, v);
        if !isNew && was < v {
          MinSortDown(p * 2);
          MinSideOnly(a, Values(), mid, ct, p * 2);
        } else {
          var up := MinSortUp(p);
          ghost var b := Values();
          if up {
            MedianFromMin(a, b, b, mid, ct);
            MaxSortDown(-1);
            MedianFromMin(a, b, Values(), mid, ct);
          } else {
            MinSideOnly(a, b, mid, ct, 0);
          }
        }
      } else if p < 0 {
        OverwrittenMax(w, a, mid, ct, p, isNew, was, v);
        if !isNew && v < was {
          MaxSortDown(p * 2);
          MaxSideOnly(a, Values(), mid, ct, -p * 2);
        } else {
          var up := MaxSortUp(p);
          ghost var b := Values();
          if up {
            MedianFromMax(a, b, b, mid, ct);
            MinSortDown(1);
            MedianFromMax(a, b, Values(), mid, ct);
          } else {
            MaxSideOnly(a, b, mid, ct, 0);
          }
        }
      } else {
        OverwrittenMedian(w, a, mid, ct, isNew, was, v);
        if MaxCount(ct) != 0 { MaxSortDown(-1); } else { NothingToSink(a, mid, ct); }
        ghost var b := Values();
        MedianReplaced(a, b, b, mid, ct);
        if MinCount(ct) != 0 { MinSortDown(1); } else { NothingToSink(b, mid, ct); }
        MedianReplaced(a, b, Values(), mid, ct);
      }
    }

    /** The values of the occupied cells -(ct/2) .. (ct-1)/2. */
    ghost function Cells(): (s: seq<int>)
      requires Loaded() && 0 < ct
      reads this, data, pos, heap
      ensures |s| == ct
    {
      CellsOf(Values(), mid, ct)
    }

    lemma CellsHoldWindow()
      requires Loaded() && 0 < ct
      ensures multiset(Cells()) == multiset(Window())
      ensures Sort(Cells()) == Sort(Window())
    {
      LinkedInRange(pos[..], heap[..], mid);
      OccupiedValues(data[..], pos[..], heap[..], mid, ct);
      WindowMultiset(data[..], idx, ct);
      SortOfEqual(Cells(), Window());
    }

    /**
      The median, the least value, and the value stored through the maximum's pointer.
      The last is the median again: the loop looking for the maximum writes to a shadowed variable.
     */
    method Median() returns (v: int, minval: int, maxval: int)
      requires Valid() && 0 < ct
      ensures |Sort(Window())| == ct
      ensures v == MiddleOf(Sort(Window()))
      ensures minval == Sort(Window())[0]
      ensures maxval == v
    {
      hide *;
      MedianFacts();
      ghost var w := Values();
      CellValue(0);
      v := data[heap[mid]];
      if ct % 2 == 0 {
        CellValue(-1);
        v := Halved(v + data[heap[mid - 1]]);
      }
      minval := v;
      var i := -MaxCount(ct);
      while i < 0
        invariant -MaxCount(ct) <= i <= 0
        invariant LeastSoFar(w, mid, ct, v, mid + i, minval)
      {
        CellValue(i);
        LeastStep(w, mid, ct, v, mid + i, minval);
        if data[heap[mid + i]] < minval { minval := data[heap[mid + i]]; }
        i := i + 1;
      }
      MinimumFound(w, mid, ct, v, minval);
      maxval := v;
      var top := v;
      i := 0;
      while i <= MinCount(ct)
        invariant 0 <= i
      {
        CellValue(i);
        if data[heap[mid + i]] > top { top := data[heap[mid + i]]; }
        i := i + 1;
      }
    }

    /** What Median reads off cells 0 and -1 is the middle of the sorted window. */
    lemma MedianFacts()
      requires Valid() && 0 < ct
      ensures Loaded() && mid == N / 2 && N == data.Length && ct <= |Values()| == N && Ordered(Values(), mid, ct)
      ensures ct % 2 == 0 ==> 1 <= MaxCount(ct)
      ensures 0 <= MinCount(ct) && 0 <= MaxCount(ct)
      ensures |Sort(Window())| == ct
      ensures Sort(Window()) == Sort(CellsOf(Values(), mid, ct))
      ensures var v := if ct % 2 == 1 then Values()[mid] else Halved(Values()[mid] + Values()[mid - 1]);
              && v == MiddleOf(Sort(Window()))
              && v == CentralValue(Values(), mid, ct)
              && LeastSoFar(Values(), mid, ct, v, mid - MaxCount(ct), v)
    {
      hide Linked, Occupied, Untouched, Ordered, ValuesOf, WindowOf, InRange, LastN, Sort, IsSorted, MiddleOf,
           MaxCount, MinCount, CentralValue, LeastSoFar, Halved;
      CellsHoldWindow();
      CentralFacts(Values(), mid, ct);
    }

    lemma HistoryWindow()
      requires Valid() && history != []
      ensures Loaded() && 0 < ct && Window() == LastN(history, N)
    {
    }

    lemma CellValue(i: int)
      requires Loaded() && 0 < ct && -MaxCount(ct) <= i <= MinCount(ct)
      ensures 0 <= mid + i < heap.Length && 0 <= heap[mid + i] < data.Length && N == |Values()| == heap.Length
      ensures data[heap[mid + i]] == Values()[mid + i] && Values()[mid + i] in Cells()
    {
      LinkedInRange(pos[..], heap[..], mid);
      ValueAt(data[..], heap[..], mid + i);
      assert heap[mid + i] == heap[..][mid + i];
      assert Cells()[i + MaxCount(ct)] == Values()[mid + i];
    }

    lemma InUseBounds(i: int)
      requires Loaded() && 0 < ct && (i == 0 || -MaxCount(ct) <= i <= MinCount(ct))
      ensures InUse(i + mid, mid, ct) && 0 <= i + mid < N
      ensures 0 <= MinCount(ct) && 0 <= MaxCount(ct) <= mid && mid + MinCount(ct) < N == |Values()|
    {
    }

    lemma CellsExist(a: int)
      requires Loaded() && InUse(a, mid, ct)
      ensures 0 <= a < N && 0 <= heap[a] < N && pos[heap[a]] + mid == a
    {
      assert CellLinked(pos[..], heap[..], mid, a);
      assert heap[..][a] == heap[a];
    }
  }

  /**
    A whole run: the median reported after each insertion is the middle of the sorted
    last n values seen up to then.
   */
  method SlidingMedians(xs: seq<int>, n: nat) returns (medians: seq<int>, minima: seq<int>)
    requires 1 <= n
    ensures |medians| == |minima| == |xs|
    ensures forall k :: 0 <= k < |xs| ==> Reported(xs, n, k, medians[k], minima[k])
  {
    hide *;
    var m := new Mediator(n);
    medians, minima := [], [];
    for k := 0 to |xs|
      invariant m.Valid() && m.N == n && m.history == xs[..k]
      invariant fresh(m) && fresh(m.data) && fresh(m.pos) && fresh(m.heap)
      invariant |medians| == |minima| == k
      invariant forall j :: 0 <= j < k ==> Reported(xs, n, j, medians[j], minima[j])
    {
      m.Insert(xs[k]);
      assert xs[..k + 1] == xs[..k] + [xs[k]];
      m.HistoryWindow();
      var v, lo, _ := m.Median();
      MakeReport(xs, n, k, v, lo);
      medians, minima := medians + [v], minima + [lo];
    }
  }

  ghost predicate Reported(xs: seq<int>, n: nat, k: int, median: int, least: int)
    requires 0 <= k < |xs|
  {
    var s := Sort(LastN(xs[..k + 1], n));
    s != [] && median == MiddleOf(s) && least == s[0]
  }

  lemma MakeReport(xs: seq<int>, n: nat, k: int, median: int, least: int)
    requires 0 <= k < |xs|
    requires var s := Sort(LastN(xs[..k + 1], n)); s != [] && median == MiddleOf(s) && least == s[0]
    ensures Reported(xs, n, k, median, least)
  {
  }

  ghost function Occurrences(s: seq<int>, x: int): nat { multiset(s)[x] }

  /** In a sorted sequence the greatest value fills exactly its multiplicity of last places. */
  lemma {:induction false} TopRun(t: seq<int>, j: nat)
    requires IsSorted(t) && 1 <= j <= |t|
    ensures t[|t| - j] == t[|t| - 1] <==> j <= Occurrences(t, t[|t| - 1])
    decreases |t|
  {
    var top := t[|t| - 1];
    if |t| == 1 {
      assert t == [top];
    } else {
      var r := t[1..];
      assert t == [t[0]] + r;
      if j < |t| {
        TopRun(r, j);
        if t[0] == top { assert r[|r| - j] == top; }
      } else {
        TopRun(r, |r|);
        CountAtMost(r, top);
      }
    }
  }

  lemma {:induction false} CountAtMost(t: seq<int>, x: int)
    ensures Occurrences(t, x) <= |t|
  {
    if t != [] {
      assert t == [t[0]] + t[1..];
      CountAtMost(t[1..], x);
    }
  }

  /**
    When the value stored for the maximum, which is the median, happens to be the maximum:
    the greatest value fills more than half of the window, or exactly half of it with its
    predecessor next and the mean of the two truncated up to it.
   */
  lemma MedianIsMaximum(window: seq<int>)
    requires window != []
    ensures var t, n := Sort(window), |window|;
            |t| == n && (MiddleOf(t) == t[n - 1] <==> TopHeavy(t, Occurrences(window, t[n - 1])))
  {
    hide *;
    SortLength(window);
    OccurrencesSorted(window, Sort(window)[|window| - 1]);
    MiddleIsTop(Sort(window));
  }

  /** The greatest value, of which there are c, fills more than half of t, or half in a special case. */
  ghost predicate TopHeavy(t: seq<int>, c: nat)
    requires t != []
  {
    var n := |t|;
    var top := t[n - 1];
    2 * c > n || (2 * c == n && top <= 0 && top - 1 == t[n / 2 - 1])
  }

  /** With 1, 2, 3 in the window the value stored as the maximum is 2. */
  lemma WrongMaximum()
    ensures Sort([1, 2, 3]) == [1, 2, 3] && MiddleOf([1, 2, 3]) == 2
  {
    hide Sort;
    SortedUnique(Sort([1, 2, 3]), [1, 2, 3]);
  }

  lemma OccurrencesSorted(s: seq<int>, x: int)
    ensures Occurrences(Sort(s), x) == Occurrences(s, x) && IsSorted(Sort(s))
  {
    hide IsSorted;
  }

  lemma MiddleIsTop(t: seq<int>)
    requires t != [] && IsSorted(t)
    ensures MiddleOf(t) == t[|t| - 1] <==> TopHeavy(t, Occurrences(t, t[|t| - 1]))
  {
    hide IsSorted, Halved, Occurrences;
    var n := |t|;
    var k := n / 2;
    TopRun(t, n - k);
    if n % 2 == 0 {
      TopRun(t, k + 1);
      SortedAt(t, k - 1, k);
      SortedAt(t, k, n - 1);
      MeanReaches(t[k - 1], t[k], t[n - 1]);
    }
  }

  lemma MeanReaches(a: int, b: int, top: int)
    requires a <= b <= top
    ensures Halved(a + b) == top <==> a == top || (b == top && a == top - 1 && top <= 0)
  {
  }
}
