/**
  The board of the Tetris game in `Tetris/displaybuf.c`: rows and their compaction, figures, how
  they turn and how they are drawn. Row 0 is the bottom row.
*/
module Rows {

  type Row = seq<nat>
  type Board = seq<Row>

  predicate Full(row: Row) { forall c :: 0 <= c < |row| ==> row[c] != 0 }
  predicate Empty(row: Row) { forall c :: 0 <= c < |row| ==> row[c] == 0 }

  ghost predicate IsBoard(b: Board, cols: nat) { forall r :: 0 <= r < |b| ==> |b[r]| == cols }

  function EmptyRow(cols: nat): (r: Row)
    ensures |r| == cols && Empty(r)
  {
    seq(cols, _ => 0)
  }

  function EmptyRows(cols: nat, k: nat): (b: Board)
    ensures |b| == k && forall i :: 0 <= i < k ==> b[i] == EmptyRow(cols)
  {
    seq(k, _ => EmptyRow(cols))
  }

  lemma EmptyIs(row: Row)
    requires Empty(row)
    ensures row == EmptyRow(|row|)
  {
  }

  /** Rows y+1..u copied one down; row u stays as it was. */
  function Shift(b: Board, y: nat, u: nat): (r: Board)
    requires y <= u < |b|
    ensures |r| == |b|
  {
    b[..y] + b[y + 1..u + 1] + b[u..]
  }

  /** What the scan from row y - 1 downward does; upper is the row above which nothing moves. */
  function Roll(b: Board, y: nat, upper: nat): (r: Board)
    requires y <= |b| && (y > 0 ==> y - 1 <= upper < |b|)
    ensures |r| == |b|
    decreases y
  {
    if y == 0 then b
    else
      var u := if Empty(b[y - 1]) then y - 1 else upper;
      if Full(b[y - 1]) && !Empty(b[y - 1])
      then Roll(Shift(b, y - 1, u), y - 1, if u == 0 then 0 else u - 1)
      else Roll(b, y - 1, u)
  }

  /** The rows that are not full, in order. */
  function NotFull(b: Board): (r: Board)
    ensures |r| <= |b|
  {
    if b == [] then [] else (if Full(b[0]) then [] else [b[0]]) + NotFull(b[1..])
  }

  /** The board a player expects: full rows gone, the rest moved down, empty rows on top. */
  function Compacted(b: Board, cols: nat): (r: Board) {
    NotFull(b) + EmptyRows(cols, |b| - |NotFull(b)|)
  }

  ghost predicate HasFull(b: Board) { exists f :: 0 <= f < |b| && Full(b[f]) }

  /**
    The boards that come out compacted: without a full row; or with the top row empty and,
    above each full row, nothing but full and empty rows over an empty one.
   */
  ghost predicate Rollable(b: Board) {
    forall f :: 0 <= f < |b| && Full(b[f]) ==>
      Empty(b[|b| - 1]) &&
      forall e, g :: f < e < g < |b| && Empty(b[e]) ==> Full(b[g]) || Empty(b[g])
  }

  lemma {:induction false} NotFullConcat(a: Board, b: Board)
    ensures NotFull(a + b) == NotFull(a) + NotFull(b)
  {
    hide Full, NotFull;
    if a == [] {
      assert a + b == b && [] + NotFull(b) == NotFull(b);
    } else {
      NotFullConcat(a[1..], b);
      ConsConcat(a, b);
      NotFullUnfold(a);
      NotFullUnfold(a + b);
      Joined(if Full(a[0]) then [] else [a[0]], NotFull(a[1..]), NotFull(b));
    }
  }

  lemma NotFullUnfold(b: Board)
    requires b != []
    ensures NotFull(b) == (if Full(b[0]) then [] else [b[0]]) + NotFull(b[1..])
  {
  }

  lemma ConsConcat(a: Board, b: Board)
    requires a != []
    ensures (a + b)[1..] == a[1..] + b && (a + b)[0] == a[0]
  {
  }

  lemma Joined(a: Board, b: Board, c: Board)
    ensures a + (b + c) == (a + b) + c
  {
  }

  lemma NotBoth(row: Row)
    requires row != []
    ensures !(Full(row) && Empty(row))
  {
    assert row[0] == 0 || row[0] != 0;
  }

  lemma {:induction false} NotFullMembers(b: Board, row: Row)
    ensures row in NotFull(b) <==> row in b && !Full(row)
  {
    if b != [] {
      NotFullMembers(b[1..], row);
      assert b == [b[0]] + b[1..];
    }
  }

  lemma {:induction false} NotFullAll(b: Board)
    requires !HasFull(b)
    ensures NotFull(b) == b
  {
    if b != [] {
      assert !Full(b[0]);
      forall f | 0 <= f < |b[1..]| ensures !Full(b[1..][f]) { assert b[1..][f] == b[f + 1]; }
      NotFullAll(b[1..]);
    }
  }

  lemma {:induction false} FewerNotFull(b: Board)
    requires HasFull(b)
    ensures |NotFull(b)| < |b|
  {
    if !Full(b[0]) {
      var f :| 0 <= f < |b| && Full(b[f]);
      assert b[1..][f - 1] == b[f];
      FewerNotFull(b[1..]);
    }
  }

  /** The state with which the scan goes on after row y - 1. */
  ghost function Next(b: Board, y: nat, upper: nat): (r: (Board, nat))
    requires 0 < y <= |b| && y - 1 <= upper < |b|
    ensures |r.0| == |b| && (y > 1 ==> y - 2 <= r.1 < |b|)
  {
    var u := if Empty(b[y - 1]) then y - 1 else upper;
    if Full(b[y - 1]) && !Empty(b[y - 1]) then (Shift(b, y - 1, u), if u == 0 then 0 else u - 1) else (b, u)
  }

  lemma RollNext(b: Board, y: nat, upper: nat)
    requires 0 < y <= |b| && y - 1 <= upper < |b|
    ensures Roll(b, y, upper) == Roll(Next(b, y, upper).0, y - 1, Next(b, y, upper).1)
  {
  }

  lemma ShiftRows(b: Board, y: nat, u: nat)
    requires y <= u < |b|
    ensures Shift(b, y, u)[..y] == b[..y]
    ensures forall r :: y <= r < u ==> Shift(b, y, u)[r] == b[r + 1]
    ensures forall r :: u <= r < |b| ==> Shift(b, y, u)[r] == b[r]
  {
  }

  /** Without full rows below y nothing more moves. */
  lemma {:induction false} RollIdle(b: Board, y: nat, upper: nat)
    requires y <= |b| && (y > 0 ==> y - 1 <= upper < |b|)
    requires forall r :: 0 <= r < y ==> !Full(b[r])
    ensures Roll(b, y, upper) == b
    decreases y
  {
    if y > 0 {
      var u := if Empty(b[y - 1]) then y - 1 else upper;
      RollIdle(b, y - 1, u);
    }
  }

  /** The scan so far has compacted the rows from y up, and from upper up all is empty. */
  ghost predicate Scanned(b: Board, cur: Board, cols: nat, y: nat, upper: nat) {
    && IsBoard(b, cols) && IsBoard(cur, cols) && 0 < cols && y <= |b| && |cur| == |b| && (y > 0 ==> y - 1 <= upper < |b|)
    && cur == b[..y] + Compacted(b[y..], cols)
    && forall r :: upper <= r < |b| ==> Empty(cur[r])
  }

  lemma CompactedKeep(b: Board, cols: nat, k: nat)
    requires k < |b| && !Full(b[k])
    ensures Compacted(b[k..], cols) == [b[k]] + Compacted(b[k + 1..], cols)
  {
    hide Full;
    assert b[k..][1..] == b[k + 1..];
  }

  lemma CompactedDrop(b: Board, cols: nat, k: nat)
    requires k < |b| && Full(b[k])
    ensures Compacted(b[k..], cols) == Compacted(b[k + 1..], cols) + [EmptyRow(cols)]
  {
    hide Full;
    assert b[k..][1..] == b[k + 1..];
    var m := |b| - k - 1 - |NotFull(b[k + 1..])|;
    assert EmptyRows(cols, m + 1) == EmptyRows(cols, m) + [EmptyRow(cols)];
  }

  /** A row that is neither full nor the last to scan, passed by. */
  lemma ScannedKeep(b: Board, cur: Board, cols: nat, k: nat, upper: nat)
    requires Scanned(b, cur, cols, k + 1, upper) && !Full(b[k]) && k < upper
    ensures Scanned(b, cur, cols, k, upper)
  {
    CompactedKeep(b, cols, k);
    assert b[..k + 1] == b[..k] + [b[k]];
    assert (b[..k] + [b[k]]) + Compacted(b[k + 1..], cols) == b[..k] + ([b[k]] + Compacted(b[k + 1..], cols));
  }

  /** Above an empty row over a full one only full and empty rows were left, so now all is empty. */
  lemma ScannedEmpty(b: Board, cur: Board, cols: nat, k: nat, upper: nat, f: nat)
    requires Scanned(b, cur, cols, k + 1, upper) && Empty(b[k]) && Rollable(b) && f < k && Full(b[f])
    ensures Scanned(b, cur, cols, k, k)
  {
    assert |b[k]| == cols;
    NotBoth(b[k]);
    CompactedKeep(b, cols, k);
    assert b[..k + 1] == b[..k] + [b[k]];
    assert cur == b[..k] + Compacted(b[k..], cols);
    var above := NotFull(b[k + 1..]);
    forall r | k <= r < |b| ensures Empty(cur[r]) {
      if r == k {
        assert cur[r] == b[k];
      } else if r - k - 1 < |above| {
        assert cur[r] == above[r - k - 1];
        NotFullMembers(b[k + 1..], cur[r]);
        var i :| 0 <= i < |b[k + 1..]| && b[k + 1..][i] == cur[r];
        assert b[k + 1 + i] == cur[r];
      } else {
        assert cur[r] == EmptyRow(cols);
      }
    }
  }

  lemma ScannedFull(b: Board, cur: Board, cols: nat, k: nat, upper: nat)
    requires Scanned(b, cur, cols, k + 1, upper) && Full(b[k])
    ensures k < upper && cur[k] == b[k] && Scanned(b, Shift(cur, k, upper), cols, k, upper - 1)
  {
    hide Full, Empty, NotFull, Compacted, Shift;
    assert cur[k] == b[k];
    assert |b[k]| == cols;
    NotBoth(b[k]);
    assert k < upper;
    CompactedDrop(b, cols, k);
    var rest := Compacted(b[k + 1..], cols);
    assert cur[k + 1..] == rest;
    assert b[..k + 1][..k] == b[..k] && cur[..k] == b[..k];
    TailOfEmpties(cur, cols, upper);
    ShiftOverEmpties(cur, EmptyRow(cols), k, upper);
    ShiftRows(cur, k, upper);
    var cur' := Shift(cur, k, upper);
    forall r | upper - 1 <= r < |b| ensures Empty(cur'[r]) && |cur'[r]| == cols {
      if r == upper - 1 { assert cur'[r] == cur[upper]; } else { assert cur'[r] == cur[r]; }
    }
    ShiftBoard(cur, cols, k, upper);
  }

  /** With nothing but the row e from upper on, the shift takes row k out and puts e on top. */
  lemma ShiftOverEmpties(cur: Board, e: Row, k: nat, upper: nat)
    requires k < upper < |cur| && cur[upper] == e && [e] + cur[upper..] == cur[upper..] + [e]
    ensures Shift(cur, k, upper) == cur[..k] + (cur[k + 1..] + [e])
  {
    var mid, tail := cur[k + 1..upper], cur[upper..];
    assert cur[k + 1..] == mid + tail && cur[k + 1..upper + 1] == mid + [e];
    Joined(mid, [e], tail);
    Joined(mid, tail, [e]);
    Joined(cur[..k], mid + [e], tail);
  }

  lemma ShiftBoard(cur: Board, cols: nat, k: nat, upper: nat)
    requires k <= upper < |cur| && IsBoard(cur, cols)
    ensures IsBoard(Shift(cur, k, upper), cols)
  {
  }

  lemma TailOfEmpties(cur: Board, cols: nat, upper: nat)
    requires upper < |cur| && forall r :: upper <= r < |cur| ==> Empty(cur[r]) && |cur[r]| == cols
    ensures cur[upper..] == EmptyRows(cols, |cur| - upper)
    ensures [EmptyRow(cols)] + cur[upper..] == cur[upper..] + [EmptyRow(cols)]
    ensures cur[upper] == EmptyRow(cols)
  {
    forall r | upper <= r < |cur| ensures cur[r] == EmptyRow(cols) { EmptyIs(cur[r]); }
  }

  /** The rest of the scan of a rollable board, down to its lowest full row and beyond. */
  lemma {:induction false} RollCompacts(b: Board, cur: Board, cols: nat, y: nat, upper: nat, f: nat)
    requires Scanned(b, cur, cols, y, upper) && Rollable(b) && f < y && Full(b[f])
    ensures Roll(cur, y, upper) == Compacted(b, cols)
    decreases y
  {
    hide Full, Empty, Rollable, Compacted, Shift;
    var k := y - 1;
    ScannedRow(b, cur, cols, k, upper);
    if Empty(b[k]) {
      ScannedEmpty(b, cur, cols, k, upper, f);
      RollCompacts(b, cur, cols, k, k, f);
    } else if Full(b[k]) {
      ScannedFull(b, cur, cols, k, upper);
      var cur' := Shift(cur, k, upper);
      if j: nat :| j < k && Full(b[j]) {
        RollCompacts(b, cur', cols, k, upper - 1, j);
      } else {
        LastFull(b, cur', cols, k, upper - 1);
      }
    } else {
      ScannedKeep(b, cur, cols, k, upper);
      RollCompacts(b, cur, cols, k, upper, f);
    }
  }

  lemma ScannedRow(b: Board, cur: Board, cols: nat, k: nat, upper: nat)
    requires Scanned(b, cur, cols, k + 1, upper)
    ensures k < |cur| && cur[k] == b[k] && !(Full(b[k]) && Empty(b[k]))
    ensures !Empty(b[k]) ==> k < upper
  {
    assert |b[k]| == cols;
    NotBoth(b[k]);
    assert cur[k] == b[k];
  }

  lemma LastFull(b: Board, cur: Board, cols: nat, k: nat, upper: nat)
    requires Scanned(b, cur, cols, k, upper) && forall j: nat :: j < k ==> !Full(b[j])
    ensures Roll(cur, k, upper) == Compacted(b, cols)
  {
    hide Full, Roll, NotFull, Compacted;
    forall r | 0 <= r < k ensures !Full(cur[r]) { assert cur[r] == b[r]; }
    RollIdle(cur, k, upper);
    CompactedBelow(b, cols, k);
  }

  /** Rows that are not full, below all others, stay where they are. */
  lemma CompactedBelow(b: Board, cols: nat, k: nat)
    requires k <= |b| && forall j: nat :: j < k ==> !Full(b[j])
    ensures Compacted(b, cols) == b[..k] + Compacted(b[k..], cols)
  {
    hide Full, NotFull;
    forall r | 0 <= r < k ensures !Full(b[..k][r]) { assert b[..k][r] == b[r]; }
    NotFullAll(b[..k]);
    NotFullConcat(b[..k], b[k..]);
    assert b[..k] + b[k..] == b;
    Joined(b[..k], NotFull(b[k..]), EmptyRows(cols, |b| - |NotFull(b)|));
  }

  /** Rows from upper on, once scanned, stay as they are. */
  lemma {:induction false} RollFixed(cur: Board, y: nat, upper: nat, p: nat)
    requires y <= |cur| && (y > 0 ==> y - 1 <= upper < |cur|) && y <= p < |cur| && upper <= p
    ensures Roll(cur, y, upper)[p] == cur[p]
    decreases y
  {
    hide Full, Empty;
    if y > 0 {
      var u := if Empty(cur[y - 1]) then y - 1 else upper;
      if Full(cur[y - 1]) && !Empty(cur[y - 1]) {
        RollFixed(Shift(cur, y - 1, u), y - 1, if u == 0 then 0 else u - 1, p);
      } else {
        RollFixed(cur, y - 1, u, p);
      }
    }
  }

  /** The number of full rows among rows i..j-1. */
  ghost function Fulls(b: Board, i: nat, j: nat): (n: nat)
    requires i <= j <= |b|
    ensures n <= j - i
    decreases j
  {
    if i == j then 0 else Fulls(b, i, j - 1) + (if Full(b[j - 1]) then 1 else 0)
  }

  /** Somewhere from row p on the board is not empty. */
  ghost predicate ReachesUp(b: Board, p: int) { exists r :: p <= r && 0 <= r < |b| && !Empty(b[r]) }

  /**
    Of the full rows still to scan, only those above the empty row e can bring the row p down:
    once e is reached, what is above it does not move any more.
   */
  lemma {:induction false} FloatingRow(b: Board, cur: Board, y: nat, upper: nat, p: nat, e: nat)
    requires e < y <= p < |b| == |cur| && y - 1 <= upper < |b|
    requires cur[..y] == b[..y] && !Empty(cur[p]) && Empty(b[e]) && !Full(b[e])
    ensures ReachesUp(Roll(cur, y, upper), p - Fulls(b, e + 1, y))
    decreases y
  {
    hide Full, Empty, Roll, Shift, ReachesUp;
    var k := y - 1;
    PrefixRow(b, cur, y);
    RollNext(cur, y, upper);
    if k == e {
      RollFixed(cur, e, e, p);
      Reaches(Roll(cur, e, e), p);
    } else {
      var u := if Empty(b[k]) then k else upper;
      if Full(b[k]) && !Empty(b[k]) {
        ShiftRows(cur, k, u);
        if p <= u {
          FloatingRow(b, Shift(cur, k, u), k, u - 1, p - 1, e);
        } else {
          FloatingRow(b, Shift(cur, k, u), k, if u == 0 then 0 else u - 1, p, e);
        }
      } else {
        FloatingRow(b, cur, k, u, p, e);
      }
      if Full(b[k]) { ReachesLower(Roll(cur, y, upper), p - Fulls(b, e + 1, k), p - Fulls(b, e + 1, y)); }
    }
  }

  lemma PrefixRow(b: Board, cur: Board, y: nat)
    requires 0 < y <= |b| == |cur| && cur[..y] == b[..y]
    ensures cur[y - 1] == b[y - 1] && cur[..y - 1] == b[..y - 1]
  {
    assert cur[y - 1] == cur[..y][y - 1];
    assert cur[..y - 1] == cur[..y][..y - 1] && b[..y - 1] == b[..y][..y - 1];
  }

  lemma ReachesLower(b: Board, p: int, q: int)
    requires q <= p
    ensures ReachesUp(b, p) ==> ReachesUp(b, q)
  {
  }

  lemma Reaches(b: Board, p: nat)
    requires p < |b| && !Empty(b[p])
    ensures ReachesUp(b, p)
  {
  }

  /** The scan reaches row t unchanged, and then leaves it floating. */
  lemma {:induction false} FloatsFrom(b: Board, cur: Board, y: nat, upper: nat, t: nat, e: nat)
    requires e < t < y <= |b| == |cur| && y - 1 <= upper < |b|
    requires cur[..y] == b[..y] && !Empty(b[t]) && !Full(b[t]) && Empty(b[e]) && !Full(b[e])
    ensures ReachesUp(Roll(cur, y, upper), t - Fulls(b, e + 1, t))
    decreases y
  {
    hide Full, Empty, ReachesUp, Roll, Shift;
    var k := y - 1;
    PrefixRow(b, cur, y);
    RollNext(cur, y, upper);
    if k == t {
      FloatingRow(b, cur, t, upper, t, e);
    } else {
      var u := if Empty(b[k]) then k else upper;
      if Full(b[k]) && !Empty(b[k]) {
        ShiftRows(cur, k, u);
        FloatsFrom(b, Shift(cur, k, u), k, if u == 0 then 0 else u - 1, t, e);
      } else {
        FloatsFrom(b, cur, k, u, t, e);
      }
    }
  }

  lemma {:induction false} RollTop(cur: Board, y: nat, upper: nat)
    requires 0 < |cur| && y <= |cur| && (y > 0 ==> y - 1 <= upper < |cur|)
    ensures Roll(cur, y, upper)[|cur| - 1] == cur[|cur| - 1]
    decreases y
  {
    hide Full, Empty, Roll, Shift;
    if y > 0 {
      RollNext(cur, y, upper);
      NextTop(cur, y, upper);
      RollTop(Next(cur, y, upper).0, y - 1, Next(cur, y, upper).1);
    } else {
      RollIdle(cur, 0, upper);
    }
  }

  lemma NextTop(cur: Board, y: nat, upper: nat)
    requires 0 < y <= |cur| && y - 1 <= upper < |cur|
    ensures Next(cur, y, upper).0[|cur| - 1] == cur[|cur| - 1]
  {
    hide Full, Empty, Shift;
    ShiftRows(cur, y - 1, if Empty(cur[y - 1]) then y - 1 else upper);
  }

  lemma {:induction false} CountFulls(b: Board, i: nat, k: nat, j: nat, f: nat)
    requires i <= f < k <= j <= |b| && Full(b[f])
    ensures Fulls(b, i, j) >= 1 + Fulls(b, k, j)
    decreases j
  {
    hide Full;
    if k < j {
      CountFulls(b, i, k, j - 1, f);
    } else if f < j - 1 {
      CountFulls(b, i, k - 1, j - 1, f);
    }
  }

  lemma {:induction false} NotFullLength(b: Board, j: nat)
    requires j <= |b|
    ensures |NotFull(b[..j])| == j - Fulls(b, 0, j)
    decreases j
  {
    hide Full;
    if j > 0 {
      NotFullLength(b, j - 1);
      assert b[..j] == b[..j - 1] + [b[j - 1]];
      NotFullConcat(b[..j - 1], [b[j - 1]]);
      assert NotFull([b[j - 1]]) == if Full(b[j - 1]) then [] else [b[j - 1]];
    }
  }

  /** Above the place of its topmost partly filled row a compacted board is empty. */
  lemma CompactedAbove(b: Board, cols: nat, t: nat)
    requires t < |b| && !Full(b[t]) && forall g :: t < g < |b| ==> Full(b[g]) || Empty(b[g])
    ensures !ReachesUp(Compacted(b, cols), t - Fulls(b, 0, t) + 1)
  {
    hide Full, Empty, NotFull;
    var low, high := NotFull(b[..t]), NotFull(b[t + 1..]);
    NotFullLength(b, t);
    SplitNotFull(b, t);
    var c := Compacted(b, cols);
    forall r | |low| + 1 <= r < |b| ensures Empty(c[r]) {
      if r < |NotFull(b)| {
        assert c[r] == high[r - |low| - 1];
        EmptyAbove(b, t, c[r]);
      } else {
        assert c[r] == EmptyRow(cols);
      }
    }
  }

  lemma SplitNotFull(b: Board, t: nat)
    requires t < |b| && !Full(b[t])
    ensures NotFull(b) == NotFull(b[..t]) + [b[t]] + NotFull(b[t + 1..])
  {
    hide Full;
    assert b == (b[..t] + [b[t]]) + b[t + 1..];
    NotFullConcat(b[..t] + [b[t]], b[t + 1..]);
    NotFullConcat(b[..t], [b[t]]);
    assert NotFull([b[t]]) == [b[t]];
  }

  lemma EmptyAbove(b: Board, t: nat, row: Row)
    requires t < |b| && row in NotFull(b[t + 1..])
    requires forall g :: t < g < |b| ==> Full(b[g]) || Empty(b[g])
    ensures Empty(row)
  {
    hide Full, Empty, NotFull;
    NotFullMembers(b[t + 1..], row);
    var i :| 0 <= i < |b[t + 1..]| && b[t + 1..][i] == row;
    assert b[t + 1 + i] == row;
  }

  lemma {:induction false} Topmost(b: Board, g: nat) returns (t: nat)
    requires g < |b| && !Full(b[g]) && !Empty(b[g])
    ensures g <= t < |b| && !Full(b[t]) && !Empty(b[t])
    ensures forall h :: t < h < |b| ==> Full(b[h]) || Empty(b[h])
    decreases |b| - g
  {
    if h :| g < h < |b| && !Full(b[h]) && !Empty(b[h]) {
      t := Topmost(b, h);
    } else {
      t := g;
    }
  }

  lemma CompactedTop(b: Board, cols: nat, f: nat)
    requires f < |b| && Full(b[f])
    ensures |Compacted(b, cols)| == |b| && Empty(Compacted(b, cols)[|b| - 1])
  {
    hide Full, NotFull;
    FewerNotFull(b);
    assert Compacted(b, cols)[|b| - 1] == EmptyRow(cols);
  }

  lemma NotRollableFails(b: Board, cols: nat)
    requires IsBoard(b, cols) && 0 < cols && 0 < |b| && !Rollable(b)
    ensures Roll(b, |b|, |b| - 1) != Compacted(b, cols)
  {
    hide Full, Empty, Roll, Compacted;
    var f :| 0 <= f < |b| && Full(b[f]) &&
      !(Empty(b[|b| - 1]) && forall e, g :: f < e < g < |b| && Empty(b[e]) ==> Full(b[g]) || Empty(b[g]));
    if !Empty(b[|b| - 1]) {
      RollTop(b, |b|, |b| - 1);
      CompactedTop(b, cols, f);
    } else {
      var e, g :| f < e < g < |b| && Empty(b[e]) && !Full(b[g]) && !Empty(b[g]);
      FloatsTooHigh(b, cols, f, e, g);
    }
  }

  lemma FloatsTooHigh(b: Board, cols: nat, f: nat, e: nat, g: nat)
    requires IsBoard(b, cols) && 0 < cols && f < e < g < |b|
    requires Full(b[f]) && Empty(b[e]) && !Full(b[g]) && !Empty(b[g])
    ensures Roll(b, |b|, |b| - 1) != Compacted(b, cols)
  {
    hide Full, Empty, Roll, Compacted;
    assert |b[e]| == cols;
    NotBoth(b[e]);
    var t := Topmost(b, g);
    TopmostTooHigh(b, cols, f, e, t);
  }

  lemma TopmostTooHigh(b: Board, cols: nat, f: nat, e: nat, t: nat)
    requires f < e < t < |b| && Full(b[f]) && Empty(b[e]) && !Full(b[e]) && !Full(b[t]) && !Empty(b[t])
    requires forall g :: t < g < |b| ==> Full(b[g]) || Empty(b[g])
    ensures Roll(b, |b|, |b| - 1) != Compacted(b, cols)
  {
    hide *;
    FloatsFrom(b, b, |b|, |b| - 1, t, e);
    CompactedAbove(b, cols, t);
    CountFulls(b, 0, e + 1, t, f);
    ReachesLower(Roll(b, |b|, |b| - 1), t - Fulls(b, e + 1, t), t - Fulls(b, 0, t) + 1);
  }

  /** The scan compacts the board just when the board is rollable. */
  lemma RollExactly(b: Board, cols: nat)
    requires IsBoard(b, cols) && 0 < cols && 0 < |b|
    ensures Roll(b, |b|, |b| - 1) == Compacted(b, cols) <==> Rollable(b)
  {
    hide Full, Empty, Roll, Rollable, Compacted;
    if Rollable(b) {
      if f: nat :| f < |b| && Full(b[f]) {
        ScanStarts(b, cols, f);
        RollCompacts(b, b, cols, |b|, |b| - 1, f);
      } else {
        RollIdle(b, |b|, |b| - 1);
        NothingToCompact(b, cols);
      }
    } else {
      NotRollableFails(b, cols);
    }
  }

  lemma ScanStarts(b: Board, cols: nat, f: nat)
    requires IsBoard(b, cols) && 0 < cols && Rollable(b) && f < |b| && Full(b[f])
    ensures Scanned(b, b, cols, |b|, |b| - 1)
  {
    hide Full;
    assert b[|b|..] == [] && NotFull([]) == [] && EmptyRows(cols, 0) == [];
    assert b == b[..|b|] + Compacted([], cols);
  }

  lemma NothingToCompact(b: Board, cols: nat)
    requires forall f: nat :: f < |b| ==> !Full(b[f])
    ensures Compacted(b, cols) == b
  {
    hide Full;
    NotFullAll(b);
    assert EmptyRows(cols, 0) == [];
  }

  /** A row of ones, and one with a single cell taken. */
  function FullRow(cols: nat): (r: Row)
    ensures |r| == cols && Full(r)
  {
    seq(cols, _ => 1)
  }

  function PartRow(cols: nat): (r: Row)
    requires 2 <= cols
    ensures |r| == cols && !Full(r) && !Empty(r)
  {
    var r := [1] + EmptyRow(cols - 1);
    assert r[0] == 1 && r[1] == 0;
    r
  }

  function PartRows(cols: nat, k: nat): (b: Board)
    requires 2 <= cols
    ensures |b| == k && forall i :: 0 <= i < k ==> b[i] == PartRow(cols)
  {
    seq(k, _ => PartRow(cols))
  }

  /** A full row under a pile of rows that reaches the top. */
  function HighPile(rows: nat, cols: nat): (b: Board)
    requires 1 <= rows && 2 <= cols
    ensures |b| == rows
  {
    [FullRow(cols)] + PartRows(cols, rows - 1)
  }

  /** Rows that are neither full nor empty are passed by. */
  lemma {:induction false} RollPasses(b: Board, y: nat, upper: nat)
    requires 1 <= y <= |b| && y - 1 <= upper < |b|
    requires forall r :: 1 <= r < y ==> !Full(b[r]) && !Empty(b[r])
    ensures Roll(b, y, upper) == Roll(b, 1, upper)
    decreases y
  {
    hide Full, Empty;
    if y > 1 { RollPasses(b, y - 1, upper); }
  }

  /**
    In a cup of any size from 2 rows and 2 columns up, 30 by 15 included: the full row goes, the
    pile comes down, but its top row stays behind as well.
   */
  lemma TopRowDoubled(rows: nat, cols: nat)
    requires 2 <= rows && 2 <= cols
    ensures var b := HighPile(rows, cols);
            && IsBoard(b, cols) && !Rollable(b)
            && Roll(b, rows, rows - 1) == PartRows(cols, rows)
            && Compacted(b, cols) == PartRows(cols, rows - 1) + [EmptyRow(cols)]
  {
    hide Full, Empty, Roll, Compacted, PartRow, FullRow;
    HighPileRows(rows, cols);
    PileRolls(rows, cols);
    PileCompacts(rows, cols);
  }

  lemma PileRolls(rows: nat, cols: nat)
    requires 2 <= rows && 2 <= cols
    ensures Roll(HighPile(rows, cols), rows, rows - 1) == PartRows(cols, rows)
  {
    hide Full, Empty, Roll, Shift, PartRow, FullRow, PartRows;
    var b := HighPile(rows, cols);
    HighPileRows(rows, cols);
    RollPasses(b, rows, rows - 1);
    RollNext(b, 1, rows - 1);
    ShiftRows(b, 0, rows - 1);
    var c := Shift(b, 0, rows - 1);
    RollIdle(c, 0, rows - 2);
    forall r | 0 <= r < rows ensures c[r] == PartRow(cols) { }
    assert c == PartRows(cols, rows);
  }

  lemma PileCompacts(rows: nat, cols: nat)
    requires 2 <= rows && 2 <= cols
    ensures Compacted(HighPile(rows, cols), cols) == PartRows(cols, rows - 1) + [EmptyRow(cols)]
  {
    hide Full, Empty, NotFull, PartRow, FullRow, PartRows;
    var b := HighPile(rows, cols);
    HighPileRows(rows, cols);
    NotFullUnfold(b);
    assert b[1..] == PartRows(cols, rows - 1) && [] + b[1..] == b[1..];
    NotFullAll(b[1..]);
    assert EmptyRows(cols, 1) == [EmptyRow(cols)];
  }

  lemma HighPileRows(rows: nat, cols: nat)
    requires 2 <= rows && 2 <= cols
    ensures var b := HighPile(rows, cols);
            && IsBoard(b, cols) && Full(b[0]) && !Empty(b[0])
            && (forall r :: 1 <= r < rows ==> b[r] == PartRow(cols) && !Full(b[r]) && !Empty(b[r]))
            && !Empty(b[|b| - 1])
  {
    hide Full, Empty;
    NotBoth(FullRow(cols));
  }

  lemma SmallRows()
    ensures FullRow(2) == [1, 1] && PartRow(2) == [1, 0] && EmptyRow(2) == [0, 0]
    ensures HighPile(2, 2) == [[1, 1], [1, 0]] && PartRows(2, 2) == [[1, 0], [1, 0]] && PartRows(2, 1) == [[1, 0]]
  {
  }

  /** No row that is not empty lies over an empty one. */
  ghost predicate Stacked(b: Board) {
    forall e, g :: 0 <= e < g < |b| && Empty(b[e]) ==> Empty(b[g])
  }

  lemma {:induction false} NotFullStacked(b: Board)
    requires Stacked(b)
    ensures Stacked(NotFull(b))
  {
    hide Full, Empty;
    if b != [] {
      var rest := NotFull(b[1..]);
      forall e, g | 0 <= e < g < |b[1..]| && Empty(b[1..][e]) ensures Empty(b[1..][g]) {
        assert b[1..][e] == b[e + 1] && b[1..][g] == b[g + 1];
      }
      NotFullStacked(b[1..]);
      NotFullUnfold(b);
      if !Full(b[0]) {
        forall g | 0 <= g < |rest| && Empty(b[0]) ensures Empty(rest[g]) {
          NotFullMembers(b[1..], rest[g]);
          var i :| 0 <= i < |b[1..]| && b[1..][i] == rest[g];
          assert b[i + 1] == rest[g];
        }
      } else {
        assert [] + rest == rest;
      }
    }
  }

  /** A stack of rows under an empty top row is rollable, and stays a stack. */
  lemma StackedRolls(b: Board, cols: nat)
    requires IsBoard(b, cols) && 0 < cols && 0 < |b| && Stacked(b) && Empty(b[|b| - 1])
    ensures Roll(b, |b|, |b| - 1) == Compacted(b, cols) && Stacked(Compacted(b, cols))
    ensures Empty(Compacted(b, cols)[|b| - 1])
  {
    hide Full, Empty, Roll;
    RollExactly(b, cols);
    NotFullStacked(b);
    var n, c := NotFull(b), Compacted(b, cols);
    forall e, g | 0 <= e < g < |c| && Empty(c[e]) ensures Empty(c[g]) {
      if g < |n| {
        assert c[e] == n[e] && c[g] == n[g];
      } else {
        assert c[g] == EmptyRow(cols);
      }
    }
    if f: nat :| f < |b| && Full(b[f]) { CompactedTop(b, cols, f); } else { NothingToCompact(b, cols); }
  }
}

module Figures {
  import opened Rows

  /** Four cells as bytes, column offset + 2 in the upper half and row offset + 2 in the lower. */
  datatype Figure = Figure(f: seq<nat>, color: nat)

  function GetX(u: nat): int { u / 16 - 2 }
  function GetY(u: nat): int { u % 16 - 2 }

  predicate Shaped(fig: Figure) {
    |fig.f| == 4 && forall i :: 0 <= i < 4 ==> -2 <= GetX(fig.f[i]) <= 2 && -2 <= GetY(fig.f[i]) <= 2
  }

  /** A quarter turn: to the right if cw, else to the left. */
  function TurnByte(cw: bool, u: nat): nat
    requires -2 <= GetX(u) <= 2 && -2 <= GetY(u) <= 2
  {
    var xn, yn := if cw then GetY(u) else -GetY(u), if cw then -GetX(u) else GetX(u);
    (xn + 2) * 16 + (yn + 2)
  }

  function Turned(cw: bool, fig: Figure): (r: Figure)
    requires Shaped(fig)
  {
    Figure([TurnByte(cw, fig.f[0]), TurnByte(cw, fig.f[1]), TurnByte(cw, fig.f[2]), TurnByte(cw, fig.f[3])], fig.color)
  }

  lemma TurnByteMeaning(cw: bool, u: nat)
    requires -2 <= GetX(u) <= 2 && -2 <= GetY(u) <= 2
    ensures var v := TurnByte(cw, u);
            && GetX(v) == (if cw then GetY(u) else -GetY(u))
            && GetY(v) == (if cw then -GetX(u) else GetX(u))
            && TurnByte(!cw, v) == u
  {
  }

  /** A turn keeps the figure in its 5x5 square, and the opposite turn undoes it. */
  lemma TurnInverse(cw: bool, fig: Figure)
    requires Shaped(fig)
    ensures Shaped(Turned(cw, fig)) && Turned(!cw, Turned(cw, fig)) == fig
  {
    hide TurnByte;
    TurnByteMeaning(cw, fig.f[0]);
    TurnByteMeaning(cw, fig.f[1]);
    TurnByteMeaning(cw, fig.f[2]);
    TurnByteMeaning(cw, fig.f[3]);
    assert Turned(!cw, Turned(cw, fig)).f == fig.f;
  }

  /** Four turns the same way bring every cell back. */
  lemma FourTurns(cw: bool, fig: Figure)
    requires Shaped(fig)
    ensures Shaped(Turned(cw, fig)) && Shaped(Turned(cw, Turned(cw, fig)))
    ensures Shaped(Turned(cw, Turned(cw, Turned(cw, fig))))
    ensures Turned(cw, Turned(cw, Turned(cw, Turned(cw, fig)))) == fig
  {
    hide Turned, TurnByte, Shaped;
    TurnInverse(cw, fig);
    TurnInverse(cw, Turned(cw, fig));
    TurnInverse(cw, Turned(cw, Turned(cw, fig)));
    HalfTurn(cw, fig);
    TurnInverse(!cw, fig);
    TurnInverse(!cw, Turned(!cw, fig));
  }

  /** Two turns to the right are two turns to the left. */
  lemma HalfTurn(cw: bool, fig: Figure)
    requires Shaped(fig)
    ensures Shaped(Turned(cw, fig)) && Shaped(Turned(!cw, fig))
    ensures Turned(cw, Turned(cw, fig)) == Turned(!cw, Turned(!cw, fig))
  {
    hide TurnByte;
    TurnInverse(cw, fig);
    TurnInverse(!cw, fig);
    forall i | 0 <= i < 4
      ensures TurnByte(cw, Turned(cw, fig).f[i]) == TurnByte(!cw, Turned(!cw, fig).f[i])
    {
      HalfTurnByte(cw, fig.f[i]);
    }
  }

  lemma HalfTurnByte(cw: bool, u: nat)
    requires -2 <= GetX(u) <= 2 && -2 <= GetY(u) <= 2
    ensures var v, w := TurnByte(cw, u), TurnByte(!cw, u);
            && -2 <= GetX(v) <= 2 && -2 <= GetY(v) <= 2 && -2 <= GetX(w) <= 2 && -2 <= GetY(w) <= 2
            && TurnByte(cw, v) == TurnByte(!cw, w)
  {
    TurnByteMeaning(cw, u);
    TurnByteMeaning(!cw, u);
  }

  /** Cell i of the figure when it is placed at (x, y). */
  function CellX(fig: Figure, x: int, i: nat): int
    requires i < |fig.f|
  {
    x + GetX(fig.f[i])
  }

  function CellY(fig: Figure, y: int, i: nat): int
    requires i < |fig.f|
  {
    y + GetY(fig.f[i])
  }

  predicate InCup(b: Board, cols: nat, xn: int, yn: int) { 0 <= xn < cols && 0 <= yn < |b| }

  function PaintCell(b: Board, cols: nat, xn: int, yn: int, v: nat): (r: Board)
    requires IsBoard(b, cols)
    ensures |r| == |b| && IsBoard(r, cols)
    ensures forall i, j :: 0 <= i < |b| && 0 <= j < cols ==> r[i][j] == if i == yn && j == xn then v else b[i][j]
  {
    if InCup(b, cols, xn, yn) then
      var row: Row := b[yn][xn := v];
      b[yn := row]
    else b
  }

  /** The board with the first k cells of the figure set to v; cells outside are left out. */
  function Paint(b: Board, cols: nat, fig: Figure, x: int, y: int, v: nat, k: nat): (r: Board)
    requires IsBoard(b, cols) && k <= |fig.f|
    ensures |r| == |b| && IsBoard(r, cols)
  {
    if k == 0 then b
    else PaintCell(Paint(b, cols, fig, x, y, v, k - 1), cols, CellX(fig, x, k - 1), CellY(fig, y, k - 1), v)
  }

  /** One of the first k cells of the figure is at column c of row r. */
  ghost predicate Covers(fig: Figure, x: int, y: int, k: nat, r: int, c: int)
    requires k <= |fig.f|
  {
    exists i: nat :: i < k && CellX(fig, x, i) == c && CellY(fig, y, i) == r
  }

  lemma {:induction false} PaintAt(b: Board, cols: nat, fig: Figure, x: int, y: int, v: nat, k: nat, r: nat, c: nat)
    requires IsBoard(b, cols) && k <= |fig.f| && r < |b| && c < cols
    ensures Paint(b, cols, fig, x, y, v, k)[r][c] == if Covers(fig, x, y, k, r, c) then v else b[r][c]
    decreases k
  {
    if k > 0 { PaintAt(b, cols, fig, x, y, v, k - 1, r, c); }
  }

  /** All cells of the figure that are in the cup are free. */
  ghost predicate Free(b: Board, cols: nat, fig: Figure, x: int, y: int)
    requires IsBoard(b, cols)
  {
    forall i: nat :: i < |fig.f| && InCup(b, cols, CellX(fig, x, i), CellY(fig, y, i)) ==>
      b[CellY(fig, y, i)][CellX(fig, x, i)] == 0
  }

  lemma SameBoard(a: Board, b: Board, cols: nat)
    requires IsBoard(a, cols) && IsBoard(b, cols) && |a| == |b|
    requires forall r, c :: 0 <= r < |a| && 0 <= c < cols ==> a[r][c] == b[r][c]
    ensures a == b
  {
    forall r | 0 <= r < |a| ensures a[r] == b[r] {
      assert forall c :: 0 <= c < cols ==> a[r][c] == b[r][c];
    }
  }

  /** Clearing a figure that was put on free cells gives back the board, whatever its colour. */
  lemma ClearUndoesPut(b: Board, cols: nat, fig: Figure, x: int, y: int)
    requires IsBoard(b, cols) && Free(b, cols, fig, x, y)
    ensures var k := |fig.f|;
            Paint(Paint(b, cols, fig, x, y, fig.color, k), cols, fig, x, y, 0, k) == b
  {
    var k := |fig.f|;
    var p := Paint(b, cols, fig, x, y, fig.color, k);
    var q := Paint(p, cols, fig, x, y, 0, k);
    forall r, c | 0 <= r < |b| && 0 <= c < cols ensures q[r][c] == b[r][c] {
      PaintAt(b, cols, fig, x, y, fig.color, k, r, c);
      PaintAt(p, cols, fig, x, y, 0, k, r, c);
    }
    SameBoard(q, b, cols);
  }

  /** A cell that was taken keeps its value under a figure put on free cells. */
  lemma SettledCellsStay(b: Board, cols: nat, fig: Figure, x: int, y: int, r: nat, c: nat)
    requires IsBoard(b, cols) && Free(b, cols, fig, x, y) && r < |b| && c < cols && b[r][c] != 0
    ensures Paint(b, cols, fig, x, y, fig.color, |fig.f|)[r][c] == b[r][c]
  {
    PaintAt(b, cols, fig, x, y, fig.color, |fig.f|, r, c);
  }

  /** The test before a figure is put somewhere; cells above the cup do not count. */
  predicate Fits(b: Board, cols: nat, fig: Figure, x: int, y: int)
    requires IsBoard(b, cols)
  {
    && 0 <= x < cols && 0 <= y
    && forall i: nat :: i < |fig.f| ==> CellFits(b, cols, CellX(fig, x, i), CellY(fig, y, i))
  }

  predicate CellFits(b: Board, cols: nat, xn: int, yn: int)
    requires IsBoard(b, cols)
  {
    yn >= |b| || (0 <= xn < cols && 0 <= yn && b[yn][xn] == 0)
  }

  lemma FitsIsFree(b: Board, cols: nat, fig: Figure, x: int, y: int)
    requires IsBoard(b, cols) && Fits(b, cols, fig, x, y)
    ensures Free(b, cols, fig, x, y)
  {
    forall i: nat | i < |fig.f| && InCup(b, cols, CellX(fig, x, i), CellY(fig, y, i))
      ensures b[CellY(fig, y, i)][CellX(fig, x, i)] == 0
    {
      assert CellFits(b, cols, CellX(fig, x, i), CellY(fig, y, i));
    }
  }
}
