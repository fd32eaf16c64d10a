/**
  The Tetris game itself: the cup that `Tetris/displaybuf.c` changes cell by cell, and the key
  commands of `Tetris/main.c`. The specification never paints anything: it keeps the settled
  board and the active figure apart. The class works on the one cup in which both are drawn.
*/
module GameRules {
  import opened Rows
  import opened Figures

  datatype Key = Reset | Down | Up | Left | Right | RotateLeft | RotateRight | Quit | Other

  datatype State = State(settled: Board, fig: Figure, x: int, y: int, next: Figure, over: bool)

  /** The figures of the game, by the number that is drawn for the next one. */
  function Catalog(n: nat): (fig: Figure)
    ensures Shaped(fig) && fig.color != 0
  {
    if n % 4 == 0 then Figure([0x22, 0x23, 0x24, 0x32], 1)
    else if n % 4 == 1 then Figure([0x22, 0x23, 0x24, 0x12], 2)
    else if n % 4 == 2 then Figure([0x22, 0x23, 0x32, 0x33], 3)
    else Figure([0x21, 0x22, 0x23, 0x24], 4)
  }

  /** The active figure is on free cells of the settled board. */
  ghost predicate Sound(s: State, cols: nat) {
    && 0 < cols && 0 < |s.settled| && IsBoard(s.settled, cols)
    && Shaped(s.fig) && Shaped(s.next)
    && (!s.over ==> Free(s.settled, cols, s.fig, s.x, s.y))
  }

  /** What the cup shows: the settled board and, in a running game, the figure on it. */
  function Shown(s: State, cols: nat): (b: Board)
    requires IsBoard(s.settled, cols) && |s.fig.f| == 4
  {
    if s.over then s.settled else Paint(s.settled, cols, s.fig, s.x, s.y, s.fig.color, 4)
  }

  function Start(rows: nat, cols: nat, n: nat): State {
    State(EmptyRows(cols, rows), Catalog(0), (cols - 1) / 2, rows - 1, Catalog(n), false)
  }

  function Moved(s: State, cols: nat, dx: int, dy: int): State
    requires IsBoard(s.settled, cols)
  {
    if Fits(s.settled, cols, s.fig, s.x + dx, s.y + dy) then s.(x := s.x + dx, y := s.y + dy) else s
  }

  function Rotated(s: State, cols: nat, cw: bool): State
    requires IsBoard(s.settled, cols) && Shaped(s.fig)
  {
    if Fits(s.settled, cols, Turned(cw, s.fig), s.x, s.y) then s.(fig := Turned(cw, s.fig)) else s
  }

  /** The active figure back at the top, or the end of the game if there is no room. */
  function Placed(s: State, cols: nat): State
    requires 0 < cols && IsBoard(s.settled, cols)
  {
    var t := s.(x := (cols - 1) / 2, y := |s.settled| - 1);
    t.(over := !Fits(t.settled, cols, t.fig, t.x, t.y))
  }

  /** The figure joins the settled board, full rows are rolled away, and the next one starts. */
  function Locked(s: State, cols: nat, n: nat): State
    requires 0 < cols && 0 < |s.settled| && IsBoard(s.settled, cols) && |s.fig.f| == 4
  {
    var b := Paint(s.settled, cols, s.fig, s.x, s.y, s.fig.color, 4);
    RollBoard(b, cols, |b|, |b| - 1);
    Placed(s.(settled := Roll(b, |b|, |b| - 1), fig := s.next, next := Catalog(n)), cols)
  }

  predicate Locks(s: State, cols: nat, key: Key)
    requires IsBoard(s.settled, cols)
  {
    key == Down && !Fits(s.settled, cols, s.fig, s.x, s.y - 1)
  }

  /** One key in a running game; n is the number drawn if a new figure is needed. */
  function Step(s: State, cols: nat, key: Key, n: nat): State
    requires 0 < cols && 0 < |s.settled| && IsBoard(s.settled, cols) && Shaped(s.fig)
  {
    match key
    case Reset => Placed(s, cols)
    case Down => if Locks(s, cols, key) then Locked(s, cols, n) else Moved(s, cols, 0, -1)
    case Up => Moved(s, cols, 0, 1)
    case Left => Moved(s, cols, -1, 0)
    case Right => Moved(s, cols, 1, 0)
    case RotateLeft => Rotated(s, cols, false)
    case RotateRight => Rotated(s, cols, true)
    case Quit => s
    case Other => s
  }

  lemma {:induction false} RollBoard(b: Board, cols: nat, y: nat, upper: nat)
    requires IsBoard(b, cols) && y <= |b| && (y > 0 ==> y - 1 <= upper < |b|)
    ensures IsBoard(Roll(b, y, upper), cols)
    decreases y
  {
    hide Full, Empty;
    if y > 0 {
      RollNext(b, y, upper);
      RollBoard(Next(b, y, upper).0, cols, y - 1, Next(b, y, upper).1);
    }
  }

  lemma PlacedKeeps(s: State, cols: nat)
    requires Sound(s, cols)
    ensures Sound(Placed(s, cols), cols)
  {
    hide Fits, Free, Shaped;
    var t := Placed(s, cols);
    if !t.over { FitsIsFree(t.settled, cols, t.fig, t.x, t.y); }
  }

  lemma LockedKeeps(s: State, cols: nat, n: nat)
    requires Sound(s, cols)
    ensures Sound(Locked(s, cols, n), cols)
  {
    hide Fits, Free, Roll, Paint, Catalog;
    var b := Paint(s.settled, cols, s.fig, s.x, s.y, s.fig.color, 4);
    RollBoard(b, cols, |b|, |b| - 1);
    PlacedKeeps(s.(settled := Roll(b, |b|, |b| - 1), fig := s.next, next := Catalog(n), over := true), cols);
  }

  /** Every key keeps the figure on free cells. */
  lemma StepKeeps(s: State, cols: nat, key: Key, n: nat)
    requires Sound(s, cols) && !s.over
    ensures Sound(Step(s, cols, key, n), cols)
  {
    hide Fits, Free, Roll, Paint, Locked, Placed;
    var t := Step(s, cols, key, n);
    PlacedKeeps(s, cols);
    LockedKeeps(s, cols, n);
    TurnInverse(false, s.fig);
    TurnInverse(true, s.fig);
    if Fits(t.settled, cols, t.fig, t.x, t.y) { FitsIsFree(t.settled, cols, t.fig, t.x, t.y); }
  }

  /** The keys are handled until the game is over or left. */
  ghost function Run(s: State, cols: nat, keys: seq<(Key, nat)>): (t: State)
    requires Sound(s, cols)
    ensures Sound(t, cols)
    decreases |keys|
  {
    if s.over || keys == [] || keys[0].0 == Quit then s
    else
      StepKeeps(s, cols, keys[0].0, keys[0].1);
      Run(Step(s, cols, keys[0].0, keys[0].1), cols, keys[1..])
  }
}

/** Games in which the figure's centre stays below the rim: their settled boards are stacks. */
module TidyGames {
  import opened Rows
  import opened Figures
  import opened GameRules

  /** One of the figure's cells has these offsets. */
  predicate Has(fig: Figure, a: int, b: int) {
    exists i :: 0 <= i < |fig.f| && GetX(fig.f[i]) == a && GetY(fig.f[i]) == b
  }

  /** With each cell the figure has the neighbours of the cell on the way to the centre. */
  ghost predicate Tapered(fig: Figure) {
    && Has(fig, 0, 0)
    && forall a, b :: Has(fig, a, b) ==> Inward(fig, a, b)
  }

  ghost predicate Inward(fig: Figure, a: int, b: int) {
    && (a > 0 ==> Has(fig, a - 1, b)) && (a < 0 ==> Has(fig, a + 1, b))
    && (b > 0 ==> Has(fig, a, b - 1)) && (b < 0 ==> Has(fig, a, b + 1))
  }

  lemma CatalogTapered(n: nat)
    ensures Tapered(Catalog(n))
  {
    var fig := Catalog(n);
    assert GetX(fig.f[0]) == 0 && GetY(fig.f[0]) <= 0;
    if n % 4 == 3 { assert Cell(fig, 1, 0, 0); } else { assert Cell(fig, 0, 0, 0); }
    forall a, b | Has(fig, a, b) ensures Inward(fig, a, b) {
      var i :| 0 <= i < |fig.f| && GetX(fig.f[i]) == a && GetY(fig.f[i]) == b;
      CatalogInward(n, i);
    }
  }

  predicate Cell(fig: Figure, i: nat, a: int, b: int) {
    i < |fig.f| && GetX(fig.f[i]) == a && GetY(fig.f[i]) == b
  }

  lemma CatalogInward(n: nat, i: nat)
    requires i < 4
    ensures Inward(Catalog(n), GetX(Catalog(n).f[i]), GetY(Catalog(n).f[i]))
  {
    hide Has;
    var fig := Catalog(n);
    HasCell(fig, 0);
    HasCell(fig, 1);
    HasCell(fig, 2);
  }

  lemma HasCell(fig: Figure, i: nat)
    requires i < |fig.f|
    ensures Has(fig, GetX(fig.f[i]), GetY(fig.f[i]))
  {
  }

  lemma TurnedHas(cw: bool, fig: Figure, a: int, b: int)
    requires Shaped(fig)
    ensures Has(fig, a, b) ==> Has(Turned(cw, fig), if cw then b else -b, if cw then -a else a)
  {
    hide TurnByte;
    if Has(fig, a, b) {
      var i :| 0 <= i < |fig.f| && GetX(fig.f[i]) == a && GetY(fig.f[i]) == b;
      TurnByteMeaning(cw, fig.f[i]);
      assert Turned(cw, fig).f[i] == TurnByte(cw, fig.f[i]);
    }
  }

  lemma TurnedTapered(cw: bool, fig: Figure)
    requires Shaped(fig) && Tapered(fig)
    ensures Tapered(Turned(cw, fig))
  {
    hide Turned, Has, Shaped;
    var t := Turned(cw, fig);
    TurnInverse(cw, fig);
    TurnedHas(cw, fig, 0, 0);
    forall a, b | Has(t, a, b) ensures Inward(t, a, b) {
      TurnedHas(!cw, t, a, b);
      var a0, b0 := if cw then -b else b, if cw then a else -a;
      assert Has(fig, a0, b0) && Inward(fig, a0, b0);
      TurnedHas(cw, fig, a0 - 1, b0);
      TurnedHas(cw, fig, a0 + 1, b0);
      TurnedHas(cw, fig, a0, b0 - 1);
      TurnedHas(cw, fig, a0, b0 + 1);
    }
  }

  /** A cell's column meets the centre row, and its row and the rows on the way are all met. */
  lemma {:induction false} ColumnToCentre(fig: Figure, a: int, b: int)
    requires Tapered(fig) && Has(fig, a, b)
    ensures Has(fig, a, 0)
    decreases if b < 0 then -b else b
  {
    hide Has;
    assert Inward(fig, a, b);
    if b > 0 { ColumnToCentre(fig, a, b - 1); }
    if b < 0 { ColumnToCentre(fig, a, b + 1); }
  }

  lemma {:induction false} RowsToCentre(fig: Figure, a: int, b: int, d: int)
    requires Tapered(fig) && Has(fig, a, b) && (0 <= d <= b || b <= d <= 0)
    ensures Has(fig, a, d)
    decreases if b < 0 then -b else b
  {
    hide Has;
    assert Inward(fig, a, b);
    if d != b { RowsToCentre(fig, a, if b > 0 then b - 1 else b + 1, d); }
  }

  /** A figure that fits with its centre in the cup has no cell beside the cup. */
  lemma BesideNever(b: Board, cols: nat, fig: Figure, x: int, y: int, i: nat)
    requires IsBoard(b, cols) && Tapered(fig) && Fits(b, cols, fig, x, y) && y < |b| && i < |fig.f|
    ensures 0 <= CellX(fig, x, i) < cols && 0 <= CellY(fig, y, i)
  {
    assert CellFits(b, cols, CellX(fig, x, i), CellY(fig, y, i));
    var a, d := GetX(fig.f[i]), GetY(fig.f[i]);
    assert Has(fig, a, d);
    ColumnToCentre(fig, a, d);
    var j :| 0 <= j < |fig.f| && GetX(fig.f[j]) == a && GetY(fig.f[j]) == 0;
    assert CellFits(b, cols, CellX(fig, x, j), CellY(fig, y, j));
  }

  ghost function Drawn(s: State, cols: nat): (d: Board)
    requires IsBoard(s.settled, cols) && |s.fig.f| == 4
    ensures |d| == |s.settled| && IsBoard(d, cols)
  {
    Paint(s.settled, cols, s.fig, s.x, s.y, s.fig.color, 4)
  }

  /** The settled rows are a stack, and the active figure, of one of the known shapes, fits where it is. */
  ghost predicate Standing(s: State, cols: nat) {
    && Sound(s, cols) && Stacked(s.settled)
    && Tapered(s.fig) && Tapered(s.next) && s.fig.color != 0 && s.next.color != 0
    && (!s.over ==> Fits(s.settled, cols, s.fig, s.x, s.y))
  }

  /** And the figure's centre is below the rim. */
  ghost predicate Tidy(s: State, cols: nat) {
    Standing(s, cols) && (!s.over ==> s.y < |s.settled|)
  }

  /** The figure has a cell in row r of the cup. */
  ghost predicate Enters(s: State, cols: nat, r: int) {
    0 <= r < |s.settled| &&
    exists i: nat :: i < |s.fig.f| && CellY(s.fig, s.y, i) == r && 0 <= CellX(s.fig, s.x, i) < cols
  }

  /** With a row the figure enters all rows on the way to its centre. */
  lemma EntersBetween(s: State, cols: nat, r: int, q: int)
    requires Tapered(s.fig) && Enters(s, cols, r) && (s.y <= q <= r || r <= q <= s.y) && 0 <= q < |s.settled|
    ensures Enters(s, cols, q)
  {
    hide Tapered;
    var i: nat :| i < |s.fig.f| && CellY(s.fig, s.y, i) == r && 0 <= CellX(s.fig, s.x, i) < cols;
    var a := GetX(s.fig.f[i]);
    assert Has(s.fig, a, r - s.y);
    RowsToCentre(s.fig, a, r - s.y, q - s.y);
    var j :| 0 <= j < |s.fig.f| && GetX(s.fig.f[j]) == a && GetY(s.fig.f[j]) == q - s.y;
    assert CellY(s.fig, s.y, j) == q && CellX(s.fig, s.x, j) == CellX(s.fig, s.x, i);
  }

  /** A row with something in it is a settled one, or one that the figure enters. */
  lemma DrawnRow(s: State, cols: nat, r: nat)
    requires Standing(s, cols) && !s.over && r < |s.settled|
    ensures !Empty(Drawn(s, cols)[r]) <==> !Empty(s.settled[r]) || Enters(s, cols, r)
  {
    hide Tapered, Paint, Stacked, Fits;
    var b, d := s.settled, Drawn(s, cols);
    assert |d[r]| == cols == |b[r]|;
    if Enters(s, cols, r) {
      var i: nat :| i < |s.fig.f| && CellY(s.fig, s.y, i) == r && 0 <= CellX(s.fig, s.x, i) < cols;
      var c := CellX(s.fig, s.x, i);
      PaintAt(b, cols, s.fig, s.x, s.y, s.fig.color, 4, r, c);
      assert Covers(s.fig, s.x, s.y, 4, r, c);
      assert d[r][c] != 0;
    } else {
      forall c: nat | c < cols ensures d[r][c] == b[r][c] {
        PaintAt(b, cols, s.fig, s.x, s.y, s.fig.color, 4, r, c);
      }
      assert d[r] == b[r];
    }
    if !Empty(b[r]) {
      var c: nat :| c < cols && b[r][c] != 0;
      PaintAt(b, cols, s.fig, s.x, s.y, s.fig.color, 4, r, c);
      assert d[r][c] != 0;
    }
  }

  /** The figure's lowest cell in the cup, if it has any there, is not above the top of the stack. */
  ghost predicate Rests(s: State, cols: nat) {
    (exists r :: Enters(s, cols, r)) ==> exists q :: Enters(s, cols, q) && OnTop(s, q)
  }

  /** Row q is the floor, or the row below it is taken. */
  ghost predicate OnTop(s: State, q: int) { q == 0 || (0 < q <= |s.settled| && !Empty(s.settled[q - 1])) }

  /** From any row the figure enters, the rows below lead to one that is on top of the stack. */
  lemma {:induction false} RestFound(s: State, cols: nat, r: nat)
    requires Standing(s, cols) && !s.over && Stacked(Drawn(s, cols)) && Enters(s, cols, r)
    ensures Rests(s, cols)
    decreases r
  {
    hide Tapered, Drawn, Fits, Empty, Free;
    if !OnTop(s, r) {
      DrawnRow(s, cols, r);
      DrawnRow(s, cols, r - 1);
      assert !Empty(Drawn(s, cols)[r]);
      RestFound(s, cols, r - 1);
    }
  }

  /** The board with the figure locked into it has no gap between its rows just when the figure rests. */
  lemma LockExactly(s: State, cols: nat)
    requires Standing(s, cols) && !s.over
    ensures Stacked(Drawn(s, cols)) <==> Rests(s, cols)
  {
    hide Tapered, Drawn, Fits, Empty, Enters, Free;
    var d := Drawn(s, cols);
    if Rests(s, cols) {
      forall e, g | 0 <= e < g < |d| && Empty(d[e]) ensures Empty(d[g]) { RestLeavesNoGap(s, cols, e, g); }
    } else {
      if Stacked(d) {
        var r :| Enters(s, cols, r);
        EntersInside(s, cols, r);
        RestFound(s, cols, r);
      }
    }
  }

  lemma EntersInside(s: State, cols: nat, r: int)
    requires Enters(s, cols, r)
    ensures 0 <= r < |s.settled|
  {
  }

  lemma RestLeavesNoGap(s: State, cols: nat, e: nat, g: nat)
    requires Standing(s, cols) && !s.over && Rests(s, cols) && e < g < |s.settled|
    ensures Empty(Drawn(s, cols)[e]) ==> Empty(Drawn(s, cols)[g])
  {
    hide Tapered, Drawn, Fits, Empty, Enters, Free;
    DrawnRow(s, cols, e);
    DrawnRow(s, cols, g);
    if !Empty(s.settled[e]) || Enters(s, cols, e) || !Enters(s, cols, g) { return; }
    var q :| Enters(s, cols, q) && OnTop(s, q);
    if s.y <= e {
      EntersBetween(s, cols, g, e);
    } else if q <= e {
      EntersBetween(s, cols, q, e);
    }
  }

  /** A figure that cannot go down, with its centre in the cup, stands on the floor or on something settled. */
  lemma Supported(s: State, cols: nat)
    requires Tidy(s, cols) && !s.over && !Fits(s.settled, cols, s.fig, s.x, s.y - 1)
    ensures Rests(s, cols)
  {
    hide Tapered, Stacked;
    CentreEnters(s, cols);
    if s.y == 0 {
      assert OnTop(s, 0);
    } else {
      var i: nat :| i < |s.fig.f| &&
        !CellFits(s.settled, cols, CellX(s.fig, s.x, i), CellY(s.fig, s.y - 1, i));
      BesideNever(s.settled, cols, s.fig, s.x, s.y, i);
      var r := CellY(s.fig, s.y, i);
      if r < |s.settled| {
        assert Enters(s, cols, r) && OnTop(s, r);
      } else {
        FullStack(s.settled, s.y - 1);
        assert OnTop(s, s.y);
      }
    }
  }

  lemma FullStack(b: Board, r: nat)
    requires Stacked(b) && r < |b| && !Empty(b[|b| - 1])
    ensures !Empty(b[r])
  {
    hide Empty;
  }

  lemma CentreEnters(s: State, cols: nat)
    requires Tidy(s, cols) && !s.over
    ensures Enters(s, cols, s.y)
  {
    hide Stacked;
    var i :| 0 <= i < |s.fig.f| && GetX(s.fig.f[i]) == 0 && GetY(s.fig.f[i]) == 0;
    assert CellY(s.fig, s.y, i) == s.y && CellX(s.fig, s.x, i) == s.x;
  }

  lemma {:induction false} RollMembers(b: Board, y: nat, upper: nat, r: nat)
    requires y <= |b| && (y > 0 ==> y - 1 <= upper < |b|) && r < |b|
    ensures Roll(b, y, upper)[r] in b
    decreases y
  {
    hide Full, Empty, Roll;
    if y > 0 {
      RollNext(b, y, upper);
      RollMembers(Next(b, y, upper).0, y - 1, Next(b, y, upper).1, r);
    } else {
      assert Roll(b, 0, upper) == b by { RollIdle(b, 0, upper); }
    }
  }

  lemma RollStacked(b: Board, cols: nat)
    requires IsBoard(b, cols) && 0 < cols && 0 < |b| && Stacked(b)
    ensures Stacked(Roll(b, |b|, |b| - 1))
    ensures Roll(b, |b|, |b| - 1) == Compacted(b, cols) <==> (HasFull(b) ==> Empty(b[|b| - 1]))
  {
    hide Full, Empty, Roll, Compacted;
    RollExactly(b, cols);
    if Empty(b[|b| - 1]) {
      StackedRolls(b, cols);
    } else {
      var t := Roll(b, |b|, |b| - 1);
      forall r: nat | r < |b| ensures !Empty(t[r]) {
        RollMembers(b, |b|, |b| - 1, r);
        var i :| 0 <= i < |b| && b[i] == t[r];
      }
    }
  }

  /** A key keeps the stack, unless it locks a figure that does not rest. */
  lemma StepStanding(s: State, cols: nat, key: Key, n: nat)
    requires Standing(s, cols) && !s.over && (Locks(s, cols, key) ==> Rests(s, cols))
    ensures Standing(Step(s, cols, key, n), cols)
    ensures Locks(s, cols, key) ==>
      var d := Drawn(s, cols);
      Step(s, cols, key, n).settled == Compacted(d, cols) <==> (HasFull(d) ==> Empty(d[|d| - 1]))
  {
    hide Tapered, Fits, Stacked, Roll, Paint, Compacted, HasFull, Empty, Free, Catalog, Rests;
    StepKeeps(s, cols, key, n);
    TurnInverse(true, s.fig);
    TurnInverse(false, s.fig);
    TurnedTapered(true, s.fig);
    TurnedTapered(false, s.fig);
    if Locks(s, cols, key) {
      LockExactly(s, cols);
      RollStacked(Drawn(s, cols), cols);
      CatalogTapered(n);
    }
  }

  /** The key takes the figure's centre over the rim. */
  predicate Lifts(s: State, cols: nat, key: Key)
    requires IsBoard(s.settled, cols)
  {
    key == Up && s.y == |s.settled| - 1 && Fits(s.settled, cols, s.fig, s.x, s.y + 1)
  }

  /** Every other key keeps the game tidy, and this one never does. */
  lemma StepTidy(s: State, cols: nat, key: Key, n: nat)
    requires Tidy(s, cols) && !s.over
    ensures Tidy(Step(s, cols, key, n), cols) <==> !Lifts(s, cols, key)
  {
    hide Tapered, Fits, Stacked, Roll, Paint, Free, Catalog, Rests, Sound, Turned;
    assert IsBoard(s.settled, cols) && Shaped(s.fig) by { SoundParts(s, cols); }
    if Locks(s, cols, key) { Supported(s, cols); }
    if !Lifts(s, cols, key) { StepStanding(s, cols, key, n); }
  }

  lemma SoundParts(s: State, cols: nat)
    requires Sound(s, cols)
    ensures 0 < cols && 0 < |s.settled| && IsBoard(s.settled, cols) && Shaped(s.fig)
  {
  }

  /** No key of the run takes the centre of the figure over the rim of the cup. */
  ghost predicate StaysInside(s: State, cols: nat, keys: seq<(Key, nat)>)
    requires Sound(s, cols)
    decreases |keys|
  {
    s.over || keys == [] || keys[0].0 == Quit ||
    (StepKeeps(s, cols, keys[0].0, keys[0].1);
     !Lifts(s, cols, keys[0].0) && StaysInside(Step(s, cols, keys[0].0, keys[0].1), cols, keys[1..]))
  }

  /** Every figure that the run locks rests on the stack. */
  ghost predicate AlwaysRests(s: State, cols: nat, keys: seq<(Key, nat)>)
    requires Sound(s, cols)
    decreases |keys|
  {
    s.over || keys == [] || keys[0].0 == Quit ||
    (StepKeeps(s, cols, keys[0].0, keys[0].1);
     (Locks(s, cols, keys[0].0) ==> Rests(s, cols)) && AlwaysRests(Step(s, cols, keys[0].0, keys[0].1), cols, keys[1..]))
  }

  /** Every board that the run locks a figure into is a stack of rows without gaps. */
  ghost predicate AlwaysStacked(s: State, cols: nat, keys: seq<(Key, nat)>)
    requires Sound(s, cols)
    decreases |keys|
  {
    s.over || keys == [] || keys[0].0 == Quit ||
    (StepKeeps(s, cols, keys[0].0, keys[0].1);
     (Locks(s, cols, keys[0].0) ==> Stacked(Drawn(s, cols))) && AlwaysStacked(Step(s, cols, keys[0].0, keys[0].1), cols, keys[1..]))
  }

  /** Over a whole run the locked boards are stacks just when every locked figure rests. */
  lemma {:induction false} RunExactly(s: State, cols: nat, keys: seq<(Key, nat)>)
    requires Standing(s, cols)
    ensures AlwaysStacked(s, cols, keys) <==> AlwaysRests(s, cols, keys)
    ensures AlwaysRests(s, cols, keys) ==> Standing(Run(s, cols, keys), cols)
    decreases |keys|
  {
    hide Step, Stacked, Tapered, Fits, Free, Rests, Drawn;
    if !(s.over || keys == [] || keys[0].0 == Quit) {
      StepKeeps(s, cols, keys[0].0, keys[0].1);
      LockExactly(s, cols);
      if Locks(s, cols, keys[0].0) ==> Rests(s, cols) {
        StepStanding(s, cols, keys[0].0, keys[0].1);
        RunExactly(Step(s, cols, keys[0].0, keys[0].1), cols, keys[1..]);
      }
    }
  }

  /** A run that stays inside is such a run, and ends tidy. */
  lemma {:induction false} RunTidy(s: State, cols: nat, keys: seq<(Key, nat)>)
    requires Tidy(s, cols) && StaysInside(s, cols, keys)
    ensures Tidy(Run(s, cols, keys), cols) && AlwaysRests(s, cols, keys)
    decreases |keys|
  {
    hide Step, Stacked, Tapered, Fits, Free, Rests, Lifts;
    if !(s.over || keys == [] || keys[0].0 == Quit) {
      StepKeeps(s, cols, keys[0].0, keys[0].1);
      if Locks(s, cols, keys[0].0) { Supported(s, cols); }
      StepTidy(s, cols, keys[0].0, keys[0].1);
      RunTidy(Step(s, cols, keys[0].0, keys[0].1), cols, keys[1..]);
    }
  }

  lemma StartTidy(rows: nat, cols: nat, n: nat)
    requires 0 < rows && 1 < cols
    ensures Tidy(Start(rows, cols, n), cols)
  {
    hide Tapered;
    var s := Start(rows, cols, n);
    CatalogTapered(0);
    CatalogTapered(n);
    forall i: nat | i < 4 ensures CellFits(s.settled, cols, CellX(s.fig, s.x, i), CellY(s.fig, s.y, i)) {
      assert GetX(s.fig.f[i]) == (if i == 3 then 1 else 0) && GetY(s.fig.f[i]) >= 0;
    }
    FitsIsFree(s.settled, cols, s.fig, s.x, s.y);
  }

  /** In a cup of two by two, two keys Down lock the first figure as a high pile. */
  lemma PileInGame(n: nat, m: nat)
    ensures Sound(Start(2, 2, n), 2)
    ensures Run(Start(2, 2, n), 2, [(Down, m), (Down, m)]).settled == [[1, 0], [1, 0]]
    ensures Compacted([[1, 1], [1, 0]], 2) == [[1, 0], [0, 0]]
  {
    hide Sound, Fits, Step, Run, Rollable, Compacted, Roll, HighPile, PartRows, PartRow, EmptyRow;
    var s := Start(2, 2, n);
    StartTidy(2, 2, n);
    assert Sound(s, 2) by { TidySound(s, 2); }
    PileFalls(n, m);
    RunOnce(s, 2, [(Down, m), (Down, m)]);
    var low := s.(y := 0);
    RunOnce(low, 2, [(Down, m)]);
    assert [(Down, m), (Down, m)][1..] == [(Down, m)];
    PileLocks(low, m);
    TopRowDoubled(2, 2);
    SmallRows();
  }

  lemma PileFalls(n: nat, m: nat)
    ensures Step(Start(2, 2, n), 2, Down, m) == Start(2, 2, n).(y := 0)
  {
    var s := Start(2, 2, n);
    forall i: nat | i < 4 ensures CellFits(s.settled, 2, CellX(s.fig, 0, i), CellY(s.fig, 0, i)) {
      assert GetX(s.fig.f[i]) == (if i == 3 then 1 else 0) && GetY(s.fig.f[i]) >= 0;
    }
  }

  lemma PileLocks(s: State, m: nat)
    requires s.settled == EmptyRows(2, 2) && s.x == 0 && s.y == 0 && !s.over && s.fig == Catalog(0)
    ensures Step(s, 2, Down, m).settled == Roll(HighPile(2, 2), 2, 1)
  {
    hide Roll, Paint, Full, Placed, Empty;
    assert !Fits(s.settled, 2, s.fig, 0, -1);
    var d := Drawn(s, 2);
    forall r: nat, c: nat | r < 2 && c < 2
      ensures d[r][c] == if r == 1 && c == 1 then 0 else 1
    {
      PaintAt(s.settled, 2, s.fig, 0, 0, 1, 4, r, c);
      assert c == 0 && r == 0 ==> CellX(s.fig, 0, 0) == c && CellY(s.fig, 0, 0) == r;
      assert c == 0 && r == 1 ==> CellX(s.fig, 0, 1) == c && CellY(s.fig, 0, 1) == r;
      assert c == 1 && r == 0 ==> CellX(s.fig, 0, 3) == c && CellY(s.fig, 0, 3) == r;
    }
    SmallRows();
    assert d[0] == [1, 1] && d[1] == [1, 0];
    assert d == [[1, 1], [1, 0]];
    LockedBoard(s, 2, m);
  }

  /** Up, then all the way to the left, then two turns to the right, then down. */
  function FloatingKeys(cols: nat, m: nat): seq<(Key, nat)>
    requires 0 < cols
  {
    [(Up, m)] + seq((cols - 1) / 2, _ => (Left, m)) + [(RotateRight, m), (RotateRight, m), (Down, m)]
  }

  /**
    Above the rim the sides of the cup do not count, so a figure can stand there half outside;
    it then cannot go down and is locked where it hangs. In the cup of 30 rows and 15 columns
    the keys are Up, seven times Left, twice RotateRight and Down.
   */
  lemma FloatingLock(rows: nat, cols: nat, n: nat, m: nat)
    requires 3 <= rows && 2 <= cols
    ensures Sound(Start(rows, cols, n), cols)
    ensures !Stacked(Run(Start(rows, cols, n), cols, FloatingKeys(cols, m)).settled)
  {
    hide Sound, Fits, Stacked, Step, Run;
    var s := Start(rows, cols, n);
    StartTidy(rows, cols, n);
    assert Sound(s, cols) by { TidySound(s, cols); }
    var x := (cols - 1) / 2;
    var last := [(RotateRight, m), (RotateRight, m), (Down, m)];
    var lefts := seq(x, _ => (Left, m));
    var up := s.(y := rows);
    var left := up.(x := 0);
    var side := left.(fig := Figure([0x22, 0x32, 0x42, 0x21], 1));
    var upside := left.(fig := Figure([0x22, 0x21, 0x20, 0x12], 1));
    FloatingUp(rows, cols, n, m);
    RunOnce(s, cols, FloatingKeys(cols, m));
    assert FloatingKeys(cols, m)[1..] == lefts + last;
    FloatingLeft(up, rows, cols, x, m, last);
    FloatingSide(left, side, rows, cols, m);
    RunOnce(left, cols, last);
    assert last[1..] == [(RotateRight, m), (Down, m)];
    FloatingUpside(side, upside, rows, cols, m);
    RunOnce(side, cols, last[1..]);
    assert last[1..][1..] == [(Down, m)];
    RunOnce(upside, cols, [(Down, m)]);
    FloatingBoard(upside, rows, cols, m);
  }

  lemma TidySound(s: State, cols: nat)
    requires Tidy(s, cols)
    ensures Sound(s, cols)
  {
  }

  lemma RunOnce(s: State, cols: nat, keys: seq<(Key, nat)>)
    requires Sound(s, cols) && !s.over && keys != [] && keys[0].0 != Quit
    ensures var t := Step(s, cols, keys[0].0, keys[0].1);
            Sound(t, cols) && Run(s, cols, keys) == Run(t, cols, keys[1..])
    ensures |keys| == 1 ==> Run(s, cols, keys) == Step(s, cols, keys[0].0, keys[0].1)
  {
    StepKeeps(s, cols, keys[0].0, keys[0].1);
  }

  lemma FloatingUp(rows: nat, cols: nat, n: nat, m: nat)
    requires 0 < rows && 2 <= cols
    ensures Step(Start(rows, cols, n), cols, Up, m) == Start(rows, cols, n).(y := rows)
  {
    AboveRim(EmptyRows(cols, rows), cols, (cols - 1) / 2);
  }

  /** The first figure fits anywhere above the rim. */
  lemma AboveRim(b: Board, cols: nat, x: nat)
    requires IsBoard(b, cols) && x < cols
    ensures Fits(b, cols, Catalog(0), x, |b|)
  {
    forall i: nat | i < 4 ensures CellFits(b, cols, CellX(Catalog(0), x, i), CellY(Catalog(0), |b|, i)) {
      assert GetY(Catalog(0).f[i]) >= 0;
    }
  }

  lemma {:induction false} FloatingLeft(s: State, rows: nat, cols: nat, x: nat, m: nat, last: seq<(Key, nat)>)
    requires 0 < rows && s.settled == EmptyRows(cols, rows) && s.x == x < cols && s.y == rows && s.fig == Catalog(0)
    requires Sound(s, cols) && !s.over
    ensures Sound(s.(x := 0), cols)
    ensures Run(s, cols, seq(x, _ => (Left, m)) + last) == Run(s.(x := 0), cols, last)
    decreases x
  {
    hide Sound, Fits, Run;
    var keys := seq(x, _ => (Left, m)) + last;
    if x == 0 {
      assert keys == last && s.(x := 0) == s;
    } else {
      AboveRim(s.settled, cols, x - 1);
      RunOnce(s, cols, keys);
      assert keys[1..] == seq(x - 1, _ => (Left, m)) + last;
      assert Step(s, cols, Left, m) == s.(x := x - 1);
      FloatingLeft(s.(x := x - 1), rows, cols, x - 1, m, last);
    }
  }

  lemma FloatingSide(up: State, side: State, rows: nat, cols: nat, m: nat)
    requires 2 <= rows && 2 <= cols
    requires up.settled == EmptyRows(cols, rows) && up.x == 0 && up.y == rows && up.fig == Catalog(0)
    requires side == up.(fig := Figure([0x22, 0x32, 0x42, 0x21], 1))
    ensures Step(up, cols, RotateRight, m) == side
  {
    assert Turned(true, up.fig) == side.fig;
    assert CellFits(side.settled, cols, CellX(side.fig, 0, 3), CellY(side.fig, rows, 3));
  }

  lemma FloatingUpside(side: State, upside: State, rows: nat, cols: nat, m: nat)
    requires 2 <= rows && 2 <= cols
    requires side.settled == EmptyRows(cols, rows) && side.x == 0 && side.y == rows
    requires side.fig == Figure([0x22, 0x32, 0x42, 0x21], 1)
    requires upside == side.(fig := Figure([0x22, 0x21, 0x20, 0x12], 1))
    ensures Shaped(side.fig) && Step(side, cols, RotateRight, m) == upside
  {
    assert Turned(true, side.fig) == upside.fig;
    assert CellFits(side.settled, cols, CellX(upside.fig, 0, 1), CellY(upside.fig, rows, 1));
    assert CellFits(side.settled, cols, CellX(upside.fig, 0, 2), CellY(upside.fig, rows, 2));
  }

  lemma FloatingBoard(s: State, rows: nat, cols: nat, m: nat)
    requires 3 <= rows && 2 <= cols
    requires s.settled == EmptyRows(cols, rows) && s.x == 0 && s.y == rows && !s.over
    requires s.fig == Figure([0x22, 0x21, 0x20, 0x12], 1)
    ensures Shaped(s.fig) && !Stacked(Step(s, cols, Down, m).settled)
  {
    hide Roll, Paint, Full, Placed;
    assert !CellFits(s.settled, cols, CellX(s.fig, 0, 3), CellY(s.fig, rows - 1, 3));
    assert Locks(s, cols, Down);
    var d := Drawn(s, cols);
    forall r: nat, c: nat | r < rows && c < cols
      ensures d[r][c] == if c == 0 && r >= rows - 2 then 1 else 0
    {
      PaintAt(s.settled, cols, s.fig, 0, rows, 1, 4, r, c);
      assert c == 0 && r == rows - 1 ==> CellX(s.fig, 0, 1) == c && CellY(s.fig, rows, 1) == r;
      assert c == 0 && r == rows - 2 ==> CellX(s.fig, 0, 2) == c && CellY(s.fig, rows, 2) == r;
    }
    forall r | 0 <= r < rows ensures !Full(d[r]) { NotFullAt(d[r], 1); }
    RollIdle(d, rows, rows - 1);
    assert Step(s, cols, Down, m).settled == d by { LockedBoard(s, cols, m); }
    assert Empty(d[0]) && d[rows - 1][0] != 0;
  }

  lemma NotFullAt(row: Row, c: nat)
    requires c < |row| && row[c] == 0
    ensures !Full(row)
  {
  }

  lemma LockedBoard(s: State, cols: nat, m: nat)
    requires 0 < cols && 0 < |s.settled| && IsBoard(s.settled, cols) && |s.fig.f| == 4
    ensures Locked(s, cols, m).settled == Roll(Drawn(s, cols), |s.settled|, |s.settled| - 1)
  {
  }
}

/** What each key does, said by the cells of the cup. */
module KeyMeanings {
  import opened Rows
  import opened Figures
  import opened GameRules

  /** The active figure covers row r of column c. */
  ghost predicate CoversCell(s: State, r: int, c: int) {
    exists i: nat :: i < |s.fig.f| && CellX(s.fig, s.x, i) == c && CellY(s.fig, s.y, i) == r
  }

  /** A cell that does not keep a figure out: above the cup, or in it and not taken. */
  ghost predicate Vacant(b: Board, cols: nat, r: int, c: int)
    requires IsBoard(b, cols)
  {
    r >= |b| || (0 <= r && 0 <= c < cols && b[r][c] == 0)
  }

  /** The centre at (x, y) is in a column of the cup and not under it, and no cell keeps the figure out. */
  ghost predicate RoomFor(b: Board, cols: nat, fig: Figure, x: int, y: int)
    requires IsBoard(b, cols)
  {
    && 0 <= x <= cols - 1 && 0 <= y
    && forall i: nat :: i < |fig.f| ==> Vacant(b, cols, CellY(fig, y, i), CellX(fig, x, i))
  }

  lemma FitsMeansRoom(b: Board, cols: nat, fig: Figure, x: int, y: int)
    requires IsBoard(b, cols)
    ensures Fits(b, cols, fig, x, y) <==> RoomFor(b, cols, fig, x, y)
  {
    if Fits(b, cols, fig, x, y) {
      forall i: nat | i < |fig.f| ensures Vacant(b, cols, CellY(fig, y, i), CellX(fig, x, i)) {
        assert CellFits(b, cols, CellX(fig, x, i), CellY(fig, y, i));
      }
    }
    if RoomFor(b, cols, fig, x, y) {
      forall i: nat | i < |fig.f| ensures CellFits(b, cols, CellX(fig, x, i), CellY(fig, y, i)) {
        assert Vacant(b, cols, CellY(fig, y, i), CellX(fig, x, i));
      }
    }
  }

  /** The cup shows the figure where it covers a cell of a running game, and the settled board elsewhere. */
  lemma ShownCell(s: State, cols: nat, r: nat, c: nat)
    requires IsBoard(s.settled, cols) && |s.fig.f| == 4 && r < |s.settled| && c < cols
    ensures Shown(s, cols)[r][c] == if !s.over && CoversCell(s, r, c) then s.fig.color else s.settled[r][c]
  {
    if !s.over { PaintAt(s.settled, cols, s.fig, s.x, s.y, s.fig.color, 4, r, c); }
  }

  /** The figure of t is that of s, moved by some columns and rows. */
  ghost predicate MovedBy(s: State, t: State, dx: int, dy: int) {
    && t.settled == s.settled && t.over == s.over && t.next == s.next && t.fig.color == s.fig.color
    && forall r, c :: CoversCell(t, r, c) <==> CoversCell(s, r - dy, c - dx)
  }

  lemma MovedCells(s: State, t: State, dx: int, dy: int)
    requires t == s.(x := s.x + dx, y := s.y + dy)
    ensures MovedBy(s, t, dx, dy)
  {
    forall r, c ensures CoversCell(t, r, c) <==> CoversCell(s, r - dy, c - dx) {
      if i: nat :| i < |s.fig.f| && CellX(s.fig, s.x, i) == c - dx && CellY(s.fig, s.y, i) == r - dy {
        assert CellX(t.fig, t.x, i) == c && CellY(t.fig, t.y, i) == r;
      }
      if i: nat :| i < |t.fig.f| && CellX(t.fig, t.x, i) == c && CellY(t.fig, t.y, i) == r {
        assert CellX(s.fig, s.x, i) == c - dx && CellY(s.fig, s.y, i) == r - dy;
      }
    }
  }

  /** With room on the side of its key the figure moves one column or row that way, and else nothing changes. */
  lemma MoveKeys(s: State, cols: nat, n: nat)
    requires Sound(s, cols) && !s.over
    ensures var t := Step(s, cols, Left, n);
            if RoomFor(s.settled, cols, s.fig, s.x - 1, s.y) then MovedBy(s, t, -1, 0) else t == s
    ensures var t := Step(s, cols, Right, n);
            if RoomFor(s.settled, cols, s.fig, s.x + 1, s.y) then MovedBy(s, t, 1, 0) else t == s
    ensures var t := Step(s, cols, Up, n);
            if RoomFor(s.settled, cols, s.fig, s.x, s.y + 1) then MovedBy(s, t, 0, 1) else t == s
    ensures RoomFor(s.settled, cols, s.fig, s.x, s.y - 1) ==> MovedBy(s, Step(s, cols, Down, n), 0, -1)
    ensures Step(s, cols, Quit, n) == s && Step(s, cols, Other, n) == s
  {
    hide Sound, Fits, RoomFor, MovedBy, Locked, Placed;
    assert IsBoard(s.settled, cols) && 0 < cols && 0 < |s.settled| && Shaped(s.fig) by { SoundBoard(s, cols); }
    FitsMeansRoom(s.settled, cols, s.fig, s.x - 1, s.y);
    FitsMeansRoom(s.settled, cols, s.fig, s.x + 1, s.y);
    FitsMeansRoom(s.settled, cols, s.fig, s.x, s.y + 1);
    FitsMeansRoom(s.settled, cols, s.fig, s.x, s.y - 1);
    MovedCells(s, s.(x := s.x - 1), -1, 0);
    MovedCells(s, s.(x := s.x + 1), 1, 0);
    MovedCells(s, s.(y := s.y + 1), 0, 1);
    MovedCells(s, s.(y := s.y - 1), 0, -1);
  }

  lemma SoundBoard(s: State, cols: nat)
    requires Sound(s, cols)
    ensures 0 < cols && 0 < |s.settled| && IsBoard(s.settled, cols) && Shaped(s.fig)
  {
  }

  /** A figure that came from the other side has room there, so the opposite key takes it back. */
  lemma OppositeKeys(s: State, cols: nat, n: nat, m: nat)
    requires Sound(s, cols) && !s.over && Fits(s.settled, cols, s.fig, s.x, s.y)
    ensures RoomFor(s.settled, cols, s.fig, s.x - 1, s.y) ==> Step(Step(s, cols, Left, n), cols, Right, m) == s
    ensures RoomFor(s.settled, cols, s.fig, s.x + 1, s.y) ==> Step(Step(s, cols, Right, n), cols, Left, m) == s
    ensures RoomFor(s.settled, cols, s.fig, s.x, s.y + 1) ==> Step(Step(s, cols, Up, n), cols, Down, m) == s
    ensures RoomFor(s.settled, cols, Turned(true, s.fig), s.x, s.y) ==>
      Shaped(Step(s, cols, RotateRight, n).fig) && Step(Step(s, cols, RotateRight, n), cols, RotateLeft, m) == s
    ensures RoomFor(s.settled, cols, Turned(false, s.fig), s.x, s.y) ==>
      Shaped(Step(s, cols, RotateLeft, n).fig) && Step(Step(s, cols, RotateLeft, n), cols, RotateRight, m) == s
  {
    hide Sound, Fits, RoomFor, Turned, Shaped, Locked, Placed;
    assert IsBoard(s.settled, cols) && 0 < cols && 0 < |s.settled| && Shaped(s.fig) by { SoundBoard(s, cols); }
    FitsMeansRoom(s.settled, cols, s.fig, s.x - 1, s.y);
    FitsMeansRoom(s.settled, cols, s.fig, s.x + 1, s.y);
    FitsMeansRoom(s.settled, cols, s.fig, s.x, s.y + 1);
    TurnInverse(true, s.fig);
    TurnInverse(false, s.fig);
    FitsMeansRoom(s.settled, cols, Turned(true, s.fig), s.x, s.y);
    FitsMeansRoom(s.settled, cols, Turned(false, s.fig), s.x, s.y);
  }

  /** The figure of t is that of s, a quarter to the right around its centre. */
  ghost predicate TurnedRight(s: State, t: State) {
    && t.settled == s.settled && t.over == s.over && t.next == s.next && t.x == s.x && t.y == s.y && t.fig.color == s.fig.color
    && forall a, b :: AtOffset(s, a, b) <==> AtOffset(t, b, -a)
  }

  /** The figure covers the cell a columns to the right of its centre and b rows above it. */
  ghost predicate AtOffset(s: State, a: int, b: int) { CoversCell(s, s.y + b, s.x + a) }

  lemma TurnedCells(s: State)
    requires Shaped(s.fig)
    ensures TurnedRight(s, s.(fig := Turned(true, s.fig)))
    ensures Shaped(Turned(false, s.fig)) && TurnedRight(s.(fig := Turned(false, s.fig)), s)
  {
    hide Turned, TurnedRight;
    TurnedRightCells(s);
    TurnInverse(false, s.fig);
    TurnedRightCells(s.(fig := Turned(false, s.fig)));
    SameColor(s.fig);
    assert s.(fig := Turned(true, Turned(false, s.fig))) == s;
  }

  lemma SameColor(fig: Figure)
    requires Shaped(fig)
    ensures Turned(true, fig).color == fig.color && Turned(false, fig).color == fig.color
  {
  }

  lemma TurnedRightCells(s: State)
    requires Shaped(s.fig)
    ensures TurnedRight(s, s.(fig := Turned(true, s.fig)))
  {
    hide Shaped, AtOffset, Turned;
    var t := s.(fig := Turned(true, s.fig));
    SameColor(s.fig);
    forall a, b ensures AtOffset(s, a, b) <==> AtOffset(t, b, -a) {
      TurnedCell(s, a, b);
    }
  }

  lemma TurnedCell(s: State, a: int, b: int)
    requires Shaped(s.fig)
    ensures var t := s.(fig := Turned(true, s.fig));
            AtOffset(s, a, b) <==> AtOffset(t, b, -a)
  {
    hide TurnByte;
    var t := s.(fig := Turned(true, s.fig));
    forall i: nat | i < 4 ensures GetX(t.fig.f[i]) == GetY(s.fig.f[i]) && GetY(t.fig.f[i]) == -GetX(s.fig.f[i]) {
      TurnByteMeaning(true, s.fig.f[i]);
    }
    if CoversCell(s, s.y + b, s.x + a) {
      var i: nat :| i < |s.fig.f| && CellX(s.fig, s.x, i) == s.x + a && CellY(s.fig, s.y, i) == s.y + b;
      assert CellX(t.fig, t.x, i) == t.x + b && CellY(t.fig, t.y, i) == t.y - a;
    }
    if CoversCell(t, t.y - a, t.x + b) {
      var i: nat :| i < |t.fig.f| && CellX(t.fig, t.x, i) == t.x + b && CellY(t.fig, t.y, i) == t.y - a;
      assert CellX(s.fig, s.x, i) == s.x + a && CellY(s.fig, s.y, i) == s.y + b;
    }
  }

  /** RotateRight turns the figure to the right and RotateLeft to the left, if there is room for it turned. */
  lemma TurnKeys(s: State, cols: nat, n: nat)
    requires Sound(s, cols) && !s.over
    ensures var t := Step(s, cols, RotateRight, n);
            if RoomFor(s.settled, cols, Turned(true, s.fig), s.x, s.y) then TurnedRight(s, t) else t == s
    ensures var t := Step(s, cols, RotateLeft, n);
            if RoomFor(s.settled, cols, Turned(false, s.fig), s.x, s.y) then TurnedRight(t, s) else t == s
  {
    hide Sound, Fits, RoomFor, Turned, TurnedRight, Shaped, Locked, Placed;
    assert IsBoard(s.settled, cols) && 0 < cols && 0 < |s.settled| && Shaped(s.fig) by { SoundBoard(s, cols); }
    FitsMeansRoom(s.settled, cols, Turned(true, s.fig), s.x, s.y);
    FitsMeansRoom(s.settled, cols, Turned(false, s.fig), s.x, s.y);
    TurnedCells(s);
  }

  /** Runs go on where they stopped, until Quit; after that, and after the end of the game, keys do nothing. */
  lemma {:induction false} RunsGoOn(s: State, cols: nat, a: seq<(Key, nat)>, b: seq<(Key, nat)>, n: nat)
    requires Sound(s, cols)
    ensures (forall i :: 0 <= i < |a| ==> a[i].0 != Quit) ==> Run(s, cols, a + b) == Run(Run(s, cols, a), cols, b)
    ensures Run(s, cols, [(Quit, n)] + b) == s
    ensures s.over ==> Run(s, cols, b) == s
    decreases |a|
  {
    hide Free, Step;
    if a == [] {
      assert a + b == b;
    } else if !s.over && a[0].0 != Quit {
      StepKeeps(s, cols, a[0].0, a[0].1);
      RunsGoOn(Step(s, cols, a[0].0, a[0].1), cols, a[1..], b, n);
      assert (a + b)[1..] == a[1..] + b && (a + b)[0] == a[0];
    }
  }

  /** The figure's centre is in the middle of the top row. */
  ghost predicate AtTop(t: State, cols: nat) { t.y == |t.settled| - 1 && (t.x == cols / 2 - 1 || 2 * t.x + 1 == cols) && (cols % 2 == 0 <==> t.x == cols / 2 - 1) }

  /**
    When the figure cannot go down, the rolled board with it becomes the settled one, and the
    next figure starts at the top if there is room for it there; else the game is over. Reset
    puts the figure itself there, or ends the game.
   */
  lemma PlaceKeys(s: State, cols: nat, n: nat)
    requires Sound(s, cols) && !s.over
    ensures !RoomFor(s.settled, cols, s.fig, s.x, s.y - 1) ==>
      var t, b := Step(s, cols, Down, n), Shown(s, cols);
      && t.settled == Roll(b, |b|, |b| - 1) && IsBoard(t.settled, cols)
      && t.fig == s.next && t.next == Catalog(n) && AtTop(t, cols)
      && (t.over <==> !RoomFor(t.settled, cols, s.next, t.x, t.y))
    ensures var t := Step(s, cols, Reset, n);
      && t.settled == s.settled && t.fig == s.fig && t.next == s.next && AtTop(t, cols)
      && (t.over <==> !RoomFor(t.settled, cols, s.fig, t.x, t.y))
  {
    hide Fits, RoomFor, Roll, Paint, Free, Catalog;
    FitsMeansRoom(s.settled, cols, s.fig, s.x, s.y - 1);
    var d := Paint(s.settled, cols, s.fig, s.x, s.y, s.fig.color, 4);
    RollBoard(d, cols, |d|, |d| - 1);
    var r := Step(s, cols, Reset, n);
    FitsMeansRoom(r.settled, cols, r.fig, r.x, r.y);
    FitsMeansRoom(Roll(d, |d|, |d| - 1), cols, s.next, (cols - 1) / 2, |d| - 1);
  }

  /** A new game shows the lower end of the first figure: two cells in the middle of the top row. */
  lemma StartShows(rows: nat, cols: nat, n: nat, r: nat, c: nat)
    requires r < rows && c < cols
    ensures var s := Start(rows, cols, n);
            && IsBoard(s.settled, cols) && AtTop(s, cols)
            && Shown(s, cols)[r][c] == if r == rows - 1 && (c == s.x || c == s.x + 1) then 1 else 0
  {
    var s := Start(rows, cols, n);
    ShownCell(s, cols, r, c);
    assert CellX(s.fig, s.x, 0) == s.x && CellY(s.fig, s.y, 0) == s.y;
    assert CellX(s.fig, s.x, 3) == s.x + 1 && CellY(s.fig, s.y, 3) == s.y;
    forall i: nat | i < 4 && CellY(s.fig, s.y, i) <= s.y ensures CellX(s.fig, s.x, i) == if i == 3 then s.x + 1 else s.x { }
    if CoversCell(s, r, c) {
      var i: nat :| i < 4 && CellX(s.fig, s.x, i) == c && CellY(s.fig, s.y, i) == r;
    }
  }

  /** The cells of the four figures around their centres, as columns and rows. */
  lemma FigureCells(s: State, a: int, b: int)
    ensures s.fig == Catalog(0) ==> (CoversCell(s, s.y + b, s.x + a) <==> (a, b) in {(0, 0), (0, 1), (0, 2), (1, 0)})
    ensures s.fig == Catalog(1) ==> (CoversCell(s, s.y + b, s.x + a) <==> (a, b) in {(0, 0), (0, 1), (0, 2), (-1, 0)})
    ensures s.fig == Catalog(2) ==> (CoversCell(s, s.y + b, s.x + a) <==> (a, b) in {(0, 0), (0, 1), (1, 0), (1, 1)})
    ensures s.fig == Catalog(3) ==> (CoversCell(s, s.y + b, s.x + a) <==> (a, b) in {(0, -1), (0, 0), (0, 1), (0, 2)})
  {
    if |s.fig.f| == 4 {
      FourCells(s, a, b);
      assert s.fig == Catalog(0) || s.fig == Catalog(1) || s.fig == Catalog(2) ==> s.fig.f[0] == 0x22;
    }
  }

  lemma FourCells(s: State, a: int, b: int)
    requires |s.fig.f| == 4
    ensures CoversCell(s, s.y + b, s.x + a) <==>
      || (GetX(s.fig.f[0]), GetY(s.fig.f[0])) == (a, b) || (GetX(s.fig.f[1]), GetY(s.fig.f[1])) == (a, b)
      || (GetX(s.fig.f[2]), GetY(s.fig.f[2])) == (a, b) || (GetX(s.fig.f[3]), GetY(s.fig.f[3])) == (a, b)
  {
    hide GetX, GetY;
    forall i: nat | i < 4 && (GetX(s.fig.f[i]), GetY(s.fig.f[i])) == (a, b) ensures CoversCell(s, s.y + b, s.x + a) {
      assert CellX(s.fig, s.x, i) == s.x + a && CellY(s.fig, s.y, i) == s.y + b;
    }
    if CoversCell(s, s.y + b, s.x + a) {
      var i: nat :| i < |s.fig.f| && CellX(s.fig, s.x, i) == s.x + a && CellY(s.fig, s.y, i) == s.y + b;
    }
  }
}

module TetrisGame {
  import opened Rows
  import opened Figures
  import opened GameRules

  ghost predicate FullFrom(b: Board, y: nat) { exists f :: y <= f < |b| && Full(b[f]) }

  lemma NoneFull(b: Board)
    ensures !FullFrom(b, |b|)
  {
  }

  lemma FullFromNext(b: Board, y: nat)
    requires y < |b|
    ensures FullFrom(b, y) <==> Full(b[y]) || FullFrom(b, y + 1)
  {
    hide Full;
  }

  lemma FullFromAll(b: Board)
    ensures FullFrom(b, 0) <==> HasFull(b)
  {
  }

  class Game {
    const cols: nat
    const cup: array<Row>
    var x: int
    var y: int
    var fig: Figure
    var next: Figure
    var over: bool
    ghost var settled: Board

    ghost function Now(): State
      reads this
    {
      State(settled, fig, x, y, next, over)
    }

    /** The cup shows the settled board and the active figure. */
    ghost predicate Valid()
      reads this, cup
    {
      && Sound(Now(), cols)
      && cup[..] == Shown(Now(), cols)
    }

    constructor (rows: nat, cols: nat, n: nat)
      requires 0 < rows && 0 < cols
      ensures Valid() && fresh(cup) && this.cols == cols && cup.Length == rows
      ensures Now() == Start(rows, cols, n)
    {
      this.cols := cols;
      cup := new Row[rows](_ => EmptyRow(cols));
      x, y := (cols - 1) / 2, rows - 1;
      fig, next, over := Catalog(0), Catalog(n), false;
      settled := EmptyRows(cols, rows);
      new;
      assert cup[..] == EmptyRows(cols, rows);
      PutFigure(x, y, fig);
    }

    /** Whether the figure can be put at (x, y). */
    method ChkFigure(x: int, y: int, fig: Figure) returns (ok: bool)
      requires IsBoard(cup[..], cols) && |fig.f| == 4
      ensures ok == Fits(cup[..], cols, fig, x, y)
    {
      if x < 0 || x > cols - 1 { return false; }
      if y < 0 { return false; }
      for i := 0 to 4
        invariant forall j: nat :: j < i ==> CellFits(cup[..], cols, CellX(fig, x, j), CellY(fig, y, j))
      {
        var xn, yn := x + GetX(fig.f[i]), y + GetY(fig.f[i]);
        assert xn == CellX(fig, x, i) && yn == CellY(fig, y, i);
        if yn > cup.Length - 1 { continue; }
        if xn < 0 || xn > cols - 1 || yn < 0 { return false; }
        if cup[..][yn][xn] != 0 { return false; }
      }
      return true;
    }

    method ClearFigure(x: int, y: int, fig: Figure)
      requires IsBoard(cup[..], cols) && |fig.f| == 4
      modifies cup
      ensures IsBoard(cup[..], cols)
      ensures cup[..] == Paint(old(cup[..]), cols, fig, x, y, 0, 4)
    {
      for i := 0 to 4
        invariant IsBoard(cup[..], cols)
        invariant cup[..] == Paint(old(cup[..]), cols, fig, x, y, 0, i)
      {
        var xn, yn := x + GetX(fig.f[i]), y + GetY(fig.f[i]);
        if xn < 0 || xn > cols - 1 || yn < 0 || yn > cup.Length - 1 { continue; }
        SetCell(xn, yn, 0);
      }
    }

    method PutFigure(x: int, y: int, fig: Figure)
      requires IsBoard(cup[..], cols) && |fig.f| == 4
      modifies cup
      ensures IsBoard(cup[..], cols)
      ensures cup[..] == Paint(old(cup[..]), cols, fig, x, y, fig.color, 4)
    {
      for i := 0 to 4
        invariant IsBoard(cup[..], cols)
        invariant cup[..] == Paint(old(cup[..]), cols, fig, x, y, fig.color, i)
      {
        var xn, yn := x + GetX(fig.f[i]), y + GetY(fig.f[i]);
        if xn < 0 || xn > cols - 1 || yn < 0 || yn > cup.Length - 1 { continue; }
        SetCell(xn, yn, fig.color);
      }
    }

    method SetCell(xn: nat, yn: nat, v: nat)
      requires IsBoard(cup[..], cols) && xn < cols && yn < cup.Length
      modifies cup
      ensures cup[..] == PaintCell(old(cup[..]), cols, xn, yn, v)
    {
      assert cup[yn] == cup[..][yn];
      cup[yn] := cup[yn][xn := v];
    }

    /** The figure turned in place, built cell by cell. */
    method RotateFigure(cw: bool, fig: Figure) returns (r: Figure)
      requires Shaped(fig)
      ensures r == Turned(cw, fig)
    {
      var f: seq<nat> := [];
      for i := 0 to 4
        invariant |f| == i && forall j :: 0 <= j < i ==> f[j] == TurnByte(cw, fig.f[j])
      {
        var x, y := GetX(fig.f[i]), GetY(fig.f[i]);
        var xn, yn := y, -x;
        if !cw { xn, yn := -y, x; }
        f := f + [(xn + 2) * 16 + (yn + 2)];
      }
      return Figure(f, fig.color);
    }

    /** Full rows are removed by copying the rows above down, one row at a time. */
    method CheckAndRoll() returns (ret: bool)
      requires 0 < cols && 0 < cup.Length && IsBoard(cup[..], cols)
      modifies cup
      ensures cup[..] == Roll(old(cup[..]), cup.Length, cup.Length - 1)
      ensures ret <==> HasFull(old(cup[..]))
    {
      hide *;
      ghost var b := cup[..];
      var upper := cup.Length - 1;
      ret := false;
      var y := cup.Length;
      assert b == cup[..];
      NoneFull(b);
      while y > 0
        invariant 0 <= y <= cup.Length == |b| && (y > 0 ==> y - 1 <= upper < cup.Length) && upper >= -1
        invariant IsBoard(cup[..], cols)
        invariant Roll(cup[..], y, if upper < 0 then 0 else upper) == Roll(b, |b|, |b| - 1)
        invariant cup[..y] == b[..y]
        invariant ret <==> FullFrom(b, y)
      {
        y := y - 1;
        PrefixRow(b, cup[..], y + 1);
        RollNext(cup[..], y + 1, upper);
        FullFromNext(b, y);
        var full;
        full, upper := ScanRow(y, upper);
        ret := ret || full;
      }
      FullFromAll(b);
      RollIdle(cup[..], 0, if upper < 0 then 0 else upper);
    }

    /** Row y counted, and the rows above it brought down if it is full. */
    method ScanRow(y: nat, top: nat) returns (full: bool, upper: int)
      requires 0 < cols && y <= top < cup.Length && IsBoard(cup[..], cols)
      modifies cup
      ensures full <==> Full(old(cup[..])[y])
      ensures IsBoard(cup[..], cols) && cup[..y] == old(cup[..y])
      ensures cup[..] == Next(old(cup[..]), y + 1, top).0
      ensures upper >= -1 && (if upper < 0 then 0 else upper) == Next(old(cup[..]), y + 1, top).1
      ensures y > 0 ==> upper >= 0
    {
      hide Full, Empty;
      ghost var was := cup[..];
      upper := top;
      assert cup[y] == was[y] && |was[y]| == cols;
      NotBoth(was[y]);
      var filled := CountFilled(cup[y]);
      if filled == 0 { upper := y; }
      full := filled == cols;
      if full {
        CopyDown(y, upper);
        ShiftRows(was, y, upper);
        assert cup[..y] == cup[..][..y] && was[..y] == old(cup[..y]);
        upper := upper - 1;
      }
    }

    method CountFilled(row: Row) returns (filled: nat)
      ensures filled == 0 <==> Empty(row)
      ensures filled == |row| <==> Full(row)
    {
      filled := 0;
      for x := 0 to |row|
        invariant filled <= x
        invariant filled == 0 <==> Empty(row[..x])
        invariant filled == x <==> Full(row[..x])
      {
        assert row[..x + 1] == row[..x] + [row[x]];
        if row[x] != 0 { filled := filled + 1; }
      }
      assert row[..|row|] == row;
    }

    method CopyDown(y: nat, upper: nat)
      requires y <= upper < cup.Length
      modifies cup
      ensures cup[..] == Shift(old(cup[..]), y, upper)
    {
      ghost var b := cup[..];
      for yy := y to upper
        invariant forall r :: 0 <= r < y || yy <= r < |b| ==> cup[r] == b[r]
        invariant forall r :: y <= r < yy ==> cup[r] == b[r + 1]
      {
        cup[yy] := cup[yy + 1];
      }
      ShiftRows(b, y, upper);
      assert forall r :: 0 <= r < y ==> Shift(b, y, upper)[r] == Shift(b, y, upper)[..y][r] == b[..y][r];
    }

    /** Clear, check, put: the settled board stays, and the figure moves if it fits there. */
    method MvFig(dx: int, dy: int) returns (ret: bool)
      requires Valid() && !over
      modifies this`x, this`y, cup
      ensures Valid()
      ensures Now() == Moved(old(Now()), cols, dx, dy)
      ensures ret == Fits(settled, cols, fig, old(x) + dx, old(y) + dy)
    {
      hide Paint, Fits, Free;
      var xx, yy := x, y;
      ClearUndoesPut(settled, cols, fig, x, y);
      ClearFigure(xx, yy, fig);
      assert cup[..] == settled;
      var ok := ChkFigure(xx + dx, yy + dy, fig);
      ret := true;
      if ok {
        xx, yy := xx + dx, yy + dy;
        FitsIsFree(settled, cols, fig, xx, yy);
        x, y := xx, yy;
      } else {
        ret := false;
      }
      PutFigure(xx, yy, fig);
    }

    method RotFig(cw: bool)
      requires Valid() && !over
      modifies this`fig, cup
      ensures Valid()
      ensures Now() == Rotated(old(Now()), cols, cw)
    {
      hide Paint, Fits, Free;
      var newF := RotateFigure(cw, fig);
      TurnInverse(cw, fig);
      ClearUndoesPut(settled, cols, fig, x, y);
      ClearFigure(x, y, fig);
      assert cup[..] == settled;
      var ok := ChkFigure(x, y, newF);
      if ok {
        FitsIsFree(settled, cols, newF, x, y);
        fig := newF;
      }
      PutFigure(x, y, fig);
    }

    /** The figure, already off the cup, is put back at the top, or the game is over. */
    method Place()
      requires Sound(Now().(over := true), cols) && cup[..] == settled
      modifies this, cup
      ensures Valid()
      ensures Now() == Placed(old(Now()), cols)
    {
      hide Paint, Fits, Free;
      x, y := (cols - 1) / 2, cup.Length - 1;
      var ok := ChkFigure(x, y, fig);
      if !ok {
        over := true;
      } else {
        over := false;
        FitsIsFree(settled, cols, fig, x, y);
        PutFigure(x, y, fig);
      }
    }

    /** What the key loop does with one key. */
    method Command(key: Key, n: nat)
      requires Valid() && !over
      modifies this, cup
      ensures Valid()
      ensures Now() == Step(old(Now()), cols, key, n)
      ensures settled != old(settled) ==> Locks(old(Now()), cols, key)
    {
      hide Paint, Fits, Free, Roll;
      match key
      case Reset =>
        ClearUndoesPut(settled, cols, fig, x, y);
        ClearFigure(x, y, fig);
        Place();
      case Down =>
        var ok := MvFig(0, -1);
        if !ok {
          RollBoard(cup[..], cols, cup.Length, cup.Length - 1);
          var _ := CheckAndRoll();
          settled := cup[..];
          fig := next;
          next := Catalog(n);
          Place();
        }
      case Up =>
        var _ := MvFig(0, 1);
      case Left =>
        var _ := MvFig(-1, 0);
      case Right =>
        var _ := MvFig(1, 0);
      case RotateLeft => RotFig(false);
      case RotateRight => RotFig(true);
      case Quit =>
      case Other =>
    }

    /** The key loop, over the keys that will be pressed and the numbers that will be drawn. */
    method Play(keys: seq<(Key, nat)>)
      requires Valid()
      modifies this, cup
      ensures Valid()
      ensures Now() == Run(old(Now()), cols, keys)
    {
      hide Step;
      var i := 0;
      while i < |keys| && !over && keys[i].0 != Quit
        invariant Valid() && i <= |keys|
        invariant Run(Now(), cols, keys[i..]) == Run(old(Now()), cols, keys)
      {
        Command(keys[i].0, keys[i].1);
        assert keys[i..][1..] == keys[i + 1..];
        i := i + 1;
      }
    }
  }
}
