/**
  The circle that `_snippets/Bresenham_circle.c` draws into a text buffer: which pixels belong to
  it is said without reference to the algorithm, by comparing squares.
*/
module Circle {

  /** The larger coordinate x is the integer nearest to the circle of radius R at the smaller, y. */
  predicate Nearest(R: int, x: int, y: int) {
    x * x - x < R * R - y * y <= x * x + x
  }

  function Abs(a: int): nat { if a < 0 then -a else a }
  function Major(a: int, b: int): nat { if Abs(a) >= Abs(b) then Abs(a) else Abs(b) }
  function Minor(a: int, b: int): nat { if Abs(a) >= Abs(b) then Abs(b) else Abs(a) }

  predicate OnCircle(R: int, a: int, b: int) { Nearest(R, Major(a, b), Minor(a, b)) }

  /** Nearest to the true circle: less than half a unit from the real coordinate t. */
  lemma NearestMeans(R: int, x: int, y: int, t: real)
    requires 1 <= x && 0.0 <= t && t * t == (R * R - y * y) as real
    ensures Nearest(R, x, y) <==> x as real - 0.5 < t < x as real + 0.5
  {
    var c := x as real;
    var q := R * R - y * y;
    assert c * c == (x * x) as real;
    SquareLess(c - 0.5, t);
    SquareLess(t, c + 0.5);
    assert (c - 0.5) * (c - 0.5) == c * c - c + 0.25;
    assert (c + 0.5) * (c + 0.5) == c * c + c + 0.25;
    assert (x * x - x) as real == c * c - c && (x * x + x) as real == c * c + c;
    assert x * x - x < q <==> c * c - c + 0.25 < q as real;
    assert q <= x * x + x <==> (q as real) < c * c + c + 0.25;
  }

  lemma SquareLess(a: real, b: real)
    requires 0.0 <= a && 0.0 <= b
    ensures a < b <==> a * a < b * b
  {
    assert b * b - a * a == (b - a) * (b + a);
    if a < b { Positive(b - a, b + a); } else { NotNegative(a - b, b + a); }
  }

  lemma Positive(a: real, b: real)
    requires 0.0 < a && 0.0 < b
    ensures 0.0 < a * b
  {
  }

  lemma NotNegative(a: real, b: real)
    requires 0.0 <= a && 0.0 <= b
    ensures 0.0 <= a * b
  {
  }

  /** The points drawn once all smaller coordinates below y are done, moved by R. */
  ghost function Points(R: nat, y: nat): set<(int, int)> {
    set px, py | 0 <= px <= 2 * R && 0 <= py <= 2 * R
      && OnCircle(R, px - R, py - R) && Minor(px - R, py - R) < y :: (px, py)
  }

  ghost function WholeCircle(R: nat): set<(int, int)> {
    set px, py | 0 <= px <= 2 * R && 0 <= py <= 2 * R && OnCircle(R, px - R, py - R) :: (px, py)
  }

  function Width(R: nat): nat { 2 * R + 2 }
  function Height(R: nat, geom: bool): nat { if geom then R + 1 else 2 * R + 1 }

  /** The line of the buffer on which a pixel row is shown: of two rows only the even one. */
  function PixelRow(line: nat, geom: bool): nat { if geom then 2 * line else line }

  function CellOf(R: nat, geom: bool, pts: set<(int, int)>, k: nat): char {
    if LineEnd(Width(R), k) then '\n'
    else if (k % Width(R), PixelRow(k / Width(R), geom)) in pts then '*' else ' '
  }

  /** The text with a line for each shown row: a star for each point, a newline at the end. */
  function Picture(R: nat, geom: bool, pts: set<(int, int)>): seq<char> {
    seq(Width(R) * Height(R, geom), k requires 0 <= k => CellOf(R, geom, pts, k))
  }

  lemma DivMod(w: nat, r: nat, c: nat)
    requires c < w
    ensures (w * r + c) / w == r && (w * r + c) % w == c
  {
    var k := w * r + c;
    var d := k / w - r;
    assert w * (k / w) == w * r + w * d;
    if d >= 1 { Grows(w, d); }
    if d <= -1 { Grows(w, -d); }
  }

  lemma Grows(w: nat, d: nat)
    requires 1 <= d
    ensures w * d >= w
  {
  }

  lemma InBuffer(R: nat, geom: bool, r: nat, c: nat)
    requires r < Height(R, geom) && c < Width(R)
    ensures Width(R) * r + c < Width(R) * Height(R, geom)
  {
    var w, h := Width(R), Height(R, geom);
    assert w * (r + 1) <= w * h by { Monotone(w, r + 1, h); }
    assert w * (r + 1) == w * r + w;
  }

  lemma Monotone(w: nat, a: nat, b: nat)
    requires a <= b
    ensures w * a <= w * b
  {
  }

  /** Whether pixel row y is shown at all, and the position of pixel (x, y) in the text. */
  predicate Shown(y: nat, geom: bool) { !geom || y % 2 == 0 }
  function Position(w: nat, geom: bool, x: nat, y: nat): nat { if geom then w * y / 2 + x else w * y + x }

  predicate Places(w: nat, geom: bool, k: nat, x: nat, y: nat)
    requires 1 <= w
  {
    k % w == x && PixelRow(k / w, geom) == y
  }

  lemma Index(R: nat, geom: bool, x: nat, y: nat)
    requires x <= 2 * R && y <= 2 * R && Shown(y, geom)
    ensures var k := Position(Width(R), geom, x, y);
            k < Width(R) * Height(R, geom) && Places(Width(R), geom, k, x, y)
  {
    var r := if geom then y / 2 else y;
    LineIndex(Width(R), geom, x, y, r);
    InBuffer(R, geom, r, x);
  }

  lemma LineIndex(w: nat, geom: bool, x: nat, y: nat, r: nat)
    requires x < w && y == PixelRow(r, geom)
    ensures Position(w, geom, x, y) == w * r + x && Places(w, geom, w * r + x, x, y)
  {
    if geom { Halved(w, y, r); }
    DivMod(w, r, x);
  }

  /** No two positions show the same pixel. */
  lemma PlaceUnique(w: nat, geom: bool, j: nat, k: nat, x: nat, y: nat)
    requires 1 <= w && Places(w, geom, j, x, y) && Places(w, geom, k, x, y)
    ensures j == k
  {
    assert j / w == k / w;
  }

  lemma Halved(w: nat, y: nat, r: nat)
    requires y == 2 * r
    ensures w * y / 2 == w * r
  {
    assert w * y == 2 * (w * r);
  }

  /** One more point changes the one cell that shows it, if any does, and no newline. */
  lemma OnePixel(R: nat, geom: bool, pts: set<(int, int)>, x: nat, y: nat)
    requires x <= 2 * R && y <= 2 * R
    ensures var k := Position(Width(R), geom, x, y);
            if Shown(y, geom)
            then k < |Picture(R, geom, pts)| && Picture(R, geom, pts)[k] != '\n'
              && Picture(R, geom, pts + {(x, y)}) == Picture(R, geom, pts)[k := '*']
            else Picture(R, geom, pts + {(x, y)}) == Picture(R, geom, pts)
  {
    hide CellOf, Position;
    var a, b := Picture(R, geom, pts), Picture(R, geom, pts + {(x, y)});
    var k := Position(Width(R), geom, x, y);
    if Shown(y, geom) {
      Index(R, geom, x, y);
      CellHit(R, geom, pts, k, x, y);
      forall j: nat | j < |b| ensures b[j] == a[k := '*'][j] {
        if j != k { CellOther(R, geom, pts, j, k, x, y); }
      }
    } else {
      forall j: nat | j < |b| ensures b[j] == a[j] { CellHidden(R, geom, pts, j, x, y); }
    }
  }

  lemma CellHit(R: nat, geom: bool, pts: set<(int, int)>, k: nat, x: nat, y: nat)
    requires x <= 2 * R && Places(Width(R), geom, k, x, y)
    ensures CellOf(R, geom, pts, k) != '\n' && CellOf(R, geom, pts + {(x, y)}, k) == '*'
  {
  }

  lemma CellOther(R: nat, geom: bool, pts: set<(int, int)>, j: nat, k: nat, x: nat, y: nat)
    requires j != k && Places(Width(R), geom, k, x, y)
    ensures CellOf(R, geom, pts + {(x, y)}, j) == CellOf(R, geom, pts, j)
  {
    if Places(Width(R), geom, j, x, y) { PlaceUnique(Width(R), geom, j, k, x, y); }
  }

  lemma CellHidden(R: nat, geom: bool, pts: set<(int, int)>, j: nat, x: nat, y: nat)
    requires !Shown(y, geom)
    ensures CellOf(R, geom, pts + {(x, y)}, j) == CellOf(R, geom, pts, j)
  {
  }

  /** The smallest circle, in both geometries; of the three rows the second one shows two. */
  lemma SmallestPictures()
    ensures Picture(1, false, WholeCircle(1)) == " * \n* *\n * \n"
    ensures Picture(1, true, WholeCircle(1)) == " * \n * \n"
  {
    hide Picture, OnCircle;
    forall x, y | 0 <= x <= 2 && 0 <= y <= 2
      ensures (x, y) in WholeCircle(1) <==> (x, y) in {(1, 0), (0, 1), (2, 1), (1, 2)}
    {
      SmallestPoint(x, y);
    }
    SmallestText(WholeCircle(1));
  }

  lemma SmallestText(pts: set<(int, int)>)
    requires forall x, y :: 0 <= x <= 2 && 0 <= y <= 2 ==> ((x, y) in pts <==> (x, y) in {(1, 0), (0, 1), (2, 1), (1, 2)})
    ensures Picture(1, false, pts) == " * \n* *\n * \n"
    ensures Picture(1, true, pts) == " * \n * \n"
  {
    hide WholeCircle;
    forall k: nat | k < 12 ensures CellOf(1, false, pts, k) == " * \n* *\n * \n"[k] { SmallestCell(pts, k); }
    forall k: nat | k < 8 ensures CellOf(1, true, pts, k) == " * \n * \n"[k] { SmallestCell(pts, k); }
  }

  lemma SmallestCell(pts: set<(int, int)>, k: nat)
    requires forall x, y :: 0 <= x <= 2 && 0 <= y <= 2 ==> ((x, y) in pts <==> (x, y) in {(1, 0), (0, 1), (2, 1), (1, 2)})
    ensures k < 12 ==> CellOf(1, false, pts, k) == " * \n* *\n * \n"[k]
    ensures k < 8 ==> CellOf(1, true, pts, k) == " * \n * \n"[k]
  {
  }

  lemma SmallestPoint(x: int, y: int)
    requires 0 <= x <= 2 && 0 <= y <= 2
    ensures OnCircle(1, x - 1, y - 1) <==> (x, y) in {(1, 0), (0, 1), (2, 1), (1, 2)}
  {
  }

  /** The state of the loop: the error term, and how good the point about to be drawn is. */
  ghost predicate Going(R: nat, x: int, y: nat, err: int) {
    && err == (y + 1) * (y + 1) + x * x - x - R * R
    && R * R - y * y <= x * x + x
    && -1 <= x <= R
    && (x >= y ==> Nearest(R, x, y))
  }

  lemma Starts(R: nat)
    requires 1 <= R
    ensures Going(R, R, 0, 1 - R)
  {
  }

  lemma Stays(R: nat, x: int, y: nat, err: int)
    requires Going(R, x, y, err) && x >= y && err < 0
    ensures Going(R, x, y + 1, err + 2 * (y + 1) + 1)
  {
    assert (y + 2) * (y + 2) == (y + 1) * (y + 1) + 2 * (y + 1) + 1;
  }

  lemma Inwards(R: nat, x: int, y: nat, err: int)
    requires Going(R, x, y, err) && x >= y && err >= 0
    ensures Going(R, x - 1, y + 1, err + 2 * (y + 1 - (x - 1)) + 1)
  {
    assert (y + 2) * (y + 2) == (y + 1) * (y + 1) + 2 * (y + 1) + 1;
    assert (y + 1) * (y + 1) == y * y + 2 * y + 1;
    assert (x - 1) * (x - 1) == x * x - 2 * x + 1;
  }

  /** At each smaller coordinate there is one nearest integer only. */
  lemma NearestUnique(R: nat, x: nat, z: nat, y: int)
    requires Nearest(R, x, y) && Nearest(R, z, y)
    ensures x == z
  {
    if x < z { Spread(x, z); }
    if z < x { Spread(z, x); }
  }

  lemma Spread(x: int, z: int)
    requires -1 <= x < z
    ensures x * x + x <= z * z - z
  {
    assert z * z - z - (x * x + x) == (z - x - 1) * (z + x);
    assert (z - x - 1) * (z + x) >= 0;
  }

  /** When the loop ends, no point of the octant is left. */
  lemma Done(R: nat, x: int, y: nat, err: int, a: int, b: int)
    requires Going(R, x, y, err) && x < y && OnCircle(R, a, b)
    ensures Minor(a, b) < y
  {
    var m, n := Major(a, b), Minor(a, b);
    if n >= y {
      Spread(x, m);
      assert n * n >= y * y by { Monotone(n, y, n); Monotone(y, y, n); }
    }
  }

  /** The eight reflections of the point, moved by R. */
  ghost function Reflections(R: nat, x: int, y: int): set<(int, int)> {
    {(x + R, y + R), (y + R, x + R), (R - x, y + R), (R - y, x + R),
     (R - x, R - y), (R - y, R - x), (x + R, R - y), (y + R, R - x)}
  }

  /** They are all the points of the circle with this smaller coordinate. */
  lemma NextPoints(R: nat, x: int, y: nat)
    requires y <= x <= R && Nearest(R, x, y)
    ensures Points(R, y + 1) == Points(R, y) + Reflections(R, x, y)
  {
    hide *;
    forall p: (int, int)
      ensures p in Points(R, y + 1) <==> p in Points(R, y) + Reflections(R, x, y)
    {
      InPoints(R, y + 1, p);
      InPoints(R, y, p);
      var a, b := p.0 - R, p.1 - R;
      ReflectionsAre(R, x, y, p);
      if OnCircle(R, a, b) && Minor(a, b) == y { OnlyMajor(R, x, y, a, b); }
      if Major(a, b) == x && Minor(a, b) == y { AreOnCircle(R, x, y, a, b); }
    }
  }

  lemma InPoints(R: nat, y: nat, p: (int, int))
    ensures p in Points(R, y) <==>
      0 <= p.0 <= 2 * R && 0 <= p.1 <= 2 * R && OnCircle(R, p.0 - R, p.1 - R) && Minor(p.0 - R, p.1 - R) < y
  {
    hide OnCircle, Minor;
  }

  lemma OnlyMajor(R: nat, x: nat, y: nat, a: int, b: int)
    requires Nearest(R, x, y) && OnCircle(R, a, b) && Minor(a, b) == y
    ensures Major(a, b) == x
  {
    NearestUnique(R, x, Major(a, b), y);
  }

  lemma AreOnCircle(R: nat, x: nat, y: nat, a: int, b: int)
    requires Nearest(R, x, y) && Minor(a, b) == y && Major(a, b) == x
    ensures OnCircle(R, a, b)
  {
  }

  lemma ReflectionsAre(R: nat, x: int, y: nat, p: (int, int))
    requires y <= x <= R
    ensures p in Reflections(R, x, y) <==> Major(p.0 - R, p.1 - R) == x && Minor(p.0 - R, p.1 - R) == y
    ensures p in Reflections(R, x, y) ==> 0 <= p.0 <= 2 * R && 0 <= p.1 <= 2 * R
  {
  }

  lemma AllPoints(R: nat, x: int, y: nat, err: int)
    requires Going(R, x, y, err) && x < y
    ensures Points(R, y) == WholeCircle(R)
  {
    forall px, py | (px, py) in WholeCircle(R) ensures (px, py) in Points(R, y) {
      Done(R, x, y, err, px - R, py - R);
    }
  }

  method DrawPixel(buf: array<char>, R: nat, geom: bool, x: nat, y: nat, ghost pts: set<(int, int)>)
    requires x <= 2 * R && y <= 2 * R
    requires buf.Length == Width(R) * Height(R, geom) + 1
    requires buf[..buf.Length - 1] == Picture(R, geom, pts)
    modifies buf
    ensures buf[..buf.Length - 1] == Picture(R, geom, pts + {(x, y)})
    ensures buf[buf.Length - 1] == old(buf[buf.Length - 1])
  {
    hide Picture, Width, Height;
    OnePixel(R, geom, pts, x, y);
    var w := 2 * R + 2;
    assert w == Width(R) by { WidthIs(R); }
    if geom {
      if y % 2 == 0 { buf[w * y / 2 + x] := '*'; }
    } else {
      buf[w * y + x] := '*';
    }
  }

  lemma WidthIs(R: nat)
    ensures Width(R) == 2 * R + 2
  {
  }

  /** The eight pixels of one step. */
  method DrawReflections(buf: array<char>, R: nat, geom: bool, x: int, y: nat, ghost pts: set<(int, int)>)
    requires y <= x <= R
    requires buf.Length == Width(R) * Height(R, geom) + 1
    requires buf[..buf.Length - 1] == Picture(R, geom, pts)
    modifies buf
    ensures buf[..buf.Length - 1] == Picture(R, geom, pts + Reflections(R, x, y))
    ensures buf[buf.Length - 1] == old(buf[buf.Length - 1])
  {
    hide Picture, Width, Height;
    ghost var p := pts;
    DrawPixel(buf, R, geom, x + R, y + R, p);
    p := p + {(x + R, y + R)};
    DrawPixel(buf, R, geom, y + R, x + R, p);
    p := p + {(y + R, x + R)};
    DrawPixel(buf, R, geom, R - x, y + R, p);
    p := p + {(R - x, y + R)};
    DrawPixel(buf, R, geom, R - y, x + R, p);
    p := p + {(R - y, x + R)};
    DrawPixel(buf, R, geom, R - x, R - y, p);
    p := p + {(R - x, R - y)};
    DrawPixel(buf, R, geom, R - y, R - x, p);
    p := p + {(R - y, R - x)};
    DrawPixel(buf, R, geom, x + R, R - y, p);
    p := p + {(x + R, R - y)};
    DrawPixel(buf, R, geom, y + R, R - x, p);
    assert p + {(y + R, R - x)} == pts + Reflections(R, x, y);
  }

  /** An empty picture: spaces, a newline at the end of each line, and the terminator. */
  method Blank(R: nat, geom: bool) returns (buf: array<char>)
    ensures fresh(buf) && buf.Length == Width(R) * Height(R, geom) + 1 && buf[buf.Length - 1] == '\0'
    ensures buf[..buf.Length - 1] == Picture(R, geom, {}) && Points(R, 0) == {}
  {
    hide *;
    var Y := 2 * R + 2;
    var S := if geom then Y * (R + 1) else Y * (Y - 1);
    Sizes(R, geom, S);
    buf := new char[S + 1](k => if 0 <= k < S then ' ' else '\0');
    var i := Y - 1;
    ghost var r: nat := 0;
    LinesStart(Y, buf[..S]);
    while i < S
      invariant i == Y * r + (Y - 1)
      invariant LinesDone(Y, r, buf[..S])
      invariant buf[S] == '\0'
    {
      LinesNext(Y, r, i, buf[..S]);
      ghost var was := buf[..S];
      buf[i] := '\n';
      assert buf[..S] == was[i := '\n'];
      i := i + Y;
      r := r + 1;
    }
    LinesEnd(R, geom, r, buf[..S]);
  }

  lemma Sizes(R: nat, geom: bool, S: nat)
    requires S == (if geom then (2 * R + 2) * (R + 1) else (2 * R + 2) * (2 * R + 1))
    ensures S == Width(R) * Height(R, geom) && Width(R) == 2 * R + 2
  {
  }

  /** The first r lines have their newline, and there is nothing else but spaces. */
  ghost predicate LinesDone(w: nat, r: nat, s: seq<char>)
    requires 1 <= w
  {
    forall k: nat :: k < |s| ==> s[k] == if LineEnd(w, k) && k < w * r + (w - 1) then '\n' else ' '
  }

  lemma LinesStart(w: nat, s: seq<char>)
    requires 1 <= w && forall k :: 0 <= k < |s| ==> s[k] == ' '
    ensures LinesDone(w, 0, s) && w * 0 == 0
  {
    FirstLine(w);
  }

  lemma LinesNext(w: nat, r: nat, i: nat, s: seq<char>)
    requires 1 <= w && LinesDone(w, r, s) && i == w * r + (w - 1) < |s|
    ensures LinesDone(w, r + 1, s[i := '\n']) && i + w == w * (r + 1) + (w - 1)
  {
    hide LineEnd;
    NextLine(w, r);
  }

  lemma LinesEnd(R: nat, geom: bool, r: nat, s: seq<char>)
    requires |s| == Width(R) * Height(R, geom) && LinesDone(Width(R), r, s) && |s| <= Width(R) * r + (Width(R) - 1)
    ensures s == Picture(R, geom, {}) && Points(R, 0) == {}
  {
    hide LineEnd;
  }

  predicate LineEnd(w: nat, k: nat)
    requires 1 <= w
  {
    k % w == w - 1
  }

  lemma FirstLine(w: nat)
    requires 1 <= w
    ensures forall k: nat :: k < w - 1 ==> !LineEnd(w, k)
    ensures w * 0 == 0
  {
  }

  /** From one line end to the next no other position is one. */
  lemma NextLine(w: nat, r: nat)
    requires 1 <= w
    ensures LineEnd(w, w * r + (w - 1))
    ensures w * (r + 1) == w * r + w
    ensures forall k: nat :: w * r + (w - 1) < k < w * r + w + (w - 1) ==> !LineEnd(w, k)
  {
    DivMod(w, r, w - 1);
    forall k: nat | w * r + (w - 1) < k < w * r + w + (w - 1) ensures !LineEnd(w, k) {
      assert k == w * (r + 1) + (k - w * r - w);
      DivMod(w, r + 1, k - w * r - w);
    }
  }

  /** The buffer shows exactly the points nearest to the circle; other radii give none. */
  method DrawCircle(R: int, geom: bool) returns (buf: array?<char>)
    ensures buf == null <==> R > 200 || R < 1
    ensures buf != null ==>
      && fresh(buf) && buf.Length == Width(R) * Height(R, geom) + 1
      && buf[..buf.Length - 1] == Picture(R, geom, WholeCircle(R))
      && buf[buf.Length - 1] == '\0'
  {
    hide *;
    if R > 200 || R < 1 { return null; }
    var pic := Blank(R, geom);
    var x, y: nat := R, 0;
    var radiusError := 1 - x;
    Starts(R);
    while x >= y
      invariant Going(R, x, y, radiusError) && x <= R
      invariant fresh(pic) && pic.Length == Width(R) * Height(R, geom) + 1
      invariant pic[..pic.Length - 1] == Picture(R, geom, Points(R, y)) && pic[pic.Length - 1] == '\0'
      decreases x - y
    {
      GoingMeans(R, x, y, radiusError);
      NextPoints(R, x, y);
      DrawReflections(pic, R, geom, x, y, Points(R, y));
      if radiusError < 0 { Stays(R, x, y, radiusError); } else { Inwards(R, x, y, radiusError); }
      y := y + 1;
      if radiusError < 0 {
        radiusError := radiusError + (2 * y + 1);
      } else {
        x := x - 1;
        radiusError := radiusError + (2 * (y - x) + 1);
      }
    }
    AllPoints(R, x, y, radiusError);
    buf := pic;
  }

  lemma GoingMeans(R: nat, x: int, y: nat, err: int)
    requires Going(R, x, y, err) && x >= y
    ensures Nearest(R, x, y)
  {
  }
}
