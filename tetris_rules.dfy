/**
 * The rules of the falling-block game (class `Tetris` in src/tetris.hpp) as functions on
 * values: the shape table, translation and pivot rotation of the four-point piece, the
 * collision test, locking, the row-clearing pass, and one whole `gameplay` call as a step
 * from one engine state to the next. The imperative engine in module TetrisGame is
 * proved to compute exactly these functions.
 */
module TetrisRules {
  import opened Sdl

  const Lines := 20
  const Cols := 10
  /** The number of colours; a landed cell holds 0 (empty) or a colour in 1..Colors. */
  const Colors := 7
  /** Gravity delay in milliseconds, and the shorter one while the down key is held. */
  const DefaultDelay := 300
  const SoftDropDelay := 50
  /** `Uint32` arithmetic wraps modulo this. */
  const TickModulus := 0x1_0000_0000
  /** Points added per completed row. */
  const RowBonus := 10

  datatype Point = Point(x: int, y: int)

  /** The field as rows of cells, `cells[y][x]`, row 0 at the top. */
  type Grid = seq<seq<int>>

  predicate WellFormed(g: Grid)
  {
    |g| == Lines && forall y :: 0 <= y < Lines ==> |g[y]| == Cols
  }

  /** Every cell is empty or holds a colour. */
  predicate CellsInRange(g: Grid)
    requires WellFormed(g)
  {
    forall y, x :: 0 <= y < Lines && 0 <= x < Cols ==> 0 <= g[y][x] <= Colors
  }

  function EmptyGrid(): (g: Grid)
    ensures WellFormed(g) && CellsInRange(g)
  {
    seq(Lines, y => seq(Cols, x => 0))
  }

  // ---------------------------------------------------------------- pieces

  /**
   * The seven shapes I, J, L, O, S, T, Z, each as four cell numbers in a 4-wide box
   * numbered row-major: 0 1 2 3 on the first row, 4 5 6 7 on the second.
   */
  const Figures: seq<seq<int>> := [
    [0, 1, 2, 3],
    [0, 4, 5, 6],
    [2, 6, 5, 4],
    [1, 2, 5, 6],
    [2, 1, 5, 4],
    [1, 4, 5, 6],
    [0, 1, 5, 6]
  ]

  /** Cell number `v` of the box is the point `(v % 4, v / 4)`. */
  function Decode(v: int): Point
  {
    Point(v % 4, v / 4)
  }

  /** The piece of shape `n` at its spawn position, top left of the field. */
  function Figure(n: int): (pts: seq<Point>)
    requires 0 <= n < |Figures|
    ensures |pts| == 4
    ensures forall i :: 0 <= i < 4 ==> 0 <= pts[i].x < 4 && 0 <= pts[i].y < 2
    ensures forall i, j :: 0 <= i < j < 4 ==> pts[i] != pts[j]
  {
    var f := Figures[n];
    assert |f| == 4 && forall k :: 0 <= k < 4 ==> 0 <= f[k] < 8;
    assert forall i, j :: 0 <= i < j < 4 ==> f[i] != f[j];
    seq(4, i requires 0 <= i < 4 => Decode(f[i]))
  }

  /** `rand() % 7` picks the shape, `1 + rand() % 7` the colour. */
  function ShapeOf(draw: nat): (n: int)
    ensures 0 <= n < |Figures|
  {
    draw % 7
  }

  function ColorOf(draw: nat): (c: int)
    ensures 1 <= c <= Colors
  {
    1 + draw % 7
  }

  /** Every point moved by `(dx, dy)`. */
  function Translate(pts: seq<Point>, dx: int, dy: int): (r: seq<Point>)
    ensures |r| == |pts|
  {
    seq(|pts|, i requires 0 <= i < |pts| => Point(pts[i].x + dx, pts[i].y + dy))
  }

  /** A quarter turn of `p` about the centre `c`. */
  function RotateAbout(p: Point, c: Point): Point
  {
    Point(c.x - (p.y - c.y), c.y + (p.x - c.x))
  }

  /** The piece turned a quarter about its third point, which therefore stays put. */
  function Rotated(pts: seq<Point>): (r: seq<Point>)
    requires |pts| == 4
    ensures |r| == 4 && r[2] == pts[2]
  {
    seq(4, i requires 0 <= i < 4 => RotateAbout(pts[i], pts[2]))
  }

  /** Four unguarded rotations bring every point back where it was. */
  lemma {:induction false} RotateFourTimes(pts: seq<Point>)
    requires |pts| == 4
    ensures Rotated(Rotated(Rotated(Rotated(pts)))) == pts
  {
    var r1 := Rotated(pts);
    var r2 := Rotated(r1);
    var r3 := Rotated(r2);
    var r4 := Rotated(r3);
    forall i | 0 <= i < 4
      ensures r4[i] == pts[i]
    {
      var c := pts[2];
      assert r1[i] == RotateAbout(pts[i], c);
      assert r2[i] == RotateAbout(r1[i], c);
      assert r3[i] == RotateAbout(r2[i], c);
    }
  }

  // ---------------------------------------------------------------- collision

  /**
   * `isvalid` for one point. The source bounds `x` on both sides and `y` only from below
   * the field: a point above row 0 reads `field[y][x]` outside the array, i.e. whatever
   * the memory in front of the field holds; `stray(y, x)` stands for that value.
   */
  predicate PointFits(g: Grid, stray: (int, int) -> int, p: Point)
    requires WellFormed(g)
  {
    0 <= p.x < Cols && p.y < Lines && (if p.y >= 0 then g[p.y][p.x] else stray(p.y, p.x)) == 0
  }

  predicate Fits(g: Grid, stray: (int, int) -> int, pts: seq<Point>)
    requires WellFormed(g)
  {
    forall i :: 0 <= i < |pts| ==> PointFits(g, stray, pts[i])
  }

  /** On points at or below row 0, `isvalid` is exactly "inside the field and on empty cells". */
  lemma FitsInsideField(g: Grid, stray: (int, int) -> int, pts: seq<Point>)
    requires WellFormed(g)
    requires forall i :: 0 <= i < |pts| ==> pts[i].y >= 0
    ensures Fits(g, stray, pts) <==>
      forall i :: 0 <= i < |pts| ==>
        0 <= pts[i].x < Cols && 0 <= pts[i].y < Lines && g[pts[i].y][pts[i].x] == 0
  {
  }

  /** Points the engine may hold: every column inside the field, no row below it. */
  predicate InColumns(pts: seq<Point>)
  {
    forall i :: 0 <= i < |pts| ==> 0 <= pts[i].x < Cols && pts[i].y < Lines
  }

  // ---------------------------------------------------------------- locking

  /**
   * Writes `color` into the cells of the field the piece covers. A point above row 0
   * would be written outside the array; it changes no field cell.
   */
  function Lock(g: Grid, pts: seq<Point>, color: int): (r: Grid)
    requires WellFormed(g)
    ensures WellFormed(r)
  {
    seq(Lines, y requires 0 <= y < Lines =>
      seq(Cols, x requires 0 <= x < Cols => if Point(x, y) in pts then color else g[y][x]))
  }

  /** Locking paints exactly the piece's cells and leaves every other cell alone. */
  lemma LockPaintsExactlyThePiece(g: Grid, pts: seq<Point>, color: int, y: int, x: int)
    requires WellFormed(g) && 0 <= y < Lines && 0 <= x < Cols
    ensures Point(x, y) in pts ==> Lock(g, pts, color)[y][x] == color
    ensures Point(x, y) !in pts ==> Lock(g, pts, color)[y][x] == g[y][x]
  {
  }

  lemma LockKeepsRange(g: Grid, pts: seq<Point>, color: int)
    requires WellFormed(g) && CellsInRange(g) && 1 <= color <= Colors
    ensures CellsInRange(Lock(g, pts, color))
  {
  }

  // ---------------------------------------------------------------- line clear

  predicate Complete(row: seq<int>)
  {
    forall k :: 0 <= k < |row| ==> row[k] != 0
  }

  /** Rows `1..i` take the contents of rows `0..i-1`; row 0 and the rows below `i` keep theirs. */
  function ShiftDown(g: Grid, i: nat): (r: Grid)
    requires i < |g|
    ensures |r| == |g|
  {
    seq(|g|, j requires 0 <= j < |g| => if 1 <= j <= i then g[j - 1] else g[j])
  }

  /**
   * The clearing pass from row `i` down: each complete row met shifts the rows above it
   * down by one. Gives the new field and the number of complete rows met.
   */
  function ClearFrom(g: Grid, i: nat): (r: (Grid, nat))
    requires i <= |g|
    ensures |r.0| == |g|
    decreases |g| - i
  {
    if i == |g| then (g, 0)
    else if Complete(g[i]) then
      var r := ClearFrom(ShiftDown(g, i), i + 1);
      (r.0, r.1 + 1)
    else ClearFrom(g, i + 1)
  }

  function ClearLines(g: Grid): (Grid, nat)
  {
    ClearFrom(g, 0)
  }

  /** `n` copies of `row`. */
  function Repeat(row: seq<int>, n: nat): (r: Grid)
    ensures |r| == n && forall k :: 0 <= k < n ==> r[k] == row
  {
    if n == 0 then [] else [row] + Repeat(row, n - 1)
  }

  /** The rows that are not complete, in order. */
  function Kept(rows: Grid): (r: Grid)
    ensures forall k :: 0 <= k < |r| ==> !Complete(r[k])
  {
    if rows == [] then []
    else if Complete(rows[|rows| - 1]) then Kept(rows[..|rows| - 1])
    else Kept(rows[..|rows| - 1]) + [rows[|rows| - 1]]
  }

  /** The number of complete rows. */
  function FullRows(rows: Grid): (n: nat)
    ensures n + |Kept(rows)| == |rows|
  {
    if rows == [] then 0
    else FullRows(rows[..|rows| - 1]) + (if Complete(rows[|rows| - 1]) then 1 else 0)
  }

  /** Scanning one more row: a complete row is counted, any other row is kept. */
  lemma AppendRow(rows: Grid, row: seq<int>)
    ensures FullRows(rows + [row]) == FullRows(rows) + (if Complete(row) then 1 else 0)
    ensures Kept(rows + [row]) == if Complete(row) then Kept(rows) else Kept(rows) + [row]
  {
    assert (rows + [row])[..|rows|] == rows;
  }

  /**
   * Shifting down at the row just after a prefix `p`: a copy of `p[0]` goes on top, and
   * that row drops out.
   */
  lemma ShiftAtRow(p: Grid, row: seq<int>, rest: Grid)
    requires |p| >= 1
    ensures ShiftDown(p + [row] + rest, |p|) == [p[0]] + p + rest
  {
    var h := p + [row] + rest;
    var l := [p[0]] + p + rest;
    forall j | 0 <= j < |h|
      ensures ShiftDown(h, |p|)[j] == l[j]
    {
      if j == 0 {
      } else if j <= |p| {
        assert l[j] == p[j - 1];
      } else {
        assert h[j] == rest[j - |p| - 1];
      }
    }
  }

  /**
   * The field the clearing pass holds after scanning rows `0..i-1` of `g` (row 0 not
   * complete or already handled): `k + 1` copies of the original row 0, then the incomplete
   * rows among the original rows `1..i-1`, then the untouched original rows `i..`.
   */
  function Scanned(g: Grid, i: nat): (r: Grid)
    requires 1 <= i <= |g|
    ensures |r| == |g|
    ensures i < |g| ==> r[i] == g[i]
  {
    var p := Settled(g, i);
    assert i < |g| ==> (p + g[i..])[i] == g[i..][0];
    p + g[i..]
  }

  /** The first `i` rows of `Scanned(g, i)`. */
  function Settled(g: Grid, i: nat): (r: Grid)
    requires 1 <= i <= |g|
    ensures |r| == i
  {
    Repeat(g[0], FullRows(g[1..i]) + 1) + Kept(g[1..i])
  }

  /** Scanning a complete row `i` adds a copy of row 0 to the settled rows. */
  lemma SettledComplete(g: Grid, i: nat)
    requires 1 <= i < |g| && Complete(g[i])
    ensures FullRows(g[1..i + 1]) == FullRows(g[1..i]) + 1
    ensures Settled(g, i + 1) == [g[0]] + Settled(g, i)
  {
    assert g[1..i + 1] == g[1..i] + [g[i]];
    AppendRow(g[1..i], g[i]);
  }

  /** Scanning an incomplete row `i` appends it to the settled rows. */
  lemma SettledKept(g: Grid, i: nat)
    requires 1 <= i < |g| && !Complete(g[i])
    ensures FullRows(g[1..i + 1]) == FullRows(g[1..i])
    ensures Settled(g, i + 1) == Settled(g, i) + [g[i]]
  {
    var a := Repeat(g[0], FullRows(g[1..i]) + 1);
    var k := Kept(g[1..i]);
    assert g[1..i + 1] == g[1..i] + [g[i]];
    AppendRow(g[1..i], g[i]);
    assert a + (k + [g[i]]) == (a + k) + [g[i]];
  }

  /** The rows from `i` on are row `i` followed by the rows after it. */
  lemma HeadAndRest(g: Grid, i: nat)
    requires i < |g|
    ensures g[i..] == [g[i]] + g[i + 1..]
  {
    assert g[i..][0] == g[i] && g[i..][1..] == g[i + 1..];
  }

  /** One scanned row that is complete: the prefix gains a copy of row 0. */
  lemma CompactStepComplete(g: Grid, i: nat)
    requires 1 <= i < |g| && Complete(g[i])
    ensures FullRows(g[1..i + 1]) == FullRows(g[1..i]) + 1
    ensures ShiftDown(Scanned(g, i), i) == Scanned(g, i + 1)
  {
    var p := Settled(g, i);
    SettledComplete(g, i);
    HeadAndRest(g, i);
    assert Scanned(g, i) == p + [g[i]] + g[i + 1..];
    ShiftAtRow(p, g[i], g[i + 1..]);
    assert p[0] == g[0];
  }

  /** One scanned row that is not complete: it joins the kept rows, nothing moves. */
  lemma CompactStepKept(g: Grid, i: nat)
    requires 1 <= i < |g| && !Complete(g[i])
    ensures FullRows(g[1..i + 1]) == FullRows(g[1..i])
    ensures Scanned(g, i) == Scanned(g, i + 1)
  {
    var p := Settled(g, i);
    SettledKept(g, i);
    HeadAndRest(g, i);
    assert p + ([g[i]] + g[i + 1..]) == (p + [g[i]]) + g[i + 1..];
  }

  /** The loop invariant of the clearing pass, carried from row `i` to the end. */
  lemma ClearFromCompacts(g: Grid, i: nat)
    requires 1 <= i <= |g|
    ensures ClearFrom(Scanned(g, i), i).0 == Scanned(g, |g|)
    ensures ClearFrom(Scanned(g, i), i).1 + FullRows(g[1..i]) == FullRows(g[1..])
  {
    ClearFromRows(g, i);
    ClearFromCount(g, i);
  }

  /** The rows half of the invariant: from row `i` on, the pass leaves the fully scanned field. */
  lemma {:induction false} ClearFromRows(g: Grid, i: nat)
    requires 1 <= i <= |g|
    ensures ClearFrom(Scanned(g, i), i).0 == Scanned(g, |g|)
    decreases |g| - i
  {
    if i < |g| {
      var s := Scanned(g, i);
      assert s[i] == g[i];
      if Complete(g[i]) {
        CompactStepComplete(g, i);
        assert ClearFrom(s, i).0 == ClearFrom(Scanned(g, i + 1), i + 1).0;
      } else {
        CompactStepKept(g, i);
        assert ClearFrom(s, i) == ClearFrom(Scanned(g, i + 1), i + 1);
      }
      ClearFromRows(g, i + 1);
    }
  }

  /** The count half of the invariant: from row `i` on, the pass counts the complete rows left. */
  lemma {:induction false} ClearFromCount(g: Grid, i: nat)
    requires 1 <= i <= |g|
    ensures ClearFrom(Scanned(g, i), i).1 + FullRows(g[1..i]) == FullRows(g[1..])
    decreases |g| - i
  {
    var s := Scanned(g, i);
    if i == |g| {
      assert g[1..i] == g[1..];
    } else {
      assert s[i] == g[i];
      var c := ClearFrom(Scanned(g, i + 1), i + 1).1;
      ClearFromCount(g, i + 1);
      if Complete(g[i]) {
        CompactStepComplete(g, i);
        assert ClearFrom(s, i).1 == c + 1;
      } else {
        CompactStepKept(g, i);
        assert ClearFrom(s, i).1 == c;
      }
    }
  }

  /**
   * What the clearing pass does, stated without the loop: every complete row below row 0
   * disappears, the remaining rows keep their order at the bottom, and the top is filled
   * with copies of the old row 0 (one more copy than rows removed, because row 0 itself is
   * never emptied). Every complete row is counted, row 0 included, although a complete
   * row 0 stays where it is.
   */
  lemma ClearLinesCompacts(g: Grid)
    requires |g| >= 1
    ensures ClearLines(g).0 == Repeat(g[0], FullRows(g[1..]) + 1) + Kept(g[1..])
    ensures ClearLines(g).1 == (if Complete(g[0]) then 1 else 0) + FullRows(g[1..])
  {
    assert g[1..1] == [];
    assert g == Scanned(g, 1);
    if Complete(g[0]) {
      assert ShiftDown(g, 0) == g;
    }
    ClearFromCompacts(g, 1);
    assert g[1..|g|] == g[1..] && g[|g|..] == [];
  }

  /** Unless row 0 is complete, no complete row is left after the pass. */
  lemma NoCompleteRowAfterClear(g: Grid)
    requires |g| >= 1 && !Complete(g[0])
    ensures forall y :: 0 <= y < |g| ==> !Complete(ClearLines(g).0[y])
  {
    ClearLinesCompacts(g);
  }

  lemma {:induction false} ClearFromKeepsRange(g: Grid, i: nat)
    requires WellFormed(g) && CellsInRange(g) && i <= |g|
    ensures WellFormed(ClearFrom(g, i).0) && CellsInRange(ClearFrom(g, i).0)
    decreases |g| - i
  {
    if i < |g| {
      if Complete(g[i]) {
        ClearFromKeepsRange(ShiftDown(g, i), i + 1);
      } else {
        ClearFromKeepsRange(g, i + 1);
      }
    }
  }

  // ---------------------------------------------------------------- one frame

  /** The engine's state: the field, the falling and the upcoming piece, and the counters. */
  datatype Engine = Engine(
    cells: Grid,
    items: seq<Point>,
    upcoming: seq<Point>,
    color: int,
    upcomingColor: int,
    dx: int,
    rotate: bool,
    delay: int,
    startTime: int,
    currentTime: int,
    score: int,
    running: bool)

  predicate IsTick(t: int)
  {
    0 <= t < TickModulus
  }

  /** What holds of every state the engine reaches. */
  predicate EngineValid(e: Engine)
  {
    && WellFormed(e.cells) && CellsInRange(e.cells)
    && |e.items| == 4 && InColumns(e.items)
    && |e.upcoming| == 4
    && (forall i :: 0 <= i < 4 ==> 0 <= e.upcoming[i].x < 4 && 0 <= e.upcoming[i].y < 2)
    && 1 <= e.color <= Colors && 1 <= e.upcomingColor <= Colors
    && e.delay >= 0 && e.score >= 0
    && IsTick(e.startTime) && IsTick(e.currentTime)
  }

  /** The game at start-up: an empty field, both pieces drawn, nothing pending. */
  function Initial(colorDraw: nat, shapeDraw: nat, nextColorDraw: nat, nextShapeDraw: nat): (e: Engine)
    ensures EngineValid(e) && e.running && e.score == 0
  {
    Engine(EmptyGrid(), Figure(ShapeOf(shapeDraw)), Figure(ShapeOf(nextShapeDraw)),
      ColorOf(colorDraw), ColorOf(nextColorDraw), 0, false, DefaultDelay, 0, 0, 0, true)
  }

  /**
   * One polled event: closing the window or Escape stops the game, Up asks for a rotation,
   * Left and Right set the horizontal step.
   */
  function ApplyEvent(e: Engine, ev: Event): Engine
  {
    match ev
    case Quit => e.(running := false)
    case KeyDown(k) =>
      (match k
       case Escape => e.(running := false)
       case Up => e.(rotate := true)
       case Left => e.(dx := -1)
       case Right => e.(dx := 1)
       case _ => e)
    case OtherEvent => e
  }

  function ApplyEvents(e: Engine, evs: seq<Event>): (r: Engine)
    ensures r.(running := e.running, rotate := e.rotate, dx := e.dx) == e
    ensures r.running == (e.running && !(Quit in evs || KeyDown(Escape) in evs))
    ensures r.rotate == (e.rotate || KeyDown(Up) in evs)
    ensures r.dx == e.dx || r.dx == -1 || r.dx == 1
    decreases |evs|
  {
    if evs == [] then e
    else
      var r := ApplyEvents(ApplyEvent(e, evs[0]), evs[1..]);
      assert evs == [evs[0]] + evs[1..];
      assert forall ev :: ev in evs <==> ev == evs[0] || ev in evs[1..];
      r
  }

  /** The horizontal step the last Left or Right key-down asks for, read from the end; `dx` if there is none. */
  function LastSteer(evs: seq<Event>, dx: int): (r: int)
    ensures r == dx || r == -1 || r == 1
    ensures KeyDown(Left) !in evs && KeyDown(Right) !in evs ==> r == dx
    decreases |evs|
  {
    if evs == [] then dx
    else
      var last := evs[|evs| - 1];
      if last == KeyDown(Left) then -1
      else if last == KeyDown(Right) then 1
      else
        assert forall ev :: ev in evs[..|evs| - 1] ==> ev in evs;
        LastSteer(evs[..|evs| - 1], dx)
  }

  /** The events of a frame applied in order: the one applied last acts on the state the others left. */
  lemma {:induction false} ApplyEventsSnoc(e: Engine, evs: seq<Event>, ev: Event)
    ensures ApplyEvents(e, evs + [ev]) == ApplyEvent(ApplyEvents(e, evs), ev)
    decreases |evs|
  {
    if evs != [] {
      assert (evs + [ev])[1..] == evs[1..] + [ev];
      ApplyEventsSnoc(ApplyEvent(e, evs[0]), evs[1..], ev);
    }
  }

  /** After the events, `dx` is the step of the last Left or Right pressed, and unchanged without one. */
  lemma {:induction false} ApplyEventsSteer(e: Engine, evs: seq<Event>)
    ensures ApplyEvents(e, evs).dx == LastSteer(evs, e.dx)
    decreases |evs|
  {
    if evs != [] {
      var init := evs[..|evs| - 1];
      assert evs == init + [evs[|evs| - 1]];
      ApplyEventsSnoc(e, init, evs[|evs| - 1]);
      ApplyEventsSteer(e, init);
    }
  }

  /** `handleEvents`: the frame's events in order, then the held down key shortens the delay. */
  function HandleStep(e: Engine, evs: seq<Event>, downHeld: bool): (r: Engine)
    ensures r.delay == (if downHeld then SoftDropDelay else e.delay)
    ensures r.cells == e.cells && r.items == e.items && r.score == e.score
    ensures EngineValid(e) ==> EngineValid(r)
  {
    var r := ApplyEvents(e, evs);
    if downHeld then r.(delay := SoftDropDelay) else r
  }

  /**
   * The horizontal step: all four points move by `dx`, or, when the moved piece does not
   * fit, all four stay where they were.
   */
  function MoveStep(g: Grid, stray: (int, int) -> int, pts: seq<Point>, dx: int): (r: seq<Point>)
    requires WellFormed(g)
    ensures r == pts || (r == Translate(pts, dx, 0) && Fits(g, stray, r))
    ensures (forall i :: 0 <= i < |pts| ==> r[i] == Point(pts[i].x + dx, pts[i].y)) || r == pts
    ensures dx != 0 && Fits(g, stray, Translate(pts, dx, 0)) ==> r == Translate(pts, dx, 0)
    ensures dx == 0 ==> r == pts
  {
    if dx != 0 then
      var moved := Translate(pts, dx, 0);
      if Fits(g, stray, moved) then moved else pts
    else pts
  }

  /**
   * The rotation: the turned piece when it fits, and otherwise the snapshot `start` taken
   * at the top of `gameplay`, which undoes a horizontal step of the same frame as well.
   */
  function RotateStep(g: Grid, stray: (int, int) -> int, start: seq<Point>, pts: seq<Point>, rotate: bool): (r: seq<Point>)
    requires WellFormed(g) && |pts| == 4
    ensures r == pts || r == start || (r == Rotated(pts) && Fits(g, stray, r))
    ensures rotate && !Fits(g, stray, Rotated(pts)) ==> r == start
    ensures rotate && Fits(g, stray, Rotated(pts)) ==> r == Rotated(pts)
    ensures !rotate ==> r == pts
  {
    if rotate then
      var turned := Rotated(pts);
      if Fits(g, stray, turned) then turned else start
    else pts
  }

  /** A blocked rotation also cancels the horizontal step made in the same frame. */
  lemma BlockedRotationCancelsMove(g: Grid, stray: (int, int) -> int, start: seq<Point>, dx: int)
    requires WellFormed(g) && |start| == 4 && dx != 0
    requires Fits(g, stray, Translate(start, dx, 0))
    requires !Fits(g, stray, Rotated(Translate(start, dx, 0)))
    ensures MoveStep(g, stray, start, dx) == Translate(start, dx, 0) != start
    ensures RotateStep(g, stray, start, MoveStep(g, stray, start, dx), true) == start
  {
    assert Translate(start, dx, 0)[0] != start[0];
  }

  /** Unsigned `currentTime - startTime`. */
  function Elapsed(now: int, start: int): (d: int)
    ensures 0 <= d < TickModulus
    ensures IsTick(now) && IsTick(start) && start <= now ==> d == now - start
  {
    (now - start) % TickModulus
  }

  predicate GravityDue(e: Engine)
  {
    Elapsed(e.currentTime, e.startTime) > e.delay
  }

  /** `currentTetrimino`: the upcoming piece starts falling and a new one is drawn. */
  function Spawn(e: Engine, colorDraw: nat, shapeDraw: nat): Engine
  {
    e.(color := e.upcomingColor, items := e.upcoming,
       upcomingColor := ColorOf(colorDraw), upcoming := Figure(ShapeOf(shapeDraw)))
  }

  /**
   * The gravity tick: one row down when that fits; otherwise the piece is written into
   * the field where it is and the upcoming piece takes its place. Either way the clock
   * restarts.
   */
  function Fall(e: Engine, stray: (int, int) -> int, colorDraw: nat, shapeDraw: nat): (r: Engine)
    requires WellFormed(e.cells)
  {
    var dropped := Translate(e.items, 0, 1);
    var next := if Fits(e.cells, stray, dropped) then e.(items := dropped)
                else Spawn(e.(cells := Lock(e.cells, e.items, e.color)), colorDraw, shapeDraw);
    next.(startTime := e.currentTime)
  }

  /** One call of `gameplay`: move, rotate, gravity, line clear and score, then reset the input. */
  function GameplayStep(e: Engine, stray: (int, int) -> int, colorDraw: nat, shapeDraw: nat): (r: Engine)
    requires EngineValid(e)
    ensures r.dx == 0 && !r.rotate && r.delay == DefaultDelay
    ensures r.running == e.running && r.currentTime == e.currentTime
  {
    var moved := MoveStep(e.cells, stray, e.items, e.dx);
    var turned := RotateStep(e.cells, stray, e.items, moved, e.rotate);
    var e1 := e.(items := turned);
    var e2 := if GravityDue(e) then Fall(e1, stray, colorDraw, shapeDraw) else e1;
    ClearAndReset(e2)
  }

  /** The end of `gameplay`: the clearing pass, ten points per row it counts, and the input reset. */
  function ClearAndReset(e: Engine): (r: Engine)
    ensures r.dx == 0 && !r.rotate && r.delay == DefaultDelay
    ensures r.running == e.running && r.currentTime == e.currentTime
  {
    var cleared := ClearLines(e.cells);
    e.(cells := cleared.0, score := e.score + RowBonus * cleared.1,
       dx := 0, rotate := false, delay := DefaultDelay)
  }

  /** `gameplay` keeps every invariant of the engine. */
  lemma GameplayKeepsInvariant(e: Engine, stray: (int, int) -> int, colorDraw: nat, shapeDraw: nat)
    requires EngineValid(e)
    ensures EngineValid(GameplayStep(e, stray, colorDraw, shapeDraw))
  {
    var moved := MoveStep(e.cells, stray, e.items, e.dx);
    var turned := RotateStep(e.cells, stray, e.items, moved, e.rotate);
    MoveRotateKeepsInvariant(e, stray);
    var e1 := e.(items := turned);
    if GravityDue(e) {
      FallKeepsInvariant(e1, stray, colorDraw, shapeDraw);
    }
    var e2 := if GravityDue(e) then Fall(e1, stray, colorDraw, shapeDraw) else e1;
    ClearKeepsInvariant(e2);
  }

  /** The guarded horizontal step and rotation keep every invariant of the engine. */
  lemma MoveRotateKeepsInvariant(e: Engine, stray: (int, int) -> int)
    requires EngineValid(e)
    ensures var moved := MoveStep(e.cells, stray, e.items, e.dx);
      EngineValid(e.(items := RotateStep(e.cells, stray, e.items, moved, e.rotate)))
  {
    var moved := MoveStep(e.cells, stray, e.items, e.dx);
    var turned := RotateStep(e.cells, stray, e.items, moved, e.rotate);
    assert InColumns(turned);
  }

  /** The gravity tick keeps every invariant of the engine. */
  lemma FallKeepsInvariant(e: Engine, stray: (int, int) -> int, colorDraw: nat, shapeDraw: nat)
    requires EngineValid(e)
    ensures EngineValid(Fall(e, stray, colorDraw, shapeDraw))
  {
    LockKeepsRange(e.cells, e.items, e.color);
  }

  /** The clearing pass and the reset of the frame's input keep every invariant. */
  lemma ClearKeepsInvariant(e: Engine)
    requires EngineValid(e)
    ensures EngineValid(ClearAndReset(e))
  {
    ClearFromKeepsRange(e.cells, 0);
  }

  /**
   * The score after `gameplay` is the old score plus ten for every complete row of the
   * field the pass starts from; it never goes down.
   */
  lemma GameplayScore(e: Engine, stray: (int, int) -> int, colorDraw: nat, shapeDraw: nat)
    requires EngineValid(e)
    ensures var r := GameplayStep(e, stray, colorDraw, shapeDraw);
      var moved := MoveStep(e.cells, stray, e.items, e.dx);
      var turned := RotateStep(e.cells, stray, e.items, moved, e.rotate);
      var before := if GravityDue(e) then Fall(e.(items := turned), stray, colorDraw, shapeDraw).cells else e.cells;
      r.score == e.score + RowBonus * FullRows(before) && r.score >= e.score
  {
    var moved := MoveStep(e.cells, stray, e.items, e.dx);
    var turned := RotateStep(e.cells, stray, e.items, moved, e.rotate);
    var before := if GravityDue(e) then Fall(e.(items := turned), stray, colorDraw, shapeDraw).cells else e.cells;
    ClearLinesCompacts(before);
    FullRowsFront(before);
  }

  /** Counting complete rows from the front gives the same number. */
  lemma {:induction false} FullRowsFront(rows: Grid)
    requires |rows| >= 1
    ensures FullRows(rows) == (if Complete(rows[0]) then 1 else 0) + FullRows(rows[1..])
    decreases |rows|
  {
    if |rows| > 1 {
      var init := rows[..|rows| - 1];
      FullRowsFront(init);
      assert init[1..] == rows[1..][..|rows[1..]| - 1];
      assert init[0] == rows[0];
    } else {
      assert rows[1..] == [];
      assert rows[..0] == [];
    }
  }

  /**
   * The lock: when gravity is due and the piece cannot move down, exactly the cells the
   * piece covered before the drop receive its colour, every other cell is unchanged, and
   * the upcoming piece becomes the falling one.
   */
  lemma FallLocksPiece(e: Engine, stray: (int, int) -> int, colorDraw: nat, shapeDraw: nat)
    requires EngineValid(e)
    requires !Fits(e.cells, stray, Translate(e.items, 0, 1))
    ensures var r := Fall(e, stray, colorDraw, shapeDraw);
      && (forall y, x :: 0 <= y < Lines && 0 <= x < Cols ==>
            r.cells[y][x] == if Point(x, y) in e.items then e.color else e.cells[y][x])
      && r.items == e.upcoming && r.color == e.upcomingColor && r.startTime == e.currentTime
  {
  }

  /** When the drop fits, the piece moves down one row and the field is untouched. */
  lemma FallMovesDown(e: Engine, stray: (int, int) -> int, colorDraw: nat, shapeDraw: nat)
    requires EngineValid(e)
    requires Fits(e.cells, stray, Translate(e.items, 0, 1))
    ensures var r := Fall(e, stray, colorDraw, shapeDraw);
      r.cells == e.cells && r.items == Translate(e.items, 0, 1) && r.startTime == e.currentTime
  {
  }

  // ---------------------------------------------------------------- game over

  /** The check drawn each frame: the game is over as soon as row 0 holds a block. */
  predicate TopRowOccupied(g: Grid)
  {
    |g| > 0 && exists x :: 0 <= x < |g[0]| && g[0][x] != 0
  }
}
