/**
 * The falling-block engine as the source keeps it: a 20 x 10 integer field updated in
 * place, four-point arrays for the falling piece, its backup and the upcoming piece, and
 * the counters. Every method is proved to compute the matching function of module
 * TetrisRules on the abstract view `View()`.
 */
module TetrisGame {
  import opened Sdl
  import opened TetrisRules

  class Tetris {
    const field: array2<int>
    const items: array<Point>
    const backup: array<Point>
    const upcomingItems: array<Point>
    var color: int
    var upcomingColor: int
    var dx: int
    var rotate: bool
    var delay: int
    var startTime: int
    var currentTime: int
    var score: int
    var running: bool

    /** The fixed sizes of the arrays, and that the three point arrays are distinct. */
    predicate Shaped()
    {
      && field.Length0 == Lines && field.Length1 == Cols
      && items.Length == 4 && backup.Length == 4 && upcomingItems.Length == 4
      && items != backup && items != upcomingItems && backup != upcomingItems
    }

    ghost function Cells(): (g: Grid)
      reads field
      requires Shaped()
      ensures WellFormed(g)
    {
      seq(Lines, y requires 0 <= y < Lines reads field =>
        seq(Cols, x requires 0 <= x < Cols reads field => field[y, x]))
    }

    ghost function View(): Engine
      reads this, field, items, upcomingItems
      requires Shaped()
    {
      Engine(Cells(), items[..], upcomingItems[..], color, upcomingColor, dx, rotate,
        delay, startTime, currentTime, score, running)
    }

    ghost predicate Valid()
      reads this, field, items, upcomingItems
    {
      Shaped() && EngineValid(View())
    }

    /** `Tetris()` followed by a successful `initialize()` and `firstTetrimino()`. */
    constructor (colorDraw: nat, shapeDraw: nat, nextColorDraw: nat, nextShapeDraw: nat)
      ensures Valid() && fresh(field) && fresh(items) && fresh(backup) && fresh(upcomingItems)
      ensures View() == Initial(colorDraw, shapeDraw, nextColorDraw, nextShapeDraw)
    {
      field := new int[Lines, Cols]((y, x) => 0);
      items := new Point[4](i => Point(0, 0));
      backup := new Point[4](i => Point(0, 0));
      upcomingItems := new Point[4](i => Point(0, 0));
      dx, rotate, delay := 0, false, DefaultDelay;
      startTime, currentTime, score := 0, 0, 0;
      running := true;
      color := 1;
      new;
      forall y | 0 <= y < Lines
        ensures Cells()[y] == EmptyGrid()[y]
      {
      }
      assert Cells() == EmptyGrid();
      NextTetrimino(nextColorDraw, nextShapeDraw);
      FirstTetrimino(colorDraw, shapeDraw);
      assert View() == Initial(colorDraw, shapeDraw, nextColorDraw, nextShapeDraw);
    }

    /** `firstTetrimino`: the falling piece and its colour from two draws. */
    method FirstTetrimino(colorDraw: nat, shapeDraw: nat)
      requires Shaped()
      modifies this`color, items
      ensures color == ColorOf(colorDraw) && items[..] == Figure(ShapeOf(shapeDraw))
    {
      color := ColorOf(colorDraw);
      var n := ShapeOf(shapeDraw);
      for i := 0 to 4
        invariant forall k :: 0 <= k < i ==> items[k] == Figure(n)[k]
        modifies items
      {
        items[i] := Decode(Figures[n][i]);
      }
      assert items[..] == Figure(n);
    }

    /** `nextTetrimino`: the upcoming piece and its colour from two draws. */
    method NextTetrimino(colorDraw: nat, shapeDraw: nat)
      requires Shaped()
      modifies this`upcomingColor, upcomingItems
      ensures upcomingColor == ColorOf(colorDraw) && upcomingItems[..] == Figure(ShapeOf(shapeDraw))
    {
      upcomingColor := ColorOf(colorDraw);
      var n := ShapeOf(shapeDraw);
      for i := 0 to 4
        invariant forall k :: 0 <= k < i ==> upcomingItems[k] == Figure(n)[k]
        modifies upcomingItems
      {
        upcomingItems[i] := Decode(Figures[n][i]);
      }
      assert upcomingItems[..] == Figure(n);
    }

    /** `currentTetrimino`: the upcoming piece becomes the falling one; a new one is drawn. */
    method CurrentTetrimino(colorDraw: nat, shapeDraw: nat)
      requires Shaped()
      modifies this`color, this`upcomingColor, items, upcomingItems
      ensures color == old(upcomingColor) && items[..] == old(upcomingItems[..])
      ensures upcomingColor == ColorOf(colorDraw) && upcomingItems[..] == Figure(ShapeOf(shapeDraw))
    {
      color := upcomingColor;
      for i := 0 to 4
        invariant forall k :: 0 <= k < i ==> items[k] == upcomingItems[k]
        invariant upcomingItems[..] == old(upcomingItems[..])
        modifies items
      {
        items[i] := upcomingItems[i];
      }
      assert items[..] == old(upcomingItems[..]);
      NextTetrimino(colorDraw, shapeDraw);
    }

    method SetCurrentTime(t: int)
      requires Valid() && IsTick(t)
      modifies this`currentTime
      ensures Valid() && View() == old(View()).(currentTime := t)
    {
      currentTime := t;
    }

    /** `handleEvents`: the frame's polled events, then the held down key. */
    method HandleEvents(events: seq<Event>, downHeld: bool)
      requires Valid()
      modifies this`running, this`rotate, this`dx, this`delay
      ensures Valid() && View() == HandleStep(old(View()), events, downHeld)
    {
      ghost var e0 := View();
      for i := 0 to |events|
        invariant Shaped()
        invariant ApplyEvents(View(), events[i..]) == ApplyEvents(e0, events)
        invariant View().(running := e0.running, rotate := e0.rotate, dx := e0.dx) == e0
      {
        ghost var before := View();
        match events[i] {
          case Quit =>
            running := false;
          case KeyDown(k) =>
            match k {
              case Escape => running := false;
              case Up => rotate := true;
              case Left => dx := -1;
              case Right => dx := 1;
              case _ =>
            }
          case OtherEvent =>
        }
        assert View() == ApplyEvent(before, events[i]);
        assert events[i..] == [events[i]] + events[i + 1..];
      }
      assert events[|events|..] == [];
      if downHeld {
        delay := SoftDropDelay;
      }
    }

    /** `isvalid`: whether every point of the falling piece fits. */
    method IsValid(stray: (int, int) -> int) returns (ok: bool)
      requires Shaped()
      ensures ok == Fits(Cells(), stray, items[..])
    {
      var i := 0;
      while i < 4
        invariant 0 <= i <= 4
        invariant forall k :: 0 <= k < i ==> PointFits(Cells(), stray, items[k])
      {
        var p := items[i];
        if p.x < 0 || p.x >= Cols || p.y >= Lines {
          return false;
        } else if (if p.y >= 0 then field[p.y, p.x] else stray(p.y, p.x)) != 0 {
          return false;
        }
        i := i + 1;
      }
      return true;
    }

    method SaveBackup()
      requires Shaped()
      modifies backup
      ensures backup[..] == items[..]
    {
      for i := 0 to 4
        invariant forall k :: 0 <= k < i ==> backup[k] == items[k]
      {
        backup[i] := items[i];
      }
    }

    method RestoreBackup()
      requires Shaped()
      modifies items
      ensures items[..] == backup[..]
    {
      for i := 0 to 4
        invariant forall k :: 0 <= k < i ==> items[k] == backup[k]
      {
        items[i] := backup[i];
      }
    }

    method TranslateItems(ddx: int, ddy: int)
      requires Shaped()
      modifies items
      ensures items[..] == Translate(old(items[..]), ddx, ddy)
    {
      for i := 0 to 4
        invariant forall k :: 0 <= k < i ==> items[k] == Point(old(items[k]).x + ddx, old(items[k]).y + ddy)
        invariant forall k :: i <= k < 4 ==> items[k] == old(items[k])
      {
        items[i] := Point(items[i].x + ddx, items[i].y + ddy);
      }
    }

    /** The rotation loop: each point turned about a copy of the third point. */
    method RotateItems()
      requires Shaped()
      modifies items
      ensures items[..] == Rotated(old(items[..]))
    {
      var p := items[2];
      for i := 0 to 4
        invariant forall k :: 0 <= k < i ==> items[k] == RotateAbout(old(items[k]), p)
        invariant forall k :: i <= k < 4 ==> items[k] == old(items[k])
      {
        var x := items[i].y - p.y;
        var y := items[i].x - p.x;
        items[i] := Point(p.x - x, p.y + y);
      }
    }

    /** Writes the colour into the field cells of the backup points. */
    method LockBackup()
      requires Shaped() && InColumns(backup[..])
      modifies field
      ensures Cells() == Lock(old(Cells()), backup[..], color)
    {
      for i := 0 to 4
        invariant forall y, x :: 0 <= y < Lines && 0 <= x < Cols ==>
          field[y, x] == if Point(x, y) in backup[..i] then color else old(field[y, x])
      {
        var p := backup[i];
        assert backup[..i + 1] == backup[..i] + [p];
        if p.y >= 0 {
          field[p.y, p.x] := color;
        }
      }
      assert backup[..4] == backup[..];
      ghost var want := Lock(old(Cells()), backup[..], color);
      forall y | 0 <= y < Lines
        ensures Cells()[y] == want[y]
      {
        assert |Cells()[y]| == |want[y]|;
      }
    }

    /** The inner scan of the clearing pass: whether row `i` has no empty cell. */
    method RowComplete(i: int) returns (full: bool)
      requires Shaped() && 0 <= i < Lines
      ensures full == Complete(Cells()[i])
    {
      full := true;
      var j := 0;
      while j < Cols
        invariant 0 <= j <= Cols
        invariant forall k :: 0 <= k < j ==> field[i, k] != 0
      {
        if field[i, j] == 0 {
          full := false;
          assert Cells()[i][j] == 0;
          break;
        }
        j := j + 1;
      }
      assert full ==> forall k :: 0 <= k < Cols ==> Cells()[i][k] == field[i, k];
    }

    /** Rows `i, i-1, ..., 1` each take the row above them, bottom first. */
    method ShiftRowsDown(i: int)
      requires Shaped() && 0 <= i < Lines
      modifies field
      ensures Cells() == ShiftDown(old(Cells()), i)
    {
      var j := i;
      while j > 0
        invariant 0 <= j <= i
        invariant forall y, x :: 0 <= y < Lines && 0 <= x < Cols ==>
          field[y, x] == if j < y <= i then old(field[y - 1, x]) else old(field[y, x])
      {
        for k := 0 to Cols
          invariant forall y, x :: 0 <= y < Lines && 0 <= x < Cols ==>
            field[y, x] == if j < y <= i || (y == j && x < k) then old(field[y - 1, x]) else old(field[y, x])
        {
          field[j, k] := field[j - 1, k];
        }
        j := j - 1;
      }
      ghost var want := ShiftDown(old(Cells()), i);
      forall y | 0 <= y < Lines
        ensures Cells()[y] == want[y]
      {
        assert |Cells()[y]| == |want[y]|;
      }
    }

    /** The clearing pass over all rows, top to bottom; returns the number of complete rows met. */
    method ClearCompletedLines() returns (completed: nat)
      requires Shaped()
      modifies field
      ensures (Cells(), completed) == ClearLines(old(Cells()))
    {
      completed := 0;
      ghost var g0 := Cells();
      for i := 0 to Lines
        invariant ClearFrom(Cells(), i).0 == ClearLines(g0).0
        invariant completed + ClearFrom(Cells(), i).1 == ClearLines(g0).1
      {
        var full := RowComplete(i);
        if full {
          completed := completed + 1;
          ShiftRowsDown(i);
        }
      }
    }

    /** The first half of `gameplay`: the guarded horizontal step, then the guarded rotation. */
    method MoveAndRotate(stray: (int, int) -> int)
      requires Valid()
      modifies items, backup
      ensures Valid()
      ensures var e := old(View());
        View() == e.(items := RotateStep(e.cells, stray, e.items, MoveStep(e.cells, stray, e.items, e.dx), e.rotate))
    {
      ghost var e := View();
      MoveRotateKeepsInvariant(e, stray);
      SaveBackup();
      MoveItems(stray);
      RotateItemsIfAsked(stray);
    }

    /** The horizontal step, undone from the backup when the moved piece does not fit. */
    method MoveItems(stray: (int, int) -> int)
      requires Shaped() && backup[..] == items[..]
      modifies items
      ensures items[..] == MoveStep(Cells(), stray, old(items[..]), dx)
    {
      if dx != 0 {
        TranslateItems(dx, 0);
        var ok := IsValid(stray);
        if !ok {
          RestoreBackup();
        }
      }
    }

    /** The rotation, undone from the backup when the turned piece does not fit. */
    method RotateItemsIfAsked(stray: (int, int) -> int)
      requires Shaped()
      modifies items
      ensures items[..] == RotateStep(Cells(), stray, backup[..], old(items[..]), rotate)
    {
      if rotate {
        RotateItems();
        var ok := IsValid(stray);
        if !ok {
          RestoreBackup();
        }
      }
    }

    /** The gravity part of `gameplay`: when the delay has passed, drop or lock. */
    method GravityTick(stray: (int, int) -> int, colorDraw: nat, shapeDraw: nat)
      requires Valid()
      modifies this`startTime, this`color, this`upcomingColor, field, items, backup, upcomingItems
      ensures Shaped()
      ensures View() == if GravityDue(old(View())) then Fall(old(View()), stray, colorDraw, shapeDraw) else old(View())
    {
      if Elapsed(currentTime, startTime) > delay {
        SaveBackup();
        TranslateItems(0, 1);
        var ok := IsValid(stray);
        if !ok {
          LockBackup();
          CurrentTetrimino(colorDraw, shapeDraw);
        }
        startTime := currentTime;
      }
    }

    /** `gameplay`: one frame of move, rotate, gravity, line clear and scoring. */
    method Gameplay(stray: (int, int) -> int, colorDraw: nat, shapeDraw: nat)
      requires Valid()
      modifies this, field, items, backup, upcomingItems
      ensures Valid()
      ensures View() == GameplayStep(old(View()), stray, colorDraw, shapeDraw)
    {
      ghost var e := View();
      GameplayKeepsInvariant(e, stray, colorDraw, shapeDraw);
      MoveAndRotate(stray);
      GravityTick(stray, colorDraw, shapeDraw);
      ClearAndScore();
    }

    /** The end of `gameplay`: clear complete rows, score them, and reset the frame's input. */
    method ClearAndScore()
      requires Shaped()
      modifies this`score, this`dx, this`rotate, this`delay, field
      ensures Shaped() && View() == ClearAndReset(old(View()))
    {
      var completed := ClearCompletedLines();
      if completed > 0 {
        score := score + completed * RowBonus;
      }
      dx := 0;
      rotate := false;
      delay := DefaultDelay;
    }

    /** The row-0 check of `renderGameOver`: a block in row 0 ends the game. */
    method CheckGameOver() returns (gameOver: bool)
      requires Valid()
      modifies this`running
      ensures Valid()
      ensures gameOver == TopRowOccupied(Cells())
      ensures running == (old(running) && !gameOver)
      ensures View() == old(View()).(running := running)
    {
      gameOver := false;
      var i := 0;
      while i < Cols
        invariant 0 <= i <= Cols
        invariant forall k :: 0 <= k < i ==> field[0, k] == 0
        invariant running == old(running)
      {
        if field[0, i] != 0 {
          gameOver := true;
          running := false;
          break;
        }
        i := i + 1;
      }
      assert gameOver ==> Cells()[0][i] != 0;
    }

    /** One pass of the `run` loop: clock, input, `gameplay`, then the game-over check. */
    method Frame(now: int, events: seq<Event>, downHeld: bool, stray: (int, int) -> int, colorDraw: nat, shapeDraw: nat)
      requires Valid() && IsTick(now)
      modifies this, field, items, backup, upcomingItems
      ensures Valid()
      ensures var e := GameplayStep(HandleStep(old(View()).(currentTime := now), events, downHeld), stray, colorDraw, shapeDraw);
        View() == e.(running := e.running && !TopRowOccupied(e.cells))
    {
      SetCurrentTime(now);
      HandleEvents(events, downHeld);
      Gameplay(stray, colorDraw, shapeDraw);
      var over := CheckGameOver();
    }
  }
}
