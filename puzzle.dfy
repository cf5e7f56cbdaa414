/**
 * The sliding picture puzzle (class `MindMaze` in src/puzzle.hpp): a 4 x 4 grid holding a
 * permutation of the tile numbers 0..15, tile 15 being the empty one. Arrow keys trade the
 * empty tile with a neighbour in place. The rule the key handler implements with row and
 * column tests is stated once more on the row-major numbering of the cells, where Left
 * and Right are simply the next and the previous cell.
 */
module MindMaze {
  import opened Sdl
  import TimeText

  const GridSize := 4
  const NumPieces := 16
  /** The tile drawn as the gap. */
  const EmptyTile := 15
  /** Seconds a game lasts. */
  const GameDuration := 100
  const TickModulus := 0x1_0000_0000

  datatype Option<T> = None | Some(value: T)

  /** The finished picture: cell `k` (row-major) holds tile `k`. */
  function Solved(): (s: seq<int>)
    ensures |s| == NumPieces && forall k :: 0 <= k < NumPieces ==> s[k] == k
  {
    seq(NumPieces, k => k)
  }

  /** A board: the sixteen tiles, each once, in row-major order. */
  predicate IsArrangement(s: seq<int>)
  {
    |s| == NumPieces && multiset(s) == multiset(Solved())
  }

  function Swap(s: seq<int>, i: int, j: int): (r: seq<int>)
    requires 0 <= i < |s| && 0 <= j < |s|
    ensures |r| == |s| && r[i] == s[j] && r[j] == s[i]
    ensures forall k :: 0 <= k < |s| && k != i && k != j ==> r[k] == s[k]
    ensures multiset(r) == multiset(s)
  {
    s[i := s[j]][j := s[i]]
  }

  /** The first cell holding `v`. */
  function IndexOf(s: seq<int>, v: int): (k: int)
    requires v in s
    ensures 0 <= k < |s| && s[k] == v && v !in s[..k]
  {
    if s[0] == v then 0 else
      assert v in s[1..] by { assert s == [s[0]] + s[1..]; }
      var k := IndexOf(s[1..], v) + 1;
      assert s[..k] == [s[0]] + s[1..][..k - 1];
      k
  }

  /** In an arrangement a tile stands in one cell only. */
  lemma TileIsUnique(s: seq<int>, i: int)
    requires IsArrangement(s) && 0 <= i < |s|
    ensures IndexOf(s, s[i]) == i
  {
    var j := IndexOf(s, s[i]);
    SolvedCountsOnce(s[i]);
    if j < i {
      CountsTwice(s, j, i);
      assert false;
    }
  }

  /** A value in two different cells is counted twice. */
  lemma CountsTwice(s: seq<int>, j: int, i: int)
    requires 0 <= j < i < |s| && s[j] == s[i]
    ensures multiset(s)[s[i]] >= 2
  {
    assert s == s[..i] + s[i..];
    assert multiset(s) == multiset(s[..i]) + multiset(s[i..]);
    assert s[i] in s[..i] by { assert s[..i][j] == s[i]; }
    assert s[i] in s[i..] by { assert s[i..][0] == s[i]; }
  }

  lemma SolvedCountsOnce(v: int)
    ensures multiset(Solved())[v] <= 1
  {
    var s := Solved();
    forall n | 0 <= n <= NumPieces
      ensures multiset(s[..n])[v] == if 0 <= v < n then 1 else 0
    {
      CountPrefix(v, n);
    }
    assert s[..NumPieces] == s;
  }

  lemma {:induction false} CountPrefix(v: int, n: nat)
    requires n <= NumPieces
    ensures multiset(Solved()[..n])[v] == if 0 <= v < n then 1 else 0
  {
    if n > 0 {
      CountPrefix(v, n - 1);
      assert Solved()[..n] == Solved()[..n - 1] + [n - 1];
    }
  }

  /** Where the gap is. */
  function EmptyCell(s: seq<int>): (e: int)
    requires IsArrangement(s)
    ensures 0 <= e < NumPieces && s[e] == EmptyTile
  {
    assert EmptyTile in multiset(Solved()) by { assert Solved()[EmptyTile] == EmptyTile; }
    IndexOf(s, EmptyTile)
  }

  /**
   * The cell the gap trades with, on the row-major numbering: Up the cell below, Down the
   * cell above, Left the next cell, Right the previous one (so Left and Right wrap between
   * the end of one row and the start of the next). No partner at the edge, none for
   * other keys.
   */
  function Partner(e: int, k: Key): (t: Option<int>)
    requires 0 <= e < NumPieces
    ensures t.Some? ==> 0 <= t.value < NumPieces && t.value != e
    ensures k != Up && k != Down && k != Left && k != Right ==> t.None?
  {
    match k
    case Up => if e + GridSize < NumPieces then Some(e + GridSize) else None
    case Down => if e - GridSize >= 0 then Some(e - GridSize) else None
    case Left => if e + 1 < NumPieces then Some(e + 1) else None
    case Right => if e - 1 >= 0 then Some(e - 1) else None
    case _ => None
  }

  /** A key press on the board. */
  function KeyStep(s: seq<int>, k: Key): (r: seq<int>)
    requires IsArrangement(s)
    ensures IsArrangement(r)
  {
    var e := EmptyCell(s);
    match Partner(e, k)
    case Some(t) => Swap(s, e, t)
    case None => s
  }

  function Opposite(k: Key): Key
  {
    match k
    case Up => Down
    case Down => Up
    case Left => Right
    case Right => Left
    case _ => k
  }

  /** A key trades the gap with its partner cell, in either order of the two cells. */
  lemma KeyStepSwaps(s: seq<int>, k: Key)
    requires IsArrangement(s)
    ensures Partner(EmptyCell(s), k).None? ==> KeyStep(s, k) == s
    ensures Partner(EmptyCell(s), k).Some? ==>
      KeyStep(s, k) == Swap(s, Partner(EmptyCell(s), k).value, EmptyCell(s))
  {
    var e := EmptyCell(s);
    if Partner(e, k).Some? {
      var t := Partner(e, k).value;
      assert Swap(s, e, t) == Swap(s, t, e);
    }
  }

  /** Left from the last column or Right from the first: the keys that trade across rows. */
  predicate Wraps(k: Key, x: int)
  {
    (k == Left && x == GridSize - 1) || (k == Right && x == 0)
  }

  /** The cell a key aims at from the gap, on rows and columns. */
  function Aimed(k: Key, y: int, x: int): (int, int)
  {
    match k
    case Up => (y + 1, x)
    case Down => (y - 1, x)
    case Left => (y, x + 1)
    case Right => (y, x - 1)
    case _ => (y, x)
  }

  /** Cell `k` of the row-major numbering is row `k / 4`, column `k % 4`. */
  lemma CellIndex(k: int, y: int, x: int)
    ensures 0 <= x < GridSize ==> ((k / GridSize == y && k % GridSize == x) <==> k == GridSize * y + x)
  {
  }

  /** Away from the wrapping ends, the aimed cell is the flat partner whenever it is a neighbour on the grid. */
  lemma AimedIsPartner(y: int, x: int, k: Key)
    requires InGrid(y, x) && !Wraps(k, x)
    ensures var (cy, cx) := Aimed(k, y, x);
      Partner(GridSize * y + x, k) ==
        if Adjacent(cy, cx, y, x) && InGrid(cy, cx) then Some(GridSize * cy + cx) else None
  {
  }

  predicate Adjacent(y1: int, x1: int, y2: int, x2: int)
  {
    (x1 == x2 && Abs(y1 - y2) == 1) || (y1 == y2 && Abs(x1 - x2) == 1)
  }

  predicate InGrid(y: int, x: int)
  {
    0 <= x < GridSize && 0 <= y < GridSize
  }

  /** Pressing the opposite key right after a move that happened puts every tile back. */
  lemma OppositeKeyUndoes(s: seq<int>, k: Key)
    requires IsArrangement(s)
    requires Partner(EmptyCell(s), k).Some?
    ensures KeyStep(KeyStep(s, k), Opposite(k)) == s
  {
    var e := EmptyCell(s);
    var t := Partner(e, k).value;
    var s1 := KeyStep(s, k);
    assert s1 == Swap(s, e, t);
    TileIsUnique(s1, t);
    assert EmptyCell(s1) == t;
    assert Partner(t, Opposite(k)) == Some(e);
    assert Swap(s1, t, e) == s;
  }

  /** A key that has no partner cell leaves the board as it was. */
  lemma BlockedKeyKeepsBoard(s: seq<int>, k: Key)
    requires IsArrangement(s)
    requires Partner(EmptyCell(s), k).None?
    ensures KeyStep(s, k) == s
  {
  }

  /** Any sequence of swaps (the start-up shuffle) keeps the board an arrangement. */
  function ApplySwaps(s: seq<int>, swaps: seq<(int, int)>): (r: seq<int>)
    requires |s| == NumPieces
    requires forall n :: 0 <= n < |swaps| ==> 0 <= swaps[n].0 < NumPieces && 0 <= swaps[n].1 < NumPieces
    ensures |r| == NumPieces && multiset(r) == multiset(s)
    decreases |swaps|
  {
    if swaps == [] then s else ApplySwaps(Swap(s, swaps[0].0, swaps[0].1), swaps[1..])
  }

  /** The board after a frame's events in order: each key-down is a `KeyStep`, other events leave it. */
  function KeySteps(s: seq<int>, evs: seq<Event>): (r: seq<int>)
    requires IsArrangement(s)
    ensures IsArrangement(r)
    ensures (forall n :: 0 <= n < |evs| ==> !evs[n].KeyDown?) ==> r == s
    decreases |evs|
  {
    if evs == [] then s
    else KeySteps(if evs[0].KeyDown? then KeyStep(s, evs[0].key) else s, evs[1..])
  }

  predicate IsSolved(s: seq<int>)
  {
    s == Solved()
  }

  /** What `update` does with the frame: the solved check comes before the clock. */
  datatype Outcome = Won | TimedOut | Playing

  function Decide(solved: bool, currentTime: int, endTime: int): (o: Outcome)
    ensures solved <==> o == Won
    ensures o == TimedOut <==> !solved && currentTime >= endTime
  {
    if solved then Won else if currentTime >= endTime then TimedOut else Playing
  }

  /** The time shown: what is left, or 0 once the end has passed. */
  function RemainingTime(endTime: int, currentTime: int): (r: int)
    ensures r >= 0 && (r == 0 <==> endTime <= currentTime)
    ensures r > 0 ==> currentTime + r == endTime
  {
    if endTime > currentTime then endTime - currentTime else 0
  }

  class MindMaze {
    const grid: array2<int>
    var running: bool
    var puzzleSolved: bool
    var startTime: int
    var endTime: int
    var currentTime: int

    ghost function Board(): (s: seq<int>)
      reads grid
      requires grid.Length0 == GridSize && grid.Length1 == GridSize
      ensures |s| == NumPieces
    {
      seq(NumPieces, k requires 0 <= k < NumPieces reads grid => grid[k / GridSize, k % GridSize])
    }

    ghost predicate Valid()
      reads this, grid
    {
      grid.Length0 == GridSize && grid.Length1 == GridSize && IsArrangement(Board())
    }

    /** `MindMaze()` then `initialize()`: tiles in order, shuffled by `swaps`, clock started. */
    constructor (swaps: seq<(int, int)>, now: int)
      requires forall n :: 0 <= n < |swaps| ==> 0 <= swaps[n].0 < NumPieces && 0 <= swaps[n].1 < NumPieces
      requires 0 <= now < TickModulus
      ensures Valid() && fresh(grid)
      ensures Board() == ApplySwaps(Solved(), swaps)
      ensures running && !puzzleSolved
      ensures startTime == now && endTime == (now + GameDuration * 1000) % TickModulus
    {
      grid := new int[GridSize, GridSize];
      running, puzzleSolved := true, false;
      startTime, currentTime := now, 0;
      endTime := (now + GameDuration * 1000) % TickModulus;
      new;
      FillInOrder();
      Shuffle(swaps);
    }

    /** The numbering loop of `initialize`: cell `(i, j)` gets tile `4 * i + j`. */
    method FillInOrder()
      requires grid.Length0 == GridSize && grid.Length1 == GridSize
      modifies grid
      ensures forall i, j :: 0 <= i < GridSize && 0 <= j < GridSize ==> grid[i, j] == GridSize * i + j
      ensures Board() == Solved()
    {
      var pieceIndex := 0;
      for i := 0 to GridSize
        invariant pieceIndex == GridSize * i
        invariant forall y, x :: 0 <= y < i && 0 <= x < GridSize ==> grid[y, x] == GridSize * y + x
      {
        for j := 0 to GridSize
          invariant pieceIndex == GridSize * i + j
          invariant forall y, x :: 0 <= y < i && 0 <= x < GridSize ==> grid[y, x] == GridSize * y + x
          invariant forall x :: 0 <= x < j ==> grid[i, x] == GridSize * i + x
        {
          grid[i, j] := pieceIndex;
          pieceIndex := pieceIndex + 1;
        }
      }
    }

    /** Swaps two cells given by row and column. */
    method SwapCells(y1: int, x1: int, y2: int, x2: int)
      requires grid.Length0 == GridSize && grid.Length1 == GridSize
      requires 0 <= y1 < GridSize && 0 <= x1 < GridSize && 0 <= y2 < GridSize && 0 <= x2 < GridSize
      modifies grid
      ensures Board() == Swap(old(Board()), GridSize * y1 + x1, GridSize * y2 + x2)
    {
      grid[y1, x1], grid[y2, x2] := grid[y2, x2], grid[y1, x1];
      ghost var want := Swap(old(Board()), GridSize * y1 + x1, GridSize * y2 + x2);
      forall k | 0 <= k < NumPieces
        ensures Board()[k] == want[k]
      {
        CellIndex(k, y1, x1);
        CellIndex(k, y2, x2);
      }
    }

    /** The start-up shuffle, as the sequence of swaps it performs. */
    method Shuffle(swaps: seq<(int, int)>)
      requires grid.Length0 == GridSize && grid.Length1 == GridSize
      requires forall n :: 0 <= n < |swaps| ==> 0 <= swaps[n].0 < NumPieces && 0 <= swaps[n].1 < NumPieces
      modifies grid
      ensures Board() == ApplySwaps(old(Board()), swaps)
    {
      for n := 0 to |swaps|
        invariant ApplySwaps(Board(), swaps[n..]) == ApplySwaps(old(Board()), swaps)
      {
        var a, b := swaps[n].0, swaps[n].1;
        ghost var before := Board();
        SwapCells(a / GridSize, a % GridSize, b / GridSize, b % GridSize);
        assert GridSize * (a / GridSize) + a % GridSize == a;
        assert GridSize * (b / GridSize) + b % GridSize == b;
        assert Board() == Swap(before, a, b);
        assert swaps[n..][1..] == swaps[n + 1..];
      }
      assert swaps[|swaps|..] == [];
    }

    /** The search of `handleEvents` for the gap, row by row, stopping at the first hit. */
    method FindEmpty() returns (y: int, x: int)
      requires Valid()
      ensures 0 <= y < GridSize && 0 <= x < GridSize
      ensures GridSize * y + x == EmptyCell(Board())
    {
      ghost var e := EmptyCell(Board());
      for i := 0 to GridSize
        invariant GridSize * i <= e
      {
        for j := 0 to GridSize
          invariant GridSize * i + j <= e
        {
          assert Board()[GridSize * i + j] == grid[i, j];
          if grid[i, j] == NumPieces - 1 {
            TileIsUnique(Board(), GridSize * i + j);
            return i, j;
          }
        }
      }
      assert false;
    }

    /** The Left key with the gap in the last column: it trades at once with the next row's first cell. */
    method WrapLeft(emptyY: int)
      requires Valid() && 0 <= emptyY < GridSize
      requires GridSize * emptyY + GridSize - 1 == EmptyCell(Board())
      modifies grid
      ensures Valid()
      ensures Board() == KeyStep(old(Board()), Left)
    {
      if emptyY == 0 {
        TradeGap(1, 0, emptyY, GridSize - 1, Left);
      } else if emptyY == 1 {
        TradeGap(2, 0, emptyY, GridSize - 1, Left);
      } else if emptyY == 2 {
        TradeGap(3, 0, emptyY, GridSize - 1, Left);
      } else {
        KeyStepSwaps(Board(), Left);
      }
    }

    /** The Right key with the gap in the first column: it trades at once with the previous row's last cell. */
    method WrapRight(emptyY: int)
      requires Valid() && 0 <= emptyY < GridSize
      requires GridSize * emptyY == EmptyCell(Board())
      modifies grid
      ensures Valid()
      ensures Board() == KeyStep(old(Board()), Right)
    {
      if emptyY == 1 {
        TradeGap(0, 3, emptyY, 0, Right);
      } else if emptyY == 2 {
        TradeGap(1, 3, emptyY, 0, Right);
      } else if emptyY == 3 {
        TradeGap(2, 3, emptyY, 0, Right);
      } else {
        KeyStepSwaps(Board(), Right);
      }
    }

    /** Swapping the gap at `(emptyY, emptyX)` with the cell the key `k` pairs it with is that key's step. */
    method TradeGap(y: int, x: int, emptyY: int, emptyX: int, k: Key)
      requires Valid() && InGrid(y, x) && InGrid(emptyY, emptyX)
      requires GridSize * emptyY + emptyX == EmptyCell(Board())
      requires Partner(GridSize * emptyY + emptyX, k) == Some(GridSize * y + x)
      modifies grid
      ensures Valid()
      ensures Board() == KeyStep(old(Board()), k)
    {
      KeyStepSwaps(Board(), k);
      SwapCells(y, x, emptyY, emptyX);
    }

    /** The closing test of `handleEvents`: swap the aimed cell if it is a neighbour on the grid. */
    method SwapIfAdjacent(clickedY: int, clickedX: int, emptyY: int, emptyX: int)
      requires Valid() && 0 <= emptyY < GridSize && 0 <= emptyX < GridSize
      modifies grid
      ensures Valid()
      ensures Board() == if Adjacent(clickedY, clickedX, emptyY, emptyX) && InGrid(clickedY, clickedX)
        then Swap(old(Board()), GridSize * clickedY + clickedX, GridSize * emptyY + emptyX)
        else old(Board())
    {
      if ((clickedX == emptyX && Abs(clickedY - emptyY) == 1) ||
          (clickedY == emptyY && Abs(clickedX - emptyX) == 1)) &&
         clickedX >= 0 && clickedX < GridSize && clickedY >= 0 && clickedY < GridSize
      {
        SwapCells(clickedY, clickedX, emptyY, emptyX);
      }
    }

    /**
     * The `switch` of `handleEvents`: Escape stops the game; an arrow aims at a cell next to
     * the gap, except that Left and Right at the end of a row trade across rows at once.
     */
    method SwitchOnKey(k: Key, emptyY: int, emptyX: int) returns (clickedY: int, clickedX: int)
      requires Valid() && InGrid(emptyY, emptyX)
      requires GridSize * emptyY + emptyX == EmptyCell(Board())
      modifies this`running, grid
      ensures Valid()
      ensures running == (old(running) && k != Escape)
      ensures Wraps(k, emptyX) ==>
        Board() == KeyStep(old(Board()), k) && clickedY == emptyY && clickedX == emptyX
      ensures !Wraps(k, emptyX) ==>
        Board() == old(Board()) && (clickedY, clickedX) == Aimed(k, emptyY, emptyX)
    {
      clickedX, clickedY := emptyX, emptyY;
      match k {
        case Escape =>
          running := false;
        case Up =>
          clickedY := clickedY + 1;
        case Down =>
          clickedY := clickedY - 1;
        case Left =>
          if emptyX == GridSize - 1 {
            WrapLeft(emptyY);
          } else {
            clickedX := clickedX + 1;
          }
        case Right =>
          if emptyX == 0 {
            WrapRight(emptyY);
          } else {
            clickedX := clickedX - 1;
          }
        case OtherKey =>
      }
    }

    /**
     * One polled event of `handleEvents`: Quit stops the game; a key finds the gap, runs
     * the key `switch`, then swaps the aimed cell when it is a neighbour inside the grid.
     */
    method HandleEvent(ev: Event)
      requires Valid()
      modifies this`running, grid
      ensures Valid()
      ensures ev.KeyDown? ==> Board() == KeyStep(old(Board()), ev.key)
      ensures !ev.KeyDown? ==> Board() == old(Board())
      ensures running == (old(running) && ev != Quit && ev != KeyDown(Escape))
    {
      if ev == Quit {
        running := false;
      }
      if ev.KeyDown? {
        ghost var s := Board();
        var emptyY, emptyX := FindEmpty();
        var clickedY, clickedX := SwitchOnKey(ev.key, emptyY, emptyX);
        SwapIfAdjacent(clickedY, clickedX, emptyY, emptyX);
        if !Wraps(ev.key, emptyX) {
          AimedIsPartner(emptyY, emptyX, ev.key);
          KeyStepSwaps(s, ev.key);
        }
      }
    }

    /** `handleEvents`: the polled events one after the other. */
    method HandleEvents(events: seq<Event>)
      requires Valid()
      modifies this`running, grid
      ensures Valid()
      ensures Board() == KeySteps(old(Board()), events)
      ensures running == (old(running) && Quit !in events && KeyDown(Escape) !in events)
    {
      for n := 0 to |events|
        invariant Valid()
        invariant KeySteps(Board(), events[n..]) == KeySteps(old(Board()), events)
        invariant running == (old(running) && Quit !in events[..n] && KeyDown(Escape) !in events[..n])
      {
        assert events[n..][1..] == events[n + 1..];
        HandleEvent(events[n]);
        assert events[..n + 1] == events[..n] + [events[n]];
      }
      assert events[..|events|] == events;
    }

    /** `isPuzzleSolved`: every cell holds its own number. */
    method IsPuzzleSolved() returns (solved: bool)
      requires grid.Length0 == GridSize && grid.Length1 == GridSize
      ensures solved <==> forall i, j :: 0 <= i < GridSize && 0 <= j < GridSize ==> grid[i, j] == GridSize * i + j
      ensures solved <==> IsSolved(Board())
    {
      var expectedValue := 0;
      for i := 0 to GridSize
        invariant expectedValue == GridSize * i
        invariant forall y, x :: 0 <= y < i && 0 <= x < GridSize ==> grid[y, x] == GridSize * y + x
      {
        for j := 0 to GridSize
          invariant expectedValue == GridSize * i + j
          invariant forall x :: 0 <= x < j ==> grid[i, x] == GridSize * i + x
        {
          if grid[i, j] != expectedValue {
            assert Board()[GridSize * i + j] != Solved()[GridSize * i + j];
            return false;
          }
          expectedValue := expectedValue + 1;
        }
      }
      assert forall k :: 0 <= k < NumPieces ==> Board()[k] == grid[k / GridSize, k % GridSize];
      return true;
    }

    /** `update`: a solved board wins; otherwise a passed end time loses; both stop the game. */
    method Update() returns (outcome: Outcome)
      requires Valid()
      modifies this`puzzleSolved, this`running
      ensures Valid()
      ensures puzzleSolved == IsSolved(Board())
      ensures outcome == Decide(puzzleSolved, currentTime, endTime)
      ensures running == (old(running) && outcome == Playing)
    {
      puzzleSolved := IsPuzzleSolved();
      outcome := Decide(puzzleSolved, currentTime, endTime);
      if puzzleSolved {
        running := false;
      } else if currentTime >= endTime {
        running := false;
      }
    }

    /**
     * One pass of the loop in `run`: `handleEvents`, then `update` with the clock the last
     * `render` read, then the clock part of `render`.
     */
    method Frame(events: seq<Event>, now: int) returns (outcome: Outcome, text: string)
      requires Valid() && 0 <= now < TickModulus
      modifies this`running, this`puzzleSolved, this`currentTime, grid
      ensures Valid()
      ensures Board() == KeySteps(old(Board()), events)
      ensures outcome == Decide(IsSolved(Board()), old(currentTime), endTime)
      ensures running == (old(running) && Quit !in events && KeyDown(Escape) !in events && outcome == Playing)
      ensures currentTime == now && text == TimeText.FormatTime(RemainingTime(endTime, now))
    {
      ghost var clock := currentTime;
      HandleEvents(events);
      ghost var board := Board();
      outcome := Update();
      assert Board() == board && currentTime == clock;
      text := RenderClock(now);
      assert Board() == board;
    }

    /** The clock part of `render`: read the time, show what is left as `m:ss`. */
    method RenderClock(now: int) returns (text: string)
      requires 0 <= now < TickModulus
      modifies this`currentTime
      ensures currentTime == now
      ensures text == TimeText.FormatTime(RemainingTime(endTime, now))
    {
      currentTime := now;
      var remaining := RemainingTime(endTime, currentTime);
      text := TimeText.FormatTime(remaining);
    }
  }

  function Abs(n: int): (r: int)
    ensures r >= 0 && (r == n || r == -n)
  {
    if n < 0 then -n else n
  }
}
