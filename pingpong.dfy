/**
 * The two-player paddle game (class `PingPong` in src/pingpong.hpp) on its 700 x 700
 * window: paddles steered from the keyboard state, and a ball that bounces off the top
 * and bottom walls and the paddles and scores a point when it reaches a side.
 */
module Pong {
  import opened Sdl

  const Width := 700
  const Height := 700
  const BallSize := 35
  const BallSpeed := 4
  const PaddleWidth := 30
  const PaddleHeight := 150
  const PaddleSpeed := 7
  /** Distance of each paddle from its side of the window. */
  const PaddleMargin := 20
  const MaxScore := 10

  /** The keyboard state read after polling: W and S for the left paddle, the arrows for the right. */
  datatype Held = Held(w: bool, s: bool, up: bool, down: bool, escape: bool)

  datatype Table = Table(
    ball: Rect,
    lPaddle: Rect,
    rPaddle: Rect,
    velX: int,
    velY: int,
    lScore: int,
    rScore: int,
    running: bool)

  const LeftPaddleX := PaddleMargin
  const RightPaddleX := Width - PaddleMargin - PaddleWidth

  /** The ball's serving place: the centre of the window. */
  function Serve(ball: Rect): (r: Rect)
    ensures r.w == ball.w && r.h == ball.h
  {
    ball.(x := Width / 2 - BallSize / 2, y := Height / 2 - BallSize / 2)
  }

  /** The state `run` starts its loop with. */
  function Initial(): (t: Table)
    ensures TableValid(t) && t.running && t.lScore == 0 && t.rScore == 0
  {
    Table(Rect(Width / 2 - BallSize / 2, Height / 2 - BallSize / 2, BallSize, BallSize),
      Rect(LeftPaddleX, Height / 2 - PaddleHeight / 2, PaddleWidth, PaddleHeight),
      Rect(RightPaddleX, Height / 2 - PaddleHeight / 2, PaddleWidth, PaddleHeight),
      BallSpeed, BallSpeed, 0, 0, true)
  }

  // ---------------------------------------------------------------- invariant

  /** A paddle in its column, of its size, never more than one step beyond the window. */
  predicate PaddleOk(p: Rect, x: int)
  {
    p.x == x && p.w == PaddleWidth && p.h == PaddleHeight &&
    -PaddleSpeed < p.y && p.y + p.h < Height + PaddleSpeed
  }

  /** The ball resting where it is served from. */
  predicate AtCentre(b: Rect)
  {
    b.x == Width / 2 - BallSize / 2 && b.y == Height / 2 - BallSize / 2
  }

  /**
   * What every frame keeps: the ball moves diagonally at speed 4 strictly between the
   * side edges, at most one step beyond the top or bottom and then heading back in; the
   * paddles stay near the window; no score passes 10 and not both reach it; while the
   * game runs, a score of 10 means the point was just scored and the ball is being
   * served; once it stops, someone has 10.
   */
  predicate TableValid(t: Table)
  {
    t.ball.w == BallSize && t.ball.h == BallSize &&
    (t.velX == BallSpeed || t.velX == -BallSpeed) && (t.velY == BallSpeed || t.velY == -BallSpeed) &&
    0 < t.ball.x && t.ball.x + BallSize < Width &&
    -BallSpeed < t.ball.y && t.ball.y + BallSize < Height + BallSpeed &&
    (t.ball.y <= 0 ==> t.velY > 0) && (t.ball.y + BallSize >= Height ==> t.velY < 0) &&
    PaddleOk(t.lPaddle, LeftPaddleX) && PaddleOk(t.rPaddle, RightPaddleX) &&
    0 <= t.lScore <= MaxScore && 0 <= t.rScore <= MaxScore &&
    !(t.lScore == MaxScore && t.rScore == MaxScore) &&
    (t.running && (t.lScore == MaxScore || t.rScore == MaxScore) ==> AtCentre(t.ball)) &&
    (!t.running ==> t.lScore == MaxScore || t.rScore == MaxScore)
  }

  // ---------------------------------------------------------------- handleEvents

  predicate QuitPolled(events: seq<Event>)
  {
    exists k :: 0 <= k < |events| && events[k] == Quit
  }

  /** One paddle: 7 up if its top is below the window's top, then 7 down if its bottom is above the floor. */
  function MovePaddle(p: Rect, up: bool, down: bool): (r: Rect)
    ensures r.x == p.x && r.w == p.w && r.h == p.h
    ensures r.y - p.y in {-PaddleSpeed, 0, PaddleSpeed}
    ensures r.y < p.y ==> up && p.y > 0
    ensures r.y > p.y ==> down && p.y + p.h < Height
    ensures up && !down && p.y > 0 ==> r.y == p.y - PaddleSpeed
    ensures down && !up && p.y + p.h < Height ==> r.y == p.y + PaddleSpeed
    ensures !up && !down ==> r == p
  {
    var p1 := if up && p.y > 0 then p.(y := p.y - PaddleSpeed) else p;
    if down && p1.y + p1.h < Height then p1.(y := p1.y + PaddleSpeed) else p1
  }

  /** A paddle near the window stays near it, whatever keys are held. */
  lemma PaddleStaysNearWindow(p: Rect, x: int, up: bool, down: bool)
    requires PaddleOk(p, x)
    ensures PaddleOk(MovePaddle(p, up, down), x)
  {
  }

  /**
   * The guard is tested before the step, so a paddle can end partly outside: from 2
   * pixels below the top, one press of up leaves it 5 pixels above the window.
   */
  lemma PaddleCanOvershoot()
    ensures MovePaddle(Rect(LeftPaddleX, 2, PaddleWidth, PaddleHeight), true, false).y == -5
  {
  }

  /** `handleEvents`: a polled Quit ends the program at once; otherwise both paddles move. */
  function HandleStep(t: Table, events: seq<Event>, held: Held): Table
  {
    if QuitPolled(events) then t
    else t.(lPaddle := MovePaddle(t.lPaddle, held.w, held.s), rPaddle := MovePaddle(t.rPaddle, held.up, held.down))
  }

  lemma HandleKeepsValid(t: Table, events: seq<Event>, held: Held)
    requires TableValid(t)
    ensures TableValid(HandleStep(t, events, held))
  {
    PaddleStaysNearWindow(t.lPaddle, LeftPaddleX, held.w, held.s);
    PaddleStaysNearWindow(t.rPaddle, RightPaddleX, held.up, held.down);
  }

  // ---------------------------------------------------------------- update

  predicate AtWall(b: Rect)
  {
    b.y <= 0 || b.y + BallSize >= Height
  }

  predicate LeftContact(b: Rect, p: Rect)
  {
    b.x <= p.x + p.w && b.y + BallSize >= p.y && b.y <= p.y + p.h
  }

  predicate RightContact(b: Rect, p: Rect)
  {
    b.x + BallSize >= p.x && b.y + BallSize >= p.y && b.y <= p.y + p.h
  }

  /** The ball after this frame's step, before any bounce or point. */
  function Moved(t: Table): Rect
  {
    t.ball.(x := t.ball.x + t.velX, y := t.ball.y + t.velY)
  }

  /**
   * `update`: the ball steps; the game is stopped if a score had already reached 10; the
   * walls flip the vertical speed; each paddle contact flips the horizontal speed; a
   * ball at the left edge gives the right player a point, one at the right edge the left
   * player, and either serves again from the centre.
   */
  function UpdateStep(t: Table): Table
  {
    var b := Moved(t);
    var running := if t.lScore >= MaxScore || t.rScore >= MaxScore then false else t.running;
    var vy := if AtWall(b) then -t.velY else t.velY;
    var vx1 := if LeftContact(b, t.lPaddle) then -t.velX else t.velX;
    var vx := if RightContact(b, t.rPaddle) then -vx1 else vx1;
    if b.x <= 0 then
      t.(ball := Serve(b), velX := BallSpeed, velY := BallSpeed, rScore := t.rScore + 1, running := running)
    else if b.x + BallSize >= Width then
      t.(ball := Serve(b), velX := -BallSpeed, velY := -BallSpeed, lScore := t.lScore + 1, running := running)
    else
      t.(ball := b, velX := vx, velY := vy, running := running)
  }

  /**
   * Scores never go down and at most one of them rises per update: the right player's
   * exactly when the ball reaches the left edge, the left player's exactly when it
   * reaches the right edge instead.
   */
  lemma AtMostOnePoint(t: Table)
    ensures var r := UpdateStep(t);
      r.lScore >= t.lScore && r.rScore >= t.rScore && r.lScore + r.rScore <= t.lScore + t.rScore + 1 &&
      (r.rScore > t.rScore <==> Moved(t).x <= 0) &&
      (r.lScore > t.lScore <==> 0 < Moved(t).x && Moved(t).x + BallSize >= Width)
  {
  }

  /** The game stops on the update after a score has reached 10, not on the one that reaches it. */
  lemma StopsAfterMaxScore(t: Table)
    ensures UpdateStep(t).running == (t.running && t.lScore < MaxScore && t.rScore < MaxScore)
  {
  }

  /** A point serves from the centre, towards the side that scored. */
  lemma PointServesFromCentre(t: Table)
    requires Moved(t).x <= 0 || Moved(t).x + BallSize >= Width
    ensures var r := UpdateStep(t);
      r.ball.x == Width / 2 - BallSize / 2 && r.ball.y == Height / 2 - BallSize / 2 &&
      (Moved(t).x <= 0 ==> r.velX > 0 && r.velY > 0) &&
      (Moved(t).x > 0 ==> r.velX < 0 && r.velY < 0)
  {
  }

  /**
   * Away from the sides, each paddle contact reverses the horizontal speed on its own, so
   * touching both at once leaves it as it was; the walls reverse the vertical speed.
   */
  lemma ContactsFlipSpeeds(t: Table)
    requires 0 < Moved(t).x && Moved(t).x + BallSize < Width
    ensures var r := UpdateStep(t);
      var b := Moved(t);
      r.ball == b &&
      (LeftContact(b, t.lPaddle) != RightContact(b, t.rPaddle) ==> r.velX == -t.velX) &&
      (LeftContact(b, t.lPaddle) == RightContact(b, t.rPaddle) ==> r.velX == t.velX) &&
      (r.velY == if AtWall(b) then -t.velY else t.velY)
  {
  }

  /** A served ball cannot reach a side on the next update. */
  lemma ServedBallStaysInPlay(t: Table)
    requires TableValid(t) && AtCentre(t.ball)
    ensures 0 < Moved(t).x && Moved(t).x + BallSize < Width
  {
  }

  /** Every update the loop in `run` makes (it makes them only while the game runs) keeps the invariant. */
  lemma UpdateKeepsValid(t: Table)
    requires TableValid(t) && t.running
    ensures TableValid(UpdateStep(t))
  {
    var b := Moved(t);
    if t.lScore == MaxScore || t.rScore == MaxScore {
      ServedBallStaysInPlay(t);
    }
    if 0 < b.x && b.x + BallSize < Width {
      assert b.y <= 0 ==> t.velY < 0;
      assert b.y + BallSize >= Height ==> t.velY > 0;
    }
  }

  datatype Side = LeftPlayer | RightPlayer

  /** The side the game-over screen names: the left player if their score is 10 or more. */
  function Winner(t: Table): Side
  {
    if t.lScore >= MaxScore then LeftPlayer else RightPlayer
  }

  /**
   * The update that stops the game scores no point, and the winner it leaves on the
   * screen is the one player who had already reached 10.
   */
  lemma GameOverNamesFirstToMax(t: Table)
    requires TableValid(t) && t.running && !UpdateStep(t).running
    ensures var r := UpdateStep(t);
      r.lScore == t.lScore && r.rScore == t.rScore &&
      (t.lScore == MaxScore) != (t.rScore == MaxScore) &&
      Winner(r) == (if t.lScore == MaxScore then LeftPlayer else RightPlayer)
  {
    ServedBallStaysInPlay(t);
  }

  class PingPong {
    var ball: Rect
    var lPaddle: Rect
    var rPaddle: Rect
    var ballVelX: int
    var ballVelY: int
    var lScore: int
    var rScore: int
    var running: bool

    ghost function View(): Table
      reads this
    {
      Table(ball, lPaddle, rPaddle, ballVelX, ballVelY, lScore, rScore, running)
    }

    /** The constructor, `initialize` and the ball set-up in `run`. */
    constructor ()
      ensures View() == Initial()
    {
      ballVelX, ballVelY := BallSpeed, BallSpeed;
      lScore, rScore := 0, 0;
      running := true;
      lPaddle := Rect(PaddleMargin, Height / 2 - PaddleHeight / 2, PaddleWidth, PaddleHeight);
      rPaddle := Rect(Width - PaddleMargin - PaddleWidth, Height / 2 - PaddleHeight / 2, PaddleWidth, PaddleHeight);
      ball := Rect(Width / 2 - BallSize / 2, Height / 2 - BallSize / 2, BallSize, BallSize);
    }

    /**
     * `handleEvents`: a polled Quit ends the program before anything moves; otherwise the
     * paddles move, and a held Escape then ends the program (`exit`).
     */
    method HandleEvents(events: seq<Event>, held: Held) returns (exit: bool)
      modifies this`lPaddle, this`rPaddle
      ensures exit == (QuitPolled(events) || held.escape)
      ensures View() == HandleStep(old(View()), events, held)
    {
      for k := 0 to |events|
        invariant forall m :: 0 <= m < k ==> events[m] != Quit
      {
        if events[k] == Quit {
          return true;
        }
      }
      if held.w && lPaddle.y > 0 {
        lPaddle := lPaddle.(y := lPaddle.y - PaddleSpeed);
      }
      if held.s && lPaddle.y + lPaddle.h < Height {
        lPaddle := lPaddle.(y := lPaddle.y + PaddleSpeed);
      }
      if held.up && rPaddle.y > 0 {
        rPaddle := rPaddle.(y := rPaddle.y - PaddleSpeed);
      }
      if held.down && rPaddle.y + rPaddle.h < Height {
        rPaddle := rPaddle.(y := rPaddle.y + PaddleSpeed);
      }
      exit := held.escape;
    }

    /** `update`, step by step as the source orders it. */
    method Update()
      modifies this`ball, this`ballVelX, this`ballVelY, this`lScore, this`rScore, this`running
      ensures View() == UpdateStep(old(View()))
    {
      ghost var t := View();
      ball := ball.(x := ball.x + ballVelX);
      ball := ball.(y := ball.y + ballVelY);
      if lScore >= MaxScore || rScore >= MaxScore {
        running := false;
      }
      Bounce();
      ghost var b := Moved(t);
      assert ball == b;
      assert ballVelY == if AtWall(b) then -t.velY else t.velY;
      assert ballVelX == if RightContact(b, t.rPaddle) then
        (if LeftContact(b, t.lPaddle) then t.velX else -t.velX)
      else
        (if LeftContact(b, t.lPaddle) then -t.velX else t.velX);
      ScorePoint();
    }

    /** The walls flip the vertical speed, then each paddle it touches the horizontal one. */
    method Bounce()
      modifies this`ballVelX, this`ballVelY
      ensures ballVelY == if AtWall(ball) then -old(ballVelY) else old(ballVelY)
      ensures ballVelX == if RightContact(ball, rPaddle) then
        (if LeftContact(ball, lPaddle) then old(ballVelX) else -old(ballVelX))
      else
        (if LeftContact(ball, lPaddle) then -old(ballVelX) else old(ballVelX))
    {
      if ball.y <= 0 || ball.y + BallSize >= Height {
        ballVelY := -ballVelY;
      }
      if ball.x <= lPaddle.x + lPaddle.w && ball.y + BallSize >= lPaddle.y && ball.y <= lPaddle.y + lPaddle.h {
        ballVelX := -ballVelX;
      }
      if ball.x + BallSize >= rPaddle.x && ball.y + BallSize >= rPaddle.y && ball.y <= rPaddle.y + rPaddle.h {
        ballVelX := -ballVelX;
      }
    }

    /** A ball at a side gives the other player a point and is served again from the centre. */
    method ScorePoint()
      modifies this`ball, this`ballVelX, this`ballVelY, this`lScore, this`rScore
      ensures old(ball.x) <= 0 ==>
        ball == Serve(old(ball)) && ballVelX == BallSpeed && ballVelY == BallSpeed &&
        rScore == old(rScore) + 1 && lScore == old(lScore)
      ensures 0 < old(ball.x) && old(ball.x) + BallSize >= Width ==>
        ball == Serve(old(ball)) && ballVelX == -BallSpeed && ballVelY == -BallSpeed &&
        lScore == old(lScore) + 1 && rScore == old(rScore)
      ensures 0 < old(ball.x) && old(ball.x) + BallSize < Width ==>
        ball == old(ball) && ballVelX == old(ballVelX) && ballVelY == old(ballVelY) &&
        lScore == old(lScore) && rScore == old(rScore)
    {
      if ball.x <= 0 {
        rScore := rScore + 1;
        ball := ball.(x := Width / 2 - BallSize / 2);
        ball := ball.(y := Height / 2 - BallSize / 2);
        ballVelX := BallSpeed;
        ballVelY := BallSpeed;
      } else if ball.x + BallSize >= Width {
        lScore := lScore + 1;
        ball := ball.(x := Width / 2 - BallSize / 2);
        ball := ball.(y := Height / 2 - BallSize / 2);
        ballVelX := -BallSpeed;
        ballVelY := -BallSpeed;
      }
    }

    /** One pass of the loop in `run`: events, then `update`; the invariant holds after it. */
    method Frame(events: seq<Event>, held: Held) returns (exit: bool)
      requires TableValid(View()) && running
      modifies this
      ensures exit == (QuitPolled(events) || held.escape)
      ensures !exit ==> View() == UpdateStep(HandleStep(old(View()), events, held))
      ensures TableValid(View())
    {
      HandleKeepsValid(View(), events, held);
      exit := HandleEvents(events, held);
      if exit {
        return;
      }
      UpdateKeepsValid(View());
      Update();
    }
  }
}
