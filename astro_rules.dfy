/**
 * The rules of the shooter (class `AstroStrike` in src/astrostrike.hpp) as functions on its
 * whole state. The class in astro_game.dfy runs the same rules with loops over its vector
 * fields, and each of its methods is proved to agree with the function here.
 *
 * `rand()` is a parameter: `rng(k)` is the value of the `k`-th call, and the state counts
 * the calls made so far, so every draw is taken in the order the game makes it.
 */
module AstroRules {
  import opened Sdl

  const ScreenWidth := 800
  const ScreenHeight := 600
  /** Seconds a game lasts. */
  const GameDuration := 20
  const TickModulus := 0x1_0000_0000
  /** Pixels the ship moves per frame while an arrow key is held. */
  const PlayerStep := 5
  const PlayerSize := 100
  const BulletWidth := 20
  const BulletHeight := 50
  const BulletSpeed := 5
  const SmallSize := 50
  const LargeSize := 100
  const LargeHealth := 3
  /** New and recycled enemies start up to this many pixels above the screen. */
  const SpawnDepth := 500
  const MaxEnemies := 20
  const MaxLargeEnemies := 2

  /** C++ `/` on `int`: truncates toward zero. */
  function CDiv(a: int, b: int): (q: int)
    requires b > 0
    ensures a >= 0 ==> q == a / b
    ensures a < 0 ==> q == -((-a) / b)
  {
    if a >= 0 then a / b else -((-a) / b)
  }

  datatype Bullet = Bullet(pos: Rect, speed: int, active: bool)
  datatype Enemy = Enemy(pos: Rect, speed: int, active: bool)
  datatype LargeEnemy = LargeEnemy(pos: Rect, health: int, speed: int, active: bool)

  /** The keyboard state read after polling: the arrow keys and the space bar. */
  datatype Held = Held(left: bool, right: bool, space: bool)

  datatype World = World(
    player: Rect,
    bullets: seq<Bullet>,
    enemies: seq<Enemy>,
    larges: seq<LargeEnemy>,
    score: int,
    woah: bool,
    checkpoint: bool,
    gameover: bool,
    startTime: int,
    endTime: int,
    currentTime: int,
    rolls: nat)

  /** The state `run` sets up before its first frame: one idle bullet, no enemies. */
  function Initial(now: int): (w: World)
    requires 0 <= now < TickModulus
    ensures WorldValid(w) && w.score == 0
    ensures 0 <= w.endTime < TickModulus && w.endTime == (now + GameDuration * 1000) % TickModulus
  {
    World(Rect(ScreenWidth / 2 - 50, ScreenHeight - 100, PlayerSize, PlayerSize),
      [Bullet(Rect(0, 0, BulletWidth, BulletHeight), BulletSpeed, false)],
      [], [], 0, false, false, false,
      now, (now + GameDuration * 1000) % TickModulus, now, 0)
  }

  // ---------------------------------------------------------------- invariants

  function ActiveEnemies(es: seq<Enemy>): nat
  {
    if es == [] then 0 else ActiveEnemies(es[..|es| - 1]) + (if es[|es| - 1].active then 1 else 0)
  }

  function ActiveLarges(ls: seq<LargeEnemy>): nat
  {
    if ls == [] then 0 else ActiveLarges(ls[..|ls| - 1]) + (if ls[|ls| - 1].active then 1 else 0)
  }

  function ActiveBullets(bs: seq<Bullet>): nat
  {
    if bs == [] then 0 else ActiveBullets(bs[..|bs| - 1]) + (if bs[|bs| - 1].active then 1 else 0)
  }

  predicate EnemyOk(e: Enemy)
  {
    e.pos.w == SmallSize && e.pos.h == SmallSize && 1 <= e.speed <= 5 &&
    0 <= e.pos.x < ScreenWidth - SmallSize && (e.active ==> e.pos.y <= ScreenHeight)
  }

  predicate LargeOk(l: LargeEnemy)
  {
    l.pos.w == LargeSize && l.pos.h == LargeSize && l.speed == 1 &&
    0 <= l.pos.x < ScreenWidth - LargeSize &&
    (l.active ==> l.pos.y <= ScreenHeight && 1 <= l.health <= LargeHealth)
  }

  predicate BulletOk(b: Bullet)
  {
    b.pos.w == BulletWidth && b.pos.h == BulletHeight && b.speed == BulletSpeed
  }

  /**
   * What every frame keeps: the ship on screen on the 5-pixel grid, enemies of their fixed
   * sizes and speeds inside the screen's width and never below its bottom while active, a
   * live large enemy with 1 to 3 health, and no more live enemies than the caps.
   */
  predicate WorldValid(w: World)
  {
    w.player.w == PlayerSize && w.player.h == PlayerSize && w.player.y == ScreenHeight - 100 &&
    0 <= w.player.x <= ScreenWidth - PlayerSize && w.player.x % PlayerStep == 0 &&
    (forall k :: 0 <= k < |w.bullets| ==> BulletOk(w.bullets[k])) &&
    (forall k :: 0 <= k < |w.enemies| ==> EnemyOk(w.enemies[k])) &&
    (forall k :: 0 <= k < |w.larges| ==> LargeOk(w.larges[k])) &&
    ActiveEnemies(w.enemies) <= MaxEnemies && ActiveLarges(w.larges) <= MaxLargeEnemies
  }

  /** Switching enemies off never raises the count of live ones. */
  lemma {:induction false} FewerActiveEnemies(a: seq<Enemy>, b: seq<Enemy>)
    requires |a| == |b| && forall k :: 0 <= k < |a| && b[k].active ==> a[k].active
    ensures ActiveEnemies(b) <= ActiveEnemies(a)
  {
    if a != [] {
      FewerActiveEnemies(a[..|a| - 1], b[..|b| - 1]);
    }
  }

  lemma {:induction false} FewerActiveLarges(a: seq<LargeEnemy>, b: seq<LargeEnemy>)
    requires |a| == |b| && forall k :: 0 <= k < |a| && b[k].active ==> a[k].active
    ensures ActiveLarges(b) <= ActiveLarges(a)
  {
    if a != [] {
      FewerActiveLarges(a[..|a| - 1], b[..|b| - 1]);
    }
  }

  // ---------------------------------------------------------------- handleEvents

  /** A polled Quit or Escape ends the program on the spot. */
  predicate ExitRequested(events: seq<Event>)
  {
    exists k :: 0 <= k < |events| && (events[k] == Quit || events[k] == KeyDown(Escape))
  }

  /** Left moves 5 pixels if the ship is right of 0; then Right moves 5 if it is short of the right edge. */
  function Steer(p: Rect, held: Held): (r: Rect)
    ensures r.y == p.y && r.w == p.w && r.h == p.h
    ensures !held.left && !held.right ==> r == p
    ensures r.x < p.x ==> held.left && p.x > 0
    ensures r.x > p.x ==> held.right && p.x < ScreenWidth - p.w
    ensures held.left && !held.right && p.x > 0 ==> r.x == p.x - PlayerStep
    ensures held.right && !held.left && p.x < ScreenWidth - p.w ==> r.x == p.x + PlayerStep
  {
    var x1 := if held.left && p.x > 0 then p.x - PlayerStep else p.x;
    var x2 := if held.right && x1 < ScreenWidth - p.w then x1 + PlayerStep else x1;
    p.(x := x2)
  }

  /** A ship on the 5-pixel grid inside the screen stays there, whatever is held. */
  lemma SteerStaysOnScreen(p: Rect, held: Held)
    requires 0 <= p.w <= ScreenWidth && (ScreenWidth - p.w) % PlayerStep == 0
    requires 0 <= p.x <= ScreenWidth - p.w && p.x % PlayerStep == 0
    ensures 0 <= Steer(p, held).x <= ScreenWidth - p.w && Steer(p, held).x % PlayerStep == 0
  {
  }

  /** The first idle bullet; all bullets before it are in flight. */
  function FirstIdle(bs: seq<Bullet>): (i: nat)
    ensures i <= |bs| && (i < |bs| ==> !bs[i].active)
    ensures forall k :: 0 <= k < i ==> bs[k].active
  {
    if bs == [] || !bs[0].active then 0 else 1 + FirstIdle(bs[1..])
  }

  /** A bullet set off from the ship: horizontally centred on it, at its top edge. */
  function Launch(b: Bullet, p: Rect): (r: Bullet)
    ensures r.active && r.speed == b.speed && r.pos.y == p.y && r.pos.w == b.pos.w && r.pos.h == b.pos.h
    ensures 0 <= b.pos.w && 0 <= p.w && b.pos.w % 2 == 0 && p.w % 2 == 0 ==>
      2 * r.pos.x + r.pos.w == 2 * p.x + p.w
  {
    b.(pos := b.pos.(x := p.x + CDiv(p.w, 2) - CDiv(b.pos.w, 2), y := p.y), active := true)
  }

  /** Space: the first idle bullet is launched; with none idle nothing happens. */
  function Fire(bs: seq<Bullet>, p: Rect): (r: seq<Bullet>)
    ensures |r| == |bs|
    ensures forall k :: 0 <= k < |bs| && k != FirstIdle(bs) ==> r[k] == bs[k]
    ensures FirstIdle(bs) < |bs| ==> r[FirstIdle(bs)] == Launch(bs[FirstIdle(bs)], p)
  {
    var i := FirstIdle(bs);
    if i < |bs| then bs[i := Launch(bs[i], p)] else bs
  }

  /** Firing puts exactly one more bullet in flight when one was idle, and none otherwise. */
  lemma FireLaunchesOne(bs: seq<Bullet>, p: Rect)
    ensures ActiveBullets(Fire(bs, p)) == ActiveBullets(bs) + (if FirstIdle(bs) < |bs| then 1 else 0)
  {
    var i := FirstIdle(bs);
    if i < |bs| {
      ReplaceCount(bs, i, Launch(bs[i], p));
    }
  }

  lemma {:induction false} ReplaceCount(bs: seq<Bullet>, i: nat, b: Bullet)
    requires i < |bs|
    ensures ActiveBullets(bs[i := b]) ==
      ActiveBullets(bs) - (if bs[i].active then 1 else 0) + (if b.active then 1 else 0)
  {
    var n := |bs| - 1;
    if i < n {
      ReplaceCount(bs[..n], i, b);
      assert bs[i := b][..n] == bs[..n][i := b];
    } else {
      assert bs[i := b][..n] == bs[..n];
    }
  }

  /** One `handleEvents`: polling (which may end the program), steering, then firing. */
  function HandleStep(w: World, events: seq<Event>, held: Held): World
  {
    if ExitRequested(events) then w
    else
      var p := Steer(w.player, held);
      w.(player := p, bullets := if held.space then Fire(w.bullets, p) else w.bullets)
  }

  // ---------------------------------------------------------------- update: hits

  predicate Hit(b: Rect, e: Enemy)
  {
    e.active && Intersects(b, e.pos)
  }

  predicate HitLarge(b: Rect, l: LargeEnemy)
  {
    l.active && Intersects(b, l.pos)
  }

  /**
   * One turn of the small-enemy loop for bullet `i`: a hit on enemy `j` switches bullet
   * and enemy off, adds one point and sets the check-point flag to whether the score is
   * now a positive multiple of ten.
   */
  function SmallStep(w: World, i: nat, j: nat): (r: World)
    requires i < |w.bullets| && j < |w.enemies|
    ensures |r.bullets| == |w.bullets| && |r.enemies| == |w.enemies|
  {
    var e := w.enemies[j];
    if Hit(w.bullets[i].pos, e) then
      var s := w.score + 1;
      w.(bullets := w.bullets[i := w.bullets[i].(active := false)],
         enemies := w.enemies[j := e.(active := false)],
         score := s,
         checkpoint := s >= 10 && s % 10 == 0)
    else
      w
  }

  /** The small-enemy loop for bullet `i`, from enemy `j` on. */
  function SmallFrom(w: World, i: nat, j: nat): (r: World)
    requires i < |w.bullets|
    ensures |r.bullets| == |w.bullets| && |r.enemies| == |w.enemies|
    decreases |w.enemies| - j
  {
    if j >= |w.enemies| then w else SmallFrom(SmallStep(w, i, j), i, j + 1)
  }

  /** How many enemies from `j` on the rectangle hits. */
  function HitsFrom(es: seq<Enemy>, b: Rect, j: nat): nat
    decreases |es| - j
  {
    if j >= |es| then 0 else (if Hit(b, es[j]) then 1 else 0) + HitsFrom(es, b, j + 1)
  }

  lemma {:induction false} HitsFromSuffix(es: seq<Enemy>, fs: seq<Enemy>, b: Rect, j: nat)
    requires |es| == |fs| && forall k :: j <= k < |es| ==> es[k] == fs[k]
    ensures HitsFrom(es, b, j) == HitsFrom(fs, b, j)
    decreases |es| - j
  {
    if j < |es| {
      HitsFromSuffix(es, fs, b, j + 1);
    }
  }

  /**
   * The small-enemy loop in closed form. The bullet's flag is not looked at again after a
   * hit, so every live enemy it overlaps is switched off, each for one point; the bullet
   * is switched off iff it hit one; the check-point flag, if anything was hit, tells
   * whether the final score is a positive multiple of ten; nothing else changes.
   */
  lemma SmallPassHitsAllOverlapping(w: World, i: nat, j: nat)
    requires i < |w.bullets|
    ensures var r := SmallFrom(w, i, j);
      var b := w.bullets[i].pos;
      var n := HitsFrom(w.enemies, b, j);
      (forall k :: 0 <= k < |w.enemies| ==>
        r.enemies[k] == if j <= k && Hit(b, w.enemies[k]) then w.enemies[k].(active := false) else w.enemies[k]) &&
      r.bullets == w.bullets[i := w.bullets[i].(active := w.bullets[i].active && n == 0)] &&
      r.score == w.score + n &&
      r.checkpoint == (if n > 0 then r.score >= 10 && r.score % 10 == 0 else w.checkpoint) &&
      r.(bullets := w.bullets, enemies := w.enemies, score := w.score, checkpoint := w.checkpoint) == w
  {
    SmallPassEnemies(w, i, j);
    SmallPassBullet(w, i, j);
    SmallPassScore(w, i, j);
    SmallPassFrame(w, i, j);
  }

  /** The small-enemy loop switches off exactly the live enemies the bullet overlaps. */
  lemma {:induction false} SmallPassEnemies(w: World, i: nat, j: nat)
    requires i < |w.bullets|
    ensures var r := SmallFrom(w, i, j);
      var b := w.bullets[i].pos;
      forall k :: 0 <= k < |w.enemies| ==>
        r.enemies[k] == if j <= k && Hit(b, w.enemies[k]) then w.enemies[k].(active := false) else w.enemies[k]
    decreases |w.enemies| - j
  {
    if j < |w.enemies| {
      var w1 := SmallStep(w, i, j);
      assert w1.bullets[i].pos == w.bullets[i].pos;
      SmallPassEnemies(w1, i, j + 1);
    }
  }

  /** The small-enemy loop switches the bullet off iff it hits something. */
  lemma {:induction false} SmallPassBullet(w: World, i: nat, j: nat)
    requires i < |w.bullets|
    ensures SmallFrom(w, i, j).bullets ==
      w.bullets[i := w.bullets[i].(active := w.bullets[i].active && HitsFrom(w.enemies, w.bullets[i].pos, j) == 0)]
    decreases |w.enemies| - j
  {
    var b := w.bullets[i].pos;
    if j >= |w.enemies| {
      assert w.bullets[i := w.bullets[i]] == w.bullets;
    } else {
      var w1 := SmallStep(w, i, j);
      assert w1.bullets[i].pos == b;
      SmallPassBullet(w1, i, j + 1);
      HitsFromSuffix(w.enemies, w1.enemies, b, j + 1);
    }
  }

  /** One point per hit; the check-point flag, after any hit, tells whether the score is a positive multiple of ten. */
  lemma {:induction false} SmallPassScore(w: World, i: nat, j: nat)
    requires i < |w.bullets|
    ensures var r := SmallFrom(w, i, j);
      var n := HitsFrom(w.enemies, w.bullets[i].pos, j);
      r.score == w.score + n &&
      r.checkpoint == (if n > 0 then r.score >= 10 && r.score % 10 == 0 else w.checkpoint)
    decreases |w.enemies| - j
  {
    if j < |w.enemies| {
      var w1 := SmallStep(w, i, j);
      assert w1.bullets[i].pos == w.bullets[i].pos;
      SmallPassScore(w1, i, j + 1);
      HitsFromSuffix(w.enemies, w1.enemies, w.bullets[i].pos, j + 1);
    }
  }

  /** The small-enemy loop changes nothing but bullets, enemies, score and check-point flag. */
  lemma {:induction false} SmallPassFrame(w: World, i: nat, j: nat)
    requires i < |w.bullets|
    ensures SmallFrom(w, i, j).(bullets := w.bullets, enemies := w.enemies, score := w.score, checkpoint := w.checkpoint) == w
    decreases |w.enemies| - j
  {
    if j < |w.enemies| {
      SmallPassFrame(SmallStep(w, i, j), i, j + 1);
    }
  }

  /** What one hit does to a large enemy: one health less, and dead at 0 or below. */
  function LargeHitOnce(l: LargeEnemy): LargeEnemy
  {
    var health := l.health - 1;
    if health <= 0 then l.(health := health, active := false) else l.(health := health)
  }

  /** A live large enemy at full health survives two hits and dies on the third. */
  lemma LargeEnemyTakesThreeHits(l: LargeEnemy)
    requires l.active && l.health == LargeHealth
    ensures LargeHitOnce(l).active && LargeHitOnce(LargeHitOnce(l)).active
    ensures !LargeHitOnce(LargeHitOnce(LargeHitOnce(l))).active
  {
  }

  /**
   * One turn of the large-enemy loop for bullet `i`: a hit switches the bullet off and
   * costs enemy `j` one health; a kill is worth ten points and sets the "good job" flag,
   * a hit that does not kill clears it.
   */
  function LargeStep(w: World, i: nat, j: nat): (r: World)
    requires i < |w.bullets| && j < |w.larges|
    ensures |r.bullets| == |w.bullets| && |r.larges| == |w.larges|
  {
    var l := w.larges[j];
    if HitLarge(w.bullets[i].pos, l) then
      var hit := LargeHitOnce(l);
      w.(bullets := w.bullets[i := w.bullets[i].(active := false)],
         larges := w.larges[j := hit],
         score := if hit.active then w.score else w.score + 10,
         woah := !hit.active)
    else
      w
  }

  /** The large-enemy loop for bullet `i`, from enemy `j` on. */
  function LargeFrom(w: World, i: nat, j: nat): (r: World)
    requires i < |w.bullets|
    ensures |r.bullets| == |w.bullets| && |r.larges| == |w.larges|
    decreases |w.larges| - j
  {
    if j >= |w.larges| then w else LargeFrom(LargeStep(w, i, j), i, j + 1)
  }

  /** How many large enemies from `j` on the rectangle hits. */
  function LargeHitsFrom(ls: seq<LargeEnemy>, b: Rect, j: nat): nat
    decreases |ls| - j
  {
    if j >= |ls| then 0 else (if HitLarge(b, ls[j]) then 1 else 0) + LargeHitsFrom(ls, b, j + 1)
  }

  /** How many of them that hit kills. */
  function KillsFrom(ls: seq<LargeEnemy>, b: Rect, j: nat): (n: nat)
    ensures n <= LargeHitsFrom(ls, b, j)
    decreases |ls| - j
  {
    if j >= |ls| then 0
    else (if HitLarge(b, ls[j]) && !LargeHitOnce(ls[j]).active then 1 else 0) + KillsFrom(ls, b, j + 1)
  }

  /** The last large enemy from `j` on that the rectangle hits, or -1 when it hits none. */
  function LastLargeHit(ls: seq<LargeEnemy>, b: Rect, j: nat): (m: int)
    ensures m == -1 <==> LargeHitsFrom(ls, b, j) == 0
    ensures m != -1 ==> j <= m < |ls| && HitLarge(b, ls[m])
    ensures m != -1 ==> LargeHitsFrom(ls, b, m + 1) == 0
    decreases |ls| - j
  {
    if j >= |ls| then -1
    else
      var m := LastLargeHit(ls, b, j + 1);
      if m != -1 then m else if HitLarge(b, ls[j]) then j else -1
  }

  /** When every hit kills, the last one does; when none kills, the last one does not. */
  lemma {:induction false} LastHitAgreesWithKills(ls: seq<LargeEnemy>, b: Rect, j: nat)
    ensures var m := LastLargeHit(ls, b, j);
      m != -1 && KillsFrom(ls, b, j) == 0 ==> LargeHitOnce(ls[m]).active
    ensures var m := LastLargeHit(ls, b, j);
      m != -1 && KillsFrom(ls, b, j) == LargeHitsFrom(ls, b, j) ==> !LargeHitOnce(ls[m]).active
    decreases |ls| - j
  {
    if j < |ls| {
      LastHitAgreesWithKills(ls, b, j + 1);
    }
  }

  lemma {:induction false} LargeCountsSuffix(ls: seq<LargeEnemy>, ms: seq<LargeEnemy>, b: Rect, j: nat)
    requires |ls| == |ms| && forall k :: j <= k < |ls| ==> ls[k] == ms[k]
    ensures LargeHitsFrom(ls, b, j) == LargeHitsFrom(ms, b, j)
    ensures KillsFrom(ls, b, j) == KillsFrom(ms, b, j)
    ensures LastLargeHit(ls, b, j) == LastLargeHit(ms, b, j)
    decreases |ls| - j
  {
    if j < |ls| {
      LargeCountsSuffix(ls, ms, b, j + 1);
    }
  }

  /**
   * The large-enemy loop in closed form: every live large enemy the bullet overlaps takes
   * one hit, the score rises by ten per kill, the bullet is switched off iff it hit one,
   * and nothing else changes. The "good job" flag is left alone without a hit; after hits
   * it says whether the last one killed, so it is set when every hit kills and cleared
   * when none does.
   */
  lemma LargePassHitsAllOverlapping(w: World, i: nat, j: nat)
    requires i < |w.bullets|
    ensures var r := LargeFrom(w, i, j);
      var b := w.bullets[i].pos;
      var n := LargeHitsFrom(w.larges, b, j);
      (forall k :: 0 <= k < |w.larges| ==>
        r.larges[k] == if j <= k && HitLarge(b, w.larges[k]) then LargeHitOnce(w.larges[k]) else w.larges[k]) &&
      r.bullets == w.bullets[i := w.bullets[i].(active := w.bullets[i].active && n == 0)] &&
      r.score == w.score + 10 * KillsFrom(w.larges, b, j) &&
      (n == 0 ==> r.woah == w.woah) &&
      (n > 0 ==> r.woah == !LargeHitOnce(w.larges[LastLargeHit(w.larges, b, j)]).active) &&
      (n > 0 && KillsFrom(w.larges, b, j) == n ==> r.woah) &&
      (n > 0 && KillsFrom(w.larges, b, j) == 0 ==> !r.woah) &&
      r.(bullets := w.bullets, larges := w.larges, score := w.score, woah := w.woah) == w
  {
    LargePassEnemies(w, i, j);
    LargePassBullet(w, i, j);
    LargePassScore(w, i, j);
    LargePassFlag(w, i, j);
    LastHitAgreesWithKills(w.larges, w.bullets[i].pos, j);
    LargePassFrame(w, i, j);
  }

  /** The large-enemy loop hits each live large enemy the bullet overlaps once. */
  lemma {:induction false} LargePassEnemies(w: World, i: nat, j: nat)
    requires i < |w.bullets|
    ensures var r := LargeFrom(w, i, j);
      var b := w.bullets[i].pos;
      forall k :: 0 <= k < |w.larges| ==>
        r.larges[k] == if j <= k && HitLarge(b, w.larges[k]) then LargeHitOnce(w.larges[k]) else w.larges[k]
    decreases |w.larges| - j
  {
    if j < |w.larges| {
      var w1 := LargeStep(w, i, j);
      assert w1.bullets[i].pos == w.bullets[i].pos;
      LargePassEnemies(w1, i, j + 1);
    }
  }

  /** The large-enemy loop switches the bullet off iff it hits something. */
  lemma {:induction false} LargePassBullet(w: World, i: nat, j: nat)
    requires i < |w.bullets|
    ensures LargeFrom(w, i, j).bullets ==
      w.bullets[i := w.bullets[i].(active := w.bullets[i].active && LargeHitsFrom(w.larges, w.bullets[i].pos, j) == 0)]
    decreases |w.larges| - j
  {
    var b := w.bullets[i].pos;
    if j >= |w.larges| {
      assert w.bullets[i := w.bullets[i]] == w.bullets;
    } else {
      var w1 := LargeStep(w, i, j);
      assert w1.bullets[i].pos == b;
      LargePassBullet(w1, i, j + 1);
      LargeCountsSuffix(w.larges, w1.larges, b, j + 1);
    }
  }

  /** Ten points per kill; without a hit the "good job" flag is left alone. */
  lemma {:induction false} LargePassScore(w: World, i: nat, j: nat)
    requires i < |w.bullets|
    ensures var r := LargeFrom(w, i, j);
      var b := w.bullets[i].pos;
      r.score == w.score + 10 * KillsFrom(w.larges, b, j) &&
      (LargeHitsFrom(w.larges, b, j) == 0 ==> r.woah == w.woah)
    decreases |w.larges| - j
  {
    if j < |w.larges| {
      var w1 := LargeStep(w, i, j);
      assert w1.bullets[i].pos == w.bullets[i].pos;
      LargePassScore(w1, i, j + 1);
      LargeCountsSuffix(w.larges, w1.larges, w.bullets[i].pos, j + 1);
    }
  }

  /**
   * The "good job" flag after the large-enemy loop: set or cleared by every hit, so it
   * tells whether the last large enemy hit was killed, and is untouched without a hit.
   */
  lemma {:induction false} LargePassFlag(w: World, i: nat, j: nat)
    requires i < |w.bullets|
    ensures var r := LargeFrom(w, i, j);
      var m := LastLargeHit(w.larges, w.bullets[i].pos, j);
      r.woah == if m == -1 then w.woah else !LargeHitOnce(w.larges[m]).active
    decreases |w.larges| - j
  {
    if j < |w.larges| {
      var b := w.bullets[i].pos;
      var w1 := LargeStep(w, i, j);
      assert w1.bullets[i].pos == b;
      LargePassFlag(w1, i, j + 1);
      LargeCountsSuffix(w.larges, w1.larges, b, j + 1);
      var m1 := LastLargeHit(w.larges, b, j + 1);
      if m1 != -1 {
        assert w1.larges[m1] == w.larges[m1];
      } else {
        assert w1.woah == if HitLarge(b, w.larges[j]) then !LargeHitOnce(w.larges[j]).active else w.woah;
      }
    }
  }

  /** The large-enemy loop changes nothing but bullets, large enemies, score and the flag. */
  lemma {:induction false} LargePassFrame(w: World, i: nat, j: nat)
    requires i < |w.bullets|
    ensures LargeFrom(w, i, j).(bullets := w.bullets, larges := w.larges, score := w.score, woah := w.woah) == w
    decreases |w.larges| - j
  {
    if j < |w.larges| {
      LargePassFrame(LargeStep(w, i, j), i, j + 1);
    }
  }

  /** One bullet's turn in `update`: it rises by its speed, leaves at the top, or checks for hits. */
  function BulletStep(w: World, i: nat): (r: World)
    requires i < |w.bullets|
    ensures |r.bullets| == |w.bullets|
  {
    var b := w.bullets[i];
    if !b.active then w
    else
      var moved := b.(pos := b.pos.(y := b.pos.y - b.speed));
      if moved.pos.y < 0 then
        w.(bullets := w.bullets[i := moved.(active := false)])
      else
        LargeFrom(SmallFrom(w.(bullets := w.bullets[i := moved]), i, 0), i, 0)
  }

  /**
   * A bullet's turn, case by case. An idle bullet changes nothing. A live one rises by its
   * speed; if it passes the top it is only switched off, with no hit test and nothing else
   * changed. Otherwise it stays where it rose to, scores one point per live small enemy and
   * ten per large enemy killed, and stays live exactly when it overlapped no enemy at all.
   */
  lemma BulletStepCases(w: World, i: nat)
    requires i < |w.bullets|
    ensures var b := w.bullets[i];
      var moved := b.(pos := b.pos.(y := b.pos.y - b.speed));
      var r := BulletStep(w, i);
      (!b.active ==> r == w) &&
      (b.active && moved.pos.y < 0 ==> r == w.(bullets := w.bullets[i := moved.(active := false)])) &&
      (b.active && moved.pos.y >= 0 ==>
        r.bullets == w.bullets[i := moved.(active :=
          HitsFrom(w.enemies, moved.pos, 0) == 0 && LargeHitsFrom(w.larges, moved.pos, 0) == 0)] &&
        r.score == w.score + HitsFrom(w.enemies, moved.pos, 0) + 10 * KillsFrom(w.larges, moved.pos, 0) &&
        r.player == w.player && r.rolls == w.rolls && r.endTime == w.endTime)
  {
    var b := w.bullets[i];
    var moved := b.(pos := b.pos.(y := b.pos.y - b.speed));
    if b.active && moved.pos.y >= 0 {
      var w1 := w.(bullets := w.bullets[i := moved]);
      var w2 := SmallFrom(w1, i, 0);
      SmallPassBullet(w1, i, 0);
      SmallPassScore(w1, i, 0);
      SmallPassFrame(w1, i, 0);
      assert w2.bullets[i].pos == moved.pos && w2.larges == w.larges;
      LargePassBullet(w2, i, 0);
      LargePassScore(w2, i, 0);
      LargePassFrame(w2, i, 0);
    }
  }

  /** The bullet loop of `update`, from bullet `i` on. */
  function BulletsFrom(w: World, i: nat): (r: World)
    ensures |r.bullets| == |w.bullets|
    decreases |w.bullets| - i
  {
    if i >= |w.bullets| then w else BulletsFrom(BulletStep(w, i), i + 1)
  }

  /** A bullet's turn never lowers the score. */
  lemma BulletStepScore(w: World, i: nat)
    requires i < |w.bullets|
    ensures BulletStep(w, i).score >= w.score
  {
    var b := w.bullets[i];
    if b.active {
      var moved := b.(pos := b.pos.(y := b.pos.y - b.speed));
      if moved.pos.y >= 0 {
        var w1 := w.(bullets := w.bullets[i := moved]);
        SmallPassHitsAllOverlapping(w1, i, 0);
        LargePassHitsAllOverlapping(SmallFrom(w1, i, 0), i, 0);
      }
    }
  }

  /** The bullet loop never lowers the score. */
  lemma {:induction false} BulletsScoreMonotone(w: World, i: nat)
    ensures BulletsFrom(w, i).score >= w.score
    decreases |w.bullets| - i
  {
    if i < |w.bullets| {
      BulletStepScore(w, i);
      BulletsScoreMonotone(BulletStep(w, i), i + 1);
    }
  }

  // ---------------------------------------------------------------- update: movement

  /** A recycled enemy: up to 500 pixels above the screen at a random column that fits. */
  function Recycled(pos: Rect, rng: nat -> nat, d: nat): (r: Rect)
    requires pos.w < ScreenWidth
    ensures -SpawnDepth < r.y <= 0 && 0 <= r.x < ScreenWidth - pos.w && r.w == pos.w && r.h == pos.h
  {
    pos.(y := -(rng(d) % SpawnDepth), x := rng(d + 1) % (ScreenWidth - pos.w))
  }

  /**
   * One turn of the small-enemy movement loop, `d` counting the draws made so far: a live
   * enemy falls by its speed, and one that passes the bottom is recycled with two draws.
   */
  function MoveSmallStep(es: seq<Enemy>, j: nat, rng: nat -> nat, d: nat): (r: (seq<Enemy>, nat))
    requires j < |es| && es[j].pos.w < ScreenWidth
    ensures |r.0| == |es| && forall k :: 0 <= k < |es| ==> r.0[k].pos.w == es[k].pos.w
  {
    var e := es[j];
    if !e.active then (es, d)
    else
      var y := e.pos.y + e.speed;
      if y > ScreenHeight then (es[j := e.(pos := Recycled(e.pos, rng, d))], d + 2)
      else (es[j := e.(pos := e.pos.(y := y))], d)
  }

  /** The small-enemy movement loop from enemy `j` on. */
  function MoveSmallFrom(es: seq<Enemy>, j: nat, rng: nat -> nat, d: nat): (r: (seq<Enemy>, nat))
    requires forall k :: 0 <= k < |es| ==> es[k].pos.w < ScreenWidth
    ensures |r.0| == |es|
    decreases |es| - j
  {
    if j >= |es| then (es, d)
    else
      var (es1, d1) := MoveSmallStep(es, j, rng, d);
      MoveSmallFrom(es1, j + 1, rng, d1)
  }

  /**
   * After the small-enemy movement loop every live enemy is at or above the bottom of the
   * screen, a moved column lies inside the screen, and sizes, speeds and flags are kept.
   */
  lemma {:induction false} MoveSmallKeepsOnScreen(es: seq<Enemy>, j: nat, rng: nat -> nat, d: nat)
    requires forall k :: 0 <= k < |es| ==> es[k].pos.w < ScreenWidth
    ensures var r := MoveSmallFrom(es, j, rng, d);
      r.1 >= d &&
      (forall k :: 0 <= k < |es| ==>
        r.0[k].active == es[k].active && r.0[k].speed == es[k].speed &&
        r.0[k].pos.w == es[k].pos.w && r.0[k].pos.h == es[k].pos.h) &&
      (forall k :: 0 <= k < |es| && k < j ==> r.0[k] == es[k]) &&
      (forall k :: 0 <= k < |es| && j <= k && es[k].active ==> r.0[k].pos.y <= ScreenHeight) &&
      (forall k :: 0 <= k < |es| && r.0[k].pos.x != es[k].pos.x ==> 0 <= r.0[k].pos.x < ScreenWidth - es[k].pos.w)
    decreases |es| - j
  {
    if j < |es| {
      var (es1, d1) := MoveSmallStep(es, j, rng, d);
      MoveSmallKeepsOnScreen(es1, j + 1, rng, d1);
    }
  }

  /**
   * What the small-enemy loop does to each enemy from `j` on: an idle one is left alone, a
   * live one falls by exactly its speed, and one that would pass the bottom restarts above
   * the screen (y in -499..0) in a column where it fits, with all else kept.
   */
  lemma {:induction false} MoveSmallMovesEach(es: seq<Enemy>, j: nat, rng: nat -> nat, d: nat)
    requires forall k :: 0 <= k < |es| ==> es[k].pos.w < ScreenWidth
    ensures var r := MoveSmallFrom(es, j, rng, d);
      forall k :: j <= k < |es| ==>
        (!es[k].active ==> r.0[k] == es[k]) &&
        (es[k].active && es[k].pos.y + es[k].speed <= ScreenHeight ==>
          r.0[k] == es[k].(pos := es[k].pos.(y := es[k].pos.y + es[k].speed))) &&
        (es[k].active && es[k].pos.y + es[k].speed > ScreenHeight ==>
          r.0[k] == es[k].(pos := r.0[k].pos) && -SpawnDepth < r.0[k].pos.y <= 0 &&
          0 <= r.0[k].pos.x < ScreenWidth - es[k].pos.w &&
          r.0[k].pos.w == es[k].pos.w && r.0[k].pos.h == es[k].pos.h)
    decreases |es| - j
  {
    if j < |es| {
      var (es1, d1) := MoveSmallStep(es, j, rng, d);
      MoveSmallMovesEach(es1, j + 1, rng, d1);
      MoveSmallKeepsOnScreen(es1, j + 1, rng, d1);
    }
  }

  /** One turn of the large-enemy movement loop: as for small ones, and a recycled one is healed to 3. */
  function MoveLargeStep(ls: seq<LargeEnemy>, j: nat, rng: nat -> nat, d: nat): (r: (seq<LargeEnemy>, nat))
    requires j < |ls| && ls[j].pos.w < ScreenWidth
    ensures |r.0| == |ls| && forall k :: 0 <= k < |ls| ==> r.0[k].pos.w == ls[k].pos.w
  {
    var l := ls[j];
    if !l.active then (ls, d)
    else
      var y := l.pos.y + l.speed;
      if y > ScreenHeight then (ls[j := l.(pos := Recycled(l.pos, rng, d), health := LargeHealth)], d + 2)
      else (ls[j := l.(pos := l.pos.(y := y))], d)
  }

  /** The large-enemy movement loop from enemy `j` on. */
  function MoveLargeFrom(ls: seq<LargeEnemy>, j: nat, rng: nat -> nat, d: nat): (r: (seq<LargeEnemy>, nat))
    requires forall k :: 0 <= k < |ls| ==> ls[k].pos.w < ScreenWidth
    ensures |r.0| == |ls|
    decreases |ls| - j
  {
    if j >= |ls| then (ls, d)
    else
      var (ls1, d1) := MoveLargeStep(ls, j, rng, d);
      MoveLargeFrom(ls1, j + 1, rng, d1)
  }

  /** The large-enemy movement loop keeps live ones on screen; health only ever resets to 3. */
  lemma {:induction false} MoveLargeKeepsOnScreen(ls: seq<LargeEnemy>, j: nat, rng: nat -> nat, d: nat)
    requires forall k :: 0 <= k < |ls| ==> ls[k].pos.w < ScreenWidth
    ensures var r := MoveLargeFrom(ls, j, rng, d);
      r.1 >= d &&
      (forall k :: 0 <= k < |ls| ==>
        r.0[k].active == ls[k].active && r.0[k].speed == ls[k].speed &&
        r.0[k].pos.w == ls[k].pos.w && r.0[k].pos.h == ls[k].pos.h &&
        (r.0[k].health == ls[k].health || r.0[k].health == LargeHealth)) &&
      (forall k :: 0 <= k < |ls| && k < j ==> r.0[k] == ls[k]) &&
      (forall k :: 0 <= k < |ls| && j <= k && ls[k].active ==> r.0[k].pos.y <= ScreenHeight) &&
      (forall k :: 0 <= k < |ls| && r.0[k].pos.x != ls[k].pos.x ==> 0 <= r.0[k].pos.x < ScreenWidth - ls[k].pos.w)
    decreases |ls| - j
  {
    if j < |ls| {
      var (ls1, d1) := MoveLargeStep(ls, j, rng, d);
      MoveLargeKeepsOnScreen(ls1, j + 1, rng, d1);
    }
  }

  /**
   * What the large-enemy loop does to each one from `j` on: as for small enemies, and one
   * that restarts above the screen has its health reset to 3.
   */
  lemma {:induction false} MoveLargeMovesEach(ls: seq<LargeEnemy>, j: nat, rng: nat -> nat, d: nat)
    requires forall k :: 0 <= k < |ls| ==> ls[k].pos.w < ScreenWidth
    ensures var r := MoveLargeFrom(ls, j, rng, d);
      forall k :: j <= k < |ls| ==>
        (!ls[k].active ==> r.0[k] == ls[k]) &&
        (ls[k].active && ls[k].pos.y + ls[k].speed <= ScreenHeight ==>
          r.0[k] == ls[k].(pos := ls[k].pos.(y := ls[k].pos.y + ls[k].speed))) &&
        (ls[k].active && ls[k].pos.y + ls[k].speed > ScreenHeight ==>
          r.0[k] == ls[k].(pos := r.0[k].pos, health := LargeHealth) && -SpawnDepth < r.0[k].pos.y <= 0 &&
          0 <= r.0[k].pos.x < ScreenWidth - ls[k].pos.w &&
          r.0[k].pos.w == ls[k].pos.w && r.0[k].pos.h == ls[k].pos.h)
    decreases |ls| - j
  {
    if j < |ls| {
      var (ls1, d1) := MoveLargeStep(ls, j, rng, d);
      MoveLargeMovesEach(ls1, j + 1, rng, d1);
      MoveLargeKeepsOnScreen(ls1, j + 1, rng, d1);
    }
  }

  /**
   * `update`: the clock is read; at or past the end the game is over and nothing moves;
   * otherwise bullets, then small enemies, then large ones.
   */
  function UpdateStep(w: World, now: int, rng: nat -> nat): (r: World)
    requires WorldValid(w)
  {
    var w0 := w.(currentTime := now);
    if now >= w.endTime then w0.(gameover := true)
    else
      var b := BulletsFrom(w0, 0);
      BulletsKeepValid(w0, 0);
      MoveLarges(MoveSmalls(b, rng), rng)
  }

  /** The small-enemy movement loop of `update` on the whole state. */
  function MoveSmalls(w: World, rng: nat -> nat): (r: World)
    requires forall k :: 0 <= k < |w.enemies| ==> w.enemies[k].pos.w < ScreenWidth
    ensures r.larges == w.larges
  {
    var (es, d) := MoveSmallFrom(w.enemies, 0, rng, w.rolls);
    w.(enemies := es, rolls := d)
  }

  /** The large-enemy movement loop of `update` on the whole state. */
  function MoveLarges(w: World, rng: nat -> nat): (r: World)
    requires forall k :: 0 <= k < |w.larges| ==> w.larges[k].pos.w < ScreenWidth
  {
    var (ls, d) := MoveLargeFrom(w.larges, 0, rng, w.rolls);
    w.(larges := ls, rolls := d)
  }

  // ---------------------------------------------------------------- spawning in run

  function NewEnemy(rng: nat -> nat, d: nat): (e: Enemy)
    ensures EnemyOk(e) && e.active && -SpawnDepth < e.pos.y <= 0
  {
    Enemy(Rect(rng(d) % (ScreenWidth - SmallSize), -(rng(d + 1) % SpawnDepth), SmallSize, SmallSize),
      rng(d + 2) % 5 + 1, true)
  }

  function NewLarge(rng: nat -> nat, d: nat): (l: LargeEnemy)
    ensures LargeOk(l) && l.active && l.health == LargeHealth && -SpawnDepth < l.pos.y <= 0
  {
    LargeEnemy(Rect(rng(d) % (ScreenWidth - LargeSize), -(rng(d + 1) % SpawnDepth), LargeSize, LargeSize),
      LargeHealth, 1, true)
  }

  /**
   * The spawning part of a `run` frame: one small enemy is appended if fewer than 20 are
   * live, then one large enemy if fewer than 2 are live.
   */
  function SpawnStep(w: World, rng: nat -> nat): World
  {
    SpawnLarge(SpawnSmall(w, rng), rng)
  }

  function SpawnSmall(w: World, rng: nat -> nat): World
  {
    if ActiveEnemies(w.enemies) < MaxEnemies
      then w.(enemies := w.enemies + [NewEnemy(rng, w.rolls)], rolls := w.rolls + 3) else w
  }

  function SpawnLarge(w: World, rng: nat -> nat): World
  {
    if ActiveLarges(w.larges) < MaxLargeEnemies
      then w.(larges := w.larges + [NewLarge(rng, w.rolls)], rolls := w.rolls + 2) else w
  }

  /**
   * Spawning appends a small enemy exactly when fewer than 20 are live and a large one
   * exactly when fewer than 2 are, each from its own fresh draws, and changes nothing else.
   */
  lemma SpawnRespectsCaps(w: World, rng: nat -> nat)
    ensures var r := SpawnStep(w, rng);
      var d1 := if ActiveEnemies(w.enemies) < MaxEnemies then w.rolls + 3 else w.rolls;
      r.enemies == (if ActiveEnemies(w.enemies) < MaxEnemies then w.enemies + [NewEnemy(rng, w.rolls)] else w.enemies) &&
      r.larges == (if ActiveLarges(w.larges) < MaxLargeEnemies then w.larges + [NewLarge(rng, d1)] else w.larges) &&
      r.rolls == (if ActiveLarges(w.larges) < MaxLargeEnemies then d1 + 2 else d1) &&
      r.(enemies := w.enemies, larges := w.larges, rolls := w.rolls) == w
  {
  }

  /** The timer text: `formatTime(endTime - currentTime)` in unsigned 32-bit arithmetic. */
  function RemainingTime(endTime: int, currentTime: int): (r: nat)
    ensures r < TickModulus
  {
    (endTime - currentTime) % TickModulus
  }

  /**
   * Before the end the timer shows what is left; past the end the unsigned difference
   * wraps round to nearly 2^32 milliseconds instead of stopping at zero.
   */
  lemma RemainingTimeWraps(endTime: int, currentTime: int)
    requires 0 <= endTime < TickModulus && 0 <= currentTime < TickModulus
    ensures currentTime <= endTime ==> RemainingTime(endTime, currentTime) == endTime - currentTime
    ensures currentTime > endTime ==> RemainingTime(endTime, currentTime) == TickModulus - (currentTime - endTime)
  {
  }

  /** A whole `run` frame: events (which may end the program), update, spawning, the end-of-game clock check. */
  function FrameStep(w: World, events: seq<Event>, held: Held, now: int, rng: nat -> nat, later: int): (r: World)
    requires WorldValid(w)
  {
    if ExitRequested(events) then w
    else
      var h := HandleStep(w, events, held);
      HandleKeepsValid(w, events, held);
      SpawnStep(UpdateStep(h, now, rng), rng).(currentTime := later)
  }

  // ---------------------------------------------------------------- invariant proofs

  lemma HandleKeepsValid(w: World, events: seq<Event>, held: Held)
    requires WorldValid(w)
    ensures WorldValid(HandleStep(w, events, held))
  {
    SteerStaysOnScreen(w.player, held);
    var p := Steer(w.player, held);
    if held.space {
      var bs := Fire(w.bullets, p);
      forall k | 0 <= k < |bs|
        ensures BulletOk(bs[k])
      {
        if k == FirstIdle(w.bullets) {
          assert BulletOk(w.bullets[k]);
        }
      }
    }
  }

  lemma SmallKeepsValid(w: World, i: nat)
    requires WorldValid(w) && i < |w.bullets|
    ensures WorldValid(SmallFrom(w, i, 0))
  {
    var r := SmallFrom(w, i, 0);
    SmallPassEnemies(w, i, 0);
    SmallPassBullet(w, i, 0);
    SmallPassFrame(w, i, 0);
    FewerActiveEnemies(w.enemies, r.enemies);
    assert forall k :: 0 <= k < |r.enemies| ==> EnemyOk(w.enemies[k]);
    assert forall k :: 0 <= k < |r.bullets| ==> BulletOk(w.bullets[k]);
  }

  lemma LargeKeepsValid(w: World, i: nat)
    requires WorldValid(w) && i < |w.bullets|
    ensures WorldValid(LargeFrom(w, i, 0))
  {
    var r := LargeFrom(w, i, 0);
    LargePassEnemies(w, i, 0);
    LargePassBullet(w, i, 0);
    LargePassFrame(w, i, 0);
    FewerActiveLarges(w.larges, r.larges);
    assert forall k :: 0 <= k < |r.larges| ==> LargeOk(w.larges[k]);
    assert forall k :: 0 <= k < |r.bullets| ==> BulletOk(w.bullets[k]);
  }

  lemma BulletStepKeepsValid(w: World, i: nat)
    requires WorldValid(w) && i < |w.bullets|
    ensures WorldValid(BulletStep(w, i))
  {
    var b := w.bullets[i];
    if b.active {
      var moved := b.(pos := b.pos.(y := b.pos.y - b.speed));
      assert BulletOk(moved) && BulletOk(moved.(active := false));
      if moved.pos.y >= 0 {
        var w1 := w.(bullets := w.bullets[i := moved]);
        SmallKeepsValid(w1, i);
        LargeKeepsValid(SmallFrom(w1, i, 0), i);
      }
    }
  }

  lemma {:induction false} BulletsKeepValid(w: World, i: nat)
    requires WorldValid(w)
    ensures WorldValid(BulletsFrom(w, i))
    decreases |w.bullets| - i
  {
    if i < |w.bullets| {
      BulletStepKeepsValid(w, i);
      BulletsKeepValid(BulletStep(w, i), i + 1);
    }
  }

  lemma UpdateKeepsValid(w: World, now: int, rng: nat -> nat)
    requires WorldValid(w)
    ensures WorldValid(UpdateStep(w, now, rng))
    ensures UpdateStep(w, now, rng).score >= w.score
  {
    var w0 := w.(currentTime := now);
    if now < w.endTime {
      var b := BulletsFrom(w0, 0);
      BulletsKeepValid(w0, 0);
      BulletsScoreMonotone(w0, 0);
      MoveSmallsKeepsValid(b, rng);
      MoveLargesKeepsValid(MoveSmalls(b, rng), rng);
    }
  }

  lemma MoveSmallsKeepsValid(w: World, rng: nat -> nat)
    requires WorldValid(w)
    ensures WorldValid(MoveSmalls(w, rng)) && MoveSmalls(w, rng).score == w.score
  {
    var (es, d) := MoveSmallFrom(w.enemies, 0, rng, w.rolls);
    MoveSmallKeepsOnScreen(w.enemies, 0, rng, w.rolls);
    FewerActiveEnemies(w.enemies, es);
    assert forall k :: 0 <= k < |es| ==> EnemyOk(w.enemies[k]);
  }

  lemma MoveLargesKeepsValid(w: World, rng: nat -> nat)
    requires WorldValid(w)
    ensures WorldValid(MoveLarges(w, rng)) && MoveLarges(w, rng).score == w.score
  {
    var (ls, d) := MoveLargeFrom(w.larges, 0, rng, w.rolls);
    MoveLargeKeepsOnScreen(w.larges, 0, rng, w.rolls);
    FewerActiveLarges(w.larges, ls);
    assert forall k :: 0 <= k < |ls| ==> LargeOk(w.larges[k]);
  }

  lemma {:induction false} AppendEnemyCount(es: seq<Enemy>, e: Enemy)
    ensures ActiveEnemies(es + [e]) == ActiveEnemies(es) + (if e.active then 1 else 0)
  {
    assert (es + [e])[..|es|] == es;
  }

  lemma {:induction false} AppendLargeCount(ls: seq<LargeEnemy>, l: LargeEnemy)
    ensures ActiveLarges(ls + [l]) == ActiveLarges(ls) + (if l.active then 1 else 0)
  {
    assert (ls + [l])[..|ls|] == ls;
  }

  /** Appending a well-formed small enemy while under the cap keeps the invariant. */
  lemma AddEnemyKeepsValid(w: World, e: Enemy, rolls: nat)
    requires WorldValid(w) && EnemyOk(e) && ActiveEnemies(w.enemies) < MaxEnemies
    ensures WorldValid(w.(enemies := w.enemies + [e], rolls := rolls))
  {
    AppendEnemyCount(w.enemies, e);
    var es := w.enemies + [e];
    forall k | 0 <= k < |es|
      ensures EnemyOk(es[k])
    {
      if k < |w.enemies| {
        assert es[k] == w.enemies[k];
      }
    }
  }

  /** Appending a well-formed large enemy while under the cap keeps the invariant. */
  lemma AddLargeKeepsValid(w: World, l: LargeEnemy, rolls: nat)
    requires WorldValid(w) && LargeOk(l) && ActiveLarges(w.larges) < MaxLargeEnemies
    ensures WorldValid(w.(larges := w.larges + [l], rolls := rolls))
  {
    AppendLargeCount(w.larges, l);
    var ls := w.larges + [l];
    forall k | 0 <= k < |ls|
      ensures LargeOk(ls[k])
    {
      if k < |w.larges| {
        assert ls[k] == w.larges[k];
      }
    }
  }

  lemma SpawnKeepsValid(w: World, rng: nat -> nat)
    requires WorldValid(w)
    ensures WorldValid(SpawnStep(w, rng))
  {
    if ActiveEnemies(w.enemies) < MaxEnemies {
      AddEnemyKeepsValid(w, NewEnemy(rng, w.rolls), w.rolls + 3);
    }
    var w1 := SpawnSmall(w, rng);
    if ActiveLarges(w1.larges) < MaxLargeEnemies {
      AddLargeKeepsValid(w1, NewLarge(rng, w1.rolls), w1.rolls + 2);
    }
  }

  /** Every frame keeps the invariant: the caps of 20 and 2 live enemies are never passed. */
  lemma FrameKeepsValid(w: World, events: seq<Event>, held: Held, now: int, rng: nat -> nat, later: int)
    requires WorldValid(w)
    ensures WorldValid(FrameStep(w, events, held, now, rng, later))
  {
    if !ExitRequested(events) {
      var h := HandleStep(w, events, held);
      HandleKeepsValid(w, events, held);
      UpdateKeepsValid(h, now, rng);
      SpawnKeepsValid(UpdateStep(h, now, rng), rng);
    }
  }

  /** The score never goes down in a frame. */
  lemma FrameScoreMonotone(w: World, events: seq<Event>, held: Held, now: int, rng: nat -> nat, later: int)
    requires WorldValid(w)
    ensures FrameStep(w, events, held, now, rng, later).score >= w.score
  {
    if !ExitRequested(events) {
      var h := HandleStep(w, events, held);
      HandleKeepsValid(w, events, held);
      UpdateKeepsValid(h, now, rng);
      SpawnRespectsCaps(UpdateStep(h, now, rng), rng);
    }
  }
}
