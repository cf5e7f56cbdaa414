/**
 * The shooter's game object (class `AstroStrike` in src/astrostrike.hpp): its vectors of
 * bullets and enemies are sequence fields the loops update in place, one element at a
 * time. Each method is proved to leave the state that the matching function of
 * AstroRules computes from the old state.
 */
module AstroGame {
  import opened Sdl
  import opened AstroRules
  import TimeText

  class AstroStrike {
    var player: Rect
    var bullets: seq<Bullet>
    var enemies: seq<Enemy>
    var largeEnemies: seq<LargeEnemy>
    var score: int
    var displayWoah: bool
    var displayCheckPoint: bool
    var gameover: bool
    var startTime: int
    var endTime: int
    var currentTime: int
    /** How many values of `rand()` the game has drawn so far. */
    var rolls: nat

    ghost function View(): World
      reads this
    {
      World(player, bullets, enemies, largeEnemies, score, displayWoah, displayCheckPoint, gameover,
        startTime, endTime, currentTime, rolls)
    }

    /** The invariant of the world, on this object's fields. */
    ghost predicate Valid()
      reads this
    {
      WorldValid(View())
    }

    /** The constructor, `initialize` and the set-up at the top of `run`. */
    constructor (now: int)
      requires 0 <= now < TickModulus
      ensures View() == Initial(now)
    {
      startTime := now;
      endTime := (now + GameDuration * 1000) % TickModulus;
      currentTime := now;
      player := Rect(ScreenWidth / 2 - 50, ScreenHeight - 100, PlayerSize, PlayerSize);
      bullets := [Bullet(Rect(0, 0, BulletWidth, BulletHeight), BulletSpeed, false)];
      enemies, largeEnemies := [], [];
      score := 0;
      displayWoah, displayCheckPoint, gameover := false, false, false;
      rolls := 0;
    }

    /**
     * `handleEvents`: a polled Quit or Escape ends the program (`exit` is true and nothing
     * else happens); otherwise the held arrows steer and a held space bar fires.
     */
    method HandleEvents(events: seq<Event>, held: Held) returns (exit: bool)
      modifies this`player, this`bullets
      ensures exit == ExitRequested(events)
      ensures View() == HandleStep(old(View()), events, held)
    {
      for k := 0 to |events|
        invariant forall m :: 0 <= m < k ==> events[m] != Quit && events[m] != KeyDown(Escape)
      {
        match events[k] {
          case Quit =>
            return true;
          case KeyDown(key) =>
            if key == Escape {
              return true;
            }
          case OtherEvent =>
        }
      }
      exit := false;
      if held.left {
        if player.x > 0 {
          player := player.(x := player.x - PlayerStep);
        }
      }
      if held.right {
        if player.x < ScreenWidth - player.w {
          player := player.(x := player.x + PlayerStep);
        }
      }
      if held.space {
        FireBullet();
      }
    }

    /** The space-bar loop: the first idle bullet leaves from the ship's centre. */
    method FireBullet()
      modifies this`bullets
      ensures bullets == Fire(old(bullets), player)
    {
      for i := 0 to |bullets|
        invariant bullets == old(bullets)
        invariant forall k :: 0 <= k < i ==> bullets[k].active
      {
        if !bullets[i].active {
          var b := bullets[i];
          b := b.(pos := b.pos.(x := player.x + CDiv(player.w, 2) - CDiv(b.pos.w, 2)));
          b := b.(pos := b.pos.(y := player.y));
          bullets := bullets[i := b.(active := true)];
          break;
        }
      }
    }

    /** `update`: read the clock; past the end the game is over, otherwise everything moves. */
    method Update(now: int, rng: nat -> nat)
      requires WorldValid(View())
      modifies this
      ensures View() == UpdateStep(old(View()), now, rng)
      ensures currentTime == now && endTime == old(endTime)
    {
      currentTime := now;
      if currentTime >= endTime {
        gameover := true;
        return;
      }
      ghost var w0 := View();
      BulletsKeepValid(w0, 0);
      MoveBullets();
      assert WorldValid(View());
      MoveEnemies(rng);
      MoveLargeEnemies(rng);
    }

    /** The bullet loop of `update`. */
    method MoveBullets()
      modifies this`bullets, this`enemies, this`largeEnemies, this`score, this`displayCheckPoint, this`displayWoah
      ensures View() == BulletsFrom(old(View()), 0)
    {
      for i := 0 to |bullets|
        invariant |bullets| == |old(bullets)|
        invariant BulletsFrom(View(), i) == BulletsFrom(old(View()), 0)
      {
        MoveBullet(i);
      }
    }

    /** One turn of the bullet loop: bullet `i` rises, leaves at the top, or checks for hits. */
    method MoveBullet(i: nat)
      requires i < |bullets|
      modifies this`bullets, this`enemies, this`largeEnemies, this`score, this`displayCheckPoint, this`displayWoah
      ensures View() == BulletStep(old(View()), i)
    {
      if bullets[i].active {
        var b := bullets[i];
        b := b.(pos := b.pos.(y := b.pos.y - b.speed));
        bullets := bullets[i := b];
        if b.pos.y < 0 {
          bullets := bullets[i := b.(active := false)];
        } else {
          HitEnemies(i);
          HitLargeEnemies(i);
        }
      }
    }

    /** The small-enemy loop for bullet `i`; the bullet's flag is not looked at again. */
    method HitEnemies(i: nat)
      requires i < |bullets|
      modifies this`bullets, this`enemies, this`score, this`displayCheckPoint
      ensures View() == SmallFrom(old(View()), i, 0)
    {
      for j := 0 to |enemies|
        invariant i < |bullets| && |enemies| == |old(enemies)|
        invariant SmallFrom(View(), i, j) == SmallFrom(old(View()), i, 0)
      {
        HitEnemy(i, j);
      }
    }

    /** One turn of the small-enemy loop: bullet `i` against enemy `j`. */
    method HitEnemy(i: nat, j: nat)
      requires i < |bullets| && j < |enemies|
      modifies this`bullets, this`enemies, this`score, this`displayCheckPoint
      ensures View() == SmallStep(old(View()), i, j)
    {
      var enemy := enemies[j];
      if enemy.active && Intersects(bullets[i].pos, enemy.pos) {
        bullets := bullets[i := bullets[i].(active := false)];
        enemies := enemies[j := enemy.(active := false)];
        score := score + 1;
        if score >= 10 && score % 10 == 0 {
          displayCheckPoint := true;
        } else {
          displayCheckPoint := false;
        }
      }
    }

    /** The large-enemy loop for bullet `i`: one health per hit, ten points for a kill. */
    method HitLargeEnemies(i: nat)
      requires i < |bullets|
      modifies this`bullets, this`largeEnemies, this`score, this`displayWoah
      ensures View() == LargeFrom(old(View()), i, 0)
    {
      for j := 0 to |largeEnemies|
        invariant i < |bullets| && |largeEnemies| == |old(largeEnemies)|
        invariant LargeFrom(View(), i, j) == LargeFrom(old(View()), i, 0)
      {
        HitLargeEnemy(i, j);
      }
    }

    /** One turn of the large-enemy loop: bullet `i` against large enemy `j`. */
    method HitLargeEnemy(i: nat, j: nat)
      requires i < |bullets| && j < |largeEnemies|
      modifies this`bullets, this`largeEnemies, this`score, this`displayWoah
      ensures View() == LargeStep(old(View()), i, j)
    {
      var largeEnemy := largeEnemies[j];
      if largeEnemy.active && Intersects(bullets[i].pos, largeEnemy.pos) {
        bullets := bullets[i := bullets[i].(active := false)];
        largeEnemy := largeEnemy.(health := largeEnemy.health - 1);
        if largeEnemy.health <= 0 {
          largeEnemy := largeEnemy.(active := false);
          score := score + 10;
          displayWoah := true;
        } else {
          displayWoah := false;
        }
        largeEnemies := largeEnemies[j := largeEnemy];
      }
    }

    /** The small-enemy movement loop of `update`. */
    method MoveEnemies(rng: nat -> nat)
      requires forall k :: 0 <= k < |enemies| ==> enemies[k].pos.w < ScreenWidth
      modifies this`enemies, this`rolls
      ensures View() == MoveSmalls(old(View()), rng)
    {
      for j := 0 to |enemies|
        invariant |enemies| == |old(enemies)|
        invariant forall k :: 0 <= k < |enemies| ==> enemies[k].pos.w < ScreenWidth
        invariant MoveSmallFrom(enemies, j, rng, rolls) == MoveSmallFrom(old(enemies), 0, rng, old(rolls))
      {
        MoveEnemy(j, rng);
      }
    }

    /** One turn of the small-enemy movement loop. */
    method MoveEnemy(j: nat, rng: nat -> nat)
      requires j < |enemies| && enemies[j].pos.w < ScreenWidth
      modifies this`enemies, this`rolls
      ensures (enemies, rolls) == MoveSmallStep(old(enemies), j, rng, old(rolls))
    {
      var enemy := enemies[j];
      if enemy.active {
        enemy := enemy.(pos := enemy.pos.(y := enemy.pos.y + enemy.speed));
        if enemy.pos.y > ScreenHeight {
          enemy := enemy.(pos := enemy.pos.(y := -(rng(rolls) % SpawnDepth)));
          enemy := enemy.(pos := enemy.pos.(x := rng(rolls + 1) % (ScreenWidth - enemy.pos.w)));
          rolls := rolls + 2;
        }
        enemies := enemies[j := enemy];
      }
    }

    /** The large-enemy movement loop of `update`: a recycled one is healed to full. */
    method MoveLargeEnemies(rng: nat -> nat)
      requires forall k :: 0 <= k < |largeEnemies| ==> largeEnemies[k].pos.w < ScreenWidth
      modifies this`largeEnemies, this`rolls
      ensures View() == MoveLarges(old(View()), rng)
    {
      for j := 0 to |largeEnemies|
        invariant |largeEnemies| == |old(largeEnemies)|
        invariant forall k :: 0 <= k < |largeEnemies| ==> largeEnemies[k].pos.w < ScreenWidth
        invariant MoveLargeFrom(largeEnemies, j, rng, rolls) == MoveLargeFrom(old(largeEnemies), 0, rng, old(rolls))
      {
        MoveLargeEnemy(j, rng);
      }
    }

    /** One turn of the large-enemy movement loop. */
    method MoveLargeEnemy(j: nat, rng: nat -> nat)
      requires j < |largeEnemies| && largeEnemies[j].pos.w < ScreenWidth
      modifies this`largeEnemies, this`rolls
      ensures (largeEnemies, rolls) == MoveLargeStep(old(largeEnemies), j, rng, old(rolls))
    {
      var largeEnemy := largeEnemies[j];
      if largeEnemy.active {
        largeEnemy := largeEnemy.(pos := largeEnemy.pos.(y := largeEnemy.pos.y + largeEnemy.speed));
        if largeEnemy.pos.y > ScreenHeight {
          largeEnemy := largeEnemy.(pos := largeEnemy.pos.(y := -(rng(rolls) % SpawnDepth)));
          largeEnemy := largeEnemy.(pos := largeEnemy.pos.(x := rng(rolls + 1) % (ScreenWidth - largeEnemy.pos.w)));
          largeEnemy := largeEnemy.(health := LargeHealth);
          rolls := rolls + 2;
        }
        largeEnemies := largeEnemies[j := largeEnemy];
      }
    }

    /** The counting loop of `run` over small enemies. */
    method CountActiveEnemies() returns (n: nat)
      ensures n == ActiveEnemies(enemies)
    {
      n := 0;
      for i := 0 to |enemies|
        invariant n == ActiveEnemies(enemies[..i])
      {
        assert enemies[..i + 1][..i] == enemies[..i];
        if enemies[i].active {
          n := n + 1;
        }
      }
      assert enemies[..|enemies|] == enemies;
    }

    /** The counting loop of `run` over large enemies. */
    method CountActiveLargeEnemies() returns (n: nat)
      ensures n == ActiveLarges(largeEnemies)
    {
      n := 0;
      for i := 0 to |largeEnemies|
        invariant n == ActiveLarges(largeEnemies[..i])
      {
        assert largeEnemies[..i + 1][..i] == largeEnemies[..i];
        if largeEnemies[i].active {
          n := n + 1;
        }
      }
      assert largeEnemies[..|largeEnemies|] == largeEnemies;
    }

    /** The spawning part of a `run` frame, both counts taken first. */
    method SpawnEnemies(rng: nat -> nat)
      modifies this`enemies, this`largeEnemies, this`rolls
      ensures View() == SpawnStep(old(View()), rng)
    {
      var activeEnemies := CountActiveEnemies();
      var activeLargeEnemies := CountActiveLargeEnemies();
      SpawnEnemy(activeEnemies, rng);
      SpawnLargeEnemy(activeLargeEnemies, rng);
    }

    /** A new small enemy when fewer than 20 were live. */
    method SpawnEnemy(activeEnemies: nat, rng: nat -> nat)
      requires activeEnemies == ActiveEnemies(enemies)
      modifies this`enemies, this`rolls
      ensures View() == SpawnSmall(old(View()), rng)
    {
      if activeEnemies < MaxEnemies {
        var x := rng(rolls) % (ScreenWidth - SmallSize);
        var y := -(rng(rolls + 1) % SpawnDepth);
        var speed := rng(rolls + 2) % 5 + 1;
        enemies := enemies + [Enemy(Rect(x, y, SmallSize, SmallSize), speed, true)];
        rolls := rolls + 3;
      }
    }

    /** A new large enemy when fewer than 2 were live. */
    method SpawnLargeEnemy(activeLargeEnemies: nat, rng: nat -> nat)
      requires activeLargeEnemies == ActiveLarges(largeEnemies)
      modifies this`largeEnemies, this`rolls
      ensures View() == SpawnLarge(old(View()), rng)
    {
      if activeLargeEnemies < MaxLargeEnemies {
        var x := rng(rolls) % (ScreenWidth - LargeSize);
        var y := -(rng(rolls + 1) % SpawnDepth);
        largeEnemies := largeEnemies + [LargeEnemy(Rect(x, y, LargeSize, LargeSize), LargeHealth, 1, true)];
        rolls := rolls + 2;
      }
    }

    /** The timer text `render` draws. */
    method RemainingText() returns (text: string)
      ensures text == TimeText.FormatTime(RemainingTime(endTime, currentTime))
    {
      text := TimeText.FormatTime((endTime - currentTime) % TickModulus);
    }

    /** The clock check closing a `run` frame: the game ends once the end time is reached. */
    method TimeUp(now: int) returns (over: bool)
      modifies this`currentTime
      ensures currentTime == now && over == (now >= endTime)
    {
      currentTime := now;
      over := currentTime >= endTime;
    }

    /**
     * One pass of the loop in `run`: events, `update`, the timer `render` shows, spawning,
     * and the end-of-game check. The invariant of the world holds after every frame.
     */
    method Frame(events: seq<Event>, held: Held, now: int, rng: nat -> nat, later: int)
      returns (exit: bool, timer: string, over: bool)
      requires Valid()
      modifies this
      ensures exit == ExitRequested(events)
      ensures View() == FrameStep(old(View()), events, held, now, rng, later)
      ensures Valid()
      ensures !exit ==> over == (later >= endTime)
      ensures !exit ==> timer == TimeText.FormatTime(RemainingTime(endTime, now))
    {
      ghost var w := View();
      FrameKeepsValid(w, events, held, now, rng, later);
      exit := HandleEvents(events, held);
      if exit {
        timer, over := "", false;
        return;
      }
      HandleKeepsValid(w, events, held);
      timer, over := Advance(now, rng, later);
    }

    /**
     * The rest of a `run` frame once the events are handled: `update`, the timer `render`
     * shows, spawning and the end-of-game check.
     */
    method Advance(now: int, rng: nat -> nat, later: int) returns (timer: string, over: bool)
      requires Valid()
      modifies this
      ensures View() == SpawnStep(UpdateStep(old(View()), now, rng), rng).(currentTime := later)
      ensures endTime == old(endTime)
      ensures over == (later >= endTime)
      ensures timer == TimeText.FormatTime(RemainingTime(endTime, now))
    {
      Update(now, rng);
      timer := RemainingText();
      SpawnEnemies(rng);
      over := TimeUp(later);
    }
  }
}
