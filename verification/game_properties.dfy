/**
 What the game promises: how each key is handled, how a frame costs health, and
 the invariant (level, spawn interval and health follow the rules) that every
 sequence of events keeps.
 */
module GameProperties {
  import opened Optional
  import opened Game
  import opened Subsequence

  // ---------------------------------------------------------------- keys

  /** A key that is not a lone ASCII letter, or comes with a modifier, changes nothing;
      neither does a letter while paused or after the game is over */
  lemma IgnoredKeys(g: GameState, k: Key, now: int, bulletId: string, height: int)
    requires k.key != "Escape"
    requires !IsLetterKey(k) || g.isPaused || g.isGameOver
    ensures KeyDown(g, k, now, bulletId, height) == g
  {
  }

  /** Escape toggles the pause while a game is running and does nothing otherwise */
  lemma EscapeTogglesPause(g: GameState, k: Key, now: int, bulletId: string, height: int)
    requires k.key == "Escape"
    ensures var r := KeyDown(g, k, now, bulletId, height);
      && (g.isPlaying && !g.isGameOver ==> r == g.(isPaused := !g.isPaused))
      && (!g.isPlaying || g.isGameOver ==> r == g)
  {
  }

  /** The first letter only starts the game: nothing is shot and the score stays */
  lemma FirstKeyStarts(g: GameState, k: Key, now: int, bulletId: string, height: int)
    requires IsLetterKey(k) && !g.isPlaying && !g.isPaused && !g.isGameOver
    ensures var r := KeyDown(g, k, now, bulletId, height);
      && r.isPlaying && r.score == g.score && r.enemies == g.enemies && r.bullets == g.bullets
  {
    assert k.key != "Escape";
  }

  /** A letter no plane carries changes nothing */
  lemma MissChangesNothing(g: GameState, k: Key, now: int, bulletId: string, height: int)
    requires IsLetterKey(k) && g.isPlaying
    requires forall j :: 0 <= j < |g.enemies| ==> g.enemies[j].letter != ToUpper(k.key[0])
    ensures KeyDown(g, k, now, bulletId, height) == g
  {
    assert k.key != "Escape";
  }

  /** A letter shoots the plane with that letter nearest the player (greatest `y`, the
      first such on ties): exactly that plane is removed, a bullet is aimed at it, and
      the score goes up by one with the level following it */
  lemma ShotRemovesTarget(g: GameState, k: Key, now: int, bulletId: string, height: int, t: nat)
    requires IsLetterKey(k) && g.isPlaying && !g.isPaused && !g.isGameOver
    requires t < |g.enemies| && g.enemies[t].letter == ToUpper(k.key[0])
    requires forall j :: 0 <= j < |g.enemies| && g.enemies[j].letter == ToUpper(k.key[0]) ==> g.enemies[j].y <= g.enemies[t].y
    requires forall j :: 0 <= j < t && g.enemies[j].letter == ToUpper(k.key[0]) ==> g.enemies[j].y < g.enemies[t].y
    ensures var r := KeyDown(g, k, now, bulletId, height);
      && r.score == g.score + 1
      && |r.enemies| == |g.enemies| - 1
      && (forall j :: 0 <= j < t ==> r.enemies[j] == g.enemies[j])
      && (forall j :: t <= j < |r.enemies| ==> r.enemies[j] == g.enemies[j + 1])
      && r.bullets == g.bullets + [Bullet(bulletId, g.enemies[t].id, height - 100, g.enemies[t].x, g.enemies[t].y)]
      && (g.level == LevelFor(g.score) ==> r.level == LevelFor(r.score))
  {
    assert k.key != "Escape";
    var key := ToUpper(k.key[0]);
    var u := Target(g.enemies, key);
    assert u.Some?;
    assert u.value == t;
  }

  /** The spawn interval never drops below 800 ms in any reachable state */
  lemma SpawnIntervalBounded(g: GameState)
    requires Inv(g)
    ensures g.spawnInterval >= MinSpawnInterval
  {
  }

  // ---------------------------------------------------------------- health

  /** Health drops by the number of escaped planes but not below zero, and reaching zero
      ends the game */
  lemma LoseHealthSpec(g: GameState, lost: nat)
    requires lost > 0
    ensures var r := LoseHealth(g, lost);
      && r.health == (if g.health - lost < 0 then 0 else g.health - lost)
      && (r.health == 0 ==> r.isGameOver && !r.isPlaying)
      && (r.health > 0 ==> r.isGameOver == g.isGameOver && r.isPlaying == g.isPlaying)
      && r.score == g.score && r.enemies == g.enemies
  {
  }

  /** The planes that get past the bottom limit */
  function EscapedCount(es: seq<Enemy>, bottom: int): nat {
    if es == [] then 0 else (if es[0].y > bottom then 1 else 0) + EscapedCount(es[1..], bottom)
  }

  /** A frame keeps exactly the planes still above the limit, and one point of health
      goes per plane that got past */
  lemma {:induction false} KeptSpec(es: seq<Enemy>, bottom: int)
    ensures |Kept(es, bottom)| + EscapedCount(es, bottom) == |es|
    ensures forall e :: e in es && e.y <= bottom ==> e in Kept(es, bottom)
    ensures IsSubsequence(Kept(es, bottom), es)
  {
    if es != [] {
      KeptSpec(es[1..], bottom);
      assert forall e :: e in es ==> e == es[0] || e in es[1..];
      var rest := Kept(es[1..], bottom);
      if es[0].y <= bottom {
        assert Kept(es, bottom) == [es[0]] + rest;
        assert ([es[0]] + rest)[1..] == rest;
      } else {
        assert Kept(es, bottom) == rest;
        SubsequenceCons(rest, es);
      }
    }
  }

  /** Falling changes nothing about a plane but its height, never lifts a plane when
      time moves forward, and two frames fall as far as one frame of their summed time */
  lemma FallOnlyMovesDown(es: seq<Enemy>, dt: int, dt2: int)
    ensures |Fall(es, dt)| == |es|
    ensures forall i :: 0 <= i < |es| ==> Fall(es, dt)[i].(y := es[i].y) == es[i]
    ensures dt >= 0 ==> forall i :: 0 <= i < |es| ==> Fall(es, dt)[i].y >= es[i].y
    ensures Fall(Fall(es, dt), dt2) == Fall(es, dt + dt2)
  {
    var a, b := Fall(Fall(es, dt), dt2), Fall(es, dt + dt2);
    forall i | 0 <= i < |es|
      ensures a[i] == b[i]
    {
      var e := es[i];
      assert e.speed * dt + e.speed * dt2 == e.speed * (dt + dt2);
    }
  }

  /** A frame while no game is running (not started, paused or over) only records its time */
  lemma InactiveFrame(g: GameState, now: int, spawn: Enemy, bottom: int)
    requires !g.isPlaying || g.isPaused || g.isGameOver
    ensures Frame(g, now, spawn, bottom) == g.(lastFrameTime := now)
  {
  }

  /** A frame of a running game keeps the planes still above the limit after they fall,
      and costs one point of health per plane that got past, never going below zero;
      at zero the game is over */
  lemma FrameCostsEscapes(g: GameState, now: int, spawn: Enemy, bottom: int)
    requires Inv(g) && g.isPlaying && !g.isPaused
    ensures var moved := Fall(Spawned(g, now, spawn).enemies, FrameDelta(g, now));
      var lost := EscapedCount(moved, bottom);
      var r := Frame(g, now, spawn, bottom);
      && r.enemies == Kept(moved, bottom)
      && r.health == (if g.health - lost < 0 then 0 else g.health - lost)
      && (r.health == 0 && lost > 0 ==> r.isGameOver && !r.isPlaying)
      && r.score == g.score && r.lastFrameTime == now
  {
    var spawned := Spawned(g, now, spawn);
    var moved := Fall(spawned.enemies, FrameDelta(g, now));
    var kept := Kept(moved, bottom);
    KeptSpec(moved, bottom);
    assert |moved| - |kept| == EscapedCount(moved, bottom);
    assert Frame(g, now, spawn, bottom) == LoseHealth(spawned.(enemies := kept, lastFrameTime := now), EscapedCount(moved, bottom));
  }

  /** Restarting forgets the previous game: whatever came before, a fresh game is running,
      unpaused, with score 0, full health, level 1, the base spawn interval, and no planes
      or bullets */
  lemma StartForgetsPast(g: GameState, h: GameState, now: int)
    ensures Start(g, now) == Start(h, now)
    ensures var r := Start(g, now);
      && r.isPlaying && !r.isPaused && !r.isGameOver
      && r.score == 0 && r.health == MaxHealth && r.level == 1 && r.spawnInterval == BaseSpawnInterval
      && r.enemies == [] && r.bullets == []
  {
  }

  // ---------------------------------------------------------------- invariant

  lemma KeyDownInv(g: GameState, k: Key, now: int, bulletId: string, height: int)
    requires Inv(g)
    ensures Inv(KeyDown(g, k, now, bulletId, height))
  {
  }

  lemma FrameInv(g: GameState, now: int, spawn: Enemy, bottom: int)
    requires Inv(g)
    ensures Inv(Frame(g, now, spawn, bottom))
  {
  }

  datatype GameEvent =
    | KeyPressed(k: Key, now: int, bulletId: string, height: int)
    | FrameTick(now: int, spawn: Enemy, bottom: int)
    | Started(now: int)

  function Step(g: GameState, e: GameEvent): GameState {
    match e
    case KeyPressed(k, now, id, height) => KeyDown(g, k, now, id, height)
    case FrameTick(now, spawn, bottom) => Frame(g, now, spawn, bottom)
    case Started(now) => Start(g, now)
  }

  function RunGame(g: GameState, es: seq<GameEvent>): GameState
    decreases |es|
  {
    if es == [] then g else RunGame(Step(g, es[0]), es[1..])
  }

  /** From the initial state, any sequence of key presses, frames and restarts keeps the
      level and spawn interval in step with the score, health within 0..5 and zero
      exactly when the game is over */
  lemma {:induction false} RunGameInv(g: GameState, es: seq<GameEvent>)
    requires Inv(g)
    ensures Inv(RunGame(g, es))
    decreases |es|
  {
    if es != [] {
      match es[0] {
        case KeyPressed(k, now, id, height) => KeyDownInv(g, k, now, id, height);
        case FrameTick(now, spawn, bottom) => FrameInv(g, now, spawn, bottom);
        case Started(now) =>
      }
      RunGameInv(Step(g, es[0]), es[1..]);
    }
  }
}
