/**
 The discrete rules of the letter-shooting game: enemy planes carrying a letter
 fall towards the player, a key press shoots the lowest plane with that letter,
 every ten hits raise the level and shorten the spawn interval, and each plane
 that gets past costs one point of health. Positions and speeds are integers
 here; the animation between frames is not modelled.
 */
module Game {
  import opened Optional

  const LevelThreshold: nat := 10
  const MinSpawnInterval: int := 800
  const BaseSpawnInterval: int := 2000
  const SpawnDecreaseRate: int := 80
  const MaxHealth: int := 5
  /** The frame time used when no previous frame time is recorded */
  const DefaultFrameTime: int := 16
  /** The cap on the time one frame may advance the planes */
  const MaxFrameTime: int := 50
  /** New planes appear this far above the top edge */
  const SpawnY: int := -60

  datatype Enemy = Enemy(id: string, letter: char, x: int, y: int, speed: nat)

  /** A bullet flying from the player towards where its target was hit */
  datatype Bullet = Bullet(id: string, targetId: string, startY: int, targetX: int, targetY: int)

  /** The game's refs; the on-screen state mirrors them */
  datatype GameState = GameState(
    isPlaying: bool,
    isPaused: bool,
    isGameOver: bool,
    score: nat,
    health: int,
    level: int,
    spawnInterval: int,
    enemies: seq<Enemy>,
    bullets: seq<Bullet>,
    lastSpawnTime: int,
    lastFrameTime: int)

  /** The state before the first game */
  function Initial(): (g: GameState)
    ensures Inv(g)
  {
    GameState(false, false, false, 0, MaxHealth, 1, BaseSpawnInterval, [], [], 0, 0)
  }

  /** The level reached with `score` hits */
  function LevelFor(score: nat): int {
    score / LevelThreshold + 1
  }

  /** `max(MIN_SPAWN_INTERVAL, 2000 - (level - 1) * SPAWN_DECREASE_RATE)` */
  function IntervalFor(level: int): (r: int)
    ensures r >= MinSpawnInterval
  {
    var raw := BaseSpawnInterval - (level - 1) * SpawnDecreaseRate;
    if raw < MinSpawnInterval then MinSpawnInterval else raw
  }

  /** What holds between any two events: level and spawn interval follow the score,
      health stays within 0..5 and is 0 exactly when the game is over, a game that is
      over is not being played, and only a game being played can be paused */
  predicate Inv(g: GameState) {
    && g.level == LevelFor(g.score)
    && g.spawnInterval == IntervalFor(g.level)
    && 0 <= g.health <= MaxHealth
    && (g.isGameOver <==> g.health == 0)
    && (g.isGameOver ==> !g.isPlaying)
    && (g.isPaused ==> g.isPlaying)
  }

  // ---------------------------------------------------------------- keys

  datatype Key = Key(key: string, altKey: bool, ctrlKey: bool, metaKey: bool)

  predicate IsAsciiLetter(c: char) {
    'a' <= c <= 'z' || 'A' <= c <= 'Z'
  }

  /** `/^[a-zA-Z]$/.test(key)` without a modifier held */
  predicate IsLetterKey(k: Key) {
    |k.key| == 1 && IsAsciiLetter(k.key[0]) && !k.altKey && !k.ctrlKey && !k.metaKey
  }

  /** `key.toUpperCase()` on a lone ASCII letter: always a capital */
  function ToUpper(c: char): (r: char)
    ensures IsAsciiLetter(c) ==> 'A' <= r <= 'Z'
  {
    if 'a' <= c <= 'z' then (c as int - 32) as char else c
  }

  /** `best` is what the scan holds after looking at es[0..i): none if no plane there
      carries `key`, otherwise the first of those with the greatest `y` */
  predicate BestSoFar(es: seq<Enemy>, key: char, i: nat, best: Option<nat>)
    requires i <= |es|
  {
    && (best.None? ==> forall j :: 0 <= j < i ==> es[j].letter != key)
    && (best.Some? ==>
          && best.value < i && es[best.value].letter == key
          && (forall j :: 0 <= j < i && es[j].letter == key ==> es[j].y <= es[best.value].y)
          && (forall j :: 0 <= j < best.value && es[j].letter == key ==> es[j].y < es[best.value].y))
  }

  /** The scan for a target: only a strictly greater `y` replaces the best so far */
  function TargetFrom(es: seq<Enemy>, key: char, i: nat, best: Option<nat>): (r: Option<nat>)
    requires i <= |es| && BestSoFar(es, key, i, best)
    ensures BestSoFar(es, key, |es|, r)
    decreases |es| - i
  {
    if i == |es| then best
    else if es[i].letter == key && (best.None? || es[i].y > es[best.value].y) then TargetFrom(es, key, i + 1, Some(i))
    else TargetFrom(es, key, i + 1, best)
  }

  /** The plane a key shoots: one with that letter and the greatest `y` (nearest the
      player), the first such on ties */
  function Target(es: seq<Enemy>, key: char): (r: Option<nat>)
    ensures r.Some? ==> r.value < |es| && es[r.value].letter == key
    ensures r.Some? ==> forall j :: 0 <= j < |es| && es[j].letter == key ==> es[j].y <= es[r.value].y
    ensures r.Some? ==> forall j :: 0 <= j < r.value && es[j].letter == key ==> es[j].y < es[r.value].y
    ensures r.None? <==> forall j :: 0 <= j < |es| ==> es[j].letter != key
  {
    TargetFrom(es, key, 0, None)
  }

  /** A hit on plane `t`: a bullet towards it, the plane removed, one more point, and
      on a level change the new spawn interval */
  function Hit(g: GameState, t: nat, bulletId: string, height: int): (r: GameState)
    requires t < |g.enemies|
  {
    var target := g.enemies[t];
    var score := g.score + 1;
    var level := LevelFor(score);
    var g1 := g.(bullets := g.bullets + [Bullet(bulletId, target.id, height - 100, target.x, target.y)],
                 enemies := g.enemies[..t] + g.enemies[t + 1..],
                 score := score);
    if level != g.level then g1.(level := level, spawnInterval := IntervalFor(level)) else g1
  }

  /** `handleKeyDown`. `now` is the clock reading used when the key starts a game,
      `bulletId` the fresh id a shot bullet gets, `height` the window height. */
  function KeyDown(g: GameState, k: Key, now: int, bulletId: string, height: int): (r: GameState)
  {
    if k.key == "Escape" then
      if g.isGameOver || !g.isPlaying then g else g.(isPaused := !g.isPaused)
    else if !IsLetterKey(k) then g
    else if g.isPaused || g.isGameOver then g
    else if !g.isPlaying then g.(isPlaying := true, lastSpawnTime := now, lastFrameTime := now)
    else match Target(g.enemies, ToUpper(k.key[0]))
      case None => g
      case Some(t) => Hit(g, t, bulletId, height)
  }

  // ---------------------------------------------------------------- frames

  /** The planes that are still above the bottom limit, in order */
  function Kept(es: seq<Enemy>, bottom: int): (r: seq<Enemy>)
    ensures |r| <= |es|
    ensures forall i :: 0 <= i < |r| ==> r[i].y <= bottom && r[i] in es
  {
    if es == [] then [] else (if es[0].y <= bottom then [es[0]] else []) + Kept(es[1..], bottom)
  }

  /** Every plane moved down by its speed times the frame time */
  function Fall(es: seq<Enemy>, dt: int): seq<Enemy>
  {
    seq(|es|, i requires 0 <= i < |es| => es[i].(y := es[i].y + es[i].speed * dt))
  }

  /** Health after losing `lost` points: never below zero, and at zero the game is over */
  function LoseHealth(g: GameState, lost: nat): (r: GameState)
  {
    if lost == 0 then g
    else
      var health := if g.health - lost < 0 then 0 else g.health - lost;
      if health <= 0 then g.(health := 0, isGameOver := true, isPlaying := false)
      else g.(health := health)
  }

  /** The time a frame at `now` advances the planes: the time since the last frame
      (16 ms when none is recorded), capped at 50 ms */
  function FrameDelta(g: GameState, now: int): (dt: int)
    ensures dt <= MaxFrameTime
    ensures g.lastFrameTime == 0 ==> dt == DefaultFrameTime
  {
    var delta := if g.lastFrameTime != 0 then now - g.lastFrameTime else DefaultFrameTime;
    if delta < MaxFrameTime then delta else MaxFrameTime
  }

  /** A new plane `spawn` enters at the top once the spawn interval has elapsed: the
      planes already there stay, in order, at most one is added, and only the plane list
      and the spawn time can change */
  function Spawned(g: GameState, now: int, spawn: Enemy): (r: GameState)
    ensures r.(enemies := g.enemies, lastSpawnTime := g.lastSpawnTime) == g
    ensures |g.enemies| <= |r.enemies| <= |g.enemies| + 1 && r.enemies[..|g.enemies|] == g.enemies
    ensures |r.enemies| > |g.enemies| <==> now - g.lastSpawnTime > g.spawnInterval
    ensures |r.enemies| > |g.enemies| ==>
      r.enemies[|g.enemies|] == spawn.(y := SpawnY) && r.enemies[|g.enemies|].id == spawn.id && r.lastSpawnTime == now
    ensures |r.enemies| == |g.enemies| ==> r.lastSpawnTime == g.lastSpawnTime
  {
    if now - g.lastSpawnTime > g.spawnInterval
    then g.(enemies := g.enemies + [spawn.(y := SpawnY)], lastSpawnTime := now)
    else g
  }

  /** One animation frame at time `now` (planes' positions abstracted to integers).
      `spawn` is the plane created if the spawn interval has elapsed, `bottom` the
      limit past which a plane escapes. Bullets are left as they are. */
  function Frame(g: GameState, now: int, spawn: Enemy, bottom: int): (r: GameState)
  {
    if !g.isPlaying || g.isPaused || g.isGameOver then g.(lastFrameTime := now)
    else
      var spawned := Spawned(g, now, spawn);
      var moved := Fall(spawned.enemies, FrameDelta(g, now));
      var kept := Kept(moved, bottom);
      LoseHealth(spawned.(enemies := kept, lastFrameTime := now), |moved| - |kept|)
  }

  /** `handleStart`: a fresh game at time `now` */
  function Start(g: GameState, now: int): (r: GameState)
    ensures Inv(r)
  {
    GameState(true, false, false, 0, MaxHealth, 1, BaseSpawnInterval, [], [], now, now)
  }
}
