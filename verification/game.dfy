/**
 * The integer state logic of `Game` in game.py: the level-transition and
 * death counters, the reset and spawner dispatch of `load_level`, projectile
 * aging and removal, and the screenshake counter.
 */
module GameState {
  import opened Rects
  import opened Arith
  import opened Lists

  /** A marker extracted from a map as `('spawners', variant)`: variant 0 places the player. */
  datatype Spawner = Spawner(variant: int, pos: Pos)

  /** An enemy, by the position it was spawned at. */
  datatype Enemy = Enemy(pos: Pos)

  /** A projectile `[[x, y], direction, age]`. */
  datatype Projectile = Projectile(pos: Pos, direction: int, age: int)

  /** The counters `game_transition` drives. */
  datatype Counters = Counters(level: int, transition: int, dead: int)

  /** The counters after one call, and whether `load_level` ran during it. */
  datatype TransitionResult = TransitionResult(counters: Counters, reloaded: bool)

  /** What a projectile can collide with this frame: the tile map's solid cells and the player. */
  datatype World = World(solidRock: Pos -> bool, dashing: int, playerRect: Rect)

  /** Why a projectile leaves the list, or `Flying` when it stays. */
  datatype Fate = HitTerrain | Expired | HitPlayer | Flying

  // ---------------------------------------------------------------- load_level

  /** The enemies spawned from the markers, in marker order: one per marker whose variant is not 0. */
  function Enemies(ms: seq<Spawner>): (es: seq<Enemy>)
    ensures |es| <= |ms|
  {
    if ms == [] then []
    else
      var last := ms[|ms| - 1];
      Enemies(ms[..|ms| - 1]) + (if last.variant == 0 then [] else [Enemy(last.pos)])
  }

  /** Number of player markers (variant 0). */
  function PlayerMarkers(ms: seq<Spawner>): nat
  {
    if ms == [] then 0 else (if ms[0].variant == 0 then 1 else 0) + PlayerMarkers(ms[1..])
  }

  predicate HasPlayerSpawn(ms: seq<Spawner>)
  {
    exists i :: 0 <= i < |ms| && ms[i].variant == 0
  }

  /** The player's position after the dispatch: that of the last variant-0 marker, else `start`. */
  function PlayerStart(ms: seq<Spawner>, start: Pos): (p: Pos)
    ensures p == start || exists i :: 0 <= i < |ms| && ms[i].variant == 0 && p == ms[i].pos
  {
    if ms == [] then start
    else if ms[|ms| - 1].variant == 0 then ms[|ms| - 1].pos
    else PlayerStart(ms[..|ms| - 1], start)
  }

  /** An enemy exists at a position exactly when some non-player marker sits there. */
  lemma {:induction false} EnemiesMatchMarkers(ms: seq<Spawner>, e: Enemy)
    ensures e in Enemies(ms) <==> exists i :: 0 <= i < |ms| && ms[i].variant != 0 && e == Enemy(ms[i].pos)
  {
    if ms != [] {
      var n := |ms| - 1;
      var init := ms[..n];
      EnemiesMatchMarkers(init, e);
      assert forall i :: 0 <= i < n ==> init[i] == ms[i];
      assert Enemies(ms) == Enemies(init) + (if ms[n].variant == 0 then [] else [Enemy(ms[n].pos)]);
    }
  }

  lemma {:induction false} PlayerMarkersAppend(ms: seq<Spawner>, m: Spawner)
    ensures PlayerMarkers(ms + [m]) == PlayerMarkers(ms) + (if m.variant == 0 then 1 else 0)
  {
    if ms != [] {
      assert (ms + [m])[1..] == ms[1..] + [m];
      PlayerMarkersAppend(ms[1..], m);
    }
  }

  /** Every marker becomes either the player position or exactly one enemy. */
  lemma {:induction false} EnemyCount(ms: seq<Spawner>)
    ensures |Enemies(ms)| == |ms| - PlayerMarkers(ms)
  {
    if ms != [] {
      var init := ms[..|ms| - 1];
      EnemyCount(init);
      assert ms == init + [ms[|ms| - 1]];
      PlayerMarkersAppend(init, ms[|ms| - 1]);
    }
  }

  /** Without a player marker, the player does not move. */
  lemma {:induction false} NoPlayerMarkerKeepsStart(ms: seq<Spawner>, start: Pos)
    requires !HasPlayerSpawn(ms)
    ensures PlayerStart(ms, start) == start
  {
    if ms != [] {
      var init := ms[..|ms| - 1];
      assert !HasPlayerSpawn(init) by {
        assert forall i :: 0 <= i < |init| ==> init[i] == ms[i];
      }
      NoPlayerMarkerKeepsStart(init, start);
    }
  }

  /**
   * With a player marker, the player lands on the LAST one: later markers
   * overwrite earlier ones.
   */
  lemma {:induction false} PlayerStartIsLastMarker(ms: seq<Spawner>, start: Pos, i: int)
    requires 0 <= i < |ms| && ms[i].variant == 0
    requires forall j :: i < j < |ms| ==> ms[j].variant != 0
    ensures PlayerStart(ms, start) == ms[i].pos
  {
    var n := |ms| - 1;
    if i < n {
      var init := ms[..n];
      assert forall j :: 0 <= j < n ==> init[j] == ms[j];
      PlayerStartIsLastMarker(init, start, i);
    }
  }

  // ----------------------------------------------------------- game_transition

  /**
   * One call of `game_transition` on the counters, given whether any enemy is
   * left and the number of map files. A reload happens when the fade-out after
   * clearing the enemies completes or when the death countdown runs out; it
   * resets `transition` to -30 and `dead` to 0.
   */
  function TransitionStep(c: Counters, enemiesLeft: bool, mapCount: int): (r: TransitionResult)
    requires mapCount >= 1 && 0 <= c.level < mapCount && c.dead >= 0
    ensures 0 <= r.counters.level < mapCount && r.counters.dead >= 0
    ensures -30 <= c.transition <= 30 ==> -30 <= r.counters.transition <= 30
    // when a level is (re)loaded
    ensures r.reloaded <==> (!enemiesLeft && c.transition >= 30) || c.dead >= 40
    ensures r.reloaded ==> r.counters.dead == 0
    // after the fade-out's reload the fade-in has already begun; a death restart starts it
    ensures r.reloaded ==> r.counters.transition == if !enemiesLeft && c.transition >= 30 then -29 else -30
    // the level only moves on, by one and clamped to the last map, after the fade-out
    ensures r.counters.level == if !enemiesLeft && c.transition >= 30 then Min(c.level + 1, mapCount - 1) else c.level
    // death countdown: one step per call while it runs
    ensures !r.reloaded && c.dead > 0 ==> r.counters.dead == c.dead + 1
    // death countdown before the restart: from the tenth count on, transition rises one more, capped at 30
    ensures 0 < c.dead < 40 && !r.reloaded ==>
      var t1 := if enemiesLeft then c.transition else c.transition + 1;
      var t3 := if t1 < 0 then t1 + 1 else t1;
      r.counters.transition == if c.dead + 1 >= 10 then Min(30, t3 + 1) else t3
    ensures c.dead == 0 ==> r.counters.dead == 0
    // death restart: same level, transition back to -30
    ensures c.dead >= 40 && (enemiesLeft || c.transition < 30) ==> r.counters == Counters(c.level, -30, 0)
    // without a death: transition rises by one per call when no enemy is left, and by one more while negative
    ensures c.dead == 0 && !r.reloaded ==>
      var t := if enemiesLeft then c.transition else c.transition + 1;
      r.counters.transition == (if t < 0 then t + 1 else t)
  {
    var t1 := if !enemiesLeft then c.transition + 1 else c.transition;
    var fadeDone := !enemiesLeft && t1 > 30;
    var level := if fadeDone then Min(c.level + 1, mapCount - 1) else c.level;
    var t2 := if fadeDone then -30 else t1;
    var d2 := if fadeDone then 0 else c.dead;
    var t3 := if t2 < 0 then t2 + 1 else t2;
    if d2 != 0 then
      var d4 := d2 + 1;
      var t4 := if d4 >= 10 then Min(30, t3 + 1) else t3;
      if d4 > 40 then TransitionResult(Counters(level, -30, 0), true)
      else TransitionResult(Counters(level, t4, d4), fadeDone)
    else TransitionResult(Counters(level, t3, d2), fadeDone)
  }

  /** The counters after one call per element of `enemiesLeft`. */
  function Run(c: Counters, enemiesLeft: seq<bool>, mapCount: int): (r: Counters)
    requires mapCount >= 1 && 0 <= c.level < mapCount && c.dead >= 0
    ensures 0 <= r.level < mapCount && r.dead >= 0
    ensures -30 <= c.transition <= 30 ==> -30 <= r.transition <= 30
    decreases |enemiesLeft|
  {
    if enemiesLeft == [] then c
    else Run(TransitionStep(c, enemiesLeft[0], mapCount).counters, enemiesLeft[1..], mapCount)
  }

  /**
   * Death countdown: while enemies remain, a death at count `c.dead` counts up
   * one per call on the same level, and the call that passes 40 restarts that
   * level with `transition` at -30.
   */
  lemma {:induction false} DeathCountdown(c: Counters, enemiesLeft: seq<bool>, mapCount: int)
    requires mapCount >= 1 && 0 <= c.level < mapCount && 1 <= c.dead <= 40
    requires forall i :: 0 <= i < |enemiesLeft| ==> enemiesLeft[i]
    requires |enemiesLeft| <= 41 - c.dead
    decreases |enemiesLeft|
    ensures var r := Run(c, enemiesLeft, mapCount);
      if |enemiesLeft| == 41 - c.dead then r == Counters(c.level, -30, 0)
      else r.level == c.level && r.dead == c.dead + |enemiesLeft|
  {
    if enemiesLeft != [] {
      var next := TransitionStep(c, true, mapCount).counters;
      if c.dead == 40 {
        assert enemiesLeft[1..] == [];
      } else {
        DeathCountdown(next, enemiesLeft[1..], mapCount);
      }
    }
  }

  /**
   * Fade-out: with no enemy left and no death, a non-negative `transition`
   * rises one per call; the call after it reaches 30 loads the next level
   * (clamped to the last map) and the fade-in starts at -29.
   */
  lemma {:induction false} FadeOut(c: Counters, enemiesLeft: seq<bool>, mapCount: int)
    requires mapCount >= 1 && 0 <= c.level < mapCount && c.dead == 0 && 0 <= c.transition <= 30
    requires forall i :: 0 <= i < |enemiesLeft| ==> !enemiesLeft[i]
    requires |enemiesLeft| <= 31 - c.transition
    decreases |enemiesLeft|
    ensures var r := Run(c, enemiesLeft, mapCount);
      if |enemiesLeft| == 31 - c.transition then r == Counters(Min(c.level + 1, mapCount - 1), -29, 0)
      else r == Counters(c.level, c.transition + |enemiesLeft|, 0)
  {
    if enemiesLeft != [] {
      var next := TransitionStep(c, false, mapCount).counters;
      if c.transition == 30 {
        assert enemiesLeft[1..] == [];
      } else {
        FadeOut(next, enemiesLeft[1..], mapCount);
      }
    }
  }

  // ------------------------------------------------------------ bullet_movement

  /** A projectile after this frame's move: `x += direction`, `age += 1`. */
  function Moved(p: Projectile): (q: Projectile)
    ensures q.pos.0 == p.pos.0 + p.direction && q.pos.1 == p.pos.1
    ensures q.direction == p.direction && q.age == p.age + 1
  {
    Projectile((p.pos.0 + p.direction, p.pos.1), p.direction, p.age + 1)
  }

  /** The removal checks on a moved projectile, in order: terrain, then age, then the player. */
  function FateOf(p: Projectile, w: World): (f: Fate)
    ensures f == HitTerrain <==> w.solidRock(p.pos)
    ensures f == Expired <==> !w.solidRock(p.pos) && p.age > 360
    ensures f == HitPlayer <==>
      !w.solidRock(p.pos) && p.age <= 360 && Abs(w.dashing) < 50 && CollidePoint(w.playerRect, p.pos)
    ensures f == Flying <==>
      !w.solidRock(p.pos) && p.age <= 360 && !(Abs(w.dashing) < 50 && CollidePoint(w.playerRect, p.pos))
  {
    if w.solidRock(p.pos) then HitTerrain
    else if p.age > 360 then Expired
    else if Abs(w.dashing) < 50 && CollidePoint(w.playerRect, p.pos) then HitPlayer
    else Flying
  }

  /** The moved projectiles that stay in the list, in their original order. */
  function Survivors(ps: seq<Projectile>, w: World): (r: seq<Projectile>)
    ensures |r| <= |ps|
  {
    if ps == [] then []
    else
      var q := Moved(ps[|ps| - 1]);
      Survivors(ps[..|ps| - 1], w) + (if FateOf(q, w) == Flying then [q] else [])
  }

  /** How many projectiles hit the player this frame. */
  function PlayerHits(ps: seq<Projectile>, w: World): (n: nat)
    ensures n <= |ps|
  {
    if ps == [] then 0
    else PlayerHits(ps[..|ps| - 1], w) + (if FateOf(Moved(ps[|ps| - 1]), w) == HitPlayer then 1 else 0)
  }

  /** Every survivor hit nothing: no terrain, not the player, and it is at most 360 frames old. */
  lemma {:induction false} SurvivorsFlying(ps: seq<Projectile>, w: World, q: Projectile)
    requires q in Survivors(ps, w)
    ensures FateOf(q, w) == Flying && !w.solidRock(q.pos) && q.age <= 360
  {
    var init := ps[..|ps| - 1];
    if q in Survivors(init, w) {
      SurvivorsFlying(init, w, q);
    }
  }

  /** A projectile stays exactly when its moved self hits neither terrain nor the player and is at most 360 frames old. */
  lemma {:induction false} SurvivorsMatch(ps: seq<Projectile>, w: World, q: Projectile)
    ensures q in Survivors(ps, w) <==> exists i :: 0 <= i < |ps| && q == Moved(ps[i]) && FateOf(q, w) == Flying
  {
    if ps != [] {
      var init := ps[..|ps| - 1];
      SurvivorsMatch(init, w, q);
      if q in Survivors(init, w) {
        var i :| 0 <= i < |init| && q == Moved(init[i]) && FateOf(q, w) == Flying;
        assert ps[i] == init[i];
      }
      if exists i :: 0 <= i < |ps| && q == Moved(ps[i]) && FateOf(q, w) == Flying {
        var i :| 0 <= i < |ps| && q == Moved(ps[i]) && FateOf(q, w) == Flying;
        if i < |init| {
          assert init[i] == ps[i];
        }
      }
    }
  }

  /**
   * The removal checks are exclusive: every projectile either stays or is
   * removed for one reason, so player hits never exceed removals, and while
   * the player dashes (`abs(dashing) >= 50`) nothing hits the player.
   */
  lemma {:induction false} HitsAreRemovals(ps: seq<Projectile>, w: World)
    ensures PlayerHits(ps, w) + |Survivors(ps, w)| <= |ps|
    ensures Abs(w.dashing) >= 50 ==> PlayerHits(ps, w) == 0
  {
    if ps != [] {
      HitsAreRemovals(ps[..|ps| - 1], w);
    }
  }

  /** One more projectile processed: the survivors and hits of `ps[..i + 1]` from those of `ps[..i]`. */
  lemma ProcessOne(ps: seq<Projectile>, i: int, w: World)
    requires 0 <= i < |ps|
    ensures var q := Moved(ps[i]);
      && Survivors(ps[..i + 1], w) == Survivors(ps[..i], w) + (if FateOf(q, w) == Flying then [q] else [])
      && PlayerHits(ps[..i + 1], w) == PlayerHits(ps[..i], w) + (if FateOf(q, w) == HitPlayer then 1 else 0)
      && (FateOf(q, w) != Flying ==> q !in Survivors(ps[..i], w))
  {
    assert ps[..i + 1][..i] == ps[..i];
    var q := Moved(ps[i]);
    if q in Survivors(ps[..i], w) {
      SurvivorsFlying(ps[..i], w, q);
    }
  }

  /**
   * One projectile processed in place: its moved copy replaces it, and is
   * then either kept or removed by `remove`, which finds this very element
   * because no earlier survivor equals a projectile that is removed.
   */
  lemma BulletStep(ps: seq<Projectile>, i: int, w: World, list: seq<Projectile>)
    requires 0 <= i < |ps| && list == Survivors(ps[..i], w) + ps[i..]
    ensures var p := Moved(ps[i]);
      var list' := list[|list| - (|ps| - i) := p];
      var next := Survivors(ps[..i + 1], w) + ps[i + 1..];
      && 0 <= |list| - (|ps| - i) < |list|
      && (FateOf(p, w) == Flying ==> list' == next)
      && (FateOf(p, w) != Flying ==> p in list' && RemoveFirst(list', p) == next)
      && PlayerHits(ps[..i + 1], w) == PlayerHits(ps[..i], w) + (if FateOf(p, w) == HitPlayer then 1 else 0)
  {
    var p := Moved(ps[i]);
    var done, rest := Survivors(ps[..i], w), ps[i + 1..];
    ProcessOne(ps, i, w);
    assert ps[i..] == [ps[i]] + rest;
    var list' := list[|list| - (|ps| - i) := p];
    assert list' == done + [p] + rest;
    if FateOf(p, w) != Flying {
      RemoveFirstAfter(done, p, rest);
      assert Survivors(ps[..i + 1], w) == done;
    } else {
      assert Survivors(ps[..i + 1], w) == done + [p];
    }
  }

  /**
   * The loop of `bullet_movement` over a copy of the projectile list, on the
   * list, the death counter and the screenshake it updates.
   */
  method AgeProjectiles(projectiles: seq<Projectile>, dead: int, screenshake: int, w: World)
    returns (list: seq<Projectile>, deaths: int, shake: int)
    ensures list == Survivors(projectiles, w)
    ensures deaths == dead + PlayerHits(projectiles, w)
    ensures shake == if PlayerHits(projectiles, w) > 0 then Max(16, screenshake) else screenshake
  {
    var ps := projectiles;  // the loop runs over a copy of the list
    list, deaths, shake := projectiles, dead, screenshake;
    var i := 0;
    while i < |ps|
      invariant 0 <= i <= |ps|
      invariant list == Survivors(ps[..i], w) + ps[i..]
      invariant deaths == dead + PlayerHits(ps[..i], w)
      invariant shake == if PlayerHits(ps[..i], w) > 0 then Max(16, screenshake) else screenshake
    {
      // the projectile is moved and aged in place, at its current index in the list
      var p := Moved(ps[i]);
      BulletStep(ps, i, w, list);
      ghost var fate, next := FateOf(p, w), Survivors(ps[..i + 1], w) + ps[i + 1..];
      ghost var hits := PlayerHits(ps[..i + 1], w);
      list := list[|list| - (|ps| - i) := p];
      if w.solidRock(p.pos) {
        assert fate == HitTerrain;
        list := RemoveFirst(list, p);
      } else if p.age > 360 {
        assert fate == Expired;
        list := RemoveFirst(list, p);
      } else if Abs(w.dashing) < 50 {
        if CollidePoint(w.playerRect, p.pos) {
          assert fate == HitPlayer;
          list := RemoveFirst(list, p);
          deaths := deaths + 1;
          shake := Max(16, shake);
        } else {
          assert fate == Flying;
        }
      } else {
        assert fate == Flying;
      }
      assert list == next && deaths == dead + hits;
      i := i + 1;
    }
    assert ps[..i] == ps;
  }

  /** `screenshake` after `frames` frames without a hit: one less per frame, never below 0. */
  function ShakeAfter(shake: int, frames: nat): (r: int)
    requires shake >= 0
    ensures r == Max(0, shake - frames)
  {
    if frames == 0 then shake else Max(0, ShakeAfter(shake, frames - 1) - 1)
  }

  // ------------------------------------------------------------ enemy removal

  /**
   * The enemies left after the enemy pass of `run`, in their original order:
   * `kill` is the verdict of each enemy's update (entities.py is not part of
   * this model).
   */
  function Remaining(es: seq<Enemy>, kill: Enemy -> bool): (r: seq<Enemy>)
    ensures |r| <= |es|
  {
    if es == [] then []
    else
      var e := es[|es| - 1];
      Remaining(es[..|es| - 1], kill) + (if kill(e) then [] else [e])
  }

  /** An enemy stays exactly when it was there and its update did not kill it. */
  lemma {:induction false} RemainingMatch(es: seq<Enemy>, kill: Enemy -> bool, e: Enemy)
    ensures e in Remaining(es, kill) <==> e in es && !kill(e)
  {
    if es != [] {
      var init := es[..|es| - 1];
      RemainingMatch(init, kill, e);
      assert es == init + [es[|es| - 1]];
    }
  }

  /** The level is cleared, so the fade-out of `game_transition` starts, exactly when every enemy is killed. */
  lemma {:induction false} RemainingEmpty(es: seq<Enemy>, kill: Enemy -> bool)
    ensures Remaining(es, kill) == [] <==> forall i :: 0 <= i < |es| ==> kill(es[i])
  {
    if es != [] {
      var init := es[..|es| - 1];
      RemainingEmpty(init, kill);
      assert forall i :: 0 <= i < |init| ==> init[i] == es[i];
    }
  }

  /**
   * One enemy of the copy examined: a killed enemy is removed from the live
   * list by `remove`, which finds this very enemy because no enemy kept so
   * far was killed.
   */
  lemma KillStep(es: seq<Enemy>, i: int, kill: Enemy -> bool, list: seq<Enemy>)
    requires 0 <= i < |es| && list == Remaining(es[..i], kill) + es[i..]
    ensures var e := es[i];
      var next := Remaining(es[..i + 1], kill) + es[i + 1..];
      && (!kill(e) ==> list == next)
      && (kill(e) ==> e in list && RemoveFirst(list, e) == next)
  {
    var e := es[i];
    var done, rest := Remaining(es[..i], kill), es[i + 1..];
    assert es[..i + 1][..i] == es[..i];
    assert es[i..] == [e] + rest;
    assert list == done + [e] + rest;
    if kill(e) {
      RemainingMatch(es[..i], kill, e);
      RemoveFirstAfter(done, e, rest);
      assert Remaining(es[..i + 1], kill) == done;
    } else {
      assert Remaining(es[..i + 1], kill) == done + [e];
    }
  }

  /** The enemy loop of `run` over a copy of the list, removing each killed enemy by value. */
  method KillEnemies(enemies: seq<Enemy>, kill: Enemy -> bool) returns (list: seq<Enemy>)
    ensures list == Remaining(enemies, kill)
  {
    var es := enemies;  // the loop runs over a copy of the list
    list := enemies;
    var i := 0;
    while i < |es|
      invariant 0 <= i <= |es|
      invariant list == Remaining(es[..i], kill) + es[i..]
    {
      var e := es[i];
      KillStep(es, i, kill, list);
      if kill(e) {
        list := RemoveFirst(list, e);
      }
      i := i + 1;
    }
    assert es[..i] == es;
  }

  class Game {
    /** The spawner markers extracted from each map file `data/maps/<i>.json`; `|maps|` is the map count. */
    const maps: seq<seq<Spawner>>
    var level: int
    var transition: int
    var dead: int
    var screenshake: int
    var enemies: seq<Enemy>
    var projectiles: seq<Projectile>
    var playerPos: Pos
    var playerAirTime: int

    ghost predicate Valid()
      reads this
    {
      && |maps| >= 1 && 0 <= level < |maps|
      && -30 <= transition <= 30
      && dead >= 0 && screenshake >= 0
    }

    function CounterState(): Counters
      reads this
    {
      Counters(level, transition, dead)
    }

    /** Starts on level 0; the player's initial air time belongs to the player object. */
    constructor(maps: seq<seq<Spawner>>, playerAirTime: int)
      requires |maps| >= 1
      ensures Valid() && this.maps == maps
      ensures CounterState() == Counters(0, -30, 0) && screenshake == 0 && projectiles == []
      ensures enemies == Enemies(maps[0]) && playerPos == PlayerStart(maps[0], (50, 50))
      ensures this.playerAirTime == if HasPlayerSpawn(maps[0]) then 0 else playerAirTime
    {
      this.maps := maps;
      this.playerPos := (50, 50);
      this.playerAirTime := playerAirTime;
      this.level := 0;
      this.enemies := [];
      this.dead := 0;
      this.transition := -30;
      this.projectiles := [];
      this.screenshake := 0;
      new;
      LoadLevel(level);
    }

    /** The reset and spawner dispatch of `load_level(mapId)`. */
    method LoadLevel(mapId: int)
      requires 0 <= level < |maps| && 0 <= mapId < |maps| && screenshake >= 0
      modifies this
      ensures Valid()
      ensures enemies == Enemies(maps[mapId])
      ensures playerPos == PlayerStart(maps[mapId], old(playerPos))
      ensures playerAirTime == if HasPlayerSpawn(maps[mapId]) then 0 else old(playerAirTime)
      ensures dead == 0 && transition == -30
      ensures level == old(level) && screenshake == old(screenshake) && projectiles == old(projectiles)
    {
      var markers := maps[mapId];
      enemies := [];
      var i := 0;
      while i < |markers|
        invariant 0 <= i <= |markers|
        invariant enemies == Enemies(markers[..i])
        invariant playerPos == PlayerStart(markers[..i], old(playerPos))
        invariant playerAirTime == if HasPlayerSpawn(markers[..i]) then 0 else old(playerAirTime)
        invariant level == old(level) && transition == old(transition) && dead == old(dead)
        invariant screenshake == old(screenshake) && projectiles == old(projectiles)
      {
        var spawner := markers[i];
        assert markers[..i + 1][..i] == markers[..i];
        assert markers[..i + 1][i] == spawner;
        if spawner.variant == 0 {
          playerPos := spawner.pos;
          playerAirTime := 0;
        } else {
          enemies := enemies + [Enemy(spawner.pos)];
        }
        i := i + 1;
      }
      assert markers[..i] == markers;
      dead := 0;
      transition := -30;
    }

    method GameTransition()
      requires Valid()
      modifies this
      ensures Valid()
      ensures var r := TransitionStep(old(CounterState()), old(|enemies|) > 0, |maps|);
        && CounterState() == r.counters
        && if r.reloaded then
             && enemies == Enemies(maps[level])
             && playerPos == PlayerStart(maps[level], old(playerPos))
             && playerAirTime == (if HasPlayerSpawn(maps[level]) then 0 else old(playerAirTime))
           else
             enemies == old(enemies) && playerPos == old(playerPos) && playerAirTime == old(playerAirTime)
      ensures screenshake == old(screenshake) && projectiles == old(projectiles)
    {
      if |enemies| == 0 {
        transition := transition + 1;
        if transition > 30 {
          level := Min(level + 1, |maps| - 1);
          LoadLevel(level);
        }
      }
      if transition < 0 {
        transition := transition + 1;
      }
      if dead != 0 {
        dead := dead + 1;
        if dead >= 10 {
          transition := Min(30, transition + 1);
        }
        if dead > 40 {
          LoadLevel(level);
        }
      }
    }

    /** The enemy pass of `run`: every enemy updates, and those it kills leave the list. */
    method RemoveEnemies(kill: Enemy -> bool)
      requires Valid()
      modifies this`enemies
      ensures Valid()
      ensures enemies == Remaining(old(enemies), kill)
    {
      enemies := KillEnemies(enemies, kill);
    }

    /** The screenshake decay of one frame in `image_displays`. */
    method DecayScreenshake()
      requires Valid()
      modifies this`screenshake
      ensures Valid()
      ensures screenshake == ShakeAfter(old(screenshake), 1)
    {
      screenshake := Max(0, screenshake - 1);
    }

    /**
     * The aging and removal of `bullet_movement`: each projectile moves and
     * ages in place, then leaves the list if it hit terrain, is older than
     * 360 frames, or hit a non-dashing player (which counts a death and
     * raises the screenshake to at least 16).
     */
    method BulletMovement(w: World)
      requires Valid()
      modifies this`projectiles, this`dead, this`screenshake
      ensures Valid()
      ensures projectiles == Survivors(old(projectiles), w)
      ensures dead == old(dead) + PlayerHits(old(projectiles), w)
      ensures screenshake == if PlayerHits(old(projectiles), w) > 0 then Max(16, old(screenshake)) else old(screenshake)
    {
      projectiles, dead, screenshake := AgeProjectiles(projectiles, dead, screenshake, w);
    }
  }
}
