/**
 * What the tick rules guarantee: the invariant every reachable state keeps,
 * the jump arc, the obstacle list discipline, scoring and collision.
 */
module DinoProperties {
  import opened DinoRules

  // ------------------------------------------------------------ invariant

  /**
   * How far above the ground a jump launched with JUMP_POWER is once its
   * velocity has dropped to v: the sum v+1 + v+2 + ... + JUMP_POWER.
   */
  function Climb(v: int): int
    requires v <= JUMP_POWER
    decreases JUMP_POWER - v
  {
    if v == JUMP_POWER then 0 else Climb(v + 1) + (v + 1)
  }

  lemma {:induction false} ClimbClosedForm(v: int)
    requires v <= JUMP_POWER
    ensures 2 * Climb(v) == JUMP_POWER * (JUMP_POWER + 1) - v * (v + 1)
    decreases JUMP_POWER - v
  {
    if v < JUMP_POWER {
      ClimbClosedForm(v + 1);
      assert (v + 1) * (v + 2) == v * (v + 1) + 2 * (v + 1);
    }
  }

  /**
   * On the ground the player is at rest; in the air the pair (y, vy) lies on
   * the parabola of a jump launched from the ground with JUMP_POWER.
   */
  predicate MotionInv(m: Motion) {
    m.y >= GROUND_LEVEL &&
    (!m.jumping ==> m == Rest) &&
    (m.jumping ==> -JUMP_POWER <= m.vy < JUMP_POWER && m.y == GROUND_LEVEL + Climb(m.vy))
  }

  predicate InField(o: Obstacle) {
    0 <= o.x <= WIDTH - 2 && 0 <= o.height <= MAX_OBSTACLE_HEIGHT
  }

  /** Obstacles are listed in spawn order, which is left to right: their columns strictly rise. */
  predicate Ascending(obs: seq<Obstacle>) {
    forall i, j :: 0 <= i < j < |obs| ==> obs[i].x < obs[j].x
  }

  predicate ObstaclesInv(obs: seq<Obstacle>) {
    |obs| <= MAX_OBSTACLES &&
    (forall k :: 0 <= k < |obs| ==> InField(obs[k])) &&
    Ascending(obs)
  }

  predicate Inv(s: State) {
    MotionInv(s.motion) && ObstaclesInv(s.obstacles)
  }

  lemma InitialInv()
    ensures Inv(Initial())
  {
  }

  /** Key handling either leaves the motion alone or launches a jump from rest. */
  lemma HandleKeyMotion(s: State, input: Input)
    requires MotionInv(s.motion)
    ensures var m := HandleKey(s, input).motion;
      m == s.motion || (s.motion == Rest && m == Launched)
  {
  }

  lemma PhysicsKeepsInv(m: Motion)
    requires MotionInv(m) || m == Launched
    ensures MotionInv(Physics(m))
  {
    if m.jumping && m.vy == -JUMP_POWER {
      ClimbClosedForm(-JUMP_POWER);
      assert Clamps(m);
    }
  }

  // ------------------------------------------------------------ physics

  /** The resting state is a fixed point of the physics step. */
  lemma RestIsFixedPoint()
    ensures Physics(Rest) == Rest
  {
  }

  /** The player never rises above the apex of a jump. */
  lemma ApexBound(m: Motion)
    requires MotionInv(m)
    ensures GROUND_LEVEL <= m.y <= GROUND_LEVEL + JUMP_POWER * (JUMP_POWER + 1) / 2
  {
    if m.jumping {
      ClimbClosedForm(m.vy);
      if m.vy >= 0 {
        assert m.vy * (m.vy + 1) >= 0;
      } else {
        assert m.vy * (m.vy + 1) == (-m.vy) * (-m.vy - 1);
        assert (-m.vy) * (-m.vy - 1) >= 0;
      }
    }
  }

  /** In the air the player is always higher than the tallest obstacle. */
  lemma AirborneClearsObstacles(m: Motion)
    requires MotionInv(m) && m.jumping
    ensures m.y > GROUND_LEVEL + MAX_OBSTACLE_HEIGHT
  {
    var v := m.vy;
    ClimbClosedForm(v);
    assert v * (v + 1) <= 20 by {
      if v >= 0 {
        assert v <= 4;
        assert v * (v + 1) <= 4 * (v + 1);
      } else {
        assert -v <= 5;
        assert v * (v + 1) == (-v) * (-v - 1);
        assert (-v) * (-v - 1) <= 5 * (-v - 1);
      }
    }
  }

  /** n physics steps with no key pressed. */
  function Fly(m: Motion, n: nat): Motion
    decreases n
  {
    if n == 0 then m else Physics(Fly(m, n - 1))
  }

  /** The height formula advances by the current velocity and stays above ground for 10 ticks. */
  lemma ArcArithmetic(n: int)
    requires 1 <= n <= 2 * JUMP_POWER
    ensures 2 * JUMP_POWER * (n - 1) - (n - 1) * (n - 2) + 2 * (JUMP_POWER - (n - 1))
         == 2 * JUMP_POWER * n - n * (n - 1)
    ensures 2 * JUMP_POWER * n - n * (n - 1) > 0
  {
    assert n == 1 || n == 2 || n == 3 || n == 4 || n == 5 ||
           n == 6 || n == 7 || n == 8 || n == 9 || n == 10;
  }

  /** After n ticks of a jump (n up to 10) the height follows y(n) = G + J*n - n*(n-1)/2. */
  lemma {:induction false} JumpArc(n: nat)
    requires n <= 2 * JUMP_POWER
    ensures 2 * (Fly(Launched, n).y - GROUND_LEVEL) == 2 * JUMP_POWER * n - n * (n - 1)
    ensures Fly(Launched, n).vy == JUMP_POWER - n * GRAVITY
    ensures Fly(Launched, n).jumping
    decreases n
  {
    if n > 0 {
      JumpArc(n - 1);
      var m := Fly(Launched, n - 1);
      ArcArithmetic(n);
      assert !Clamps(m);
    }
  }

  /** The heights of the ten airborne ticks of a jump from rest. */
  lemma JumpHeights()
    ensures seq(10, k requires 0 <= k < 10 => Fly(Launched, k + 1).y)
         == [6, 10, 13, 15, 16, 16, 15, 13, 10, 6]
  {
    JumpArc(1); JumpArc(2); JumpArc(3); JumpArc(4); JumpArc(5);
    JumpArc(6); JumpArc(7); JumpArc(8); JumpArc(9); JumpArc(10);
  }

  /** The eleventh tick of a jump lands the player back at rest. */
  lemma JumpLands()
    ensures Fly(Launched, 2 * JUMP_POWER + 1) == Rest
    ensures Fly(Launched, JUMP_POWER).y == GROUND_LEVEL + JUMP_POWER * (JUMP_POWER + 1) / 2
  {
    JumpArc(2 * JUMP_POWER);
    JumpArc(JUMP_POWER);
  }

  // ------------------------------------------------------------ obstacles

  /** The update never lengthens the list and leaves only obstacles at x >= 0. */
  lemma {:induction false} AdvanceShrinks(obs: seq<Obstacle>)
    ensures |Advance(obs)| <= |obs|
    ensures forall k :: 0 <= k < |Advance(obs)| ==> Advance(obs)[k].x >= 0
    decreases |obs|
  {
    if obs != [] {
      AdvanceShrinks(obs[..|obs| - 1]);
    }
  }

  lemma {:induction false} AdvanceMembers(obs: seq<Obstacle>, o: Obstacle)
    ensures o in Advance(obs) <==> exists k :: 0 <= k < |obs| && o == Moved(obs[k]) && o.x >= 0
    decreases |obs|
  {
    if obs != [] {
      var init := obs[..|obs| - 1];
      AdvanceMembers(init, o);
      if o in Advance(init) {
        var k :| 0 <= k < |init| && o == Moved(init[k]) && o.x >= 0;
        assert obs[k] == init[k];
      }
      if exists k :: 0 <= k < |obs| && o == Moved(obs[k]) && o.x >= 0 {
        var k :| 0 <= k < |obs| && o == Moved(obs[k]) && o.x >= 0;
        if k < |init| {
          assert init[k] == obs[k];
        }
      }
    }
  }

  /** Moving and filtering works obstacle by obstacle and keeps the list order. */
  lemma {:induction false} AdvanceAppend(a: seq<Obstacle>, b: seq<Obstacle>)
    ensures Advance(a + b) == Advance(a) + Advance(b)
    decreases |b|
  {
    if b == [] {
      assert a + b == a;
    } else {
      var init := b[..|b| - 1];
      AdvanceAppend(a, init);
      assert (a + b)[..|a + b| - 1] == a + init;
    }
  }

  lemma AdvanceOne(o: Obstacle)
    ensures Advance([o]) == if o.x - OBSTACLE_SPEED >= 0 then [Moved(o)] else []
  {
    assert [o][..0] == [];
  }

  lemma {:induction false} AdvanceKeepsAscending(obs: seq<Obstacle>)
    requires Ascending(obs)
    ensures Ascending(Advance(obs))
    decreases |obs|
  {
    if obs != [] {
      var init := obs[..|obs| - 1];
      var last := Moved(obs[|obs| - 1]);
      AdvanceKeepsAscending(init);
      var front := Advance(init);
      if last.x >= 0 {
        forall i | 0 <= i < |front|
          ensures front[i].x < last.x
        {
          AdvanceMembers(init, front[i]);
        }
      }
    }
  }

  lemma {:induction false} AdvanceKeepsInField(obs: seq<Obstacle>)
    requires forall k :: 0 <= k < |obs| ==>
      obs[k].x <= WIDTH - 1 && 0 <= obs[k].height <= MAX_OBSTACLE_HEIGHT
    ensures forall k :: 0 <= k < |Advance(obs)| ==> InField(Advance(obs)[k])
    ensures forall k :: 0 <= k < |Advance(obs)| ==>
      exists j :: 0 <= j < |obs| &&
        Advance(obs)[k].x == obs[j].x - OBSTACLE_SPEED && Advance(obs)[k].height == obs[j].height
    ensures forall j :: 0 <= j < |obs| && obs[j].x - OBSTACLE_SPEED >= 0 ==>
      Obstacle(obs[j].x - OBSTACLE_SPEED, obs[j].height) in Advance(obs)
  {
    var r := Advance(obs);
    forall k | 0 <= k < |r|
      ensures InField(r[k])
      ensures exists j ::
        0 <= j < |obs| && r[k].x == obs[j].x - OBSTACLE_SPEED && r[k].height == obs[j].height
    {
      AdvanceMembers(obs, r[k]);
    }
    forall j | 0 <= j < |obs| && obs[j].x - OBSTACLE_SPEED >= 0
      ensures Obstacle(obs[j].x - OBSTACLE_SPEED, obs[j].height) in r
    {
      AdvanceMembers(obs, Moved(obs[j]));
    }
  }

  /** Applying the obstacle step n times. */
  function Drift(obs: seq<Obstacle>, n: nat): seq<Obstacle>
    decreases n
  {
    if n == 0 then obs else Advance(Drift(obs, n - 1))
  }

  /**
   * An obstacle appended at the right edge is seen at WIDTH-1-n after n moves
   * and is gone after exactly WIDTH moves.
   */
  lemma {:induction false} ObstacleLifetime(h: int, n: nat)
    requires n <= WIDTH
    ensures n < WIDTH ==> Drift([Obstacle(WIDTH - 1, h)], n) == [Obstacle(WIDTH - 1 - n, h)]
    ensures n == WIDTH ==> Drift([Obstacle(WIDTH - 1, h)], n) == []
    decreases n
  {
    if n > 0 {
      ObstacleLifetime(h, n - 1);
      AdvanceOne(Obstacle(WIDTH - n, h));
    }
  }

  // --------------------------------------------------------------- score

  lemma {:induction false} ScoresIff(obs: seq<Obstacle>)
    ensures Scores(obs) <==> exists k :: 0 <= k < |obs| && Moved(obs[k]).x == PASS_X
    decreases |obs|
  {
    if obs != [] {
      var init := obs[..|obs| - 1];
      ScoresIff(init);
      if Scores(init) {
        var k :| 0 <= k < |init| && Moved(init[k]).x == PASS_X;
        assert obs[k] == init[k];
      }
      if exists k :: 0 <= k < |obs| && Moved(obs[k]).x == PASS_X {
        var k :| 0 <= k < |obs| && Moved(obs[k]).x == PASS_X;
        if k < |init| {
          assert init[k] == obs[k];
        }
      }
    }
  }

  /** With strictly rising columns at most one obstacle reaches the pass column per tick. */
  lemma {:induction false} PassersAtMostOne(obs: seq<Obstacle>)
    requires Ascending(obs)
    ensures Passers(obs) <= 1
    ensures Passers(obs) == 1 <==> Scores(obs)
    decreases |obs|
  {
    if obs != [] {
      var init := obs[..|obs| - 1];
      PassersAtMostOne(init);
      if Moved(obs[|obs| - 1]).x == PASS_X && Scores(init) {
        ScoresIff(init);
      }
    }
  }

  // ----------------------------------------------------------------- tick

  /**
   * Below the cap a spawn appends the new obstacle at column WIDTH-1 after all
   * others; at the cap, or without a spawn, the list is unchanged. Either way the
   * cap holds and the new obstacle is right of all others.
   */
  lemma SpawnKeepsOrder(obs: seq<Obstacle>, spawn: bool, h: int)
    requires ObstaclesInv(obs)
    ensures var r := Spawn(obs, spawn, h);
      if spawn && |obs| < MAX_OBSTACLES
      then |r| == |obs| + 1 && r[..|obs|] == obs && r[|obs|] == Obstacle(WIDTH - 1, h)
      else r == obs
    ensures var r := Spawn(obs, spawn, h);
      |r| <= MAX_OBSTACLES && Ascending(r) &&
      (forall k :: 0 <= k < |r| ==> r[k].x <= WIDTH - 1) &&
      (0 <= h <= MAX_OBSTACLE_HEIGHT ==>
        forall k :: 0 <= k < |r| ==> 0 <= r[k].height <= MAX_OBSTACLE_HEIGHT)
  {
    var r := Spawn(obs, spawn, h);
    forall i, j | 0 <= i < j < |r|
      ensures r[i].x < r[j].x
    {
      if spawn && |obs| < MAX_OBSTACLES {
        assert r == obs + [Obstacle(WIDTH - 1, h)];
        assert r[i] == obs[i];
        if j < |obs| {
          assert r[j] == obs[j];
          assert obs[i].x < obs[j].x;
        } else {
          assert InField(obs[i]);
          assert r[j] == Obstacle(WIDTH - 1, h);
        }
      } else {
        assert r == obs;
        assert obs[i].x < obs[j].x;
      }
    }
  }

  /** The obstacle update keeps at most five obstacles, in the field, in spawn order. */
  lemma ObstacleUpdateKeepsInv(obs: seq<Obstacle>, spawn: bool, h: int)
    requires ObstaclesInv(obs) && 0 <= h <= MAX_OBSTACLE_HEIGHT
    ensures ObstaclesInv(Advance(Spawn(obs, spawn, h)))
  {
    var spawned := Spawn(obs, spawn, h);
    SpawnKeepsOrder(obs, spawn, h);
    AdvanceShrinks(spawned);
    AdvanceKeepsAscending(spawned);
    AdvanceKeepsInField(spawned);
  }

  /** The tick never leaves the invariant. */
  lemma StepKeepsInv(s: State, t: TickInput)
    requires Inv(s) && !s.gameOver && WellFormed(t)
    ensures Inv(Step(s, t))
  {
    var k := HandleKey(s, t.input);
    HandleKeyMotion(s, t.input);
    if !k.gameOver {
      PhysicsKeepsInv(k.motion);
      ObstacleUpdateKeepsInv(s.obstacles, t.spawn, t.spawnHeight);
    }
  }

  lemma {:induction false} RunKeepsInv(s: State, ticks: seq<TickInput>)
    requires Inv(s)
    requires forall k :: 0 <= k < |ticks| ==> WellFormed(ticks[k])
    ensures Inv(Run(s, ticks))
    decreases |ticks|
  {
    if ticks != [] && !s.gameOver {
      StepKeepsInv(s, ticks[0]);
      RunKeepsInv(Step(s, ticks[0]), ticks[1..]);
    }
  }

  /** Ctrl+C ends the game before the frame counter, physics or obstacles change. */
  lemma QuitFreezes(s: State, t: TickInput)
    requires !s.gameOver && t.input == Pressed(QUIT_KEY)
    ensures Step(s, t) == s.(gameOver := true, message := KeyNote(QUIT_KEY, false))
  {
  }

  /** A space while already airborne has no effect beyond the debug message. */
  lemma SpaceWhileJumping(s: State, t: TickInput)
    requires !s.gameOver && s.motion.jumping && t.input == Pressed(JUMP_KEY)
    ensures Step(s, t).(message := Blank) == Step(s, t.(input := NoKey)).(message := Blank)
  {
  }

  /** A space from the ground launches a jump whose first tick rises by JUMP_POWER. */
  lemma SpaceFromRest(s: State, t: TickInput)
    requires !s.gameOver && s.motion == Rest && t.input == Pressed(JUMP_KEY)
    ensures Step(s, t).motion == Fly(Launched, 1)
    ensures Step(s, t).motion == Motion(GROUND_LEVEL + JUMP_POWER, JUMP_POWER - GRAVITY, true)
  {
  }

  /** While airborne, any key but Ctrl+C leaves the motion to the physics step. */
  lemma AirborneTick(s: State, t: TickInput)
    requires !s.gameOver && s.motion.jumping && t.input != Pressed(QUIT_KEY)
    ensures Step(s, t).motion == Physics(s.motion)
  {
  }

  /** Successive ticks of a jump follow the arc: tick n of a jump is followed by tick n + 1. */
  lemma JumpTick(s: State, t: TickInput, n: nat)
    requires !s.gameOver && 1 <= n <= 2 * JUMP_POWER && s.motion == Fly(Launched, n)
    requires t.input != Pressed(QUIT_KEY)
    ensures Step(s, t).motion == Fly(Launched, n + 1)
  {
    JumpArc(n);
    AirborneTick(s, t);
  }

  /** A tick without a jump keeps a resting player at rest. */
  lemma RestStaysWithoutJump(s: State, t: TickInput)
    requires !s.gameOver && s.motion == Rest && t.input != Pressed(JUMP_KEY)
    ensures Step(s, t).motion == Rest
  {
  }

  /** A tick that does not quit updates the obstacles and the score from the list after spawning. */
  lemma StepUpdates(s: State, t: TickInput)
    requires !s.gameOver && !HandleKey(s, t.input).gameOver
    ensures var spawned := Spawn(s.obstacles, t.spawn, t.spawnHeight);
      Step(s, t).obstacles == Advance(spawned)
      && Step(s, t).score == s.score + (if Scores(spawned) then 1 else 0)
  {
    var k := HandleKey(s, t.input);
    assert k.obstacles == s.obstacles && k.score == s.score;
  }

  /**
   * The score never falls, rises by at most one, and rises only when an
   * obstacle now stands in the pass column.
   */
  lemma ScoreStep(s: State, t: TickInput)
    requires !s.gameOver
    ensures s.score <= Step(s, t).score <= s.score + 1
    ensures Step(s, t).score == s.score + 1 ==>
      exists k :: 0 <= k < |Step(s, t).obstacles| && Step(s, t).obstacles[k].x == PASS_X
  {
    var k := HandleKey(s, t.input);
    var spawned := Spawn(s.obstacles, t.spawn, t.spawnHeight);
    var r := Step(s, t);
    assert k.score == s.score && k.obstacles == s.obstacles;
    if k.gameOver {
      assert r == k;
    } else {
      assert r.score == s.score + (if Scores(spawned) then 1 else 0);
      assert r.obstacles == Advance(spawned);
      if Scores(spawned) {
        PassMoves(spawned);
      }
    }
  }

  /** Some obstacle moved into the pass column remains in the advanced list. */
  lemma PassMoves(obs: seq<Obstacle>)
    requires Scores(obs)
    ensures exists k :: 0 <= k < |Advance(obs)| && Advance(obs)[k].x == PASS_X
  {
    ScoresIff(obs);
    var i :| 0 <= i < |obs| && Moved(obs[i]).x == PASS_X;
    AdvanceMembers(obs, Moved(obs[i]));
    var j :| 0 <= j < |Advance(obs)| && Advance(obs)[j] == Moved(obs[i]);
  }

  /**
   * Only the first obstacle reaching the pass column in a tick scores, but in
   * a reachable state no second one can be there: every pass is counted.
   */
  lemma ScoreCountsEveryPasser(s: State, t: TickInput)
    requires Inv(s) && !s.gameOver && !HandleKey(s, t.input).gameOver
    ensures Step(s, t).score == s.score + Passers(Spawn(s.obstacles, t.spawn, t.spawnHeight))
  {
    var spawned := Spawn(s.obstacles, t.spawn, t.spawnHeight);
    StepUpdates(s, t);
    SpawnKeepsOrder(s.obstacles, t.spawn, t.spawnHeight);
    PassersAtMostOne(spawned);
  }

  /** A newly spawned obstacle is the last in the list and is first seen one column in. */
  lemma SpawnAppearsAt(s: State, t: TickInput)
    requires !s.gameOver && !HandleKey(s, t.input).gameOver
    requires t.spawn && |s.obstacles| < MAX_OBSTACLES
    ensures var obs := Step(s, t).obstacles;
      |obs| > 0 && obs[|obs| - 1] == Obstacle(WIDTH - 2, t.spawnHeight)
  {
    var o := Obstacle(WIDTH - 1, t.spawnHeight);
    StepUpdates(s, t);
    assert Spawn(s.obstacles, t.spawn, t.spawnHeight) == s.obstacles + [o];
    AdvanceAppend(s.obstacles, [o]);
    AdvanceOne(o);
  }

  /** A player standing on the ground always collides with an obstacle in its column. */
  lemma GroundedPlayerHits(obs: seq<Obstacle>, k: nat)
    requires k < |obs| && obs[k].x == PLAYER_X && obs[k].height >= 0
    ensures Collides(obs, GROUND_LEVEL)
  {
  }

  /** No obstacle outside the player's column ever collides, whatever its height. */
  lemma OtherColumnsMiss(obs: seq<Obstacle>, y: int)
    requires forall k :: 0 <= k < |obs| ==> obs[k].x != PLAYER_X
    ensures !Collides(obs, y)
  {
  }

  /**
   * Apart from Ctrl+C, the game ends exactly when a remaining obstacle is in
   * the player's column at or above the player's height, and the player
   * glyph and message then report the collision.
   */
  lemma CollisionEndsGame(s: State, t: TickInput)
    requires Inv(s) && !s.gameOver && WellFormed(t) && !HandleKey(s, t.input).gameOver
    ensures var r := Step(s, t);
      r.gameOver <==> exists k :: 0 <= k < |r.obstacles| && r.obstacles[k].x == PLAYER_X
                                    && r.motion.y <= GROUND_LEVEL + r.obstacles[k].height
    ensures var r := Step(s, t);
      r.gameOver ==> !r.motion.jumping && r.glyph == COLLISION_CHAR && r.message == CollisionNote
  {
    var r := Step(s, t);
    if r.gameOver && r.motion.jumping {
      StepKeepsInv(s, t);
      AirborneClearsObstacles(r.motion);
    }
  }

  // ------------------------------------------------------------ scenarios

  const QuietTick: TickInput := TickInput(NoKey, false, 0)

  /** n ticks with no key and no spawn. */
  function Quiet(n: nat): seq<TickInput>
    decreases n
  {
    if n == 0 then [] else [QuietTick] + Quiet(n - 1)
  }

  /** With no spawns and no keys the session keeps running with score 0. */
  lemma {:induction false} IdleRun(f: nat, n: nat)
    ensures Run(Initial().(frameCount := f), Quiet(n)) == Initial().(frameCount := f + n)
    decreases n
  {
    if n > 0 {
      assert Step(Initial().(frameCount := f), QuietTick) == Initial().(frameCount := f + 1);
      IdleRun(f + 1, n - 1);
    }
  }

  /** A resting session with one obstacle of height 0 at column x. */
  function Approaching(x: int, f: nat): State {
    Initial().(frameCount := f, obstacles := [Obstacle(x, 0)])
  }

  function Crashed(f: nat): State {
    State(Rest, [Obstacle(PLAYER_X, 0)], 0, true, f, COLLISION_CHAR, CollisionNote)
  }

  lemma ApproachStep(x: int, f: nat)
    requires x > PLAYER_X
    ensures Step(Approaching(x, f), QuietTick)
         == if x - 1 == PLAYER_X then Crashed(f + 1) else Approaching(x - 1, f + 1)
  {
    AdvanceOne(Obstacle(x, 0));
    assert [Obstacle(x, 0)][..0] == [];
    var obs := Advance([Obstacle(x, 0)]);
    assert obs == [Obstacle(x - 1, 0)];
    assert !Scores([Obstacle(x, 0)]);
    var k := HandleKey(Approaching(x, f), NoKey);
    assert k == Approaching(x, f);
    assert Physics(Rest) == Rest;
    if x - 1 == PLAYER_X {
      assert Hits(obs[0], GROUND_LEVEL);
      assert Collides(obs, GROUND_LEVEL);
    } else {
      assert !Collides(obs, GROUND_LEVEL);
    }
  }

  /**
   * A single height-0 obstacle approaching a player who never jumps ends the
   * game exactly on the tick it reaches the player's column, without scoring.
   */
  lemma {:induction false} ApproachRun(x: int, f: nat, n: nat)
    requires x > PLAYER_X
    ensures Run(Approaching(x, f), Quiet(n)) == ApproachEnd(x, f, n)
    decreases n, 1
  {
    if n == 0 {
      ApproachStart(x, f);
    } else if x - 1 > PLAYER_X {
      ApproachFar(x, f, n);
    } else {
      ApproachCrashes(x, f, n);
    }
  }

  /** Before any tick the approach has not moved. */
  lemma ApproachStart(x: int, f: nat)
    requires x > PLAYER_X
    ensures Run(Approaching(x, f), Quiet(0)) == ApproachEnd(x, f, 0)
  {
    assert Quiet(0) == [];
  }

  /** An obstacle still short of the player: one quiet tick, then the rest of the approach. */
  lemma {:induction false} ApproachFar(x: int, f: nat, n: nat)
    requires x - 1 > PLAYER_X && n > 0
    ensures Run(Approaching(x, f), Quiet(n)) == ApproachEnd(x, f, n)
    decreases n, 0
  {
    assert ApproachEnd(x, f, n) == ApproachEnd(x - 1, f + 1, n - 1);
    ApproachMoves(x, f, n);
    ApproachRun(x - 1, f + 1, n - 1);
  }

  /** Where a resting player and one height-0 obstacle stand after n quiet ticks, tick by tick. */
  function ApproachEnd(x: int, f: nat, n: nat): State
    requires x > PLAYER_X
    decreases n
  {
    if n == 0 then Approaching(x, f)
    else if x - 1 == PLAYER_X then Crashed(f + 1)
    else ApproachEnd(x - 1, f + 1, n - 1)
  }

  /**
   * The approach in closed form: the obstacle is n columns closer, until the
   * tick it reaches the player's column ends the game.
   */
  lemma {:induction false} ApproachEndClosed(x: int, f: nat, n: nat)
    requires x > PLAYER_X
    ensures ApproachEnd(x, f, n)
         == if n < x - PLAYER_X then Approaching(x - n, f + n) else Crashed(f + x - PLAYER_X)
    decreases n
  {
    if n > 0 && x - 1 > PLAYER_X {
      ApproachEndClosed(x - 1, f + 1, n - 1);
      assert (x - 1) - (n - 1) == x - n && (f + 1) + (n - 1) == f + n;
      assert (f + 1) + (x - 1) - PLAYER_X == f + x - PLAYER_X;
    }
  }

  /** A quiet tick moves an obstacle that is still short of the player one column closer. */
  lemma ApproachMoves(x: int, f: nat, n: nat)
    requires x - 1 > PLAYER_X && n > 0
    ensures Run(Approaching(x, f), Quiet(n)) == Run(Approaching(x - 1, f + 1), Quiet(n - 1))
  {
    assert Quiet(n)[0] == QuietTick && Quiet(n)[1..] == Quiet(n - 1);
    ApproachStep(x, f);
  }

  /** A quiet tick that moves the obstacle into the player's column ends the game. */
  lemma ApproachCrashes(x: int, f: nat, n: nat)
    requires x - 1 == PLAYER_X && n > 0
    ensures Run(Approaching(x, f), Quiet(n)) == ApproachEnd(x, f, n)
  {
    assert Quiet(n)[0] == QuietTick && Quiet(n)[1..] == Quiet(n - 1);
    ApproachStep(x, f);
    GameOverStays(Crashed(f + 1), Quiet(n - 1));
  }

  /** Once the game is over, further ticks change nothing. */
  lemma GameOverStays(s: State, ticks: seq<TickInput>)
    requires s.gameOver
    ensures Run(s, ticks) == s
  {
  }

  lemma FirstSpawn()
    ensures Step(Initial(), TickInput(NoKey, true, 0)) == Approaching(WIDTH - 2, 1)
  {
    var o := Obstacle(WIDTH - 1, 0);
    AdvanceOne(o);
    assert [o][..0] == [];
    assert Advance([o]) == [Obstacle(WIDTH - 2, 0)];
    assert !Collides([Obstacle(WIDTH - 2, 0)], GROUND_LEVEL);
  }

  /** The obstacle spawned on the first tick hits the resting player on tick 47. */
  lemma SingleObstacleScenario(n: nat)
    ensures var r := Run(Initial(), [TickInput(NoKey, true, 0)] + Quiet(n));
      r == if n < WIDTH - 4 then Approaching(WIDTH - 2 - n, 1 + n) else Crashed(WIDTH - 3)
  {
    var first := TickInput(NoKey, true, 0);
    FirstSpawn();
    ApproachRun(WIDTH - 2, 1, n);
    ApproachEndClosed(WIDTH - 2, 1, n);
    var ticks := [first] + Quiet(n);
    assert ticks[0] == first && ticks[1..] == Quiet(n);
    assert Run(Initial(), ticks) == Run(Step(Initial(), first), Quiet(n));
  }
}
