/**
 * The game session with the module-level state of dino_game.py as fields.
 * Tick performs one pass of the game loop body in place, DrawFrame fills the
 * screen buffer cell by cell, Play is the loop itself.
 */
module DinoGame {
  import opened DinoRules
  import opened DinoProperties
  import opened DinoRender

  class Game {
    var playerY: int
    var velocityY: int
    var isJumping: bool
    var obstacles: seq<Obstacle>
    var score: nat
    var gameOver: bool
    var frameCount: nat
    /** The player character, switched to '!' on a collision. */
    var playerGlyph: char
    var debugMessage: Note

    /** The session as a value. */
    function Snapshot(): State
      reads this
    {
      State(Motion(playerY, velocityY, isJumping), obstacles, score, gameOver,
            frameCount, playerGlyph, debugMessage)
    }

    ghost predicate Valid()
      reads this
    {
      Inv(Snapshot())
    }

    constructor ()
      ensures Snapshot() == Initial() && Valid()
    {
      playerY := GROUND_LEVEL;
      velocityY := 0;
      isJumping := false;
      obstacles := [];
      score := 0;
      gameOver := false;
      frameCount := 0;
      playerGlyph := PLAYER_CHAR;
      debugMessage := Blank;
    }

    /** One pass of the game loop body. */
    method Tick(t: TickInput)
      requires Valid() && !gameOver && WellFormed(t)
      modifies this
      ensures Valid()
      ensures Snapshot() == Step(old(Snapshot()), t)
    {
      ghost var s := Snapshot();
      var quit := HandleInput(t.input);
      ghost var k := Snapshot();
      if !quit {
        frameCount := frameCount + 1;
        ApplyPhysics();
        UpdateObstacles(t.spawn, t.spawnHeight);
        ghost var moved := Snapshot();
        DetectCollision();
        TickAgrees(s, t, k, moved, Snapshot());
      }
      assert Snapshot() == Step(s, t);
      StepKeepsInv(s, t);
    }

    /** Reads the key of this tick: a jump from the ground, Ctrl+C, or only a report. */
    method HandleInput(input: Input) returns (quit: bool)
      requires !gameOver
      modifies this
      ensures Snapshot() == HandleKey(old(Snapshot()), input)
      ensures quit == gameOver
    {
      quit := false;
      debugMessage := Blank;
      match input {
        case NoKey =>
        case Pressed(key) =>
          debugMessage := KeyNote(key, false);
          if key == JUMP_KEY && !isJumping {
            isJumping := true;
            velocityY := JUMP_POWER;
            debugMessage := debugMessage.(jumped := true);
          } else if key == QUIT_KEY {
            gameOver := true;
            quit := true;
          }
      }
    }

    /** The Euler step and the ground clamp; a landing is reported in the message. */
    method ApplyPhysics()
      modifies this`playerY, this`velocityY, this`isJumping, this`debugMessage
      ensures Motion(playerY, velocityY, isJumping) == Physics(old(Motion(playerY, velocityY, isJumping)))
      ensures debugMessage == if old(Lands(Motion(playerY, velocityY, isJumping)))
                              then WithLanding(old(debugMessage)) else old(debugMessage)
    {
      playerY := playerY + velocityY;
      velocityY := velocityY - GRAVITY;
      if playerY <= GROUND_LEVEL {
        playerY := GROUND_LEVEL;
        velocityY := 0;
        if isJumping {
          isJumping := false;
          debugMessage := WithLanding(debugMessage);
        }
      }
    }

    /**
     * Spawns, moves, scores and removes obstacles: the list is updated in
     * place and the survivors are collected into a new list.
     */
    method UpdateObstacles(spawn: bool, spawnHeight: int)
      modifies this`obstacles, this`score
      ensures obstacles == Advance(Spawn(old(obstacles), spawn, spawnHeight))
      ensures score == old(score) + if Scores(Spawn(old(obstacles), spawn, spawnHeight)) then 1 else 0
    {
      if spawn && |obstacles| < MAX_OBSTACLES {
        obstacles := obstacles + [Obstacle(WIDTH - 1, spawnHeight)];
      }
      ghost var spawned := obstacles;
      var survivors: seq<Obstacle> := [];
      var scored := false;
      var i := 0;
      while i < |obstacles|
        invariant 0 <= i <= |obstacles| == |spawned|
        invariant forall j :: 0 <= j < i ==> obstacles[j] == Moved(spawned[j])
        invariant forall j :: i <= j < |spawned| ==> obstacles[j] == spawned[j]
        invariant survivors == Advance(spawned[..i])
        invariant scored == Scores(spawned[..i])
        invariant score == old(score) + if scored then 1 else 0
      {
        obstacles := obstacles[i := Obstacle(obstacles[i].x - OBSTACLE_SPEED, obstacles[i].height)];
        if obstacles[i].x == PASS_X && !scored {
          score := score + 1;
          scored := true;
        }
        if obstacles[i].x >= 0 {
          survivors := survivors + [obstacles[i]];
        }
        assert spawned[..i + 1][..i] == spawned[..i];
        i := i + 1;
      }
      assert spawned[..i] == spawned;
      obstacles := survivors;
    }

    /** Ends the game on the first obstacle that overlaps the player. */
    method DetectCollision()
      requires !gameOver
      modifies this`gameOver, this`playerGlyph, this`debugMessage
      ensures gameOver == Collides(obstacles, playerY)
      ensures gameOver ==> playerGlyph == COLLISION_CHAR && debugMessage == CollisionNote
      ensures !gameOver ==> playerGlyph == old(playerGlyph) && debugMessage == old(debugMessage)
    {
      var n := 0;
      while n < |obstacles|
        invariant 0 <= n <= |obstacles|
        invariant forall j :: 0 <= j < n ==> !Hits(obstacles[j], playerY)
        invariant !gameOver && playerGlyph == old(playerGlyph) && debugMessage == old(debugMessage)
      {
        if obstacles[n].x == PLAYER_X && playerY <= GROUND_LEVEL + obstacles[n].height {
          gameOver := true;
          playerGlyph := COLLISION_CHAR;
          debugMessage := CollisionNote;
          break;
        }
        n := n + 1;
      }
    }

    /** Draws the frame into a screen buffer WIDTH columns wide. */
    method DrawFrame(screen: array2<char>)
      requires GROUND_LEVEL < screen.Length0 && screen.Length1 == WIDTH
      modifies screen
      ensures forall r, c :: 0 <= r < screen.Length0 && 0 <= c < screen.Length1 ==>
        screen[r, c] == Cell(Snapshot(), screen.Length0, r, c, old(screen[r, c]))
    {
      var rows := screen.Length0;
      ghost var s := Snapshot();

      // Ground row.
      for x := 0 to WIDTH
        invariant forall r, c :: 0 <= r < rows && 0 <= c < WIDTH ==>
          screen[r, c] == if r == GROUND_LEVEL && c < x then GROUND_CHAR else old(screen[r, c])
      {
        screen[GROUND_LEVEL, x] := GROUND_CHAR;
      }

      // Player.
      if 0 <= playerY < rows {
        screen[playerY, PLAYER_X] := playerGlyph;
      }
      assert forall r, c :: 0 <= r < rows && 0 <= c < WIDTH ==>
        screen[r, c] == Backdrop(s, r, c, old(screen[r, c]));

      // Obstacle columns.
      for k := 0 to |obstacles|
        invariant forall r, c :: 0 <= r < rows && 0 <= c < WIDTH ==>
          screen[r, c] == if Painted(obstacles[..k], r, c) then OBSTACLE_CHAR
                          else Backdrop(s, r, c, old(screen[r, c]))
      {
        var o := obstacles[k];
        assert obstacles[..k + 1][..k] == obstacles[..k];
        if 0 <= o.x < WIDTH {
          var y := GROUND_LEVEL;
          while y < GROUND_LEVEL + o.height + 1
            invariant GROUND_LEVEL <= y
            invariant y <= GROUND_LEVEL + o.height + 1 || y == GROUND_LEVEL
            invariant forall r, c :: 0 <= r < rows && 0 <= c < WIDTH ==>
              screen[r, c] == if Painted(obstacles[..k], r, c) || (c == o.x && GROUND_LEVEL <= r < y)
                              then OBSTACLE_CHAR
                              else Backdrop(s, r, c, old(screen[r, c]))
          {
            if 0 <= y < rows {
              screen[y, o.x] := OBSTACLE_CHAR;
            }
            y := y + 1;
          }
        }
      }
      assert obstacles[..|obstacles|] == obstacles;

      // Status text in the top row.
      var text := StatusText(Snapshot());
      for i := 0 to |text|
        invariant forall r, c :: 0 <= r < rows && 0 <= c < WIDTH ==>
          screen[r, c] == if r == rows - 1 && c < i then text[c]
                          else if Painted(obstacles, r, c) then OBSTACLE_CHAR
                          else Backdrop(s, r, c, old(screen[r, c]))
      {
        if i < WIDTH {
          screen[rows - 1, i] := text[i];
        }
      }
    }

    /** The game loop: ticks are played in order while the game is not over. */
    method Play(ticks: seq<TickInput>) returns (played: nat)
      requires Valid()
      requires forall j :: 0 <= j < |ticks| ==> WellFormed(ticks[j])
      modifies this
      ensures Valid() && played <= |ticks|
      ensures played < |ticks| ==> gameOver
      ensures Snapshot() == Run(old(Snapshot()), ticks)
    {
      played := 0;
      while played < |ticks| && !gameOver
        invariant Valid() && played <= |ticks|
        invariant Run(old(Snapshot()), ticks) == Run(Snapshot(), ticks[played..])
      {
        assert ticks[played..][0] == ticks[played];
        assert ticks[played..][1..] == ticks[played + 1..];
        Tick(ticks[played]);
        played := played + 1;
      }
    }
  }

  /**
   * The tick seen as its stages: key handling gives k, frame count, physics
   * and the obstacle update give moved, the collision test gives r.
   */
  lemma TickAgrees(s: State, t: TickInput, k: State, moved: State, r: State)
    requires !s.gameOver && k == HandleKey(s, t.input) && !k.gameOver
    requires moved.motion == Physics(k.motion)
    requires moved.message == if Lands(k.motion) then WithLanding(k.message) else k.message
    requires moved.obstacles == Advance(Spawn(k.obstacles, t.spawn, t.spawnHeight))
    requires moved.score == k.score + if Scores(Spawn(k.obstacles, t.spawn, t.spawnHeight)) then 1 else 0
    requires moved.frameCount == k.frameCount + 1 && moved.glyph == k.glyph && !moved.gameOver
    requires r.motion == moved.motion && r.obstacles == moved.obstacles
    requires r.score == moved.score && r.frameCount == moved.frameCount
    requires r.gameOver == Collides(moved.obstacles, moved.motion.y)
    requires r.gameOver ==> r.glyph == COLLISION_CHAR && r.message == CollisionNote
    requires !r.gameOver ==> r.glyph == moved.glyph && r.message == moved.message
    ensures r == Step(s, t)
  {
  }

  /**
   * A fresh, all-blank screen buffer WIDTH columns wide, tall enough that
   * the jump apex lies below the status row.
   */
  method NewScreen() returns (screen: array2<char>)
    ensures fresh(screen)
    ensures screen.Length0 == SCREEN_HEIGHT_WITH_APEX && screen.Length1 == WIDTH
    ensures GROUND_LEVEL + JUMP_POWER * (JUMP_POWER + 1) / 2 < screen.Length0 - 1
    ensures forall r, c :: 0 <= r < screen.Length0 && 0 <= c < WIDTH ==> screen[r, c] == EMPTY_CHAR
  {
    screen := new char[SCREEN_HEIGHT_WITH_APEX, WIDTH]((r, c) => EMPTY_CHAR);
  }
}
