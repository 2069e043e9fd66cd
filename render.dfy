/**
 * What draw_frame leaves in each cell of the screen buffer. Writes happen in
 * the order ground row, player, obstacle columns, status text, so a later
 * layer wins over an earlier one.
 */
module DinoRender {
  import opened DinoRules
  import opened DinoProperties
  import Decimal

  /** The top-row status line: the score and the debug message. */
  function StatusText(s: State): (text: string)
    ensures |text| > 7 && text[..7] == "Score: "
  {
    "Score: " + Decimal.Show(s.score) + " | " + MessageText(s.message)
  }

  /** Obstacle o paints cell (r, c): its column is on screen and r is within its bar. */
  predicate Covers(o: Obstacle, r: int, c: int) {
    0 <= o.x < WIDTH && c == o.x && GROUND_LEVEL <= r <= GROUND_LEVEL + o.height
  }

  /** Some obstacle of the list paints (r, c). */
  predicate Painted(obs: seq<Obstacle>, r: int, c: int)
    decreases |obs|
  {
    obs != [] && (Painted(obs[..|obs| - 1], r, c) || Covers(obs[|obs| - 1], r, c))
  }

  /** The cell after the ground row and the player are drawn over `before`. */
  function Backdrop(s: State, r: int, c: int, before: char): char {
    if r == s.motion.y && c == PLAYER_X then s.glyph
    else if r == GROUND_LEVEL then GROUND_CHAR
    else before
  }

  /** The cell (r, c) of a screen with `rows` rows after the frame is drawn over `before`. */
  function Cell(s: State, rows: int, r: int, c: int, before: char): char
    requires 0 <= r < rows && 0 <= c < WIDTH
  {
    var text := StatusText(s);
    if r == rows - 1 && c < |text| then text[c]
    else if Painted(s.obstacles, r, c) then OBSTACLE_CHAR
    else Backdrop(s, r, c, before)
  }

  lemma {:induction false} PaintedIff(obs: seq<Obstacle>, r: int, c: int)
    ensures Painted(obs, r, c) <==> exists k :: 0 <= k < |obs| && Covers(obs[k], r, c)
    decreases |obs|
  {
    if obs != [] {
      var init := obs[..|obs| - 1];
      PaintedIff(init, r, c);
      if Painted(init, r, c) {
        var k :| 0 <= k < |init| && Covers(init[k], r, c);
        assert obs[k] == init[k];
      }
      if exists k :: 0 <= k < |obs| && Covers(obs[k], r, c) {
        var k :| 0 <= k < |obs| && Covers(obs[k], r, c);
        if k < |init| {
          assert init[k] == obs[k];
        }
      }
    }
  }

  /** A cell no layer writes keeps what was there. */
  lemma Untouched(s: State, rows: int, r: int, c: int, before: char)
    requires 0 <= r < rows && 0 <= c < WIDTH
    requires r != GROUND_LEVEL && (r == rows - 1 ==> c >= |StatusText(s)|)
    requires !(r == s.motion.y && c == PLAYER_X)
    requires forall k :: 0 <= k < |s.obstacles| ==> !Covers(s.obstacles[k], r, c)
    ensures Cell(s, rows, r, c, before) == before
  {
    PaintedIff(s.obstacles, r, c);
  }

  /** The ground row shows '_' wherever no obstacle, player or status text covers it. */
  lemma GroundRow(s: State, rows: int, c: int, before: char)
    requires 0 <= GROUND_LEVEL < rows - 1 && 0 <= c < WIDTH
    requires !(s.motion.y == GROUND_LEVEL && c == PLAYER_X)
    requires forall k :: 0 <= k < |s.obstacles| ==> s.obstacles[k].x != c
    ensures Cell(s, rows, GROUND_LEVEL, c, before) == GROUND_CHAR
  {
    PaintedIff(s.obstacles, GROUND_LEVEL, c);
  }

  /** Every on-screen cell of an obstacle's bar shows the obstacle, over player and ground. */
  lemma ObstacleShown(s: State, rows: int, k: nat, r: int, before: char)
    requires k < |s.obstacles|
    requires 0 <= s.obstacles[k].x < WIDTH
    requires GROUND_LEVEL <= r <= GROUND_LEVEL + s.obstacles[k].height && 0 <= r < rows - 1
    ensures Cell(s, rows, r, s.obstacles[k].x, before) == OBSTACLE_CHAR
  {
    PaintedIff(s.obstacles, r, s.obstacles[k].x);
  }

  /**
   * On the tick that ends the game by a collision, the colliding obstacle's bar
   * covers the player's cell, so the frame shows OBSTACLE_CHAR there and never
   * the collision glyph.
   */
  lemma CollisionGlyphHidden(s: State, t: TickInput, before: char)
    requires Inv(s) && !s.gameOver && WellFormed(t) && !HandleKey(s, t.input).gameOver
    requires Step(s, t).gameOver
    ensures var r := Step(s, t);
      0 <= r.motion.y < SCREEN_HEIGHT &&
      Cell(r, SCREEN_HEIGHT, r.motion.y, PLAYER_X, before) == OBSTACLE_CHAR
  {
    var r := Step(s, t);
    CollisionEndsGame(s, t);
    StepKeepsInv(s, t);
    var k :| 0 <= k < |r.obstacles| && r.obstacles[k].x == PLAYER_X
             && r.motion.y <= GROUND_LEVEL + r.obstacles[k].height;
    assert Covers(r.obstacles[k], r.motion.y, PLAYER_X);
    PaintedIff(r.obstacles, r.motion.y, PLAYER_X);
  }

  /** An on-screen player below the status row shows its glyph unless an obstacle covers it. */
  lemma PlayerShown(s: State, rows: int, before: char)
    requires 0 <= s.motion.y < rows - 1
    requires forall k :: 0 <= k < |s.obstacles| ==> !Covers(s.obstacles[k], s.motion.y, PLAYER_X)
    ensures Cell(s, rows, s.motion.y, PLAYER_X, before) == s.glyph
  {
    PaintedIff(s.obstacles, s.motion.y, PLAYER_X);
  }

  /** The status row carries the status text, cut at the screen width. */
  lemma StatusRow(s: State, rows: int, c: int, before: char)
    requires 0 < rows && 0 <= c < WIDTH && c < |StatusText(s)|
    ensures Cell(s, rows, rows - 1, c, before) == StatusText(s)[c]
    ensures c < 7 ==> Cell(s, rows, rows - 1, c, before) == "Score: "[c]
  {
  }

  /**
   * A player above the top of the screen (the jump apex is row 16 of a
   * 9-row screen) is not drawn: its column holds only text, obstacles,
   * ground or blanks.
   */
  lemma PlayerAboveScreenHidden(s: State, rows: int, r: int, before: char)
    requires s.motion.y >= rows && 0 <= r < rows
    requires s.glyph == PLAYER_CHAR || s.glyph == COLLISION_CHAR
    requires before == EMPTY_CHAR
    ensures Cell(s, rows, r, PLAYER_X, before) != s.glyph
  {
    var text := StatusText(s);
    assert text[PLAYER_X] == 'o' by {
      assert text[..7] == "Score: ";
    }
  }

  /**
   * On the 9-row screen dino_game.py builds the player is not drawn
   * on ticks 2 to 9 of a jump: it is above the top row.
   */
  lemma ApexHiddenOnNineRowScreen(s: State, n: nat, r: int)
    requires 2 <= n <= 9
    requires s.glyph == PLAYER_CHAR || s.glyph == COLLISION_CHAR
    requires 0 <= r < SCREEN_HEIGHT
    ensures Cell(s.(motion := Fly(Launched, n)), SCREEN_HEIGHT, r, PLAYER_X, EMPTY_CHAR) != s.glyph
  {
    var air := s.(motion := Fly(Launched, n));
    JumpArc(n);
    assert n == 2 || n == 3 || n == 4 || n == 5 || n == 6 || n == 7 || n == 8 || n == 9;
    PlayerAboveScreenHidden(air, SCREEN_HEIGHT, r, EMPTY_CHAR);
  }

  /** With room for the apex, the player is drawn in every reachable state unless an obstacle covers it. */
  lemma PlayerAlwaysOnScreen(s: State, before: char)
    requires MotionInv(s.motion)
    requires forall k :: 0 <= k < |s.obstacles| ==> !Covers(s.obstacles[k], s.motion.y, PLAYER_X)
    ensures s.motion.y < SCREEN_HEIGHT_WITH_APEX - 1
    ensures Cell(s, SCREEN_HEIGHT_WITH_APEX, s.motion.y, PLAYER_X, before) == s.glyph
  {
    ApexBound(s.motion);
    PlayerShown(s, SCREEN_HEIGHT_WITH_APEX, before);
  }
}
