/**
 * The rules of one game tick of the terminal runner, as functions on values:
 * key handling, the Euler physics step with its ground clamp, obstacle
 * spawning, motion, scoring and removal, and the collision test.
 * The class in game.dfy performs the same tick in place and is proved
 * to agree with Step below.
 */
module DinoRules {

  // Game constants (all integers).
  const WIDTH: int := 50
  const GROUND_LEVEL: int := 1
  const PLAYER_CHAR: char := 'R'
  const COLLISION_CHAR: char := '!'
  const OBSTACLE_CHAR: char := 'X'
  const EMPTY_CHAR: char := ' '
  const GROUND_CHAR: char := '_'
  const GRAVITY: int := 1
  const JUMP_POWER: int := 5
  const OBSTACLE_SPEED: int := 1
  const MAX_OBSTACLES: int := 5
  const MAX_OBSTACLE_HEIGHT: int := 2
  /** The fixed column the player occupies. */
  const PLAYER_X: int := 2
  /** An obstacle scores when its updated column equals this one. */
  const PASS_X: int := 1
  /** The screen height dino_game.py builds: too low for the jump apex. */
  const SCREEN_HEIGHT: int := GROUND_LEVEL + JUMP_POWER + 3
  /** Room for the ground, the highest point of a jump and the status row. */
  const SCREEN_HEIGHT_WITH_APEX: int := GROUND_LEVEL + JUMP_POWER * (JUMP_POWER + 1) / 2 + 2

  const JUMP_KEY: string := " "
  /** Ctrl+C as read in raw terminal mode. */
  const QUIT_KEY: string := [3 as char]
  const COLLISION_MESSAGE: string := "Collision!"

  datatype Obstacle = Obstacle(x: int, height: int)

  /** What the keyboard delivered this tick: nothing pending, or the decoded key text. */
  datatype Input = NoKey | Pressed(key: string)

  /** The random draws of a tick, taken as inputs. */
  datatype TickInput = TickInput(input: Input, spawn: bool, spawnHeight: int)

  datatype Motion = Motion(y: int, vy: int, jumping: bool)

  /**
   * The debug message, recorded by how the tick builds it: cleared, set to
   * the pressed key (with the jump confirmation when a jump starts),
   * extended by the landing report, or replaced by the collision report.
   * MessageText gives the characters shown in the status line.
   */
  datatype Note =
    | Blank
    | KeyNote(key: string, jumped: bool)
    | WithLanding(before: Note)
    | CollisionNote

  datatype State = State(
    motion: Motion,
    obstacles: seq<Obstacle>,
    score: nat,
    gameOver: bool,
    frameCount: nat,
    glyph: char,
    message: Note)

  const Rest: Motion := Motion(GROUND_LEVEL, 0, false)
  /** The motion right after a jump is accepted from rest. */
  const Launched: Motion := Motion(GROUND_LEVEL, JUMP_POWER, true)

  function Initial(): State {
    State(Rest, [], 0, false, 0, PLAYER_CHAR, Blank)
  }

  /** The random height draw ranges over 0..2. */
  predicate WellFormed(t: TickInput) {
    0 <= t.spawnHeight <= MAX_OBSTACLE_HEIGHT
  }

  // ---------------------------------------------------------------- input

  /** Stand-in for Python's repr() of the key text. */
  function KeyRepr(key: string): string {
    "'" + key + "'"
  }

  function KeyMessage(key: string): string {
    "Key pressed: " + KeyRepr(key)
  }

  /** The text of a debug message; only the cleared message is empty. */
  function MessageText(n: Note): (text: string)
    ensures text == [] <==> n == Blank
  {
    match n
    case Blank => ""
    case KeyNote(key, jumped) => KeyMessage(key) + (if jumped then " -> JUMP!" else "")
    case WithLanding(before) => MessageText(before) + " Landed."
    case CollisionNote => COLLISION_MESSAGE
  }

  /**
   * Key handling: the debug message is cleared, then a space from the ground
   * starts a jump, Ctrl+C ends the game, anything else is only reported.
   */
  function HandleKey(s: State, input: Input): State {
    match input
    case NoKey => s.(message := Blank)
    case Pressed(key) =>
      if key == JUMP_KEY && !s.motion.jumping then
        s.(motion := s.motion.(vy := JUMP_POWER, jumping := true),
           message := KeyNote(key, true))
      else if key == QUIT_KEY then
        s.(gameOver := true, message := KeyNote(key, false))
      else
        s.(message := KeyNote(key, false))
  }

  // -------------------------------------------------------------- physics

  /** The physics step clamps this motion to the ground. */
  predicate Clamps(m: Motion) {
    m.y + m.vy <= GROUND_LEVEL
  }

  /** The clamp fires while a jump is in progress: the player lands. */
  predicate Lands(m: Motion) {
    m.jumping && Clamps(m)
  }

  /** One explicit Euler step (position first, then gravity) and the ground clamp. */
  function Physics(m: Motion): (r: Motion)
    ensures r.y >= GROUND_LEVEL
    ensures r.y == GROUND_LEVEL <==> r == Rest
    ensures Clamps(m) <==> r == Rest
  {
    var y := m.y + m.vy;
    var vy := m.vy - GRAVITY;
    if y <= GROUND_LEVEL then Rest else Motion(y, vy, m.jumping)
  }

  // ------------------------------------------------------------ obstacles

  /** A new obstacle is added at the right edge only when fewer than the cap are active. */
  function Spawn(obs: seq<Obstacle>, spawn: bool, height: int): seq<Obstacle> {
    if spawn && |obs| < MAX_OBSTACLES then obs + [Obstacle(WIDTH - 1, height)] else obs
  }

  function Moved(o: Obstacle): Obstacle {
    Obstacle(o.x - OBSTACLE_SPEED, o.height)
  }

  /** Every obstacle moves left; those that end up left of column 0 are dropped. */
  function Advance(obs: seq<Obstacle>): (r: seq<Obstacle>)
    decreases |obs|
  {
    if obs == [] then []
    else
      var last := Moved(obs[|obs| - 1]);
      Advance(obs[..|obs| - 1]) + (if last.x >= 0 then [last] else [])
  }

  /** Some obstacle's updated column equals the pass column. */
  predicate Scores(obs: seq<Obstacle>)
    decreases |obs|
  {
    obs != [] && (Scores(obs[..|obs| - 1]) || Moved(obs[|obs| - 1]).x == PASS_X)
  }

  /** How many obstacles reach the pass column this tick. */
  function Passers(obs: seq<Obstacle>): nat
    decreases |obs|
  {
    if obs == [] then 0
    else Passers(obs[..|obs| - 1]) + (if Moved(obs[|obs| - 1]).x == PASS_X then 1 else 0)
  }

  // ------------------------------------------------------------ collision

  predicate Hits(o: Obstacle, y: int) {
    o.x == PLAYER_X && y <= GROUND_LEVEL + o.height
  }

  predicate Collides(obs: seq<Obstacle>, y: int) {
    exists k :: 0 <= k < |obs| && Hits(obs[k], y)
  }

  // ----------------------------------------------------------------- tick

  /** One pass of the game loop body. */
  function Step(s: State, t: TickInput): State
    requires !s.gameOver
  {
    var k := HandleKey(s, t.input);
    if k.gameOver then k
    else
      var m := Physics(k.motion);
      var message := if Lands(k.motion) then WithLanding(k.message) else k.message;
      var spawned := Spawn(k.obstacles, t.spawn, t.spawnHeight);
      var obs := Advance(spawned);
      var score := k.score + (if Scores(spawned) then 1 else 0);
      if Collides(obs, m.y) then
        State(m, obs, score, true, k.frameCount + 1, COLLISION_CHAR, CollisionNote)
      else
        State(m, obs, score, false, k.frameCount + 1, k.glyph, message)
  }

  /** The game loop: ticks are taken in order until the game is over. */
  function Run(s: State, ticks: seq<TickInput>): State
    decreases |ticks|
  {
    if ticks == [] || s.gameOver then s else Run(Step(s, ticks[0]), ticks[1..])
  }
}
