/**
  The front end's screen state machine: the key dispatch of the intro and game
  screens, and the main loop that feeds keys to it until the game ends.
  Drawing, terminal setup and the polling timeout are not modelled; a key
  press is an input value.
 */
module App {
  import opened Pieces
  import opened TetrisModel

  /** The three screens. */
  datatype GameState = Intro | Game | End

  /** The keys the dispatch distinguishes; `Other` stands for every other key. */
  datatype KeyCode = Char(c: char) | Esc | Up | Down | Left | Right | Other

  /** What one round of polling yields: a key press, or none (a timeout or a non-key event). */
  datatype Input = Key(code: KeyCode) | NoKey

  const Space: KeyCode := Char(' ')
  const Quit: KeyCode := Char('q')

  /** The intro screen: Space starts the game, `q` quits, anything else stays. */
  function IntroStateControl(key: KeyCode): (g: GameState)
    ensures g == Game <==> key == Space
    ensures g == End <==> key == Quit
    ensures g == Intro <==> key != Space && key != Quit
  {
    match key
    case Char(' ') => Game
    case Char('q') => End
    case _ => Intro
  }

  /** The keys the game screen maps to an operation. */
  predicate IsGameKey(key: KeyCode) {
    key == Up || key == Down || key == Left || key == Right || key == Space
  }

  /**
    The game screen: Esc returns to the intro with the game untouched; the
    arrow keys and Space call one control operation each; every other key,
    `q` included, does nothing. The screen never ends the program.
   */
  function GameStateControl(key: KeyCode, ts: TetrisState): (r: (GameState, TetrisState))
    requires key == Left ==> ts.current.x >= 1
    ensures key == Esc ==> r == (Intro, ts)
    ensures key != Esc ==> r.0 == Game
    ensures r.0 != End
    ensures key == Up ==> r.1 == RotateCw(ts)
    ensures key == Down ==> r.1 == RotateCcw(ts)
    ensures key == Left ==> r.1 == MoveLeft(ts)
    ensures key == Right ==> r.1 == MoveRight(ts)
    ensures key == Space ==> r.1 == Drop(ts)
    ensures !IsGameKey(key) ==> r.1 == ts
  {
    if key == Esc then (Intro, ts)
    else
      var ts' := match key
        case Up => RotateCw(ts)
        case Down => RotateCcw(ts)
        case Left => MoveLeft(ts)
        case Right => MoveRight(ts)
        case Char(' ') => Drop(ts)
        case _ => ts;
      (Game, ts')
  }

  /** The loop's state: the screen and the single game created before the loop. */
  datatype AppState = AppState(screen: GameState, tetris: TetrisState)

  /** The loop's state before the first key: the intro screen and a level-0 game. */
  function Start(rand: u8): (a: AppState)
    ensures a.screen == Intro
    ensures GetLevel(a.tetris) == 0
    ensures a.tetris.field.Valid()
    ensures forall y, x :: 0 <= y < FieldHeight && 0 <= x < FieldWidth ==> a.tetris.field.data[y][x] == Black
    ensures ValidCatalogEntry(a.tetris.current.piece)
    ensures a.tetris.current.x == SpawnX && a.tetris.current.y == SpawnY && a.tetris.current.rotation == North
  {
    AppState(Intro, CreateTetrisGame(0, rand))
  }

  /** A step is defined unless it would move the piece left of column 0. */
  predicate CanStep(a: AppState, input: Input) {
    !(a.screen == Game && input == Key(Left) && a.tetris.current.x == 0)
  }

  /** One round of the loop: dispatch the input on the current screen. */
  function Step(a: AppState, input: Input): (r: AppState)
    requires CanStep(a, input)
    ensures input == NoKey || a.screen == End ==> r == a
    ensures a.screen == Intro ==> r.tetris == a.tetris
    ensures r.screen == End ==> a.screen == End || (a.screen == Intro && input == Key(Quit))
  {
    match input
    case NoKey => a
    case Key(k) =>
      match a.screen
      case Intro => AppState(IntroStateControl(k), a.tetris)
      case Game => var (g, ts) := GameStateControl(k, a.tetris); AppState(g, ts)
      case End => a
  }

  /** Whether the loop can run over `inputs` from `a` without a step that is not defined. */
  predicate RunSafe(a: AppState, inputs: seq<Input>)
    decreases |inputs|
  {
    |inputs| == 0
    || (CanStep(a, inputs[0]) && (Step(a, inputs[0]).screen == End || RunSafe(Step(a, inputs[0]), inputs[1..])))
  }

  /**
    The main loop over a finite stretch of inputs: step, then leave as soon as
    the screen is `End`. Returns the final state and how many inputs were used.
   */
  function Run(a: AppState, inputs: seq<Input>): (r: (AppState, nat))
    requires RunSafe(a, inputs)
    ensures r.1 <= |inputs|
    ensures r.1 < |inputs| ==> r.0.screen == End
    ensures r.0.screen == End && a.screen != End ==> r.1 >= 1
    decreases |inputs|
  {
    if |inputs| == 0 then (a, 0)
    else
      var a' := Step(a, inputs[0]);
      if a'.screen == End then (a', 1)
      else
        var (b, n) := Run(a', inputs[1..]);
        (b, n + 1)
  }

  /**
    Once the loop has reached `End`, later inputs are never read: the run over
    a longer stretch stops at the same point with the same state.
   */
  lemma {:induction false} EndStopsTheLoop(a: AppState, inputs: seq<Input>, more: seq<Input>)
    requires a.screen != End
    requires RunSafe(a, inputs) && Run(a, inputs).0.screen == End
    ensures RunSafe(a, inputs + more)
    ensures Run(a, inputs + more) == Run(a, inputs)
    decreases |inputs|
  {
    assert (inputs + more)[0] == inputs[0];
    var a' := Step(a, inputs[0]);
    if a'.screen != End {
      assert (inputs + more)[1..] == inputs[1..] + more;
      EndStopsTheLoop(a', inputs[1..], more);
    }
  }

  /** No screen's key handling touches the level, the settled field or the falling piece's shape. */
  lemma StepKeepsPieceFieldLevel(a: AppState, input: Input)
    requires CanStep(a, input)
    ensures Step(a, input).tetris.level == a.tetris.level
    ensures Step(a, input).tetris.field == a.tetris.field
    ensures Step(a, input).tetris.current.piece == a.tetris.current.piece
  {
  }

  /**
    Over the whole loop, the game keeps its level, its settled field and its
    falling piece's shape: only position and orientation ever change.
   */
  lemma {:induction false} RunKeepsPieceFieldLevel(a: AppState, inputs: seq<Input>)
    requires RunSafe(a, inputs)
    ensures Run(a, inputs).0.tetris.level == a.tetris.level
    ensures Run(a, inputs).0.tetris.field == a.tetris.field
    ensures Run(a, inputs).0.tetris.current.piece == a.tetris.current.piece
    decreases |inputs|
  {
    if |inputs| > 0 {
      StepKeepsPieceFieldLevel(a, inputs[0]);
      var a' := Step(a, inputs[0]);
      if a'.screen != End {
        RunKeepsPieceFieldLevel(a', inputs[1..]);
      }
    }
  }

  /**
    A run from the start state ends with a level-0 game on an all-`Black`
    field, still holding the catalog piece it spawned.
   */
  lemma StartedRunKeepsNewGame(rand: u8, inputs: seq<Input>)
    requires RunSafe(Start(rand), inputs)
    ensures var ts := Run(Start(rand), inputs).0.tetris;
            && GetLevel(ts) == 0
            && ts.field.Valid()
            && (forall y, x :: 0 <= y < FieldHeight && 0 <= x < FieldWidth ==> ts.field.data[y][x] == Black)
            && ValidCatalogEntry(ts.current.piece)
  {
    RunKeepsPieceFieldLevel(Start(rand), inputs);
  }

  /** `q` on the intro screen ends the loop at once, with the game as it was. */
  lemma QuitFromIntroExits(ts: TetrisState, rest: seq<Input>)
    ensures RunSafe(AppState(Intro, ts), [Key(Quit)] + rest)
    ensures Run(AppState(Intro, ts), [Key(Quit)] + rest) == (AppState(End, ts), 1)
  {
    assert ([Key(Quit)] + rest)[0] == Key(Quit);
  }

  /**
    The game outlives a visit to the intro screen: Esc and then Space come back
    to the same piece, position and orientation.
   */
  lemma EscThenSpaceResumes(ts: TetrisState)
    ensures RunSafe(AppState(Game, ts), [Key(Esc), Key(Space)])
    ensures Run(AppState(Game, ts), [Key(Esc), Key(Space)]) == (AppState(Game, ts), 2)
  {
    var inputs := [Key(Esc), Key(Space)];
    assert inputs[1..] == [Key(Space)];
    var intro := Step(AppState(Game, ts), Key(Esc));
    assert intro == AppState(Intro, ts);
    assert Step(intro, Key(Space)) == AppState(Game, ts);
    assert Run(intro, [Key(Space)]) == (AppState(Game, ts), 1) by {
      assert [Key(Space)][1..] == [];
    }
  }
}
