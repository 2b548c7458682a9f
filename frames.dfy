/** The frame loop of the program: each iteration polls the keyboard once,
    reacts to the key (space pauses or resumes, `q`, line feed or carriage
    return quit with exit code 0, anything else is ignored) and advances the
    game by one generation unless it is paused. Clearing, drawing, flushing
    and sleeping do not change the game and are not part of this model. */
module Frames {
  import opened Life
  import opened Engine

  datatype Option<T> = None | Some(value: T)

  /** A byte read from the console. */
  newtype u8 = x: int | 0 <= x < 0x100

  const SPACE: u8 := 0x20
  const QUIT: u8 := 0x71
  const LF: u8 := 0x0a
  const CR: u8 := 0x0d

  /** The outcome of the key handling of one iteration: go on with the given
      pause flag, or leave the loop with an exit code. */
  datatype Step = Go(stop: bool) | Exit(code: int)

  /** The key dispatch of one iteration; `None` means no key was pressed. */
  function Dispatch(stop: bool, key: Option<u8>): (r: Step)
    ensures key == Some(SPACE) ==> r == Go(!stop)
    ensures key == Some(QUIT) || key == Some(LF) || key == Some(CR) ==> r == Exit(0)
    ensures key.None? || key.value !in {SPACE, QUIT, LF, CR} ==> r == Go(stop)
  {
    match key
    case None => Go(stop)
    case Some(c) =>
      if c == SPACE then Go(!stop)
      else if c == QUIT || c == LF || c == CR then Exit(0)
      else Go(stop)
  }

  /** Where the loop stands after a finite sequence of polled keys: the
      committed board, the pause flag, and the exit code once it has quit. */
  datatype Frame = Frame(board: Grid, stop: bool, exit: Option<int>)

  /** The loop run over `keys` from `board` and `stop`: each iteration first
      handles its key, then advances the board when it is not paused. Once a
      quit key is read nothing further happens. */
  function Run(board: Grid, stop: bool, keys: seq<Option<u8>>): (f: Frame)
    requires Rect(board)
    ensures Rect(f.board) && |f.board| == |board| && Width(f.board) == Width(board)
    ensures f.exit.None? || f.exit == Some(0)
    decreases |keys|
  {
    if keys == [] then Frame(board, stop, None)
    else match Dispatch(stop, keys[0])
      case Exit(code) => Frame(board, stop, Some(code))
      case Go(s) => Run(if s then board else NextGrid(board), s, keys[1..])
  }

  /** The iterations of the program's `loop` over the keys polled in them, on a
      game built before the loop. It returns the exit code, or `None` if the
      keys ran out before a quit key, and leaves the game's board where `Run`
      says. */
  method MainLoop(game: GameOfLife, keys: seq<Option<u8>>) returns (exit: Option<int>)
    requires game.Valid()
    modifies game.board, game.temp
    ensures game.Valid()
    ensures exit == Run(old(game.Board()), false, keys).exit
    ensures game.Board() == Run(old(game.Board()), false, keys).board
  {
    ghost var spec := Run(game.Board(), false, keys);
    var stop := false;
    var k := 0;
    while k < |keys|
      invariant 0 <= k <= |keys|
      invariant game.Valid() && game.board == old(game.board) && game.temp == old(game.temp)
      invariant Run(game.Board(), stop, keys[k..]) == spec
    {
      assert keys[k..][0] == keys[k] && keys[k..][1..] == keys[k + 1..];
      var key := keys[k];
      if key.Some? {
        var c := key.value;
        if c == SPACE {
          stop := !stop;
        } else if c == QUIT || c == LF || c == CR {
          return Some(0);
        }
      }
      if !stop {
        game.Update();
      }
      k := k + 1;
    }
    return None;
  }

  const DEFAULT_WIDTH: nat := 200
  const DEFAULT_HEIGHT: nat := 150
  const DEFAULT_ALIVE_RATE: u32 := 60

  /** A command-line setting: the parsed value when there is one, else the default. */
  function Setting<T>(parsed: Option<T>, default: T): (v: T)
    ensures parsed.Some? ==> v == parsed.value
    ensures parsed.None? ==> v == default
  {
    if parsed.Some? then parsed.value else default
  }

  /** The whole program on already parsed arguments (`None` where an argument
      is missing or does not parse), the random draws of the seeding and the
      keys polled in each iteration. Its requires is the rate check of the
      game's construction. The exit code is that of the loop run on the seeded
      board with the game not paused. */
  method Launch(width: Option<nat>, height: Option<nat>, rate: Option<u32>,
                draws: seq<u32>, keys: seq<Option<u8>>) returns (exit: Option<int>)
    requires Setting(rate, DEFAULT_ALIVE_RATE) <= 100
    requires |draws| >= Setting(height, DEFAULT_HEIGHT) * Setting(width, DEFAULT_WIDTH)
    ensures exit == Run(SeedGrid(draws, Setting(height, DEFAULT_HEIGHT), Setting(width, DEFAULT_WIDTH),
                             Setting(rate, DEFAULT_ALIVE_RATE)), false, keys).exit
    ensures exit.None? || exit == Some(0)
  {
    var w := Setting(width, DEFAULT_WIDTH);
    var h := Setting(height, DEFAULT_HEIGHT);
    var r := Setting(rate, DEFAULT_ALIVE_RATE);
    var game := new GameOfLife(w, h, r, draws);
    exit := MainLoop(game, keys);
  }

  /** Two presses of space in a row give back the pause flag they started
      with, and exactly one of the two iterations advances the board: the one
      that is not paused. */
  lemma {:induction false} DoubleSpace(board: Grid, stop: bool, rest: seq<Option<u8>>)
    requires Rect(board)
    ensures Run(board, stop, [Some(SPACE), Some(SPACE)] + rest) == Run(NextGrid(board), stop, rest)
  {
  }

  /** While the loop is paused, keys that are neither space nor a quit key
      leave the board and the flag alone. */
  lemma {:induction false} PausedHolds(board: Grid, keys: seq<Option<u8>>)
    requires Rect(board)
    requires forall k :: 0 <= k < |keys| ==> keys[k].None? || keys[k].value !in {SPACE, QUIT, LF, CR}
    ensures Run(board, true, keys) == Frame(board, true, None)
  {
    if keys != [] {
      PausedHolds(board, keys[1..]);
    }
  }

  /** While the loop runs, iterations without a key each advance the board by
      one generation. */
  lemma {:induction false} RunningAdvances(board: Grid, n: nat)
    requires Rect(board)
    ensures Run(board, false, seq(n, k => None)) == Frame(Generations(board, n), false, None)
    decreases n
  {
    if n > 0 {
      var keys: seq<Option<u8>> := seq(n, k => None);
      assert keys[0] == None && keys[1..] == seq(n - 1, k => None);
      assert Run(board, false, keys) == Run(NextGrid(board), false, keys[1..]);
      RunningAdvances(NextGrid(board), n - 1);
      GenerationsShift(board, n - 1);
    }
  }

  /** One generation followed by n is n followed by one. */
  lemma {:induction false} GenerationsShift(board: Grid, n: nat)
    requires Rect(board)
    ensures Generations(NextGrid(board), n) == Generations(board, n + 1)
    decreases n
  {
    if n > 0 {
      GenerationsShift(board, n - 1);
    }
  }

  /** A quit key ends the loop at once with exit code 0 and the board as it was. */
  lemma QuitStops(board: Grid, stop: bool, c: u8, rest: seq<Option<u8>>)
    requires Rect(board) && c in {QUIT, LF, CR}
    ensures Run(board, stop, [Some(c)] + rest) == Frame(board, stop, Some(0))
  {
  }
}
