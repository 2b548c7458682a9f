/** The simulation engine: a game of life that owns two same-shaped buffers,
    the committed generation `board` and the scratch buffer `temp`, and
    advances `board` one generation in place. */
module Engine {
  import opened Life

  /** The contents of a 2-D buffer as a board value: row r holds a[r, 0 .. Length1). */
  ghost function Snapshot(a: array2<State>): (g: Grid)
    reads a
    ensures |g| == a.Length0 && Rect(g) && (a.Length0 > 0 ==> Width(g) == a.Length1)
    ensures forall r, c :: 0 <= r < a.Length0 && 0 <= c < a.Length1 ==> g[r][c] == a[r, c]
  {
    seq(a.Length0, r requires 0 <= r < a.Length0 reads a =>
      seq(a.Length1, c requires 0 <= c < a.Length1 reads a => a[r, c]))
  }

  class GameOfLife {
    var board: array2<State>
    var temp: array2<State>

    /** Two distinct buffers of the same shape (height rows of width cells). */
    ghost predicate Valid()
      reads this
    {
      board != temp && board.Length0 == temp.Length0 && board.Length1 == temp.Length1
    }

    /** The committed generation. */
    ghost function Board(): Grid
      reads this, board
    {
      Snapshot(board)
    }

    /** A game of `height` rows of `width` cells. The rate must be at most 100;
        cell (i, j) is alive iff the (i * width + j)-th draw modulo 100 is at
        most the rate, and the scratch buffer starts all dead. */
    constructor (width: nat, height: nat, rate: u32, draws: seq<u32>)
      requires rate <= 100
      requires |draws| >= height * width
      ensures Valid() && fresh(board) && fresh(temp)
      ensures board.Length0 == height && board.Length1 == width
      ensures Board() == SeedGrid(draws, height, width, rate)
      ensures forall i, j :: 0 <= i < height && 0 <= j < width ==> temp[i, j] == Died
    {
      var b := new State[height, width]((i, j) => Died);
      var i := 0;
      while i < height
        invariant 0 <= i <= height
        invariant forall r, c :: 0 <= r < i && 0 <= c < width ==>
                    b[r, c] == Seed(draws[DrawIndex(r, c, height, width)], rate)
      {
        var j := 0;
        while j < width
          invariant 0 <= j <= width
          invariant forall r, c :: 0 <= r < i && 0 <= c < width ==>
                      b[r, c] == Seed(draws[DrawIndex(r, c, height, width)], rate)
          invariant forall c :: 0 <= c < j ==>
                      b[i, c] == Seed(draws[DrawIndex(i, c, height, width)], rate)
        {
          if draws[DrawIndex(i, j, height, width)] % 100 <= rate {
            b[i, j] := Alive;
          } else {
            b[i, j] := Died;
          }
          j := j + 1;
        }
        i := i + 1;
      }
      board := b;
      temp := new State[height, width]((i, j) => Died);
      new;
      SnapshotIsSeed(b, draws, rate);
    }

    /** The number of live neighbours of (i, j) in `board`, whose contents are
        g, counted over the clamped row and column ranges as the program's
        loops do: the reference Moore count. */
    method CountLive(ghost g: Grid, i: nat, j: nat) returns (live: nat)
      requires Holds(board, g) && i < board.Length0 && j < board.Length1
      ensures live == MooreCount(g, i, j)
    {
      var h, w := board.Length0, board.Length1;
      var startRow := if i > 0 then i - 1 else 0;
      var endRow := if i < h - 1 then i + 1 else h - 1;
      var startCol := if j > 0 then j - 1 else 0;
      var endCol := if j < w - 1 then j + 1 else w - 1;
      live := CountBlock(g, i, j, startRow, endRow, startCol, endCol);
      ClampedCountIsMoore(g, i, j);
    }

    /** The live cells of the rows [r0, r1] and the columns [c0, c1], the centre
        (i, j) skipped: the two counting loops of the program. */
    method CountBlock(ghost g: Grid, i: nat, j: nat, r0: nat, r1: nat, c0: nat, c1: nat) returns (live: nat)
      requires Holds(board, g) && r0 <= r1 < board.Length0 && c0 <= c1 < board.Length1
      ensures live == BlockLive(g, i, j, r0, r1 + 1, c0, c1 + 1)
    {
      live := 0;
      var r := r0;
      while r <= r1
        invariant r0 <= r <= r1 + 1
        invariant live == BlockLive(g, i, j, r0, r, c0, c1 + 1)
      {
        var rowLive := CountRow(g, i, j, r, c0, c1);
        live := live + rowLive;
        r := r + 1;
      }
    }

    /** The live cells of row r in the columns [c0, c1], the centre (i, j) skipped:
        the inner counting loop of the program. */
    method CountRow(ghost g: Grid, i: nat, j: nat, r: nat, c0: nat, c1: nat) returns (live: nat)
      requires Holds(board, g) && r < board.Length0 && c0 <= c1 < board.Length1
      ensures live == RowLive(g, i, j, r, c0, c1 + 1)
    {
      live := 0;
      var c := c0;
      while c <= c1
        invariant c0 <= c <= c1 + 1
        invariant live == RowLive(g, i, j, r, c0, c)
      {
        if (r != i || c != j) && board[r, c] == Alive {
          live := live + 1;
        }
        c := c + 1;
      }
    }

    /** One generation: every scratch cell is computed from the untouched
        committed board, then the scratch buffer is copied back. Afterwards
        `board` (and `temp`) hold the rule applied to the old board at every
        cell, and both buffers keep their shape. */
    method Update()
      requires Valid()
      modifies board, temp
      ensures Valid() && board == old(board) && temp == old(temp)
      ensures Board() == NextGrid(old(Board()))
      ensures Snapshot(temp) == Board()
    {
      ghost var g := Board();
      ghost var n := NextGrid(g);
      ComputeNext(g);
      CopyBack();
      forall r, c | 0 <= r < board.Length0 && 0 <= c < board.Length1
        ensures board[r, c] == n[r][c]
      {
        assert temp[r, c] == n[r][c];
      }
      SnapshotIs(board, n);
      SnapshotIs(temp, n);
    }

    /** The first pair of loops of a generation: every cell of `temp` gets the
        rule applied to the committed board g, which is only read. */
    method ComputeNext(ghost g: Grid)
      requires Valid() && Holds(board, g)
      modifies temp
      ensures forall r, c {:trigger temp[r, c]} :: 0 <= r < board.Length0 && 0 <= c < board.Length1 ==>
                temp[r, c] == Next(g[r][c], MooreCount(g, r, c))
    {
      var h := board.Length0;
      var i := 0;
      while i < h
        invariant 0 <= i <= h
        invariant forall r, c {:trigger temp[r, c]} :: 0 <= r < i && 0 <= c < board.Length1 ==>
                    temp[r, c] == Next(g[r][c], MooreCount(g, r, c))
      {
        ComputeRow(g, i);
        i := i + 1;
      }
    }

    /** One pass of the inner loop: row i of `temp` gets the rule applied to the
        committed board g; the other rows of `temp` are left as they were. */
    method ComputeRow(ghost g: Grid, i: nat)
      requires Valid() && Holds(board, g) && i < board.Length0
      modifies temp
      ensures forall c {:trigger temp[i, c]} :: 0 <= c < board.Length1 ==>
                temp[i, c] == Next(g[i][c], MooreCount(g, i, c))
      ensures forall r, c {:trigger temp[r, c]} :: 0 <= r < board.Length0 && r != i && 0 <= c < board.Length1 ==>
                temp[r, c] == old(temp[r, c])
    {
      var w := board.Length1;
      var j := 0;
      while j < w
        invariant 0 <= j <= w
        invariant forall c {:trigger temp[i, c]} :: 0 <= c < j ==> temp[i, c] == Next(g[i][c], MooreCount(g, i, c))
        invariant forall r, c {:trigger temp[r, c]} :: 0 <= r < board.Length0 && r != i && 0 <= c < w ==>
                    temp[r, c] == old(temp[r, c])
      {
        var live := CountLive(g, i, j);
        temp[i, j] := Next(board[i, j], live);
        j := j + 1;
      }
    }

    /** The second pair of loops of a generation: `temp` is copied into `board`
        cell by cell. */
    method CopyBack()
      requires Valid()
      modifies board
      ensures forall r, c :: 0 <= r < board.Length0 && 0 <= c < board.Length1 ==>
                board[r, c] == temp[r, c]
    {
      var h, w := board.Length0, board.Length1;
      var i := 0;
      while i < h
        invariant 0 <= i <= h
        invariant forall r, c :: 0 <= r < i && 0 <= c < w ==> board[r, c] == temp[r, c]
      {
        var j := 0;
        while j < w
          invariant 0 <= j <= w
          invariant forall r, c :: 0 <= r < i && 0 <= c < w ==> board[r, c] == temp[r, c]
          invariant forall c :: 0 <= c < j ==> board[i, c] == temp[i, c]
        {
          board[i, j] := temp[i, j];
          j := j + 1;
        }
        i := i + 1;
      }
    }
  }

  /** The buffer a holds the board g: same shape, same cells. */
  ghost predicate Holds(a: array2<State>, g: Grid)
    reads a
  {
    |g| == a.Length0 && Rect(g) && (a.Length0 > 0 ==> Width(g) == a.Length1)
    && forall r, c :: 0 <= r < a.Length0 && 0 <= c < a.Length1 ==> a[r, c] == g[r][c]
  }

  /** A buffer whose every cell matches a board of its shape has that board as its snapshot. */
  lemma SnapshotIs(a: array2<State>, g: Grid)
    requires Holds(a, g)
    ensures Snapshot(a) == g
  {
    var s := Snapshot(a);
    forall r | 0 <= r < a.Length0
      ensures s[r] == g[r]
    {
    }
  }

  lemma SnapshotIsSeed(a: array2<State>, draws: seq<u32>, rate: u32)
    requires |draws| >= a.Length0 * a.Length1
    requires forall r, c :: 0 <= r < a.Length0 && 0 <= c < a.Length1 ==>
               a[r, c] == Seed(draws[DrawIndex(r, c, a.Length0, a.Length1)], rate)
    ensures Snapshot(a) == SeedGrid(draws, a.Length0, a.Length1, rate)
  {
    SnapshotIs(a, SeedGrid(draws, a.Length0, a.Length1, rate));
  }
}
