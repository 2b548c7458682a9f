/** The simulation rule of the game of life: cell states, the B3/S23 transition,
    the clamped (non-wrapping) neighbour count and the next generation of a
    whole grid, plus the rule that seeds the initial board from random draws. */
module Life {

  /** A cell is either alive or dead ("Died" in the program). */
  datatype State = Alive | Died

  /** An unsigned 32-bit integer, the type of the random draws and of the rate. */
  newtype u32 = x: int | 0 <= x < 0x1_0000_0000

  /** The transition rule: a live cell survives with 2 or 3 live neighbours,
      a dead cell is born with exactly 3, every other combination is dead. */
  function Next(cur: State, live: nat): (r: State)
    ensures r == Alive <==> live == 3 || (cur == Alive && live == 2)
  {
    match (cur, live)
    case (Alive, 2) => Alive
    case (Alive, 3) => Alive
    case (Died, 3) => Alive
    case _ => Died
  }

  /** A board: a sequence of rows. */
  type Grid = seq<seq<State>>

  /** The width of a board, taken from its first row as the program does. */
  function Width(g: Grid): nat
  {
    if |g| == 0 then 0 else |g[0]|
  }

  /** Every row of the board has the same width. */
  predicate Rect(g: Grid)
  {
    forall i :: 0 <= i < |g| ==> |g[i]| == Width(g)
  }

  /** First row (or column) of the clamped neighbourhood of index i. */
  function RangeStart(i: nat): (s: nat)
    ensures s <= i <= s + 1
    ensures s == i ==> i == 0
  {
    if i > 0 then i - 1 else 0
  }

  /** Last row (or column) of the clamped neighbourhood of index i on an axis of length n. */
  function RangeEnd(i: nat, n: nat): (e: nat)
    requires i < n
    ensures i <= e <= i + 1 && e < n
    ensures e == i ==> i == n - 1
  {
    if i < n - 1 then i + 1 else n - 1
  }

  /** Live cells of row r in the columns [c0, c1), the centre (i, j) left out. */
  function RowLive(g: Grid, i: nat, j: nat, r: nat, c0: nat, c1: nat): (n: nat)
    requires r < |g| && c0 <= c1 <= |g[r]|
    ensures n <= c1 - c0
    decreases c1
  {
    if c1 == c0 then 0
    else RowLive(g, i, j, r, c0, c1 - 1)
         + (if (r != i || c1 - 1 != j) && g[r][c1 - 1] == Alive then 1 else 0)
  }

  /** Live cells of the rows [r0, r1) and the columns [c0, c1), the centre (i, j) left out:
      the sum, row by row, that the counting loops of the program accumulate. */
  function BlockLive(g: Grid, i: nat, j: nat, r0: nat, r1: nat, c0: nat, c1: nat): (n: nat)
    requires Rect(g) && r0 <= r1 <= |g| && c0 <= c1 <= Width(g)
    decreases r1
  {
    if r1 == r0 then 0
    else BlockLive(g, i, j, r0, r1 - 1, c0, c1) + RowLive(g, i, j, r1 - 1, c0, c1)
  }

  /** The block sum visits each of its (r1 - r0) * (c1 - c0) cells at most once. */
  lemma {:induction false} BlockLiveBound(g: Grid, i: nat, j: nat, r0: nat, r1: nat, c0: nat, c1: nat)
    requires Rect(g) && r0 <= r1 <= |g| && c0 <= c1 <= Width(g)
    ensures BlockLive(g, i, j, r0, r1, c0, c1) <= (r1 - r0) * (c1 - c0)
    decreases r1
  {
    if r1 > r0 {
      BlockLiveBound(g, i, j, r0, r1 - 1, c0, c1);
      assert (r1 - r0) * (c1 - c0) == (r1 - 1 - r0) * (c1 - c0) + (c1 - c0);
    }
  }

  /** 1 if (r, c) lies on the board and is alive, 0 otherwise (off-board cells count as empty). */
  function At(g: Grid, r: int, c: int): nat
    requires Rect(g)
  {
    if 0 <= r < |g| && 0 <= c < Width(g) && g[r][c] == Alive then 1 else 0
  }

  /** Reference definition of the neighbour count: the eight Moore offsets of (i, j),
      each counted once, with nothing outside the board (no wrap-around). */
  function MooreCount(g: Grid, i: int, j: int): (n: nat)
    requires Rect(g)
    ensures n <= 8
  {
    At(g, i - 1, j - 1) + At(g, i - 1, j) + At(g, i - 1, j + 1)
    + At(g, i, j - 1) + At(g, i, j + 1)
    + At(g, i + 1, j - 1) + At(g, i + 1, j) + At(g, i + 1, j + 1)
  }

  /** The number of live neighbours of (i, j) over the clamped range: it equals the
      reference Moore count and is at most 8. */
  function LiveCount(g: Grid, i: nat, j: nat): (n: nat)
    requires Rect(g) && i < |g| && j < Width(g)
    ensures n == MooreCount(g, i, j)
    ensures n <= 8
  {
    ClampedCountIsMoore(g, i, j);
    BlockLive(g, i, j, RangeStart(i), RangeEnd(i, |g|) + 1, RangeStart(j), RangeEnd(j, Width(g)) + 1)
  }

  /** Over the clamped columns of j, row r contributes its three Moore columns
      (its middle one only when r is not the centre row). */
  lemma ClampedRowIsMoore(g: Grid, i: nat, j: nat, r: nat)
    requires Rect(g) && r < |g| && j < Width(g)
    ensures RowLive(g, i, j, r, RangeStart(j), RangeEnd(j, Width(g)) + 1) == RowMoore(g, i, j, r)
  {
    var w := Width(g);
    var s, e := RangeStart(j), RangeEnd(j, w);
    assert |g[r]| == w;
    // the columns strictly left of j
    assert RowLive(g, i, j, r, s, j) == At(g, r, j - 1) by {
      if s < j {
        assert RowLive(g, i, j, r, s, s) == 0;
      }
    }
    // the centre column
    assert RowLive(g, i, j, r, s, j + 1)
           == At(g, r, j - 1) + (if r != i then At(g, r, j) else 0);
    // the column right of j, if there is one
    if e == j {
      assert At(g, r, j + 1) == 0;
    } else {
      assert RowLive(g, i, j, r, s, j + 2)
             == RowLive(g, i, j, r, s, j + 1) + At(g, r, j + 1);
    }
  }

  /** The Moore neighbours of (i, j) in row r (the centre column left out in row i). */
  function RowMoore(g: Grid, i: int, j: int, r: int): nat
    requires Rect(g)
  {
    At(g, r, j - 1) + (if r != i then At(g, r, j) else 0) + At(g, r, j + 1)
  }

  /** The clamped rows of (i, j) up to and including row i count the Moore
      neighbours of the rows i - 1 and i. */
  lemma ClampedUpperRows(g: Grid, i: nat, j: nat)
    requires Rect(g) && i < |g| && j < Width(g)
    ensures BlockLive(g, i, j, RangeStart(i), i + 1, RangeStart(j), RangeEnd(j, Width(g)) + 1)
            == RowMoore(g, i, j, i - 1) + RowMoore(g, i, j, i)
  {
    var rs, cs, ce := RangeStart(i), RangeStart(j), RangeEnd(j, Width(g));
    ClampedRowIsMoore(g, i, j, i);
    if rs < i {
      ClampedRowIsMoore(g, i, j, i - 1);
      assert BlockLive(g, i, j, rs, rs, cs, ce + 1) == 0;
    } else {
      assert BlockLive(g, i, j, rs, i, cs, ce + 1) == 0;
    }
  }

  /** The clamped block of (i, j) counts exactly the reference Moore neighbourhood:
      no index outside the board, no wrap-around, the centre excluded, each
      neighbour once, also when an axis has length 1. */
  lemma ClampedCountIsMoore(g: Grid, i: nat, j: nat)
    requires Rect(g) && i < |g| && j < Width(g)
    ensures BlockLive(g, i, j, RangeStart(i), RangeEnd(i, |g|) + 1, RangeStart(j), RangeEnd(j, Width(g)) + 1)
            == MooreCount(g, i, j)
  {
    var rs, re := RangeStart(i), RangeEnd(i, |g|);
    var cs, ce := RangeStart(j), RangeEnd(j, Width(g));
    ClampedUpperRows(g, i, j);
    if re == i {
      assert RowMoore(g, i, j, i + 1) == 0;
    } else {
      ClampedRowIsMoore(g, i, j, i + 1);
      assert BlockLive(g, i, j, rs, i + 2, cs, ce + 1)
             == BlockLive(g, i, j, rs, i + 1, cs, ce + 1) + RowMoore(g, i, j, i + 1);
    }
    assert MooreCount(g, i, j)
           == RowMoore(g, i, j, i - 1) + RowMoore(g, i, j, i) + RowMoore(g, i, j, i + 1);
  }

  /** The next generation of the whole board: every cell gets the rule applied to
      its own state and its neighbour count, both taken from the old board. */
  function NextGrid(g: Grid): (r: Grid)
    requires Rect(g)
    ensures |r| == |g| && Rect(r) && Width(r) == Width(g)
    ensures forall i, j {:trigger r[i][j]} :: 0 <= i < |g| && 0 <= j < Width(g) ==>
              r[i][j] == Next(g[i][j], MooreCount(g, i, j))
  {
    seq(|g|, i requires 0 <= i < |g| =>
      seq(Width(g), j requires 0 <= j < Width(g) => Next(g[i][j], MooreCount(g, i, j))))
  }

  /** The board after n generations. */
  function Generations(g: Grid, n: nat): (r: Grid)
    requires Rect(g)
    ensures |r| == |g| && Rect(r) && Width(r) == Width(g)
    decreases n
  {
    if n == 0 then g else NextGrid(Generations(g, n - 1))
  }

  /** A neighbour count on a corner cell is at most 3, on an edge cell at most 5. */
  lemma BoundaryCounts(g: Grid, i: nat, j: nat)
    requires Rect(g) && i < |g| && j < Width(g)
    ensures (i == 0 || i == |g| - 1) && (j == 0 || j == Width(g) - 1) ==> LiveCount(g, i, j) <= 3
    ensures (i == 0 || i == |g| - 1 || j == 0 || j == Width(g) - 1) ==> LiveCount(g, i, j) <= 5
  {
  }

  /** A 1 x 1 board has no neighbours, so one generation always leaves its cell dead. */
  lemma SingleCellDies(g: Grid)
    requires |g| == 1 && |g[0]| == 1
    ensures NextGrid(g) == [[Died]]
  {
    assert LiveCount(g, 0, 0) == 0;
    assert NextGrid(g)[0] == [Died];
  }

  /** Two boards that agree on the 3 x 3 neighbourhood of (i, j) give (i, j) the same
      next state: a cell's next state depends only on the old board around it. */
  lemma NextIsLocal(g: Grid, g': Grid, i: nat, j: nat)
    requires Rect(g) && Rect(g') && |g| == |g'| && Width(g) == Width(g')
    requires i < |g| && j < Width(g)
    requires forall r, c :: 0 <= r < |g| && 0 <= c < Width(g) && i - 1 <= r <= i + 1 && j - 1 <= c <= j + 1
               ==> g[r][c] == g'[r][c]
    ensures NextGrid(g)[i][j] == NextGrid(g')[i][j]
  {
    forall r | i - 1 <= r <= i + 1
      ensures RowMoore(g, i, j, r) == RowMoore(g', i, j, r)
    {
      assert At(g, r, j - 1) == At(g', r, j - 1);
      assert At(g, r, j) == At(g', r, j);
      assert At(g, r, j + 1) == At(g', r, j + 1);
    }
    assert MooreCount(g, i, j) == RowMoore(g, i, j, i - 1) + RowMoore(g, i, j, i) + RowMoore(g, i, j, i + 1);
    assert MooreCount(g', i, j) == RowMoore(g', i, j, i - 1) + RowMoore(g', i, j, i) + RowMoore(g', i, j, i + 1);
  }

  // ---- Seeding the initial board ----

  /** The state of a fresh cell: alive iff its draw modulo 100 is at most the rate. */
  function Seed(draw: u32, rate: u32): (s: State)
    ensures s == Alive <==> draw % 100 <= rate
  {
    if draw % 100 <= rate then Alive else Died
  }

  /** Position in the draw stream of cell (i, j) when cells are seeded row by row. */
  function DrawIndex(i: nat, j: nat, h: nat, w: nat): (k: nat)
    requires i < h && j < w
    ensures k < h * w
  {
    assert (i + 1) * w <= h * w by { MulMono(i + 1, h, w); }
    i * w + j
  }

  /** Multiplication by a natural number keeps the order. */
  lemma MulMono(a: nat, b: nat, w: nat)
    requires a <= b
    ensures a * w <= b * w
  {
  }

  /** The initial board of height h and width w: cell (i, j) is seeded from the
      (i * w + j)-th draw. */
  function SeedGrid(draws: seq<u32>, h: nat, w: nat, rate: u32): (g: Grid)
    requires |draws| >= h * w
    ensures |g| == h && Rect(g) && (h > 0 ==> Width(g) == w)
    ensures forall i, j :: 0 <= i < h && 0 <= j < w ==>
              |g[i]| == w && (g[i][j] == Alive <==> draws[DrawIndex(i, j, h, w)] % 100 <= rate)
  {
    seq(h, i requires 0 <= i < h =>
      seq(w, j requires 0 <= j < w => Seed(draws[DrawIndex(i, j, h, w)], rate)))
  }

  /** With rate 100 every draw passes the threshold: the board is all alive. */
  lemma FullRateAllAlive(draws: seq<u32>, h: nat, w: nat)
    requires |draws| >= h * w
    ensures forall i, j :: 0 <= i < h && 0 <= j < w ==> SeedGrid(draws, h, w, 100)[i][j] == Alive
  {
  }

  /** With rate 0 a cell is still alive when its draw is a multiple of 100,
      because the threshold test is "at most", not "less than". */
  lemma ZeroRateNotAllDead(draws: seq<u32>, h: nat, w: nat, i: nat, j: nat)
    requires |draws| >= h * w && i < h && j < w
    requires draws[DrawIndex(i, j, h, w)] % 100 == 0
    ensures SeedGrid(draws, h, w, 0)[i][j] == Alive
  {
  }
}
