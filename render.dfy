/** Where the program draws on the screen: each cell is a filled square of
    PIXEL_SIZE x PIXEL_SIZE pixels, and a one-pixel border is drawn around the
    grid. The drawing calls themselves are not modelled, only which pixels
    they cover. */
module Render {

  const PIXEL_SIZE: nat := 4

  /** A pixel position: x is the column, y the row. */
  datatype Point = Point(x: int, y: int)

  /** The top-left pixel of the square of cell (i, j): row i is drawn at
      y = i * PIXEL_SIZE, column j at x = j * PIXEL_SIZE. */
  function CellOrigin(i: nat, j: nat): (p: Point)
    ensures p.x % PIXEL_SIZE == 0 && p.y % PIXEL_SIZE == 0
    ensures p.x / PIXEL_SIZE == j && p.y / PIXEL_SIZE == i
  {
    Point(j * PIXEL_SIZE, i * PIXEL_SIZE)
  }

  /** Pixel p lies in the square of cell (i, j). */
  predicate InCell(p: Point, i: nat, j: nat)
  {
    var o := CellOrigin(i, j);
    o.x <= p.x < o.x + PIXEL_SIZE && o.y <= p.y < o.y + PIXEL_SIZE
  }

  /** The cell whose square holds a pixel of non-negative coordinates. */
  function CellAt(p: Point): (c: (nat, nat))
    requires p.x >= 0 && p.y >= 0
    ensures InCell(p, c.0, c.1)
  {
    (p.y / PIXEL_SIZE, p.x / PIXEL_SIZE)
  }

  /** Each pixel of a cell's square leads back to that cell, so the squares of
      two different cells never overlap. */
  lemma CellSquaresDisjoint(p: Point, i: nat, j: nat)
    requires InCell(p, i, j)
    ensures p.x >= 0 && p.y >= 0 && CellAt(p) == (i, j)
  {
  }

  /** The squares of the cells of a board of h rows and w columns stay inside
      the box whose far corner is (w * PIXEL_SIZE, h * PIXEL_SIZE). */
  lemma CellsInsideBox(p: Point, i: nat, j: nat, h: nat, w: nat)
    requires i < h && j < w && InCell(p, i, j)
    ensures 0 <= p.x < w * PIXEL_SIZE && 0 <= p.y < h * PIXEL_SIZE
  {
  }

  /** The pixels on the outline of the box of a board of h rows and w columns:
      its top and bottom edges y = 0 and y = h * PIXEL_SIZE, and its left and
      right edges x = 0 and x = w * PIXEL_SIZE. */
  predicate OnOutline(h: nat, w: nat, p: Point)
  {
    var right, bottom := w * PIXEL_SIZE, h * PIXEL_SIZE;
    (0 <= p.x <= right && (p.y == 0 || p.y == bottom))
    || (0 <= p.y <= bottom && (p.x == 0 || p.x == right))
  }

  /** The pixels the border loops of the program paint as written: the first
      loop runs x over [0, h * PIXEL_SIZE) although it draws the horizontal
      edges, the second runs y over [0, h * PIXEL_SIZE) for the vertical ones. */
  predicate BorderAsWritten(h: nat, w: nat, p: Point): (b: bool)
    ensures b ==> 0 <= p.x && 0 <= p.y <= h * PIXEL_SIZE
    ensures p.y == 0 && 0 <= p.x < h * PIXEL_SIZE ==> b
  {
    var right, bottom := w * PIXEL_SIZE, h * PIXEL_SIZE;
    (0 <= p.x < bottom && (p.y == 0 || p.y == bottom))
    || (0 <= p.y < bottom && (p.x == 0 || p.x == right))
  }

  /** The pixels the border loops paint once the first loop runs over the
      width: x over [0, w * PIXEL_SIZE) for the horizontal edges. */
  predicate Border(h: nat, w: nat, p: Point): (b: bool)
    ensures b ==> OnOutline(h, w, p)
    ensures p.y == 0 && 0 <= p.x < w * PIXEL_SIZE ==> b
  {
    var right, bottom := w * PIXEL_SIZE, h * PIXEL_SIZE;
    (0 <= p.x < right && (p.y == 0 || p.y == bottom))
    || (0 <= p.y < bottom && (p.x == 0 || p.x == right))
  }

  /** The corrected border is the outline of the board's box, all of it except
      the far corner, which both loops stop one pixel short of. */
  lemma BorderIsOutline(h: nat, w: nat, p: Point)
    ensures Border(h, w, p) <==> OnOutline(h, w, p) && p != Point(w * PIXEL_SIZE, h * PIXEL_SIZE)
  {
  }

  /** As written, on the default board of 150 rows and 200 columns the top edge
      stops at x = 600: the pixel (600, 0) of the outline is never painted. */
  lemma BorderAsWrittenMissesTopEdge()
    ensures OnOutline(150, 200, Point(600, 0)) && !BorderAsWritten(150, 200, Point(600, 0))
    ensures Border(150, 200, Point(600, 0))
  {
  }

  /** As written, on a board taller than it is wide the top edge runs past the
      right edge: with 2 rows and 1 column the pixel (5, 0) is painted outside
      the outline. */
  lemma BorderAsWrittenOverrunsTopEdge()
    ensures BorderAsWritten(2, 1, Point(5, 0)) && !OnOutline(2, 1, Point(5, 0))
    ensures !Border(2, 1, Point(5, 0))
  {
  }

  /** The two versions paint the same pixels exactly on square boards. */
  lemma BorderAsWrittenSquare(h: nat, w: nat)
    ensures (forall p :: BorderAsWritten(h, w, p) <==> Border(h, w, p)) <==> h == w
  {
    if h < w {
      var p := Point(h * PIXEL_SIZE, 0);
      assert Border(h, w, p) && !BorderAsWritten(h, w, p);
    } else if h > w {
      var p := Point(w * PIXEL_SIZE + 1, 0);
      assert BorderAsWritten(h, w, p) && !Border(h, w, p);
    }
  }
}
