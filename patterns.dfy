/** Small boards whose next generations are known, worked out with the model's
    rule and clamped neighbour count. */
module Patterns {
  import opened Life

  const A := Alive
  const D := Died

  /** A 3 x 3 board that is all alive: the corners have 3 live neighbours and
      survive, the edge middles have 5 and the centre has 8, and they die. */
  lemma FullSquare()
    ensures NextGrid([[A, A, A], [A, A, A], [A, A, A]]) == [[A, D, A], [D, D, D], [A, D, A]]
  {
    var g := [[A, A, A], [A, A, A], [A, A, A]];
    var e := [[A, D, A], [D, D, D], [A, D, A]];
    assert MooreCount(g, 0, 0) == 3 && MooreCount(g, 0, 1) == 5 && MooreCount(g, 1, 1) == 8;
    assert NextGrid(g)[0] == e[0] && NextGrid(g)[1] == e[1] && NextGrid(g)[2] == e[2];
  }

  /** A 2 x 2 block away from the edges of a 4 x 4 board. */
  const Block: Grid := [[D, D, D, D], [D, A, A, D], [D, A, A, D], [D, D, D, D]]

  lemma BlockRow(i: nat)
    requires i < 4
    ensures NextGrid(Block)[i] == Block[i]
  {
  }

  /** The block is still life: one generation leaves it as it is. */
  lemma BlockIsStill()
    ensures NextGrid(Block) == Block
  {
    forall i | 0 <= i < 4
      ensures NextGrid(Block)[i] == Block[i]
    {
      BlockRow(i);
    }
  }

  /** A blinker in the middle of a 5 x 5 board, lying and standing. */
  const Horizontal: Grid :=
    [[D, D, D, D, D], [D, D, D, D, D], [D, A, A, A, D], [D, D, D, D, D], [D, D, D, D, D]]
  const Vertical: Grid :=
    [[D, D, D, D, D], [D, D, A, D, D], [D, D, A, D, D], [D, D, A, D, D], [D, D, D, D, D]]

  lemma HorizontalRow(i: nat)
    requires i < 5
    ensures NextGrid(Horizontal)[i] == Vertical[i]
  {
    // a case per row splits the work of the solver into five small parts
    if i == 0 {
    } else if i == 1 {
    } else if i == 2 {
    } else if i == 3 {
    } else {
    }
  }

  lemma VerticalRow(i: nat)
    requires i < 5
    ensures NextGrid(Vertical)[i] == Horizontal[i]
  {
  }

  /** The blinker turns from a horizontal line of three into a vertical one and
      back: it has period 2. */
  lemma BlinkerOscillates()
    ensures NextGrid(Horizontal) == Vertical
    ensures NextGrid(Vertical) == Horizontal
    ensures Generations(Horizontal, 2) == Horizontal
  {
    forall i | 0 <= i < 5
      ensures NextGrid(Horizontal)[i] == Vertical[i] && NextGrid(Vertical)[i] == Horizontal[i]
    {
      HorizontalRow(i);
      VerticalRow(i);
    }
  }
}
