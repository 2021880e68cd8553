/**
  Known patterns on the torus: the 2 x 2 block is a still life and the
  three-cell blinker oscillates with period 2. Patterns are rectangles of
  live cells placed anywhere on the board, wrapping across its edges.
 */
module Patterns {
  import opened Board
  import opened Life

  /** (x, y) lies in the w x h rectangle whose top-left corner is (a, b), on the torus. */
  predicate InRect(a: int, b: int, w: int, h: int, x: int, y: int) {
    (x - a) % Width < w && (y - b) % Height < h
  }

  /** The grid whose live cells are exactly the rectangle. */
  function Rect(a: int, b: int, w: int, h: int): (g: Grid)
    ensures WellFormed(g)
    ensures forall x, y :: InBounds(x, y) ==> (g[x][y] == 1 <==> InRect(a, b, w, h, x, y))
  {
    seq(Width, x requires 0 <= x < Width =>
      seq(Height, y requires 0 <= y < Height => if InRect(a, b, w, h, x, y) then 1 else 0))
  }

  /** The toroidal read of a rectangle grid tests membership of the unwrapped position. */
  lemma AtRect(a: int, b: int, w: int, h: int, x: int, y: int)
    ensures At(Rect(a, b, w, h), x, y) == if InRect(a, b, w, h, x, y) then 1 else 0
  {
    var g := Rect(a, b, w, h);
    assert InBounds(x % Width, y % Height);
    assert (x % Width - a) % Width == (x - a) % Width;
    assert (y % Height - b) % Height == (y - b) % Height;
  }

  /** A cell value for a membership test: 1 when it holds, 0 otherwise. */
  function BitOf(c: bool): int {
    if c then 1 else 0
  }

  /** Columns of the rectangle, wrapping: x is in columns a .. a + w - 1 modulo Width. */
  predicate InCols(a: int, w: int, x: int) {
    (x - a) % Width < w
  }

  predicate InRows(b: int, h: int, y: int) {
    (y - b) % Height < h
  }

  /** How many of the columns x - 1, x, x + 1 belong to the rectangle. */
  function ColHits(a: int, w: int, x: int): int {
    BitOf(InCols(a, w, x - 1)) + BitOf(InCols(a, w, x)) + BitOf(InCols(a, w, x + 1))
  }

  function RowHits(b: int, h: int, y: int): int {
    BitOf(InRows(b, h, y - 1)) + BitOf(InRows(b, h, y)) + BitOf(InRows(b, h, y + 1))
  }

  /** The eight neighbours of a 3 x 3 window of a product pattern, counted as
      (columns hit) * (rows hit) minus the centre. */
  lemma ProductCount(c0: bool, c1: bool, c2: bool, d0: bool, d1: bool, d2: bool)
    ensures BitOf(c0 && d0) + BitOf(c1 && d0) + BitOf(c2 && d0) + BitOf(c0 && d1) + BitOf(c2 && d1) +
            BitOf(c0 && d2) + BitOf(c1 && d2) + BitOf(c2 && d2) ==
            (BitOf(c0) + BitOf(c1) + BitOf(c2)) * (BitOf(d0) + BitOf(d1) + BitOf(d2)) - BitOf(c1 && d1)
  {
  }

  /** The neighbour count of a rectangle grid factors by axis. */
  lemma CountRect(a: int, b: int, w: int, h: int, x: int, y: int)
    ensures NeighbourCount(Rect(a, b, w, h), x, y) ==
              ColHits(a, w, x) * RowHits(b, h, y) - BitOf(InRect(a, b, w, h, x, y))
  {
    AtRect(a, b, w, h, x - 1, y - 1);
    AtRect(a, b, w, h, x, y - 1);
    AtRect(a, b, w, h, x + 1, y - 1);
    AtRect(a, b, w, h, x - 1, y);
    AtRect(a, b, w, h, x + 1, y);
    AtRect(a, b, w, h, x - 1, y + 1);
    AtRect(a, b, w, h, x, y + 1);
    AtRect(a, b, w, h, x + 1, y + 1);
    ProductCount(InCols(a, w, x - 1), InCols(a, w, x), InCols(a, w, x + 1),
                 InRows(b, h, y - 1), InRows(b, h, y), InRows(b, h, y + 1));
  }

  /** Columns hit by a two-wide band around column x, by x's offset p into the band. */
  lemma ColHitsTwo(a: int, x: int)
    ensures var p := (x - a) % Width;
            ColHits(a, 2, x) == if p <= 1 then 2 else if p == 2 || p == Width - 1 then 1 else 0
  {
  }

  lemma RowHitsTwo(b: int, y: int)
    ensures var q := (y - b) % Height;
            RowHits(b, 2, y) == if q <= 1 then 2 else if q == 2 || q == Height - 1 then 1 else 0
  {
  }

  /** A 2 x 2 block anywhere on the board is a still life. */
  lemma BlockIsStill(a: int, b: int)
    ensures Step(Rect(a, b, 2, 2)) == Rect(a, b, 2, 2)
  {
    var g := Rect(a, b, 2, 2);
    forall x, y | InBounds(x, y)
      ensures Step(g)[x][y] == g[x][y]
    {
      CountRect(a, b, 2, 2, x, y);
      ColHitsTwo(a, x);
      RowHitsTwo(b, y);
    }
    SameCells(Step(g), g);
  }

  lemma ColHitsOne(a: int, x: int)
    ensures var p := (x - a) % Width;
            ColHits(a, 1, x) == if p == 0 || p == 1 || p == Width - 1 then 1 else 0
  {
  }

  lemma ColHitsThree(a: int, x: int)
    ensures var p := (x - a) % Width;
            ColHits(a, 3, x) ==
              if p == 1 then 3 else if p == 0 || p == 2 then 2
              else if p == 3 || p == Width - 1 then 1 else 0
  {
  }

  lemma RowHitsOne(b: int, y: int)
    ensures var q := (y - b) % Height;
            RowHits(b, 1, y) == if q == 0 || q == 1 || q == Height - 1 then 1 else 0
  {
  }

  lemma RowHitsThree(b: int, y: int)
    ensures var q := (y - b) % Height;
            RowHits(b, 3, y) ==
              if q == 1 then 3 else if q == 0 || q == 2 then 2
              else if q == 3 || q == Height - 1 then 1 else 0
  {
  }

  /** The horizontal blinker centred on (a, b): cells (a - 1, b), (a, b), (a + 1, b). */
  function Horizontal(a: int, b: int): Grid {
    Rect(a - 1, b, 3, 1)
  }

  /** The vertical blinker centred on (a, b): cells (a, b - 1), (a, b), (a, b + 1). */
  function Vertical(a: int, b: int): Grid {
    Rect(a, b - 1, 1, 3)
  }

  /** Offsets into a band shift by one when its corner moves back by one. */
  lemma ShiftCols(a: int, x: int)
    ensures (x - (a - 1)) % Width == if (x - a) % Width == Width - 1 then 0 else (x - a) % Width + 1
  {
  }

  lemma ShiftRows(b: int, y: int)
    ensures (y - (b - 1)) % Height == if (y - b) % Height == Height - 1 then 0 else (y - b) % Height + 1
  {
  }

  /** The next value of a cell of a 0/1 grid, from its neighbour count alone. */
  lemma StepByCount(g: Grid, x: int, y: int, n: int)
    requires WellFormed(g) && InBounds(x, y) && NeighbourCount(g, x, y) == n
    ensures Step(g)[x][y] == if n == 3 || (g[x][y] == 1 && n == 2) then 1 else 0
  {
  }

  /** Where the vertical blinker is live, by offsets from its centre. */
  lemma VerticalAt(a: int, b: int, x: int, y: int)
    requires InBounds(x, y)
    ensures var p, q := (x - a) % Width, (y - b) % Height;
            Vertical(a, b)[x][y] == if p == 0 && (q == Height - 1 || q <= 1) then 1 else 0
  {
    ShiftRows(b, y);
  }

  /** Where the horizontal blinker is live, by offsets from its centre. */
  lemma HorizontalAt(a: int, b: int, x: int, y: int)
    requires InBounds(x, y)
    ensures var p, q := (x - a) % Width, (y - b) % Height;
            Horizontal(a, b)[x][y] == if (p == Width - 1 || p <= 1) && q == 0 then 1 else 0
  {
    ShiftCols(a, x);
  }

  lemma HorizontalCell(a: int, b: int, x: int, y: int)
    requires InBounds(x, y)
    ensures var p, q := (x - a) % Width, (y - b) % Height;
            Step(Horizontal(a, b))[x][y] == if p == 0 && (q == Height - 1 || q <= 1) then 1 else 0
  {
    var g := Horizontal(a, b);
    var p, q := (x - a) % Width, (y - b) % Height;
    HorizontalAt(a, b, x, y);
    ShiftCols(a, x);
    RowHitsOne(b, y);
    var cols, rows := ColHits(a - 1, 3, x), RowHits(b, 1, y);
    var pc := (x - (a - 1)) % Width;
    assert cols == if pc == 1 then 3 else if pc == 0 || pc == 2 then 2
                   else if pc == 3 || pc == Width - 1 then 1 else 0 by {
      ColHitsThree(a - 1, x);
    }
    CountRect(a - 1, b, 3, 1, x, y);
    var n := NeighbourCount(g, x, y);
    var self := g[x][y] == 1;
    assert n == (if rows == 1 then cols else 0) - BitOf(self);
    StepByCount(g, x, y, n);
    HorizontalArith(p, q, pc, cols, rows, n, self);
  }

  lemma VerticalCell(a: int, b: int, x: int, y: int)
    requires InBounds(x, y)
    ensures var p, q := (x - a) % Width, (y - b) % Height;
            Step(Vertical(a, b))[x][y] == if (p == Width - 1 || p <= 1) && q == 0 then 1 else 0
  {
    var g := Vertical(a, b);
    var p, q := (x - a) % Width, (y - b) % Height;
    VerticalAt(a, b, x, y);
    ShiftRows(b, y);
    ColHitsOne(a, x);
    var cols, rows := ColHits(a, 1, x), RowHits(b - 1, 3, y);
    var qc := (y - (b - 1)) % Height;
    assert rows == if qc == 1 then 3 else if qc == 0 || qc == 2 then 2
                   else if qc == 3 || qc == Height - 1 then 1 else 0 by {
      RowHitsThree(b - 1, y);
    }
    CountRect(a, b - 1, 1, 3, x, y);
    var n := NeighbourCount(g, x, y);
    var self := g[x][y] == 1;
    assert n == (if cols == 1 then rows else 0) - BitOf(self);
    StepByCount(g, x, y, n);
    VerticalArith(p, q, qc, cols, rows, n, self);
  }

  /** The count arithmetic of a horizontal blinker's cell, by offsets p, q from its centre. */
  lemma HorizontalArith(p: int, q: int, pc: int, cols: int, rows: int, n: int, self: bool)
    requires 0 <= p < Width && 0 <= q < Height
    requires pc == if p == Width - 1 then 0 else p + 1
    requires cols == if pc == 1 then 3 else if pc == 0 || pc == 2 then 2
                     else if pc == 3 || pc == Width - 1 then 1 else 0
    requires rows == if q == 0 || q == 1 || q == Height - 1 then 1 else 0
    requires self <==> (p == Width - 1 || p <= 1) && q == 0
    requires n == (if rows == 1 then cols else 0) - BitOf(self)
    ensures (n == 3 || (self && n == 2)) <==> p == 0 && (q == Height - 1 || q <= 1)
  {
  }

  /** The count arithmetic of a vertical blinker's cell, by offsets p, q from its centre. */
  lemma VerticalArith(p: int, q: int, qc: int, cols: int, rows: int, n: int, self: bool)
    requires 0 <= p < Width && 0 <= q < Height
    requires qc == if q == Height - 1 then 0 else q + 1
    requires rows == if qc == 1 then 3 else if qc == 0 || qc == 2 then 2
                     else if qc == 3 || qc == Height - 1 then 1 else 0
    requires cols == if p == 0 || p == 1 || p == Width - 1 then 1 else 0
    requires self <==> p == 0 && (q == Height - 1 || q <= 1)
    requires n == (if cols == 1 then rows else 0) - BitOf(self)
    ensures (n == 3 || (self && n == 2)) <==> (p == Width - 1 || p <= 1) && q == 0
  {
  }

  /** A horizontal blinker turns vertical in one generation. */
  lemma HorizontalBecomesVertical(a: int, b: int)
    ensures Step(Horizontal(a, b)) == Vertical(a, b)
  {
    forall x, y | InBounds(x, y)
      ensures Step(Horizontal(a, b))[x][y] == Vertical(a, b)[x][y]
    {
      HorizontalCell(a, b, x, y);
      VerticalAt(a, b, x, y);
    }
    SameCells(Step(Horizontal(a, b)), Vertical(a, b));
  }

  /** A vertical blinker turns horizontal in one generation. */
  lemma VerticalBecomesHorizontal(a: int, b: int)
    ensures Step(Vertical(a, b)) == Horizontal(a, b)
  {
    forall x, y | InBounds(x, y)
      ensures Step(Vertical(a, b))[x][y] == Horizontal(a, b)[x][y]
    {
      VerticalCell(a, b, x, y);
      HorizontalAt(a, b, x, y);
    }
    SameCells(Step(Vertical(a, b)), Horizontal(a, b));
  }

  /** The blinker has period 2: two generations bring it back, one does not. */
  lemma BlinkerHasPeriodTwo(a: int, b: int)
    ensures Step(Step(Horizontal(a, b))) == Horizontal(a, b)
    ensures Step(Horizontal(a, b)) != Horizontal(a, b)
  {
    HorizontalBecomesVertical(a, b);
    VerticalBecomesHorizontal(a, b);
    BlinkersDiffer(a, b);
  }

  /** The two phases differ: the left end of the horizontal phase is dead in the vertical one. */
  lemma BlinkersDiffer(a: int, b: int)
    ensures Horizontal(a, b) != Vertical(a, b)
  {
    var x, y := (a - 1) % Width, b % Height;
    assert InBounds(x, y);
    assert (x - a) % Width == Width - 1 by {
      assert (x - a) % Width == ((a - 1) - a) % Width;
    }
    assert (y - b) % Height == 0;
    HorizontalAt(a, b, x, y);
    VerticalAt(a, b, x, y);
    assert Horizontal(a, b)[x][y] != Vertical(a, b)[x][y];
  }

  /** A single live cell dies, and nothing is born around it. */
  lemma LoneCellDies(a: int, b: int)
    ensures AllDead(Step(Rect(a, b, 1, 1)))
  {
    var g := Rect(a, b, 1, 1);
    forall x, y | InBounds(x, y)
      ensures Step(g)[x][y] == 0
    {
      CountRect(a, b, 1, 1, x, y);
      ColHitsOne(a, x);
      RowHitsOne(b, y);
      StepByCount(g, x, y, NeighbourCount(g, x, y));
    }
  }
}
