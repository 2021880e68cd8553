/**
  The Game of Life transition of `next_generation`: the toroidal
  eight-neighbour count, the survival/birth rule, and one generation
  computed cell by cell from a snapshot of the previous one.
 */
module Life {
  import opened Board

  /** The cell reached from (x, y) on the torus: both coordinates are taken
      modulo the grid size. Python's `%` and Dafny's `%` agree here because
      the divisors are positive (both give a result in [0, divisor)). */
  function At(g: Grid, x: int, y: int): int
    requires Shaped(g)
  {
    g[x % Width][y % Height]
  }

  /** Number of live cells among the eight toroidal neighbours of (x, y),
      summed in the order the source writes the terms. */
  function NeighbourCount(g: Grid, x: int, y: int): (n: int)
    requires Shaped(g)
    ensures WellFormed(g) ==> 0 <= n <= 8
  {
    At(g, x - 1, y - 1) + At(g, x, y - 1) + At(g, x + 1, y - 1) +
    At(g, x - 1, y) + At(g, x + 1, y) +
    At(g, x - 1, y + 1) + At(g, x, y + 1) + At(g, x + 1, y + 1)
  }

  /** The Moore neighbourhood as a list of offsets. */
  const MooreOffsets: seq<(int, int)> :=
    [(-1, -1), (0, -1), (1, -1), (-1, 0), (1, 0), (-1, 1), (0, 1), (1, 1)]

  /** Reference count: the sum of the toroidal cells at the given offsets from (x, y). */
  function LiveAmong(g: Grid, x: int, y: int, offsets: seq<(int, int)>): int
    requires Shaped(g)
  {
    if |offsets| == 0 then 0
    else LiveAmong(g, x, y, offsets[..|offsets| - 1])
         + At(g, x + offsets[|offsets| - 1].0, y + offsets[|offsets| - 1].1)
  }

  /** The offset list is exactly {-1, 0, 1}^2 without (0, 0), each offset once. */
  lemma MooreOffsetsAreTheNeighbourhood()
    ensures |MooreOffsets| == 8
    ensures forall dx, dy :: (dx, dy) in MooreOffsets <==>
              -1 <= dx <= 1 && -1 <= dy <= 1 && (dx, dy) != (0, 0)
    ensures forall i, j :: 0 <= i < j < |MooreOffsets| ==> MooreOffsets[i] != MooreOffsets[j]
  {
  }

  /** On a well-formed grid, the reference count over any offset list lies in [0, |offsets|]. */
  lemma {:induction false} LiveAmongBounds(g: Grid, x: int, y: int, offsets: seq<(int, int)>)
    requires WellFormed(g)
    ensures 0 <= LiveAmong(g, x, y, offsets) <= |offsets|
    decreases |offsets|
  {
    if |offsets| > 0 {
      LiveAmongBounds(g, x, y, offsets[..|offsets| - 1]);
      var o := offsets[|offsets| - 1];
      assert InBounds((x + o.0) % Width, (y + o.1) % Height);
    }
  }

  /** The eight-term count of the source is the sum over the Moore neighbourhood. */
  lemma NeighbourCountIsMooreSum(g: Grid, x: int, y: int)
    requires Shaped(g)
    ensures NeighbourCount(g, x, y) == LiveAmong(g, x, y, MooreOffsets)
  {
    var m := MooreOffsets;
    assert m[..8] == m;
    assert LiveAmong(g, x, y, m[..0]) == 0;
    assert LiveAmong(g, x, y, m[..1]) == At(g, x - 1, y - 1) by { assert m[..1][..0] == m[..0]; }
    assert LiveAmong(g, x, y, m[..2]) == LiveAmong(g, x, y, m[..1]) + At(g, x, y - 1) by { assert m[..2][..1] == m[..1]; }
    assert LiveAmong(g, x, y, m[..3]) == LiveAmong(g, x, y, m[..2]) + At(g, x + 1, y - 1) by { assert m[..3][..2] == m[..2]; }
    assert LiveAmong(g, x, y, m[..4]) == LiveAmong(g, x, y, m[..3]) + At(g, x - 1, y) by { assert m[..4][..3] == m[..3]; }
    assert LiveAmong(g, x, y, m[..5]) == LiveAmong(g, x, y, m[..4]) + At(g, x + 1, y) by { assert m[..5][..4] == m[..4]; }
    assert LiveAmong(g, x, y, m[..6]) == LiveAmong(g, x, y, m[..5]) + At(g, x - 1, y + 1) by { assert m[..6][..5] == m[..5]; }
    assert LiveAmong(g, x, y, m[..7]) == LiveAmong(g, x, y, m[..6]) + At(g, x, y + 1) by { assert m[..7][..6] == m[..6]; }
    assert LiveAmong(g, x, y, m) == LiveAmong(g, x, y, m[..7]) + At(g, x + 1, y + 1) by { assert m[..7] == m[..8][..7]; }
  }

  /** What one visit of a cell writes into the copy: nothing, or a new value. */
  datatype Update = Keep | Becomes(value: int)

  /** The survival/birth rule applied to a cell value and its neighbour count:
      a live cell with fewer than 2 or more than 3 neighbours is overwritten with 0,
      a dead cell with exactly 3 neighbours with 1; in every other case the copy
      keeps the old value. */
  function Rule(cell: int, n: int): (u: Update)
    ensures u.Becomes? ==> IsBit(u.value) && u.value != cell
  {
    if cell == 1 && (n < 2 || n > 3) then Becomes(0)
    else if cell == 0 && n == 3 then Becomes(1)
    else Keep
  }

  /** The value an update leaves in a cell that held `prior`. */
  function Apply(u: Update, prior: int): int {
    match u
    case Keep => prior
    case Becomes(v) => v
  }

  /** The value cell (x, y) has in the next generation. */
  function NextCell(g: Grid, x: int, y: int): (v: int)
    requires Shaped(g) && InBounds(x, y)
    ensures IsBit(g[x][y]) ==> IsBit(v)
  {
    Apply(Rule(g[x][y], NeighbourCount(g, x, y)), g[x][y])
  }

  /** One generation: every cell evaluated against the same snapshot `g`. */
  function Step(g: Grid): (r: Grid)
    requires Shaped(g)
    ensures Shaped(r)
    ensures WellFormed(g) ==> WellFormed(r)
    ensures forall x, y :: InBounds(x, y) && g[x][y] == 1 && NeighbourCount(g, x, y) < 2 ==> r[x][y] == 0
    ensures forall x, y :: InBounds(x, y) && g[x][y] == 1 && NeighbourCount(g, x, y) > 3 ==> r[x][y] == 0
    ensures forall x, y :: InBounds(x, y) && g[x][y] == 0 && NeighbourCount(g, x, y) == 3 ==> r[x][y] == 1
    ensures forall x, y :: InBounds(x, y) && g[x][y] == 1 && 2 <= NeighbourCount(g, x, y) <= 3 ==> r[x][y] == 1
    ensures forall x, y :: InBounds(x, y) && g[x][y] == 0 && NeighbourCount(g, x, y) != 3 ==> r[x][y] == 0
    ensures forall x, y :: InBounds(x, y) && !IsBit(g[x][y]) ==> r[x][y] == g[x][y]
  {
    seq(Width, x requires 0 <= x < Width =>
      seq(Height, y requires 0 <= y < Height => NextCell(g, x, y)))
  }

  /** Step is the standard B3/S23 automaton on the torus: a cell is alive in the
      next generation exactly when it has three live neighbours, or is alive
      and has two. The reference count it is stated against lies in [0, 8]. */
  lemma StepIsB3S23(g: Grid, x: int, y: int)
    requires WellFormed(g) && InBounds(x, y)
    ensures Step(g)[x][y] == 1 <==>
              LiveAmong(g, x, y, MooreOffsets) == 3 ||
              (g[x][y] == 1 && LiveAmong(g, x, y, MooreOffsets) == 2)
    ensures Step(g)[x][y] == 0 <==> !(Step(g)[x][y] == 1)
    ensures 0 <= LiveAmong(g, x, y, MooreOffsets) <= 8
  {
    NeighbourCountIsMooreSum(g, x, y);
    LiveAmongBounds(g, x, y, MooreOffsets);
  }

  /** No spontaneous life: an all-dead grid stays all dead. */
  lemma AllDeadStaysDead(g: Grid)
    requires Shaped(g) && AllDead(g)
    ensures Step(g) == g
  {
    forall x, y | InBounds(x, y)
      ensures Step(g)[x][y] == g[x][y]
    {
      assert NeighbourCount(g, x, y) == 0;
    }
    SameCells(Step(g), g);
  }
}
