/**
  How `next_generation` walks the board: it copies the grid, then visits
  the cells one by one, reading every neighbour count from the untouched
  snapshot and writing only into the copy. Because no read ever sees the
  copy, the order of the visits does not matter; this module proves that,
  and that the source's own loop (rows outer, columns inner) computes Step.
 */
module Sweep {
  import opened Board
  import opened Life

  /** Every position of the visit order lies on the board. */
  ghost predicate CellsInBounds(order: seq<(int, int)>) {
    forall k :: 0 <= k < |order| ==> InBounds(order[k].0, order[k].1)
  }

  /** One visit of cell (x, y): the count is read from `snapshot`, and the rule's
      write, if any, goes into `buf`. */
  function Visit(snapshot: Grid, buf: Grid, x: int, y: int): (r: Grid)
    requires Shaped(snapshot) && Shaped(buf) && InBounds(x, y)
    ensures Shaped(r)
    ensures forall i, j :: InBounds(i, j) && (i, j) != (x, y) ==> r[i][j] == buf[i][j]
    ensures buf[x][y] == snapshot[x][y] || buf[x][y] == NextCell(snapshot, x, y) ==>
              r[x][y] == NextCell(snapshot, x, y)
  {
    match Rule(snapshot[x][y], NeighbourCount(snapshot, x, y))
    case Keep => buf
    case Becomes(v) => Set(buf, x, y, v)
  }

  /** The visits of `order`, performed first to last against one snapshot. */
  function VisitAll(snapshot: Grid, buf: Grid, order: seq<(int, int)>): (r: Grid)
    requires Shaped(snapshot) && Shaped(buf) && CellsInBounds(order)
    ensures Shaped(r)
    decreases |order|
  {
    if |order| == 0 then buf
    else
      var last := order[|order| - 1];
      Visit(snapshot, VisitAll(snapshot, buf, order[..|order| - 1]), last.0, last.1)
  }

  /** Starting from a copy of the snapshot, after any sequence of visits a visited
      cell holds its next-generation value and an unvisited cell its old value,
      however often and in whatever order cells were visited. */
  lemma {:induction false} VisitAllFromCopy(snapshot: Grid, order: seq<(int, int)>)
    requires Shaped(snapshot) && CellsInBounds(order)
    ensures forall x, y :: InBounds(x, y) ==>
              VisitAll(snapshot, snapshot, order)[x][y] ==
              (if (x, y) in order then NextCell(snapshot, x, y) else snapshot[x][y])
    decreases |order|
  {
    if |order| > 0 {
      var prefix := order[..|order| - 1];
      var last := order[|order| - 1];
      assert order == prefix + [last];
      VisitAllFromCopy(snapshot, prefix);
    }
  }

  /** Visiting every cell at least once, in any order, yields exactly Step. */
  lemma AnyOrderGivesStep(snapshot: Grid, order: seq<(int, int)>)
    requires Shaped(snapshot) && CellsInBounds(order)
    requires forall x, y :: InBounds(x, y) ==> (x, y) in order
    ensures VisitAll(snapshot, snapshot, order) == Step(snapshot)
  {
    VisitAllFromCopy(snapshot, order);
    SameCells(VisitAll(snapshot, snapshot, order), Step(snapshot));
  }

  /** The order of the source's loops: rows outer, columns inner. */
  function ScanOrder(): (order: seq<(int, int)>)
    ensures |order| == Width * Height
    ensures CellsInBounds(order)
    ensures forall x, y :: InBounds(x, y) ==> order[y * Width + x] == (x, y)
  {
    seq(Width * Height, k requires 0 <= k < Width * Height => (k % Width, k / Width))
  }

  /** The source's visit order computes the same generation as Step. */
  lemma ScanOrderGivesStep(g: Grid)
    requires Shaped(g)
    ensures VisitAll(g, g, ScanOrder()) == Step(g)
  {
    var order := ScanOrder();
    forall x, y | InBounds(x, y)
      ensures (x, y) in order
    {
      assert order[y * Width + x] == (x, y);
    }
    AnyOrderGivesStep(g, order);
  }

  /** `next_generation` as loops: copy the grid, then for each row and each column
      read the count from the snapshot `g` and write the rule's value into the copy. */
  method NextGeneration(g: Grid) returns (r: Grid)
    requires Shaped(g)
    ensures r == Step(g)
  {
    r := g;
    var y := 0;
    while y < Height
      invariant 0 <= y <= Height
      invariant Shaped(r)
      invariant forall i, j :: InBounds(i, j) ==>
                  r[i][j] == (if j < y then NextCell(g, i, j) else g[i][j])
    {
      var x := 0;
      while x < Width
        invariant 0 <= x <= Width
        invariant Shaped(r)
        invariant forall i, j :: InBounds(i, j) ==>
                    r[i][j] == (if j < y || (j == y && i < x) then NextCell(g, i, j) else g[i][j])
      {
        var u := Rule(g[x][y], NeighbourCount(g, x, y));
        if u.Becomes? {
          r := Set(r, x, y, u.value);
        }
        x := x + 1;
      }
      y := y + 1;
    }
    SameCells(r, Step(g));
  }
}
