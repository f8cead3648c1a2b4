/**
 * The grid data model of src/app/page.tsx: cells (`MappedPixel`), palette colours, the M x N grid
 * as rows of cells, positions, 4-adjacency and the regions a flood fill can reach.
 */
module Cells {
  import opened HexColor

  /** A `MappedPixel`: the colour key, the hex colour and whether the cell lies outside the shape. */
  datatype Cell = Cell(key: string, color: string, isExternal: bool)

  /** A palette colour; registry colours use their hex value as key. */
  datatype PaletteColor = PaletteColor(key: string, hex: string, rgb: Rgb)

  /** A colour chosen in the UI: its key and its hex colour (`{key, color}`). */
  datatype Swatch = Swatch(key: string, color: string)

  /** Rows of cells, row-major: `grid[row][col]`. */
  type Grid = seq<seq<Cell>>

  /** `gridDimensions`: `N` columns and `M` rows. */
  datatype Dims = Dims(n: nat, m: nat)

  /** `M` rows of `N` cells each, as `gridDimensions` promises. */
  predicate Rectangular(g: Grid, m: nat, n: nat) {
    |g| == m && forall r :: 0 <= r < m ==> |g[r]| == n
  }

  /** `grid.flat()`: all cells in row-major order. */
  function Flatten(g: Grid): seq<Cell> {
    if g == [] then [] else Flatten(g[..|g| - 1]) + g[|g| - 1]
  }

  lemma FlattenPrefix(g: Grid, r: nat)
    requires r < |g|
    ensures Flatten(g[..r + 1]) == Flatten(g[..r]) + g[r]
  {
    assert g[..r + 1][..r] == g[..r];
  }

  lemma {:induction false} FlattenAppend(a: Grid, b: Grid)
    ensures Flatten(a + b) == Flatten(a) + Flatten(b)
  {
    if b != [] {
      assert (a + b)[..|a + b| - 1] == a + b[..|b| - 1];
      assert b[..|b| - 1] + [b[|b| - 1]] == b;
      FlattenAppend(a, b[..|b| - 1]);
    } else {
      assert a + b == a;
    }
  }

  /** A grid splits around any one of its rows. */
  lemma FlattenAround(g: Grid, r: nat)
    requires r < |g|
    ensures Flatten(g) == Flatten(g[..r]) + g[r] + Flatten(g[r + 1..])
  {
    assert g == g[..r + 1] + g[r + 1..];
    FlattenAppend(g[..r + 1], g[r + 1..]);
    FlattenPrefix(g, r);
  }

  /** `grid[r][c] = x` on a copy. */
  function SetCell(g: Grid, r: nat, c: nat, x: Cell): (h: Grid)
    requires r < |g| && c < |g[r]|
    ensures |h| == |g| && forall i :: 0 <= i < |g| ==> |h[i]| == |g[i]|
  {
    g[r := g[r][c := x]]
  }

  datatype Pos = Pos(row: int, col: int)

  predicate InGrid(g: Grid, p: Pos) {
    0 <= p.row < |g| && 0 <= p.col < |g[p.row]|
  }

  function At(g: Grid, p: Pos): Cell
    requires InGrid(g, p)
  {
    g[p.row][p.col]
  }

  /** The four neighbours in the order the flood fill pushes them: up, down, left, right. */
  function Neighbours(p: Pos): seq<Pos> {
    [Pos(p.row - 1, p.col), Pos(p.row + 1, p.col), Pos(p.row, p.col - 1), Pos(p.row, p.col + 1)]
  }

  predicate Adjacent(p: Pos, q: Pos) {
    q in Neighbours(p)
  }

  lemma AdjacentSymmetric(p: Pos, q: Pos)
    ensures Adjacent(p, q) <==> Adjacent(q, p)
  {
  }

  /** A cell a flood for `key` may enter: inside the grid, not external, and holding `key`. */
  predicate Target(g: Grid, key: string, p: Pos) {
    InGrid(g, p) && !At(g, p).isExternal && At(g, p).key == key
  }

  /** A 4-connected walk through target cells. */
  ghost predicate IsPath(g: Grid, key: string, path: seq<Pos>) {
    |path| > 0
    && (forall i :: 0 <= i < |path| ==> Target(g, key, path[i]))
    && (forall i :: 0 < i < |path| ==> Adjacent(path[i - 1], path[i]))
  }

  /** `p` can be reached from one of `seeds` by a walk through target cells. */
  ghost predicate Reachable(g: Grid, key: string, seeds: set<Pos>, p: Pos) {
    exists path :: IsPath(g, key, path) && path[0] in seeds && path[|path| - 1] == p
  }

  /** Every target neighbour of a member of `s` is in `s`. */
  ghost predicate Closed(g: Grid, key: string, s: set<Pos>) {
    forall p, i {:trigger Neighbours(p)[i]} :: p in s && 0 <= i < 4 && Target(g, key, Neighbours(p)[i]) ==> Neighbours(p)[i] in s
  }

  /** A seed that is itself a target cell is reachable. */
  lemma SeedReachable(g: Grid, key: string, seeds: set<Pos>, p: Pos)
    requires p in seeds && Target(g, key, p)
    ensures Reachable(g, key, seeds, p)
  {
    assert IsPath(g, key, [p]);
  }

  /** A target neighbour of a reachable cell is reachable. */
  lemma StepReachable(g: Grid, key: string, seeds: set<Pos>, p: Pos, q: Pos)
    requires Reachable(g, key, seeds, p) && Adjacent(p, q) && Target(g, key, q)
    ensures Reachable(g, key, seeds, q)
  {
    var path :| IsPath(g, key, path) && path[0] in seeds && path[|path| - 1] == p;
    var longer := path + [q];
    assert IsPath(g, key, longer);
  }

  /** A closed set that holds the target seeds holds everything reachable from them. */
  lemma ClosedHoldsReachable(g: Grid, key: string, seeds: set<Pos>, s: set<Pos>, p: Pos)
    requires Closed(g, key, s)
    requires forall q :: q in seeds && Target(g, key, q) ==> q in s
    requires Reachable(g, key, seeds, p)
    ensures p in s
  {
    var path :| IsPath(g, key, path) && path[0] in seeds && path[|path| - 1] == p;
    var i := 0;
    while i < |path| - 1
      invariant 0 <= i < |path| && path[i] in s
    {
      var k :| 0 <= k < 4 && Neighbours(path[i])[k] == path[i + 1];
      i := i + 1;
    }
  }

  /** Reachable cells are target cells. */
  lemma ReachableIsTarget(g: Grid, key: string, seeds: set<Pos>, p: Pos)
    requires Reachable(g, key, seeds, p)
    ensures Target(g, key, p)
  {
  }
}
