/**
 * Whole-grid recolouring shared by colour exclusion (src/app/page.tsx:1088-1104) and global colour
 * replacement (src/app/page.tsx:1715-1777): every non-external cell whose upper-cased colour is a
 * given hex becomes a given non-external cell, and the rewritten cells are counted.
 */
module Edits {
  import opened Outcome
  import opened Text
  import opened Cells
  import opened Stats

  /** A cell the recolouring for `hex` rewrites: inside the pattern, of that colour in any case. */
  predicate Matches(c: Cell, hex: string) {
    !c.isExternal && Upper(c.color) == hex
  }

  function RecolorCell(c: Cell, hex: string, to: Cell): Cell {
    if Matches(c, hex) then to else c
  }

  /** The number of cells the recolouring for `hex` rewrites. */
  function CountMatches(cells: seq<Cell>, hex: string): nat {
    if cells == [] then 0
    else CountMatches(cells[..|cells| - 1], hex) + (if Matches(cells[|cells| - 1], hex) then 1 else 0)
  }

  lemma {:induction false} CountMatchesAppend(a: seq<Cell>, b: seq<Cell>, hex: string)
    ensures CountMatches(a + b, hex) == CountMatches(a, hex) + CountMatches(b, hex)
  {
    if b == [] {
      assert a + b == a;
    } else {
      assert (a + b)[..|a + b| - 1] == a + b[..|b| - 1];
      CountMatchesAppend(a, b[..|b| - 1], hex);
    }
  }

  /** The `i` loop over one row: its matching cells become `to`, and `count` is their number. */
  method RecolorRow(row: seq<Cell>, hex: string, to: Cell) returns (row': seq<Cell>, count: nat)
    ensures |row'| == |row|
    ensures forall c :: 0 <= c < |row| ==> row'[c] == RecolorCell(row[c], hex, to)
    ensures count == CountMatches(row, hex)
  {
    row', count := row, 0;
    for c := 0 to |row|
      invariant |row'| == |row|
      invariant forall c' :: 0 <= c' < c ==> row'[c'] == RecolorCell(row[c'], hex, to)
      invariant forall c' :: c <= c' < |row| ==> row'[c'] == row[c']
      invariant count == CountMatches(row[..c], hex)
    {
      assert row[..c + 1][..c] == row[..c];
      if Matches(row'[c], hex) {
        row' := row'[c := to];
        count := count + 1;
      }
    }
    assert row[..|row|] == row;
  }

  /**
   * The `j`/`i` loops over the `M` x `N` grid: every matching cell becomes `to`, every other cell is
   * kept, and `count` is the number of matching cells.
   */
  method RecolorCells(g: Grid, m: nat, n: nat, hex: string, to: Cell) returns (h: Grid, count: nat)
    requires Rectangular(g, m, n)
    ensures Rectangular(h, m, n)
    ensures forall r, c :: 0 <= r < m && 0 <= c < n ==> h[r][c] == RecolorCell(g[r][c], hex, to)
    ensures count == CountMatches(Flatten(g), hex)
  {
    h, count := g, 0;
    for r := 0 to m
      invariant Rectangular(h, m, n)
      invariant forall r', c :: 0 <= r' < r && 0 <= c < n ==> h[r'][c] == RecolorCell(g[r'][c], hex, to)
      invariant forall r' :: r <= r' < m ==> h[r'] == g[r']
      invariant count == CountMatches(Flatten(g[..r]), hex)
    {
      var row, k := RecolorRow(h[r], hex, to);
      FlattenPrefix(g, r);
      CountMatchesAppend(Flatten(g[..r]), g[r], hex);
      h := h[r := row];
      count := count + k;
    }
    assert g[..m] == g;
  }

  /** Cells none of which match count zero matches. */
  lemma {:induction false} RowNoMatches(cells: seq<Cell>, hex: string)
    requires forall i :: 0 <= i < |cells| ==> !Matches(cells[i], hex)
    ensures CountMatches(cells, hex) == 0
  {
    if cells != [] {
      RowNoMatches(cells[..|cells| - 1], hex);
    }
  }

  lemma {:induction false} GridNoMatches(g: Grid, hex: string)
    requires forall r, c :: 0 <= r < |g| && 0 <= c < |g[r]| ==> !Matches(g[r][c], hex)
    ensures CountMatches(Flatten(g), hex) == 0
  {
    if g != [] {
      var init := g[..|g| - 1];
      forall r, c | 0 <= r < |init| && 0 <= c < |init[r]| ensures !Matches(init[r][c], hex) {
        assert init[r] == g[r];
      }
      GridNoMatches(init, hex);
      RowNoMatches(g[|g| - 1], hex);
      CountMatchesAppend(Flatten(init), g[|g| - 1], hex);
    }
  }

  /**
   * A recolouring to a cell of another colour leaves no cell of the old colour: a second
   * recolouring for the same colour rewrites nothing.
   */
  lemma RecolorRemovesColor(g: Grid, h: Grid, m: nat, n: nat, hex: string, to: Cell)
    requires Rectangular(g, m, n) && Rectangular(h, m, n)
    requires forall r, c :: 0 <= r < m && 0 <= c < n ==> h[r][c] == RecolorCell(g[r][c], hex, to)
    requires !Matches(to, hex)
    ensures CountMatches(Flatten(h), hex) == 0
  {
    GridNoMatches(h, hex);
  }

  /** What a global colour replacement leaves: the grid, the counts when the page has them, the total. */
  datatype Replaced = Replaced(grid: Grid, counts: Option<map<string, int>>, total: int, replaceCount: nat)

  /**
   * `handleColorReplace(sourceColor, targetColor)`: every non-external cell whose upper-cased
   * colour is the source's becomes the target colour (inside the pattern), and the number of such
   * cells is counted. Only when that number is positive are the grid replaced and, if the page
   * has counts, the counts and the total recounted; otherwise nothing changes.
   */
  method ReplaceColor(grid: Option<Grid>, dims: Option<Dims>, counts: Option<map<string, int>>, total: int,
                      source: Swatch, target: Swatch, transparentKey: string)
    returns (r: Option<Replaced>)
    requires grid.Some? && dims.Some? ==> Rectangular(grid.value, dims.value.m, dims.value.n)
    ensures grid.None? || dims.None? <==> r.None?
    ensures r.Some? ==>
      var g, m, n := grid.value, dims.value.m, dims.value.n;
      var hex := Upper(source.color);
      var x := r.value;
      x.replaceCount == CountMatches(Flatten(g), hex)
      && (x.replaceCount == 0 ==> x.grid == g && x.counts == counts && x.total == total)
      && (x.replaceCount > 0 ==>
        Rectangular(x.grid, m, n)
        && (forall r, c :: 0 <= r < m && 0 <= c < n ==>
              x.grid[r][c] == RecolorCell(g[r][c], hex, Cell(target.key, target.color, false)))
        && (counts.None? ==> x.counts.None? && x.total == total)
        && (counts.Some? ==>
              (x.counts.Some?
               && Tallies(x.counts.value, multiset(GridLabels(EditRule(transparentKey), x.grid)))
               && x.total == |GridLabels(EditRule(transparentKey), x.grid)|)))
  {
    if grid.None? || dims.None? {
      return None;
    }
    var g, m, n := grid.value, dims.value.m, dims.value.n;
    var hex := Upper(source.color);
    var h, replaceCount := RecolorCells(g, m, n, hex, Cell(target.key, target.color, false));
    if replaceCount == 0 {
      return Some(Replaced(g, counts, total, 0));
    }
    if counts.None? {
      return Some(Replaced(h, None, total, replaceCount));
    }
    var _, newCounts, newTotal := Recount(EditRule(transparentKey), h);
    return Some(Replaced(h, Some(newCounts), newTotal, replaceCount));
  }
}
