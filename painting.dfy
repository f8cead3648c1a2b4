/**
 * The single-cell editors of src/app/page.tsx: a click in manual colouring mode (1386-1444) and
 * the magnifier's pixel editor (`handleMagnifierPixelEdit`, 201-248). Both edit one cell of a copy
 * of the grid and update the counts by a delta instead of a recount.
 */
module Painting {
  import opened Outcome
  import opened Cells
  import opened Stats

  /** The cell a manual colouring click writes: the transparent cell, or the selected colour inside the pattern. */
  function PaintedCell(selected: Swatch, transparentKey: string, transparent: Cell): Cell {
    if selected.key == transparentKey then transparent else Cell(selected.key, selected.color, false)
  }

  /** What a single-cell edit leaves: the grid, the counts when the page has them, and the total. */
  datatype Painted = Painted(grid: Grid, counts: Option<map<string, int>>, total: int)

  /**
   * A manual colouring click on row `j`, column `i` with `selected`: the cell is replaced only when
   * the key or the external flag changes; then, when the page has counts, `ManualEditDelta`
   * updates them. Counts that were correct for the grid under the edit rule stay correct.
   */
  method ManualColor(g: Grid, m: nat, n: nat, j: nat, i: nat, selected: Swatch, transparentKey: string,
                     transparent: Cell, counts: Option<map<string, int>>, total: int)
    returns (p: Painted)
    requires Rectangular(g, m, n) && j < m && i < n
    ensures var next := PaintedCell(selected, transparentKey, transparent);
      var prev := g[j][i];
      if next.key != prev.key || next.isExternal != prev.isExternal then
        p.grid == SetCell(g, j, i, next)
        && (counts.None? ==> p.counts.None? && p.total == total)
        && (counts.Some? ==>
              var (c', t') := ManualEditDelta(counts.value, total, prev, next, transparentKey);
              p.counts == Some(c') && p.total == t')
      else p == Painted(g, counts, total)
    ensures counts.Some? && Tallies(counts.value, multiset(GridLabels(EditRule(transparentKey), g)))
            && total == |GridLabels(EditRule(transparentKey), g)|
            && (Counted(EditRule(transparentKey), g[j][i]) ==> g[j][i].color != "") ==>
      p.counts.Some? && Tallies(p.counts.value, multiset(GridLabels(EditRule(transparentKey), p.grid)))
      && p.total == |GridLabels(EditRule(transparentKey), p.grid)|
  {
    var next := PaintedCell(selected, transparentKey, transparent);
    var prev := g[j][i];
    if next.key == prev.key && next.isExternal == prev.isExternal {
      return Painted(g, counts, total);
    }
    var h := g[j := g[j][i := next]];
    if counts.None? {
      return Painted(h, None, total);
    }
    var (c', t') := ManualEditDelta(counts.value, total, prev, next, transparentKey);
    if Tallies(counts.value, multiset(GridLabels(EditRule(transparentKey), g)))
       && total == |GridLabels(EditRule(transparentKey), g)|
       && (Counted(EditRule(transparentKey), prev) ==> prev.color != "") {
      ManualEditDeltaConserves(g, j, i, next, counts.value, total, transparentKey);
    }
    return Painted(h, Some(c'), t');
  }

  /**
   * `handleMagnifierPixelEdit(row, col, colorData)`: the cell becomes the chosen colour (not
   * external); when the page has counts, `MagnifierDelta` updates them and the total is their sum.
   */
  method MagnifierEdit(grid: Option<Grid>, row: nat, col: nat, colorData: Swatch, counts: Option<map<string, int>>,
                       total: int)
    returns (p: Option<Painted>)
    requires grid.Some? ==> row < |grid.value| && col < |grid.value[row]|
    ensures grid.None? <==> p.None?
    ensures p.Some? ==>
      var g := grid.value;
      var next := Cell(colorData.key, colorData.color, false);
      p.value.grid == SetCell(g, row, col, next)
      && (counts.None? ==> p.value.counts.None? && p.value.total == total)
      && (counts.Some? ==>
            (p.value.counts == Some(MagnifierDelta(counts.value, g[row][col].key, next.key))
             && p.value.total == MapSum(p.value.counts.value)))
  {
    if grid.None? {
      return None;
    }
    var g := grid.value;
    var next := Cell(colorData.key, colorData.color, false);
    var h := g[row := g[row][col := next]];
    if counts.None? {
      return Some(Painted(h, None, total));
    }
    var c' := MagnifierDelta(counts.value, g[row][col].key, next.key);
    var t' := SumCounts(c');
    return Some(Painted(h, Some(c'), t'));
  }
}
