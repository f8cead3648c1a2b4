/**
 * The region edits of src/app/page.tsx: the one-click flood erase (`floodFillErase`, 1257-1322) and
 * the automatic background removal (`handleAutoRemoveBackground`, 1154-1250).
 *
 * Both work on a copy of the grid with a stack of positions and a visited mark per cell; a cell
 * the flood reaches becomes the transparent cell. The results are stated against `Reachable`: the
 * cells a 4-connected walk through non-external cells of the target key reaches from the seeds.
 */
module Regions {
  import opened Outcome
  import opened Cells
  import opened Stats

  /** The positions of an `M` x `N` grid. */
  function AllPositions(m: nat, n: nat): set<Pos> {
    set r: int, c: int | 0 <= r < m && 0 <= c < n :: Pos(r, c)
  }

  lemma InAllPositions(m: nat, n: nat, p: Pos)
    requires 0 <= p.row < m && 0 <= p.col < n
    ensures p in AllPositions(m, n)
  {
    assert p == Pos(p.row, p.col);
  }

  /** Adding a new position of the grid to `visited` shrinks the unvisited part by one. */
  lemma VisitShrinks(all: set<Pos>, visited: set<Pos>, q: Pos)
    requires q in all && q !in visited
    ensures |all - (visited + {q})| + 1 == |all - visited|
  {
    assert all - visited == (all - (visited + {q})) + {q};
  }

  /** The cell a flood reaching `p` rewrites: the transparent cell where `p` is reachable. */
  ghost function Flooded(g: Grid, key: string, seeds: set<Pos>, transparent: Cell, p: Pos): Cell
    requires InGrid(g, p)
  {
    if Reachable(g, key, seeds, p) then transparent else At(g, p)
  }

  /** `x` may be pushed by the erase flood from `start`: the start itself or a neighbour of a reachable cell. */
  ghost predicate Candidate(g: Grid, key: string, start: Pos, x: Pos) {
    x == start || exists p :: Reachable(g, key, {start}, p) && Adjacent(p, x)
  }

  /** A candidate that is a target cell is reachable. */
  lemma CandidateReachable(g: Grid, key: string, start: Pos, x: Pos)
    requires Candidate(g, key, start, x) && Target(g, key, x)
    ensures Reachable(g, key, {start}, x)
  {
    if x == start {
      SeedReachable(g, key, {start}, x);
    } else {
      var p :| Reachable(g, key, {start}, p) && Adjacent(p, x);
      StepReachable(g, key, {start}, p, x);
    }
  }

  /** The copy holds the transparent cell exactly at the visited positions. */
  ghost predicate ErasedAt(g: Grid, h: Grid, m: nat, n: nat, transparent: Cell, visited: set<Pos>) {
    Rectangular(g, m, n) && Rectangular(h, m, n)
    && forall r, c :: 0 <= r < m && 0 <= c < n ==> h[r][c] == if Pos(r, c) in visited then transparent else g[r][c]
  }

  /** Every target neighbour of a visited cell is visited or still on the stack, and so is the start. */
  ghost predicate EraseFrontier(g: Grid, key: string, start: Pos, visited: set<Pos>, stack: seq<Pos>) {
    (Target(g, key, start) ==> start in visited || start in stack)
    && (forall p, i {:trigger Neighbours(p)[i]} :: p in visited && 0 <= i < 4 && Target(g, key, Neighbours(p)[i]) ==>
          Neighbours(p)[i] in visited || Neighbours(p)[i] in stack)
  }

  /** The loop state of the erase flood. */
  ghost predicate EraseInv(g: Grid, h: Grid, m: nat, n: nat, key: string, start: Pos, transparent: Cell,
                           visited: set<Pos>, stack: seq<Pos>) {
    ErasedAt(g, h, m, n, transparent, visited)
    && visited <= AllPositions(m, n)
    && (forall p :: p in visited ==> Reachable(g, key, {start}, p))
    && (forall x :: x in stack ==> Candidate(g, key, start, x))
    && EraseFrontier(g, key, start, visited, stack)
  }

  /** Popping a position the flood skips keeps the loop state. */
  lemma EraseSkipKeeps(g: Grid, h: Grid, m: nat, n: nat, key: string, start: Pos, transparent: Cell,
                       visited: set<Pos>, stack: seq<Pos>, rest: seq<Pos>, q: Pos)
    requires EraseInv(g, h, m, n, key, start, transparent, visited, stack)
    requires stack == rest + [q]
    requires q in visited || !Target(g, key, q)
    ensures EraseInv(g, h, m, n, key, start, transparent, visited, rest)
  {
    assert forall x :: x in rest ==> x in rest + [q];
    forall p, i | p in visited && 0 <= i < 4 && Target(g, key, Neighbours(p)[i])
      ensures Neighbours(p)[i] in visited || Neighbours(p)[i] in rest
    {
      assert Neighbours(p)[i] in visited || Neighbours(p)[i] in rest + [q];
    }
  }

  /** Erasing a reachable unvisited target and pushing its neighbours keeps the loop state. */
  lemma EraseVisitKeeps(g: Grid, h: Grid, m: nat, n: nat, key: string, start: Pos, transparent: Cell,
                        visited: set<Pos>, stack: seq<Pos>, rest: seq<Pos>, q: Pos)
    requires EraseInv(g, h, m, n, key, start, transparent, visited, stack)
    requires stack == rest + [q]
    requires q !in visited && Target(g, key, q)
    ensures EraseInv(g, h[q.row := h[q.row][q.col := transparent]], m, n, key, start, transparent,
                     visited + {q}, rest + Neighbours(q))
  {
    CandidateReachable(g, key, start, q);
    InAllPositions(|g|, |g[q.row]|, q);
    EraseCell(g, h, m, n, transparent, visited, q);
    EraseVisitCandidates(g, key, start, rest, q);
    EraseVisitFrontier(g, key, start, visited, rest, q);
  }

  /** An unvisited cell of the copy is the original cell. */
  lemma ErasedUnvisited(g: Grid, h: Grid, m: nat, n: nat, transparent: Cell, visited: set<Pos>, q: Pos)
    requires ErasedAt(g, h, m, n, transparent, visited) && 0 <= q.row < m && 0 <= q.col < n && q !in visited
    ensures InGrid(g, q) && h[q.row][q.col] == g[q.row][q.col]
  {
    assert q == Pos(q.row, q.col);
  }

  /** Erasing one more cell of the copy. */
  lemma EraseCell(g: Grid, h: Grid, m: nat, n: nat, transparent: Cell, visited: set<Pos>, q: Pos)
    requires ErasedAt(g, h, m, n, transparent, visited) && 0 <= q.row < m && 0 <= q.col < n
    ensures ErasedAt(g, h[q.row := h[q.row][q.col := transparent]], m, n, transparent, visited + {q})
  {
    var h' := h[q.row := h[q.row][q.col := transparent]];
    forall r, c | 0 <= r < m && 0 <= c < n
      ensures h'[r][c] == if Pos(r, c) in visited + {q} then transparent else g[r][c]
    {
      if r == q.row && c == q.col {
        assert h'[r][c] == transparent;
      } else {
        assert h'[r][c] == h[r][c];
      }
    }
  }

  lemma EraseVisitCandidates(g: Grid, key: string, start: Pos, rest: seq<Pos>, q: Pos)
    requires forall x :: x in rest + [q] ==> Candidate(g, key, start, x)
    requires Reachable(g, key, {start}, q)
    ensures forall x :: x in rest + Neighbours(q) ==> Candidate(g, key, start, x)
  {
    forall x | x in rest + Neighbours(q)
      ensures Candidate(g, key, start, x)
    {
      if x in Neighbours(q) {
        assert Adjacent(q, x);
      } else {
        assert x in rest + [q];
      }
    }
  }

  lemma EraseVisitFrontier(g: Grid, key: string, start: Pos, visited: set<Pos>, rest: seq<Pos>, q: Pos)
    requires EraseFrontier(g, key, start, visited, rest + [q])
    ensures EraseFrontier(g, key, start, visited + {q}, rest + Neighbours(q))
  {
    var visited' := visited + {q};
    var stack' := rest + Neighbours(q);
    forall p, i | p in visited' && 0 <= i < 4 && Target(g, key, Neighbours(p)[i])
      ensures Neighbours(p)[i] in visited' || Neighbours(p)[i] in stack'
    {
      if p == q {
        assert Neighbours(p)[i] in Neighbours(q);
      } else {
        assert Neighbours(p)[i] in visited || Neighbours(p)[i] in rest + [q];
      }
    }
    assert Target(g, key, start) ==> start in visited || start in rest + [q];
  }

  /** One pop of the erase flood: skip an out-of-range, visited or non-target position, else erase it and push its neighbours. */
  method EraseStep(g: Grid, h: Grid, m: nat, n: nat, key: string, start: Pos, transparent: Cell,
                   visited: set<Pos>, stack: seq<Pos>)
    returns (h': Grid, visited': set<Pos>, stack': seq<Pos>)
    requires EraseInv(g, h, m, n, key, start, transparent, visited, stack) && stack != []
    ensures EraseInv(g, h', m, n, key, start, transparent, visited', stack')
    ensures visited <= visited'
    ensures visited' == visited ==> |stack'| < |stack|
    ensures visited' != visited ==> |AllPositions(m, n) - visited'| < |AllPositions(m, n) - visited|
  {
    var q := stack[|stack| - 1];
    var rest := stack[..|stack| - 1];
    assert stack == rest + [q];
    h', visited', stack' := h, visited, rest;
    if q.row < 0 || q.row >= m || q.col < 0 || q.col >= n || q in visited {
      EraseSkipKeeps(g, h, m, n, key, start, transparent, visited, stack, rest, q);
      return;
    }
    ErasedUnvisited(g, h, m, n, transparent, visited, q);
    if h[q.row][q.col].isExternal || h[q.row][q.col].key != key {
      EraseSkipKeeps(g, h, m, n, key, start, transparent, visited, stack, rest, q);
      return;
    }
    InAllPositions(m, n, q);
    VisitShrinks(AllPositions(m, n), visited, q);
    EraseVisitKeeps(g, h, m, n, key, start, transparent, visited, stack, rest, q);
    visited' := visited + {q};
    h' := h[q.row := h[q.row][q.col := transparent]];
    stack' := rest + Neighbours(q);
  }

  /** With the stack empty, the visited cells are exactly the reachable ones. */
  lemma EraseDone(g: Grid, h: Grid, m: nat, n: nat, key: string, start: Pos, transparent: Cell, visited: set<Pos>)
    requires EraseInv(g, h, m, n, key, start, transparent, visited, [])
    ensures forall r, c :: 0 <= r < m && 0 <= c < n ==> h[r][c] == Flooded(g, key, {start}, transparent, Pos(r, c))
  {
    assert Closed(g, key, visited);
    assert forall q :: q in {start} && Target(g, key, q) ==> q in visited;
    forall r, c | 0 <= r < m && 0 <= c < n
      ensures h[r][c] == Flooded(g, key, {start}, transparent, Pos(r, c))
    {
      if Reachable(g, key, {start}, Pos(r, c)) {
        ClosedHoldsReachable(g, key, {start}, visited, Pos(r, c));
      }
    }
  }

  /**
   * `floodFillErase(startRow, startCol, targetKey)` on a grid: exactly the cells reachable from the
   * start become the transparent cell.
   */
  method FloodFillErase(g: Grid, m: nat, n: nat, start: Pos, key: string, transparent: Cell) returns (h: Grid)
    requires Rectangular(g, m, n)
    ensures Rectangular(h, m, n)
    ensures forall r, c :: 0 <= r < m && 0 <= c < n ==> h[r][c] == Flooded(g, key, {start}, transparent, Pos(r, c))
  {
    h := g;
    var visited: set<Pos> := {};
    var stack := [start];
    while stack != []
      invariant EraseInv(g, h, m, n, key, start, transparent, visited, stack)
      decreases |AllPositions(m, n) - visited|, |stack|
    {
      h, visited, stack := EraseStep(g, h, m, n, key, start, transparent, visited, stack);
    }
    EraseDone(g, h, m, n, key, start, transparent, visited);
  }

  /** What a region edit leaves: the new grid, the counts when the page has them, and the total. */
  datatype Recounted = Recounted(grid: Grid, counts: Option<map<string, int>>, total: int)

  /**
   * `floodFillErase(startRow, startCol, targetKey)`: the flood on a copy of the grid, then, when the
   * page has counts, a recount of the cells inside the pattern that are not transparent, by colour.
   */
  method EraseRegion(grid: Option<Grid>, dims: Option<Dims>, counts: Option<map<string, int>>, total: int,
                     start: Pos, key: string, transparentKey: string, transparent: Cell)
    returns (r: Option<Recounted>)
    requires grid.Some? && dims.Some? ==> Rectangular(grid.value, dims.value.m, dims.value.n)
    ensures grid.None? || dims.None? <==> r.None?
    ensures r.Some? ==>
      var g, m, n, x := grid.value, dims.value.m, dims.value.n, r.value;
      Rectangular(x.grid, m, n)
      && (forall r, c :: 0 <= r < m && 0 <= c < n ==> x.grid[r][c] == Flooded(g, key, {start}, transparent, Pos(r, c)))
      && (counts.None? ==> x.counts.None? && x.total == total)
      && (counts.Some? ==>
            (x.counts.Some?
             && Tallies(x.counts.value, multiset(GridLabels(EditRule(transparentKey), x.grid)))
             && x.total == |GridLabels(EditRule(transparentKey), x.grid)|))
  {
    if grid.None? || dims.None? {
      return None;
    }
    var h := FloodFillErase(grid.value, dims.value.m, dims.value.n, start, key, transparent);
    if counts.None? {
      return Some(Recounted(h, None, total));
    }
    var _, newCounts, newTotal := Recount(EditRule(transparentKey), h);
    return Some(Recounted(h, Some(newCounts), newTotal));
  }

  /** The erase-mode click's test: a cell of the grid inside the pattern with a key that is not transparent. */
  predicate Erasable(g: Grid, m: nat, n: nat, j: int, i: int, transparentKey: string)
    requires Rectangular(g, m, n)
  {
    0 <= i < n && 0 <= j < m && !g[j][i].isExternal && g[j][i].key != "" && g[j][i].key != transparentKey
  }

  /**
   * A click in erase mode on column `i`, row `j`: on an erasable cell the region of its key around
   * it is erased and erase mode ends (`eraseMode` false); anywhere else nothing changes.
   */
  method EraseClick(g: Grid, m: nat, n: nat, counts: Option<map<string, int>>, total: int, j: int, i: int,
                    transparentKey: string, transparent: Cell)
    returns (r: Option<Recounted>, eraseMode: bool)
    requires Rectangular(g, m, n)
    ensures eraseMode <==> !Erasable(g, m, n, j, i, transparentKey)
    ensures r.Some? <==> Erasable(g, m, n, j, i, transparentKey)
    ensures r.Some? ==>
      var key := g[j][i].key;
      Rectangular(r.value.grid, m, n)
      && r.value.grid[j][i] == transparent
      && (forall r', c :: 0 <= r' < m && 0 <= c < n ==>
           r.value.grid[r'][c] == Flooded(g, key, {Pos(j, i)}, transparent, Pos(r', c)))
      && (counts.None? ==> r.value.counts.None? && r.value.total == total)
      && (counts.Some? ==>
            r.value.counts.Some?
            && Tallies(r.value.counts.value, multiset(GridLabels(EditRule(transparentKey), r.value.grid)))
            && r.value.total == |GridLabels(EditRule(transparentKey), r.value.grid)|)
  {
    if !Erasable(g, m, n, j, i, transparentKey) {
      return None, true;
    }
    var start := Pos(j, i);
    SeedReachable(g, g[j][i].key, {start}, start);
    r := EraseRegion(Some(g), Some(Dims(n, m)), counts, total, start, g[j][i].key, transparentKey, transparent);
    eraseMode := false;
  }

  // ---------------------------------------------------------------- background removal

  /** Columns `0..k-1` of the top row and, when there are two rows or more, of the bottom row, column by column. */
  function TopBottom(m: nat, k: nat): seq<Pos> {
    if k == 0 then []
    else TopBottom(m, k - 1) + [Pos(0, k - 1)] + (if m > 1 then [Pos(m - 1, k - 1)] else [])
  }

  /** Rows `1..k-1` of the left column and, when there are two columns or more, of the right column. */
  function Sides(n: nat, k: nat): seq<Pos> {
    if k <= 1 then []
    else Sides(n, k - 1) + [Pos(k - 1, 0)] + (if n > 1 then [Pos(k - 1, n - 1)] else [])
  }

  /** The positions the two border loops visit, in their order (`countBorderCell` and `pushIfTarget` alike). */
  function BorderPositions(m: nat, n: nat): seq<Pos> {
    TopBottom(m, n) + Sides(n, if m >= 1 then m - 1 else 0)
  }

  predicate OnBorder(m: nat, n: nat, p: Pos) {
    0 <= p.row < m && 0 <= p.col < n && (p.row == 0 || p.row == m - 1 || p.col == 0 || p.col == n - 1)
  }

  lemma {:induction false} TopBottomMembers(m: nat, n: nat, k: nat, p: Pos)
    requires m >= 1 && k <= n
    ensures p in TopBottom(m, k) <==> 0 <= p.col < k && (p.row == 0 || p.row == m - 1)
  {
    if k > 0 {
      TopBottomMembers(m, n, k - 1, p);
    }
  }

  lemma {:induction false} SidesMembers(m: nat, n: nat, k: nat, p: Pos)
    requires n >= 1 && k <= m
    ensures p in Sides(n, k) <==> 1 <= p.row < k && (p.col == 0 || p.col == n - 1)
  {
    if k > 1 {
      SidesMembers(m, n, k - 1, p);
    }
  }

  /** The border loops visit exactly the cells of the outermost rows and columns (each grid cell is either visited or inner). */
  lemma BorderPositionsExact(m: nat, n: nat, p: Pos)
    requires 0 <= p.row < m && 0 <= p.col < n
    ensures p in BorderPositions(m, n) <==> OnBorder(m, n, p)
  {
    TopBottomMembers(m, n, n, p);
    SidesMembers(m, n, m - 1, p);
  }

  /** The border cells that exist, in loop order; `mappedPixelData[row]?.[col]` skips the others. */
  function BorderCells(g: Grid, ps: seq<Pos>): seq<Cell> {
    if ps == [] then []
    else
      var last := ps[|ps| - 1];
      BorderCells(g, ps[..|ps| - 1]) + (if InGrid(g, last) then [At(g, last)] else [])
  }

  /** The keys `countBorderCell` counts, in loop order. */
  function BorderLabels(g: Grid, m: nat, n: nat, transparentKey: string): seq<string> {
    Labels(BorderRule(transparentKey), BorderCells(g, BorderPositions(m, n)))
  }

  /** A key the border tally holds labels a border position that is a target cell for that key. */
  lemma {:induction false} BorderSeed(g: Grid, ps: seq<Pos>, transparentKey: string, x: string)
    requires x in Labels(BorderRule(transparentKey), BorderCells(g, ps))
    ensures exists i :: 0 <= i < |ps| && Target(g, x, ps[i])
  {
    var rule := BorderRule(transparentKey);
    var init := ps[..|ps| - 1];
    var last := ps[|ps| - 1];
    var tail := if InGrid(g, last) then [At(g, last)] else [];
    LabelsAppend(rule, BorderCells(g, init), tail);
    if x in Labels(rule, BorderCells(g, init)) {
      BorderSeed(g, init, transparentKey, x);
      var i :| 0 <= i < |init| && Target(g, x, init[i]);
      assert ps[i] == init[i];
    } else {
      assert tail == [At(g, last)] && Target(g, x, last);
      assert ps[|ps| - 1] == last;
    }
  }

  lemma FlattenSingle(row: seq<Cell>)
    ensures Flatten([row]) == row
  {
    assert [row][..0] == [];
  }

  /** Entry `i` of `order` has the largest count, and no earlier entry has as large a count. */
  predicate FirstMaxAt(order: seq<string>, counts: map<string, int>, i: int) {
    (forall j :: 0 <= j < |order| ==> order[j] in counts)
    && 0 <= i < |order|
    && (forall j :: 0 <= j < |order| ==> counts[order[j]] <= counts[order[i]])
    && (forall j :: 0 <= j < i ==> counts[order[j]] < counts[order[i]])
  }

  /** The `borderCounts.forEach` loop: the first key, in insertion order, with the largest count. */
  method MostFrequent(order: seq<string>, counts: map<string, int>) returns (key: string)
    requires forall j :: 0 <= j < |order| ==> order[j] in counts && counts[order[j]] >= 0
    ensures order == [] ==> key == ""
    ensures order != [] ==> exists i :: FirstMaxAt(order, counts, i) && order[i] == key
  {
    key := "";
    var maxCount := -1;
    ghost var best := 0;
    for k := 0 to |order|
      invariant k == 0 ==> key == "" && maxCount == -1
      invariant k > 0 ==> 0 <= best < k && order[best] == key && maxCount == counts[key]
      invariant k > 0 ==> forall j :: 0 <= j < k ==> counts[order[j]] <= maxCount
      invariant k > 0 ==> forall j :: 0 <= j < best ==> counts[order[j]] < maxCount
    {
      if counts[order[k]] > maxCount {
        maxCount := counts[order[k]];
        key := order[k];
        best := k;
      }
    }
    if order != [] {
      assert FirstMaxAt(order, counts, best);
    }
  }

  function Members(stack: seq<Pos>): set<Pos> {
    set x | x in stack
  }

  /** `pushIfTarget`'s test: in range, not visited, not external and holding the target key. */
  predicate Pushable(h: Grid, m: nat, n: nat, key: string, visited: set<Pos>, p: Pos)
    requires Rectangular(h, m, n)
  {
    0 <= p.row < m && 0 <= p.col < n && p !in visited && !h[p.row][p.col].isExternal && h[p.row][p.col].key == key
  }

  /** `pushIfTarget(row, col)`: a pushable position is marked visited and pushed. */
  method PushIfTarget(h: Grid, m: nat, n: nat, key: string, visited: set<Pos>, stack: seq<Pos>, p: Pos)
    returns (visited': set<Pos>, stack': seq<Pos>)
    requires Rectangular(h, m, n)
    ensures Pushable(h, m, n, key, visited, p) ==> visited' == visited + {p} && stack' == stack + [p]
    ensures !Pushable(h, m, n, key, visited, p) ==> visited' == visited && stack' == stack
  {
    visited', stack' := visited, stack;
    if p.row < 0 || p.row >= m || p.col < 0 || p.col >= n || p in visited {
      return;
    }
    var cell := h[p.row][p.col];
    if cell.isExternal || cell.key != key {
      return;
    }
    visited' := visited + {p};
    stack' := stack + [p];
  }

  /**
   * The state of the background flood, where a position is marked visited when it is pushed: the
   * visited cells are reachable, the stack holds visited cells, the visited cells off the
   * stack are erased, and every other cell is as before.
   */
  ghost predicate FillCore(g: Grid, h: Grid, m: nat, n: nat, key: string, seeds: set<Pos>, transparent: Cell,
                           visited: set<Pos>, stack: seq<Pos>) {
    Rectangular(g, m, n)
    && visited <= AllPositions(m, n)
    && (forall p :: p in visited ==> Reachable(g, key, seeds, p))
    && (forall x :: x in stack ==> x in visited)
    && FillErased(g, h, m, n, transparent, visited, stack)
  }

  /** The visited cells off the stack hold the transparent cell; the unvisited cells are as before. */
  ghost predicate FillErased(g: Grid, h: Grid, m: nat, n: nat, transparent: Cell, visited: set<Pos>, stack: seq<Pos>) {
    Rectangular(g, m, n) && Rectangular(h, m, n)
    && (forall r, c :: 0 <= r < m && 0 <= c < n && Pos(r, c) !in visited ==> h[r][c] == g[r][c])
    && (forall r, c :: 0 <= r < m && 0 <= c < n && Pos(r, c) in visited && Pos(r, c) !in stack ==> h[r][c] == transparent)
  }

  /** Every target neighbour of an erased cell outside `except` is visited. */
  ghost predicate FillFrontier(g: Grid, key: string, visited: set<Pos>, stack: seq<Pos>, except: set<Pos>) {
    forall p, i {:trigger Neighbours(p)[i]} ::
      (p in visited && p !in stack && p !in except && 0 <= i < 4 && Target(g, key, Neighbours(p)[i])) ==>
        Neighbours(p)[i] in visited
  }

  /** A push keeps the flood state and covers the position when it is a target cell. */
  lemma PushKeeps(g: Grid, h: Grid, m: nat, n: nat, key: string, seeds: set<Pos>, transparent: Cell,
                  visited: set<Pos>, stack: seq<Pos>, except: set<Pos>, p: Pos, visited': set<Pos>, stack': seq<Pos>)
    requires FillCore(g, h, m, n, key, seeds, transparent, visited, stack)
    requires FillFrontier(g, key, visited, stack, except)
    requires Target(g, key, p) ==> Reachable(g, key, seeds, p)
    requires Pushable(h, m, n, key, visited, p) ==> visited' == visited + {p} && stack' == stack + [p]
    requires !Pushable(h, m, n, key, visited, p) ==> visited' == visited && stack' == stack
    ensures FillCore(g, h, m, n, key, seeds, transparent, visited', stack')
    ensures FillFrontier(g, key, visited', stack', except)
    ensures Target(g, key, p) ==> p in visited'
    ensures visited <= visited'
    ensures |AllPositions(m, n) - visited'| + |stack'| == |AllPositions(m, n) - visited| + |stack|
  {
    if Pushable(h, m, n, key, visited, p) {
      PushedIsTarget(g, h, m, n, key, seeds, transparent, visited, stack, p);
      InAllPositions(m, n, p);
      VisitShrinks(AllPositions(m, n), visited, p);
      PushedCore(g, h, m, n, key, seeds, transparent, visited, stack, p);
      PushedFrontier(g, key, visited, stack, except, p);
    } else if Target(g, key, p) {
      TargetPushable(g, h, m, n, key, seeds, transparent, visited, stack, p);
    }
  }

  /** A pushable position is a target cell of the original grid: unvisited cells are unchanged. */
  lemma PushedIsTarget(g: Grid, h: Grid, m: nat, n: nat, key: string, seeds: set<Pos>, transparent: Cell,
                       visited: set<Pos>, stack: seq<Pos>, p: Pos)
    requires FillCore(g, h, m, n, key, seeds, transparent, visited, stack)
    requires Pushable(h, m, n, key, visited, p)
    ensures Target(g, key, p)
  {
    assert p == Pos(p.row, p.col);
  }

  /** A target cell of the original grid is visited already or pushable. */
  lemma TargetPushable(g: Grid, h: Grid, m: nat, n: nat, key: string, seeds: set<Pos>, transparent: Cell,
                       visited: set<Pos>, stack: seq<Pos>, p: Pos)
    requires FillCore(g, h, m, n, key, seeds, transparent, visited, stack)
    requires Target(g, key, p)
    ensures p in visited || Pushable(h, m, n, key, visited, p)
  {
    if p !in visited {
      assert p == Pos(p.row, p.col);
    }
  }

  lemma PushedCore(g: Grid, h: Grid, m: nat, n: nat, key: string, seeds: set<Pos>, transparent: Cell,
                   visited: set<Pos>, stack: seq<Pos>, p: Pos)
    requires FillCore(g, h, m, n, key, seeds, transparent, visited, stack)
    requires p !in visited && p in AllPositions(m, n) && Reachable(g, key, seeds, p)
    ensures FillCore(g, h, m, n, key, seeds, transparent, visited + {p}, stack + [p])
  {
    var stack' := stack + [p];
    assert forall x :: x in stack' <==> x in stack || x == p;
  }

  lemma PushedFrontier(g: Grid, key: string, visited: set<Pos>, stack: seq<Pos>, except: set<Pos>, p: Pos)
    requires FillFrontier(g, key, visited, stack, except)
    ensures FillFrontier(g, key, visited + {p}, stack + [p], except)
  {
    forall q, i | q in visited + {p} && q !in stack + [p] && q !in except && 0 <= i < 4 && Target(g, key, Neighbours(q)[i])
      ensures Neighbours(q)[i] in visited + {p}
    {
      assert q in visited && q !in stack;
    }
  }

  /** The background flood's state at the head of its loop, with the seeds already pushed. */
  ghost predicate FillInv(g: Grid, h: Grid, m: nat, n: nat, key: string, seeds: set<Pos>, transparent: Cell,
                          visited: set<Pos>, stack: seq<Pos>) {
    FillCore(g, h, m, n, key, seeds, transparent, visited, stack)
    && FillFrontier(g, key, visited, stack, {})
    && (forall s :: s in seeds && Target(g, key, s) ==> s in visited)
  }

  /** Popping a cell: it is erased and its four neighbours are offered to `pushIfTarget`. */
  method FillStep(g: Grid, h: Grid, m: nat, n: nat, key: string, ghost seeds: set<Pos>, transparent: Cell,
                  visited: set<Pos>, stack: seq<Pos>)
    returns (h': Grid, visited': set<Pos>, stack': seq<Pos>)
    requires FillInv(g, h, m, n, key, seeds, transparent, visited, stack) && stack != []
    ensures FillInv(g, h', m, n, key, seeds, transparent, visited', stack')
    ensures |AllPositions(m, n) - visited'| + |stack'| < |AllPositions(m, n) - visited| + |stack|
  {
    var q := stack[|stack| - 1];
    var rest := stack[..|stack| - 1];
    PopKeeps(g, h, m, n, key, seeds, transparent, visited, stack);
    h' := h[q.row := h[q.row][q.col := transparent]];
    visited', stack' := visited, rest;
    var nb := Neighbours(q);
    for i := 0 to 4
      invariant NeighbourInv(g, h', m, n, key, seeds, transparent, visited, stack, q, i, visited', stack')
    {
      visited', stack' := PushNeighbour(g, h', m, n, key, seeds, transparent, visited, stack, q, i, visited', stack');
    }
    assert FillFrontier(g, key, visited', stack', {});
  }

  /** The state while the neighbours of the popped cell `q` are offered, after the first `i` of them. */
  ghost predicate NeighbourInv(g: Grid, h: Grid, m: nat, n: nat, key: string, seeds: set<Pos>, transparent: Cell,
                               visited0: set<Pos>, stack0: seq<Pos>, q: Pos, i: nat, visited: set<Pos>, stack: seq<Pos>) {
    i <= 4
    && FillCore(g, h, m, n, key, seeds, transparent, visited, stack)
    && FillFrontier(g, key, visited, stack, {q})
    && (forall s :: s in seeds && Target(g, key, s) ==> s in visited)
    && q in visited && Reachable(g, key, seeds, q)
    && (forall j :: 0 <= j < i && Target(g, key, Neighbours(q)[j]) ==> Neighbours(q)[j] in visited)
    && |AllPositions(m, n) - visited| + |stack| + 1 == |AllPositions(m, n) - visited0| + |stack0|
  }

  /** One `pushIfTarget` call for the neighbours of the popped cell. */
  method PushNeighbour(g: Grid, h: Grid, m: nat, n: nat, key: string, ghost seeds: set<Pos>, transparent: Cell,
                       ghost visited0: set<Pos>, ghost stack0: seq<Pos>, q: Pos, i: nat, visited: set<Pos>, stack: seq<Pos>)
    returns (visited': set<Pos>, stack': seq<Pos>)
    requires i < 4 && Rectangular(h, m, n)
    requires NeighbourInv(g, h, m, n, key, seeds, transparent, visited0, stack0, q, i, visited, stack)
    ensures NeighbourInv(g, h, m, n, key, seeds, transparent, visited0, stack0, q, i + 1, visited', stack')
  {
    var p := Neighbours(q)[i];
    if Target(g, key, p) {
      assert Adjacent(q, p);
      StepReachable(g, key, seeds, q, p);
    }
    visited', stack' := PushIfTarget(h, m, n, key, visited, stack, p);
    PushKeeps(g, h, m, n, key, seeds, transparent, visited, stack, {q}, p, visited', stack');
    NeighbourCovered(g, key, seeds, q, i, visited, visited');
  }

  /** Growing the visited set keeps the seeds and the neighbours offered so far covered. */
  lemma NeighbourCovered(g: Grid, key: string, seeds: set<Pos>, q: Pos, i: nat, visited: set<Pos>, visited': set<Pos>)
    requires i < 4 && visited <= visited'
    requires forall s :: s in seeds && Target(g, key, s) ==> s in visited
    requires forall j :: 0 <= j < i && Target(g, key, Neighbours(q)[j]) ==> Neighbours(q)[j] in visited
    requires Target(g, key, Neighbours(q)[i]) ==> Neighbours(q)[i] in visited'
    ensures forall s :: s in seeds && Target(g, key, s) ==> s in visited'
    ensures forall j :: 0 <= j < i + 1 && Target(g, key, Neighbours(q)[j]) ==> Neighbours(q)[j] in visited'
  {
  }

  /** Popping the top of the stack and erasing it keeps the state, except the popped cell's frontier. */
  lemma PopKeeps(g: Grid, h: Grid, m: nat, n: nat, key: string, seeds: set<Pos>, transparent: Cell,
                 visited: set<Pos>, stack: seq<Pos>)
    requires FillInv(g, h, m, n, key, seeds, transparent, visited, stack) && stack != []
    ensures var q := stack[|stack| - 1];
      var rest := stack[..|stack| - 1];
      q in stack && q in visited && 0 <= q.row < m && 0 <= q.col < n && Reachable(g, key, seeds, q)
      && FillCore(g, h[q.row := h[q.row][q.col := transparent]], m, n, key, seeds, transparent, visited, rest)
      && FillFrontier(g, key, visited, rest, {q})
  {
    var q := stack[|stack| - 1];
    var rest := stack[..|stack| - 1];
    assert stack == rest + [q];
    PopCore(g, h, m, n, key, seeds, transparent, visited, rest, q);
    PopFrontier(g, key, visited, rest, q);
  }

  lemma PopCore(g: Grid, h: Grid, m: nat, n: nat, key: string, seeds: set<Pos>, transparent: Cell,
                visited: set<Pos>, rest: seq<Pos>, q: Pos)
    requires FillCore(g, h, m, n, key, seeds, transparent, visited, rest + [q])
    ensures q in visited && Reachable(g, key, seeds, q)
    ensures FillCore(g, h[q.row := h[q.row][q.col := transparent]], m, n, key, seeds, transparent, visited, rest)
  {
    var stack := rest + [q];
    assert stack[|rest|] == q;
    assert forall x :: x in rest ==> x in stack;
    assert q in AllPositions(m, n);
    PopErase(g, h, m, n, transparent, visited, rest, q);
  }

  /** Erasing the popped cell. */
  lemma PopErase(g: Grid, h: Grid, m: nat, n: nat, transparent: Cell, visited: set<Pos>, rest: seq<Pos>, q: Pos)
    requires FillErased(g, h, m, n, transparent, visited, rest + [q])
    requires q in visited && 0 <= q.row < m && 0 <= q.col < n
    ensures FillErased(g, h[q.row := h[q.row][q.col := transparent]], m, n, transparent, visited, rest)
  {
    var h' := h[q.row := h[q.row][q.col := transparent]];
    forall r, c | 0 <= r < m && 0 <= c < n && Pos(r, c) != q
      ensures h'[r][c] == h[r][c]
    {
      assert r != q.row || c != q.col;
    }
    forall r, c | 0 <= r < m && 0 <= c < n && Pos(r, c) in visited && Pos(r, c) !in rest
      ensures h'[r][c] == transparent
    {
      if Pos(r, c) != q {
        assert Pos(r, c) !in rest + [q];
      }
    }
  }

  lemma PopFrontier(g: Grid, key: string, visited: set<Pos>, rest: seq<Pos>, q: Pos)
    requires FillFrontier(g, key, visited, rest + [q], {})
    ensures FillFrontier(g, key, visited, rest, {q})
  {
    forall p, i | p in visited && p !in rest && p !in {q} && 0 <= i < 4 && Target(g, key, Neighbours(p)[i])
      ensures Neighbours(p)[i] in visited
    {
      assert p !in rest + [q];
    }
  }

  /** The seeding loops' state after `i` positions: the target cells among them are pushed, nothing is erased. */
  ghost predicate SeedInv(g: Grid, m: nat, n: nat, key: string, ps: seq<Pos>, transparent: Cell, i: nat,
                          visited: set<Pos>, stack: seq<Pos>) {
    i <= |ps|
    && FillCore(g, g, m, n, key, Members(ps), transparent, visited, stack)
    && (forall p :: p in visited <==> p in stack)
    && forall j :: 0 <= j < i && Target(g, key, ps[j]) ==> ps[j] in visited
  }

  /** One `pushIfTarget` call of the seeding loops. */
  method SeedOne(g: Grid, m: nat, n: nat, key: string, ps: seq<Pos>, transparent: Cell, i: nat,
                 visited: set<Pos>, stack: seq<Pos>)
    returns (visited': set<Pos>, stack': seq<Pos>)
    requires Rectangular(g, m, n) && i < |ps|
    requires SeedInv(g, m, n, key, ps, transparent, i, visited, stack)
    ensures SeedInv(g, m, n, key, ps, transparent, i + 1, visited', stack')
  {
    if Target(g, key, ps[i]) {
      SeedReachable(g, key, Members(ps), ps[i]);
    }
    visited', stack' := PushIfTarget(g, m, n, key, visited, stack, ps[i]);
    PushKeeps(g, g, m, n, key, Members(ps), transparent, visited, stack, {}, ps[i], visited', stack');
  }

  /** The seeding loops: every border position that is a target cell is pushed, in border order. */
  method SeedBorder(g: Grid, m: nat, n: nat, key: string, ps: seq<Pos>, transparent: Cell)
    returns (visited: set<Pos>, stack: seq<Pos>)
    requires Rectangular(g, m, n)
    ensures FillInv(g, g, m, n, key, Members(ps), transparent, visited, stack)
    ensures forall p :: p in visited <==> p in stack
  {
    visited, stack := {}, [];
    for i := 0 to |ps|
      invariant SeedInv(g, m, n, key, ps, transparent, i, visited, stack)
    {
      visited, stack := SeedOne(g, m, n, key, ps, transparent, i, visited, stack);
    }
    SeedDone(g, m, n, key, ps, transparent, visited, stack);
  }

  lemma SeedDone(g: Grid, m: nat, n: nat, key: string, ps: seq<Pos>, transparent: Cell,
                 visited: set<Pos>, stack: seq<Pos>)
    requires SeedInv(g, m, n, key, ps, transparent, |ps|, visited, stack)
    ensures FillInv(g, g, m, n, key, Members(ps), transparent, visited, stack)
  {
    forall s | s in Members(ps) && Target(g, key, s)
      ensures s in visited
    {
      var j :| 0 <= j < |ps| && ps[j] == s;
    }
  }

  /** With the stack empty, the erased cells are exactly those reachable from the seeds. */
  lemma FillDone(g: Grid, h: Grid, m: nat, n: nat, key: string, seeds: set<Pos>, transparent: Cell, visited: set<Pos>)
    requires FillInv(g, h, m, n, key, seeds, transparent, visited, [])
    ensures Rectangular(h, m, n)
    ensures forall r, c :: 0 <= r < m && 0 <= c < n ==> h[r][c] == Flooded(g, key, seeds, transparent, Pos(r, c))
  {
    assert Closed(g, key, visited);
    forall r, c | 0 <= r < m && 0 <= c < n
      ensures h[r][c] == Flooded(g, key, seeds, transparent, Pos(r, c))
    {
      if Reachable(g, key, seeds, Pos(r, c)) {
        ClosedHoldsReachable(g, key, seeds, visited, Pos(r, c));
      }
    }
  }

  /** A border seed that is a target cell is on the stack after seeding, so the flood has work. */
  lemma SeededStackNonEmpty(g: Grid, m: nat, n: nat, key: string, ps: seq<Pos>, transparent: Cell,
                            visited: set<Pos>, stack: seq<Pos>, i: nat)
    requires FillInv(g, g, m, n, key, Members(ps), transparent, visited, stack)
    requires forall p :: p in visited <==> p in stack
    requires i < |ps| && Target(g, key, ps[i])
    ensures stack != []
  {
    assert ps[i] in Members(ps);
    assert ps[i] in stack;
  }

  datatype BackgroundRefusal =
    | NoPattern      // no grid or no dimensions yet
    | NoBorderColor  // no border cell is counted

  /** The outcome of a background removal: the new grid, its recount and the key that was removed. */
  datatype Background = Background(grid: Grid, counts: map<string, int>, total: int, initialKeys: set<string>,
                                   target: string)

  /** The keys of the border tally in insertion order, and the tally itself. */
  function BorderOrder(g: Grid, m: nat, n: nat, transparentKey: string): seq<string> {
    Distinct(BorderLabels(g, m, n, transparentKey))
  }

  ghost function BorderTally(g: Grid, m: nat, n: nat, transparentKey: string): map<string, int> {
    TallyMap(multiset(BorderLabels(g, m, n, transparentKey)))
  }

  /** `countBorderCell` over the border loops: the tally map in insertion order, or `[]` when nothing is counted. */
  method TallyBorder(g: Grid, m: nat, n: nat, transparentKey: string) returns (order: seq<string>, counts: map<string, int>)
    ensures order == BorderOrder(g, m, n, transparentKey) && counts == BorderTally(g, m, n, transparentKey)
    ensures order == [] <==> BorderLabels(g, m, n, transparentKey) == []
    ensures forall j :: 0 <= j < |order| ==> order[j] in counts && counts[order[j]] >= 0
  {
    var cells := BorderCells(g, BorderPositions(m, n));
    FlattenSingle(cells);
    var total;
    order, counts, total := Recount(BorderRule(transparentKey), [cells]);
    ghost var labels := BorderLabels(g, m, n, transparentKey);
    assert GridLabels(BorderRule(transparentKey), [cells]) == labels;
    TalliesUnique(counts, multiset(labels));
    TalliedOrder(counts, labels, order);
    if labels != [] {
      assert labels[0] in order;
    }
  }

  /** Every key of the first-occurrence order of a tally has a non-negative count. */
  lemma TalliedOrder(counts: map<string, int>, labels: seq<string>, order: seq<string>)
    requires Tallies(counts, multiset(labels)) && order == Distinct(labels)
    ensures forall j :: 0 <= j < |order| ==> order[j] in counts && counts[order[j]] >= 0
  {
    forall j | 0 <= j < |order| ensures order[j] in counts && counts[order[j]] >= 0 {
      assert order[j] in labels;
      assert order[j] in multiset(labels);
    }
  }

  /** The seeding loops and the `while (stack.length > 0)` loop, for a key some seed holds. */
  method FloodFromBorder(g: Grid, m: nat, n: nat, key: string, ps: seq<Pos>, transparent: Cell) returns (h: Grid)
    requires Rectangular(g, m, n)
    requires exists s :: 0 <= s < |ps| && Target(g, key, ps[s])
    ensures Rectangular(h, m, n)
    ensures forall r, c :: 0 <= r < m && 0 <= c < n ==> h[r][c] == Flooded(g, key, Members(ps), transparent, Pos(r, c))
  {
    ghost var s :| 0 <= s < |ps| && Target(g, key, ps[s]);
    var visited, stack := SeedBorder(g, m, n, key, ps, transparent);
    SeededStackNonEmpty(g, m, n, key, ps, transparent, visited, stack, s);
    h := g;
    while stack != []
      invariant FillInv(g, h, m, n, key, Members(ps), transparent, visited, stack)
      decreases |AllPositions(m, n) - visited| + |stack|
    {
      h, visited, stack := FillStep(g, h, m, n, key, Members(ps), transparent, visited, stack);
    }
    FillDone(g, h, m, n, key, Members(ps), transparent, visited);
  }

  /**
   * `handleAutoRemoveBackground()`: the most frequent key among the counted border cells (the
   * first one on a tie) is flooded from every border cell of that key; the flooded cells become
   * the transparent cell, and the counts, the total and the snapshot of initial keys are recounted.
   */
  method RemoveBackground(grid: Option<Grid>, dims: Option<Dims>, transparentKey: string, transparent: Cell)
    returns (r: Result<Background, BackgroundRefusal>)
    requires grid.Some? && dims.Some? ==> Rectangular(grid.value, dims.value.m, dims.value.n)
    ensures grid.None? || dims.None? ==> r == Failure(NoPattern)
    ensures grid.Some? && dims.Some? ==>
      var g, m, n := grid.value, dims.value.m, dims.value.n;
      (r == Failure(NoBorderColor) <==> BorderLabels(g, m, n, transparentKey) == [])
      && (r.Success? ==>
        var b := r.value;
        (exists i :: FirstMaxAt(BorderOrder(g, m, n, transparentKey), BorderTally(g, m, n, transparentKey), i)
                     && BorderOrder(g, m, n, transparentKey)[i] == b.target)
        && Rectangular(b.grid, m, n)
        && (forall r, c :: 0 <= r < m && 0 <= c < n ==>
              b.grid[r][c] == Flooded(g, b.target, Members(BorderPositions(m, n)), transparent, Pos(r, c)))
        && Tallies(b.counts, multiset(GridLabels(EditRule(transparentKey), b.grid)))
        && b.total == |GridLabels(EditRule(transparentKey), b.grid)|
        && b.initialKeys == b.counts.Keys)
    ensures r.Failure? ==> r == Failure(NoPattern) || r == Failure(NoBorderColor)
  {
    if grid.None? || dims.None? {
      return Failure(NoPattern);
    }
    var g, m, n := grid.value, dims.value.m, dims.value.n;
    var order, borderCounts := TallyBorder(g, m, n, transparentKey);
    if order == [] {
      return Failure(NoBorderColor);
    }
    var target := MostFrequent(order, borderCounts);
    var ps := BorderPositions(m, n);
    assert target in BorderLabels(g, m, n, transparentKey);
    BorderSeed(g, ps, transparentKey, target);
    var h := FloodFromBorder(g, m, n, target, ps, transparent);
    var _, counts, total := Recount(EditRule(transparentKey), h);
    return Success(Background(h, counts, total, counts.Keys, target));
  }

  /** A cell the flood changes was a target cell reachable from the seeds. */
  lemma FloodedOnlyTargets(g: Grid, key: string, seeds: set<Pos>, transparent: Cell, p: Pos)
    requires InGrid(g, p) && Flooded(g, key, seeds, transparent, p) != At(g, p)
    ensures Target(g, key, p) && Reachable(g, key, seeds, p)
  {
  }

  /** The flood leaves no target cell of the key next to a flooded one: the flooded region is closed. */
  lemma FloodedClosed(g: Grid, key: string, seeds: set<Pos>, transparent: Cell, p: Pos, q: Pos)
    requires InGrid(g, p) && Reachable(g, key, seeds, p)
    requires Adjacent(p, q) && Target(g, key, q)
    ensures Flooded(g, key, seeds, transparent, q) == transparent
  {
    StepReachable(g, key, seeds, p, q);
  }
}
