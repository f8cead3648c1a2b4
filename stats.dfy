/**
 * The colour statistics of src/app/page.tsx: the count maps that the handlers rebuild from the
 * grid (`colorCounts`, `totalBeadCount`, the merger's `initialColorCounts`) and the single-cell
 * deltas of manual colouring and of the magnifier editor.
 *
 * A count map `counts` with total `total` is correct for a grid when it tallies the multiset of
 * labels of the counted cells (`Tallies`) and `total` is the number of those cells.
 */
module Stats {
  import opened Text
  import opened Cells

  /**
   * Which cells a recount counts and under which label; each call site of the source has its own.
   * - Initial: the merger's frequency count: a non-empty key, not external, not transparent; by key.
   * - Merged: the recount after merging: a non-empty key, not external; by colour as written.
   * - Exclude: the recount after an exclusion: a non-empty colour, not external; by upper-cased colour.
   * - Edit: the recount after region edits and manual colouring: not external, not transparent; by upper-cased colour.
   * - ByKey: the magnifier editor's delta: every cell, by key.
   * - Border: background removal's tally of the border cells: not external, not transparent; by key.
   */
  datatype CountRule =
    | InitialRule(transparentKey: string)
    | MergedRule
    | ExcludeRule
    | EditRule(transparentKey: string)
    | ByKeyRule
    | BorderRule(transparentKey: string)

  predicate Counted(rule: CountRule, c: Cell) {
    match rule
    case InitialRule(t) => c.key != "" && !c.isExternal && c.key != t
    case MergedRule => c.key != "" && !c.isExternal
    case ExcludeRule => c.color != "" && !c.isExternal
    case EditRule(t) => !c.isExternal && c.key != t
    case ByKeyRule => true
    case BorderRule(t) => !c.isExternal && c.key != t
  }

  function Label(rule: CountRule, c: Cell): string {
    match rule
    case InitialRule(_) => c.key
    case MergedRule => c.color
    case ExcludeRule => Upper(c.color)
    case EditRule(_) => Upper(c.color)
    case ByKeyRule => c.key
    case BorderRule(_) => c.key
  }

  /** The labels of the counted cells, in order. */
  function Labels(rule: CountRule, cells: seq<Cell>): seq<string> {
    if cells == [] then []
    else
      var last := cells[|cells| - 1];
      Labels(rule, cells[..|cells| - 1]) + (if Counted(rule, last) then [Label(rule, last)] else [])
  }

  /** The labels of the counted cells of a whole grid. */
  function GridLabels(rule: CountRule, g: Grid): seq<string> {
    Labels(rule, Flatten(g))
  }

  lemma {:induction false} LabelsAppend(rule: CountRule, a: seq<Cell>, b: seq<Cell>)
    ensures Labels(rule, a + b) == Labels(rule, a) + Labels(rule, b)
  {
    if b == [] {
      assert a + b == a;
    } else {
      assert (a + b)[..|a + b| - 1] == a + b[..|b| - 1];
      LabelsAppend(rule, a, b[..|b| - 1]);
    }
  }

  /** The labels of one cell, as a multiset: empty when the cell is not counted. */
  function CellLabel(rule: CountRule, c: Cell): multiset<string> {
    if Counted(rule, c) then multiset{Label(rule, c)} else multiset{}
  }

  /** Extending a sequence of cells by one cell extends its labels by that cell's label. */
  lemma LabelsSnoc(rule: CountRule, cells: seq<Cell>, i: nat)
    requires i < |cells|
    ensures Labels(rule, cells[..i + 1])
      == Labels(rule, cells[..i]) + (if Counted(rule, cells[i]) then [Label(rule, cells[i])] else [])
  {
    assert cells[..i + 1][..i] == cells[..i];
  }

  /** The labels of a sequence split around one of its cells. */
  lemma LabelsSplit(rule: CountRule, s: seq<Cell>, i: nat)
    requires i < |s|
    ensures multiset(Labels(rule, s))
      == multiset(Labels(rule, s[..i])) + CellLabel(rule, s[i]) + multiset(Labels(rule, s[i + 1..]))
  {
    assert s == s[..i] + [s[i]] + s[i + 1..];
    LabelsAppend(rule, s[..i] + [s[i]], s[i + 1..]);
    LabelsAppend(rule, s[..i], [s[i]]);
    assert [s[i]][..0] == [];
  }

  /** Replacing one cell of a sequence removes that cell's label and adds the new cell's label. */
  lemma LabelsReplace(rule: CountRule, s: seq<Cell>, i: nat, x: Cell)
    requires i < |s|
    ensures multiset(Labels(rule, s[i := x]))
      == multiset(Labels(rule, s)) - CellLabel(rule, s[i]) + CellLabel(rule, x)
  {
    LabelsSplit(rule, s, i);
    LabelsSplit(rule, s[i := x], i);
    assert s[i := x][..i] == s[..i] && s[i := x][i + 1..] == s[i + 1..];
  }

  /** Cell `c` of row `r` sits at position `|Flatten(g[..r])| + c` of the flattening. */
  lemma FlattenIndex(g: Grid, r: nat, c: nat)
    requires r < |g| && c < |g[r]|
    ensures var k := |Flatten(g[..r])| + c;
      k < |Flatten(g)| && Flatten(g)[k] == g[r][c]
  {
    FlattenAround(g, r);
  }

  lemma UpdateMiddle(a: seq<Cell>, s: seq<Cell>, b: seq<Cell>, c: nat, x: Cell)
    requires c < |s|
    ensures (a + s + b)[|a| + c := x] == a + s[c := x] + b
  {
  }

  /** Changing one cell of a grid changes one position of its flattening. */
  lemma FlattenSetCell(g: Grid, r: nat, c: nat, x: Cell)
    requires r < |g| && c < |g[r]|
    ensures var k := |Flatten(g[..r])| + c;
      k < |Flatten(g)| && Flatten(g)[k] == g[r][c] && Flatten(SetCell(g, r, c, x)) == Flatten(g)[k := x]
  {
    var h := SetCell(g, r, c, x);
    FlattenIndex(g, r, c);
    FlattenAround(g, r);
    FlattenAround(h, r);
    assert h[..r] == g[..r];
    assert h[r + 1..] == g[r + 1..];
    assert h[r] == g[r][c := x];
    UpdateMiddle(Flatten(g[..r]), g[r], Flatten(g[r + 1..]), c, x);
  }

  /** Changing one cell removes that cell's label and adds the new cell's label, and nothing else. */
  lemma GridLabelsSetCell(rule: CountRule, g: Grid, r: nat, c: nat, x: Cell)
    requires r < |g| && c < |g[r]|
    ensures multiset(GridLabels(rule, SetCell(g, r, c, x)))
      == multiset(GridLabels(rule, g)) - CellLabel(rule, g[r][c]) + CellLabel(rule, x)
  {
    FlattenSetCell(g, r, c, x);
    LabelsReplace(rule, Flatten(g), |Flatten(g[..r])| + c, x);
  }

  /** A counted cell's label is among the grid's labels. */
  lemma LabelsInGrid(rule: CountRule, g: Grid, r: nat, c: nat)
    requires r < |g| && c < |g[r]| && Counted(rule, g[r][c])
    ensures Label(rule, g[r][c]) in multiset(GridLabels(rule, g))
  {
    var s, k := Flatten(g), |Flatten(g[..r])| + c;
    FlattenIndex(g, r, c);
    LabelsSplit(rule, s, k);
    assert CellLabel(rule, s[k]) == multiset{Label(rule, g[r][c])};
  }

  /** A label no counted cell of the row carries is not among the row's labels. */
  lemma {:induction false} LabelAbsentFromRow(rule: CountRule, cells: seq<Cell>, x: string)
    requires forall c :: 0 <= c < |cells| && Counted(rule, cells[c]) ==> Label(rule, cells[c]) != x
    ensures x !in Labels(rule, cells)
  {
    if cells != [] {
      var init := cells[..|cells| - 1];
      assert forall c :: 0 <= c < |init| ==> init[c] == cells[c];
      LabelAbsentFromRow(rule, init, x);
    }
  }

  /** A label no counted cell of the grid carries is not among the grid's labels: the converse of `LabelsInGrid`. */
  lemma {:induction false} LabelAbsentFromGrid(rule: CountRule, g: Grid, x: string)
    requires forall r, c :: 0 <= r < |g| && 0 <= c < |g[r]| && Counted(rule, g[r][c]) ==> Label(rule, g[r][c]) != x
    ensures x !in GridLabels(rule, g)
  {
    if g != [] {
      var r := |g| - 1;
      var init := g[..r];
      assert forall r' :: 0 <= r' < r ==> init[r'] == g[r'];
      LabelAbsentFromGrid(rule, init, x);
      LabelAbsentFromRow(rule, g[r], x);
      LabelsAppend(rule, Flatten(init), g[r]);
    }
  }

  /** Every label of a row comes from a counted cell of that row. */
  lemma {:induction false} LabelFromRow(rule: CountRule, cells: seq<Cell>, x: string)
    requires x in Labels(rule, cells)
    ensures exists c :: 0 <= c < |cells| && Counted(rule, cells[c]) && Label(rule, cells[c]) == x
  {
    var init, last := cells[..|cells| - 1], cells[|cells| - 1];
    if x in Labels(rule, init) {
      LabelFromRow(rule, init, x);
      var c :| 0 <= c < |init| && Counted(rule, init[c]) && Label(rule, init[c]) == x;
      assert cells[c] == init[c];
    } else {
      assert Counted(rule, cells[|cells| - 1]) && Label(rule, cells[|cells| - 1]) == x;
    }
  }

  /** Every label of a grid comes from a counted cell of the grid: the converse of `LabelsInGrid`. */
  lemma {:induction false} LabelFromGrid(rule: CountRule, g: Grid, x: string)
    requires x in GridLabels(rule, g)
    ensures exists r, c :: 0 <= r < |g| && 0 <= c < |g[r]| && Counted(rule, g[r][c]) && Label(rule, g[r][c]) == x
  {
    var r := |g| - 1;
    var init := g[..r];
    LabelsAppend(rule, Flatten(init), g[r]);
    if x in GridLabels(rule, init) {
      LabelFromGrid(rule, init, x);
      var r', c :| 0 <= r' < |init| && 0 <= c < |init[r']| && Counted(rule, init[r'][c]) && Label(rule, init[r'][c]) == x;
      assert g[r'] == init[r'];
    } else {
      LabelFromRow(rule, g[r], x);
    }
  }

  /** `labels` in order of first occurrence: the key order of a JavaScript object built by counting. */
  function Distinct(labels: seq<string>): (d: seq<string>)
    ensures forall x :: x in d <==> x in labels
    ensures forall i, j :: 0 <= i < j < |d| ==> d[i] != d[j]
  {
    if labels == [] then []
    else
      var last := labels[|labels| - 1];
      var d := Distinct(labels[..|labels| - 1]);
      if last in labels[..|labels| - 1] then d else d + [last]
  }

  /** `counts` has an entry exactly for the labels in `ms`, holding that label's multiplicity. */
  ghost predicate Tallies(counts: map<string, int>, ms: multiset<string>) {
    (forall k :: k in counts <==> k in ms) && (forall k :: k in counts ==> counts[k] == ms[k])
  }

  /** The count map a multiset of labels determines. */
  ghost function TallyMap(ms: multiset<string>): map<string, int> {
    map k | k in ms :: ms[k]
  }

  /** A correct count map is unique: it is the tally of its labels. */
  lemma TalliesUnique(counts: map<string, int>, ms: multiset<string>)
    requires Tallies(counts, ms)
    ensures counts == TallyMap(ms)
  {
  }

  lemma TalliesEmpty()
    ensures Tallies(map[], multiset{})
  {
  }

  /** `counts[k] = (counts[k] || 0) + 1`. */
  function Bumped(counts: map<string, int>, k: string): (r: map<string, int>)
    ensures r.Keys == counts.Keys + {k}
  {
    counts[k := (if k in counts then counts[k] else 0) + 1]
  }

  lemma TalliesBump(counts: map<string, int>, ms: multiset<string>, k: string)
    requires Tallies(counts, ms)
    ensures Tallies(Bumped(counts, k), ms + multiset{k})
  {
  }

  /** `count--`, deleting the entry when it is no longer positive (manual colouring). */
  function DecrementOrDelete(counts: map<string, int>, k: string): map<string, int>
    requires k in counts
  {
    if counts[k] - 1 <= 0 then counts - {k} else counts[k := counts[k] - 1]
  }

  /** `count--`, deleting the entry when it reaches exactly zero (magnifier editor). */
  function DecrementOrDeleteAtZero(counts: map<string, int>, k: string): map<string, int>
    requires k in counts
  {
    if counts[k] - 1 == 0 then counts - {k} else counts[k := counts[k] - 1]
  }

  lemma TalliesDecrement(counts: map<string, int>, ms: multiset<string>, k: string)
    requires Tallies(counts, ms) && k in counts
    ensures Tallies(DecrementOrDelete(counts, k), ms - multiset{k})
    ensures Tallies(DecrementOrDeleteAtZero(counts, k), ms - multiset{k})
  {
  }

  /** The sum of the values of a count map (`Object.values(counts).reduce(...)`). */
  ghost function MapSum(m: map<string, int>): int
    decreases |m|
  {
    if m == map[] then 0
    else
      var k :| k in m;
      m[k] + MapSum(m - {k})
  }

  /** The sum does not depend on the key taken first. */
  lemma {:induction false} MapSumRemove(m: map<string, int>, k: string)
    requires k in m
    ensures MapSum(m) == m[k] + MapSum(m - {k})
    decreases |m|
  {
    var k' :| k' in m && MapSum(m) == m[k'] + MapSum(m - {k'});
    if k' != k {
      MapSumRemove(m - {k'}, k);
      MapSumRemove(m - {k}, k');
      assert m - {k'} - {k} == m - {k} - {k'};
    }
  }

  lemma {:induction false} MultisetDropAll(ms: multiset<string>, k: string)
    ensures |ms| == ms[k] + |ms[k := 0]|
    decreases ms[k]
  {
    if ms[k] == 0 {
      assert ms[k := 0] == ms;
    } else {
      var rest := ms - multiset{k};
      assert ms == rest + multiset{k};
      assert rest[k := 0] == ms[k := 0];
      MultisetDropAll(rest, k);
    }
  }

  /** The total of a correct count map is the number of labels it tallies. */
  lemma {:induction false} TalliesSum(counts: map<string, int>, ms: multiset<string>)
    requires Tallies(counts, ms)
    ensures MapSum(counts) == |ms|
    decreases |counts|
  {
    if counts == map[] {
      assert ms == multiset{};
    } else {
      var k :| k in counts;
      MapSumRemove(counts, k);
      MultisetDropAll(ms, k);
      TalliesSum(counts - {k}, ms[k := 0]);
    }
  }

  lemma DistinctSnoc(labels: seq<string>, k: string)
    ensures Distinct(labels + [k]) == if k in labels then Distinct(labels) else Distinct(labels) + [k]
  {
    assert (labels + [k])[..|labels|] == labels;
  }

  /** One step of a recount keeps the counts, the key order and the total correct. */
  lemma RecountStep(rule: CountRule, cells: seq<Cell>, i: nat, order: seq<string>, counts: map<string, int>, total: int)
    requires i < |cells|
    requires Tallies(counts, multiset(Labels(rule, cells[..i])))
    requires order == Distinct(Labels(rule, cells[..i]))
    requires total == |Labels(rule, cells[..i])|
    ensures var k := Label(rule, cells[i]);
      var labels := Labels(rule, cells[..i + 1]);
      if Counted(rule, cells[i]) then
        Tallies(Bumped(counts, k), multiset(labels))
        && (if k in counts then order else order + [k]) == Distinct(labels)
        && total + 1 == |labels|
      else
        labels == Labels(rule, cells[..i])
  {
    LabelsSnoc(rule, cells, i);
    var k := Label(rule, cells[i]);
    var before := Labels(rule, cells[..i]);
    if Counted(rule, cells[i]) {
      TalliesBump(counts, multiset(before), k);
      DistinctSnoc(before, k);
      assert k in counts <==> k in before;
    }
  }

  /**
   * A full recount (`grid.flat().forEach(...)`): the map is built by incrementing one entry per
   * counted cell; `order` is the map's key order, `total` the number of counted cells.
   */
  method Recount(rule: CountRule, g: Grid) returns (order: seq<string>, counts: map<string, int>, total: int)
    ensures Tallies(counts, multiset(GridLabels(rule, g)))
    ensures order == Distinct(GridLabels(rule, g))
    ensures total == |GridLabels(rule, g)|
  {
    var cells := Flatten(g);
    order, counts, total := [], map[], 0;
    for i := 0 to |cells|
      invariant Tallies(counts, multiset(Labels(rule, cells[..i])))
      invariant order == Distinct(Labels(rule, cells[..i]))
      invariant total == |Labels(rule, cells[..i])|
    {
      RecountStep(rule, cells, i, order, counts, total);
      if Counted(rule, cells[i]) {
        var k := Label(rule, cells[i]);
        if k !in counts {
          order := order + [k];
        }
        counts := Bumped(counts, k);
        total := total + 1;
      }
    }
    assert cells[..|cells|] == cells;
  }

  /** `Object.values(counts).reduce((sum, item) => sum + item.count, 0)`. */
  method SumCounts(counts: map<string, int>) returns (sum: int)
    ensures sum == MapSum(counts)
  {
    var rest := counts;
    sum := 0;
    while rest != map[]
      invariant sum + MapSum(rest) == MapSum(counts)
      decreases |rest|
    {
      var k :| k in rest;
      MapSumRemove(rest, k);
      sum := sum + rest[k];
      rest := rest - {k};
    }
  }

  /**
   * The count delta of a manual colouring click (src/app/page.tsx:1410-1443): the previous
   * cell's upper-cased colour loses one (entry deleted at zero, total decremented) when that cell
   * was counted and had an entry; the new cell's colour gains one when it is counted.
   */
  function ManualEditDelta(counts: map<string, int>, total: int, previous: Cell, next: Cell, transparentKey: string)
    : (r: (map<string, int>, int))
    ensures forall k :: k != Upper(previous.color) && k != Upper(next.color) ==>
      (k in r.0 <==> k in counts) && (k in r.0 ==> r.0[k] == counts[k])
    ensures !next.isExternal && next.key != transparentKey ==> Upper(next.color) in r.0
    ensures r.1 == total - (if Drops(counts, previous, transparentKey) then 1 else 0)
                         + (if Adds(next, transparentKey) then 1 else 0)
    ensures var p, q := Upper(previous.color), Upper(next.color);
      Drops(counts, previous, transparentKey) && p != q ==>
        (p in r.0 <==> counts[p] > 1) && (p in r.0 ==> r.0[p] == counts[p] - 1)
    ensures var p, q := Upper(previous.color), Upper(next.color);
      !Drops(counts, previous, transparentKey) && p != q ==>
        (p in r.0 <==> p in counts) && (p in r.0 ==> r.0[p] == counts[p])
    ensures var p, q := Upper(previous.color), Upper(next.color);
      Adds(next, transparentKey) && (p != q || !Drops(counts, previous, transparentKey)) ==>
        r.0[q] == (if q in counts then counts[q] else 0) + 1
    ensures var p, q := Upper(previous.color), Upper(next.color);
      Adds(next, transparentKey) && p == q && Drops(counts, previous, transparentKey) ==>
        r.0[q] == (if counts[q] > 1 then counts[q] else 1)
    ensures var p, q := Upper(previous.color), Upper(next.color);
      !Adds(next, transparentKey) && p != q ==>
        (q in r.0 <==> q in counts) && (q in r.0 ==> r.0[q] == counts[q])
  {
    var (c1, t1) := DropPrevious(counts, total, previous, transparentKey);
    AddNext(c1, t1, next, transparentKey)
  }

  /** The previous cell is taken off: it was counted, has a colour, and that colour has an entry. */
  predicate Drops(counts: map<string, int>, previous: Cell, transparentKey: string) {
    var prevHex := Upper(previous.color);
    !previous.isExternal && previous.key != transparentKey && prevHex != "" && prevHex in counts
  }

  /** The new cell is counted. */
  predicate Adds(next: Cell, transparentKey: string) {
    !next.isExternal && next.key != transparentKey
  }

  /** The first half of the delta: the previous cell's colour loses one. */
  function DropPrevious(counts: map<string, int>, total: int, previous: Cell, transparentKey: string): (map<string, int>, int) {
    if Drops(counts, previous, transparentKey)
    then (DecrementOrDelete(counts, Upper(previous.color)), total - 1)
    else (counts, total)
  }

  /** The second half of the delta: the new cell's colour gains one. */
  function AddNext(counts: map<string, int>, total: int, next: Cell, transparentKey: string): (map<string, int>, int) {
    if Adds(next, transparentKey) then (Bumped(counts, Upper(next.color)), total + 1)
    else (counts, total)
  }

  lemma DropPreviousTallies(g: Grid, r: nat, c: nat, counts: map<string, int>, total: int, transparentKey: string)
    requires r < |g| && c < |g[r]|
    requires Counted(EditRule(transparentKey), g[r][c]) ==> g[r][c].color != ""
    requires Tallies(counts, multiset(GridLabels(EditRule(transparentKey), g)))
    requires total == |GridLabels(EditRule(transparentKey), g)|
    ensures var rule := EditRule(transparentKey);
      var mid := multiset(GridLabels(rule, g)) - CellLabel(rule, g[r][c]);
      var (c1, t1) := DropPrevious(counts, total, g[r][c], transparentKey);
      Tallies(c1, mid) && t1 == |mid|
  {
    var rule := EditRule(transparentKey);
    var ms := multiset(GridLabels(rule, g));
    var prev := g[r][c];
    assert Counted(rule, prev) == (!prev.isExternal && prev.key != transparentKey) && Label(rule, prev) == Upper(prev.color);
    if Counted(rule, prev) {
      assert Label(rule, prev) in ms by { LabelsInGrid(rule, g, r, c); }
      TalliesDecrement(counts, ms, Label(rule, prev));
    }
  }

  lemma AddNextTallies(counts: map<string, int>, total: int, ms: multiset<string>, next: Cell, transparentKey: string)
    requires Tallies(counts, ms) && total == |ms|
    ensures var (c2, t2) := AddNext(counts, total, next, transparentKey);
      Tallies(c2, ms + CellLabel(EditRule(transparentKey), next)) && t2 == |ms + CellLabel(EditRule(transparentKey), next)|
  {
    var rule := EditRule(transparentKey);
    assert Counted(rule, next) == (!next.isExternal && next.key != transparentKey) && Label(rule, next) == Upper(next.color);
    if Counted(rule, next) {
      TalliesBump(counts, ms, Label(rule, next));
    }
  }

  /**
   * Count conservation for manual colouring: if the counts and total were correct for the grid
   * under the edit rule, the delta gives the correct counts and total for the edited grid.
   */
  lemma ManualEditDeltaConserves(g: Grid, r: nat, c: nat, next: Cell, counts: map<string, int>, total: int,
                                 transparentKey: string)
    requires r < |g| && c < |g[r]|
    requires Counted(EditRule(transparentKey), g[r][c]) ==> g[r][c].color != ""
    requires Tallies(counts, multiset(GridLabels(EditRule(transparentKey), g)))
    requires total == |GridLabels(EditRule(transparentKey), g)|
    ensures var (c', t') := ManualEditDelta(counts, total, g[r][c], next, transparentKey);
      var labels := GridLabels(EditRule(transparentKey), SetCell(g, r, c, next));
      Tallies(c', multiset(labels)) && t' == |labels| && MapSum(c') == t'
  {
    var rule := EditRule(transparentKey);
    var mid := multiset(GridLabels(rule, g)) - CellLabel(rule, g[r][c]);
    GridLabelsSetCell(rule, g, r, c, next);
    DropPreviousTallies(g, r, c, counts, total, transparentKey);
    var (c1, t1) := DropPrevious(counts, total, g[r][c], transparentKey);
    AddNextTallies(c1, t1, mid, next, transparentKey);
    var (c2, t2) := AddNext(c1, t1, next, transparentKey);
    TalliesSum(c2, multiset(GridLabels(rule, SetCell(g, r, c, next))));
  }

  /**
   * The count delta of the magnifier editor (src/app/page.tsx:219-246), keyed by cell key: the old
   * key loses one when it has an entry (deleted at zero), the new key gains one.
   */
  function MagnifierDelta(counts: map<string, int>, oldKey: string, newKey: string): (r: map<string, int>)
    ensures newKey in r
    ensures oldKey != newKey ==> r[newKey] == (if newKey in counts then counts[newKey] else 0) + 1
    ensures oldKey == newKey ==> r[newKey] == (if newKey in counts then counts[newKey] else 1)
    ensures forall k :: k != oldKey && k != newKey ==> (k in r <==> k in counts) && (k in r ==> r[k] == counts[k])
    ensures oldKey != newKey && oldKey in counts ==>
      (oldKey in r <==> counts[oldKey] != 1) && (oldKey in r ==> r[oldKey] == counts[oldKey] - 1)
  {
    var c1 := if oldKey in counts then DecrementOrDeleteAtZero(counts, oldKey) else counts;
    Bumped(c1, newKey)
  }

  /** Writing one entry: the sum is the new value plus the sum of the other entries. */
  lemma MapSumUpdate(m: map<string, int>, k: string, v: int)
    ensures MapSum(m[k := v]) == v + MapSum(m - {k})
  {
    MapSumRemove(m[k := v], k);
    assert m[k := v] - {k} == m - {k};
  }

  /**
   * The magnifier delta never changes the sum of the counts when the old key has an entry, and adds
   * one when it has none. Whether either cell is inside the pattern plays no part: the delta looks
   * at keys only.
   */
  lemma MagnifierDeltaSum(counts: map<string, int>, oldKey: string, newKey: string)
    ensures MapSum(MagnifierDelta(counts, oldKey, newKey)) == MapSum(counts) + (if oldKey in counts then 0 else 1)
  {
    var c1 := if oldKey in counts then DecrementOrDeleteAtZero(counts, oldKey) else counts;
    if oldKey in counts {
      MapSumRemove(counts, oldKey);
      if counts[oldKey] - 1 != 0 {
        MapSumUpdate(counts, oldKey, counts[oldKey] - 1);
      }
      assert MapSum(c1) == MapSum(counts) - 1;
    }
    MapSumUpdate(c1, newKey, (if newKey in c1 then c1[newKey] else 0) + 1);
    if newKey in c1 {
      MapSumRemove(c1, newKey);
    } else {
      assert c1 - {newKey} == c1;
    }
  }

  /**
   * Magnifying an external cell whose key is the key of one counted cell elsewhere: that count is
   * taken away and the new key gets one, so the total stays 1 although the pattern now holds two
   * cells.
   */
  lemma MagnifyExternalCell()
    ensures MagnifierDelta(map["K" := 1], "K", "N") == map["N" := 1]
    ensures MapSum(map["N" := 1]) == MapSum(map["K" := 1]) == 1
  {
    MapSumRemove(map["N" := 1], "N");
    MapSumRemove(map["K" := 1], "K");
    assert map["N" := 1] - {"N"} == map[];
    assert map["K" := 1] - {"K"} == map[];
  }

  /**
   * For counts keyed by cell key over every cell, the magnifier delta gives the counts of the
   * edited grid, and their sum is the number of cells.
   */
  lemma MagnifierDeltaConserves(g: Grid, r: nat, c: nat, next: Cell, counts: map<string, int>)
    requires r < |g| && c < |g[r]|
    requires Tallies(counts, multiset(GridLabels(ByKeyRule, g)))
    ensures var c' := MagnifierDelta(counts, g[r][c].key, next.key);
      var labels := GridLabels(ByKeyRule, SetCell(g, r, c, next));
      Tallies(c', multiset(labels)) && MapSum(c') == |labels|
  {
    var ms := multiset(GridLabels(ByKeyRule, g));
    GridLabelsSetCell(ByKeyRule, g, r, c, next);
    LabelsInGrid(ByKeyRule, g, r, c);
    TalliesDecrement(counts, ms, g[r][c].key);
    var c1 := DecrementOrDeleteAtZero(counts, g[r][c].key);
    TalliesBump(c1, ms - multiset{g[r][c].key}, next.key);
    TalliesSum(MagnifierDelta(counts, g[r][c].key, next.key), multiset(GridLabels(ByKeyRule, SetCell(g, r, c, next))));
  }

  /**
   * On the colour-keyed counts the other handlers keep, the magnifier delta is also correct when
   * both the old and the new cell are counted and keyed by their upper-cased colour, as registry
   * colours are.
   */
  lemma MagnifierDeltaKeepsColourCounts(g: Grid, r: nat, c: nat, next: Cell, counts: map<string, int>,
                                        transparentKey: string)
    requires r < |g| && c < |g[r]|
    requires Counted(EditRule(transparentKey), g[r][c]) && g[r][c].key == Upper(g[r][c].color)
    requires Counted(EditRule(transparentKey), next) && next.key == Upper(next.color)
    requires Tallies(counts, multiset(GridLabels(EditRule(transparentKey), g)))
    ensures var c' := MagnifierDelta(counts, g[r][c].key, next.key);
      var labels := GridLabels(EditRule(transparentKey), SetCell(g, r, c, next));
      Tallies(c', multiset(labels)) && MapSum(c') == |labels|
  {
    var rule := EditRule(transparentKey);
    var ms := multiset(GridLabels(rule, g));
    assert Label(rule, g[r][c]) == g[r][c].key && Label(rule, next) == next.key;
    GridLabelsSetCell(rule, g, r, c, next);
    LabelsInGrid(rule, g, r, c);
    TalliesDecrement(counts, ms, g[r][c].key);
    var c1 := DecrementOrDeleteAtZero(counts, g[r][c].key);
    TalliesBump(c1, ms - multiset{g[r][c].key}, next.key);
    TalliesSum(MagnifierDelta(counts, g[r][c].key, next.key), multiset(GridLabels(rule, SetCell(g, r, c, next))));
  }
}
