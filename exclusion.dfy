/**
 * Colour exclusion (`handleToggleExcludeColor`, src/app/page.tsx:1023-1151).
 *
 * Excluding a hex key recolours every non-external cell of that colour with the palette colour
 * nearest to it among the colours the grid held right after its last full build
 * (`initialGridColorKeys`) minus the excluded ones, then recounts. Re-including a key only drops it
 * from the excluded set and asks for a full rebuild (`remapTrigger`).
 */
module Exclusion {
  import opened Outcome
  import opened Text
  import opened HexColor
  import opened Cells
  import opened Stats
  import opened Edits

  /** The hex keys a cell of colour `hexKey` may be remapped to. */
  function RemapCandidates(initialKeys: set<string>, hexKey: string, excluded: set<string>): (r: set<string>)
    ensures forall k :: k in r <==> k in initialKeys && k != hexKey && k !in excluded
  {
    initialKeys - {hexKey} - excluded
  }

  /** `fullBeadPalette.filter(...)`: the registry colours whose upper-cased hex is a candidate, in order. */
  function RemapTargets(registry: seq<PaletteColor>, candidates: set<string>): (r: seq<PaletteColor>)
    ensures forall p :: p in r <==> p in registry && Upper(p.hex) in candidates
    ensures |r| <= |registry|
  {
    if registry == [] then []
    else
      var rest := RemapTargets(registry[..|registry| - 1], candidates);
      var last := registry[|registry| - 1];
      assert registry == registry[..|registry| - 1] + [last];
      if Upper(last.hex) in candidates then rest + [last] else rest
  }

  /**
   * `pos` lists, in increasing order, the registry positions that `r` takes its entries from, and
   * every position of a candidate colour is among them: `r` is the registry filtered in place.
   */
  predicate FilterPositions(pos: seq<int>, r: seq<PaletteColor>, registry: seq<PaletteColor>, candidates: set<string>) {
    |pos| == |r|
    && (forall k :: 0 <= k < |pos| ==> 0 <= pos[k] < |registry| && registry[pos[k]] == r[k])
    && (forall k, l :: 0 <= k < l < |pos| ==> pos[k] < pos[l])
    && (forall i :: 0 <= i < |registry| && Upper(registry[i].hex) in candidates ==> i in pos)
  }

  /** A candidate colour appended to the registry is appended to the filtered list, at its position. */
  lemma PositionsKeep(pos: seq<int>, r: seq<PaletteColor>, init: seq<PaletteColor>, last: PaletteColor,
                      candidates: set<string>)
    requires FilterPositions(pos, r, init, candidates) && Upper(last.hex) in candidates
    ensures FilterPositions(pos + [|init|], r + [last], init + [last], candidates)
  {
    var pos', r', registry := pos + [|init|], r + [last], init + [last];
    forall k | 0 <= k < |pos'| ensures 0 <= pos'[k] < |registry| && registry[pos'[k]] == r'[k] {
      if k < |pos| {
        assert pos'[k] == pos[k] && r'[k] == r[k] && registry[pos[k]] == init[pos[k]];
      }
    }
    forall i | 0 <= i < |registry| && Upper(registry[i].hex) in candidates ensures i in pos' {
      if i < |init| {
        assert registry[i] == init[i];
      } else {
        assert pos'[|pos|] == i;
      }
    }
  }

  /** Any other colour appended to the registry leaves the filtered list and its positions alone. */
  lemma PositionsSkip(pos: seq<int>, r: seq<PaletteColor>, init: seq<PaletteColor>, last: PaletteColor,
                      candidates: set<string>)
    requires FilterPositions(pos, r, init, candidates) && Upper(last.hex) !in candidates
    ensures FilterPositions(pos, r, init + [last], candidates)
  {
    var registry := init + [last];
    forall k | 0 <= k < |pos| ensures registry[pos[k]] == r[k] {
      assert registry[pos[k]] == init[pos[k]];
    }
    forall i | 0 <= i < |registry| && Upper(registry[i].hex) in candidates ensures i in pos {
      assert i < |init| && registry[i] == init[i];
    }
  }

  /** The remap targets keep the registry order, which decides ties in the nearest-colour search. */
  lemma {:induction false} RemapTargetsInOrder(registry: seq<PaletteColor>, candidates: set<string>)
    ensures exists pos :: FilterPositions(pos, RemapTargets(registry, candidates), registry, candidates)
  {
    if registry == [] {
      var none: seq<int> := [];
      assert RemapTargets(registry, candidates) == [];
      assert FilterPositions(none, RemapTargets(registry, candidates), registry, candidates);
    } else {
      var init := registry[..|registry| - 1];
      var last := registry[|registry| - 1];
      assert registry == init + [last];
      var rest := RemapTargets(init, candidates);
      RemapTargetsInOrder(init, candidates);
      var pos: seq<int> :| FilterPositions(pos, rest, init, candidates);
      if Upper(last.hex) in candidates {
        assert RemapTargets(registry, candidates) == rest + [last];
        PositionsKeep(pos, rest, init, last, candidates);
      } else {
        assert RemapTargets(registry, candidates) == rest;
        PositionsSkip(pos, rest, init, last, candidates);
      }
    }
  }

  /** Entry `i` is the first registry colour whose upper-cased hex is `hexKey`. */
  predicate FirstWithHex(registry: seq<PaletteColor>, hexKey: string, i: int) {
    0 <= i < |registry| && Upper(registry[i].hex) == hexKey
    && forall j :: 0 <= j < i ==> Upper(registry[j].hex) != hexKey
  }

  /** `fullBeadPalette.find(...)`: the first registry colour whose upper-cased hex is `hexKey`. */
  function FindByHex(registry: seq<PaletteColor>, hexKey: string): (r: Option<PaletteColor>)
    ensures r.None? <==> forall j :: 0 <= j < |registry| ==> Upper(registry[j].hex) != hexKey
    ensures r.Some? ==> exists i :: FirstWithHex(registry, hexKey, i) && registry[i] == r.value
  {
    if registry == [] then None
    else if Upper(registry[0].hex) == hexKey then
      assert FirstWithHex(registry, hexKey, 0);
      Some(registry[0])
    else
      var r := FindByHex(registry[1..], hexKey);
      if r.Some? then
        var i :| FirstWithHex(registry[1..], hexKey, i) && registry[1..][i] == r.value;
        assert FirstWithHex(registry, hexKey, i + 1);
        r
      else
        assert forall j :: 1 <= j < |registry| ==> registry[j] == registry[1..][j - 1];
        r
  }

  /** Why an exclusion changes nothing; each refusal returns before any state is set. */
  datatype Refusal =
    | InitialKeysNotReady    // `initialGridColorKeys` is still empty
    | NoRemapTarget          // every other initial colour is excluded too, or absent from the registry
    | MissingData            // the colour is not in the registry, or there is no grid

  /**
   * The state an exclusion hands back: the recoloured grid, its recount under `ExcludeRule`, the new
   * excluded set, the replacement colour and the number of recoloured cells.
   */
  datatype Excluded = Excluded(grid: Grid, counts: map<string, int>, total: int, excluded: set<string>,
                               replacement: PaletteColor, remapped: nat)

  /** What a toggle does. */
  datatype Toggle =
    | Refused(why: Refusal)
    | Exclude(result: Excluded)
    | Reinclude(excluded: set<string>)   // and `remapTrigger` is bumped

  /** The cell an excluded cell becomes: the replacement's key and hex, still inside the pattern. */
  function Replacement(p: PaletteColor): Cell {
    Cell(p.key, p.hex, false)
  }

  /** A nearest-colour choice that always picks from the palette it is given. */
  ghost predicate PicksFromPalette(nearest: (Rgb, seq<PaletteColor>) -> PaletteColor) {
    forall rgb, palette :: |palette| > 0 ==> nearest(rgb, palette) in palette
  }

  /**
   * `handleToggleExcludeColor(hexKey)`. The nearest-colour search (`findClosestPaletteColor`) is the
   * parameter `nearest`; `grid`/`dims` are `mappedPixelData`/`gridDimensions`.
   */
  method ToggleExclude(registry: seq<PaletteColor>, initialKeys: set<string>, excluded: set<string>, hexKey: string,
                       grid: Option<Grid>, dims: Option<Dims>, nearest: (Rgb, seq<PaletteColor>) -> PaletteColor)
    returns (t: Toggle)
    requires PicksFromPalette(nearest)
    requires grid.Some? && dims.Some? ==> Rectangular(grid.value, dims.value.m, dims.value.n)
    ensures hexKey in excluded ==> t == Reinclude(excluded - {hexKey})
    ensures hexKey !in excluded && initialKeys == {} ==> t == Refused(InitialKeysNotReady)
    ensures var targets := RemapTargets(registry, RemapCandidates(initialKeys, hexKey, excluded));
      hexKey !in excluded && initialKeys != {} ==>
        (targets == [] ==> t == Refused(NoRemapTarget))
        && (targets != [] && (FindByHex(registry, hexKey).None? || grid.None? || dims.None?) ==> t == Refused(MissingData))
        && (targets != [] && FindByHex(registry, hexKey).Some? && grid.Some? && dims.Some? ==>
              t.Exclude?
              && t.result.replacement == nearest(FindByHex(registry, hexKey).value.rgb, targets)
              && t.result.excluded == excluded + {hexKey}
              && Rectangular(t.result.grid, dims.value.m, dims.value.n)
              && (forall r, c :: 0 <= r < dims.value.m && 0 <= c < dims.value.n ==>
                    t.result.grid[r][c] == RecolorCell(grid.value[r][c], hexKey, Replacement(t.result.replacement)))
              && t.result.remapped == CountMatches(Flatten(grid.value), hexKey)
              && Tallies(t.result.counts, multiset(GridLabels(ExcludeRule, t.result.grid)))
              && t.result.total == |GridLabels(ExcludeRule, t.result.grid)|)
  {
    if hexKey in excluded {
      return Reinclude(excluded - {hexKey});
    }
    if initialKeys == {} {
      return Refused(InitialKeysNotReady);
    }
    var targets := RemapTargets(registry, RemapCandidates(initialKeys, hexKey, excluded));
    if targets == [] {
      return Refused(NoRemapTarget);
    }
    var data := FindByHex(registry, hexKey);
    if data.None? || grid.None? || dims.None? {
      return Refused(MissingData);
    }
    var replacement := nearest(data.value.rgb, targets);
    var recolored, remapped := RecolorCells(grid.value, dims.value.m, dims.value.n, hexKey, Replacement(replacement));
    var _, counts, total := Recount(ExcludeRule, recolored);
    t := Exclude(Excluded(recolored, counts, total, excluded + {hexKey}, replacement, remapped));
  }

  /** Exclusions that went through, for the grid and dimensions they started from. */
  ghost predicate ExclusionOf(registry: seq<PaletteColor>, initialKeys: set<string>, excluded: set<string>,
                              hexKey: string, g: Grid, d: Dims,
                              nearest: (Rgb, seq<PaletteColor>) -> PaletteColor, e: Excluded) {
    var targets := RemapTargets(registry, RemapCandidates(initialKeys, hexKey, excluded));
    PicksFromPalette(nearest)
    && hexKey !in excluded && targets != [] && FindByHex(registry, hexKey).Some?
    && Rectangular(g, d.m, d.n)
    && e.replacement == nearest(FindByHex(registry, hexKey).value.rgb, targets)
    && Rectangular(e.grid, d.m, d.n)
    && (forall r, c :: 0 <= r < d.m && 0 <= c < d.n ==> e.grid[r][c] == RecolorCell(g[r][c], hexKey, Replacement(e.replacement)))
    && Tallies(e.counts, multiset(GridLabels(ExcludeRule, e.grid)))
  }

  /**
   * The replacement is one of the colours the grid started with, and neither the excluded colour
   * nor any colour excluded before.
   */
  lemma ReplacementFromInitialColors(registry: seq<PaletteColor>, initialKeys: set<string>, excluded: set<string>,
                                     hexKey: string, g: Grid, d: Dims,
                                     nearest: (Rgb, seq<PaletteColor>) -> PaletteColor, e: Excluded)
    requires ExclusionOf(registry, initialKeys, excluded, hexKey, g, d, nearest, e)
    ensures e.replacement in registry
    ensures Upper(e.replacement.hex) in initialKeys
    ensures Upper(e.replacement.hex) != hexKey && Upper(e.replacement.hex) !in excluded
  {
    var targets := RemapTargets(registry, RemapCandidates(initialKeys, hexKey, excluded));
    assert e.replacement in targets;
  }

  /** After an exclusion no cell inside the pattern has the excluded colour, and it is not counted. */
  lemma ExcludedColorGone(registry: seq<PaletteColor>, initialKeys: set<string>, excluded: set<string>,
                          hexKey: string, g: Grid, d: Dims,
                          nearest: (Rgb, seq<PaletteColor>) -> PaletteColor, e: Excluded)
    requires ExclusionOf(registry, initialKeys, excluded, hexKey, g, d, nearest, e)
    ensures forall r, c :: 0 <= r < d.m && 0 <= c < d.n ==> !Matches(e.grid[r][c], hexKey)
    ensures hexKey !in e.counts
  {
    ReplacementFromInitialColors(registry, initialKeys, excluded, hexKey, g, d, nearest, e);
    var rep := Replacement(e.replacement);
    assert !Matches(rep, hexKey);
    forall r, c | 0 <= r < d.m && 0 <= c < d.n ensures !Matches(e.grid[r][c], hexKey) {
      assert e.grid[r][c] == RecolorCell(g[r][c], hexKey, rep);
    }
    LabelAbsentFromGrid(ExcludeRule, e.grid, hexKey);
    var ms := multiset(GridLabels(ExcludeRule, e.grid));
    assert hexKey !in ms;
  }

  /**
   * Once every initial colour other than `hexKey` is excluded, excluding `hexKey` as well finds no
   * target: with two initial colours, the second cannot be excluded after the first.
   */
  lemma LastColorCannotBeExcluded(registry: seq<PaletteColor>, initialKeys: set<string>, excluded: set<string>,
                                  hexKey: string)
    requires initialKeys <= excluded + {hexKey}
    ensures RemapTargets(registry, RemapCandidates(initialKeys, hexKey, excluded)) == []
  {
    assert RemapCandidates(initialKeys, hexKey, excluded) == {};
    if RemapTargets(registry, {}) != [] {
      assert RemapTargets(registry, {})[0] in RemapTargets(registry, {});
    }
  }
}
