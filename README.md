# Perler-bead pattern grid engine, in Dafny

This project models the grid engine of a web tool that turns an image into a perler-bead
pattern. The pattern is an M x N grid of cells (`MappedPixel`). Each cell has a colour key, a
hex colour and an `isExternal` flag for cells outside the shape. Next to the grid the tool keeps
colour statistics (`colorCounts`, `totalBeadCount`).

The model covers these parts:

- **Merge**: the global colour merger of `pixelateImage`. Colours are ordered by frequency, and
  each surviving colour absorbs every later colour closer than the similarity threshold. The merged
  grid is then recounted.
- **Exclusion**: excluding a colour recolours its cells with the nearest remaining initial
  colour; re-including it restores the set.
- **Replacement**: the global colour replacement.
- **Regions**: the one-click flood erase, and the automatic background removal (a flood from
  the border in the most frequent border colour).
- **Painting**: manual colouring and the magnifier editor. Both update the counts by a
  single-cell delta.
- **Sorting**: the colour-key comparator `sortColorKeys`.
- **Parameters**: clamping of the granularity and similarity inputs.
- **Saved selections**: validation of palette selections restored from local storage.
- **Utilities**: `hexToRgb`, CSV export and import, and browser environment detection.

Handlers that change React state are modelled as methods. Each one takes the state it reads and
returns the state it writes (grid, counts, total, excluded set, and so on). The grid copies the
source makes are `seq<seq<Cell>>` values that the loops update cell by cell.
The flood fills keep the source's stack and visited marks. Their results are proved equal to
a reference definition: a cell becomes transparent exactly when a 4-connected walk through
non-external cells of the target key reaches it from a seed (`Cells.Reachable`).

Modules: `Outcome` (Option/Result), `Text` (trim, split, join, upper-casing, JS white space),
`HexColor`, `Cells` (grid model, adjacency, reachability), `Stats` (count maps, recounts and
deltas), `Merge`, `Edits`, `Exclusion`, `Regions`, `Painting`, `Selection`, `Params`,
`ColorKeys`, `Csv`, `Environment`.

Two behaviours of the code worth knowing:

- Flood erase and colour replacement recompute the whole count map after editing. They do not
  apply incremental deltas.
- The recounts differ in what they count and how they label (`Stats.CountRule`). The merger's
  recount labels cells by their colour as written and counts non-external cells with a non-empty
  key. The exclusion recount labels by upper-cased colour and counts non-external cells with a
  non-empty colour; it does not skip the transparent key. The recounts after flood erase,
  colour replacement and background removal label by upper-cased colour and leave out external
  cells and the transparent key.

What the proofs bring out about the code:

- The merger rewrites every cell holding an absorbed key, external cells included. The cell it
  writes is marked non-external.
- Colour replacement matches on colour alone, so a transparent cell whose colour equals the
  source colour is recoloured too.
- Background removal's "no removable region" refusal (the empty-stack check) can never fire.
  `Regions.SeededStackNonEmpty` proves that some border cell of the chosen colour is always
  seeded, so the model has no branch for it.
- The magnifier delta is keyed by cell key and ignores `isExternal` (`Stats.MagnifierDeltaSum`).
  Magnifying an external cell whose key has an entry takes one from that entry and adds one for
  the new cell, so the total stays the same although one more cell is now inside the pattern
  (`Stats.MagnifyExternalCell`).
- The import's `M === 0` and `N === 0` refusals cannot fire either: splitting a string always
  yields at least one piece.
- The greedy merge is not monotone in the threshold. Take colours A=(116,100,100) with 4 cells,
  B=(100,100,100) with 3, C=(92,113,100) with 2 and D=(92,87,100) with 1. A threshold of 16
  leaves {A, B}: A is exactly 16 from B, so B survives and absorbs C and D. A threshold of 20
  leaves {A, C, D}: A absorbs B, and C and D are 26 apart. A larger threshold can thus leave more
  colours (`Merge.ThresholdNotMonotone`). The properties below are stated for one threshold at a time.

## Model

| member | source | states |
|---|---|---|
| HexColor.HexToRgb | src/utils/imageDownloader.ts:15-26 | decodes exactly the texts with an optional `#` and three or six hex digits; a shorthand digit `d` gives channel 17·d, six digits give three two-digit bytes; every channel is in 0..255 |
| HexColor.HexToRgbUpper | src/utils/imageDownloader.ts:15-26 | the decoder is case-insensitive: upper-casing the text never changes the result |
| HexColor.HexColor6Decodes | src/utils/imageDownloader.ts:166-177 | every colour the CSV import accepts (`#` and six hex digits) decodes to a colour |
| HexColor.UpperHexColor6 | src/utils/imageDownloader.ts:166-177 | an accepted CSV colour stays accepted when upper-cased, and upper-casing it again changes nothing |
| ColorKeys.ParseKey | src/app/page.tsx:46-48 | finds `/^([A-Z]+)(\d+)$/` exactly: a match splits the key into a non-empty letter prefix and a non-empty digit suffix with its decimal value, and every such split is the match |
| ColorKeys.SortColorKeys | src/app/page.tsx:45-63 | when either key is not a letter prefix plus digits the result is `localeCompare`'s; for two keys of the same prefix it is negative, zero or positive exactly as the first number is smaller than, equal to or larger than the second |
| ColorKeys.SameFamilyByNumber | src/app/page.tsx:50-59 | two keys with the same letter prefix compare by the numeric value of their digits |
| ColorKeys.TwoBeforeTen | src/app/page.tsx:45-63 | `A2` sorts before `A10` (numeric, not textual order) |
| ColorKeys.FamiliesByPrefix | src/app/page.tsx:56-58 | well-formed keys with different prefixes compare as their prefixes do under `localeCompare` |
| ColorKeys.SortColorKeysAntisymmetric | src/utils/imageDownloader.ts:29-47 | for an antisymmetric `localeCompare`, swapping the two keys negates the comparison |
| Params.ParseIntDecimal | src/app/page.tsx:665 | `parseInt(s, 10)`: a number exactly when, after leading white space and one sign, a digit follows; its value is the signed value of the leading digit run |
| Params.ParseIntOfNatToString | src/app/page.tsx:707-708 | the text written back into an input parses to the same number |
| Params.Clamp | src/app/page.tsx:667-671 | the result lies in the range; an in-range number is kept; no number or one below the range gives the minimum; one above gives the maximum |
| Params.ConfirmParameters | src/app/page.tsx:661-709 | each new value is the clamp of its parsed input (granularity to 10..300, similarity to 0..100); the texts written back are the decimal forms of the new values and parse to them; `changed` exactly when either value differs from the current one |
| Params.ConfirmTwiceIsStable | src/app/page.tsx:661-709 | confirming the written-back texts again changes nothing and gives the same values |
| Environment.FindWebViewApp | src/utils/downloadUtils.ts:38-55 | no app exactly when the user agent contains no pattern; otherwise the app of the first pattern it contains, never `unknown` |
| Environment.DetectEnvironment | src/utils/downloadUtils.ts:21-87 | no `window` gives the desktop default; mobile exactly when the agent names an iPhone, iPad, iPod or Android device, desktop otherwise; `unknown` app exactly when no pattern matches on a mobile agent with a generic WebView signal; an agent containing a pattern always gets an app, that of the first pattern it contains; a WebView exactly when an app is set; iOS Safari exactly when iOS, Safari, no other iOS browser and no WebView |
| Environment.AppNamesDistinct | src/utils/downloadUtils.ts:92-102 | distinct apps get distinct display names, and no app (`undefined`) gets the same generic name as `unknown` |
| Stats.Recount | src/app/page.tsx:1301-1321 | the rebuilt count map tallies exactly the labels of the counted cells, the keys in first-appearance order, and the total is their number |
| Stats.SumCounts | src/app/page.tsx:245 | `Object.values(...).reduce` is the sum of the map's counts |
| Stats.TalliesSum | src/app/page.tsx:928-942 | the counts of a correct count map add up to the number of counted cells |
| Stats.ManualEditDelta | src/app/page.tsx:1410-1443 | the total drops by one when the previous cell is taken off (counted, with a colour that has an entry) and rises by one when the new cell is counted; the previous colour's entry is decremented and deleted at zero or below, the new colour's entry is incremented or created at one, and when both are the same colour the two steps compose; every other colour keeps its count and presence |
| Stats.MagnifierDelta | src/app/page.tsx:219-246 | for distinct keys the new key's count is its old count plus one (one when absent) and the old key's count drops by one, its entry disappearing exactly when the count was one; for equal keys the count is unchanged (one when absent); every other key keeps its count and presence |
| Stats.ManualEditDeltaConserves | src/app/page.tsx:1410-1443 | applied to correct counts, the manual-colouring delta gives the counts and total a full recount of the edited grid would give |
| Stats.MagnifierDeltaConserves | src/app/page.tsx:219-246 | applied to counts keyed by cell key over all cells, the magnifier delta gives the counts of the edited grid, and their sum is its cell count |
| Stats.MagnifierDeltaKeepsColourCounts | src/app/page.tsx:219-246 | when both cells are counted and their keys are their upper-cased colours, the magnifier delta also keeps the colour counts correct |
| Stats.MagnifierDeltaSum | src/app/page.tsx:219-246 | the delta keeps the sum of the counts when the old key has an entry and adds one when it has none, whatever the cells' `isExternal` flags |
| Stats.MagnifyExternalCell | src/app/page.tsx:219-246 | magnifying an external cell that shares its key with one counted cell gives counts `{N: 1}` from `{K: 1}`: the total stays 1 while the pattern gains a cell |
| Merge.PaletteIndexLast | src/app/page.tsx:823-828 | every key of the palette index maps to the last palette colour with that key |
| Merge.PaletteIndexHasKeys | src/app/page.tsx:823-828 | every palette key is in the index |
| Merge.IndexPalette | src/app/page.tsx:823-828 | the `forEach` loop builds exactly the palette index, whose last-wins and key properties are the two rows above |
| Merge.SortByCountSorted | src/app/page.tsx:840-842 | the frequency order is sorted by descending count |
| Merge.SortByCountPermutation | src/app/page.tsx:840-842 | the frequency order is a permutation of the counted keys |
| Merge.SortByCountStable | src/app/page.tsx:840-842 | keys with equal counts keep their original order (stable sort) |
| Merge.FrequencyOrderDistinct | src/app/page.tsx:831-842 | the frequency order lists each colour once |
| Merge.FrequencyOrderMembers | src/app/page.tsx:831-842 | a key is in the frequency order exactly when some counted cell of the initial grid bears it |
| Merge.MergeSimilar | src/app/page.tsx:862-914 | the merged grid is the initial grid with every absorbed key resolved to its absorber's colour; the replaced set is exactly the set of absorbed keys |
| Merge.AbsorbedOnlyWhenClose | src/app/page.tsx:875-895 | an absorbed colour has an RGB value, lies later in the frequency order than its absorber, is strictly closer than the threshold to it, and its absorber is never absorbed |
| Merge.SurvivorsApart | src/app/page.tsx:862-914 | any two surviving colours with RGB values are at least the threshold apart |
| Merge.SurvivorsAreApart | src/app/page.tsx:862-914 | any list of distinct surviving colours is pairwise at least the threshold apart, in both orders |
| Merge.AbsorptionsApart | src/app/page.tsx:862-914 | when every pair of colours is already at least the threshold apart, the merger absorbs nothing |
| Merge.ThresholdNotMonotone | src/app/page.tsx:862-914 | on the four colours A, B, C, D a squared threshold of 256 absorbs C and D into B, while 400 absorbs only B into A |
| Merge.MostFrequentKept | src/app/page.tsx:862-866 | the most frequent colour is never absorbed |
| Merge.ZeroThresholdMergesNothing | src/app/page.tsx:891 | with threshold 0 nothing is merged |
| Merge.AbsorptionsGrow | src/app/page.tsx:859-914 | an absorption, once made, is never changed by later steps |
| Merge.MergedHasNoAbsorbedKey | src/app/page.tsx:898-911 | no cell of the merged grid holds an absorbed key |
| Merge.ResolveIdempotent | src/app/page.tsx:898-911 | resolving a merged cell again changes nothing |
| Merge.MergeColors | src/app/page.tsx:822-943 | the merged grid is the cellwise resolution of the initial grid; its counts tally the merged grid's labels; the total is their number and their sum; the initial keys are the count keys |
| Merge.MergedCellSurvives | src/app/page.tsx:898-911 | every counted cell of the merged grid bears a key of the frequency order that is not absorbed |
| Merge.MergedKeysSurvive | src/app/page.tsx:898-911 | every key in the frequency order of the merged grid is in the initial frequency order and is not absorbed |
| Merge.RemergeChangesNothing | src/app/page.tsx:822-943 | merging a merged grid again at the same threshold absorbs nothing and changes no cell (the merge is idempotent) |
| Edits.RecolorCells | src/app/page.tsx:1723-1737 | each non-external cell of the source colour (ignoring case) becomes the target cell, every other cell is unchanged, and the count is the number of matching cells |
| Edits.RecolorRow | src/app/page.tsx:1723-1737 | the inner loop over one row replaces exactly its matching cells and counts them, keeping the row's length |
| Edits.RecolorRemovesColor | src/app/page.tsx:1723-1737 | after recolouring to a cell of another colour, no cell of the source colour remains |
| Edits.ReplaceColor | src/app/page.tsx:1715-1777 | no grid or dimensions gives no change; otherwise the replace count is the number of matching cells; zero leaves grid and counts alone; otherwise the grid is recoloured and, when counts exist, recounted exactly |
| Exclusion.RemapCandidates | src/app/page.tsx:1044-1054 | the candidates are the initial keys other than the excluded key and the keys excluded before |
| Exclusion.RemapTargets | src/app/page.tsx:1058 | the targets are exactly the registry colours whose upper-cased hex is a candidate |
| Exclusion.RemapTargetsInOrder | src/app/page.tsx:1058 | the targets keep registry order: they are taken from increasing registry positions, and every candidate's position is among them, so the order `nearest` sees (and its tie-breaking) is the registry's |
| Exclusion.FindByHex | src/app/page.tsx:1072 | none exactly when no registry colour has the hex; otherwise the first that has it |
| Exclusion.ToggleExclude | src/app/page.tsx:1023-1151 | re-including drops the key from the excluded set; excluding is refused when the initial keys are not ready, when there is no remap target, or when data is missing; otherwise the grid is recoloured with the nearest target, the key is added to the excluded set, and the counts are an exact recount |
| Exclusion.ReplacementFromInitialColors | src/app/page.tsx:1044-1094 | the replacement colour is in the registry, was in the initial grid, and is neither the excluded colour nor an earlier excluded one |
| Exclusion.ExcludedColorGone | src/app/page.tsx:1088-1123 | after an exclusion no cell of the excluded colour remains and it has no count |
| Exclusion.LastColorCannotBeExcluded | src/app/page.tsx:1063-1068 | when every other initial colour is already excluded, there is no remap target, so the exclusion is refused |
| Regions.FloodFillErase | src/app/page.tsx:1257-1295 | each cell reachable from the start through non-external cells of the key becomes transparent; every other cell is unchanged |
| Regions.EraseRegion | src/app/page.tsx:1257-1322 | no grid or dimensions gives no change; otherwise the flood result, with an exact recount when counts exist |
| Regions.EraseClick | src/app/page.tsx:1375-1383 | a click in erase mode erases exactly when the cell is in range, inside the pattern, keyed and not transparent, and then leaves erase mode; the clicked cell becomes transparent along with its whole region; without counts the counts stay absent and the total is kept, with counts they are an exact recount of the erased grid |
| Regions.FloodedOnlyTargets | src/app/page.tsx:1265-1295 | a flood changes only reachable, non-external cells of its key |
| Regions.FloodedClosed | src/app/page.tsx:1289-1294 | a flood leaves no cell of its key adjacent to the erased region |
| Regions.BorderPositionsExact | src/app/page.tsx:1169-1176 | the border walk visits exactly the cells in the first or last row or column |
| Regions.MostFrequent | src/app/page.tsx:1183-1190 | the chosen key is the first in order with the largest count, or empty when there is none |
| Regions.TallyBorder | src/app/page.tsx:1161-1176 | the border tally counts each non-external, non-transparent border cell under its key, in first-appearance order, and is empty exactly when no border cell counts |
| Regions.SeededStackNonEmpty | src/app/page.tsx:1206-1218 | after seeding from the border with a colour that occurs there, the stack is not empty |
| Regions.PushIfTarget | src/app/page.tsx:1196-1204 | an in-range, unvisited, non-external cell of the target key is marked visited and pushed; any other position leaves stack and marks unchanged |
| Regions.SeedBorder | src/app/page.tsx:1206-1213 | after the seeding loops the flood invariant holds with the border as seeds, and the marked positions are exactly those on the stack |
| Regions.FillStep | src/app/page.tsx:1220-1227 | one pop keeps the flood invariant and strictly decreases the unvisited positions plus the stack length, so the loop ends |
| Regions.FloodFromBorder | src/app/page.tsx:1192-1227 | every cell reachable from a border cell through non-external cells of the key becomes transparent; every other cell is unchanged |
| Regions.RemoveBackground | src/app/page.tsx:1154-1250 | no grid gives the first refusal; no counted border cell gives the second; otherwise the target is the most frequent border key, the flood from the border removes its region, and counts, total and initial keys are an exact recount |
| Painting.ManualColor | src/app/page.tsx:1386-1444 | the cell is written only when its key or external flag changes; the counts then follow the manual delta, and correct counts stay correct |
| Painting.MagnifierEdit | src/app/page.tsx:201-248 | without a grid nothing happens; otherwise exactly the edited cell changes; when counts exist they follow the magnifier delta and the total is their sum |
| Selection.ValidateSelections | src/app/page.tsx:315-336 | keeps the valid entries under their upper-cased keys, counts valid entries, and the two counters add up to the number of entries; `hasValidData` exactly when some entry is valid |
| Selection.KeptKeys | src/app/page.tsx:327-331 | a key is kept exactly when some valid entry upper-cases to it |
| Selection.KeptKeysValid | src/app/page.tsx:329-330 | every kept key is an upper-case six-digit colour of the palette |
| Selection.KeptLastWins | src/app/page.tsx:327-331 | a kept key holds the value of the last valid entry for it |
| Selection.ValidCountPositive | src/app/page.tsx:323-332 | some entry is valid exactly when at least one selection is kept |
| Csv.ExportCsv | src/utils/imageDownloader.ts:50-86 | no grid or dimensions gives the refusal; otherwise the text is the rows joined by line feeds, each row's fields joined by commas |
| Csv.ExportTextFacts | src/utils/imageDownloader.ts:50-86 | an exported text is non-empty and splits back into exactly its rows |
| Csv.ImportShape | src/utils/imageDownloader.ts:124-188 | an accepted import has at least one row and column, is rectangular, and has only upper-case inner cells or transparent external ones |
| Csv.ImportAccepts | src/utils/imageDownloader.ts:108-188 | an import succeeds exactly when the text is non-empty and every line has as many fields as the first, each readable as a cell |
| Csv.ImportCells | src/utils/imageDownloader.ts:108-188 | on success the dimensions are the first line's field count by the line count, and each cell is the reading of its trimmed field |
| Csv.ImportCsv | src/utils/imageDownloader.ts:108-188 | the import loops compute exactly the import function characterised by the rows above |
| Csv.ImportRow | src/utils/imageDownloader.ts:154-179 | the loop over one line's fields computes exactly the field parse of that line |
| Csv.ImportErrorExplained | src/utils/imageDownloader.ts:117-170 | the empty-file error arises exactly for an empty text; any other error is a column-count mismatch naming its 1-based row, the count expected and the count found, or a bad colour naming its 1-based row, column and trimmed value; the row it names is a line of the file and every line before it has the expected number of fields, all readable, so it is the first faulty line |
| Csv.ImportExportRoundTrip | src/utils/imageDownloader.ts:50-188 | importing an export gives back its grid, with colours upper-cased and outer cells as the transparent mark, and its dimensions |
| Csv.ImportExportIdentity | src/utils/imageDownloader.ts:50-188 | a grid already in imported form is reproduced exactly |
| Csv.ExportFieldReadBack | src/utils/imageDownloader.ts:74-80 | each exported field reads back to its cell in imported form |

## Left out

- Pixelation (`calculatePixelGrid`), image loading, canvas drawing, downloads, the tooltip,
  highlighting and the UI mode flags other than erase mode: these are I/O and rendering.
- `colorDistance` is Euclidean over RGB. The test `dist < threshold` is decided exactly on
  integer squares, `Dist2 < threshold²`; no floating point is modelled.
- `findClosestPaletteColor` is in a file that is not part of this model. The exclusion takes it as
  a parameter that picks from the palette it is given.
- The transparent cell `transparentColorData` and its key come from src/utils/pixelEditingUtils.ts,
  which is not part of this model. Both are parameters.
- `localeCompare` is a parameter of the comparator; only its antisymmetry is assumed where used.
- `toUpperCase` is modelled for ASCII letters only; the keys and colours involved are ASCII.
- The visited matrices of the flood fills are modelled as sets of positions.
- The shallow copies `{ ...colorCounts }` in manual colouring and in the magnifier share their
  count objects with the previous state, and the source mutates them. The model returns fresh
  maps; this aliasing is not modelled.
- Painting.MagnifierEdit: requires `row` and `col` to lie inside the grid. Out of range, the source
  returns an unchanged copy when there are no counts, and throws at `oldPixel.key` when there are;
  neither outcome is modelled, and the caller in the magnifier component is not part of this model.
- The magnifier writes a cell with no `isExternal` field; the model writes `false`. Every reader
  but one treats `undefined` as `false`. The exception is manual colouring's change test at
  src/app/page.tsx:1406, `newCellData.isExternal !== wasExternal`, where `false !== undefined`.
- Painting.ManualColor: on a cell the magnifier wrote, colouring it with the same key still writes
  the cell in the source and applies the whole count delta, which can create an entry for the
  colour and raise the total by one. The model sees `false` on both sides, so it keeps the grid,
  counts and total unchanged; that write and delta are not captured.
- Rows shorter than N (the `?.` reads) are excluded by the callers' `Rectangular` precondition;
  the source builds every grid rectangular.
- The select-source click of colour replacement and the reset of the replace state are UI steps.
- Loading selections: only the validation loop is modelled, not the `localStorage` read nor the
  branch after it that saves or clears the selections.
- Object iteration order is taken as insertion order. This holds for the hex-string keys used.
- Painting.ManualColor: the count-conservation ensures requires that a counted previous cell has a
  non-empty colour, because for an empty colour the source skips the decrement.
- Stats.MagnifierDeltaKeepsColourCounts: stated only when both the old and the new cell are
  counted and each cell's key is its upper-cased colour, because the magnifier delta is keyed by
  cell key while the other recounts are keyed by colour.
- Stats.MagnifierDeltaConserves: assumes counts keyed by cell key over all cells, external and
  transparent ones included. The page never holds such a map; the lemma states only what the
  delta does to one.
- ColorKeys.SortColorKeys: the numbers are exact unbounded integers. The source's `parseInt`
  yields doubles, which lose precision past 2^53, so two long digit runs can compare equal there.
