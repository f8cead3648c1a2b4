/**
 * The global colour merger of `pixelateImage` (src/app/page.tsx:822-943): the initial grid is
 * counted by colour key, the keys are sorted by descending frequency, and each colour that has not
 * been absorbed yet absorbs every later, not yet absorbed colour closer to it than the similarity
 * threshold, rewriting that colour's cells to its own. The merged grid is then recounted.
 *
 * Distances are Euclidean over the RGB channels; `dist < threshold` is decided on squares,
 * `Dist2(a, b) < threshold * threshold`, which is the same test for a threshold that is not negative.
 */
module Merge {
  import opened HexColor
  import opened Cells
  import opened Stats

  function Square(x: int): (s: int)
    ensures s >= 0 && (s == 0 <==> x == 0)
  {
    x * x
  }

  /** The squared Euclidean distance of two colours. */
  function Dist2(a: Rgb, b: Rgb): (d: int)
    ensures d >= 0
    ensures d == 0 <==> a == b
  {
    Square(a.r - b.r) + Square(a.g - b.g) + Square(a.b - b.b)
  }

  /** The distance does not depend on the order of the two colours. */
  lemma Dist2Symmetric(a: Rgb, b: Rgb)
    ensures Dist2(a, b) == Dist2(b, a)
  {
    assert Square(a.r - b.r) == Square(b.r - a.r);
    assert Square(a.g - b.g) == Square(b.g - a.g);
    assert Square(a.b - b.b) == Square(b.b - a.b);
  }

  // ---------------------------------------------------------------- the palette index

  /** `keyToColorDataMap` (and with it `keyToRgbMap`): `Map.set` for every palette entry in turn. */
  function PaletteIndex(palette: seq<PaletteColor>): map<string, PaletteColor> {
    if palette == [] then map[]
    else
      var last := palette[|palette| - 1];
      PaletteIndex(palette[..|palette| - 1])[last.key := last]
  }

  /** Entry `i` is the last palette entry with key `k`. */
  predicate LastWithKey(palette: seq<PaletteColor>, k: string, i: int) {
    0 <= i < |palette| && palette[i].key == k && forall j :: i < j < |palette| ==> palette[j].key != k
  }

  /** The index holds every palette key. */
  lemma {:induction false} PaletteIndexHasKeys(palette: seq<PaletteColor>)
    ensures forall i :: 0 <= i < |palette| ==> palette[i].key in PaletteIndex(palette)
  {
    if palette != [] {
      var init := palette[..|palette| - 1];
      PaletteIndexHasKeys(init);
      forall i | 0 <= i < |init| ensures palette[i].key in PaletteIndex(palette) {
        assert palette[i] == init[i];
      }
    }
  }

  /** Each key of the index maps to the last palette entry with that key: later entries win. */
  lemma {:induction false} PaletteIndexLast(palette: seq<PaletteColor>)
    ensures forall k :: k in PaletteIndex(palette) ==>
      exists i :: LastWithKey(palette, k, i) && PaletteIndex(palette)[k] == palette[i]
  {
    if palette != [] {
      var init, last := palette[..|palette| - 1], palette[|palette| - 1];
      PaletteIndexLast(init);
      var index := PaletteIndex(palette);
      forall k | k in index ensures exists i :: LastWithKey(palette, k, i) && index[k] == palette[i] {
        if k == last.key {
          assert LastWithKey(palette, k, |init|);
        } else {
          assert k in PaletteIndex(init) && index[k] == PaletteIndex(init)[k];
          var i :| LastWithKey(init, k, i) && PaletteIndex(init)[k] == init[i];
          assert LastWithKey(palette, k, i);
        }
      }
    }
  }

  /** The `currentPalette.forEach` loop that fills the index. */
  method IndexPalette(palette: seq<PaletteColor>) returns (index: map<string, PaletteColor>)
    ensures index == PaletteIndex(palette)
  {
    index := map[];
    for i := 0 to |palette|
      invariant index == PaletteIndex(palette[..i])
    {
      assert palette[..i + 1][..i] == palette[..i];
      index := index[palette[i].key := palette[i]];
    }
    assert palette[..|palette|] == palette;
  }

  // ---------------------------------------------------------------- sorting by frequency

  function CountOf(counts: map<string, int>, k: string): int {
    if k in counts then counts[k] else 0
  }

  predicate SortedByCount(s: seq<string>, counts: map<string, int>) {
    forall i, j :: 0 <= i < j < |s| ==> CountOf(counts, s[i]) >= CountOf(counts, s[j])
  }

  /** Places `x` after every element counted at least as often, before the first counted less. */
  function InsertByCount(x: string, s: seq<string>, counts: map<string, int>): seq<string> {
    if s == [] then [x]
    else if CountOf(counts, s[0]) >= CountOf(counts, x) then [s[0]] + InsertByCount(x, s[1..], counts)
    else [x] + s
  }

  /** `.sort((a, b) => b[1] - a[1])` on the count entries: a stable sort by descending count. */
  function SortByCount(keys: seq<string>, counts: map<string, int>): seq<string> {
    if keys == [] then []
    else InsertByCount(keys[|keys| - 1], SortByCount(keys[..|keys| - 1], counts), counts)
  }

  /** The elements of `s` counted exactly `v` times, in order. */
  function WithCount(s: seq<string>, counts: map<string, int>, v: int): seq<string> {
    if s == [] then []
    else (if CountOf(counts, s[0]) == v then [s[0]] else []) + WithCount(s[1..], counts, v)
  }

  lemma {:induction false} WithCountAppend(a: seq<string>, b: seq<string>, counts: map<string, int>, v: int)
    ensures WithCount(a + b, counts, v) == WithCount(a, counts, v) + WithCount(b, counts, v)
  {
    if a != [] {
      assert (a + b)[1..] == a[1..] + b;
      WithCountAppend(a[1..], b, counts, v);
    } else {
      assert a + b == b;
    }
  }

  lemma {:induction false} WithCountNone(s: seq<string>, counts: map<string, int>, v: int)
    requires forall i :: 0 <= i < |s| ==> CountOf(counts, s[i]) < v
    ensures WithCount(s, counts, v) == []
  {
    if s != [] {
      WithCountNone(s[1..], counts, v);
    }
  }

  lemma {:induction false} InsertByCountMultiset(x: string, s: seq<string>, counts: map<string, int>)
    ensures multiset(InsertByCount(x, s, counts)) == multiset(s) + multiset{x}
  {
    if s != [] && CountOf(counts, s[0]) >= CountOf(counts, x) {
      InsertByCountMultiset(x, s[1..], counts);
      assert s == [s[0]] + s[1..];
    }
  }

  lemma {:induction false} InsertByCountSorted(x: string, s: seq<string>, counts: map<string, int>)
    requires SortedByCount(s, counts)
    ensures SortedByCount(InsertByCount(x, s, counts), counts)
  {
    var r := InsertByCount(x, s, counts);
    if s != [] && CountOf(counts, s[0]) >= CountOf(counts, x) {
      InsertByCountSorted(x, s[1..], counts);
      InsertByCountMultiset(x, s[1..], counts);
      var t := InsertByCount(x, s[1..], counts);
      assert r == [s[0]] + t;
      forall j | 0 <= j < |t| ensures CountOf(counts, s[0]) >= CountOf(counts, t[j]) {
        assert t[j] in multiset(t);
        if t[j] != x {
          assert t[j] in multiset(s[1..]);
          var k :| 0 <= k < |s[1..]| && s[1..][k] == t[j];
          assert s[k + 1] == t[j];
        }
      }
    }
  }

  lemma {:induction false} InsertByCountStable(x: string, s: seq<string>, counts: map<string, int>, v: int)
    requires SortedByCount(s, counts)
    ensures WithCount(InsertByCount(x, s, counts), counts, v)
      == WithCount(s, counts, v) + (if CountOf(counts, x) == v then [x] else [])
  {
    var fx := if CountOf(counts, x) == v then [x] else [];
    if s == [] {
      assert InsertByCount(x, s, counts) == [x];
      assert WithCount([x], counts, v) == fx + WithCount([], counts, v);
    } else if CountOf(counts, s[0]) >= CountOf(counts, x) {
      var f0 := if CountOf(counts, s[0]) == v then [s[0]] else [];
      var t := InsertByCount(x, s[1..], counts);
      assert SortedByCount(s[1..], counts) by {
        forall i, j | 0 <= i < j < |s[1..]| ensures CountOf(counts, s[1..][i]) >= CountOf(counts, s[1..][j]) {
          assert s[1..][i] == s[i + 1] && s[1..][j] == s[j + 1];
        }
      }
      InsertByCountStable(x, s[1..], counts, v);
      var r := [s[0]] + t;
      assert r[1..] == t;
      assert WithCount(r, counts, v) == f0 + WithCount(t, counts, v);
      assert WithCount(s, counts, v) == f0 + WithCount(s[1..], counts, v);
    } else {
      var r := [x] + s;
      assert r[1..] == s;
      assert WithCount(r, counts, v) == fx + WithCount(s, counts, v);
      if CountOf(counts, x) == v {
        forall i | 0 <= i < |s| ensures CountOf(counts, s[i]) < v {
          if i > 0 { assert CountOf(counts, s[0]) >= CountOf(counts, s[i]); }
        }
        WithCountNone(s, counts, v);
      }
    }
  }

  /** The frequency order is sorted by descending count. */
  lemma {:induction false} SortByCountSorted(keys: seq<string>, counts: map<string, int>)
    ensures SortedByCount(SortByCount(keys, counts), counts)
  {
    if keys != [] {
      SortByCountSorted(keys[..|keys| - 1], counts);
      InsertByCountSorted(keys[|keys| - 1], SortByCount(keys[..|keys| - 1], counts), counts);
    }
  }

  /** The frequency order holds every key exactly as often as the input. */
  lemma {:induction false} SortByCountPermutation(keys: seq<string>, counts: map<string, int>)
    ensures multiset(SortByCount(keys, counts)) == multiset(keys)
  {
    if keys != [] {
      var init, x := keys[..|keys| - 1], keys[|keys| - 1];
      SortByCountPermutation(init, counts);
      InsertByCountMultiset(x, SortByCount(init, counts), counts);
      assert keys == init + [x];
    }
  }

  /** The frequency order is stable: keys with the same count keep their input order. */
  lemma {:induction false} SortByCountStable(keys: seq<string>, counts: map<string, int>, v: int)
    ensures WithCount(SortByCount(keys, counts), counts, v) == WithCount(keys, counts, v)
  {
    if keys != [] {
      var init, x := keys[..|keys| - 1], keys[|keys| - 1];
      SortByCountStable(init, counts, v);
      SortByCountSorted(init, counts);
      InsertByCountStable(x, SortByCount(init, counts), counts, v);
      assert keys == init + [x];
      WithCountAppend(init, [x], counts, v);
      assert [x][1..] == [];
    }
  }

  /** No key occurs twice. */
  predicate DistinctKeys(s: seq<string>) {
    forall i, j :: 0 <= i < j < |s| ==> s[i] != s[j]
  }

  lemma {:induction false} DistinctAtMostOnce(s: seq<string>, x: string)
    requires DistinctKeys(s)
    ensures multiset(s)[x] <= 1
  {
    if s != [] {
      var init := s[..|s| - 1];
      assert s == init + [s[|s| - 1]];
      assert DistinctKeys(init);
      DistinctAtMostOnce(init, x);
      if s[|s| - 1] == x {
        assert x !in init;
      }
    }
  }

  /** A permutation of distinct keys is distinct. */
  lemma PermutationDistinct(a: seq<string>, b: seq<string>)
    requires multiset(a) == multiset(b) && DistinctKeys(a)
    ensures DistinctKeys(b)
  {
    forall i, j | 0 <= i < j < |b| ensures b[i] != b[j] {
      if b[i] == b[j] {
        var x := b[i];
        assert b == b[..j] + [b[j]] + b[j + 1..];
        assert x in b[..j];
        assert multiset(b)[x] >= 2;
        DistinctAtMostOnce(a, x);
        assert false;
      }
    }
  }

  // ---------------------------------------------------------------- the greedy absorption

  /**
   * The absorptions after the inner loop of position `i` has looked at positions `i + 1 .. j - 1`,
   * starting from `a`: a later colour that is not absorbed yet, has an RGB value, and lies closer
   * than the threshold to colour `i` is absorbed by it.
   */
  function Scan(order: seq<string>, index: map<string, PaletteColor>, t2: int, i: nat, j: nat,
                a: map<string, string>): map<string, string>
    requires i < |order| && j <= |order| && order[i] in index
  {
    if j <= i + 1 then a
    else
      var b := Scan(order, index, t2, i, j - 1, a);
      var lower := order[j - 1];
      if lower in b || lower !in index then b
      else if Dist2(index[order[i]].rgb, index[lower].rgb) < t2 then b[lower := order[i]]
      else b
  }

  /** The absorptions (absorbed key to absorbing key) after the outer loop has processed
    * positions `0 .. i - 1`; an absorbed colour, or one without RGB value, is skipped. */
  function Absorptions(order: seq<string>, index: map<string, PaletteColor>, t2: int, i: nat): map<string, string>
    requires i <= |order|
  {
    if i == 0 then map[]
    else
      var a := Absorptions(order, index, t2, i - 1);
      var cur := order[i - 1];
      if cur in a || cur !in index then a else Scan(order, index, t2, i - 1, |order|, a)
  }

  /**
   * What the merger promises of its absorptions, once positions below `bound` may have absorbed:
   * an absorbed colour has an RGB value and is closer than the threshold to its absorber, which has
   * one too, is itself never absorbed, and comes earlier in the frequency order.
   */
  ghost predicate SoundAbsorptions(order: seq<string>, index: map<string, PaletteColor>, t2: int,
                                   a: map<string, string>, bound: nat)
    requires bound <= |order|
  {
    (forall k :: k in a ==>
      k in order && k in index && a[k] in index && a[k] !in a && a[k] in order[..bound]
      && Dist2(index[a[k]].rgb, index[k].rgb) < t2)
    && (forall q :: 0 <= q < |order| && order[q] in a ==> a[order[q]] in order[..q])
  }

  /** `b` keeps every absorption of `a`. */
  predicate Extends(a: map<string, string>, b: map<string, string>) {
    forall k :: k in a ==> k in b && b[k] == a[k]
  }

  lemma SoundWeaken(order: seq<string>, index: map<string, PaletteColor>, t2: int, a: map<string, string>,
                    bound: nat, bound': nat)
    requires bound <= bound' <= |order| && SoundAbsorptions(order, index, t2, a, bound)
    ensures SoundAbsorptions(order, index, t2, a, bound')
  {
    forall k | k in a ensures a[k] in order[..bound'] {
      assert a[k] in order[..bound];
      var p :| 0 <= p < bound && order[..bound][p] == a[k];
      assert order[..bound'][p] == a[k];
    }
  }

  /** A key at position `j` does not occur before `j`. */
  lemma NotBefore(order: seq<string>, j: nat, bound: nat)
    requires DistinctKeys(order) && bound <= j < |order|
    ensures order[j] !in order[..bound]
  {
    forall p | 0 <= p < bound ensures order[..bound][p] != order[j] {
      assert order[..bound][p] == order[p];
    }
  }

  /** Colour `i` absorbing the colour at position `l > i` keeps the absorptions sound. */
  lemma AbsorbOneSound(order: seq<string>, index: map<string, PaletteColor>, t2: int, i: nat, l: nat,
                       b: map<string, string>)
    requires DistinctKeys(order) && i < l < |order| && SoundAbsorptions(order, index, t2, b, i + 1)
    requires order[i] in index && order[i] !in b && order[l] in index && order[l] !in b
    requires Dist2(index[order[i]].rgb, index[order[l]].rgb) < t2
    ensures SoundAbsorptions(order, index, t2, b[order[l] := order[i]], i + 1)
  {
    var lower, cur := order[l], order[i];
    var b' := b[lower := cur];
    NotBefore(order, l, i + 1);
    assert cur in order[..i + 1] by { assert order[..i + 1][i] == cur; }
    forall k | k in b' ensures b'[k] !in b' {
      if k != lower {
        assert b[k] in order[..i + 1];
      }
    }
    forall q | 0 <= q < |order| && order[q] in b' ensures b'[order[q]] in order[..q] {
      if order[q] == lower {
        assert q == l;
        assert order[..q][i] == cur;
      }
    }
  }

  /** The inner scan only adds absorptions: it never changes one that was there before. */
  lemma {:induction false} ScanExtends(order: seq<string>, index: map<string, PaletteColor>, t2: int, i: nat, j: nat,
                                       a: map<string, string>)
    requires i < |order| && j <= |order| && order[i] in index
    ensures Extends(a, Scan(order, index, t2, i, j, a))
  {
    if j > i + 1 {
      ScanExtends(order, index, t2, i, j - 1, a);
      var b := Scan(order, index, t2, i, j - 1, a);
      var lower := order[j - 1];
      if lower !in b && lower in index && Dist2(index[order[i]].rgb, index[lower].rgb) < t2 {
        forall k | k in a ensures k != lower {
          assert k in b;
        }
      }
    }
  }

  /** The inner scan keeps the absorptions sound and never absorbs colour `i` itself. */
  lemma {:induction false} ScanSound(order: seq<string>, index: map<string, PaletteColor>, t2: int, i: nat, j: nat,
                                     a: map<string, string>)
    requires DistinctKeys(order) && i < |order| && j <= |order| && order[i] in index && order[i] !in a
    requires SoundAbsorptions(order, index, t2, a, i + 1)
    ensures var b := Scan(order, index, t2, i, j, a);
      SoundAbsorptions(order, index, t2, b, i + 1) && order[i] !in b && Extends(a, b)
  {
    ScanExtends(order, index, t2, i, j, a);
    if j > i + 1 {
      ScanSound(order, index, t2, i, j - 1, a);
      var b := Scan(order, index, t2, i, j - 1, a);
      var lower, cur := order[j - 1], order[i];
      if lower !in b && lower in index && Dist2(index[cur].rgb, index[lower].rgb) < t2 {
        AbsorbOneSound(order, index, t2, i, j - 1, b);
        assert lower != cur;
        assert Scan(order, index, t2, i, j, a) == b[lower := cur];
      } else {
        assert Scan(order, index, t2, i, j, a) == b;
      }
    }
  }

  /** Every colour the inner scan passed over and left unabsorbed has no RGB value or is not
    * closer than the threshold to colour `i`. */
  lemma {:induction false} ScanComplete(order: seq<string>, index: map<string, PaletteColor>, t2: int, i: nat, j: nat,
                                        a: map<string, string>)
    requires i < |order| && j <= |order| && order[i] in index
    ensures var b := Scan(order, index, t2, i, j, a);
      forall q :: i < q < j && order[q] !in b && order[q] in index ==>
        Dist2(index[order[i]].rgb, index[order[q]].rgb) >= t2
  {
    if j > i + 1 {
      ScanComplete(order, index, t2, i, j - 1, a);
      ScanKeepsKeys(order, index, t2, i, j - 1, a);
    }
  }

  /** The inner scan only adds absorptions. */
  lemma {:induction false} ScanKeepsKeys(order: seq<string>, index: map<string, PaletteColor>, t2: int, i: nat, j: nat,
                                         a: map<string, string>)
    requires i < |order| && j <= |order| && order[i] in index
    ensures a.Keys <= Scan(order, index, t2, i, j, a).Keys
  {
    if j > i + 1 {
      ScanKeepsKeys(order, index, t2, i, j - 1, a);
    }
  }

  /** The absorptions of the outer loop are sound at every step. */
  lemma {:induction false} AbsorptionsSound(order: seq<string>, index: map<string, PaletteColor>, t2: int, i: nat)
    requires DistinctKeys(order) && i <= |order|
    ensures SoundAbsorptions(order, index, t2, Absorptions(order, index, t2, i), i)
  {
    if i > 0 {
      AbsorptionsSound(order, index, t2, i - 1);
      var a := Absorptions(order, index, t2, i - 1);
      SoundWeaken(order, index, t2, a, i - 1, i);
      if order[i - 1] !in a && order[i - 1] in index {
        ScanSound(order, index, t2, i - 1, |order|, a);
      }
    }
  }

  /** One step of the outer loop keeps every earlier absorption. */
  lemma AbsorptionsStep(order: seq<string>, index: map<string, PaletteColor>, t2: int, i: nat)
    requires DistinctKeys(order) && 0 < i <= |order|
    ensures Extends(Absorptions(order, index, t2, i - 1), Absorptions(order, index, t2, i))
  {
    var a := Absorptions(order, index, t2, i - 1);
    if order[i - 1] !in a && order[i - 1] in index {
      AbsorptionsSound(order, index, t2, i - 1);
      SoundWeaken(order, index, t2, a, i - 1, i);
      ScanSound(order, index, t2, i - 1, |order|, a);
    }
  }

  lemma ExtendsTransitive(a: map<string, string>, b: map<string, string>, c: map<string, string>)
    requires Extends(a, b) && Extends(b, c)
    ensures Extends(a, c)
  {
  }

  /** Absorptions are never undone. */
  lemma {:induction false} AbsorptionsGrow(order: seq<string>, index: map<string, PaletteColor>, t2: int, i: nat, i': nat)
    requires DistinctKeys(order) && i <= i' <= |order|
    ensures Extends(Absorptions(order, index, t2, i), Absorptions(order, index, t2, i'))
    decreases i' - i
  {
    if i < i' {
      AbsorptionsGrow(order, index, t2, i, i' - 1);
      AbsorptionsStep(order, index, t2, i');
      ExtendsTransitive(Absorptions(order, index, t2, i), Absorptions(order, index, t2, i' - 1),
                        Absorptions(order, index, t2, i'));
    }
  }

  // ---------------------------------------------------------------- what the absorptions promise

  /** An absorbed colour was absorbed by a colour earlier in the frequency order that is itself never
    * absorbed, and its RGB value lies strictly closer than the threshold to the absorber's. */
  lemma AbsorbedOnlyWhenClose(order: seq<string>, index: map<string, PaletteColor>, threshold: nat, k: string)
    requires DistinctKeys(order)
    requires k in Absorptions(order, index, threshold * threshold, |order|)
    ensures var a := Absorptions(order, index, threshold * threshold, |order|);
      k in index && a[k] in index && a[k] !in a && k != a[k]
      && (exists p, q :: 0 <= p < q < |order| && order[p] == a[k] && order[q] == k)
      && Dist2(index[a[k]].rgb, index[k].rgb) < threshold * threshold
  {
    var a := Absorptions(order, index, threshold * threshold, |order|);
    AbsorptionsSound(order, index, threshold * threshold, |order|);
    var q :| 0 <= q < |order| && order[q] == k;
    var p :| 0 <= p < q && order[..q][p] == a[k];
    assert order[p] == a[k];
  }

  /** A threshold of zero merges nothing. */
  lemma ZeroThresholdMergesNothing(order: seq<string>, index: map<string, PaletteColor>)
    requires DistinctKeys(order)
    ensures Absorptions(order, index, 0, |order|) == map[]
  {
    AbsorptionsSound(order, index, 0, |order|);
  }

  /** The most frequent colour is never absorbed, so its cells keep their colour. */
  lemma MostFrequentKept(order: seq<string>, index: map<string, PaletteColor>, t2: int)
    requires DistinctKeys(order) && |order| > 0
    ensures order[0] !in Absorptions(order, index, t2, |order|)
  {
    AbsorptionsSound(order, index, t2, |order|);
  }

  /** Any two colours that survive the merge and have RGB values are at least the threshold apart:
    * the merge leaves no pair it could still merge. */
  lemma SurvivorsApart(order: seq<string>, index: map<string, PaletteColor>, t2: int, p: nat, q: nat)
    requires DistinctKeys(order) && p < q < |order|
    requires order[p] in index && order[q] in index
    requires order[p] !in Absorptions(order, index, t2, |order|)
    requires order[q] !in Absorptions(order, index, t2, |order|)
    ensures Dist2(index[order[p]].rgb, index[order[q]].rgb) >= t2
  {
    AbsorptionsGrow(order, index, t2, p, |order|);
    AbsorptionsGrow(order, index, t2, p + 1, |order|);
    var a := Absorptions(order, index, t2, p);
    assert order[p] !in a;
    ScanComplete(order, index, t2, p, |order|, a);
  }

  /** Every two colours of `order` that have RGB values lie at least the threshold apart. */
  predicate Apart(order: seq<string>, index: map<string, PaletteColor>, t2: int) {
    forall p, q :: 0 <= p < q < |order| && order[p] in index && order[q] in index ==>
      Dist2(index[order[p]].rgb, index[order[q]].rgb) >= t2
  }

  lemma {:induction false} ScanApart(order: seq<string>, index: map<string, PaletteColor>, t2: int, i: nat, j: nat)
    requires i < |order| && j <= |order| && order[i] in index && Apart(order, index, t2)
    ensures Scan(order, index, t2, i, j, map[]) == map[]
  {
    if j > i + 1 {
      ScanApart(order, index, t2, i, j - 1);
      if order[j - 1] in index {
        assert Dist2(index[order[i]].rgb, index[order[j - 1]].rgb) >= t2;
      }
    }
  }

  /** Colours that all lie the threshold apart absorb nothing. */
  lemma {:induction false} AbsorptionsApart(order: seq<string>, index: map<string, PaletteColor>, t2: int, i: nat)
    requires i <= |order| && Apart(order, index, t2)
    ensures Absorptions(order, index, t2, i) == map[]
  {
    if i > 0 {
      AbsorptionsApart(order, index, t2, i - 1);
      if order[i - 1] in index {
        ScanApart(order, index, t2, i - 1, |order|);
      }
    }
  }

  /** Distinct colours that all survive a merge lie the threshold apart, in whatever order. */
  lemma SurvivorsAreApart(order: seq<string>, index: map<string, PaletteColor>, t2: int, survivors: seq<string>)
    requires DistinctKeys(order) && DistinctKeys(survivors)
    requires forall k :: k in survivors ==> k in order && k !in Absorptions(order, index, t2, |order|)
    ensures Apart(survivors, index, t2)
  {
    forall p, q | 0 <= p < q < |survivors| && survivors[p] in index && survivors[q] in index
      ensures Dist2(index[survivors[p]].rgb, index[survivors[q]].rgb) >= t2
    {
      assert survivors[p] in order && survivors[q] in order;
      var p' :| 0 <= p' < |order| && order[p'] == survivors[p];
      var q' :| 0 <= q' < |order| && order[q'] == survivors[q];
      if p' < q' {
        SurvivorsApart(order, index, t2, p', q');
      } else {
        assert p' != q';
        SurvivorsApart(order, index, t2, q', p');
        Dist2Symmetric(index[survivors[p]].rgb, index[survivors[q]].rgb);
      }
    }
  }

  /**
   * The greedy merge is not monotone in the threshold. With A = (116,100,100), B = (100,100,100),
   * C = (92,113,100) and D = (92,87,100) in that frequency order, a threshold of 16 leaves A and B
   * (A is exactly 16 from B, so B survives and absorbs C and D), while a threshold of 20 leaves A, C
   * and D (A absorbs B, and C and D are 26 apart).
   */
  lemma ThresholdNotMonotone()
    ensures var order := ["A", "B", "C", "D"];
      var index := map["A" := PaletteColor("A", "#746464", Rgb(116, 100, 100)),
                       "B" := PaletteColor("B", "#646464", Rgb(100, 100, 100)),
                       "C" := PaletteColor("C", "#5C7164", Rgb(92, 113, 100)),
                       "D" := PaletteColor("D", "#5C5764", Rgb(92, 87, 100))];
      Absorptions(order, index, 16 * 16, 4) == map["C" := "B", "D" := "B"]
      && Absorptions(order, index, 20 * 20, 4) == map["B" := "A"]
  {
    var order := ["A", "B", "C", "D"];
    var index := map["A" := PaletteColor("A", "#746464", Rgb(116, 100, 100)),
                     "B" := PaletteColor("B", "#646464", Rgb(100, 100, 100)),
                     "C" := PaletteColor("C", "#5C7164", Rgb(92, 113, 100)),
                     "D" := PaletteColor("D", "#5C5764", Rgb(92, 87, 100))];
    assert Dist2(index["A"].rgb, index["B"].rgb) == 256;
    assert Dist2(index["A"].rgb, index["C"].rgb) == 745;
    assert Dist2(index["A"].rgb, index["D"].rgb) == 745;
    assert Dist2(index["B"].rgb, index["C"].rgb) == 233;
    assert Dist2(index["B"].rgb, index["D"].rgb) == 233;
    assert Dist2(index["C"].rgb, index["D"].rgb) == 676;
    var low := map["C" := "B", "D" := "B"];
    assert Scan(order, index, 256, 0, 2, map[]) == map[];
    assert Scan(order, index, 256, 0, 3, map[]) == map[];
    assert Scan(order, index, 256, 0, 4, map[]) == map[];
    assert Absorptions(order, index, 256, 1) == map[];
    assert Scan(order, index, 256, 1, 3, map[]) == map["C" := "B"];
    assert Scan(order, index, 256, 1, 4, map[]) == low;
    assert Absorptions(order, index, 256, 2) == low;
    assert Absorptions(order, index, 256, 4) == low;
    var high := map["B" := "A"];
    assert Absorptions(order, index, 400, 1) == high;
    assert Absorptions(order, index, 400, 3) == high;
    assert Absorptions(order, index, 400, 4) == high;
  }

  // ---------------------------------------------------------------- rewriting the grid

  predicate Resolvable(a: map<string, string>, index: map<string, PaletteColor>) {
    forall k :: k in a ==> a[k] in index
  }

  /** A cell after the merge: a cell of an absorbed colour carries the absorber's key and hex and is
    * no longer external; every other cell is unchanged. */
  function ResolveCell(c: Cell, a: map<string, string>, index: map<string, PaletteColor>): Cell
    requires Resolvable(a, index)
  {
    if c.key in a then Cell(a[c.key], index[a[c.key]].hex, false) else c
  }

  function RewriteCell(c: Cell, from: string, to: Cell): Cell {
    if c.key == from then to else c
  }

  /** The `r`/`c` loops that rewrite every cell of key `from` (external or not) to `to`. */
  method RewriteKey(g: Grid, m: nat, n: nat, from: string, to: Cell) returns (h: Grid)
    requires Rectangular(g, m, n)
    ensures Rectangular(h, m, n)
    ensures forall r, c :: 0 <= r < m && 0 <= c < n ==> h[r][c] == RewriteCell(g[r][c], from, to)
  {
    h := g;
    for r := 0 to m
      invariant Rectangular(h, m, n)
      invariant forall r', c :: 0 <= r' < r && 0 <= c < n ==> h[r'][c] == RewriteCell(g[r'][c], from, to)
      invariant forall r', c :: r <= r' < m && 0 <= c < n ==> h[r'][c] == g[r'][c]
    {
      for c := 0 to n
        invariant Rectangular(h, m, n)
        invariant forall r', c' :: 0 <= r' < r && 0 <= c' < n ==> h[r'][c'] == RewriteCell(g[r'][c'], from, to)
        invariant forall c' :: 0 <= c' < c ==> h[r][c'] == RewriteCell(g[r][c'], from, to)
        invariant forall c' :: c <= c' < n ==> h[r][c'] == g[r][c']
        invariant forall r', c' :: r < r' < m && 0 <= c' < n ==> h[r'][c'] == g[r'][c']
      {
        if h[r][c].key == from {
          h := h[r := h[r][c := to]];
        }
      }
    }
  }

  /** Absorbing `lower` into `cur` on a resolved grid resolves with the extended absorptions. */
  lemma ResolveStep(x: Cell, a: map<string, string>, index: map<string, PaletteColor>, lower: string, cur: string)
    requires Resolvable(a, index) && cur in index && lower !in a && cur !in a
    requires forall k :: k in a ==> a[k] != lower
    ensures Resolvable(a[lower := cur], index)
    ensures RewriteCell(ResolveCell(x, a, index), lower, Cell(cur, index[cur].hex, false))
      == ResolveCell(x, a[lower := cur], index)
  {
  }

  /** The resolved grid invariant of the merge loops. */
  ghost predicate ResolvesTo(merged: Grid, g: Grid, m: nat, n: nat, a: map<string, string>,
                             index: map<string, PaletteColor>)
  {
    Rectangular(merged, m, n) && Rectangular(g, m, n) && Resolvable(a, index)
    && forall r, c :: 0 <= r < m && 0 <= c < n ==> merged[r][c] == ResolveCell(g[r][c], a, index)
  }

  /** The state of the inner loop for the colour at position `i` after the positions before `j`. */
  ghost predicate AbsorbedUpTo(order: seq<string>, index: map<string, PaletteColor>, t2: int, i: nat, j: nat,
                               g: Grid, m: nat, n: nat, merged: Grid, replaced: set<string>, a0: map<string, string>)
    requires i < |order| && j <= |order| && order[i] in index
  {
    replaced == Scan(order, index, t2, i, j, a0).Keys
    && ResolvesTo(merged, g, m, n, Scan(order, index, t2, i, j, a0), index)
  }

  /** The inner loop for the colour at position `i`: every later colour that is not absorbed yet,
    * has an RGB value and lies closer than the threshold is absorbed and its cells rewritten. */
  method AbsorbLater(order: seq<string>, index: map<string, PaletteColor>, t2: int, i: nat,
                     g: Grid, m: nat, n: nat, merged0: Grid, replaced0: set<string>, ghost a0: map<string, string>)
    returns (merged: Grid, replaced: set<string>)
    requires DistinctKeys(order) && i < |order| && order[i] in index && order[i] !in a0
    requires SoundAbsorptions(order, index, t2, a0, i + 1) && replaced0 == a0.Keys
    requires ResolvesTo(merged0, g, m, n, a0, index)
    ensures replaced == Scan(order, index, t2, i, |order|, a0).Keys
    ensures ResolvesTo(merged, g, m, n, Scan(order, index, t2, i, |order|, a0), index)
  {
    merged, replaced := merged0, replaced0;
    assert Scan(order, index, t2, i, i + 1, a0) == a0;
    for j := i + 1 to |order|
      invariant AbsorbedUpTo(order, index, t2, i, j, g, m, n, merged, replaced, a0)
    {
      merged, replaced := AbsorbStep(order, index, t2, i, j, g, m, n, merged, replaced, a0);
    }
  }

  /** One iteration of the inner loop, at position `j`. */
  method AbsorbStep(order: seq<string>, index: map<string, PaletteColor>, t2: int, i: nat, j: nat,
                    g: Grid, m: nat, n: nat, merged0: Grid, replaced0: set<string>, ghost a0: map<string, string>)
    returns (merged: Grid, replaced: set<string>)
    requires DistinctKeys(order) && i < j < |order| && order[i] in index && order[i] !in a0
    requires SoundAbsorptions(order, index, t2, a0, i + 1)
    requires AbsorbedUpTo(order, index, t2, i, j, g, m, n, merged0, replaced0, a0)
    ensures AbsorbedUpTo(order, index, t2, i, j + 1, g, m, n, merged, replaced, a0)
  {
    ghost var a := Scan(order, index, t2, i, j, a0);
    ScanSound(order, index, t2, i, j, a0);
    var cur, lower := order[i], order[j];
    merged, replaced := merged0, replaced0;
    if lower !in replaced && lower in index && Dist2(index[cur].rgb, index[lower].rgb) < t2 {
      NotBefore(order, j, i + 1);
      forall k | k in a ensures a[k] != lower {
        assert a[k] in order[..i + 1];
      }
      merged := AbsorbOne(g, m, n, merged, index, a, lower, cur);
      replaced := replaced + {lower};
    }
  }

  /** One absorption: every cell of `lower` is rewritten to `cur`'s key and hex. */
  method AbsorbOne(g: Grid, m: nat, n: nat, merged0: Grid, index: map<string, PaletteColor>,
                   ghost a: map<string, string>, lower: string, cur: string)
    returns (merged: Grid)
    requires Resolvable(a, index) && cur in index && lower !in a && cur !in a
    requires forall k :: k in a ==> a[k] != lower
    requires ResolvesTo(merged0, g, m, n, a, index)
    ensures ResolvesTo(merged, g, m, n, a[lower := cur], index)
  {
    merged := RewriteKey(merged0, m, n, lower, Cell(cur, index[cur].hex, false));
    forall r, c | 0 <= r < m && 0 <= c < n
      ensures merged[r][c] == ResolveCell(g[r][c], a[lower := cur], index)
    {
      ResolveStep(g[r][c], a, index, lower, cur);
    }
  }

  /**
   * The merge loops: `replaced` is the set of absorbed colours and every cell of the merged grid is
   * the initial cell resolved through the absorptions.
   */
  method MergeSimilar(order: seq<string>, index: map<string, PaletteColor>, t2: int, g: Grid, m: nat, n: nat)
    returns (merged: Grid, replaced: set<string>)
    requires DistinctKeys(order) && Rectangular(g, m, n)
    ensures replaced == Absorptions(order, index, t2, |order|).Keys
    ensures Resolvable(Absorptions(order, index, t2, |order|), index)
    ensures Rectangular(merged, m, n)
    ensures forall r, c :: 0 <= r < m && 0 <= c < n ==>
      merged[r][c] == ResolveCell(g[r][c], Absorptions(order, index, t2, |order|), index)
  {
    merged, replaced := g, {};
    ghost var a: map<string, string> := map[];
    for i := 0 to |order|
      invariant a == Absorptions(order, index, t2, i) && replaced == a.Keys
      invariant ResolvesTo(merged, g, m, n, a, index)
    {
      AbsorptionsSound(order, index, t2, i);
      var cur := order[i];
      if cur in replaced || cur !in index {
        continue;
      }
      SoundWeaken(order, index, t2, a, i, i + 1);
      merged, replaced := AbsorbLater(order, index, t2, i, g, m, n, merged, replaced, a);
      a := Scan(order, index, t2, i, |order|, a);
    }
  }

  /** After the merge no cell carries an absorbed colour. */
  lemma MergedHasNoAbsorbedKey(order: seq<string>, index: map<string, PaletteColor>, t2: int, x: Cell)
    requires DistinctKeys(order)
    ensures var a := Absorptions(order, index, t2, |order|);
      Resolvable(a, index) && ResolveCell(x, a, index).key !in a
  {
    AbsorptionsSound(order, index, t2, |order|);
  }

  /** Merging a merged grid again with the same absorptions changes nothing. */
  lemma ResolveIdempotent(order: seq<string>, index: map<string, PaletteColor>, t2: int, x: Cell)
    requires DistinctKeys(order)
    ensures var a := Absorptions(order, index, t2, |order|);
      Resolvable(a, index) && ResolveCell(ResolveCell(x, a, index), a, index) == ResolveCell(x, a, index)
  {
    AbsorptionsSound(order, index, t2, |order|);
  }

  // ---------------------------------------------------------------- the whole merger

  /** `colorsByFrequency`: the counted keys in order of first occurrence, sorted by count. */
  ghost function FrequencyOrder(g: Grid, transparentKey: string): seq<string> {
    var labels := GridLabels(InitialRule(transparentKey), g);
    SortByCount(Distinct(labels), TallyMap(multiset(labels)))
  }

  lemma FrequencyOrderDistinct(g: Grid, transparentKey: string)
    ensures DistinctKeys(FrequencyOrder(g, transparentKey))
  {
    var labels := GridLabels(InitialRule(transparentKey), g);
    SortByCountPermutation(Distinct(labels), TallyMap(multiset(labels)));
    PermutationDistinct(Distinct(labels), FrequencyOrder(g, transparentKey));
  }

  /** The absorptions the merger performs on an initial grid. */
  ghost function MergeAbsorptions(palette: seq<PaletteColor>, g: Grid, threshold: nat, transparentKey: string)
    : map<string, string>
  {
    var order := FrequencyOrder(g, transparentKey);
    Absorptions(order, PaletteIndex(palette), threshold * threshold, |order|)
  }

  /**
   * The merger from the initial grid on (src/app/page.tsx:822-943): the merged grid resolves every
   * cell through the absorptions, and the counts, the total and the snapshot of initial keys are
   * those of the merged grid, counted by colour over the keyed, non-external cells.
   */
  method MergeColors(palette: seq<PaletteColor>, g: Grid, m: nat, n: nat, threshold: nat, transparentKey: string)
    returns (merged: Grid, counts: map<string, int>, total: int, initialKeys: set<string>)
    requires Rectangular(g, m, n)
    ensures var a := MergeAbsorptions(palette, g, threshold, transparentKey);
      Resolvable(a, PaletteIndex(palette)) && Rectangular(merged, m, n)
      && forall r, c :: 0 <= r < m && 0 <= c < n ==> merged[r][c] == ResolveCell(g[r][c], a, PaletteIndex(palette))
    ensures Tallies(counts, multiset(GridLabels(MergedRule, merged)))
    ensures total == |GridLabels(MergedRule, merged)| && total == MapSum(counts)
    ensures initialKeys == counts.Keys
  {
    var index := IndexPalette(palette);
    var keysInOrder, initialCounts, _ := Recount(InitialRule(transparentKey), g);
    ghost var labels := GridLabels(InitialRule(transparentKey), g);
    TalliesUnique(initialCounts, multiset(labels));
    var order := SortByCount(keysInOrder, initialCounts);
    FrequencyOrderDistinct(g, transparentKey);
    var replaced;
    merged, replaced := MergeSimilar(order, index, threshold * threshold, g, m, n);
    var _, mergedCounts, mergedTotal := Recount(MergedRule, merged);
    counts, total := mergedCounts, mergedTotal;
    TalliesSum(counts, multiset(GridLabels(MergedRule, merged)));
    initialKeys := counts.Keys;
  }

  /** The frequency order holds exactly the keys of the counted cells. */
  lemma FrequencyOrderMembers(g: Grid, transparentKey: string, x: string)
    ensures x in FrequencyOrder(g, transparentKey) <==> x in GridLabels(InitialRule(transparentKey), g)
  {
    var labels := GridLabels(InitialRule(transparentKey), g);
    SortByCountPermutation(Distinct(labels), TallyMap(multiset(labels)));
    assert x in FrequencyOrder(g, transparentKey) <==> x in multiset(Distinct(labels));
  }

  /** A counted cell of the merged grid carries a colour of the original frequency order that the
    * merge did not absorb. */
  lemma MergedCellSurvives(palette: seq<PaletteColor>, g: Grid, m: nat, n: nat, threshold: nat,
                           transparentKey: string, merged: Grid, r: nat, c: nat)
    requires ResolvesTo(merged, g, m, n, MergeAbsorptions(palette, g, threshold, transparentKey), PaletteIndex(palette))
    requires r < m && c < n && Counted(InitialRule(transparentKey), merged[r][c])
    ensures merged[r][c].key in FrequencyOrder(g, transparentKey)
    ensures merged[r][c].key !in MergeAbsorptions(palette, g, threshold, transparentKey)
  {
    var index := PaletteIndex(palette);
    var order := FrequencyOrder(g, transparentKey);
    var a := MergeAbsorptions(palette, g, threshold, transparentKey);
    FrequencyOrderDistinct(g, transparentKey);
    AbsorptionsSound(order, index, threshold * threshold, |order|);
    var y := g[r][c];
    assert merged[r][c] == ResolveCell(y, a, index);
    if y.key in a {
      assert order[..|order|] == order;
    } else {
      LabelsInGrid(InitialRule(transparentKey), g, r, c);
      FrequencyOrderMembers(g, transparentKey, y.key);
    }
  }

  /** Every colour counted in a merged grid is a colour of the original frequency order that the
    * merge did not absorb. */
  lemma MergedKeysSurvive(palette: seq<PaletteColor>, g: Grid, m: nat, n: nat, threshold: nat,
                          transparentKey: string, merged: Grid)
    requires ResolvesTo(merged, g, m, n, MergeAbsorptions(palette, g, threshold, transparentKey), PaletteIndex(palette))
    ensures forall x :: x in FrequencyOrder(merged, transparentKey) ==>
      x in FrequencyOrder(g, transparentKey) && x !in MergeAbsorptions(palette, g, threshold, transparentKey)
  {
    var rule := InitialRule(transparentKey);
    forall x | x in FrequencyOrder(merged, transparentKey)
      ensures x in FrequencyOrder(g, transparentKey) && x !in MergeAbsorptions(palette, g, threshold, transparentKey)
    {
      FrequencyOrderMembers(merged, transparentKey, x);
      LabelFromGrid(rule, merged, x);
      var r, c :| 0 <= r < |merged| && 0 <= c < |merged[r]| && Counted(rule, merged[r][c]) && Label(rule, merged[r][c]) == x;
      MergedCellSurvives(palette, g, m, n, threshold, transparentKey, merged, r, c);
    }
  }

  /**
   * Merging a merged grid again absorbs nothing, so the merger run on its own output leaves every
   * cell as it is.
   */
  lemma RemergeChangesNothing(palette: seq<PaletteColor>, g: Grid, m: nat, n: nat, threshold: nat,
                              transparentKey: string, merged: Grid)
    requires ResolvesTo(merged, g, m, n, MergeAbsorptions(palette, g, threshold, transparentKey), PaletteIndex(palette))
    ensures var a := MergeAbsorptions(palette, merged, threshold, transparentKey);
      a == map[] && Resolvable(a, PaletteIndex(palette))
      && forall r, c :: 0 <= r < m && 0 <= c < n ==> ResolveCell(merged[r][c], a, PaletteIndex(palette)) == merged[r][c]
  {
    var index, t2 := PaletteIndex(palette), threshold * threshold;
    var order, order' := FrequencyOrder(g, transparentKey), FrequencyOrder(merged, transparentKey);
    FrequencyOrderDistinct(g, transparentKey);
    FrequencyOrderDistinct(merged, transparentKey);
    MergedKeysSurvive(palette, g, m, n, threshold, transparentKey, merged);
    SurvivorsAreApart(order, index, t2, order');
    AbsorptionsApart(order', index, t2, |order'|);
  }
}
