/**
 * The check of the palette selections restored from local storage (src/app/page.tsx:315-336):
 * an entry is kept, under its upper-cased key, when its key is a six-digit colour (in either case)
 * of the full palette; every other entry is dropped. The entries are given in `Object.entries`
 * order, so a later entry with the same upper-cased key overwrites an earlier one.
 */
module Selection {
  import opened Text
  import opened HexColor
  import opened Cells

  /** `allHexValues`: the upper-cased hex of every palette colour, in palette order. */
  function AllHexValues(palette: seq<PaletteColor>): (r: seq<string>)
    ensures |r| == |palette| && forall i :: 0 <= i < |palette| ==> r[i] == Upper(palette[i].hex)
  {
    seq(|palette|, i requires 0 <= i < |palette| => Upper(palette[i].hex))
  }

  /** `/^#[0-9A-F]{6}$/i.test(key) && allHexValues.includes(key.toUpperCase())` */
  predicate ValidKey(key: string, allHex: seq<string>) {
    IsHexColor6(key) && Upper(key) in allHex
  }

  /** The selections the first `|saved|` entries leave: each valid entry stored under its upper-cased key. */
  function Kept<V>(saved: seq<(string, V)>, allHex: seq<string>): map<string, V> {
    if saved == [] then map[]
    else
      var last := saved[|saved| - 1];
      var before := Kept(saved[..|saved| - 1], allHex);
      if ValidKey(last.0, allHex) then before[Upper(last.0) := last.1] else before
  }

  /** The number of valid entries. */
  function ValidCount<V>(saved: seq<(string, V)>, allHex: seq<string>): nat {
    if saved == [] then 0
    else ValidCount(saved[..|saved| - 1], allHex) + (if ValidKey(saved[|saved| - 1].0, allHex) then 1 else 0)
  }

  /** What the check produces: the kept selections, the two counters and the `hasValidData` flag. */
  datatype Validated<V> = Validated(selections: map<string, V>, validCount: nat, invalidCount: nat, hasValidData: bool)

  /** The `Object.entries(savedSelections).forEach(...)` loop. */
  method ValidateSelections<V>(saved: seq<(string, V)>, palette: seq<PaletteColor>) returns (v: Validated<V>)
    ensures v.selections == Kept(saved, AllHexValues(palette))
    ensures v.validCount == ValidCount(saved, AllHexValues(palette))
    ensures v.validCount + v.invalidCount == |saved|
    ensures v.hasValidData <==> v.validCount > 0
  {
    var allHex := AllHexValues(palette);
    var selections: map<string, V> := map[];
    var hasValidData := false;
    var validCount, invalidCount := 0, 0;
    for i := 0 to |saved|
      invariant selections == Kept(saved[..i], allHex)
      invariant validCount == ValidCount(saved[..i], allHex)
      invariant validCount + invalidCount == i
      invariant hasValidData <==> validCount > 0
    {
      assert saved[..i + 1][..i] == saved[..i];
      var (key, value) := saved[i];
      if IsHexColor6(key) && Upper(key) in allHex {
        selections := selections[Upper(key) := value];
        hasValidData := true;
        validCount := validCount + 1;
      } else {
        invalidCount := invalidCount + 1;
      }
    }
    assert saved[..|saved|] == saved;
    return Validated(selections, validCount, invalidCount, hasValidData);
  }

  /** A key is kept exactly when some valid entry upper-cases to it. */
  lemma {:induction false} KeptKeys<V>(saved: seq<(string, V)>, allHex: seq<string>, k: string)
    ensures k in Kept(saved, allHex) <==> exists i :: 0 <= i < |saved| && ValidKey(saved[i].0, allHex) && Upper(saved[i].0) == k
  {
    if saved != [] {
      var init := saved[..|saved| - 1];
      KeptKeys(init, allHex, k);
      if k in Kept(init, allHex) {
        var i :| 0 <= i < |init| && ValidKey(init[i].0, allHex) && Upper(init[i].0) == k;
        assert saved[i] == init[i];
      }
      if exists i :: 0 <= i < |saved| && ValidKey(saved[i].0, allHex) && Upper(saved[i].0) == k {
        var i :| 0 <= i < |saved| && ValidKey(saved[i].0, allHex) && Upper(saved[i].0) == k;
        if i < |init| {
          assert init[i] == saved[i];
        }
      }
    }
  }

  /** Every kept key is an upper-case six-digit colour of the palette. */
  lemma {:induction false} KeptKeysValid<V>(saved: seq<(string, V)>, allHex: seq<string>, k: string)
    requires k in Kept(saved, allHex)
    ensures IsHexColor6(k) && Upper(k) == k && k in allHex
  {
    KeptKeys(saved, allHex, k);
    var i :| 0 <= i < |saved| && ValidKey(saved[i].0, allHex) && Upper(saved[i].0) == k;
    UpperHexColor6(saved[i].0);
  }

  /** A kept key holds the value of the last valid entry for it. */
  lemma {:induction false} KeptLastWins<V>(saved: seq<(string, V)>, allHex: seq<string>, i: nat)
    requires i < |saved| && ValidKey(saved[i].0, allHex)
    requires forall j :: i < j < |saved| ==> !(ValidKey(saved[j].0, allHex) && Upper(saved[j].0) == Upper(saved[i].0))
    ensures Upper(saved[i].0) in Kept(saved, allHex) && Kept(saved, allHex)[Upper(saved[i].0)] == saved[i].1
  {
    var init := saved[..|saved| - 1];
    if i < |init| {
      forall j | i < j < |init| ensures !(ValidKey(init[j].0, allHex) && Upper(init[j].0) == Upper(init[i].0)) {
        assert init[j] == saved[j];
      }
      KeptLastWins(init, allHex, i);
      assert init[i] == saved[i];
    }
  }

  /** `hasValidData` holds exactly when at least one selection is kept. */
  lemma {:induction false} ValidCountPositive<V>(saved: seq<(string, V)>, allHex: seq<string>)
    ensures ValidCount(saved, allHex) > 0 <==> Kept(saved, allHex) != map[]
  {
    if saved != [] {
      var init := saved[..|saved| - 1];
      ValidCountPositive(init, allHex);
      var last := saved[|saved| - 1];
      if ValidKey(last.0, allHex) {
        assert Upper(last.0) in Kept(saved, allHex);
      }
    }
  }
}
