/** The clamping of the two regeneration parameters in `handleConfirmParameters` (src/app/page.tsx). */
module Params {
  import opened Outcome
  import opened Text

  const MinGranularity: int := 10
  const MaxGranularity: int := 300
  const MinSimilarity: int := 0
  const MaxSimilarity: int := 100

  /** The length of the longest prefix of decimal digits. */
  function DigitRun(s: string): (k: nat)
    ensures k <= |s| && forall i :: 0 <= i < k ==> IsDigit(s[i])
    ensures k < |s| ==> !IsDigit(s[k])
  {
    if s != [] && IsDigit(s[0]) then 1 + DigitRun(s[1..]) else 0
  }

  /** The text `parseInt` reads its sign and digits from: leading white space removed. */
  function Unsigned(s: string): string {
    var t := TrimStart(s);
    if t != [] && (t[0] == '-' || t[0] == '+') then t[1..] else t
  }

  predicate Negative(s: string) {
    var t := TrimStart(s);
    t != [] && t[0] == '-'
  }

  /**
   * `parseInt(s, 10)`: after leading white space and an optional sign, the longest run of
   * decimal digits is read; NaN (None) when that run is empty.
   */
  function ParseIntDecimal(s: string): (r: Option<int>)
    ensures r.Some? <==> (Unsigned(s) != [] && IsDigit(Unsigned(s)[0]))
    ensures r.Some? ==> r.value == (if Negative(s) then -1 else 1) * DecimalValue(Unsigned(s)[..DigitRun(Unsigned(s))])
  {
    var u := Unsigned(s);
    var k := DigitRun(u);
    if k == 0 then None
    else Some((if Negative(s) then -1 else 1) * DecimalValue(u[..k]))
  }

  /** Reading back the text of a non-negative number gives the number. */
  lemma ParseIntOfNatToString(n: nat)
    ensures ParseIntDecimal(NatToString(n)) == Some(n)
  {
    var s := NatToString(n);
    assert TrimStart(s) == s;
    assert Unsigned(s) == s;
    DigitRunAll(s);
    assert s[..|s|] == s;
    DecimalValueOfNatToString(n);
  }

  lemma {:induction false} DigitRunAll(s: string)
    requires forall i :: 0 <= i < |s| ==> IsDigit(s[i])
    ensures DigitRun(s) == |s|
  {
    if s != [] {
      DigitRunAll(s[1..]);
    }
  }

  /** The clamp of one parameter: NaN or below the minimum gives the minimum, above the maximum the maximum. */
  function Clamp(parsed: Option<int>, lo: int, hi: int): (v: int)
    requires lo <= hi
    ensures lo <= v <= hi
    ensures parsed.Some? && lo <= parsed.value <= hi ==> v == parsed.value
    ensures parsed.None? || parsed.value < lo ==> v == lo
    ensures parsed.Some? && parsed.value > hi ==> v == hi
  {
    if parsed.None? || parsed.value < lo then lo
    else if parsed.value > hi then hi
    else parsed.value
  }

  /** What confirming the two input fields decides. */
  datatype Confirmed = Confirmed(
    granularity: int,
    similarity: int,
    changed: bool,
    granularityText: string,
    similarityText: string)

  /**
   * `handleConfirmParameters`: both fields are parsed and clamped (detail 10..300, similarity
   * 0..100); a regeneration is due when either value differs from the current one, and both
   * fields are rewritten with the text of the clamped values.
   */
  function ConfirmParameters(granularityInput: string, similarityInput: string,
                             granularity: int, similarity: int): (c: Confirmed)
    ensures MinGranularity <= c.granularity <= MaxGranularity
    ensures MinSimilarity <= c.similarity <= MaxSimilarity
    ensures c.changed <==> c.granularity != granularity || c.similarity != similarity
    ensures ParseIntDecimal(c.granularityText) == Some(c.granularity)
    ensures ParseIntDecimal(c.similarityText) == Some(c.similarity)
    ensures c.granularity == Clamp(ParseIntDecimal(granularityInput), MinGranularity, MaxGranularity)
    ensures c.similarity == Clamp(ParseIntDecimal(similarityInput), MinSimilarity, MaxSimilarity)
    ensures c.granularityText == NatToString(c.granularity)
    ensures c.similarityText == NatToString(c.similarity)
  {
    var g := Clamp(ParseIntDecimal(granularityInput), MinGranularity, MaxGranularity);
    var s := Clamp(ParseIntDecimal(similarityInput), MinSimilarity, MaxSimilarity);
    ParseIntOfNatToString(g);
    ParseIntOfNatToString(s);
    Confirmed(g, s, g != granularity || s != similarity, NatToString(g), NatToString(s))
  }

  /** Confirming again right after a confirmation changes nothing. */
  lemma ConfirmTwiceIsStable(gi: string, si: string, g: int, s: int)
    ensures var c := ConfirmParameters(gi, si, g, s);
      var c2 := ConfirmParameters(c.granularityText, c.similarityText, c.granularity, c.similarity);
      !c2.changed && c2 == c.(changed := false)
  {
  }
}
