/** `hexToRgb` of src/utils/imageDownloader.ts: hexadecimal colour text to an RGB triple. */
module HexColor {
  import opened Outcome
  import opened Text

  /** An RGB triple; the channels of a decoded colour are in 0..255. */
  datatype Rgb = Rgb(r: int, g: int, b: int)

  predicate InByteRange(c: Rgb) {
    0 <= c.r < 256 && 0 <= c.g < 256 && 0 <= c.b < 256
  }

  predicate AllHex(s: string) {
    forall i :: 0 <= i < |s| ==> IsHexDigit(s[i])
  }

  /** The text after an optional leading `#`. */
  function Body(s: string): string {
    if |s| > 0 && s[0] == '#' then s[1..] else s
  }

  /** The forms the decoder accepts: an optional `#` and then three or six hexadecimal digits. */
  predicate AcceptedHex(s: string) {
    (|Body(s)| == 3 || |Body(s)| == 6) && AllHex(Body(s))
  }

  /** `/^#?([a-f\d])([a-f\d])([a-f\d])$/i` */
  predicate IsShorthand(s: string) {
    (|s| == 3 && AllHex(s)) || (|s| == 4 && s[0] == '#' && AllHex(s[1..]))
  }

  /** `/^#?([a-f\d]{2})([a-f\d]{2})([a-f\d]{2})$/i` */
  predicate IsFull(s: string) {
    (|s| == 6 && AllHex(s)) || (|s| == 7 && s[0] == '#' && AllHex(s[1..]))
  }

  /** The replacement `r + r + g + g + b + b` of a shorthand match (the `#` is dropped). */
  function Expand(s: string): string
    requires IsShorthand(s)
  {
    var d := Body(s);
    [d[0], d[0], d[1], d[1], d[2], d[2]]
  }

  /** `parseInt(xy, 16)` of two hexadecimal digits. */
  function Byte(x: char, y: char): int
    requires IsHexDigit(x) && IsHexDigit(y)
  {
    16 * HexValue(x) + HexValue(y)
  }

  /**
   * `hexToRgb(hex)`: a shorthand is first expanded by doubling each digit, then six digits are
   * read as three channels; anything else is `null` (None).
   */
  function HexToRgb(hex: string): (c: Option<Rgb>)
    ensures c.Some? <==> AcceptedHex(hex)
    ensures c.Some? ==> InByteRange(c.value)
    ensures c.Some? && |Body(hex)| == 3 ==>
      var d := Body(hex);
      c.value == Rgb(17 * HexValue(d[0]), 17 * HexValue(d[1]), 17 * HexValue(d[2]))
    ensures c.Some? && |Body(hex)| == 6 ==>
      var d := Body(hex);
      c.value == Rgb(Byte(d[0], d[1]), Byte(d[2], d[3]), Byte(d[4], d[5]))
  {
    var formatted := if IsShorthand(hex) then Expand(hex) else hex;
    if IsFull(formatted) then
      var d := Body(formatted);
      Some(Rgb(Byte(d[0], d[1]), Byte(d[2], d[3]), Byte(d[4], d[5])))
    else
      None
  }

  /** `/^#[0-9A-Fa-f]{6}$/`, the colour form of the CSV grid format. */
  predicate IsHexColor6(s: string) {
    |s| == 7 && s[0] == '#' && AllHex(s[1..])
  }

  /** Upper-casing a six-digit colour gives a six-digit colour that upper-casing leaves alone. */
  lemma UpperHexColor6(v: string)
    requires IsHexColor6(v)
    ensures IsHexColor6(Upper(v)) && Upper(Upper(v)) == Upper(v)
  {
    UpperIdempotent(v);
  }

  lemma UpperCharHex(c: char)
    requires IsHexDigit(c)
    ensures IsHexDigit(UpperChar(c)) && HexValue(UpperChar(c)) == HexValue(c)
  {
  }

  /** Upper-casing keeps the hexadecimal digits and their values. */
  lemma AllHexUpper(d: string)
    ensures AllHex(Upper(d)) <==> AllHex(d)
    ensures AllHex(d) ==> forall i :: 0 <= i < |d| ==> HexValue(Upper(d)[i]) == HexValue(d[i])
  {
    var e := Upper(d);
    forall i | 0 <= i < |d| && IsHexDigit(d[i]) ensures IsHexDigit(e[i]) && HexValue(e[i]) == HexValue(d[i]) {
      UpperCharHex(d[i]);
    }
  }

  /** Upper-casing a colour text does not change what it decodes to. */
  lemma HexToRgbUpper(s: string)
    ensures HexToRgb(Upper(s)) == HexToRgb(s)
  {
    var u := Upper(s);
    assert Body(u) == Upper(Body(s));
    var d, e := Body(s), Body(u);
    AllHexUpper(d);
    assert AcceptedHex(u) <==> AcceptedHex(s);
    if AcceptedHex(s) && |d| == 6 {
      assert Byte(e[0], e[1]) == Byte(d[0], d[1]);
      assert Byte(e[2], e[3]) == Byte(d[2], d[3]);
      assert Byte(e[4], e[5]) == Byte(d[4], d[5]);
    }
  }

  /** Every colour the CSV format accepts decodes to a colour. */
  lemma HexColor6Decodes(s: string)
    requires IsHexColor6(s)
    ensures HexToRgb(s).Some?
  {
  }
}
