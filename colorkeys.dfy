/**
 * `sortColorKeys`, the comparator for bead colour keys such as `A2` or `ZG10`, which appears
 * twice in the repository with the same text (src/app/page.tsx and src/utils/imageDownloader.ts).
 */
module ColorKeys {
  import opened Outcome
  import opened Text

  /** The two capture groups of `/^([A-Z]+)(\d+)$/`: the letters and the value of the digits. */
  datatype KeyParts = KeyParts(prefix: string, digits: string, number: nat)

  predicate IsUpperLetter(c: char) { 'A' <= c <= 'Z' }

  predicate AllUpper(s: string) { forall i :: 0 <= i < |s| ==> IsUpperLetter(s[i]) }

  predicate AllDigits(s: string) { forall i :: 0 <= i < |s| ==> IsDigit(s[i]) }

  /** The length of the longest prefix of upper-case letters. */
  function LetterRun(s: string): (k: nat)
    ensures k <= |s| && AllUpper(s[..k])
    ensures k < |s| ==> !IsUpperLetter(s[k])
  {
    if s != [] && IsUpperLetter(s[0]) then
      assert s[..1 + LetterRun(s[1..])] == [s[0]] + s[1..][..LetterRun(s[1..])];
      1 + LetterRun(s[1..])
    else 0
  }

  /**
   * `key.match(/^([A-Z]+)(\d+)$/)`: the match exists exactly when the key splits into a non-empty
   * run of upper-case letters followed by a non-empty run of digits, and that split is unique.
   */
  function ParseKey(s: string): (r: Option<KeyParts>)
    ensures r.Some? ==> (r.value.prefix != [] && r.value.digits != [] && s == r.value.prefix + r.value.digits
      && AllUpper(r.value.prefix) && AllDigits(r.value.digits) && r.value.number == DecimalValue(r.value.digits))
    ensures forall k :: 0 < k < |s| && AllUpper(s[..k]) && AllDigits(s[k..]) ==>
      r == Some(KeyParts(s[..k], s[k..], DecimalValue(s[k..])))
  {
    var k := LetterRun(s);
    assert forall j :: 0 < j < |s| && AllUpper(s[..j]) && AllDigits(s[j..]) ==> j == k by {
      forall j | 0 < j < |s| && AllUpper(s[..j]) && AllDigits(s[j..]) ensures j == k {
        SplitIsLetterRun(s, j);
      }
    }
    if 0 < k < |s| && AllDigits(s[k..]) then
      assert s == s[..k] + s[k..];
      Some(KeyParts(s[..k], s[k..], DecimalValue(s[k..])))
    else
      None
  }

  /** A split into letters then digits can only happen at the end of the letter run. */
  lemma SplitIsLetterRun(s: string, j: nat)
    requires 0 < j < |s| && AllUpper(s[..j]) && AllDigits(s[j..])
    ensures j == LetterRun(s)
  {
    var k := LetterRun(s);
    assert forall i :: 0 <= i < k ==> IsUpperLetter(s[i]) by {
      forall i | 0 <= i < k ensures IsUpperLetter(s[i]) { assert s[..k][i] == s[i]; }
    }
    assert forall i :: 0 <= i < j ==> IsUpperLetter(s[i]) by {
      forall i | 0 <= i < j ensures IsUpperLetter(s[i]) { assert s[..j][i] == s[i]; }
    }
    assert s[j..][0] == s[j] && IsDigit(s[j]);
  }

  /**
   * `sortColorKeys(a, b)`: keys of the letters-then-digits form compare by prefix and then by
   * numeric value; any other pair falls back to `a.localeCompare(b)`, given here as `localeCompare`.
   */
  function SortColorKeys(a: string, b: string, localeCompare: (string, string) -> int): (r: int)
    ensures ParseKey(a).None? || ParseKey(b).None? ==> r == localeCompare(a, b)
    ensures ParseKey(a).Some? && ParseKey(b).Some? && ParseKey(a).value.prefix == ParseKey(b).value.prefix ==>
      (r < 0 <==> ParseKey(a).value.number < ParseKey(b).value.number)
      && (r == 0 <==> ParseKey(a).value.number == ParseKey(b).value.number)
  {
    match (ParseKey(a), ParseKey(b))
    case (Some(pa), Some(pb)) =>
      if pa.prefix != pb.prefix then localeCompare(pa.prefix, pb.prefix) else pa.number - pb.number
    case _ => localeCompare(a, b)
  }

  /** Keys of one family are ordered by their numbers: `A2` before `A10`, whatever the collation. */
  lemma SameFamilyByNumber(prefix: string, x: string, y: string, localeCompare: (string, string) -> int)
    requires prefix != [] && AllUpper(prefix)
    requires x != [] && AllDigits(x) && y != [] && AllDigits(y)
    ensures SortColorKeys(prefix + x, prefix + y, localeCompare) == DecimalValue(x) - DecimalValue(y)
  {
    var a, b := prefix + x, prefix + y;
    assert a[..|prefix|] == prefix && a[|prefix|..] == x;
    assert b[..|prefix|] == prefix && b[|prefix|..] == y;
  }

  lemma TwoBeforeTen(localeCompare: (string, string) -> int)
    ensures SortColorKeys("A2", "A10", localeCompare) < 0
  {
    SameFamilyByNumber("A", "2", "10", localeCompare);
    assert DecimalValue("10") == 10 by {
      assert "10"[..1] == "1";
    }
  }

  /** Keys of two different families are ordered by their prefixes alone. */
  lemma FamiliesByPrefix(a: string, b: string, localeCompare: (string, string) -> int)
    requires ParseKey(a).Some? && ParseKey(b).Some?
    requires ParseKey(a).value.prefix != ParseKey(b).value.prefix
    ensures SortColorKeys(a, b, localeCompare) == localeCompare(ParseKey(a).value.prefix, ParseKey(b).value.prefix)
  {
  }

  /** With an antisymmetric collation the comparator is antisymmetric too. */
  lemma SortColorKeysAntisymmetric(a: string, b: string, localeCompare: (string, string) -> int)
    requires forall x, y :: localeCompare(x, y) == -localeCompare(y, x)
    ensures SortColorKeys(a, b, localeCompare) == -SortColorKeys(b, a, localeCompare)
  {
  }
}
