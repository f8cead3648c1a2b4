/**
 * The JavaScript string operations the core relies on, restated over `seq<char>`:
 * `trim`, `split`, `join`, ASCII `toUpperCase`, substring tests and the
 * case-insensitive and word-boundary regular-expression tests that the
 * user-agent classifier uses.
 */
module Text {

  /** The WhiteSpace and LineTerminator characters that `String.prototype.trim` removes. */
  predicate IsJsSpace(c: char) {
    c == ' ' || c == '\t' || c == '\n' || c == '\r' || c == '\U{000B}' || c == '\U{000C}'
    || c == '\U{00A0}' || c == '\U{1680}' || ('\U{2000}' <= c <= '\U{200A}')
    || c == '\U{2028}' || c == '\U{2029}' || c == '\U{202F}' || c == '\U{205F}'
    || c == '\U{3000}' || c == '\U{FEFF}'
  }

  /** Drops leading white space. */
  function TrimStart(s: string): string {
    if s != [] && IsJsSpace(s[0]) then TrimStart(s[1..]) else s
  }

  /** Drops trailing white space. */
  function TrimEnd(s: string): string {
    if s != [] && IsJsSpace(s[|s| - 1]) then TrimEnd(s[..|s| - 1]) else s
  }

  /** `s.trim()`. */
  function Trim(s: string): string {
    TrimEnd(TrimStart(s))
  }

  /** `TrimStart` drops white space only, and all of it: the result is a suffix of `s` that does
    * not start with white space. */
  lemma {:induction false} TrimStartFacts(s: string)
    ensures var r := TrimStart(s);
      |r| <= |s| && r == s[|s| - |r|..]
      && (forall k :: 0 <= k < |s| - |r| ==> IsJsSpace(s[k]))
      && (r == [] || !IsJsSpace(r[0]))
  {
    if s != [] && IsJsSpace(s[0]) {
      var t := s[1..];
      TrimStartFacts(t);
      var r := TrimStart(t);
      assert TrimStart(s) == r;
      assert r == s[|s| - |r|..] by {
        assert t[|t| - |r|..] == s[|s| - |r|..];
      }
      forall k | 0 <= k < |s| - |r| ensures IsJsSpace(s[k]) {
        if k > 0 {
          assert s[k] == t[k - 1];
        }
      }
    }
  }

  /** `TrimEnd` drops white space only, and all of it: the result is a prefix of `s` that does
    * not end with white space. */
  lemma {:induction false} TrimEndFacts(s: string)
    ensures var r := TrimEnd(s);
      |r| <= |s| && r == s[..|r|]
      && (forall k :: |r| <= k < |s| ==> IsJsSpace(s[k]))
      && (r == [] || !IsJsSpace(r[|r| - 1]))
  {
    if s != [] && IsJsSpace(s[|s| - 1]) {
      TrimEndFacts(s[..|s| - 1]);
    }
  }

  /** A string that neither starts nor ends with white space is its own trim. */
  lemma TrimUnpadded(s: string)
    requires s == [] || (!IsJsSpace(s[0]) && !IsJsSpace(s[|s| - 1]))
    ensures Trim(s) == s
  {
  }

  /** `c.toUpperCase()` for the ASCII letters; every other character is kept. */
  function UpperChar(c: char): char {
    if 'a' <= c <= 'z' then (c as int - 'a' as int + 'A' as int) as char else c
  }

  /** `s.toUpperCase()`, restricted to ASCII case mapping. */
  function Upper(s: string): (r: string)
    ensures |r| == |s|
    ensures forall i :: 0 <= i < |s| ==> r[i] == UpperChar(s[i])
  {
    if s == [] then [] else [UpperChar(s[0])] + Upper(s[1..])
  }

  lemma UpperIdempotent(s: string)
    ensures Upper(Upper(s)) == Upper(s)
  {
  }

  /** `s.split(d)`: the maximal pieces between occurrences of `d`; always at least one piece. */
  function Split(s: string, d: char): (r: seq<string>)
    ensures |r| >= 1
  {
    if s == [] then [""]
    else
      var rest := Split(s[1..], d);
      if s[0] == d then [""] + rest else [[s[0]] + rest[0]] + rest[1..]
  }

  /** `parts.join(d)`. */
  function Join(parts: seq<string>, d: char): string {
    if parts == [] then ""
    else if |parts| == 1 then parts[0]
    else parts[0] + [d] + Join(parts[1..], d)
  }

  lemma {:induction false} SplitPrefix(p: string, d: char, rest: string)
    requires d !in p
    ensures Split(p + [d] + rest, d) == [p] + Split(rest, d)
  {
    if p == [] {
      assert p + [d] + rest == [d] + rest;
    } else {
      assert (p + [d] + rest)[1..] == p[1..] + [d] + rest;
      SplitPrefix(p[1..], d, rest);
      assert p[0] != d;
      assert [p[0]] + p[1..] == p;
    }
  }

  lemma {:induction false} SplitPiece(p: string, d: char)
    requires d !in p
    ensures Split(p, d) == [p]
  {
    if p != [] {
      SplitPiece(p[1..], d);
      assert p[0] != d;
      assert [p[0]] + p[1..] == p;
    }
  }

  /** Splitting a join gives the pieces back, when no piece contains the separator. */
  lemma {:induction false} SplitJoin(parts: seq<string>, d: char)
    requires |parts| >= 1
    requires forall i :: 0 <= i < |parts| ==> d !in parts[i]
    ensures Split(Join(parts, d), d) == parts
  {
    if |parts| == 1 {
      SplitPiece(parts[0], d);
    } else {
      SplitJoin(parts[1..], d);
      SplitPrefix(parts[0], d, Join(parts[1..], d));
      assert [parts[0]] + parts[1..] == parts;
    }
  }

  /** The joined text lies between the first piece's first character and the last piece's last. */
  lemma {:induction false} JoinEnds(parts: seq<string>, d: char)
    requires |parts| >= 1
    requires forall i :: 0 <= i < |parts| ==> parts[i] != []
    ensures Join(parts, d) != []
    ensures Join(parts, d)[0] == parts[0][0]
    ensures Join(parts, d)[|Join(parts, d)| - 1] == parts[|parts| - 1][|parts[|parts| - 1]| - 1]
  {
    if |parts| > 1 {
      JoinEnds(parts[1..], d);
    }
  }

  /** A join of non-empty pieces starts and ends as the first and last pieces do, so it is
    * unpadded when they are. */
  lemma JoinUnpadded(parts: seq<string>, d: char)
    requires |parts| >= 1
    requires forall i :: 0 <= i < |parts| ==> parts[i] != []
    requires !IsJsSpace(parts[0][0]) && !IsJsSpace(parts[|parts| - 1][|parts[|parts| - 1]| - 1])
    ensures var t := Join(parts, d);
      t != [] && !IsJsSpace(t[0]) && !IsJsSpace(t[|t| - 1])
  {
    JoinEnds(parts, d);
  }

  /** A join of pieces free of a character is free of it, if the separator differs from it. */
  lemma {:induction false} JoinAvoids(parts: seq<string>, d: char, c: char)
    requires c != d
    requires forall i :: 0 <= i < |parts| ==> c !in parts[i]
    ensures c !in Join(parts, d)
  {
    if |parts| > 1 {
      JoinAvoids(parts[1..], d, c);
    }
  }

  /** `s.includes(p)`. */
  predicate Contains(s: string, p: string) {
    exists i :: 0 <= i <= |s| - |p| && OccursAt(s, p, i)
  }

  predicate OccursAt(s: string, p: string, i: int)
    requires 0 <= i <= |s| - |p|
  {
    s[i..i + |p|] == p
  }

  /** A regular-expression test `/p/i` for an ASCII pattern: a case-insensitive substring. */
  predicate ContainsIgnoreCase(s: string, p: string) {
    Contains(Upper(s), Upper(p))
  }

  /** A word character in the sense of `\w`. */
  predicate IsWordChar(c: char) {
    'a' <= c <= 'z' || 'A' <= c <= 'Z' || '0' <= c <= '9' || c == '_'
  }

  /** `/\bw\b/i`: `w` occurs case-insensitively with no word character directly on either side. */
  predicate ContainsWordIgnoreCase(s: string, w: string) {
    exists i :: 0 <= i <= |s| - |w| && WordAt(s, w, i)
  }

  predicate WordAt(s: string, w: string, i: int)
    requires 0 <= i <= |s| - |w|
  {
    Upper(s[i..i + |w|]) == Upper(w)
    && (i == 0 || !IsWordChar(s[i - 1]))
    && (i + |w| == |s| || !IsWordChar(s[i + |w|]))
  }

  predicate IsDigit(c: char) { '0' <= c <= '9' }

  predicate IsHexDigit(c: char) {
    '0' <= c <= '9' || 'a' <= c <= 'f' || 'A' <= c <= 'F'
  }

  /** The value of one hexadecimal digit. */
  function HexValue(c: char): (v: nat)
    requires IsHexDigit(c)
    ensures v < 16
  {
    if '0' <= c <= '9' then c as int - '0' as int
    else if 'a' <= c <= 'f' then c as int - 'a' as int + 10
    else c as int - 'A' as int + 10
  }

  /** The value of a string of decimal digits, most significant first. */
  function DecimalValue(s: string): nat
    requires forall i :: 0 <= i < |s| ==> IsDigit(s[i])
  {
    if s == [] then 0
    else
      var c := s[|s| - 1];
      assert IsDigit(c);
      10 * DecimalValue(s[..|s| - 1]) + (c as int - '0' as int)
  }

  /** The decimal digits of a natural number, as `Number.prototype.toString` writes them. */
  function NatToString(n: nat): (s: string)
    ensures s != [] && forall i :: 0 <= i < |s| ==> IsDigit(s[i])
  {
    if n < 10 then [('0' as int + n) as char]
    else NatToString(n / 10) + [('0' as int + n % 10) as char]
  }

  /** Reading back the digits written by NatToString gives the number. */
  lemma {:induction false} DecimalValueOfNatToString(n: nat)
    ensures DecimalValue(NatToString(n)) == n
  {
    if n >= 10 {
      var s := NatToString(n);
      assert s[..|s| - 1] == NatToString(n / 10);
      DecimalValueOfNatToString(n / 10);
    }
  }
}
