/** Character classes and case mappings used by the three case-conversion
    utilities. String.prototype.toLowerCase and toUpperCase are modelled on the
    ASCII letters only; every other character is left as it is. */
module Ascii {

  predicate IsUpper(c: char) { 'A' <= c <= 'Z' }

  predicate IsLower(c: char) { 'a' <= c <= 'z' }

  predicate IsDigit(c: char) { '0' <= c <= '9' }

  /** The class [a-zA-Z0-9]. */
  predicate IsAlphaNumeric(c: char) { IsUpper(c) || IsLower(c) || IsDigit(c) }

  /** toLowerCase on one ASCII character. */
  function Lower(c: char): (r: char)
    ensures !IsUpper(r)
    ensures IsUpper(c) ==> IsLower(r)
    ensures !IsUpper(c) ==> r == c
    ensures IsAlphaNumeric(c) <==> IsAlphaNumeric(r)
  {
    if IsUpper(c) then (c as int + 32) as char else c
  }

  /** toUpperCase on one ASCII character. */
  function Upper(c: char): (r: char)
    ensures !IsLower(r)
    ensures IsLower(c) ==> IsUpper(r)
    ensures !IsLower(c) ==> r == c
    ensures IsAlphaNumeric(c) <==> IsAlphaNumeric(r)
  {
    if IsLower(c) then (c as int - 32) as char else c
  }

  /** Upper-casing a lower-cased character gives the upper-cased character, and
      the two mappings undo each other on letters. */
  lemma CaseRoundTrip(c: char)
    ensures Upper(Lower(c)) == Upper(c)
    ensures Lower(Upper(c)) == Lower(c)
  {
  }

  /** str.toLowerCase() */
  function LowerStr(s: seq<char>): seq<char>
  {
    seq(|s|, i requires 0 <= i < |s| => Lower(s[i]))
  }

  /** str.toUpperCase() */
  function UpperStr(s: seq<char>): seq<char>
  {
    seq(|s|, i requires 0 <= i < |s| => Upper(s[i]))
  }

  lemma LowerStrConcat(a: seq<char>, b: seq<char>)
    ensures LowerStr(a + b) == LowerStr(a) + LowerStr(b)
  {
  }

  lemma LowerStrCons(s: seq<char>)
    requires s != []
    ensures LowerStr(s) == [Lower(s[0])] + LowerStr(s[1..])
  {
  }

  /** The characters JavaScript's \s class and String.prototype.trim treat as
      white space: the WhiteSpace and LineTerminator code points of ECMAScript
      (TAB, VT, FF, SP, NBSP, ZWNBSP, the Zs category, LF, CR, LS, PS), held as
      ten ranges of code points. */
  predicate IsJsSpace(c: char)
  {
    InSpaceRanges(c, 0)
  }

  /** The k-th range of white-space code points, in increasing order; none of
      them reaches into [0-9A-Za-z]. */
  function SpaceRange(k: nat): (r: (char, char))
    requires k < 10
    ensures r.0 <= r.1
    ensures r.1 < '0' || 'z' < r.0
  {
    if k == 0 then ('\t', '\r')
    else if k == 1 then (' ', ' ')
    else if k == 2 then ('\U{A0}', '\U{A0}')
    else if k == 3 then ('\U{1680}', '\U{1680}')
    else if k == 4 then ('\U{2000}', '\U{200A}')
    else if k == 5 then ('\U{2028}', '\U{2029}')
    else if k == 6 then ('\U{202F}', '\U{202F}')
    else if k == 7 then ('\U{205F}', '\U{205F}')
    else if k == 8 then ('\U{3000}', '\U{3000}')
    else ('\U{FEFF}', '\U{FEFF}')
  }

  /** c lies in one of the ranges from the k-th on. */
  predicate InSpaceRanges(c: char, k: nat)
    decreases 10 - k
  {
    k < 10 && (SpaceRange(k).0 <= c <= SpaceRange(k).1 || InSpaceRanges(c, k + 1))
  }

  /** The ranges hold exactly the listed code points. */
  lemma JsSpaceListed(c: char)
    ensures IsJsSpace(c) <==>
      || c == '\t' || c == '\n' || c == '\U{B}' || c == '\U{C}' || c == '\r' || c == ' '
      || c == '\U{A0}' || c == '\U{1680}' || ('\U{2000}' <= c <= '\U{200A}')
      || c == '\U{2028}' || c == '\U{2029}' || c == '\U{202F}' || c == '\U{205F}'
      || c == '\U{3000}' || c == '\U{FEFF}'
  {
    assert InSpaceRanges(c, 0) == ('\t' <= c <= '\r' || InSpaceRanges(c, 1));
    assert InSpaceRanges(c, 1) == (c == ' ' || InSpaceRanges(c, 2));
    assert InSpaceRanges(c, 2) == (c == '\U{A0}' || InSpaceRanges(c, 3));
    assert InSpaceRanges(c, 3) == (c == '\U{1680}' || InSpaceRanges(c, 4));
    assert InSpaceRanges(c, 4) == ('\U{2000}' <= c <= '\U{200A}' || InSpaceRanges(c, 5));
    assert InSpaceRanges(c, 5) == ('\U{2028}' <= c <= '\U{2029}' || InSpaceRanges(c, 6));
    assert InSpaceRanges(c, 6) == (c == '\U{202F}' || InSpaceRanges(c, 7));
    assert InSpaceRanges(c, 7) == (c == '\U{205F}' || InSpaceRanges(c, 8));
    assert InSpaceRanges(c, 8) == (c == '\U{3000}' || InSpaceRanges(c, 9));
    assert InSpaceRanges(c, 9) == (c == '\U{FEFF}' || InSpaceRanges(c, 10));
    assert !InSpaceRanges(c, 10);
  }

  /** No letter or digit is white space. */
  lemma AlphaNumericIsNotSpace(c: char)
    requires IsAlphaNumeric(c)
    ensures !IsJsSpace(c)
  {
    AlphaNumericNotInSpaceRanges(c, 0);
  }

  lemma {:induction false} AlphaNumericNotInSpaceRanges(c: char, k: nat)
    requires IsAlphaNumeric(c)
    ensures !InSpaceRanges(c, k)
    decreases 10 - k
  {
    if k < 10 {
      AlphaNumericNotInSpaceRanges(c, k + 1);
    }
  }
}
