// Character classes and the two string operations the parser applies to a
// verse body (`str.strip` and `str.replace('\n', ' ')`).

module Text {

  /** Whitespace as Python's `str.isspace` and the regex class `\s` (on str
      patterns) both see it: the two share one table. */
  predicate IsSpace(c: char) {
    || ('\t' <= c <= '\r')
    || ('\U{1C}' <= c <= '\U{1F}')
    || c == ' ' || c == '\U{85}' || c == '\U{A0}' || c == '\U{1680}'
    || ('\U{2000}' <= c <= '\U{200A}')
    || c == '\U{2028}' || c == '\U{2029}' || c == '\U{202F}' || c == '\U{205F}'
    || c == '\U{3000}'
  }

  /** The regex class `\d`, restricted to ASCII digits. */
  predicate IsDigit(c: char) {
    '0' <= c <= '9'
  }

  /** The regex class `\w`: ASCII letters and digits, `_`, and the letters of
      Latin-1 and Latin Extended-A/B (the accented letters of the titles). */
  predicate IsWordChar(c: char) {
    || IsDigit(c)
    || ('a' <= c <= 'z') || ('A' <= c <= 'Z') || c == '_'
    || ('\U{C0}' <= c <= '\U{24F}' && c != '\U{D7}' && c != '\U{F7}')
  }

  /** The two characters a book title may follow (convertidor.py:70). */
  predicate IsLineBreak(c: char) {
    c == '\n' || c == '\r'
  }

  /** Case folding used by `re.IGNORECASE`: ASCII and Latin-1 capitals map to
      their small letters, every other character to itself. */
  function Fold(c: char): (f: char)
    ensures IsLineBreak(f) <==> IsLineBreak(c)
  {
    if ('A' <= c <= 'Z') || ('\U{C0}' <= c <= '\U{DE}' && c != '\U{D7}') then
      (c as int + 32) as char
    else
      c
  }

  /** `a` and `b` are equal under `re.IGNORECASE`. */
  predicate SameUpToCase(a: string, b: string) {
    |a| == |b| && forall k :: 0 <= k < |a| ==> Fold(a[k]) == Fold(b[k])
  }

  /** A non-empty run of digits, the shape of every chapter and verse key. */
  predicate IsNumeral(g: string) {
    |g| > 0 && forall k :: 0 <= k < |g| ==> IsDigit(g[k])
  }

  /** Every character of `s[i..j]` is whitespace. */
  predicate SpaceBetween(s: string, i: nat, j: nat)
    requires i <= j <= |s|
  {
    forall k :: i <= k < j ==> IsSpace(s[k])
  }

  /** End of the maximal whitespace run that starts at `i`: what a greedy
      `\s*` consumes. */
  function SpaceRunEnd(s: string, i: nat): (j: nat)
    requires i <= |s|
    ensures i <= j <= |s|
    ensures SpaceBetween(s, i, j)
    ensures j == |s| || !IsSpace(s[j])
    decreases |s| - i
  {
    if i == |s| || !IsSpace(s[i]) then i else SpaceRunEnd(s, i + 1)
  }

  /** End of the maximal digit run that starts at `i`: what a greedy `\d+`
      consumes. */
  function DigitRunEnd(s: string, i: nat): (j: nat)
    requires i <= |s|
    ensures i <= j <= |s|
    ensures IsNumeral(s[i..j]) || i == j
    ensures j == |s| || !IsDigit(s[j])
    decreases |s| - i
  {
    if i == |s| || !IsDigit(s[i]) then i else DigitRunEnd(s, i + 1)
  }

  /** Start of the maximal whitespace run that ends at `j`. */
  function SpaceRunStart(s: string, j: nat): (i: nat)
    requires j <= |s|
    ensures i <= j
    ensures SpaceBetween(s, i, j)
    ensures i == 0 || !IsSpace(s[i - 1])
    decreases j
  {
    if j == 0 || !IsSpace(s[j - 1]) then j
    else
      SpaceRunStart(s, j - 1)
  }

  /** Unless `s` is all whitespace, its leading whitespace run ends before
      its trailing one starts. */
  lemma SpaceRunsMeet(s: string)
    ensures SpaceRunEnd(s, 0) == |s| || SpaceRunEnd(s, 0) < SpaceRunStart(s, |s|)
  {
  }

  /** Python's `str.strip()` with no argument. */
  function Strip(s: string): string {
    var a := SpaceRunEnd(s, 0);
    SpaceRunsMeet(s);
    if a == |s| then [] else s[a..SpaceRunStart(s, |s|)]
  }

  /** `strip` removes exactly a whitespace prefix and a whitespace suffix, and
      what remains neither starts nor ends with whitespace. */
  lemma StripRemovesEdgeSpace(s: string)
    ensures var r := Strip(s);
      exists a, b :: 0 <= a <= b <= |s| && r == s[a..b] && SpaceBetween(s, 0, a) && SpaceBetween(s, b, |s|)
    ensures var r := Strip(s);
      r == [] || (!IsSpace(r[0]) && !IsSpace(r[|r| - 1]))
  {
    var a := SpaceRunEnd(s, 0);
    SpaceRunsMeet(s);
    if a == |s| {
      assert Strip(s) == s[a..a];
    } else {
      var b := SpaceRunStart(s, |s|);
      var r := s[a..b];
      assert r[0] == s[a] && r[|r| - 1] == s[b - 1];
    }
  }

  /** Python's `str.replace('\n', ' ')`. */
  function ReplaceNewlines(s: string): (r: string)
    ensures |r| == |s|
    ensures forall k :: 0 <= k < |s| ==> r[k] == (if s[k] == '\n' then ' ' else s[k])
  {
    seq(|s|, k requires 0 <= k < |s| => if s[k] == '\n' then ' ' else s[k])
  }

  /** The text stored for a verse: stripped, then every newline made a space
      (convertidor.py:122). */
  function Clean(s: string): string {
    ReplaceNewlines(Strip(s))
  }

  /** A cleaned text holds no newline and neither starts nor ends with
      whitespace; otherwise it is the stripped text, character for
      character. */
  lemma CleanHasNoNewlineOrEdgeSpace(s: string)
    ensures var r := Clean(s);
      && (forall k :: 0 <= k < |r| ==> r[k] != '\n')
      && (r == [] || (!IsSpace(r[0]) && !IsSpace(r[|r| - 1])))
      && |r| == |Strip(s)|
      && (forall k :: 0 <= k < |r| && Strip(s)[k] != '\n' ==> r[k] == Strip(s)[k])
  {
    StripRemovesEdgeSpace(s);
  }
}
