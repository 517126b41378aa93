// The three regular expressions of the parser, each written out as the match
// Python's backtracking engine finds at one position, and the two library
// calls that use them: `re.finditer` (Scan) and `re.split` (ReSplit).

module Matching {
  import opened Text

  datatype Option<T> = None | Some(value: T)

  /** One match: the span [start, end) and the text of its capture group. */
  datatype Hit = Hit(start: nat, end: nat, group: string)

  datatype Pattern =
    | BookTitle(title: string)       // `\b<title>\b`, ignoring case (convertidor.py:67)
    | ChapterHeading(title: string)  // `(?i)\b<title>\s+(\d{1,3})\b|^\s*(\d{1,3})\s*$` (convertidor.py:91)
    | VerseDelimiter                 // `\n\s*(\d+)\s` (convertidor.py:114)

  predicate WordAt(s: string, k: int) {
    0 <= k < |s| && IsWordChar(s[k])
  }

  /** `\b`: a word character on exactly one side of position `i`. */
  predicate WordBoundary(s: string, i: int) {
    WordAt(s, i - 1) != WordAt(s, i)
  }

  /** `^` in MULTILINE mode. */
  predicate LineBegin(s: string, i: int) {
    i == 0 || (0 < i <= |s| && s[i - 1] == '\n')
  }

  /** `$` in MULTILINE mode. */
  predicate LineEnd(s: string, i: int) {
    i == |s| || (0 <= i < |s| && s[i] == '\n')
  }

  /** Where a greedy `\s*$` stops once it has consumed [lo, hi): the engine
      gives back characters one at a time until `$` holds, so the result is
      the LAST line end in [lo, hi], if there is one. */
  function LastLineEnd(s: string, lo: nat, hi: nat): (r: Option<nat>)
    requires lo <= hi <= |s|
    ensures r.Some? ==> lo <= r.value <= hi && LineEnd(s, r.value)
    ensures r.Some? ==> forall j :: r.value < j <= hi ==> !LineEnd(s, j)
    ensures r.None? ==> forall j :: lo <= j <= hi ==> !LineEnd(s, j)
    decreases hi - lo
  {
    if LineEnd(s, hi) then Some(hi)
    else if hi == lo then None
    else LastLineEnd(s, lo, hi - 1)
  }

  /** The book-title pattern at `i`. */
  function TitleAt(title: string, s: string, i: nat): (m: Option<Hit>)
    requires i <= |s|
    ensures m.Some? ==> m.value.start == i && m.value.end == i + |title| <= |s|
    ensures m.Some? ==> SameUpToCase(s[i..m.value.end], title)
    ensures m.Some? ==> WordBoundary(s, i) && WordBoundary(s, m.value.end)
  {
    var e := i + |title|;
    if e <= |s| && WordBoundary(s, i) && SameUpToCase(s[i..e], title) && WordBoundary(s, e) then
      Some(Hit(i, e, s[i..e]))
    else
      None
  }

  /** First alternative of the chapter pattern, `\b<title>\s+(\d{1,3})\b`.
      `\s+` must be followed by a digit, so it takes the whole whitespace run;
      the digits must end at `\b`, so they are the whole digit run, of one to
      three digits, not followed by a word character. */
  function TitledNumberAt(title: string, s: string, i: nat): (m: Option<Hit>)
    requires i <= |s|
    ensures m.Some? ==> m.value.start == i < m.value.end <= |s|
    ensures m.Some? ==> IsNumeral(m.value.group) && |m.value.group| <= 3
  {
    var t := i + |title|;
    if t <= |s| && WordBoundary(s, i) && SameUpToCase(s[i..t], title) then
      var w := SpaceRunEnd(s, t);
      var d := DigitRunEnd(s, w);
      if t < w && 1 <= d - w <= 3 && WordBoundary(s, d) then Some(Hit(i, d, s[w..d])) else None
    else
      None
  }

  /** Second alternative of the chapter pattern, `^\s*(\d{1,3})\s*$`. The
      leading `\s*` takes the whole whitespace run (newlines included), the
      number is the whole digit run, and the trailing `\s*` ends at the last
      line end inside the whitespace run that follows it. */
  function NumberLineAt(s: string, i: nat): (m: Option<Hit>)
    requires i <= |s|
    ensures m.Some? ==> m.value.start == i < m.value.end <= |s| && LineEnd(s, m.value.end)
    ensures m.Some? ==> IsNumeral(m.value.group) && |m.value.group| <= 3
  {
    if LineBegin(s, i) then
      var w := SpaceRunEnd(s, i);
      var d := DigitRunEnd(s, w);
      if 1 <= d - w <= 3 then
        match LastLineEnd(s, d, SpaceRunEnd(s, d))
        case Some(e) => Some(Hit(i, e, s[w..d]))
        case None => None
      else
        None
    else
      None
  }

  /** The chapter pattern at `i`: its first alternative, else its second. */
  function ChapterHeadingAt(title: string, s: string, i: nat): (m: Option<Hit>)
    requires i <= |s|
    ensures m.Some? ==> m.value.start == i < m.value.end <= |s|
    ensures m.Some? ==> IsNumeral(m.value.group) && |m.value.group| <= 3
  {
    var a := TitledNumberAt(title, s, i);
    if a.Some? then a else NumberLineAt(s, i)
  }

  /** A line that holds nothing but a number of one to three digits is a
      chapter heading, whatever the title: a verse number printed on a line
      of its own starts a new chapter. */
  lemma BareNumberLineIsHeading(title: string, s: string, i: nat, d: nat)
    requires LineBegin(s, i) && i < d <= i + 3 && d <= |s| && LineEnd(s, d)
    requires forall k :: i <= k < d ==> IsDigit(s[k])
    ensures ChapterHeadingAt(title, s, i).Some?
  {
    if TitledNumberAt(title, s, i).None? {
      assert SpaceRunEnd(s, i) == i;
      assert DigitRunEnd(s, i) == d;
    }
  }

  /** The verse delimiter at `i`: a newline, the whole whitespace run after
      it, the whole digit run after that, and one whitespace character. */
  function VerseDelimiterAt(s: string, i: nat): (m: Option<Hit>)
    requires i <= |s|
    ensures m.Some? ==> m.value.start == i && i + 2 < m.value.end <= |s|
    ensures m.Some? ==> s[i] == '\n' && IsSpace(s[m.value.end - 1]) && IsNumeral(m.value.group)
  {
    if i < |s| && s[i] == '\n' then
      var w := SpaceRunEnd(s, i + 1);
      var d := DigitRunEnd(s, w);
      if w < d < |s| && IsSpace(s[d]) then Some(Hit(i, d + 1, s[w..d])) else None
    else
      None
  }

  /** The match the engine finds when it tries pattern `p` at position `i`. */
  function MatchAt(p: Pattern, s: string, i: nat): (m: Option<Hit>)
    requires i <= |s|
    ensures m.Some? ==> m.value.start == i <= m.value.end <= |s|
    ensures m.Some? && !p.BookTitle? ==> i < m.value.end && IsNumeral(m.value.group)
    ensures m.Some? && p.ChapterHeading? ==> |m.value.group| <= 3
  {
    match p
    case BookTitle(title) => TitleAt(title, s, i)
    case ChapterHeading(title) => ChapterHeadingAt(title, s, i)
    case VerseDelimiter => VerseDelimiterAt(s, i)
  }

  /** Hits lie inside `s`, in ascending order, without overlapping. */
  predicate Ascending(hits: seq<Hit>, s: string) {
    && (forall n :: 0 <= n < |hits| ==> hits[n].start <= hits[n].end <= |s|)
    && (forall m, n :: 0 <= m < n < |hits| ==> hits[m].end <= hits[n].start && hits[m].start < hits[n].start)
  }

  /** What pattern `p` matches when tried at each position of `s`, the end of
      the text included. */
  function MatchTable(p: Pattern, s: string): (t: seq<Option<Hit>>)
    ensures |t| == |s| + 1
    ensures forall i :: 0 <= i <= |s| ==> t[i] == MatchAt(p, s, i)
  {
    seq(|s| + 1, i requires 0 <= i <= |s| => MatchAt(p, s, i))
  }

  /** Every entry of the table is a match that starts where it is listed and
      ends inside `s`. */
  predicate WellPlaced(t: seq<Option<Hit>>, s: string) {
    && |t| == |s| + 1
    && forall i :: 0 <= i < |t| && t[i].Some? ==> t[i].value.start == i <= t[i].value.end <= |s|
  }

  /** The leftmost-first search of `re.finditer`, over a table of matches:
      take the match at the first position that has one, then resume where it
      ended (one position further on after an empty match). */
  function Search(t: seq<Option<Hit>>, s: string, from: nat): seq<Hit>
    requires WellPlaced(t, s) && from <= |t|
    decreases |t| - from
  {
    if from == |t| then []
    else
      match t[from]
      case None => Search(t, s, from + 1)
      case Some(h) => [h] + Search(t, s, if h.end > from then h.end else from + 1)
  }

  /** Every hit is the table entry at its start, at `from` or later. */
  predicate FromTable(t: seq<Option<Hit>>, s: string, hits: seq<Hit>, from: nat) {
    forall n :: 0 <= n < |hits| ==> from <= hits[n].start <= |s| && hits[n].start < |t| && t[hits[n].start] == Some(hits[n])
  }

  /** Every hit of a search is the table entry at its start, from `from` on. */
  lemma {:induction false} SearchEntries(t: seq<Option<Hit>>, s: string, from: nat)
    requires WellPlaced(t, s) && from <= |t|
    ensures FromTable(t, s, Search(t, s, from), from)
    decreases |t| - from
  {
    if from < |t| {
      if t[from].None? {
        SearchEntries(t, s, from + 1);
        assert Search(t, s, from) == Search(t, s, from + 1);
      } else {
        var h := t[from].value;
        assert h.start == from && h.end <= |s|;
        var next := if h.end > from then h.end else from + 1;
        var rest := Search(t, s, next);
        SearchEntries(t, s, next);
        var hits := [h] + rest;
        assert Search(t, s, from) == hits;
        forall n | 0 <= n < |hits|
          ensures from <= hits[n].start <= |s| && hits[n].start < |t| && t[hits[n].start] == Some(hits[n])
        {
          if n > 0 {
            assert hits[n] == rest[n - 1];
          }
        }
      }
    }
  }

  /** A hit followed by ascending hits that all start at or after its end,
      and after its start, is ascending. */
  lemma ConsAscending(h: Hit, rest: seq<Hit>, s: string)
    requires h.start <= h.end <= |s| && Ascending(rest, s)
    requires forall n :: 0 <= n < |rest| ==> h.end <= rest[n].start && h.start < rest[n].start
    ensures Ascending([h] + rest, s)
  {
    var hits := [h] + rest;
    assert forall n :: 0 < n < |hits| ==> hits[n] == rest[n - 1];
  }

  /** The hits of a search ascend without overlap. */
  lemma {:induction false} SearchAscending(t: seq<Option<Hit>>, s: string, from: nat)
    requires WellPlaced(t, s) && from <= |t|
    ensures Ascending(Search(t, s, from), s)
    decreases |t| - from
  {
    if from < |t| {
      if t[from].None? {
        SearchAscending(t, s, from + 1);
      } else {
        var h := t[from].value;
        var next := if h.end > from then h.end else from + 1;
        var rest := Search(t, s, next);
        SearchAscending(t, s, next);
        SearchEntries(t, s, next);
        assert h.start == from && h.end <= |s|;
        ConsAscending(h, rest, s);
        assert Search(t, s, from) == [h] + rest;
      }
    }
  }

  /** `re.finditer(p, s)`: the matches of `p` in `s`, leftmost first, without
      overlap. */
  function Scan(p: Pattern, s: string): (hits: seq<Hit>)
    ensures Ascending(hits, s)
  {
    var t := MatchTable(p, s);
    SearchAscending(t, s, 0);
    Search(t, s, 0)
  }

  /** Every hit of a scan is the match the pattern finds at its start. */
  lemma ScanFindsMatches(p: Pattern, s: string)
    ensures var hits := Scan(p, s);
      forall n :: 0 <= n < |hits| ==> hits[n].start <= |s| && MatchAt(p, s, hits[n].start) == Some(hits[n])
  {
    var t := MatchTable(p, s);
    SearchEntries(t, s, 0);
  }

  /** Position `q` is the start of a hit or lies strictly inside one. */
  predicate Covered(hits: seq<Hit>, q: nat) {
    exists n :: 0 <= n < |hits| && (hits[n].start == q || hits[n].start < q < hits[n].end)
  }

  /** The search misses no entry of the table: a position that holds a match
      either starts a hit or lies inside an earlier hit. */
  lemma {:induction false} SearchIsLeftmost(t: seq<Option<Hit>>, s: string, from: nat, q: nat)
    requires WellPlaced(t, s) && from <= q < |t| && t[q].Some?
    ensures Covered(Search(t, s, from), q)
    decreases |t| - from
  {
    if t[from].None? {
      SearchIsLeftmost(t, s, from + 1, q);
    } else {
      var h := t[from].value;
      var next := if h.end > from then h.end else from + 1;
      var rest := Search(t, s, next);
      var hits := [h] + rest;
      assert Search(t, s, from) == hits;
      if q != from && q >= h.end {
        SearchIsLeftmost(t, s, next, q);
        var n :| 0 <= n < |rest| && (rest[n].start == q || rest[n].start < q < rest[n].end);
        assert hits[n + 1] == rest[n];
      } else {
        assert hits[0] == h;
      }
    }
  }

  /** Scan misses no match: a position where the pattern matches either starts
      a hit or was skipped because it lies inside an earlier hit. */
  lemma ScanIsLeftmost(p: Pattern, s: string, q: nat)
    requires q <= |s| && MatchAt(p, s, q).Some?
    ensures Covered(Scan(p, s), q)
  {
    SearchIsLeftmost(MatchTable(p, s), s, 0, q);
  }

  /** `re.finditer` yields nothing exactly when the pattern matches at no
      position of `s`. */
  lemma NoHitsIffNoMatch(p: Pattern, s: string)
    ensures Scan(p, s) == [] <==> forall i :: 0 <= i <= |s| ==> MatchAt(p, s, i).None?
  {
    var hits := Scan(p, s);
    if hits != [] {
      ScanFindsMatches(p, s);
      assert MatchAt(p, s, hits[0].start).Some?;
    }
    if q :| 0 <= q <= |s| && MatchAt(p, s, q).Some? {
      ScanIsLeftmost(p, s, q);
    }
  }

  /** Where the text that follows hit `n` ends: at the next hit, or at the end
      of `s`. */
  function SegmentEnd(s: string, hits: seq<Hit>, n: nat): (e: nat)
    requires Ascending(hits, s) && n < |hits|
    ensures hits[n].end <= e <= |s|
    ensures forall j :: n < j < |hits| ==> e <= hits[j].start
  {
    if n + 1 < |hits| then hits[n + 1].start else |s|
  }

  /** The text between the end of hit `n` and the start of the next. */
  function Segment(s: string, hits: seq<Hit>, n: nat): string
    requires Ascending(hits, s) && n < |hits|
  {
    s[hits[n].end..SegmentEnd(s, hits, n)]
  }

  /** The text of every hit from the `n`-th on, each followed by its segment,
      joined in order. */
  function Joined(s: string, hits: seq<Hit>, n: nat): string
    requires Ascending(hits, s) && n <= |hits|
    decreases |hits| - n
  {
    if n == |hits| then [] else s[hits[n].start..hits[n].end] + Segment(s, hits, n) + Joined(s, hits, n + 1)
  }

  /** Hits and the segments after them tile `s` from the `n`-th hit on: no
      character is lost and none is counted twice. */
  lemma {:induction false} HitsAndSegmentsCover(s: string, hits: seq<Hit>, n: nat)
    requires Ascending(hits, s) && n < |hits|
    ensures Joined(s, hits, n) == s[hits[n].start..]
    decreases |hits| - n
  {
    var a, b, e := hits[n].start, hits[n].end, SegmentEnd(s, hits, n);
    var rest := Joined(s, hits, n + 1);
    assert Joined(s, hits, n) == s[a..b] + s[b..e] + rest;
    if n + 1 < |hits| {
      HitsAndSegmentsCover(s, hits, n + 1);
      assert rest == s[e..];
    } else {
      assert rest == [] && e == |s|;
    }
    SliceSplit(s, b, e);
    SliceSplit(s, a, b);
  }

  /** Cutting `s[a..]` at `b` and joining the pieces gives it back. */
  lemma SliceSplit(s: string, a: nat, b: nat)
    requires a <= b <= |s|
    ensures s[a..] == s[a..b] + s[b..]
  {
  }

  /** The numbers the hits capture, in order. */
  function Numbers(hits: seq<Hit>): seq<string> {
    seq(|hits|, n requires 0 <= n < |hits| => hits[n].group)
  }

  /** Number and following text of every delimiter from the `n`-th on. */
  function Pieces(s: string, hits: seq<Hit>, n: nat): (r: seq<string>)
    requires Ascending(hits, s) && n <= |hits|
    ensures |r| == 2 * (|hits| - n)
    decreases |hits| - n
  {
    if n == |hits| then [] else [hits[n].group, Segment(s, hits, n)] + Pieces(s, hits, n + 1)
  }

  lemma {:induction false} PiecesAt(s: string, hits: seq<Hit>, n: nat, m: nat)
    requires Ascending(hits, s) && n <= m < |hits|
    ensures Pieces(s, hits, n)[2 * (m - n)] == hits[m].group
    ensures Pieces(s, hits, n)[2 * (m - n) + 1] == Segment(s, hits, m)
    decreases m - n
  {
    if n < m {
      PiecesAt(s, hits, n + 1, m);
    }
  }

  /** The split list at the positions of delimiter `m`. */
  lemma SplitPartsAt(s: string, hits: seq<Hit>, prefix: string, m: nat)
    requires Ascending(hits, s) && m < |hits|
    ensures ([prefix] + Pieces(s, hits, 0))[2 * m + 1] == hits[m].group
    ensures ([prefix] + Pieces(s, hits, 0))[2 * m + 2] == Segment(s, hits, m)
  {
    PiecesAt(s, hits, 0, m);
  }

  /** `re.split(r'\n\s*(\d+)\s', s)`. With one capture group the list always
      has odd length: the text before the first delimiter, then for each
      delimiter its number and the text up to the next delimiter. */
  function ReSplit(s: string): (parts: seq<string>)
    ensures var hits := Scan(VerseDelimiter, s);
      && |parts| == 2 * |hits| + 1
      && parts[0] == s[..if hits == [] then |s| else hits[0].start]
      && forall m :: 0 <= m < |hits| ==>
           parts[2 * m + 1] == hits[m].group && parts[2 * m + 2] == Segment(s, hits, m)
  {
    var hits := Scan(VerseDelimiter, s);
    var prefix := s[..if hits == [] then |s| else hits[0].start];
    var parts := [prefix] + Pieces(s, hits, 0);
    assert forall m :: 0 <= m < |hits| ==>
      parts[2 * m + 1] == hits[m].group && parts[2 * m + 2] == Segment(s, hits, m) by {
      forall m | 0 <= m < |hits| {
        SplitPartsAt(s, hits, prefix, m);
      }
    }
    parts
  }
}
