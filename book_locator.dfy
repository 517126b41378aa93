// Where the books start (convertidor.py:65-80) and the text span each book
// receives (convertidor.py:82-84).

module BookLocator {
  import opened Text
  import opened OrderedDict
  import opened Matching

  /** A detected book start: the title as listed and its offset in the text. */
  datatype Boundary = Boundary(title: string, offset: nat)

  /** A title counts only at offset 0 or right after '\n' or '\r'. */
  predicate AtLineStart(text: string, i: nat) {
    i == 0 || (i <= |text| && IsLineBreak(text[i - 1]))
  }

  /** Some hit starts at `q`. */
  predicate StartsAt(hits: seq<Hit>, q: nat) {
    exists n :: 0 <= n < |hits| && hits[n].start == q
  }

  /** `re.finditer` on `\b<title>\b` (ignoring case) reports a match at `q`. */
  predicate Found(text: string, title: string, q: nat) {
    StartsAt(Scan(BookTitle(title), text), q)
  }

  /** What the inner loop (convertidor.py:67-71) appends for one title, given
      the matches `hits` reported for it: each match at a line start, in
      order. */
  function LineStartHits(text: string, title: string, hits: seq<Hit>): seq<Boundary>
    decreases |hits|
  {
    if hits == [] then []
    else
      var n := |hits| - 1;
      LineStartHits(text, title, hits[..n])
        + if AtLineStart(text, hits[n].start) then [Boundary(title, hits[n].start)] else []
  }

  lemma {:induction false} LineStartHitsMembers(text: string, title: string, hits: seq<Hit>, b: Boundary)
    ensures b in LineStartHits(text, title, hits) <==>
      b.title == title && AtLineStart(text, b.offset) && StartsAt(hits, b.offset)
    decreases |hits|
  {
    if hits != [] {
      var n := |hits| - 1;
      var prefix := hits[..n];
      LineStartHitsMembers(text, title, prefix, b);
      assert LineStartHits(text, title, hits) ==
        LineStartHits(text, title, prefix) + if AtLineStart(text, hits[n].start) then [Boundary(title, hits[n].start)] else [];
      if StartsAt(hits, b.offset) && !StartsAt(prefix, b.offset) {
        assert hits[n].start == b.offset;
      }
      if StartsAt(prefix, b.offset) {
        var m :| 0 <= m < |prefix| && prefix[m].start == b.offset;
        assert hits[m] == prefix[m];
      }
    }
  }

  /** `book_positions` after both loops (convertidor.py:65-71). */
  function Candidates(text: string, titles: seq<string>): seq<Boundary>
    decreases |titles|
  {
    if titles == [] then []
    else
      var k := |titles| - 1;
      Candidates(text, titles[..k]) + LineStartHits(text, titles[k], Scan(BookTitle(titles[k]), text))
  }

  /** `book_positions` holds every match of every title that sits at a line
      start, and nothing else. */
  lemma {:induction false} CandidatesMembers(text: string, titles: seq<string>, b: Boundary)
    ensures b in Candidates(text, titles) <==>
      b.title in titles && Found(text, b.title, b.offset) && AtLineStart(text, b.offset)
    decreases |titles|
  {
    if titles != [] {
      var k := |titles| - 1;
      var prefix := titles[..k];
      var hits := Scan(BookTitle(titles[k]), text);
      CandidatesMembers(text, prefix, b);
      LineStartHitsMembers(text, titles[k], hits, b);
      assert Candidates(text, titles) == Candidates(text, prefix) + LineStartHits(text, titles[k], hits);
      assert titles == prefix + [titles[k]];
    }
  }

  predicate SortedByOffset(bs: seq<Boundary>) {
    forall i, j :: 0 <= i < j < |bs| ==> bs[i].offset <= bs[j].offset
  }

  lemma SortedCons(x: Boundary, bs: seq<Boundary>)
    requires SortedByOffset(bs) && forall y :: y in bs ==> x.offset <= y.offset
    ensures SortedByOffset([x] + bs)
  {
    assert forall j :: 0 < j < |bs| + 1 ==> ([x] + bs)[j] == bs[j - 1];
  }

  /** Inserts `b` after every entry whose offset is not larger (a stable
      insertion). */
  function InsertByOffset(b: Boundary, bs: seq<Boundary>): (r: seq<Boundary>)
    requires SortedByOffset(bs)
    ensures SortedByOffset(r)
    ensures |r| == |bs| + 1
    ensures forall x :: x in r <==> x == b || x in bs
    decreases |bs|
  {
    if bs == [] || b.offset < bs[0].offset then
      SortedCons(b, bs);
      [b] + bs
    else
      var rest := InsertByOffset(b, bs[1..]);
      assert forall x :: x in bs <==> x == bs[0] || x in bs[1..];
      SortedCons(bs[0], rest);
      [bs[0]] + rest
  }

  /** The insertion adds exactly one copy of `b` and drops nothing. */
  lemma {:induction false} InsertByOffsetPermutes(b: Boundary, bs: seq<Boundary>)
    requires SortedByOffset(bs)
    ensures multiset(InsertByOffset(b, bs)) == multiset(bs) + multiset{b}
    decreases |bs|
  {
    if bs != [] && b.offset >= bs[0].offset {
      InsertByOffsetPermutes(b, bs[1..]);
      assert bs == [bs[0]] + bs[1..];
    }
  }

  lemma {:induction false} InsertKeepsDistinct(b: Boundary, bs: seq<Boundary>)
    requires SortedByOffset(bs) && Distinct(bs) && b !in bs
    ensures Distinct(InsertByOffset(b, bs))
    decreases |bs|
  {
    if bs == [] || b.offset < bs[0].offset {
      DistinctCons(b, bs);
    } else {
      InsertKeepsDistinct(b, bs[1..]);
      DistinctCons(bs[0], InsertByOffset(b, bs[1..]));
    }
  }

  /** `sorted(..., key=lambda x: x[1])`: a stable sort by offset. */
  function SortByOffset(bs: seq<Boundary>): (r: seq<Boundary>)
    ensures SortedByOffset(r)
    ensures |r| == |bs|
    ensures forall x :: x in r <==> x in bs
    decreases |bs|
  {
    if bs == [] then []
    else
      var n := |bs| - 1;
      assert forall x :: x in bs <==> x in bs[..n] || x == bs[n];
      InsertByOffset(bs[n], SortByOffset(bs[..n]))
  }

  /** The sort is a permutation of its input. */
  lemma {:induction false} SortByOffsetPermutes(bs: seq<Boundary>)
    ensures multiset(SortByOffset(bs)) == multiset(bs)
    decreases |bs|
  {
    if bs != [] {
      var n := |bs| - 1;
      var sorted := SortByOffset(bs[..n]);
      SortByOffsetPermutes(bs[..n]);
      InsertByOffsetPermutes(bs[n], sorted);
      assert SortByOffset(bs) == InsertByOffset(bs[n], sorted);
      assert bs == bs[..n] + [bs[n]];
      assert multiset(bs) == multiset(bs[..n]) + multiset{bs[n]};
    }
  }

  lemma {:induction false} SortKeepsDistinct(bs: seq<Boundary>)
    requires Distinct(bs)
    ensures Distinct(SortByOffset(bs))
    decreases |bs|
  {
    if bs != [] {
      var n := |bs| - 1;
      SortKeepsDistinct(bs[..n]);
      InsertKeepsDistinct(bs[n], SortByOffset(bs[..n]));
    }
  }

  /** `book_positions` after line 74: duplicates dropped, sorted by offset. The
      result holds exactly the line-start matches of the titles, each once,
      in ascending order of offset. */
  function Boundaries(text: string, titles: seq<string>): (bounds: seq<Boundary>)
    ensures SortedByOffset(bounds) && Distinct(bounds)
    ensures forall b :: b in bounds <==>
      b.title in titles && Found(text, b.title, b.offset) && AtLineStart(text, b.offset)
    ensures forall i :: 0 <= i < |bounds| ==> bounds[i].offset <= |text|
  {
    var candidates := Candidates(text, titles);
    var unique := Unique(candidates);
    SortKeepsDistinct(unique);
    var bounds := SortByOffset(unique);
    assert forall b :: b in bounds <==> b in candidates;
    assert forall b :: b in bounds <==>
      b.title in titles && Found(text, b.title, b.offset) && AtLineStart(text, b.offset) by {
      forall b: Boundary {
        CandidatesMembers(text, titles, b);
      }
    }
    assert forall i :: 0 <= i < |bounds| ==> bounds[i].offset <= |text| by {
      forall i | 0 <= i < |bounds|
        ensures bounds[i].offset <= |text|
      {
        var b := bounds[i];
        assert b in bounds;
        var hits := Scan(BookTitle(b.title), text);
        var n :| 0 <= n < |hits| && hits[n].start == b.offset;
      }
    }
    bounds
  }

  /** No position strictly inside a title match is at a line start, when the
      title itself holds no line break. */
  lemma NoLineStartInsideTitle(text: string, title: string, a: nat, q: nat)
    requires a <= |text| && TitleAt(title, text, a).Some?
    requires forall k :: 0 <= k < |title| ==> !IsLineBreak(title[k])
    ensures a < q < a + |title| ==> !AtLineStart(text, q)
  {
    if a < q < a + |title| {
      assert text[a..a + |title|][q - 1 - a] == text[q - 1];
    }
  }

  /** The boundaries are exactly the whole-word, case-insensitive occurrences
      of the titles that start a line, for titles that hold no line break
      (as every title of the book list does). */
  lemma {:induction false} BoundaryIffLineStartTitle(text: string, titles: seq<string>, b: Boundary)
    requires forall k :: 0 <= k < |b.title| ==> !IsLineBreak(b.title[k])
    ensures b in Boundaries(text, titles) <==>
      b.title in titles && b.offset <= |text| && TitleAt(b.title, text, b.offset).Some? && AtLineStart(text, b.offset)
  {
    var hits := Scan(BookTitle(b.title), text);
    ScanFindsMatches(BookTitle(b.title), text);
    if b in Boundaries(text, titles) {
      var n :| 0 <= n < |hits| && hits[n].start == b.offset;
      assert MatchAt(BookTitle(b.title), text, b.offset) == Some(hits[n]);
    }
    if b.title in titles && b.offset <= |text| && TitleAt(b.title, text, b.offset).Some? && AtLineStart(text, b.offset) {
      assert MatchAt(BookTitle(b.title), text, b.offset).Some?;
      ScanIsLeftmost(BookTitle(b.title), text, b.offset);
      var n :| 0 <= n < |hits| && (hits[n].start == b.offset || hits[n].start < b.offset < hits[n].end);
      assert MatchAt(BookTitle(b.title), text, hits[n].start) == Some(hits[n]);
      NoLineStartInsideTitle(text, b.title, hits[n].start, b.offset);
      assert Found(text, b.title, b.offset);
    }
  }

  /** Holds when each offset is within the text and the offsets ascend. */
  predicate Placed(text: string, bounds: seq<Boundary>) {
    SortedByOffset(bounds) && forall i :: 0 <= i < |bounds| ==> bounds[i].offset <= |text|
  }

  /** `end_pos` (convertidor.py:83): the next boundary's offset, or the end of
      the text for the last one. No later boundary starts before it. */
  function BookSpanEnd(text: string, bounds: seq<Boundary>, i: nat): (e: nat)
    requires Placed(text, bounds) && i < |bounds|
    ensures bounds[i].offset <= e <= |text|
    ensures forall j :: i < j < |bounds| ==> e <= bounds[j].offset
  {
    if i + 1 < |bounds| then bounds[i + 1].offset else |text|
  }

  /** `book_text` (convertidor.py:84). */
  function BookSpan(text: string, bounds: seq<Boundary>, i: nat): string
    requires Placed(text, bounds) && i < |bounds|
  {
    text[bounds[i].offset..BookSpanEnd(text, bounds, i)]
  }

  /** The spans of the boundaries from the `i`-th on, joined in order. */
  function JoinedSpans(text: string, bounds: seq<Boundary>, i: nat): string
    requires Placed(text, bounds) && i <= |bounds|
    decreases |bounds| - i
  {
    if i == |bounds| then [] else BookSpan(text, bounds, i) + JoinedSpans(text, bounds, i + 1)
  }

  /** The book spans leave no gap and repeat nothing: joined in order they give
      back the text from the first boundary on. */
  lemma {:induction false} BookSpansCoverText(text: string, bounds: seq<Boundary>, i: nat)
    requires Placed(text, bounds) && i < |bounds|
    ensures JoinedSpans(text, bounds, i) == text[bounds[i].offset..]
    decreases |bounds| - i
  {
    var e := BookSpanEnd(text, bounds, i);
    if i + 1 < |bounds| {
      BookSpansCoverText(text, bounds, i + 1);
      assert text[bounds[i].offset..] == text[bounds[i].offset..e] + text[e..];
    } else {
      assert text[bounds[i].offset..] == text[bounds[i].offset..e];
    }
  }

  /** The inner loop of convertidor.py:67-71 for one title: keeps the matches
      that start a line, in order. */
  method CollectLineStarts(text: string, book: string, matches: seq<Hit>) returns (found: seq<Boundary>)
    ensures found == LineStartHits(text, book, matches)
  {
    found := [];
    for j := 0 to |matches|
      invariant found == LineStartHits(text, book, matches[..j])
    {
      var start := matches[j].start;
      ghost var prefix := matches[..j + 1];
      assert prefix[..j] == matches[..j] && prefix[j] == matches[j];
      if start == 0 || (start <= |text| && IsLineBreak(text[start - 1])) {
        found := found + [Boundary(book, start)];
      }
    }
    assert matches[..|matches|] == matches;
  }

  /** The boundary-locating loops and the dedup-and-sort of line 74. */
  method LocateBoundaries(text: string, titles: seq<string>) returns (bounds: seq<Boundary>)
    ensures bounds == Boundaries(text, titles)
  {
    var positions: seq<Boundary> := [];
    for i := 0 to |titles|
      invariant positions == Candidates(text, titles[..i])
    {
      var book := titles[i];
      var matches := Scan(BookTitle(book), text);
      var found := CollectLineStarts(text, book, matches);
      positions := positions + found;
      ghost var next := titles[..i + 1];
      assert next[..i] == titles[..i] && next[i] == book;
    }
    assert titles[..|titles|] == titles;
    var unique := Unique(positions);
    bounds := SortByOffset(unique);
  }
}
