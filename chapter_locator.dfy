// The chapter pass of the parser (convertidor.py:88-111): inside one book's
// span, chapter headings are found, the first heading of each number wins,
// and each chapter's text runs to the next heading.

module ChapterLocator {
  import opened Text
  import opened OrderedDict
  import opened Matching
  import opened VerseSplitter

  /** A book: chapter number to its verses, in insertion order. */
  type Chapters = Dict<string, Verses>

  /** The chapter assignments in the order the loop meets the headings, one
      per heading, repeated numbers included: the heading's number and the
      verses of the text up to the next heading. */
  function ChapterEntries(s: string, title: string): seq<(string, Verses)> {
    var hits := Scan(ChapterHeading(title), s);
    seq(|hits|, j requires 0 <= j < |hits| => (hits[j].group, VersesOf(Segment(s, hits, j))))
  }

  /** The book dict the chapter loop leaves: a number already present is
      skipped. */
  function ChaptersOf(s: string, title: string): Chapters {
    PutFirstAll(ChapterEntries(s, title))
  }

  /** The chapter loop (convertidor.py:93-111) over one book's text. */
  method ParseBook(bookText: string, bookName: string) returns (chapters: Chapters)
    ensures chapters == ChaptersOf(bookText, bookName)
  {
    chapters := [];
    var matches := Scan(ChapterHeading(bookName), bookText);
    ghost var entries := ChapterEntries(bookText, bookName);
    if matches == [] {
      return;
    }
    ScanFindsMatches(ChapterHeading(bookName), bookText);
    for j := 0 to |matches|
      invariant chapters == PutFirstAll(entries[..j])
    {
      var chapterNum := matches[j].group;
      PutFirstAllStep(entries, j);
      assert entries[j] == (chapterNum, VersesOf(Segment(bookText, matches, j)));
      assert MatchAt(ChapterHeading(bookName), bookText, matches[j].start) == Some(matches[j]);
      if chapterNum == [] || chapterNum in Keys(chapters) {
        continue;
      }
      ghost var before := chapters;
      chapters := Put(chapters, chapterNum, []);
      var chapStart := matches[j].end;
      var chapEnd := if j + 1 < |matches| then matches[j + 1].start else |bookText|;
      var chapterText := bookText[chapStart..chapEnd];
      var verses := SplitVerses(chapterText);
      PutTwice(before, chapterNum, [], verses);
      chapters := Put(chapters, chapterNum, verses);
    }
    assert entries[..|matches|] == entries;
  }

  /** Chapter numbers come in the order of their first heading, each once. */
  lemma ChapterNumbersInOrder(s: string, title: string)
    ensures Keys(ChaptersOf(s, title)) == Unique(Numbers(Scan(ChapterHeading(title), s)))
  {
    var hits := Scan(ChapterHeading(title), s);
    var entries := ChapterEntries(s, title);
    PutFirstAllKeys(entries);
    var nums := Numbers(hits);
    forall j | 0 <= j < |nums|
      ensures Keys(entries)[j] == nums[j]
    {
      assert entries[j].0 == hits[j].group;
    }
    assert Keys(entries) == nums;
  }

  /** Every chapter key is a run of one to three digits. */
  lemma ChapterNumbersAreShortNumerals(s: string, title: string, c: string)
    requires c in Keys(ChaptersOf(s, title))
    ensures IsNumeral(c) && |c| <= 3
  {
    var hits := Scan(ChapterHeading(title), s);
    ChapterNumbersInOrder(s, title);
    var nums := Numbers(hits);
    var i :| 0 <= i < |Unique(nums)| && Unique(nums)[i] == c;
    var j :| 0 <= j < |nums| && nums[j] == c;
    ScanFindsMatches(ChapterHeading(title), s);
    assert MatchAt(ChapterHeading(title), s, hits[j].start) == Some(hits[j]);
  }

  /** The first heading of a number defines its chapter: the verses stored
      under it are those of the text after that heading. */
  lemma FirstChapterWins(s: string, title: string, j: nat)
    requires var hits := Scan(ChapterHeading(title), s);
      j < |hits| && forall i :: 0 <= i < j ==> hits[i].group != hits[j].group
    ensures var hits := Scan(ChapterHeading(title), s);
      hits[j].group in Keys(ChaptersOf(s, title)) &&
      Get(ChaptersOf(s, title), hits[j].group) == VersesOf(Segment(s, hits, j))
  {
    var hits := Scan(ChapterHeading(title), s);
    var entries := ChapterEntries(s, title);
    assert forall i :: 0 <= i <= j ==> entries[i].0 == hits[i].group;
    PutFirstAllFirstWins(entries, j);
  }

  /** The `j`-th chapter assignment. */
  lemma ChapterEntryAt(s: string, title: string, j: nat)
    requires j < |Scan(ChapterHeading(title), s)|
    ensures var hits := Scan(ChapterHeading(title), s);
      j < |ChapterEntries(s, title)| &&
      ChapterEntries(s, title)[j] == (hits[j].group, VersesOf(Segment(s, hits, j)))
  {
  }

  /** Every stored chapter holds the verses of the text after a heading of
      its number. */
  lemma StoredChapterFromHeading(s: string, title: string, c: string)
    requires c in Keys(ChaptersOf(s, title))
    ensures var hits := Scan(ChapterHeading(title), s);
      exists j :: 0 <= j < |hits| && hits[j].group == c &&
        Get(ChaptersOf(s, title), c) == VersesOf(Segment(s, hits, j))
  {
    var entries := ChapterEntries(s, title);
    PutFirstAllValueAssigned(entries, c);
    var j :| 0 <= j < |entries| && entries[j] == (c, Get(ChaptersOf(s, title), c));
    ChapterEntryAt(s, title, j);
  }

  /** Every entry stored for a book has a one-to-three digit chapter number,
      a numeric verse number and a clean verse record. */
  lemma ChaptersWellFormed(s: string, title: string, chapter: string, verse: string)
    requires chapter in Keys(ChaptersOf(s, title))
    requires verse in Keys(Get(ChaptersOf(s, title), chapter))
    ensures IsNumeral(chapter) && |chapter| <= 3
    ensures IsNumeral(verse) && CleanVerse(Get(Get(ChaptersOf(s, title), chapter), verse))
  {
    ChapterNumbersAreShortNumerals(s, title, chapter);
    StoredChapterFromHeading(s, title, chapter);
    var hits := Scan(ChapterHeading(title), s);
    var j :| 0 <= j < |hits| && hits[j].group == chapter &&
      Get(ChaptersOf(s, title), chapter) == VersesOf(Segment(s, hits, j));
    VerseNumbersAreNumerals(Segment(s, hits, j), verse);
    StoredVerseIsClean(Segment(s, hits, j), verse);
  }

  // A worked example: in "G\n1\nx.\n2\ny." the line holding only "2" is a
  // chapter heading by the second alternative of the pattern (line 91), not
  // a verse, so the book gets chapters "1" and "2", both without verses.

  lemma ExampleHeadingMatches(s: string)
    requires s == "G\n1\nx.\n2\ny."
    ensures MatchAt(ChapterHeading("G"), s, 0) == Some(Hit(0, 3, "1"))
    ensures MatchAt(ChapterHeading("G"), s, 7) == Some(Hit(7, 8, "2"))
  {
    assert s[2..3] == "1" && s[7..8] == "2";
    assert SpaceRunEnd(s, 1) == 2;
    assert DigitRunEnd(s, 2) == 3;
    assert s[7..8][0] == s[7] && Fold(s[7]) != 'g';
    assert SpaceRunEnd(s, 7) == 7;
    assert DigitRunEnd(s, 7) == 8;
    assert SpaceRunEnd(s, 8) == 9;
    assert LastLineEnd(s, 8, 9) == Some(8);
  }

  lemma ExampleNoOtherHeading(s: string, i: nat)
    requires s == "G\n1\nx.\n2\ny." && 3 <= i <= |s| && i != 7
    ensures MatchAt(ChapterHeading("G"), s, i) == None
  {
    if i < |s| {
      assert s[i..i + 1][0] == s[i] && Fold(s[i]) != 'g';
    }
    if i == 4 || i == 9 {
      assert SpaceRunEnd(s, i) == i;
      assert DigitRunEnd(s, i) == i;
    } else {
      assert !LineBegin(s, i);
    }
  }

  lemma ExampleSearch(t: seq<Option<Hit>>, s: string)
    requires WellPlaced(t, s) && |s| == 11
    requires t[0] == Some(Hit(0, 3, "1")) && t[7] == Some(Hit(7, 8, "2"))
    requires forall i :: 3 <= i <= 11 && i != 7 ==> t[i] == None
    ensures Search(t, s, 0) == [Hit(0, 3, "1"), Hit(7, 8, "2")]
  {
    assert Search(t, s, 12) == [];
    assert Search(t, s, 11) == [];
    assert Search(t, s, 10) == [];
    assert Search(t, s, 9) == [];
    assert Search(t, s, 8) == [];
    assert Search(t, s, 7) == [Hit(7, 8, "2")];
    assert Search(t, s, 6) == [Hit(7, 8, "2")];
    assert Search(t, s, 5) == [Hit(7, 8, "2")];
    assert Search(t, s, 4) == [Hit(7, 8, "2")];
    assert Search(t, s, 3) == [Hit(7, 8, "2")];
  }

  lemma ExampleHeadings()
    ensures Scan(ChapterHeading("G"), "G\n1\nx.\n2\ny.") == [Hit(0, 3, "1"), Hit(7, 8, "2")]
  {
    var s := "G\n1\nx.\n2\ny.";
    var t := MatchTable(ChapterHeading("G"), s);
    ExampleHeadingMatches(s);
    forall i | 3 <= i <= 11 && i != 7
      ensures t[i] == None
    {
      ExampleNoOtherHeading(s, i);
    }
    ExampleSearch(t, s);
  }

  lemma ExampleChapterTextsHaveNoVerses(u: string)
    requires u == "\nx.\n" || u == "\ny."
    ensures VersesOf(u) == []
  {
    forall i | 0 <= i <= |u|
      ensures MatchAt(VerseDelimiter, u, i).None?
    {
      if i == 0 {
        assert SpaceRunEnd(u, 1) == 1;
        assert DigitRunEnd(u, 1) == 1;
      }
    }
    NoHitsIffNoMatch(VerseDelimiter, u);
  }

  lemma ExampleSegments(s: string, hits: seq<Hit>)
    requires s == "G\n1\nx.\n2\ny." && hits == [Hit(0, 3, "1"), Hit(7, 8, "2")]
    requires Ascending(hits, s)
    ensures Segment(s, hits, 0) == "\nx.\n" && Segment(s, hits, 1) == "\ny."
  {
  }

  lemma ExampleEntries(s: string)
    requires s == "G\n1\nx.\n2\ny."
    ensures ChapterEntries(s, "G") == [("1", []), ("2", [])]
  {
    ExampleHeadings();
    var hits := Scan(ChapterHeading("G"), s);
    ExampleSegments(s, hits);
    ExampleChapterTextsHaveNoVerses("\nx.\n");
    ExampleChapterTextsHaveNoVerses("\ny.");
    ChapterEntryAt(s, "G", 0);
    ChapterEntryAt(s, "G", 1);
  }

  /** Both "1" and "2" start chapters, and neither chapter text holds a verse
      delimiter. */
  lemma LoneNumberLinesStartChapters()
    ensures ChaptersOf("G\n1\nx.\n2\ny.", "G") == [("1", []), ("2", [])]
  {
    var ps: seq<(string, Verses)> := [("1", []), ("2", [])];
    ExampleEntries("G\n1\nx.\n2\ny.");
    assert ps[..1] == [("1", [])];
    assert PutFirstAll(ps[..1]) == [("1", [])];
    assert "2" !in Keys(PutFirstAll(ps[..1]));
  }
}
