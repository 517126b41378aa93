// The parser as a whole (convertidor.py:61-130): locate the books, give each
// its span of the text, and fill book -> chapter -> verse.

module BibleParser {
  import opened Text
  import opened OrderedDict
  import opened Matching
  import opened BookLocator
  import opened VerseSplitter
  import opened ChapterLocator

  /** The parsed text: book title to its chapters, in insertion order. */
  type Bible = Dict<string, Chapters>

  /** The book assignments in boundary order, one per boundary: the title and
      the chapters found in its span. */
  function BookEntries(text: string, bounds: seq<Boundary>): seq<(string, Chapters)>
    requires Placed(text, bounds)
  {
    seq(|bounds|, i requires 0 <= i < |bounds| =>
      (bounds[i].title, ChaptersOf(BookSpan(text, bounds, i), bounds[i].title)))
  }

  /** The mapping the parser returns for `text`, given the list of titles. */
  function Structure(text: string, titles: seq<string>): Bible {
    PutAll(BookEntries(text, Boundaries(text, titles)))
  }

  /** The book loop (convertidor.py:82-127): each boundary's span is parsed
      for chapters and stored under its title. */
  method FillBooks(text: string, bookPositions: seq<Boundary>) returns (data: Bible)
    requires Placed(text, bookPositions)
    ensures data == PutAll(BookEntries(text, bookPositions))
  {
    data := [];
    ghost var entries := BookEntries(text, bookPositions);
    for i := 0 to |bookPositions|
      invariant data == PutAll(entries[..i])
    {
      var bookName := bookPositions[i].title;
      var startPos := bookPositions[i].offset;
      var endPos := if i + 1 < |bookPositions| then bookPositions[i + 1].offset else |text|;
      var bookText := text[startPos..endPos];
      ghost var before := data;
      data := Put(data, bookName, []);
      var chapters := ParseBook(bookText, bookName);
      PutAllStep(entries, i);
      assert entries[i] == (bookName, ChaptersOf(bookText, bookName));
      PutTwice(before, bookName, [], chapters);
      data := Put(data, bookName, chapters);
    }
    assert entries[..|bookPositions|] == entries;
  }

  /** The parser of convertidor.py:61-130, from the extracted text on: with
      no boundary it returns the empty mapping and the text unchanged. */
  method Parse(text: string, titles: seq<string>) returns (data: Bible, fullText: string)
    ensures fullText == text
    ensures data == Structure(text, titles)
    ensures Boundaries(text, titles) == [] ==> data == []
  {
    fullText := text;
    var bookPositions := LocateBoundaries(text, titles);
    if bookPositions == [] {
      return [], fullText;
    }
    data := FillBooks(text, bookPositions);
  }

  /** The titles of the boundaries, in order. */
  function Titles(bounds: seq<Boundary>): seq<string> {
    seq(|bounds|, i requires 0 <= i < |bounds| => bounds[i].title)
  }

  /** Books come in the order of their first boundary, each once. */
  lemma BookTitlesInOrder(text: string, titles: seq<string>)
    ensures Keys(Structure(text, titles)) == Unique(Titles(Boundaries(text, titles)))
  {
    var bounds := Boundaries(text, titles);
    var entries := BookEntries(text, bounds);
    PutAllKeys(entries);
    var names := Titles(bounds);
    forall i | 0 <= i < |names|
      ensures Keys(entries)[i] == names[i]
    {
      assert entries[i].0 == bounds[i].title;
    }
    assert Keys(entries) == names;
  }

  /** A title met again later replaces what its earlier section gave: the
      chapters stored under it are those of its last section. */
  lemma RepeatedTitleKeepsLastSection(text: string, titles: seq<string>, i: nat)
    requires var bounds := Boundaries(text, titles);
      i < |bounds| && forall j :: i < j < |bounds| ==> bounds[j].title != bounds[i].title
    ensures var bounds := Boundaries(text, titles);
      var title := bounds[i].title;
      title in Keys(Structure(text, titles)) &&
      Get(Structure(text, titles), title) == ChaptersOf(BookSpan(text, bounds, i), title)
  {
    var bounds := Boundaries(text, titles);
    var entries := BookEntries(text, bounds);
    assert forall j :: i <= j < |bounds| ==> entries[j].0 == bounds[j].title;
    PutAllLastWins(entries, i);
  }

  /** Every book stored under a title holds the chapters of a section that
      starts with that title. */
  lemma StoredBookFromSection(text: string, titles: seq<string>, title: string)
    requires title in Keys(Structure(text, titles))
    ensures var bounds := Boundaries(text, titles);
      exists i :: 0 <= i < |bounds| && bounds[i].title == title &&
        Get(Structure(text, titles), title) == ChaptersOf(BookSpan(text, bounds, i), title)
  {
    var bounds := Boundaries(text, titles);
    var entries := BookEntries(text, bounds);
    PutAllValueAssigned(entries, title);
    var i :| 0 <= i < |entries| && entries[i] == (title, Get(Structure(text, titles), title));
    assert entries[i] == (bounds[i].title, ChaptersOf(BookSpan(text, bounds, i), bounds[i].title));
  }

  /** The shape of every entry the parser stores: the book is a listed title,
      the chapter a one-to-three digit number, the verse a number, and the
      verse record clean. */
  lemma StructureWellFormed(text: string, titles: seq<string>, book: string, chapter: string, verse: string)
    requires book in Keys(Structure(text, titles))
    requires chapter in Keys(Get(Structure(text, titles), book))
    requires verse in Keys(Get(Get(Structure(text, titles), book), chapter))
    ensures book in titles
    ensures IsNumeral(chapter) && |chapter| <= 3
    ensures IsNumeral(verse)
    ensures CleanVerse(Get(Get(Get(Structure(text, titles), book), chapter), verse))
  {
    var bounds := Boundaries(text, titles);
    StoredBookFromSection(text, titles, book);
    var i :| 0 <= i < |bounds| && bounds[i].title == book &&
      Get(Structure(text, titles), book) == ChaptersOf(BookSpan(text, bounds, i), book);
    assert bounds[i] in bounds;
    ChaptersWellFormed(BookSpan(text, bounds, i), book, chapter, verse);
  }
}
