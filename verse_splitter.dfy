// The verse pass of the parser (convertidor.py:113-127): a chapter body is
// split on its verse delimiters, and every number with the text after it
// becomes an entry of the chapter's dict.

module VerseSplitter {
  import opened Text
  import opened OrderedDict
  import opened Matching

  /** The record stored for a verse: `{"texto": ..., "notas": ...}`. */
  datatype Verse = Verse(texto: string, notas: string)

  /** A verse as every stored one looks: empty notes, and a text with no
      newline and no whitespace at either end. */
  predicate CleanVerse(v: Verse) {
    && v.notas == ""
    && (forall k :: 0 <= k < |v.texto| ==> v.texto[k] != '\n')
    && (v.texto == [] || (!IsSpace(v.texto[0]) && !IsSpace(v.texto[|v.texto| - 1])))
  }

  /** A chapter: verse number to verse, in insertion order. */
  type Verses = Dict<string, Verse>

  /** The assignments of line 123 in the order they happen: one per
      delimiter, its number and the cleaned text up to the next delimiter. */
  function VerseEntries(s: string): seq<(string, Verse)> {
    var hits := Scan(VerseDelimiter, s);
    seq(|hits|, n requires 0 <= n < |hits| => (hits[n].group, Verse(Clean(Segment(s, hits, n)), "")))
  }

  /** The chapter dict the verse loop leaves. */
  function VersesOf(s: string): Verses {
    PutAll(VerseEntries(s))
  }

  /** Items `2n` and `2n + 1` after the dropped prefix are the number and the
      raw text of the `n`-th verse entry. */
  lemma SplitPairIsEntry(s: string, n: nat)
    requires n < |Scan(VerseDelimiter, s)|
    ensures var items := ReSplit(s)[1..];
      && 2 * n + 1 < |items|
      && VerseEntries(s)[n] == (items[2 * n], Verse(Clean(items[2 * n + 1]), ""))
  {
    var hits := Scan(VerseDelimiter, s);
    var parts := ReSplit(s);
    assert parts[2 * n + 1] == hits[n].group && parts[2 * n + 2] == Segment(s, hits, n);
    assert parts[1..][2 * n] == parts[2 * n + 1] && parts[1..][2 * n + 1] == parts[2 * n + 2];
  }

  /** The verse loop (convertidor.py:114-127). */
  method SplitVerses(chapterText: string) returns (verses: Verses)
    ensures verses == VersesOf(chapterText)
  {
    verses := [];
    var parts := ReSplit(chapterText);
    ghost var count := |Scan(VerseDelimiter, chapterText)|;
    ghost var entries := VerseEntries(chapterText);
    if parts != [] && |parts| > 1 {
      var items := parts[1..];
      var k := 0;
      ghost var n := 0;
      while k < |items|
        invariant 0 <= n <= count && k == 2 * n && |items| == 2 * count
        invariant verses == PutAll(entries[..n])
        decreases |items| - k
      {
        SplitPairIsEntry(chapterText, n);
        if k + 1 < |items| {
          var verseNum := items[k];
          var content := Clean(items[k + 1]);
          PutAllStep(entries, n);
          verses := Put(verses, verseNum, Verse(content, ""));
        }
        k := k + 2;
        n := n + 1;
      }
      assert entries[..count] == entries;
    } else {
      assert entries == [];
    }
  }

  /** Verse numbers come in the order of their first delimiter, each once. */
  lemma VerseNumbersInOrder(s: string)
    ensures Keys(VersesOf(s)) == Unique(Numbers(Scan(VerseDelimiter, s)))
  {
    var hits := Scan(VerseDelimiter, s);
    var entries := VerseEntries(s);
    PutAllKeys(entries);
    var nums := Numbers(hits);
    forall n | 0 <= n < |nums|
      ensures Keys(entries)[n] == nums[n]
    {
      assert entries[n].0 == hits[n].group;
    }
    assert Keys(entries) == nums;
  }

  /** Every verse key is a non-empty run of digits. */
  lemma VerseNumbersAreNumerals(s: string, v: string)
    requires v in Keys(VersesOf(s))
    ensures IsNumeral(v)
  {
    var hits := Scan(VerseDelimiter, s);
    VerseNumbersInOrder(s);
    var nums := Numbers(hits);
    var i :| 0 <= i < |Unique(nums)| && Unique(nums)[i] == v;
    var n :| 0 <= n < |nums| && nums[n] == v;
    ScanFindsMatches(VerseDelimiter, s);
    assert MatchAt(VerseDelimiter, s, hits[n].start) == Some(hits[n]);
  }

  /** Every stored verse is the cleaned text after one of the delimiters that
      carry its number, with empty notes; the text before the first delimiter
      is stored nowhere. */
  lemma StoredVerseFromDelimiter(s: string, v: string)
    requires v in Keys(VersesOf(s))
    ensures var hits := Scan(VerseDelimiter, s);
      exists n :: 0 <= n < |hits| && hits[n].group == v &&
        Get(VersesOf(s), v) == Verse(Clean(Segment(s, hits, n)), "")
  {
    var hits := Scan(VerseDelimiter, s);
    var entries := VerseEntries(s);
    PutAllValueAssigned(entries, v);
    var i :| 0 <= i < |entries| && entries[i] == (v, Get(VersesOf(s), v));
    assert entries[i] == (hits[i].group, Verse(Clean(Segment(s, hits, i)), ""));
  }

  /** The record the loop builds from a verse's raw text is clean. */
  lemma CleanedRecordIsClean(body: string)
    ensures CleanVerse(Verse(Clean(body), ""))
  {
    CleanHasNoNewlineOrEdgeSpace(body);
  }

  /** Every stored verse is clean. */
  lemma StoredVerseIsClean(s: string, v: string)
    requires v in Keys(VersesOf(s))
    ensures CleanVerse(Get(VersesOf(s), v))
  {
    StoredVerseFromDelimiter(s, v);
    var hits := Scan(VerseDelimiter, s);
    var n :| 0 <= n < |hits| && hits[n].group == v && Get(VersesOf(s), v) == Verse(Clean(Segment(s, hits, n)), "");
    CleanedRecordIsClean(Segment(s, hits, n));
  }

  /** A repeated verse number keeps the text after its last delimiter. */
  lemma LastVerseWins(s: string, n: nat)
    requires var hits := Scan(VerseDelimiter, s);
      n < |hits| && forall m :: n < m < |hits| ==> hits[m].group != hits[n].group
    ensures var hits := Scan(VerseDelimiter, s);
      hits[n].group in Keys(VersesOf(s)) &&
      Get(VersesOf(s), hits[n].group) == Verse(Clean(Segment(s, hits, n)), "")
  {
    PutAllLastWins(VerseEntries(s), n);
  }
}
