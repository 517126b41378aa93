# Bible PDF parser: a verified model

`convertidor.py` turns the text extracted from a Bible PDF into a nested
mapping, book → chapter number → verse number → `{"texto", "notas"}`. This
project models the parsing part of `extract_data_from_pdf` (lines 61–130) in
Dafny and proves what it guarantees. The model takes the extracted text and
the list of book titles as inputs.

The parser makes three passes:

1. **Book boundaries** (lines 65–80). Every case-insensitive, whole-word
   occurrence of a title counts if it sits at offset 0 or right after `'\n'`
   or `'\r'`. The (title, offset) pairs lose their duplicates and are sorted
   by offset. If there are none, the parser returns `{}` and the text
   unchanged.
2. **Books and chapters** (lines 82–111). Each book's span runs to the next
   boundary or to the end of the text. Inside it, a chapter heading is
   either `<title> NNN` or a line holding only a 1–3 digit number. The first
   heading of a number wins. A chapter's text runs from the end of its
   heading to the start of the next heading, including a skipped one.
3. **Verses** (lines 113–127). The chapter text is split on
   `\n\s*(\d+)\s`. The part before the first delimiter is dropped. Every
   (number, text) pair is stored with its text stripped, newlines turned
   into spaces, and `"notas"` set to `""`.

Modules, one per stage:

- `Text`: character classes, `str.strip` and `str.replace('\n', ' ')`.
- `OrderedDict`: a Python dict as an ordered list of entries. Assigning to
  a present key keeps its position and replaces its value.
- `Matching`: the three regular expressions, each as the match Python's
  engine finds at one position. Also `re.finditer` (a leftmost-first search
  over a table of those matches) and `re.split`.
- `BookLocator`: the boundary loops, the dedup-and-sort and the book spans.
- `VerseSplitter`: the verse loop.
- `ChapterLocator`: the chapter loop.
- `BibleParser`: the book loop and the whole parse.

The source's own loops are methods with loop invariants. Each is proved
equal to a function that states the result outright:

| method | proved equal to |
|---|---|
| `LocateBoundaries` | `Boundaries` |
| `SplitVerses` | `VersesOf` |
| `ParseBook` | `ChaptersOf` |
| `Parse` | `Structure` |

The library calls `re.finditer`, `re.split` and `sorted` are functions.
The properties the source promises are lemmas about those functions.

### Behaviour of the code worth knowing

- **A line holding only a number starts a chapter.** A line holding
  nothing but a 1–3 digit number matches the second alternative of the
  chapter pattern (line 91), so it is a chapter heading even where a verse
  number was meant (`Matching.BareNumberLineIsHeading`). For example, the
  book text `"G\n1\nx.\n2\ny."` gives chapters "1" and "2", both without
  verses (`ChapterLocator.LoneNumberLinesStartChapters`).
- **A repeated title replaces the book.** Line 86 assigns a fresh `{}` to
  the title for every section, so the last section's chapters replace the
  earlier ones (`BibleParser.RepeatedTitleKeepsLastSection`). The title
  keeps the position of its first section (`BibleParser.BookTitlesInOrder`).
- **The leftover guard never fires.** With one capture group, `re.split`
  always returns an odd number of parts, so the `k + 1 < len(items)` guard
  (line 120) never skips an item (`Matching.ReSplit`,
  `VerseSplitter.SplitVerses`).

## Model

| member | source | states |
|---|---|---|
| OrderedDict.Put | convertidor.py:86 | `d[k] = v`: a present key keeps its place, a new key goes last, `k` reads back `v`, every other key keeps its value |
| OrderedDict.Unique | convertidor.py:74 | `list(set(xs))`: no duplicates, and exactly the elements of `xs` |
| OrderedDict.PutAllKeys | convertidor.py:124 | after a run of assignments, keys are in order of first assignment, each once |
| OrderedDict.PutFirstAllKeys | convertidor.py:105-107 | same when assignments to present keys are skipped |
| OrderedDict.PutAllLastWins | convertidor.py:124-127 | a key's value is the one assigned last |
| OrderedDict.PutFirstAllFirstWins | convertidor.py:105-107 | with present keys skipped, a key's value is the one assigned first |
| OrderedDict.PutAllValueAssigned | convertidor.py:124-127 | every stored value was assigned to its key by one of the assignments |
| OrderedDict.PutFirstAllValueAssigned | convertidor.py:105-107 | same with present keys skipped |
| OrderedDict.PutTwice | convertidor.py:86 | assigning `{}` and then the filled dict equals assigning the filled dict once |
| Text.IsSpace | convertidor.py:114 | the class `\s` and `str.isspace`: Python's whitespace table (definition) |
| Text.SpaceRunEnd | convertidor.py:91 | greedy `\s*` ends at the first non-whitespace character, everything before it is whitespace |
| Text.DigitRunEnd | convertidor.py:114 | greedy `\d+` consumes the whole run of digits |
| Text.SpaceRunStart | convertidor.py:122 | start of the trailing whitespace run: whitespace after it, none just before it |
| Text.Strip | convertidor.py:122 | `str.strip()` (definition; properties in `Text.StripRemovesEdgeSpace`) |
| Text.ReplaceNewlines | convertidor.py:122 | `str.replace('\n', ' ')`: same length, every newline becomes a space, every other character is kept |
| Text.Clean | convertidor.py:122 | the stored verse text, stripped and then with newlines replaced (definition; properties in `Text.CleanHasNoNewlineOrEdgeSpace`) |
| Text.StripRemovesEdgeSpace | convertidor.py:122 | `strip()` removes a whitespace prefix and suffix only; the rest neither starts nor ends with whitespace |
| Text.CleanHasNoNewlineOrEdgeSpace | convertidor.py:122 | verse text has no newline and no edge whitespace, and otherwise matches the stripped text character by character |
| Matching.WordBoundary | convertidor.py:67 | `\b`: a word character on exactly one side of the position (definition) |
| Matching.LineBegin | convertidor.py:91-92 | `^` in MULTILINE mode: offset 0 or just after `'\n'` (definition) |
| Matching.LineEnd | convertidor.py:91-92 | `$` in MULTILINE mode: the end of the text or just before `'\n'` (definition) |
| Matching.TitleAt | convertidor.py:67 | a title match is case-insensitively equal to the title, spans exactly its length, and has a word boundary at both ends |
| Matching.LastLineEnd | convertidor.py:91 | a greedy `\s*$` stops at the last line end it can reach; if none, no match |
| Matching.TitledNumberAt | convertidor.py:91 | `<title>\s+(\d{1,3})\b` captures a 1–3 digit number |
| Matching.NumberLineAt | convertidor.py:91-92 | `^\s*(\d{1,3})\s*$` captures a 1–3 digit number and ends at a line end |
| Matching.ChapterHeadingAt | convertidor.py:91 | a chapter heading match is non-empty and captures a 1–3 digit number |
| Matching.VerseDelimiterAt | convertidor.py:114 | a delimiter starts with `'\n'`, ends with whitespace, and captures a non-empty digit run |
| Matching.MatchAt | convertidor.py:67 | a match starts where it is tried and ends inside the text |
| Matching.Search | convertidor.py:95 | the leftmost-first scan inside `re.finditer` (definition; properties in `Matching.SearchEntries`, `Matching.SearchAscending`, `Matching.SearchIsLeftmost`) |
| Matching.SearchEntries | convertidor.py:95 | every hit of the search is the table's match at its own start |
| Matching.SearchAscending | convertidor.py:95 | search hits lie inside the text, ascend, and do not overlap |
| Matching.Scan | convertidor.py:67 | `re.finditer` hits lie inside the text, ascend, and do not overlap |
| Matching.ScanFindsMatches | convertidor.py:95 | every `finditer` hit is the pattern's match at the hit's start |
| Matching.SearchIsLeftmost | convertidor.py:95 | every table match starts a hit or lies inside an earlier hit |
| Matching.ScanIsLeftmost | convertidor.py:67 | `finditer` misses no match: each one starts a hit or lies inside an earlier hit |
| Matching.NoHitsIffNoMatch | convertidor.py:95-97 | `finditer` yields nothing exactly when the pattern matches at no position |
| Matching.BareNumberLineIsHeading | convertidor.py:91 | a line holding only a 1–3 digit number is a chapter heading for any title |
| Matching.Segment | convertidor.py:109-111 | the text after hit `n` up to the next hit (definition; properties in `Matching.SegmentEnd`, `Matching.HitsAndSegmentsCover`) |
| Matching.SegmentEnd | convertidor.py:110 | the text after a hit ends no later than the start of any later hit |
| Matching.HitsAndSegmentsCover | convertidor.py:109-111 | hits and the texts after them, in order, tile the string from the first hit on, so chapter texts never overlap |
| Matching.ReSplit | convertidor.py:115 | `re.split` gives `2·hits + 1` parts: the prefix, then each delimiter's number and the text up to the next one |
| BookLocator.LineStartHitsMembers | convertidor.py:67-71 | one title's loop appends exactly its matches that start a line |
| BookLocator.Candidates | convertidor.py:65-71 | `book_positions` before line 74 (definition; properties in `BookLocator.CandidatesMembers`) |
| BookLocator.CandidatesMembers | convertidor.py:65-71 | `book_positions` holds exactly the line-start matches of the listed titles |
| BookLocator.InsertByOffset | convertidor.py:74 | inserting into a sorted list keeps it sorted, one element longer, holding the new element and the old ones |
| BookLocator.InsertByOffsetPermutes | convertidor.py:74 | the insertion adds exactly one copy of the element and drops nothing (multisets) |
| BookLocator.SortByOffset | convertidor.py:74 | the sort by offset is ordered, as long as its input, and holds the same elements |
| BookLocator.SortByOffsetPermutes | convertidor.py:74 | `sorted` returns a permutation of its input (equal multisets) |
| BookLocator.SortKeepsDistinct | convertidor.py:74 | sorting introduces no duplicates |
| BookLocator.Boundaries | convertidor.py:70-74 | boundaries are sorted by offset and duplicate-free, and are exactly the listed titles' matches at offset 0 or after `'\n'`/`'\r'` |
| BookLocator.NoLineStartInsideTitle | convertidor.py:70 | no line start lies strictly inside a title with no line break |
| BookLocator.BoundaryIffLineStartTitle | convertidor.py:67-71 | a (title, offset) is a boundary iff the title is listed and matches there as a whole word at a line start |
| BookLocator.BookSpan | convertidor.py:83-84 | `book_text` of boundary `i` (definition; properties in `BookLocator.BookSpanEnd`, `BookLocator.BookSpansCoverText`) |
| BookLocator.BookSpanEnd | convertidor.py:83 | a book ends at or before the start of every later book and within the text |
| BookLocator.BookSpansCoverText | convertidor.py:82-84 | the book spans, joined in order, are exactly the text from the first boundary on |
| BookLocator.CollectLineStarts | convertidor.py:67-71 | the inner loop appends one title's line-start matches, in order |
| BookLocator.LocateBoundaries | convertidor.py:65-74 | the two loops plus dedup-and-sort produce `Boundaries` |
| VerseSplitter.VersesOf | convertidor.py:114-127 | the chapter dict, one assignment per delimiter (definition; properties in `VerseSplitter.VerseNumbersInOrder`, `VerseSplitter.LastVerseWins`, `VerseSplitter.StoredVerseFromDelimiter`) |
| VerseSplitter.SplitPairIsEntry | convertidor.py:118-122 | items `k` and `k+1` are the number and raw text of the `k/2`-th delimiter |
| VerseSplitter.SplitVerses | convertidor.py:114-127 | the verse loop leaves `VersesOf`: one assignment per delimiter, in order |
| VerseSplitter.VerseNumbersInOrder | convertidor.py:119-124 | verse keys are the delimiter numbers in order of first appearance, each once |
| VerseSplitter.VerseNumbersAreNumerals | convertidor.py:114 | every verse key is a non-empty run of digits |
| VerseSplitter.StoredVerseFromDelimiter | convertidor.py:117-127 | every stored verse is the cleaned text after a delimiter with its number; the prefix is stored nowhere |
| VerseSplitter.CleanedRecordIsClean | convertidor.py:122-127 | a built verse record has empty notes and clean text |
| VerseSplitter.StoredVerseIsClean | convertidor.py:122-127 | every stored verse has `"notas" == ""` and text with no newline and no edge whitespace |
| VerseSplitter.LastVerseWins | convertidor.py:124-127 | a repeated verse number keeps the text after its last delimiter |
| ChapterLocator.ChaptersOf | convertidor.py:103-111 | the book dict, present numbers skipped (definition; properties in `ChapterLocator.ChapterNumbersInOrder`, `ChapterLocator.FirstChapterWins`, `ChapterLocator.StoredChapterFromHeading`) |
| ChapterLocator.ParseBook | convertidor.py:95-111 | the chapter loop leaves `ChaptersOf`; with no heading the book stays empty |
| ChapterLocator.ChapterNumbersInOrder | convertidor.py:103-107 | chapter keys are the heading numbers in order of first appearance, each once |
| ChapterLocator.ChapterNumbersAreShortNumerals | convertidor.py:91 | every chapter key is a 1–3 digit number |
| ChapterLocator.FirstChapterWins | convertidor.py:104-111 | a number's first heading defines its chapter: the verses of the text after it |
| ChapterLocator.StoredChapterFromHeading | convertidor.py:105-111 | every stored chapter holds the verses of the text after a heading of its number |
| ChapterLocator.ChaptersWellFormed | convertidor.py:104-127 | within a book, chapter keys are 1–3 digit numbers, verse keys are numbers, and verses are clean |
| ChapterLocator.LoneNumberLinesStartChapters | convertidor.py:91 | in `"G\n1\nx.\n2\ny."` the lone `2` line is a chapter heading: the book holds chapters "1" and "2", both without verses |
| BibleParser.Structure | convertidor.py:82-127 | the whole mapping, one assignment per boundary (definition; properties in `BibleParser.BookTitlesInOrder`, `BibleParser.RepeatedTitleKeepsLastSection`, `BibleParser.StoredBookFromSection`, `BibleParser.StructureWellFormed`) |
| BibleParser.FillBooks | convertidor.py:82-127 | the book loop stores each boundary's chapters under its title, last section winning |
| BibleParser.Parse | convertidor.py:61-130 | result is `Structure(text, titles)` with the text unchanged; `{}` when no boundary qualifies |
| BibleParser.BookTitlesInOrder | convertidor.py:82-86 | book keys are the boundary titles in order of first boundary, each once |
| BibleParser.RepeatedTitleKeepsLastSection | convertidor.py:86 | a recurring title holds the chapters of its last section only |
| BibleParser.StoredBookFromSection | convertidor.py:82-86 | every stored book holds the chapters of a section starting with its title |
| BibleParser.StructureWellFormed | convertidor.py:61-130 | book keys are listed titles, chapter keys 1–3 digit numbers, verse keys numbers, and every verse clean |

## Left out

- Reading the PDF (convertidor.py:42-58) is left out. It is file I/O through
  PyPDF2 and tqdm; the model starts from the extracted text.
- `save_as_json`, `save_as_txt`, `save_as_xml` and `main` (lines 132-226)
  are left out. They are serialisation and console plumbing built on
  libraries that are not part of this model.
- Round-tripping through JSON is therefore not stated. Re-parsing is
  deterministic because `Structure` is a function.
- The `print` diagnostics (lines 77, 80, 98, 101, 129) are left out; they
  are logging only.
- `LIBROS_BIBLIA` (lines 16-28) is a parameter `titles`, not a constant.
- `re.escape` is not modelled. A title is compared literally, character by
  character.
- Text.Fold: `re.IGNORECASE` is modelled as ASCII and Latin-1 case folding
  only. Python folds all of Unicode.
- Text.IsWordChar: `\b` uses ASCII letters and digits, `_` and the Latin
  letters U+00C0–U+024F. Python's `\w` covers all Unicode letters and digits.
- Text.IsDigit: `\d` is ASCII digits only. Python's `\d` also matches other
  Unicode decimal digits.
- BookLocator.Boundaries: two different titles found at the same offset
  stay in order of first appearance. Python's `list(set(...))` orders such
  ties by string hash, which is not deterministic across runs.
- Nested-dict aliasing is not modelled. Lines 86, 107 and 124 write through
  `bible_data[book][chapter]`; the model builds each chapter dict and each
  book dict as a value and then stores it. Nothing else refers to those
  dicts, so the resulting mapping is the same.
- Python's regular-expression engine in general is not modelled. Only the
  three patterns the parser uses are written out.
