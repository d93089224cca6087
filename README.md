# Kindle annotation reconstruction, in Dafny

This project models the core of a Zettelkasten pipeline for Kindle exports.
The pipeline reads a PDF that a Kindle produced for a book's annotations.
The PDF holds a text layer of location markers (`Loc 123 | Highlight`,
`Loc 123 | Highlight Continued`, `Loc 123 | Note`) with highlighted text
under them. It also holds raster images, which are snapshots of handwritten
notes. The pipeline rebuilds an ordered record from it: location key →
entries, where each entry is a highlight (its text) or a note (the path of
its image file). Later stages pick out what goes into a literature note and
which ideas become permanent notes.

The repository holds the reconstruction twice. Both versions are modelled.

- `src/zettel/pdf_parser.py` is the current class-based parser.
  - `_extract_unique_images` de-duplicates images by digest, skips the first
    distinct one (the Kindle logo) and names the rest `note_001.<ext>`,
    `note_002.<ext>`, …
  - `_create_structured_data` walks the lines, reads the body of every marker
    and hands out the images to note markers in order.
  - Modelled in `pdfparser.dfy`.
- `parse_pdf.py` is the older script.
  - Its renaming loop writes the logo as `kindle_logo.<ext>`.
  - Its `create_structured_data` gets the image list by sorting the folder
    listing and dropping the logo.
  - Its parser has separate branches for `Highlight Continued`, `Highlight`,
    `Note` and a free-standing `Note:` line.
  - Modelled in `legacyimages.dfy` and `legacyparser.dfy`.
- `src/zettel/note_generator.py` selects what the notes contain. Its
  literature filter keeps highlights and summary notes. Its permanent-note
  loop resolves each idea's `(idea_location, idea_index)` to content and
  names the file `idea_<position>.md`. Modelled in `notegenerator.dfy`.

Shared pieces:

- `text.dfy`: the Python string operations the code uses.
  - `str.strip`, `in` on strings, `" ".join`.
  - The regular expressions `Loc (\d+)` and `\s+\d+$`.
  - `f"{n:03d}"`.
- `strorder.dfy`: Python's string order and `sorted`.
- `annotations.dfy`: the record, entries and parser state both parsers share.
- `imagededup.dfy`: image records, first occurrences by digest, and note file
  names.
- `pyvalue.dfy`: the JSON values the note generator reads (null, booleans,
  integers, floats, strings, lists and dicts), with Python's `.get`,
  indexing, truth value, `str()` and `int()` on them.
- `wrappers.dfy`: `Option` and `Result`.
- `scenarios.dfy`: a worked continuation example.

The parsers are methods whose loops follow the source's loops. Each is proved
equal to a function, `Parse`, that states the result from the back: the
state after some lines is the state before the last marker line, updated by
that marker and the lines after it. The properties are then proved about
`Parse` by induction:

- key order;
- image use;
- highlight counts;
- the per-marker effect on each location.

Notes on what the code does:

- Only lines that start `Loc <digits>` once stripped are markers, in both
  versions.
- In the current parser, a marker that mentions `Note` without `Highlight`
  still reads a body. The body is consumed and used for nothing.
- The older script reads no body after such a marker. It reads the lines
  after it one by one, so a `Note:` among them attaches another note.
- When the images run out, a note is dropped. The current parser logs a
  warning; the older script drops it silently.

## Model

| member | source | states |
|---|---|---|
| PdfParser.ExtractUniqueImages | src/zettel/pdf_parser.py:55-92 | the returned paths are exactly the note paths of the distinct images after the first, in order; there are max(0, distinct digests − 1) of them |
| PdfParser.ScanPage | src/zettel/pdf_parser.py:65-89 | after one page, the seen set is the digests so far, the paths are those of the images so far, and the counter is one past the number of paths |
| PdfParser.ExtractStep | src/zettel/pdf_parser.py:69-89 | an image with a seen digest, or the first new one, adds no path; any other new image adds the path numbered one past the paths so far, with its own extension |
| ImageDedup.UniquesFacts | src/zettel/pdf_parser.py:69-77 | the first occurrences have pairwise distinct digests, cover every digest, are as many as the digests, come from the input, and start with the first image |
| ImageDedup.UniquesPrefix | src/zettel/pdf_parser.py:64-74 | reading more images only adds first occurrences at the end |
| ImageDedup.ExtractedCount | src/zettel/pdf_parser.py:76-89 | one returned path per distinct digest, less the logo's |
| ImageDedup.ExtractedName | src/zettel/pdf_parser.py:81-89 | the k-th returned path is the directory joined with a name that reads back as counter k + 1 and the extension of the (k + 1)-th distinct image: numbering starts at 1 and has no gaps |
| ImageDedup.ExtractedPathsDistinct | src/zettel/pdf_parser.py:81-89 | no two returned paths are equal |
| ImageDedup.NoteNameRoundTrip | src/zettel/pdf_parser.py:82 | `note_{counter:03d}.{ext}` can be read back to its counter and extension |
| ImageDedup.NoteNamesDiffer | src/zettel/pdf_parser.py:82 | different counters give different note names |
| ImageDedup.PathJoinInjective | src/zettel/pdf_parser.py:83 | joining one directory with two different relative names gives two different paths |
| PdfParser.CreateStructuredData | src/zettel/pdf_parser.py:94-154 | the record is the one `Parse` describes; its keys are the marker keys in order of first appearance; its notes use exactly the first min(images, notes asked for) images, each once |
| PdfParser.ReadLines | src/zettel/pdf_parser.py:99-154 | the main loop ends with the record `Parse` gives for all the lines |
| PdfParser.ReadLine | src/zettel/pdf_parser.py:105-151 | one pass over a blank line, a marker with its body, or another line moves the cursor forward and keeps the loop's state equal to `Parse` of the lines read |
| PdfParser.ReadSegment | src/zettel/pdf_parser.py:111-149 | a marker line and the lines up to the next marker update the state exactly as one `Segment` step |
| PdfParser.ReadBody | src/zettel/pdf_parser.py:118-127 | the inner loop stops at the next marker or the end; it collects the stripped non-`Note:` lines in order and sets the flag exactly when a `Note:` line was seen |
| PdfParser.RecordHighlight | src/zettel/pdf_parser.py:133-141 | the highlight branch gives the entries `HighlightStep` describes |
| PdfParser.ExtendLastHighlightScan | src/zettel/pdf_parser.py:136-139 | the reverse scan extends the last highlight of the list and leaves the list alone when it has none |
| PdfParser.SegmentEntries | src/zettel/pdf_parser.py:111-148 | per marker: a plain highlight marker appends one highlight with the cleaned body, a continued one only extends the last highlight, others add no highlight; the next image follows as a note when asked for and left; no other location changes |
| PdfParser.ParseKeys | src/zettel/pdf_parser.py:111-116 | every marker creates its key, and the keys come in order of first appearance |
| PdfParser.ParseNotes | src/zettel/pdf_parser.py:143-148 | the image cursor ends at min(images, segments asking for a note); the record's notes are exactly the images before it, each once |
| PdfParser.SegmentStateOk | src/zettel/pdf_parser.py:143-148 | one segment keeps the record consistent with the image list, and moves the cursor by one exactly when a note is asked for and an image is left |
| PdfParser.ParseHighlightCount | src/zettel/pdf_parser.py:133-141 | each location holds one highlight per plain (not continued) highlight marker naming it |
| PdfParser.HighlightStepCounts | src/zettel/pdf_parser.py:133-141 | the highlight step keeps every note, and adds one highlight exactly for `Highlight` without `Continued` |
| Annotations.TakeImage | src/zettel/pdf_parser.py:144-148 | the note branch appends the next unused image when one is left, and otherwise changes nothing |
| Annotations.AddNoteOk | src/zettel/pdf_parser.py:144-148 | taking an image keeps the notes equal to the images before the cursor and the cursor within the list |
| Annotations.AppendNoteNotes | src/zettel/pdf_parser.py:145 | appending a note adds exactly its path to the record's note paths |
| Annotations.EnsureKeyOk | src/zettel/pdf_parser.py:115-116 | creating a missing key appends it at the end with an empty list and changes no other key; an existing key leaves the whole record unchanged |
| Annotations.FirstAppearanceDistinct | src/zettel/pdf_parser.py:115-116 | the keys in order of first appearance hold no repeats |
| Annotations.LastMarkerFacts | src/zettel/pdf_parser.py:121 | no line after the last marker is a marker |
| Annotations.NoteFoundIff | src/zettel/pdf_parser.py:121-124 | the note flag is set exactly when some body line is `Note:` once stripped |
| Annotations.BodyLinesFacts | src/zettel/pdf_parser.py:121-129 | no `Note:` line reaches the content; it holds one stripped line per other body line; without `Note:` lines, the content lines are all body lines stripped, in order |
| Annotations.BodyLinePlace | src/zettel/pdf_parser.py:121-129 | every body line that is not `Note:`, blank ones included, is in the content, stripped, at its own index less the `Note:` lines before it; with the count above, the content is exactly the other lines in order |
| Annotations.ExtendLastHighlightFacts | src/zettel/pdf_parser.py:136-139 | extending changes only the last highlight, by appending the suffix, and keeps every note and the length |
| Annotations.LastHighlightFacts | src/zettel/pdf_parser.py:136-137 | the chosen entry is a highlight with no highlight after it |
| Text.MatchLocFacts | src/zettel/pdf_parser.py:111-113 | `re.match(r'Loc (\d+)')` succeeds exactly on lines starting `Loc ` and a digit; the key is the maximal run of digits after it |
| Text.StripFacts | src/zettel/pdf_parser.py:106 | `strip()` removes only whitespace, from both ends, and leaves no whitespace at either end |
| Text.ContainsFacts | src/zettel/pdf_parser.py:133-134 | `t in s` holds exactly when `t` occurs at some position of `s` |
| Text.DropPageNumberSpec | src/zettel/pdf_parser.py:131 | `re.sub(r'\s+\d+$', '', s)` removes the earliest whitespace-then-digits run that reaches the end, and nothing when there is none |
| Text.RemovePageNumber | src/zettel/pdf_parser.py:131 | `re.sub(r'\s+\d+$', '', s)` on any string: the page number goes, and since `$` also matches before a final newline, such a newline is kept; the parsers only call it on stripped text, so there that case never arises (see `Annotations.CleanContentDrops`) |
| Annotations.CleanContentDrops | src/zettel/pdf_parser.py:129-131 | the cleaned content is the stripped joined text with its trailing page number dropped; stripped text never ends in a newline |
| Text.ZeroPad3RoundTrip | src/zettel/pdf_parser.py:82 | the three-digit padded counter reads back as the counter |
| Text.ZeroPad3Wide | parse_pdf.py:67 | from 1000 on, `:03d` gives the plain decimal, wider than three digits |
| LegacyImages.ProcessKindleImages | parse_pdf.py:37-84 | the files written are one per distinct digest, in order, named as `LegacyName` says; `unique_image_count` is the number of distinct digests |
| LegacyImages.SavePage | parse_pdf.py:47-75 | one page keeps the loop's counters: the seen set, the files written, the count and the next note number |
| LegacyImages.SaveImage | parse_pdf.py:48-73 | one image keeps the same counters |
| LegacyImages.WriteStep | parse_pdf.py:54-73 | a seen digest writes nothing; a new one writes the next file, under the logo name first and the next note name after |
| LegacyImages.WrittenFacts | parse_pdf.py:54-73 | one file per distinct digest, no two with the same digest; the first is `kindle_logo.<ext>` holding the first image; the rest are at exactly the paths the current version returns |
| LegacyImages.ImageFilesSpec | parse_pdf.py:94-97 | the image list is ascending, and holds each listed path as often as the listing does, except the paths containing `kindle_logo`, which it never holds |
| LegacyImages.ImageFilesIgnoresListingOrder | parse_pdf.py:94 | the order of the folder listing does not change the image list |
| LegacyImages.DropLogosCount | parse_pdf.py:97 | the filter keeps every path not naming the logo, as often as it occurs, and no logo path |
| LegacyImages.DropLogosSorted | parse_pdf.py:97 | the filter keeps an ascending list ascending |
| StrOrder.SortFacts | parse_pdf.py:94 | `sorted` returns an ascending permutation of its input |
| StrOrder.SortIgnoresOrder | parse_pdf.py:94 | `sorted` of two permutations of one list is the same list |
| StrOrder.LessTotal | parse_pdf.py:94 | two different strings are ordered one way or the other |
| StrOrder.LessTransitive | parse_pdf.py:94 | the string order is transitive |
| LegacyImages.NoteImagesInOrderNumbered | parse_pdf.py:63-70 | the note files in writing order are the paths the current version returns: the k-th is note k + 1 with its own image's extension |
| LegacyImages.SortedImagesOutOfOrder | parse_pdf.py:94 | with more than 1000 distinct images, the sorted list puts note 1000 before note 101, so it differs from the writing order |
| LegacyImages.SortedImagesInOrderBelow1000 | parse_pdf.py:94-97 | with at most 1000 distinct images, and no note path containing `kindle_logo`, the sorted list is exactly the writing order |
| LegacyImages.NoteThousandFirst | parse_pdf.py:67 | `note_1000.<ext>` sorts before `note_101.<ext>` |
| LegacyImages.NoteNamesAscending | parse_pdf.py:67 | below 1000, note names sort like their counters |
| LegacyImages.LogoPathIsLogo | parse_pdf.py:64 | the logo's path always contains `kindle_logo`, so the filter removes it |
| LegacyParser.CreateStructuredData | parse_pdf.py:86-176 | the record is the one `Parse` gives on the sorted, logo-free image list; keys come in order of first appearance; notes use exactly the first min(images, notes asked for) images, each once |
| LegacyParser.ReadLines | parse_pdf.py:100-176 | the main loop ends with the record `Parse` gives |
| LegacyParser.ReadLine | parse_pdf.py:104-176 | one pass keeps the state equal to `Parse` of the lines read, and `last_loc` equal to the last marker's key |
| LegacyParser.ReadMarker | parse_pdf.py:110-169 | a marker line moves the state to `Parse` of the lines read; a marker without `Highlight` advances by exactly one line |
| LegacyParser.ReadHighlight | parse_pdf.py:117-162 | both highlight branches read the body to the next marker and update the state as `HighlightSegment` says |
| LegacyParser.ReadBody | parse_pdf.py:121-126 | the inner loop stops at the next marker or the end; it gathers each stripped non-`Note:` line followed by a blank, and flags `Note:` lines |
| LegacyParser.ReadFreeLine | parse_pdf.py:171-176 | a free `Note:` line attaches the next image to the last location read, when there is one and an image is left; any other line changes nothing |
| LegacyParser.HighlightSegmentEntries | parse_pdf.py:117-162 | `Highlight Continued` only extends the last highlight; plain `Highlight` appends one highlight with the cleaned text; a `Note:` in the body then adds the next image if one is left; no other location changes |
| LegacyParser.MarkerOnlyEntries | parse_pdf.py:164-169 | a `Note` marker without `Highlight` adds at most one note, taking the next image; a marker with neither word only creates its key |
| LegacyParser.LegacyContentAgrees | parse_pdf.py:125-129 | the older content accumulation gives the same text as the current version's join |
| LegacyParser.ParseFacts | parse_pdf.py:110-176 | keys come in order of first appearance, and notes use exactly the first min(images, notes asked for) images, each once |
| LegacyParser.ParseKeys | parse_pdf.py:110-115 | every marker creates its key; keys come in order of first appearance |
| LegacyParser.ParseNotes | parse_pdf.py:136-174 | the record's notes are exactly the images before the cursor, each once, and the cursor stays within the list |
| LegacyParser.ParseIndex | parse_pdf.py:136-174 | the cursor ends at min(images, notes asked for) |
| LegacyParser.FreeLinesIndex | parse_pdf.py:171-174 | each free `Note:` line takes the next image while one is left |
| LegacyParser.StepIndex | parse_pdf.py:117-174 | one marker and its lines move the cursor by the notes they ask for, stopping at the end of the list |
| LegacyParser.ParseHighlightCount | parse_pdf.py:117-156 | each location holds one highlight per marker naming it with `Highlight` but not `Highlight Continued` |
| NoteGenerator.LiteratureFilter | src/zettel/note_generator.py:28-36 | the loop builds the filtered map `Literature` describes, or fails with the first exception |
| NoteGenerator.LiteratureFacts | src/zettel/note_generator.py:28-36 | the filtered map holds exactly the locations with a surviving item, in their original order, each with exactly its surviving items |
| NoteGenerator.LiteratureOk | src/zettel/note_generator.py:28-36 | the filter fails exactly when the comprehension fails for some location |
| NoteGenerator.LiteratureFails | src/zettel/note_generator.py:28-46 | an exception ends the filter, and the note fails with it |
| NoteGenerator.KeepsHighlightsAndSummaries | src/zettel/note_generator.py:30-34 | highlights are kept, and so are notes whose transcription's type is `summary` |
| NoteGenerator.DropsTheRest | src/zettel/note_generator.py:30-34 | other types, notes without a transcription, and notes with another or no transcription type are dropped |
| NoteGenerator.FilterItemsOk | src/zettel/note_generator.py:30-34 | the comprehension fails exactly when the test of some item fails |
| NoteGenerator.FilterItemsMembers | src/zettel/note_generator.py:30-34 | the comprehension keeps exactly the items the test accepts |
| NoteGenerator.FilterItemsAppend | src/zettel/note_generator.py:30-34 | over two lists in a row, the first list's kept items come first, in order |
| NoteGenerator.FilterItemsIdempotent | src/zettel/note_generator.py:30-34 | filtering the kept items again keeps them all |
| NoteGenerator.CreatePermanentNotes | src/zettel/note_generator.py:61-116 | the method writes the notes `PermanentNotes` describes, in order, and logs their count, or fails with the exception that stopped it |
| NoteGenerator.GenerateNotes | src/zettel/note_generator.py:69-113 | the loop over the ideas gives the notes and count `Ideas` describes |
| NoteGenerator.GenerateNote | src/zettel/note_generator.py:70-111 | one pass of the loop body writes, skips or raises as `Idea` says |
| NoteGenerator.Tally | src/zettel/note_generator.py:85-89 | a written note is kept and counted; a skipped idea leaves both unchanged |
| NoteGenerator.NoIdeasNoNotes | src/zettel/note_generator.py:63-67 | with `ideas` missing or false in Python's sense (`[]`, `{}`, `""`, `0`, `0.0`, `false`, `null`), nothing is written and nothing fails |
| NoteGenerator.IdeaWrites | src/zettel/note_generator.py:70-111 | when the body does not raise, it writes exactly when the idea resolves, to `idea_<position + 1>.md`, with the resolved content and linked locations |
| NoteGenerator.ContentSources | src/zettel/note_generator.py:79-83 | a highlight gives its `content`, a transcribed note its transcription's text, anything else no content |
| NoteGenerator.MissingLocationSkips | src/zettel/note_generator.py:75-93 | an idea whose location is missing is skipped and the loop goes on |
| NoteGenerator.OutOfRangeSkips | src/zettel/note_generator.py:75-93 | an idea whose index is outside the list, from either end, is skipped |
| NoteGenerator.EmptyContentSkips | src/zettel/note_generator.py:85-89 | an idea with empty or absent content is skipped |
| NoteGenerator.SkipLeavesGap | src/zettel/note_generator.py:70-108 | after a skipped first idea, the one note written is `idea_002.md` |
| NoteGenerator.IdeasStop | src/zettel/note_generator.py:115-116 | after an exception, no later idea is looked at |
| NoteGenerator.GenerationFacts | src/zettel/note_generator.py:69-113 | a run that does not raise writes one note per resolving idea, in order, and logs exactly that number |
| NoteGenerator.GeneratedNotes | src/zettel/note_generator.py:95-108 | the k-th note goes to `idea_<p + 1>.md` for the position p of the k-th resolving idea, with that idea's content |
| NoteGenerator.GenerationNoAbort | src/zettel/note_generator.py:70-116 | in a run that does not raise, no idea raised |
| NoteGenerator.ResolvedPositionsIncrease | src/zettel/note_generator.py:70 | the notes follow the ideas' order |
| NoteGenerator.ResolvedPositionsMembers | src/zettel/note_generator.py:70-89 | a position is written exactly when its idea resolves |
| NoteGenerator.WrittenPathsDistinct | src/zettel/note_generator.py:107-108 | no two notes of a run go to the same file |
| NoteGenerator.IdeaFileNamesDiffer | src/zettel/note_generator.py:107 | two positions never share a file name |
| NoteGenerator.RefLocationsFacts | src/zettel/note_generator.py:95 | linked locations are each link's `ref_location`, one per link, in link order; the comprehension fails exactly when a link is not a dict holding that key |
| PyValue.IntStringRoundTrip | src/zettel/note_generator.py:71-72 | `int(str(n)) == n` for every int |
| PyValue.ParseIntRejects | src/zettel/note_generator.py:72 | `int()` rejects every string that is blank, a sign alone, or a sign followed by anything but a digit, once stripped |
| PyValue.Truncate | src/zettel/note_generator.py:72 | `int()` of a float truncates toward zero: the result is within one of the float, on the zero side |
| PyValue.IndexFromEnd | src/zettel/note_generator.py:77 | a negative index counts from the end; indexes out of range fail |
| PyValue.Iterate | src/zettel/note_generator.py:29-31 | iterating fails only with TypeError, and yields as many items as the list, string or dict has |
| Scenarios.ContinuationExample | src/zettel/pdf_parser.py:118-141 | `Loc 5 \| Highlight`, `foo`, `Loc 5 \| Highlight Continued`, `bar 12` give location `5` one highlight, `foo bar` |

## Left out

- The PDF library is not modelled: opening the document, `get_text` and `get_images`. The pages' image records (bytes and extension) and the text's lines are parameters.
- SHA-256 is an opaque parameter `hash` from bytes to a digest string. Equal bytes give equal digests; collisions are not modelled.
- File-system effects are not modelled, nor are I/O errors:
  - clearing the directory;
  - `os.makedirs`;
  - the JSON dump;
  - reading the text file.
- The older loop's writes are returned as a list of saved files. The folder listing `os.listdir` is a parameter.
- Logging is not modelled. This includes the warning for a note with no image left (src/zettel/pdf_parser.py:148).
- `print` output and the `__del__` close are not modelled.
- `splitlines()` and `readlines()` are not modelled: the lines are a parameter.
- Python's `\d` also matches non-ASCII decimal digits. Here a digit is ASCII `0`–`9`.
- `str.isspace` and `\s` are the fixed set of Unicode whitespace characters.
- PyValue.ParseInt: does not accept `_` between digits, or non-ASCII digits, which Python's `int()` does.
- The text `str()` gives for a float, a list or a dict is a parameter `repr`.
- PyValue.Json: a float is a finite real; NaN and ±Infinity, which `json.load` accepts, are not modelled, so `int()` raising on them is not either.
- Jinja2 rendering and the template lookup are not modelled, nor `datetime.now()` or `document_title`.
  - A permanent note is its path, its content and its linked locations.
  - A template that fails to load is not modelled.
- The rest of the repository is not part of this model:
  - `ai_services.py` and `transcribe_notes.py` (network calls);
  - `cli.py`, `config.py`, `processor.py` and `exceptions.py` (orchestration and configuration).
- The parsers' `data` dictionary and its entry lists are values: the methods return the updated record, and an edit such as `item['content'] += …` replaces the entry. Aliasing of these objects is not captured; none is visible outside the parser.

## Findings

| source | as written | input that shows it | evidently intended | confidence | as-written member | corrected member |
|---|---|---|---|---|---|---|
| parse_pdf.py:94 | the note images are ordered by sorting their file names, and `note_1000.<ext>` sorts before `note_101.<ext>` | a document with more than 1000 distinct images, so notes 1000 and above exist | the note images in the order they were written, which is the list the current version returns | not executed | LegacyImages.SortedImagesOutOfOrder | LegacyImages.NoteImagesInOrderNumbered |
