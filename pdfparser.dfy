/**
 * `PDFParser._extract_unique_images` and `PDFParser._create_structured_data`
 * of src/zettel/pdf_parser.py. The parser object's document and image
 * directory are passed in as parameters.
 *
 * The text parser walks the lines once. Lines before the first location
 * marker are skipped; each marker line then takes every line up to the next
 * marker as its body. `Parse` states the same thing from the back: the
 * record for a list of lines is the record for the lines before the last
 * marker, updated by that marker's segment.
 */
module PdfParser {
  import opened Wrappers
  import opened Text
  import opened Annotations
  import opened ImageDedup

  // ---------------------------------------------------------------------
  // Images

  /**
   * `_extract_unique_images()`: walk the images page by page, skip every
   * image whose digest was seen before, skip the first new one (the Kindle
   * logo), and name the others `note_001.<ext>`, `note_002.<ext>`, ... in the
   * image directory. One path per distinct digest but the first comes back.
   */
  method ExtractUniqueImages(pages: seq<seq<Image>>, imageDir: string, hash: seq<bv8> -> string)
    returns (imagePaths: seq<string>)
    ensures imagePaths == ExtractedPaths(imageDir, Flatten(pages), hash)
    ensures var n := |Hashes(Flatten(pages), hash)|; |imagePaths| == if n == 0 then 0 else n - 1
  {
    var seenHashes: set<string> := {};
    var noteCounter := 1;
    imagePaths := [];
    var p := 0;
    while p < |pages|
      invariant 0 <= p <= |pages|
      invariant seenHashes == Hashes(Flatten(pages[..p]), hash)
      invariant imagePaths == ExtractedPaths(imageDir, Flatten(pages[..p]), hash)
      invariant noteCounter == |imagePaths| + 1
    {
      seenHashes, imagePaths, noteCounter := ScanPage(pages[p], imageDir, hash, Flatten(pages[..p]), seenHashes, imagePaths, noteCounter);
      FlattenAt(pages, p);
      p := p + 1;
    }
    assert pages[..p] == pages;
    ExtractedCount(imageDir, Flatten(pages), hash);
  }

  /** The inner loop over the images of one page, after the images `before` of the earlier pages. */
  method ScanPage(page: seq<Image>, imageDir: string, hash: seq<bv8> -> string, ghost before: seq<Image>,
                  seen0: set<string>, paths0: seq<string>, counter0: nat)
    returns (seenHashes: set<string>, imagePaths: seq<string>, noteCounter: nat)
    requires seen0 == Hashes(before, hash) && paths0 == ExtractedPaths(imageDir, before, hash) && counter0 == |paths0| + 1
    ensures seenHashes == Hashes(before + page, hash)
    ensures imagePaths == ExtractedPaths(imageDir, before + page, hash)
    ensures noteCounter == |imagePaths| + 1
  {
    seenHashes, imagePaths, noteCounter := seen0, paths0, counter0;
    assert before + page[..0] == before;
    var q := 0;
    while q < |page|
      invariant 0 <= q <= |page|
      invariant seenHashes == Hashes(before + page[..q], hash)
      invariant imagePaths == ExtractedPaths(imageDir, before + page[..q], hash)
      invariant noteCounter == |imagePaths| + 1
    {
      var img := page[q];
      ghost var done := before + page[..q];
      assert before + page[..q + 1] == done + [img];
      ExtractStep(imageDir, done, img, hash);
      var imageHash := hash(img.bytes);
      if imageHash in seenHashes {
        q := q + 1;
        continue;
      }
      seenHashes := seenHashes + {imageHash};
      if |seenHashes| == 1 {
        q := q + 1;
        continue;
      }
      var imageFilename := "note_" + ZeroPad3(noteCounter) + "." + img.ext;
      assert imageFilename == NoteName(noteCounter, img.ext);
      var outputPath := PathJoin(imageDir, imageFilename);
      imagePaths := imagePaths + [outputPath];
      noteCounter := noteCounter + 1;
      q := q + 1;
    }
    assert page[..q] == page;
  }

  /** One more image: skipped when its digest was seen, skipped when it is the first new one, named next otherwise. */
  lemma ExtractStep(dir: string, done: seq<Image>, img: Image, hash: seq<bv8> -> string)
    ensures Hashes(done + [img], hash) == Hashes(done, hash) + {hash(img.bytes)}
    ensures hash(img.bytes) in Hashes(done, hash) || |Hashes(done, hash) + {hash(img.bytes)}| == 1 ==>
              ExtractedPaths(dir, done + [img], hash) == ExtractedPaths(dir, done, hash)
    ensures hash(img.bytes) !in Hashes(done, hash) && |Hashes(done, hash) + {hash(img.bytes)}| != 1 ==>
              ExtractedPaths(dir, done + [img], hash)
              == ExtractedPaths(dir, done, hash) + [PathJoin(dir, NoteName(|ExtractedPaths(dir, done, hash)| + 1, img.ext))]
  {
    UniquesSnoc(done, img, hash);
    HashesSnoc(done, img, hash);
    var seen := Hashes(done, hash);
    var u := Uniques(done, hash);
    if hash(img.bytes) !in seen {
      UniquesFacts(done, hash);
      assert |seen + {hash(img.bytes)}| == |u| + 1;
      if |u| > 0 {
        ExtractNamed(dir, done, img, hash);
      }
    }
  }

  /** A new digest after the logo's: the image is named with the next counter. */
  lemma ExtractNamed(dir: string, done: seq<Image>, img: Image, hash: seq<bv8> -> string)
    requires hash(img.bytes) !in Hashes(done, hash) && |Uniques(done, hash)| > 0
    ensures ExtractedPaths(dir, done + [img], hash)
         == ExtractedPaths(dir, done, hash) + [PathJoin(dir, NoteName(|ExtractedPaths(dir, done, hash)| + 1, img.ext))]
  {
    var u := Uniques(done, hash);
    UniquesSnoc(done, img, hash);
    assert (u + [img])[1..] == u[1..] + [img];
    NoteFilesSnoc(dir, u[1..], img);
  }

  // ---------------------------------------------------------------------
  // What one marker line asks for

  /** `"Highlight" in line`, on the stripped marker line. */
  predicate IsHighlightMarker(marker: string) {
    Contains(Strip(marker), "Highlight")
  }

  /** `"Continued" in line` */
  predicate IsContinued(marker: string) {
    Contains(Strip(marker), "Continued")
  }

  /** `"Note" in line or note_found` */
  predicate WantsNote(marker: string, body: seq<string>) {
    Contains(Strip(marker), "Note") || NoteFound(body)
  }

  /** `re.sub(r'\s+\d+$', '', " ".join(content_lines).strip())` */
  function Content(body: seq<string>): string {
    CleanContent(JoinSpace(BodyLines(body)))
  }

  /**
   * The highlight part of a segment, on the stripped marker line `line` and
   * the cleaned body text, applied to the location's entries.
   */
  function HighlightStep(es: seq<Entry>, line: string, content: string): seq<Entry> {
    if Contains(line, "Highlight") then
      if Contains(line, "Continued") then ExtendLastHighlight(es, " " + content)
      else es + [Highlight(content)]
    else es
  }

  /** One marker line and its body, applied to the parser state. */
  function Segment(st: ParseState, marker: string, body: seq<string>, images: seq<string>): ParseState
    requires IsMarker(marker)
  {
    var key := MarkerKey(marker);
    var r := EnsureKey(st.rec, key);
    var st1 := ParseState(SetEntries(r, key, HighlightStep(r.at[key], Strip(marker), Content(body))), st.imageIndex);
    if WantsNote(marker, body) then AddNote(st1, key, images) else st1
  }

  /** The state after reading `lines`, defined from the last marker line backwards. */
  function Parse(lines: seq<string>, images: seq<string>): ParseState
    decreases |lines|
  {
    match LastMarker(lines)
    case None => InitialState()
    case Some(m) => Segment(Parse(lines[..m], images), lines[m], lines[m + 1..], images)
  }

  // ---------------------------------------------------------------------
  // The imperative parser

  /**
   * The reverse scan `for item in reversed(entries): if highlight: extend; break`.
   */
  method ExtendLastHighlightScan(es: seq<Entry>, suffix: string) returns (r: seq<Entry>)
    ensures r == ExtendLastHighlight(es, suffix)
  {
    r := es;
    var k := |es|;
    while k > 0
      invariant 0 <= k <= |es|
      invariant forall i :: k <= i < |es| ==> !es[i].Highlight?
      invariant r == es
    {
      k := k - 1;
      if es[k].Highlight? {
        r := es[k := Highlight(es[k].content + suffix)];
        LastHighlightIs(es, k);
        return;
      }
    }
    LastHighlightNone(es);
  }

  /**
   * The inner loop: collect the stripped lines up to the next marker line
   * (or the end), setting the flag instead for "Note:" lines.
   */
  method ReadBody(lines: seq<string>, start: nat) returns (contentLines: seq<string>, noteFound: bool, next: nat)
    requires start < |lines|
    ensures start < next <= |lines| && (next < |lines| ==> IsMarker(lines[next]))
    ensures forall j :: start < j < next ==> !IsMarker(lines[j])
    ensures contentLines == BodyLines(lines[start + 1..next])
    ensures noteFound == NoteFound(lines[start + 1..next])
  {
    contentLines := [];
    noteFound := false;
    var i := start + 1;
    while i < |lines| && MatchLoc(Strip(lines[i])).None?
      invariant start < i <= |lines|
      invariant forall j :: start < j < i ==> !IsMarker(lines[j])
      invariant contentLines == BodyLines(lines[start + 1..i])
      invariant noteFound == NoteFound(lines[start + 1..i])
    {
      var strippedLine := Strip(lines[i]);
      BodyAt(lines, start, i);
      if strippedLine == "Note:" {
        noteFound := true;
      } else {
        contentLines := contentLines + [strippedLine];
      }
      NoMarkerStep(lines, start, i, i + 1);
      i := i + 1;
    }
    next := i;
  }

  /** `if "Highlight" in line: if "Continued" in line: <extend> else: <append>` */
  method RecordHighlight(es: seq<Entry>, line: string, cleanContent: string) returns (r: seq<Entry>)
    ensures r == HighlightStep(es, line, cleanContent)
  {
    r := es;
    if Contains(line, "Highlight") {
      if Contains(line, "Continued") {
        r := ExtendLastHighlightScan(es, " " + cleanContent);
      } else {
        r := es + [Highlight(cleanContent)];
      }
    }
  }

  /**
   * One pass of the outer loop body at a marker line `lines[start]`: make
   * sure the location has an entry list, read the body, then record the
   * highlight and the note the marker asks for.
   */
  method ReadSegment(lines: seq<string>, start: nat, images: seq<string>, data0: Record, imageIndex0: nat)
    returns (data: Record, imageIndex: nat, next: nat)
    requires start < |lines| && IsMarker(lines[start])
    ensures start < next <= |lines| && (next < |lines| ==> IsMarker(lines[next]))
    ensures forall j :: start < j < next ==> !IsMarker(lines[j])
    ensures ParseState(data, imageIndex)
         == Segment(ParseState(data0, imageIndex0), lines[start], lines[start + 1..next], images)
  {
    data, imageIndex := data0, imageIndex0;
    var line := Strip(lines[start]);
    var currentLoc := MatchLoc(line).value;
    if currentLoc !in data.at {
      data := Dict(data.keys + [currentLoc], data.at[currentLoc := []]);
    }
    var contentLines, noteFound;
    contentLines, noteFound, next := ReadBody(lines, start);
    ghost var marker, body := lines[start], lines[start + 1..next];
    ghost var r := EnsureKey(data0, currentLoc);
    assert data == r;
    var content := Strip(JoinSpace(contentLines));
    var cleanContent := RemovePageNumber(content);
    var extended := RecordHighlight(data.at[currentLoc], line, cleanContent);
    data := Dict(data.keys, data.at[currentLoc := extended]);
    assert data == SetEntries(r, currentLoc, HighlightStep(r.at[currentLoc], Strip(marker), Content(body)));
    if Contains(line, "Note") || noteFound {
      data, imageIndex := TakeImage(data, imageIndex, currentLoc, images);
    }
  }

  /**
   * `_create_structured_data(raw_text, image_paths)` on the already split
   * lines: the record `Parse` describes. Its locations come in the order of
   * their first marker line, and its notes use the first images, each once,
   * as many as were asked for and available.
   */
  method CreateStructuredData(lines: seq<string>, images: seq<string>) returns (data: Record)
    ensures data == Parse(lines, images).rec
    ensures data.keys == FirstAppearance(MarkerKeys(lines))
    ensures multiset(RecordNotePaths(data)) == multiset(images[..Min(|images|, NoteDemand(lines))])
  {
    data := ReadLines(lines, images);
    ParseKeys(lines, images);
    ParseNotes(lines, images);
  }

  /** The main loop over the lines. */
  method ReadLines(lines: seq<string>, images: seq<string>) returns (data: Record)
    ensures data == Parse(lines, images).rec
  {
    data := EmptyRecord();
    var imageIndex := 0;
    var i := 0;
    while i < |lines|
      invariant 0 <= i <= |lines|
      invariant Reading(lines, i, images, data, imageIndex)
    {
      data, imageIndex, i := ReadLine(lines, i, images, data, imageIndex);
    }
    assert lines[..i] == lines;
  }

  /**
   * What the loop keeps after reading `lines[..i]`: the state `Parse` gives
   * and, once a marker has been read, a marker next.
   */
  ghost predicate Reading(lines: seq<string>, i: nat, images: seq<string>, data: Record, imageIndex: nat) {
    && i <= |lines|
    && ParseState(data, imageIndex) == Parse(lines[..i], images)
    && (i < |lines| && LastMarker(lines[..i]).Some? ==> IsMarker(lines[i]))
  }

  /** One pass of the loop body: a blank line, a marker line with its body, or another line. */
  method ReadLine(lines: seq<string>, i: nat, images: seq<string>, data0: Record, imageIndex0: nat)
    returns (data: Record, imageIndex: nat, next: nat)
    requires i < |lines| && Reading(lines, i, images, data0, imageIndex0)
    ensures i < next <= |lines| && Reading(lines, next, images, data, imageIndex)
  {
    data, imageIndex := data0, imageIndex0;
    var line := Strip(lines[i]);
    if line == "" {
      SkipLine(lines, images, i);
      return data, imageIndex, i + 1;
    }
    var locMatch := MatchLoc(line);
    if locMatch.Some? {
      data, imageIndex, next := ReadSegment(lines, i, images, data, imageIndex);
      ParseSegment(lines, images, i, next);
      return;
    }
    SkipLine(lines, images, i);
    next := i + 1;
  }

  /** A line before the first marker that is not a marker itself is skipped. */
  lemma SkipLine(lines: seq<string>, images: seq<string>, i: nat)
    requires i < |lines| && !IsMarker(lines[i]) && LastMarker(lines[..i]).None?
    ensures LastMarker(lines[..i + 1]).None? && Parse(lines[..i + 1], images) == Parse(lines[..i], images)
  {
    LastMarkerSkip(lines, i);
  }

  /** Reading a marker and the lines up to the next marker adds one segment to the parse. */
  lemma ParseSegment(lines: seq<string>, images: seq<string>, start: nat, next: nat)
    requires start < next <= |lines| && IsMarker(lines[start])
    requires forall j :: start < j < next ==> !IsMarker(lines[j])
    ensures Parse(lines[..next], images) == Segment(Parse(lines[..start], images), lines[start], lines[start + 1..next], images)
    ensures LastMarker(lines[..next]) == Some(start)
  {
    LastMarkerIs(lines[..next], start);
    assert lines[..next][..start] == lines[..start];
    assert lines[..next][start + 1..] == lines[start + 1..next] && lines[..next][start] == lines[start];
    ParseUnfold(lines[..next], images, start);
  }

  // ---------------------------------------------------------------------
  // What the parse promises

  function Min(a: nat, b: nat): nat {
    if a <= b then a else b
  }

  /** The number of segments that ask for a note image. */
  function NoteDemand(lines: seq<string>): nat
    decreases |lines|
  {
    match LastMarker(lines)
    case None => 0
    case Some(m) => NoteDemand(lines[..m]) + (if WantsNote(lines[m], lines[m + 1..]) then 1 else 0)
  }

  /** The number of plain (not continued) highlight markers for location `key`. */
  function HighlightMarkers(lines: seq<string>, key: string): nat
    decreases |lines|
  {
    match LastMarker(lines)
    case None => 0
    case Some(m) =>
      HighlightMarkers(lines[..m], key)
      + (if MarkerKey(lines[m]) == key && IsHighlightMarker(lines[m]) && !IsContinued(lines[m]) then 1 else 0)
  }

  lemma ParseUnfold(lines: seq<string>, images: seq<string>, m: nat)
    requires LastMarker(lines) == Some(m)
    ensures Parse(lines, images) == Segment(Parse(lines[..m], images), lines[m], lines[m + 1..], images)
    ensures MarkerKeys(lines) == MarkerKeys(lines[..m]) + [MarkerKey(lines[m])]
    ensures NoteDemand(lines) == NoteDemand(lines[..m]) + (if WantsNote(lines[m], lines[m + 1..]) then 1 else 0)
    ensures forall key :: HighlightMarkers(lines, key)
                       == HighlightMarkers(lines[..m], key)
                          + (if MarkerKey(lines[m]) == key && IsHighlightMarker(lines[m]) && !IsContinued(lines[m]) then 1 else 0)
  {
  }

  /** Locations come in the order of their first marker line, each once. */
  lemma {:induction false} ParseKeys(lines: seq<string>, images: seq<string>)
    ensures Parse(lines, images).rec.keys == FirstAppearance(MarkerKeys(lines))
    decreases |lines|
  {
    var last := LastMarker(lines);
    if last.Some? {
      var m := last.value;
      ParseKeys(lines[..m], images);
      ParseNotes(lines[..m], images);
      ParseUnfold(lines, images, m);
      FirstAppearanceSnoc(MarkerKeys(lines[..m]), MarkerKey(lines[m]));
      EnsureKeyOk(Parse(lines[..m], images).rec, MarkerKey(lines[m]));
    }
  }

  /**
   * The image cursor stops at the smaller of the number of images and the
   * number of segments asking for one, and the notes use exactly the images
   * before it, each once.
   */
  lemma {:induction false} ParseNotes(lines: seq<string>, images: seq<string>)
    ensures Parse(lines, images).imageIndex == Min(|images|, NoteDemand(lines))
    ensures StateOk(Parse(lines, images), images)
    decreases |lines|
  {
    var last := LastMarker(lines);
    if last.Some? {
      var m := last.value;
      ParseNotes(lines[..m], images);
      ParseUnfold(lines, images, m);
      SegmentStateOk(Parse(lines[..m], images), lines[m], lines[m + 1..], images);
    }
  }

  /** The highlight step keeps the notes, and adds one highlight exactly for a plain highlight marker. */
  lemma HighlightStepCounts(es: seq<Entry>, line: string, content: string)
    ensures NotePaths(HighlightStep(es, line, content)) == NotePaths(es)
    ensures |Highlights(HighlightStep(es, line, content))|
         == |Highlights(es)| + if Contains(line, "Highlight") && !Contains(line, "Continued") then 1 else 0
  {
    if Contains(line, "Highlight") && !Contains(line, "Continued") {
      EntriesSnoc(es, Highlight(content));
    } else if Contains(line, "Highlight") {
      ExtendLastHighlightFacts(es, " " + content);
      SameNotesKeepsNotes(es, HighlightStep(es, line, content));
    }
  }

  lemma SegmentStateOk(st: ParseState, marker: string, body: seq<string>, images: seq<string>)
    requires StateOk(st, images) && IsMarker(marker)
    ensures StateOk(Segment(st, marker, body, images), images)
    ensures Segment(st, marker, body, images).imageIndex
         == if WantsNote(marker, body) && st.imageIndex < |images| then st.imageIndex + 1 else st.imageIndex
  {
    var key := MarkerKey(marker);
    var r := EnsureKey(st.rec, key);
    EnsureKeyOk(st.rec, key);
    EnsureKeyNotes(st.rec, key);
    var es := HighlightStep(r.at[key], Strip(marker), Content(body));
    HighlightStepCounts(r.at[key], Strip(marker), Content(body));
    SetEntriesOk(r, key, es);
    SetEntriesSameNotes(r, key, es);
    var st1 := ParseState(SetEntries(r, key, es), st.imageIndex);
    assert StateOk(st1, images);
    if WantsNote(marker, body) {
      AddNoteOk(st1, key, images);
    }
  }

  /**
   * One marker and its body, location by location: a plain highlight marker
   * appends one highlight with the cleaned body text, a continued one only
   * extends the last highlight, any other marker adds no highlight; then the
   * next image follows as a note when one is asked for and left. No other
   * location changes.
   */
  lemma SegmentEntries(st: ParseState, marker: string, body: seq<string>, images: seq<string>)
    requires IsMarker(marker)
    ensures var key := MarkerKey(marker);
      var es0 := Lookup(st.rec.at, key);
      var noted := if WantsNote(marker, body) && st.imageIndex < |images| then [Note(images[st.imageIndex])] else [];
      var after := Segment(st, marker, body, images).rec;
      && key in after.at
      && (IsHighlightMarker(marker) && !IsContinued(marker) ==> after.at[key] == es0 + [Highlight(Content(body))] + noted)
      && (IsHighlightMarker(marker) && IsContinued(marker) ==> after.at[key] == ExtendLastHighlight(es0, " " + Content(body)) + noted)
      && (!IsHighlightMarker(marker) ==> after.at[key] == es0 + noted)
      && (forall k :: k != key ==> Lookup(after.at, k) == Lookup(st.rec.at, k))
  {
    var key := MarkerKey(marker);
    var r := EnsureKey(st.rec, key);
    assert r.at[key] == Lookup(st.rec.at, key);
  }

  /**
   * Each location holds one highlight per plain highlight marker naming it:
   * a continued marker extends a highlight instead of adding one, and notes
   * are not highlights.
   */
  lemma {:induction false} ParseHighlightCount(lines: seq<string>, images: seq<string>, key: string)
    ensures |Highlights(Lookup(Parse(lines, images).rec.at, key))| == HighlightMarkers(lines, key)
    decreases |lines|
  {
    var last := LastMarker(lines);
    if last.Some? {
      var m := last.value;
      ParseHighlightCount(lines[..m], images, key);
      ParseUnfold(lines, images, m);
      SegmentHighlightCount(Parse(lines[..m], images), lines[m], lines[m + 1..], images, key);
    }
  }

  lemma SegmentHighlightCount(st: ParseState, marker: string, body: seq<string>, images: seq<string>, key: string)
    requires IsMarker(marker)
    ensures |Highlights(Lookup(Segment(st, marker, body, images).rec.at, key))|
         == |Highlights(Lookup(st.rec.at, key))|
            + if MarkerKey(marker) == key && IsHighlightMarker(marker) && !IsContinued(marker) then 1 else 0
  {
    var k := MarkerKey(marker);
    var r := EnsureKey(st.rec, k);
    var es := HighlightStep(r.at[k], Strip(marker), Content(body));
    if k == key {
      HighlightStepCounts(r.at[k], Strip(marker), Content(body));
      if WantsNote(marker, body) && st.imageIndex < |images| {
        EntriesSnoc(es, Note(images[st.imageIndex]));
      }
    }
  }
}
