/**
 * `create_structured_data` of parse_pdf.py, without the JSON dump: the line
 * parser of the older script. The lines of the text file and the folder's
 * listing are parameters.
 *
 * Unlike the newer parser, this one reads a body only after a marker that
 * mentions "Highlight". A marker that mentions "Note" but not "Highlight"
 * takes one image and reads nothing; a marker that mentions neither only
 * creates its location. The lines after such a marker are read one by one,
 * and each "Note:" line among them attaches a note to that location.
 *
 * `Parse` states this from the back: the state after some lines is the state
 * before the last marker line, updated by that marker and the lines after it.
 */
module LegacyParser {
  import opened Wrappers
  import opened Text
  import opened Annotations
  import LegacyImages
  import PdfParser

  // ---------------------------------------------------------------------
  // What one marker line asks for

  /** `"Highlight Continued" in line`, tested first. */
  predicate IsContinuedHighlight(marker: string) {
    Contains(Strip(marker), "Highlight Continued")
  }

  /** `"Highlight" in line`: both highlight branches read the body. */
  predicate ReadsBody(marker: string) {
    Contains(Strip(marker), "Highlight")
  }

  /** `elif "Note" in line`, reached only without "Highlight". */
  predicate IsNoteMarker(marker: string) {
    !ReadsBody(marker) && Contains(Strip(marker), "Note")
  }

  /** `content += line + " "` over the content lines. */
  function Accumulate(xs: seq<string>): string {
    if |xs| == 0 then "" else Accumulate(xs[..|xs| - 1]) + xs[|xs| - 1] + " "
  }

  /** `re.sub(r'\s+\d+$', '', content.strip())` */
  function LegacyContent(body: seq<string>): string {
    RemovePageNumber(Strip(Accumulate(BodyLines(body))))
  }

  lemma AccumulateSnoc(xs: seq<string>, x: string)
    ensures Accumulate(xs + [x]) == Accumulate(xs) + x + " "
  {
    assert (xs + [x])[..|xs|] == xs;
  }

  /** One more body line adds its stripped text and a blank, unless it is a "Note:" line. */
  lemma AccumulateAt(lines: seq<string>, start: nat, i: nat)
    requires start < i < |lines|
    ensures Accumulate(BodyLines(lines[start + 1..i + 1]))
         == if Strip(lines[i]) == "Note:" then Accumulate(BodyLines(lines[start + 1..i]))
            else Accumulate(BodyLines(lines[start + 1..i])) + Strip(lines[i]) + " "
    ensures NoteFound(lines[start + 1..i + 1]) == (NoteFound(lines[start + 1..i]) || Strip(lines[i]) == "Note:")
  {
    BodyAt(lines, start, i);
    var xs := BodyLines(lines[start + 1..i]);
    if Strip(lines[i]) == "Note:" {
      assert xs + [] == xs;
    } else {
      AccumulateSnoc(xs, Strip(lines[i]));
    }
  }

  lemma {:induction false} AccumulateJoin(xs: seq<string>)
    ensures Accumulate(xs) == if |xs| == 0 then "" else JoinSpace(xs) + " "
  {
    if |xs| > 1 {
      AccumulateJoin(xs[..|xs| - 1]);
    }
  }

  /** Both versions give a body the same highlight text: the trailing blank goes with the strip. */
  lemma LegacyContentAgrees(body: seq<string>)
    ensures LegacyContent(body) == PdfParser.Content(body)
  {
    var xs := BodyLines(body);
    AccumulateJoin(xs);
    if |xs| > 0 {
      StripIgnoresTrailingSpace(JoinSpace(xs));
    }
  }

  /** A marker that mentions "Highlight", with the body up to the next marker. */
  function HighlightSegment(st: ParseState, marker: string, body: seq<string>, images: seq<string>): ParseState
    requires IsMarker(marker)
  {
    var key := MarkerKey(marker);
    var r := EnsureKey(st.rec, key);
    var es := if IsContinuedHighlight(marker) then ExtendLastHighlight(r.at[key], " " + LegacyContent(body))
              else r.at[key] + [Highlight(LegacyContent(body))];
    var st1 := ParseState(SetEntries(r, key, es), st.imageIndex);
    if NoteFound(body) then AddNote(st1, key, images) else st1
  }

  /** A marker without "Highlight": the location, and one note if the marker mentions "Note". */
  function MarkerOnly(st: ParseState, marker: string, images: seq<string>): ParseState
    requires IsMarker(marker)
  {
    var key := MarkerKey(marker);
    var st1 := ParseState(EnsureKey(st.rec, key), st.imageIndex);
    if IsNoteMarker(marker) then AddNote(st1, key, images) else st1
  }

  /** The lines read one by one after such a marker: each "Note:" line attaches a note to `key`. */
  function FreeLines(st: ParseState, key: string, lines: seq<string>, images: seq<string>): (st': ParseState)
    requires key in st.rec.at
    ensures st'.rec.keys == st.rec.keys && key in st'.rec.at
  {
    if |lines| == 0 then st
    else
      var s := FreeLines(st, key, lines[..|lines| - 1], images);
      if Strip(lines[|lines| - 1]) == "Note:" then AddNote(s, key, images) else s
  }

  /** One marker line and the lines after it, up to the next marker. */
  function Step(st: ParseState, marker: string, rest: seq<string>, images: seq<string>): (st': ParseState)
    requires IsMarker(marker)
    ensures MarkerKey(marker) in st'.rec.at && st'.rec.keys == EnsureKey(st.rec, MarkerKey(marker)).keys
  {
    if ReadsBody(marker) then HighlightSegment(st, marker, rest, images)
    else FreeLines(MarkerOnly(st, marker, images), MarkerKey(marker), rest, images)
  }

  /** The state after reading `lines`. */
  function Parse(lines: seq<string>, images: seq<string>): (st: ParseState)
    ensures LastMarker(lines).Some? ==> MarkerKey(lines[LastMarker(lines).value]) in st.rec.at
    decreases |lines|
  {
    match LastMarker(lines)
    case None => InitialState()
    case Some(m) => Step(Parse(lines[..m], images), lines[m], lines[m + 1..], images)
  }

  /** `last_loc`: the location of the last marker line read. */
  function LastKey(lines: seq<string>): Option<string> {
    match LastMarker(lines)
    case None => None
    case Some(m) => Some(MarkerKey(lines[m]))
  }

  // ---------------------------------------------------------------------
  // The imperative parser

  /**
   * The inner loop of both highlight branches: gather the stripped lines up
   * to the next marker, each followed by a blank, setting the flag instead
   * for "Note:" lines.
   */
  method ReadBody(lines: seq<string>, start: nat) returns (content: string, noteFound: bool, next: nat)
    requires start < |lines|
    ensures start < next <= |lines| && (next < |lines| ==> IsMarker(lines[next]))
    ensures forall j :: start < j < next ==> !IsMarker(lines[j])
    ensures content == Accumulate(BodyLines(lines[start + 1..next]))
    ensures noteFound == NoteFound(lines[start + 1..next])
  {
    content := "";
    noteFound := false;
    var i := start + 1;
    while i < |lines| && MatchLoc(Strip(lines[i])).None?
      invariant start < i <= |lines|
      invariant forall j :: start < j < i ==> !IsMarker(lines[j])
      invariant content == Accumulate(BodyLines(lines[start + 1..i]))
      invariant noteFound == NoteFound(lines[start + 1..i])
    {
      var strippedLine := Strip(lines[i]);
      AccumulateAt(lines, start, i);
      NoMarkerStep(lines, start, i, i + 1);
      if strippedLine == "Note:" {
        noteFound := true;
      } else {
        content := content + strippedLine + " ";
      }
      i := i + 1;
    }
    next := i;
  }

  /**
   * The two highlight branches at the marker `lines[start]`, whose location
   * is already in `data0`: read the body, then extend the last highlight
   * (continued) or append a new one, then take an image if the body held a
   * "Note:" line.
   */
  method ReadHighlight(lines: seq<string>, start: nat, images: seq<string>, data0: Record, imageIndex0: nat)
    returns (data: Record, imageIndex: nat, next: nat)
    requires start < |lines| && IsMarker(lines[start]) && MarkerKey(lines[start]) in data0.at
    ensures start < next <= |lines| && (next < |lines| ==> IsMarker(lines[next]))
    ensures forall j :: start < j < next ==> !IsMarker(lines[j])
    ensures ParseState(data, imageIndex)
         == HighlightSegment(ParseState(data0, imageIndex0), lines[start], lines[start + 1..next], images)
  {
    data, imageIndex := data0, imageIndex0;
    var line := Strip(lines[start]);
    var currentLoc := MatchLoc(line).value;
    var content, noteFound;
    content, noteFound, next := ReadBody(lines, start);
    ghost var body := lines[start + 1..next];
    var cleanContent := RemovePageNumber(Strip(content));
    assert cleanContent == LegacyContent(body);
    if Contains(line, "Highlight Continued") {
      var extended := PdfParser.ExtendLastHighlightScan(data.at[currentLoc], " " + cleanContent);
      data := Dict(data.keys, data.at[currentLoc := extended]);
    } else {
      data := Dict(data.keys, data.at[currentLoc := data.at[currentLoc] + [Highlight(cleanContent)]]);
    }
    if noteFound {
      data, imageIndex := TakeImage(data, imageIndex, currentLoc, images);
    }
  }

  /**
   * The marker line `lines[i]`: its location is added if new, then either
   * a highlight branch reads the body, or a "Note" marker takes one image.
   * `next` is the first line not yet read.
   */
  method ReadMarker(lines: seq<string>, i: nat, images: seq<string>, data0: Record, imageIndex0: nat)
    returns (data: Record, imageIndex: nat, next: nat)
    requires i < |lines| && IsMarker(lines[i])
    requires ParseState(data0, imageIndex0) == Parse(lines[..i], images)
    ensures i < next <= |lines|
    ensures ParseState(data, imageIndex) == Parse(lines[..next], images)
    ensures LastMarker(lines[..next]) == Some(i) && LastKey(lines[..next]) == Some(MarkerKey(lines[i]))
    ensures ReadsBody(lines[i]) && next < |lines| ==> IsMarker(lines[next])
    ensures !ReadsBody(lines[i]) ==> next == i + 1
  {
    var line := Strip(lines[i]);
    var currentLoc := MatchLoc(line).value;
    data, imageIndex := data0, imageIndex0;
    if currentLoc !in data.at {
      data := Dict(data.keys + [currentLoc], data.at[currentLoc := []]);
    }
    assert data == EnsureKey(data0, currentLoc);
    if Contains(line, "Highlight") {
      data, imageIndex, next := ReadHighlight(lines, i, images, data, imageIndex);
      MarkerStep(lines, i, next, images);
    } else {
      if Contains(line, "Note") {
        data, imageIndex := TakeImage(data, imageIndex, currentLoc, images);
      }
      next := i + 1;
      MarkerStep(lines, i, next, images);
      StepFree(Parse(lines[..i], images), lines[i], lines[i + 1..next], images);
    }
  }

  /**
   * A line that is not a marker, after a marker without "Highlight" (or
   * before any marker): a "Note:" line attaches one note to the last
   * location, any other line changes nothing.
   */
  method ReadFreeLine(lines: seq<string>, i: nat, images: seq<string>, data0: Record, imageIndex0: nat, lastLoc: Option<string>)
    returns (data: Record, imageIndex: nat)
    requires i < |lines| && !IsMarker(lines[i])
    requires LastMarker(lines[..i]).Some? ==> !ReadsBody(lines[LastMarker(lines[..i]).value])
    requires ParseState(data0, imageIndex0) == Parse(lines[..i], images)
    requires lastLoc == LastKey(lines[..i])
    ensures ParseState(data, imageIndex) == Parse(lines[..i + 1], images)
    ensures LastMarker(lines[..i + 1]) == LastMarker(lines[..i]) && LastKey(lines[..i + 1]) == lastLoc
  {
    data, imageIndex := data0, imageIndex0;
    FreeStep(lines, i, images);
    var line := Strip(lines[i]);
    if line == "Note:" && lastLoc.Some? {
      data, imageIndex := TakeImage(data, imageIndex, lastLoc.value, images);
    }
  }

  /**
   * `create_structured_data(text_file, image_folder)` on the file's lines and
   * the folder's listing: the record `Parse` describes for the sorted image
   * list. Its locations come in the order of their first marker line, and
   * its notes use the first images of the list, each once, as many as were
   * asked for and available.
   */
  method CreateStructuredData(lines: seq<string>, imageFolder: string, listing: seq<string>) returns (data: Record)
    ensures data == Parse(lines, LegacyImages.ImageFiles(imageFolder, listing)).rec
    ensures data.keys == FirstAppearance(MarkerKeys(lines))
    ensures var images := LegacyImages.ImageFiles(imageFolder, listing);
      multiset(RecordNotePaths(data)) == multiset(images[..PdfParser.Min(|images|, NoteDemand(lines))])
  {
    var imageFiles := LegacyImages.ImageFiles(imageFolder, listing);
    data := ReadLines(lines, imageFiles);
    ParseFacts(lines, imageFiles);
  }

  /** The main loop over the lines, with the sorted image list. */
  method ReadLines(lines: seq<string>, imageFiles: seq<string>) returns (data: Record)
    ensures data == Parse(lines, imageFiles).rec
  {
    var imageIndex: nat := 0;
    data := EmptyRecord();
    var lastLoc: Option<string> := None;
    var i := 0;
    while i < |lines|
      invariant 0 <= i <= |lines|
      invariant Reading(lines, i, imageFiles, data, imageIndex, lastLoc)
    {
      data, imageIndex, lastLoc, i := ReadLine(lines, i, imageFiles, data, imageIndex, lastLoc);
    }
    assert lines[..i] == lines;
  }

  /**
   * What the loop keeps after reading `lines[..i]`: the state `Parse` gives,
   * the last location read, and, right after a highlight body, a marker next.
   */
  ghost predicate Reading(lines: seq<string>, i: nat, images: seq<string>, data: Record, imageIndex: nat, lastLoc: Option<string>) {
    && i <= |lines|
    && ParseState(data, imageIndex) == Parse(lines[..i], images)
    && (i < |lines| && LastMarker(lines[..i]).Some? && ReadsBody(lines[LastMarker(lines[..i]).value]) ==> IsMarker(lines[i]))
    && lastLoc == LastKey(lines[..i])
  }

  /** One pass of the loop body: a marker line with whatever it reads, or one other line. */
  method ReadLine(lines: seq<string>, i: nat, images: seq<string>, data0: Record, imageIndex0: nat, lastLoc0: Option<string>)
    returns (data: Record, imageIndex: nat, lastLoc: Option<string>, next: nat)
    requires i < |lines| && Reading(lines, i, images, data0, imageIndex0, lastLoc0)
    ensures i < next <= |lines| && Reading(lines, next, images, data, imageIndex, lastLoc)
  {
    var locMatch := MatchLoc(Strip(lines[i]));
    if locMatch.Some? {
      data, imageIndex, next := ReadMarker(lines, i, images, data0, imageIndex0);
      lastLoc := locMatch;
    } else {
      data, imageIndex := ReadFreeLine(lines, i, images, data0, imageIndex0, lastLoc0);
      lastLoc := lastLoc0;
      next := i + 1;
      ReadingAfterFree(lines, i, next, images, data, imageIndex, lastLoc);
    }
  }

  /** What `ReadFreeLine` leaves is what the loop keeps, one line further on. */
  lemma ReadingAfterFree(lines: seq<string>, i: nat, next: nat, images: seq<string>, data: Record, imageIndex: nat, lastLoc: Option<string>)
    requires i < |lines| && !IsMarker(lines[i]) && next == i + 1
    requires LastMarker(lines[..i]).Some? ==> !ReadsBody(lines[LastMarker(lines[..i]).value])
    requires ParseState(data, imageIndex) == Parse(lines[..i + 1], images)
    requires LastMarker(lines[..i + 1]) == LastMarker(lines[..i]) && LastKey(lines[..i + 1]) == lastLoc
    ensures Reading(lines, next, images, data, imageIndex, lastLoc)
  {
  }

  /**
   * The record's locations come in the order of their first marker line,
   * and its notes use the first images of the list, each once, as many as
   * were asked for and available.
   */
  lemma ParseFacts(lines: seq<string>, images: seq<string>)
    ensures Parse(lines, images).rec.keys == FirstAppearance(MarkerKeys(lines))
    ensures multiset(RecordNotePaths(Parse(lines, images).rec)) == multiset(images[..PdfParser.Min(|images|, NoteDemand(lines))])
  {
    ParseKeys(lines, images);
    ParseNotes(lines, images);
    ParseIndex(lines, images);
  }

  /** A line that is not a marker, read on its own after a marker without "Highlight" (or before any marker). */
  lemma FreeStep(lines: seq<string>, i: nat, images: seq<string>)
    requires i < |lines| && !IsMarker(lines[i])
    requires LastMarker(lines[..i]).Some? ==> !ReadsBody(lines[LastMarker(lines[..i]).value])
    ensures LastMarker(lines[..i + 1]) == LastMarker(lines[..i]) && LastKey(lines[..i + 1]) == LastKey(lines[..i])
    ensures Parse(lines[..i + 1], images)
         == if Strip(lines[i]) == "Note:" && LastMarker(lines[..i]).Some?
            then AddNote(Parse(lines[..i], images), MarkerKey(lines[LastMarker(lines[..i]).value]), images)
            else Parse(lines[..i], images)
  {
    LastMarkerSkip(lines, i);
    var last := LastMarker(lines[..i]);
    if last.Some? {
      FreeStepAfter(lines, i, last.value, images);
    }
  }

  /** The same, after the marker `lines[m]`: the line goes to the end of that marker's free lines. */
  lemma FreeStepAfter(lines: seq<string>, i: nat, m: nat, images: seq<string>)
    requires m < i < |lines| && !IsMarker(lines[i]) && !ReadsBody(lines[m])
    requires LastMarker(lines[..i]) == Some(m) && LastMarker(lines[..i + 1]) == Some(m)
    ensures Parse(lines[..i + 1], images)
         == if Strip(lines[i]) == "Note:" then AddNote(Parse(lines[..i], images), MarkerKey(lines[m]), images)
            else Parse(lines[..i], images)
  {
    var l, l' := lines[..i], lines[..i + 1];
    var rest := l[m + 1..];
    assert l'[..m] == l[..m] && l'[m] == l[m] == lines[m];
    assert l'[m + 1..] == rest + [lines[i]];
    var prev := Parse(l[..m], images);
    ParseUnfold(l, images, m);
    ParseUnfold(l', images, m);
    StepFree(prev, lines[m], rest, images);
    StepFree(prev, lines[m], rest + [lines[i]], images);
    FreeLinesSnoc(MarkerOnly(prev, lines[m], images), MarkerKey(lines[m]), rest, lines[i], images);
  }

  /** A marker without "Highlight": its location, then its free lines. */
  lemma StepFree(st: ParseState, marker: string, rest: seq<string>, images: seq<string>)
    requires IsMarker(marker) && !ReadsBody(marker)
    ensures Step(st, marker, rest, images) == FreeLines(MarkerOnly(st, marker, images), MarkerKey(marker), rest, images)
  {
  }

  /** One more free line after a marker. */
  lemma FreeLinesSnoc(st: ParseState, key: string, ls: seq<string>, x: string, images: seq<string>)
    requires key in st.rec.at
    ensures FreeLines(st, key, ls + [x], images)
         == if Strip(x) == "Note:" then AddNote(FreeLines(st, key, ls, images), key, images) else FreeLines(st, key, ls, images)
  {
    assert (ls + [x])[..|ls|] == ls;
  }

  /**
   * The marker `lines[start]`, read up to `next`: the state after it is the
   * state `Parse` gives, and the marker is now the last one.
   */
  lemma MarkerStep(lines: seq<string>, start: nat, next: nat, images: seq<string>)
    requires start < next <= |lines| && IsMarker(lines[start])
    requires forall j :: start < j < next ==> !IsMarker(lines[j])
    ensures LastMarker(lines[..next]) == Some(start) && LastKey(lines[..next]) == Some(MarkerKey(lines[start]))
    ensures Parse(lines[..next], images) == Step(Parse(lines[..start], images), lines[start], lines[start + 1..next], images)
  {
    var l := lines[..next];
    LastMarkerIs(l, start);
    assert l[..start] == lines[..start];
    assert l[start + 1..] == lines[start + 1..next] && l[start] == lines[start];
  }

  /**
   * A marker that mentions "Highlight", location by location: "Highlight
   * Continued" extends the last highlight, otherwise one highlight with the
   * cleaned body text is appended; a "Note:" line in the body then adds the
   * next image, if one is left. No other location changes.
   */
  lemma HighlightSegmentEntries(st: ParseState, marker: string, body: seq<string>, images: seq<string>)
    requires IsMarker(marker) && ReadsBody(marker)
    ensures var key := MarkerKey(marker);
      var es0 := Lookup(st.rec.at, key);
      var noted := if NoteFound(body) && st.imageIndex < |images| then [Note(images[st.imageIndex])] else [];
      var after := Step(st, marker, body, images).rec;
      && key in after.at
      && (IsContinuedHighlight(marker) ==> after.at[key] == ExtendLastHighlight(es0, " " + LegacyContent(body)) + noted)
      && (!IsContinuedHighlight(marker) ==> after.at[key] == es0 + [Highlight(LegacyContent(body))] + noted)
      && (forall k :: k != key ==> Lookup(after.at, k) == Lookup(st.rec.at, k))
  {
    var key := MarkerKey(marker);
    assert EnsureKey(st.rec, key).at[key] == Lookup(st.rec.at, key);
  }

  /**
   * A marker without "Highlight" reads no body: it adds the next image as a
   * note when it mentions "Note" and an image is left, and nothing else.
   */
  lemma MarkerOnlyEntries(st: ParseState, marker: string, images: seq<string>)
    requires IsMarker(marker) && !ReadsBody(marker)
    ensures var key := MarkerKey(marker);
      var after := MarkerOnly(st, marker, images);
      && key in after.rec.at
      && after.rec.at[key] == Lookup(st.rec.at, key)
                              + (if IsNoteMarker(marker) && st.imageIndex < |images| then [Note(images[st.imageIndex])] else [])
      && after.imageIndex == (if IsNoteMarker(marker) && st.imageIndex < |images| then st.imageIndex + 1 else st.imageIndex)
      && (forall k :: k != key ==> Lookup(after.rec.at, k) == Lookup(st.rec.at, k))
  {
    var key := MarkerKey(marker);
    assert EnsureKey(st.rec, key).at[key] == Lookup(st.rec.at, key);
  }

  // ---------------------------------------------------------------------
  // What the parse promises

  /** The notes one marker and the lines after it ask for. */
  function SegmentDemand(marker: string, rest: seq<string>): nat {
    if ReadsBody(marker) then (if NoteFound(rest) then 1 else 0)
    else (if IsNoteMarker(marker) then 1 else 0) + NoteLineCount(rest)
  }

  /** The number of notes the lines ask for: one per highlight body with a "Note:" line, per "Note" marker, and per free "Note:" line. */
  function NoteDemand(lines: seq<string>): nat
    decreases |lines|
  {
    match LastMarker(lines)
    case None => 0
    case Some(m) => NoteDemand(lines[..m]) + SegmentDemand(lines[m], lines[m + 1..])
  }

  /** Whether a marker adds a highlight to `key`: "Highlight" without "Highlight Continued". */
  predicate AddsHighlight(marker: string, key: string)
    requires IsMarker(marker)
  {
    MarkerKey(marker) == key && ReadsBody(marker) && !IsContinuedHighlight(marker)
  }

  /** The number of markers that add a highlight to `key`. */
  function HighlightMarkers(lines: seq<string>, key: string): nat
    decreases |lines|
  {
    match LastMarker(lines)
    case None => 0
    case Some(m) => HighlightMarkers(lines[..m], key) + if AddsHighlight(lines[m], key) then 1 else 0
  }

  lemma ParseUnfold(lines: seq<string>, images: seq<string>, m: nat)
    requires LastMarker(lines) == Some(m)
    ensures Parse(lines, images) == Step(Parse(lines[..m], images), lines[m], lines[m + 1..], images)
    ensures MarkerKeys(lines) == MarkerKeys(lines[..m]) + [MarkerKey(lines[m])]
    ensures NoteDemand(lines) == NoteDemand(lines[..m]) + SegmentDemand(lines[m], lines[m + 1..])
    ensures forall key :: HighlightMarkers(lines, key) == HighlightMarkers(lines[..m], key) + if AddsHighlight(lines[m], key) then 1 else 0
  {
  }

  /** Locations come in the order of their first marker line, each once. */
  lemma {:induction false} ParseKeys(lines: seq<string>, images: seq<string>)
    ensures Parse(lines, images).rec.keys == FirstAppearance(MarkerKeys(lines))
    decreases |lines|
  {
    var last := LastMarker(lines);
    if last.Some? {
      var m := last.value;
      ParseKeys(lines[..m], images);
      ParseNotes(lines[..m], images);
      ParseUnfold(lines, images, m);
      FirstAppearanceSnoc(MarkerKeys(lines[..m]), MarkerKey(lines[m]));
      EnsureKeyOk(Parse(lines[..m], images).rec, MarkerKey(lines[m]));
    }
  }

  lemma HighlightSegmentOk(st: ParseState, marker: string, body: seq<string>, images: seq<string>)
    requires StateOk(st, images) && IsMarker(marker)
    ensures StateOk(HighlightSegment(st, marker, body, images), images)
  {
    var key := MarkerKey(marker);
    var r := EnsureKey(st.rec, key);
    EnsureKeyOk(st.rec, key);
    EnsureKeyNotes(st.rec, key);
    var es := if IsContinuedHighlight(marker) then ExtendLastHighlight(r.at[key], " " + LegacyContent(body))
              else r.at[key] + [Highlight(LegacyContent(body))];
    SetEntriesOk(r, key, es);
    if IsContinuedHighlight(marker) {
      ExtendLastHighlightFacts(r.at[key], " " + LegacyContent(body));
      SameNotesKeepsNotes(r.at[key], es);
    } else {
      EntriesSnoc(r.at[key], Highlight(LegacyContent(body)));
    }
    SetEntriesSameNotes(r, key, es);
    var st1 := ParseState(SetEntries(r, key, es), st.imageIndex);
    assert StateOk(st1, images);
    if NoteFound(body) {
      AddNoteOk(st1, key, images);
    }
  }

  lemma MarkerOnlyOk(st: ParseState, marker: string, images: seq<string>)
    requires StateOk(st, images) && IsMarker(marker)
    ensures StateOk(MarkerOnly(st, marker, images), images)
  {
    var key := MarkerKey(marker);
    EnsureKeyOk(st.rec, key);
    EnsureKeyNotes(st.rec, key);
    var st1 := ParseState(EnsureKey(st.rec, key), st.imageIndex);
    assert StateOk(st1, images);
    if IsNoteMarker(marker) {
      AddNoteOk(st1, key, images);
    }
  }

  lemma {:induction false} FreeLinesOk(st: ParseState, key: string, lines: seq<string>, images: seq<string>)
    requires StateOk(st, images) && key in st.rec.at
    ensures StateOk(FreeLines(st, key, lines, images), images)
  {
    if |lines| > 0 {
      var init := lines[..|lines| - 1];
      FreeLinesOk(st, key, init, images);
      if Strip(lines[|lines| - 1]) == "Note:" {
        AddNoteOk(FreeLines(st, key, init, images), key, images);
      }
    }
  }

  /** Each free "Note:" line takes the next image while there is one. */
  lemma {:induction false} FreeLinesIndex(st: ParseState, key: string, lines: seq<string>, images: seq<string>)
    requires st.imageIndex <= |images| && key in st.rec.at
    ensures FreeLines(st, key, lines, images).imageIndex == PdfParser.Min(|images|, st.imageIndex + NoteLineCount(lines))
  {
    if |lines| > 0 {
      FreeLinesIndex(st, key, lines[..|lines| - 1], images);
    }
  }

  /** The notes use exactly the images before the cursor, each once. */
  lemma {:induction false} ParseNotes(lines: seq<string>, images: seq<string>)
    ensures StateOk(Parse(lines, images), images)
    decreases |lines|
  {
    var last := LastMarker(lines);
    if last.Some? {
      var m := last.value;
      ParseNotes(lines[..m], images);
      ParseUnfold(lines, images, m);
      StepOk(Parse(lines[..m], images), lines[m], lines[m + 1..], images);
    }
  }

  /** The image cursor stops at the smaller of the number of images and the number of notes asked for. */
  lemma {:induction false} ParseIndex(lines: seq<string>, images: seq<string>)
    ensures Parse(lines, images).imageIndex == PdfParser.Min(|images|, NoteDemand(lines))
    decreases |lines|
  {
    var last := LastMarker(lines);
    if last.Some? {
      var m := last.value;
      ParseIndex(lines[..m], images);
      ParseUnfold(lines, images, m);
      StepIndex(Parse(lines[..m], images), lines[m], lines[m + 1..], images);
    }
  }

  /** One marker and the lines after it keep the state consistent with the image list. */
  lemma StepOk(prev: ParseState, marker: string, rest: seq<string>, images: seq<string>)
    requires StateOk(prev, images) && IsMarker(marker)
    ensures StateOk(Step(prev, marker, rest, images), images)
  {
    if ReadsBody(marker) {
      HighlightSegmentOk(prev, marker, rest, images);
    } else {
      MarkerOnlyOk(prev, marker, images);
      FreeLinesOk(MarkerOnly(prev, marker, images), MarkerKey(marker), rest, images);
    }
  }

  /** One marker and the lines after it take the next images, one per note asked for, while there are any. */
  lemma StepIndex(prev: ParseState, marker: string, rest: seq<string>, images: seq<string>)
    requires prev.imageIndex <= |images| && IsMarker(marker)
    ensures Step(prev, marker, rest, images).imageIndex == PdfParser.Min(|images|, prev.imageIndex + SegmentDemand(marker, rest))
  {
    var n, i := |images|, prev.imageIndex;
    if ReadsBody(marker) {
      MinStep(n, i, HighlightSegment(prev, marker, rest, images).imageIndex, 0, NoteFound(rest));
    } else {
      var st1 := MarkerOnly(prev, marker, images);
      FreeLinesIndex(st1, MarkerKey(marker), rest, images);
      MinStep(n, i, st1.imageIndex, NoteLineCount(rest), IsNoteMarker(marker));
    }
  }

  /** A note asked for when the images have run out takes nothing, so the cursor still stops at the bound. */
  lemma MinStep(n: nat, i: nat, j: nat, k: nat, note: bool)
    requires i <= n && j == (if note && i < n then i + 1 else i)
    ensures PdfParser.Min(n, j + k) == PdfParser.Min(n, i + (if note then 1 else 0) + k)
  {
  }

  /**
   * Each location holds one highlight per marker naming it that mentions
   * "Highlight" but not "Highlight Continued": a continued marker extends a
   * highlight instead, and no note is a highlight.
   */
  lemma {:induction false} ParseHighlightCount(lines: seq<string>, images: seq<string>, key: string)
    ensures |Highlights(Lookup(Parse(lines, images).rec.at, key))| == HighlightMarkers(lines, key)
    decreases |lines|
  {
    var last := LastMarker(lines);
    if last.Some? {
      var m := last.value;
      ParseHighlightCount(lines[..m], images, key);
      ParseUnfold(lines, images, m);
      StepHighlightCount(Parse(lines[..m], images), lines[m], lines[m + 1..], images, key);
    }
  }

  lemma StepHighlightCount(st: ParseState, marker: string, rest: seq<string>, images: seq<string>, key: string)
    requires IsMarker(marker)
    ensures |Highlights(Lookup(Step(st, marker, rest, images).rec.at, key))|
         == |Highlights(Lookup(st.rec.at, key))| + if AddsHighlight(marker, key) then 1 else 0
  {
    var k := MarkerKey(marker);
    var r := EnsureKey(st.rec, k);
    assert Highlights(Lookup(r.at, key)) == Highlights(Lookup(st.rec.at, key)) || (key == k && k !in st.rec.at);
    if ReadsBody(marker) {
      var es := if IsContinuedHighlight(marker) then ExtendLastHighlight(r.at[k], " " + LegacyContent(rest))
                else r.at[k] + [Highlight(LegacyContent(rest))];
      var st1 := ParseState(SetEntries(r, k, es), st.imageIndex);
      if k == key {
        if IsContinuedHighlight(marker) {
          ExtendLastHighlightFacts(r.at[k], " " + LegacyContent(rest));
          SameNotesKeepsNotes(r.at[k], es);
        } else {
          EntriesSnoc(r.at[k], Highlight(LegacyContent(rest)));
        }
      }
      if NoteFound(rest) {
        AddNoteHighlights(st1, k, images, key);
      }
    } else {
      var st1 := ParseState(r, st.imageIndex);
      var st2 := if IsNoteMarker(marker) then AddNote(st1, k, images) else st1;
      if IsNoteMarker(marker) {
        AddNoteHighlights(st1, k, images, key);
      }
      FreeLinesHighlights(st2, k, rest, images, key);
    }
  }

  /** The free lines after a marker add notes only. */
  lemma {:induction false} FreeLinesHighlights(st: ParseState, k: string, lines: seq<string>, images: seq<string>, key: string)
    requires k in st.rec.at
    ensures Highlights(Lookup(FreeLines(st, k, lines, images).rec.at, key)) == Highlights(Lookup(st.rec.at, key))
  {
    if |lines| > 0 {
      var init := lines[..|lines| - 1];
      FreeLinesHighlights(st, k, init, images, key);
      if Strip(lines[|lines| - 1]) == "Note:" {
        AddNoteHighlights(FreeLines(st, k, init, images), k, images, key);
      }
    }
  }
}
