/**
 * The annotation record both parsers build: an insertion-ordered dictionary
 * from a location key ("Loc <digits>") to the list of entries found there,
 * and the line-level notions both parsers share (marker lines, body lines,
 * the "Note:" flag, the cleaned highlight text).
 */
module Annotations {
  import opened Wrappers
  import opened Text

  /** `{"type": "highlight", "content": ...}` or `{"type": "note", "image_path": ...}` */
  datatype Entry = Highlight(content: string) | Note(imagePath: string)

  /** A Python dict with string keys: the keys in insertion order, and the mapping. */
  datatype Dict<V> = Dict(keys: seq<string>, at: map<string, V>)

  type Record = Dict<seq<Entry>>

  ghost predicate Distinct<T>(xs: seq<T>) {
    forall i, j :: 0 <= i < j < |xs| ==> xs[i] != xs[j]
  }

  /** The key list lists every key of the mapping exactly once. */
  ghost predicate WellFormed<V>(d: Dict<V>) {
    Distinct(d.keys) && forall k :: k in d.at <==> k in d.keys
  }

  function EmptyRecord(): Record {
    Dict([], map[])
  }

  /** `if key not in data: data[key] = []` */
  function EnsureKey(r: Record, key: string): Record {
    if key in r.at then r else Dict(r.keys + [key], r.at[key := []])
  }

  /** Replace the entry list stored under a key. */
  function SetEntries(r: Record, key: string, es: seq<Entry>): Record {
    Dict(r.keys, r.at[key := es])
  }

  /** `data[key].append(e)` */
  function AppendEntry(r: Record, key: string, e: Entry): Record
    requires key in r.at
  {
    SetEntries(r, key, r.at[key] + [e])
  }

  /** The empty record is well formed. */
  lemma EmptyRecordOk()
    ensures WellFormed(EmptyRecord())
  {
  }

  /** A new location goes to the end of the key list, once; an existing one changes nothing. */
  lemma EnsureKeyOk(r: Record, key: string)
    requires WellFormed(r)
    ensures WellFormed(EnsureKey(r, key)) && key in EnsureKey(r, key).at
    ensures EnsureKey(r, key).keys == if key in r.keys then r.keys else r.keys + [key]
    ensures key in r.at ==> EnsureKey(r, key) == r
    ensures key !in r.at ==> EnsureKey(r, key).at == r.at[key := []]
  {
    if key !in r.at {
      var ks := r.keys + [key];
      forall i, j | 0 <= i < j < |ks| ensures ks[i] != ks[j] {
        if j == |r.keys| {
          assert ks[i] == r.keys[i];
        }
      }
    }
  }

  /** Updating a listed location keeps the record well formed and its keys as they were. */
  lemma SetEntriesOk(r: Record, key: string, es: seq<Entry>)
    requires WellFormed(r) && key in r.at
    ensures WellFormed(SetEntries(r, key, es)) && SetEntries(r, key, es).keys == r.keys
  {
  }

  // ---------------------------------------------------------------------
  // Lines

  /** A line whose stripped form matches `Loc \d+` at its start. */
  predicate IsMarker(line: string) {
    MatchLoc(Strip(line)).Some?
  }

  /** Group 1 of `Loc (\d+)` on the stripped line. */
  function MarkerKey(line: string): string
    requires IsMarker(line)
  {
    MatchLoc(Strip(line)).value
  }

  /** The index of the last marker line, if any. */
  function LastMarker(ls: seq<string>): (m: Option<nat>)
    ensures m.Some? ==> m.value < |ls| && IsMarker(ls[m.value])
  {
    if |ls| == 0 then None
    else if IsMarker(ls[|ls| - 1]) then Some(|ls| - 1)
    else LastMarker(ls[..|ls| - 1])
  }

  /** No marker line comes after the last one; without one, no line is a marker. */
  lemma {:induction false} LastMarkerFacts(ls: seq<string>)
    ensures LastMarker(ls).None? ==> forall i :: 0 <= i < |ls| ==> !IsMarker(ls[i])
    ensures LastMarker(ls).Some? ==> forall i :: LastMarker(ls).value < i < |ls| ==> !IsMarker(ls[i])
  {
    if |ls| > 0 && !IsMarker(ls[|ls| - 1]) {
      var init := ls[..|ls| - 1];
      LastMarkerFacts(init);
      assert forall i :: 0 <= i < |init| ==> init[i] == ls[i];
    }
  }

  /** The keys of all marker lines, in the order the lines come. */
  function MarkerKeys(ls: seq<string>): seq<string>
    decreases |ls|
  {
    match LastMarker(ls)
    case None => []
    case Some(m) => MarkerKeys(ls[..m]) + [MarkerKey(ls[m])]
  }

  /** A marker line followed only by non-marker lines is the last marker. */
  lemma {:induction false} LastMarkerIs(ls: seq<string>, m: nat)
    requires m < |ls| && IsMarker(ls[m]) && forall i :: m < i < |ls| ==> !IsMarker(ls[i])
    ensures LastMarker(ls) == Some(m)
  {
    if m < |ls| - 1 {
      var init := ls[..|ls| - 1];
      assert forall i :: m < i < |init| ==> init[i] == ls[i];
      LastMarkerIs(init, m);
    }
  }

  /** A non-marker line at the end changes nothing about the last marker. */
  lemma LastMarkerSkip(ls: seq<string>, i: nat)
    requires i < |ls| && !IsMarker(ls[i])
    ensures LastMarker(ls[..i + 1]) == LastMarker(ls[..i])
  {
    assert ls[..i + 1][..i] == ls[..i];
  }

  /** Each element once, at the place it first occurs. */
  function FirstAppearance(xs: seq<string>): (r: seq<string>)
    ensures forall x :: x in r <==> x in xs
  {
    if |xs| == 0 then []
    else if xs[|xs| - 1] in xs[..|xs| - 1] then FirstAppearance(xs[..|xs| - 1])
    else
      var p := FirstAppearance(xs[..|xs| - 1]);
      assert forall x :: x in xs <==> x in xs[..|xs| - 1] || x == xs[|xs| - 1] by {
        assert xs == xs[..|xs| - 1] + [xs[|xs| - 1]];
      }
      p + [xs[|xs| - 1]]
  }

  lemma FirstAppearanceSnoc(xs: seq<string>, x: string)
    ensures FirstAppearance(xs + [x]) == if x in xs then FirstAppearance(xs) else FirstAppearance(xs) + [x]
  {
    assert (xs + [x])[..|xs|] == xs;
  }

  /** `FirstAppearance` lists no element twice. */
  lemma {:induction false} FirstAppearanceDistinct(xs: seq<string>)
    ensures Distinct(FirstAppearance(xs))
  {
    if |xs| > 0 {
      FirstAppearanceDistinct(xs[..|xs| - 1]);
    }
  }

  /** The stripped body lines that go into a highlight: all of them except "Note:" lines, blank ones included. */
  function BodyLines(body: seq<string>): seq<string> {
    if |body| == 0 then []
    else if Strip(body[|body| - 1]) == "Note:" then BodyLines(body[..|body| - 1])
    else BodyLines(body[..|body| - 1]) + [Strip(body[|body| - 1])]
  }

  /** Some body line is exactly "Note:" once stripped. */
  function NoteFound(body: seq<string>): bool {
    if |body| == 0 then false
    else Strip(body[|body| - 1]) == "Note:" || NoteFound(body[..|body| - 1])
  }

  /** `NoteFound` is the `note_found` flag: some line of the body is "Note:". */
  lemma {:induction false} NoteFoundIff(body: seq<string>)
    ensures NoteFound(body) <==> exists i :: 0 <= i < |body| && Strip(body[i]) == "Note:"
  {
    if |body| > 0 {
      var init := body[..|body| - 1];
      NoteFoundIff(init);
      assert forall i :: 0 <= i < |init| ==> init[i] == body[i];
    }
  }

  /**
   * What a body gives the highlight text: no "Note:" line, one stripped line
   * for every other line, and, in a body without a "Note:" line, every line
   * stripped and in order.
   */
  lemma {:induction false} BodyLinesFacts(body: seq<string>)
    ensures forall k :: 0 <= k < |BodyLines(body)| ==> BodyLines(body)[k] != "Note:"
    ensures |BodyLines(body)| + NoteLineCount(body) == |body|
    ensures (forall i :: 0 <= i < |body| ==> Strip(body[i]) != "Note:") ==>
              BodyLines(body) == seq(|body|, i requires 0 <= i < |body| => Strip(body[i]))
  {
    if |body| > 0 {
      var init := body[..|body| - 1];
      BodyLinesFacts(init);
      assert forall i :: 0 <= i < |init| ==> init[i] == body[i];
    }
  }

  /**
   * Where a body line lands in the highlight text: a line that is not
   * "Note:" is kept, stripped, at its own index less the "Note:" lines
   * before it. With the count in `BodyLinesFacts`, this fixes `BodyLines`
   * completely: the other lines, in order, blank ones included.
   */
  lemma {:induction false} BodyLinePlace(body: seq<string>, i: nat)
    requires i < |body| && Strip(body[i]) != "Note:"
    ensures i - NoteLineCount(body[..i]) >= 0
    ensures i - NoteLineCount(body[..i]) < |BodyLines(body)|
    ensures BodyLines(body)[i - NoteLineCount(body[..i])] == Strip(body[i])
  {
    if i < |body| - 1 {
      var init := body[..|body| - 1];
      BodyLinePlace(init, i);
      BodyLineEarlier(body, i);
    } else {
      BodyLineLast(body);
    }
  }

  /** The last line, when it is not "Note:", is the last kept line. */
  lemma BodyLineLast(body: seq<string>)
    requires |body| > 0 && Strip(body[|body| - 1]) != "Note:"
    ensures var n := |body| - 1; 0 <= n - NoteLineCount(body[..n]) == |BodyLines(body)| - 1
    ensures var n := |body| - 1; BodyLines(body)[n - NoteLineCount(body[..n])] == Strip(body[n])
  {
    BodyLinesFacts(body[..|body| - 1]);
  }

  /** A line before the last keeps the place it had without the last line. */
  lemma BodyLineEarlier(body: seq<string>, i: nat)
    requires i < |body| - 1
    ensures body[..i] == body[..|body| - 1][..i] && body[i] == body[..|body| - 1][i]
    ensures var init := body[..|body| - 1]; BodyLines(body)[..|BodyLines(init)|] == BodyLines(init)
  {
  }

  /** Reading one more body line. */
  lemma BodySnoc(body: seq<string>, x: string)
    ensures BodyLines(body + [x]) == BodyLines(body) + if Strip(x) == "Note:" then [] else [Strip(x)]
    ensures NoteFound(body + [x]) == (NoteFound(body) || Strip(x) == "Note:")
  {
    assert (body + [x])[..|body|] == body;
  }

  /** Reading the body lines after `lines[start]` one more line further. */
  lemma BodyAt(lines: seq<string>, start: nat, i: nat)
    requires start < i < |lines|
    ensures BodyLines(lines[start + 1..i + 1])
         == BodyLines(lines[start + 1..i]) + if Strip(lines[i]) == "Note:" then [] else [Strip(lines[i])]
    ensures NoteFound(lines[start + 1..i + 1]) == (NoteFound(lines[start + 1..i]) || Strip(lines[i]) == "Note:")
  {
    assert lines[start + 1..i + 1] == lines[start + 1..i] + [lines[i]];
    BodySnoc(lines[start + 1..i], lines[i]);
  }

  /** A body grows by one line as long as the next line is not a marker. */
  lemma NoMarkerStep(lines: seq<string>, start: nat, i: nat, next: nat)
    requires start < i < |lines| && MatchLoc(Strip(lines[i])).None? && next == i + 1
    requires forall j :: start < j < i ==> !IsMarker(lines[j])
    ensures forall j :: start < j < next ==> !IsMarker(lines[j])
  {
  }

  /** The number of "Note:" lines in a body. */
  function NoteLineCount(body: seq<string>): nat {
    if |body| == 0 then 0
    else NoteLineCount(body[..|body| - 1]) + (if Strip(body[|body| - 1]) == "Note:" then 1 else 0)
  }

  /** `clean_content`: the joined body, stripped, with a trailing page number removed. */
  function CleanContent(text: string): string {
    RemovePageNumber(Strip(text))
  }

  /**
   * The text is stripped before the page number goes, so it never ends in a
   * newline: `$` then only matches at the very end.
   */
  lemma CleanContentDrops(text: string)
    ensures CleanContent(text) == DropPageNumber(Strip(text))
  {
    var t := Strip(text);
    StripFacts(text);
    if |t| > 0 {
      assert t[|t| - 1] != '\n' by { assert IsSpace('\n'); }
    }
  }

  // ---------------------------------------------------------------------
  // Entry lists

  /** The index of the last highlight entry, as the reverse scan finds it. */
  function LastHighlight(es: seq<Entry>): (m: Option<nat>)
    ensures m.Some? ==> m.value < |es| && es[m.value].Highlight?
  {
    if |es| == 0 then None
    else if es[|es| - 1].Highlight? then Some(|es| - 1)
    else LastHighlight(es[..|es| - 1])
  }

  /** No highlight comes after the last one; without one, there is no highlight at all. */
  lemma {:induction false} LastHighlightFacts(es: seq<Entry>)
    ensures LastHighlight(es).None? ==> forall i :: 0 <= i < |es| ==> !es[i].Highlight?
    ensures LastHighlight(es).Some? ==> forall i :: LastHighlight(es).value < i < |es| ==> !es[i].Highlight?
  {
    if |es| > 0 && !es[|es| - 1].Highlight? {
      var init := es[..|es| - 1];
      LastHighlightFacts(init);
      assert forall i :: 0 <= i < |init| ==> init[i] == es[i];
    }
  }

  /** A highlight followed only by notes is the last highlight ... */
  lemma {:induction false} LastHighlightIs(es: seq<Entry>, k: nat)
    requires k < |es| && es[k].Highlight? && forall i :: k < i < |es| ==> !es[i].Highlight?
    ensures LastHighlight(es) == Some(k)
  {
    if k < |es| - 1 {
      var init := es[..|es| - 1];
      assert forall i :: k < i < |init| ==> init[i] == es[i];
      LastHighlightIs(init, k);
    }
  }

  /** ... and a list of notes has none. */
  lemma {:induction false} LastHighlightNone(es: seq<Entry>)
    requires forall i :: 0 <= i < |es| ==> !es[i].Highlight?
    ensures LastHighlight(es) == None
  {
    if |es| > 0 {
      var init := es[..|es| - 1];
      assert forall i :: 0 <= i < |init| ==> init[i] == es[i];
      LastHighlightNone(init);
    }
  }

  /**
   * Two entry lists of the same length with a highlight at the same places
   * and the same notes: they differ at most in the highlight texts.
   */
  ghost predicate SameNotes(es: seq<Entry>, es': seq<Entry>) {
    && |es| == |es'|
    && forall i :: 0 <= i < |es| ==> es[i].Highlight? == es'[i].Highlight? && (es[i].Note? ==> es'[i] == es[i])
  }

  /**
   * `item['content'] += suffix` on the last highlight, if there is one: only
   * that highlight's text changes, and it changes by getting `suffix` at its end.
   */
  function ExtendLastHighlight(es: seq<Entry>, suffix: string): seq<Entry> {
    match LastHighlight(es)
    case None => es
    case Some(j) => es[j := Highlight(es[j].content + suffix)]
  }

  lemma ExtendLastHighlightFacts(es: seq<Entry>, suffix: string)
    ensures var r := ExtendLastHighlight(es, suffix);
      && SameNotes(es, r)
      && (forall i :: 0 <= i < |es| && r[i] != es[i] ==> LastHighlight(es) == Some(i))
      && (LastHighlight(es).Some? ==> var j := LastHighlight(es).value; r[j].content == es[j].content + suffix)
  {
    var m := LastHighlight(es);
    if m.Some? {
      var j := m.value;
      var r := es[j := Highlight(es[j].content + suffix)];
      assert ExtendLastHighlight(es, suffix) == r;
      forall i | 0 <= i < |es| ensures es[i].Highlight? == r[i].Highlight? && (es[i].Note? ==> r[i] == es[i]) {
        if i != j {
          assert r[i] == es[i];
        }
      }
    }
  }

  lemma {:induction false} SameNotesKeepsNotes(es: seq<Entry>, es': seq<Entry>)
    requires SameNotes(es, es')
    ensures NotePaths(es) == NotePaths(es') && |Highlights(es)| == |Highlights(es')|
  {
    if |es| > 0 {
      var n := |es| - 1;
      assert SameNotes(es[..n], es'[..n]);
      SameNotesKeepsNotes(es[..n], es'[..n]);
    }
  }

  lemma EntriesSnoc(es: seq<Entry>, e: Entry)
    ensures NotePaths(es + [e]) == NotePaths(es) + (if e.Note? then [e.imagePath] else [])
    ensures Highlights(es + [e]) == Highlights(es) + (if e.Highlight? then [e.content] else [])
  {
    assert (es + [e])[..|es|] == es;
  }

  /** The image paths of the note entries, in order. */
  function NotePaths(es: seq<Entry>): seq<string> {
    if |es| == 0 then []
    else if es[|es| - 1].Note? then NotePaths(es[..|es| - 1]) + [es[|es| - 1].imagePath]
    else NotePaths(es[..|es| - 1])
  }

  /** The highlight entries' contents, in order. */
  function Highlights(es: seq<Entry>): seq<string> {
    if |es| == 0 then []
    else if es[|es| - 1].Highlight? then Highlights(es[..|es| - 1]) + [es[|es| - 1].content]
    else Highlights(es[..|es| - 1])
  }

  /** The note image paths of a whole record, location by location. */
  function AllNotePaths(keys: seq<string>, at: map<string, seq<Entry>>): seq<string> {
    if |keys| == 0 then []
    else AllNotePaths(keys[..|keys| - 1], at) + NotePaths(Lookup(at, keys[|keys| - 1]))
  }

  /** The entries stored under `key`, or none. */
  function Lookup(at: map<string, seq<Entry>>, key: string): seq<Entry> {
    if key in at then at[key] else []
  }

  /** Entries stored under a key the list does not mention play no part. */
  lemma {:induction false} AllNotePathsIgnores(keys: seq<string>, at: map<string, seq<Entry>>, key: string, es: seq<Entry>)
    requires key !in keys
    ensures AllNotePaths(keys, at[key := es]) == AllNotePaths(keys, at)
  {
    if |keys| > 0 {
      AllNotePathsIgnores(keys[..|keys| - 1], at, key, es);
    }
  }

  /** Replacing one location's entries trades that location's note paths for the new ones. */
  lemma {:induction false} AllNotePathsUpdate(keys: seq<string>, at: map<string, seq<Entry>>, key: string, es: seq<Entry>)
    requires Distinct(keys) && key in keys && key in at
    ensures multiset(AllNotePaths(keys, at[key := es])) + multiset(NotePaths(at[key]))
         == multiset(AllNotePaths(keys, at)) + multiset(NotePaths(es))
  {
    var n := |keys| - 1;
    var init := keys[..n];
    if keys[n] == key {
      assert key !in init;
      AllNotePathsIgnores(init, at, key, es);
    } else {
      assert key in init && Distinct(init);
      AllNotePathsUpdate(init, at, key, es);
      assert Lookup(at[key := es], keys[n]) == Lookup(at, keys[n]);
      var last := NotePaths(Lookup(at, keys[n]));
      assert AllNotePaths(keys, at[key := es]) == AllNotePaths(init, at[key := es]) + last;
      assert AllNotePaths(keys, at) == AllNotePaths(init, at) + last;
      assert multiset(AllNotePaths(keys, at[key := es])) == multiset(AllNotePaths(init, at[key := es])) + multiset(last);
      assert multiset(AllNotePaths(keys, at)) == multiset(AllNotePaths(init, at)) + multiset(last);
      var i', i, pk, pe := multiset(AllNotePaths(init, at[key := es])), multiset(AllNotePaths(init, at)),
                           multiset(NotePaths(at[key])), multiset(NotePaths(es));
      assert i' + pk == i + pe;
      assert i' + multiset(last) + pk == i + multiset(last) + pe by {
        forall x
          ensures (i' + multiset(last) + pk)[x] == (i + multiset(last) + pe)[x]
        {
          assert (i' + pk)[x] == (i + pe)[x];
        }
      }
    }
  }

  function RecordNotePaths(r: Record): seq<string> {
    AllNotePaths(r.keys, r.at)
  }

  /** A new, empty location adds no note. */
  lemma EnsureKeyNotes(r: Record, key: string)
    requires WellFormed(r)
    ensures RecordNotePaths(EnsureKey(r, key)) == RecordNotePaths(r)
  {
    if key !in r.at {
      AllNotePathsIgnores(r.keys, r.at, key, []);
      assert AllNotePaths(r.keys + [key], r.at[key := []]) == AllNotePaths(r.keys, r.at[key := []]) + NotePaths(Lookup(r.at[key := []], key));
    }
  }

  /** Replacing a location's entries keeps the record's notes when the note list stays the same... */
  lemma SetEntriesSameNotes(r: Record, key: string, es: seq<Entry>)
    requires WellFormed(r) && key in r.at && NotePaths(es) == NotePaths(r.at[key])
    ensures multiset(RecordNotePaths(SetEntries(r, key, es))) == multiset(RecordNotePaths(r))
  {
    AllNotePathsUpdate(r.keys, r.at, key, es);
    MultisetCancel(multiset(RecordNotePaths(SetEntries(r, key, es))), multiset(RecordNotePaths(r)), multiset(NotePaths(es)));
  }

  /** ... and appending a note entry adds exactly its image path. */
  lemma AppendNoteNotes(r: Record, key: string, p: string)
    requires WellFormed(r) && key in r.at
    ensures multiset(RecordNotePaths(AppendEntry(r, key, Note(p)))) == multiset(RecordNotePaths(r)) + multiset{p}
  {
    var es := r.at[key] + [Note(p)];
    EntriesSnoc(r.at[key], Note(p));
    AllNotePathsUpdate(r.keys, r.at, key, es);
    assert RecordNotePaths(AppendEntry(r, key, Note(p))) == AllNotePaths(r.keys, r.at[key := es]);
    var a', a, n := multiset(AllNotePaths(r.keys, r.at[key := es])), multiset(AllNotePaths(r.keys, r.at)), multiset(NotePaths(r.at[key]));
    assert multiset(NotePaths(es)) == n + multiset{p};
    assert a' + n == (a + multiset{p}) + n;
    MultisetCancel(a', a + multiset{p}, n);
  }

  // ---------------------------------------------------------------------
  // The parser state shared by both versions: the record and the image cursor.

  datatype ParseState = ParseState(rec: Record, imageIndex: nat)

  function InitialState(): ParseState {
    ParseState(EmptyRecord(), 0)
  }

  /**
   * The record is well formed, the cursor never passes the end of the image
   * list, and the record's notes use exactly the images before the cursor,
   * each once.
   */
  ghost predicate StateOk(st: ParseState, images: seq<string>) {
    && WellFormed(st.rec)
    && st.imageIndex <= |images|
    && multiset(RecordNotePaths(st.rec)) == multiset(images[..st.imageIndex])
  }

  /**
   * `if image_index < len(image_paths): data[key].append(note); image_index += 1`:
   * a note takes the next unused image, or is dropped when none is left.
   */
  function AddNote(st: ParseState, key: string, images: seq<string>): ParseState
    requires key in st.rec.at
  {
    if st.imageIndex < |images| then
      ParseState(AppendEntry(st.rec, key, Note(images[st.imageIndex])), st.imageIndex + 1)
    else st
  }

  /**
   * The note branch of both parsers: append the next unused image of the
   * list to `key`'s entries, if one is left.
   */
  method TakeImage(data0: Record, imageIndex0: nat, key: string, images: seq<string>) returns (data: Record, imageIndex: nat)
    requires key in data0.at
    ensures ParseState(data, imageIndex) == AddNote(ParseState(data0, imageIndex0), key, images)
  {
    data, imageIndex := data0, imageIndex0;
    if imageIndex < |images| {
      data := Dict(data.keys, data.at[key := data.at[key] + [Note(images[imageIndex])]]);
      imageIndex := imageIndex + 1;
    }
  }

  /** Taking an image adds a note, never a highlight, at any location. */
  lemma AddNoteHighlights(st: ParseState, key: string, images: seq<string>, k: string)
    requires key in st.rec.at
    ensures Highlights(Lookup(AddNote(st, key, images).rec.at, k)) == Highlights(Lookup(st.rec.at, k))
  {
    if st.imageIndex < |images| && k == key {
      EntriesSnoc(st.rec.at[key], Note(images[st.imageIndex]));
    }
  }

  /** Taking the next image keeps the state consistent with the image list. */
  lemma AddNoteOk(st: ParseState, key: string, images: seq<string>)
    requires StateOk(st, images) && key in st.rec.at
    ensures StateOk(AddNote(st, key, images), images)
    ensures AddNote(st, key, images).imageIndex == if st.imageIndex < |images| then st.imageIndex + 1 else st.imageIndex
  {
    if st.imageIndex < |images| {
      var p := images[st.imageIndex];
      AppendNoteNotes(st.rec, key, p);
      SetEntriesOk(st.rec, key, st.rec.at[key] + [Note(p)]);
      assert images[..st.imageIndex + 1] == images[..st.imageIndex] + [p];
    }
  }
}
