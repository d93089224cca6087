/**
 * The selection logic of `NoteGenerator` in src/zettel/note_generator.py:
 * which items go into the literature note, and which ideas become permanent
 * notes, under which file names, with which content and links. Template
 * rendering, the date and the file writes are not modelled: a permanent
 * note is the path it is written to and the values the template is given.
 *
 * Every exception inside the outer `try` of both methods is re-raised as a
 * `ZettelkastenError`; here that is the `Err` outcome, carrying the class of
 * the exception that caused it.
 */
module NoteGenerator {
  import opened Wrappers
  import opened Text
  import opened Annotations
  import opened ImageDedup
  import opened PyValue

  // ---------------------------------------------------------------------
  // The literature filter

  /**
   * The condition of the comprehension for one item: a highlight, or a note
   * whose transcription is a summary. `.get` raises AttributeError on an
   * item, or a transcription, that is not a dict.
   */
  function Keep(item: Json): Result<bool, PyError> {
    if !item.JObj? then Err(AttributeError)
    else if Get(item.obj, "type") == JStr("highlight") then Ok(true)
    else if Get(item.obj, "type") != JStr("note") then Ok(false)
    else
      var transcription := GetOr(item.obj, "transcription", EmptyObject);
      if transcription.JObj? then Ok(Get(transcription.obj, "type") == JStr("summary"))
      else Err(AttributeError)
  }

  /** An item the filter keeps. */
  predicate Kept(item: Json) {
    Keep(item) == Ok(true)
  }

  /** The comprehension over a list of items, raising at the first item whose test raises. */
  function FilterItems(items: seq<Json>): Result<seq<Json>, PyError> {
    if |items| == 0 then Ok([])
    else
      match FilterItems(items[..|items| - 1])
      case Err(e) => Err(e)
      case Ok(kept) =>
        match Keep(items[|items| - 1])
        case Err(e) => Err(e)
        case Ok(b) => Ok(if b then kept + [items[|items| - 1]] else kept)
  }

  /** `[item for item in items if ...]` on the value stored under one location. */
  function FilteredItems(items: Json): Result<seq<Json>, PyError> {
    match Iterate(items)
    case Err(e) => Err(e)
    case Ok(xs) => FilterItems(xs)
  }

  /** Whether the comprehension leaves something for a location, which is then inserted. */
  function AddLocation(d: Dict<seq<Json>>, loc: string, fs: seq<Json>): Dict<seq<Json>> {
    if fs == [] then d else Dict(d.keys + [loc], d.at[loc := fs])
  }

  /** `filtered_data` after the locations `keys`, in order. */
  function Literature(keys: seq<string>, at: map<string, Json>): Result<Dict<seq<Json>>, PyError>
    requires forall k :: k in keys ==> k in at
  {
    if |keys| == 0 then Ok(Dict([], map[]))
    else
      match Literature(keys[..|keys| - 1], at)
      case Err(e) => Err(e)
      case Ok(d) =>
        match FilteredItems(at[keys[|keys| - 1]])
        case Err(e) => Err(e)
        case Ok(fs) => Ok(AddLocation(d, keys[|keys| - 1], fs))
  }

  /** The loop that builds `filtered_data` from `transcribed_data`, as `create_literature_note` does before rendering. */
  method LiteratureFilter(transcribed: Dict<Json>) returns (r: Result<Dict<seq<Json>>, PyError>)
    requires WellFormed(transcribed)
    ensures r == Literature(transcribed.keys, transcribed.at)
  {
    var filtered: Dict<seq<Json>> := Dict([], map[]);
    var i := 0;
    while i < |transcribed.keys|
      invariant 0 <= i <= |transcribed.keys|
      invariant Literature(transcribed.keys[..i], transcribed.at) == Ok(filtered)
    {
      var loc := transcribed.keys[i];
      var filteredItems := FilteredItems(transcribed.at[loc]);
      LiteratureAt(transcribed.keys, transcribed.at, i, i + 1);
      if filteredItems.Err? {
        LiteratureFails(transcribed.keys, transcribed.at, i + 1, filteredItems.error);
        return Err(filteredItems.error);
      }
      if filteredItems.value != [] {
        filtered := Dict(filtered.keys + [loc], filtered.at[loc := filteredItems.value]);
      }
      i := i + 1;
    }
    assert transcribed.keys[..i] == transcribed.keys;
    r := Ok(filtered);
  }

  /** One more location. */
  lemma LiteratureAt(keys: seq<string>, at: map<string, Json>, i: nat, next: nat)
    requires forall k :: k in keys ==> k in at
    requires i < |keys| && next == i + 1
    ensures Literature(keys[..next], at)
         == match Literature(keys[..i], at)
            case Err(e) => Err(e)
            case Ok(d) =>
              match FilteredItems(at[keys[i]])
              case Err(e) => Err(e)
              case Ok(fs) => Ok(AddLocation(d, keys[i], fs))
  {
    assert keys[..next][..i] == keys[..i];
  }

  /** An exception stops the filter, and the whole note fails with it. */
  lemma {:induction false} LiteratureFails(keys: seq<string>, at: map<string, Json>, i: nat, e: PyError)
    requires forall k :: k in keys ==> k in at
    requires i <= |keys| && Literature(keys[..i], at) == Err(e)
    ensures Literature(keys, at) == Err(e)
    decreases |keys| - i
  {
    if i < |keys| {
      LiteratureAt(keys, at, i, i + 1);
      LiteratureFails(keys, at, i + 1, e);
    } else {
      assert keys[..i] == keys;
    }
  }

  /** A highlight is kept, and so is a note whose transcription's type is "summary". */
  lemma KeepsHighlightsAndSummaries(item: Json)
    requires item.JObj?
    ensures Get(item.obj, "type") == JStr("highlight") ==> Kept(item)
    ensures (Get(item.obj, "type") == JStr("note") && "transcription" in item.obj.at
             && item.obj.at["transcription"].JObj? && Get(item.obj.at["transcription"].obj, "type") == JStr("summary"))
            ==> Kept(item)
  {
  }

  /**
   * A note without a transcription, or whose transcription has no type or
   * another type, is dropped; so is any item of another type.
   */
  lemma DropsTheRest(item: Json)
    requires item.JObj? && Get(item.obj, "type") != JStr("highlight")
    ensures Get(item.obj, "type") != JStr("note") ==> Keep(item) == Ok(false)
    ensures Get(item.obj, "type") == JStr("note") && "transcription" !in item.obj.at ==> Keep(item) == Ok(false)
    ensures (Get(item.obj, "type") == JStr("note") && "transcription" in item.obj.at && item.obj.at["transcription"].JObj?
             && Get(item.obj.at["transcription"].obj, "type") != JStr("summary")) ==> Keep(item) == Ok(false)
  {
  }

  /** The comprehension raises exactly when the test of one of the items raises. */
  lemma {:induction false} FilterItemsOk(items: seq<Json>)
    ensures FilterItems(items).Ok? <==> forall i :: 0 <= i < |items| ==> Keep(items[i]).Ok?
  {
    if |items| > 0 {
      var init := items[..|items| - 1];
      FilterItemsOk(init);
      assert forall i :: 0 <= i < |init| ==> init[i] == items[i];
    }
  }

  /** What the comprehension keeps: exactly the items the test accepts. */
  lemma {:induction false} FilterItemsMembers(items: seq<Json>)
    requires FilterItems(items).Ok?
    ensures forall x :: x in FilterItems(items).value <==> x in items && Kept(x)
    ensures |FilterItems(items).value| <= |items|
  {
    if |items| > 0 {
      var init := items[..|items| - 1];
      FilterItemsMembers(init);
      assert items == init + [items[|items| - 1]];
    }
  }

  /** The comprehension over two lists in a row keeps the first list's items, in order, before the second's. */
  lemma {:induction false} FilterItemsAppend(a: seq<Json>, b: seq<Json>)
    requires FilterItems(a).Ok? && FilterItems(b).Ok?
    ensures FilterItems(a + b) == Ok(FilterItems(a).value + FilterItems(b).value)
  {
    if |b| == 0 {
      assert a + b == a && FilterItems(a).value + [] == FilterItems(a).value;
    } else {
      var init, x := b[..|b| - 1], b[|b| - 1];
      assert (a + b)[..|a + b| - 1] == a + init && (a + b)[|a + b| - 1] == x;
      FilterItemsAppend(a, init);
      var fa, fi := FilterItems(a).value, FilterItems(init).value;
      assert (fa + fi) + [x] == fa + (fi + [x]);
    }
  }

  /** Filtering the kept items again keeps them all. */
  lemma {:induction false} FilterItemsIdempotent(items: seq<Json>)
    requires FilterItems(items).Ok?
    ensures FilterItems(FilterItems(items).value) == FilterItems(items)
  {
    if |items| > 0 {
      var init := items[..|items| - 1];
      var x := items[|items| - 1];
      FilterItemsIdempotent(init);
      var kept := FilterItems(init).value;
      if Kept(x) {
        assert (kept + [x])[..|kept|] == kept;
      }
    }
  }

  /** A location at least one of whose items survives the comprehension. */
  predicate Survives(items: Json) {
    FilteredItems(items).Ok? && FilteredItems(items).value != []
  }

  /** The locations among `keys` that survive, in the order of `keys`. */
  function Surviving(keys: seq<string>, at: map<string, Json>): seq<string>
    requires forall k :: k in keys ==> k in at
  {
    if |keys| == 0 then []
    else
      var init, loc := keys[..|keys| - 1], keys[|keys| - 1];
      if Survives(at[loc]) then Surviving(init, at) + [loc] else Surviving(init, at)
  }

  /**
   * The filtered map: its locations are the surviving locations of
   * `transcribed_data`, in their original order, each holding exactly its
   * surviving items.
   */
  lemma {:induction false} LiteratureFacts(keys: seq<string>, at: map<string, Json>)
    requires forall k :: k in keys ==> k in at
    requires Distinct(keys) && Literature(keys, at).Ok?
    ensures var d := Literature(keys, at).value;
      && WellFormed(d)
      && d.keys == Surviving(keys, at)
      && (forall k :: k in d.at <==> k in keys && Survives(at[k]))
      && (forall k :: k in d.at ==> d.at[k] == FilteredItems(at[k]).value)
  {
    if |keys| > 0 {
      var init, loc := keys[..|keys| - 1], keys[|keys| - 1];
      assert Distinct(init) by {
        assert forall i :: 0 <= i < |init| ==> init[i] == keys[i];
      }
      LiteratureFacts(init, at);
      assert loc !in init by {
        assert forall i :: 0 <= i < |init| ==> init[i] == keys[i];
      }
      assert forall k :: k in keys <==> k in init || k == loc by {
        assert keys == init + [loc];
      }
      var d0 := Literature(init, at).value;
      assert Literature(keys, at).value == AddLocation(d0, loc, FilteredItems(at[loc]).value);
      if Survives(at[loc]) {
        assert loc !in d0.keys;
        DistinctSnoc(d0.keys, loc);
      }
    }
  }

  lemma DistinctSnoc(xs: seq<string>, x: string)
    requires Distinct(xs) && x !in xs
    ensures Distinct(xs + [x])
  {
  }

  /** The filter raises exactly when the comprehension raises for some location. */
  lemma {:induction false} LiteratureOk(keys: seq<string>, at: map<string, Json>)
    requires forall k :: k in keys ==> k in at
    ensures Literature(keys, at).Ok? <==> forall i :: 0 <= i < |keys| ==> FilteredItems(at[keys[i]]).Ok?
  {
    if |keys| > 0 {
      var init := keys[..|keys| - 1];
      LiteratureOk(init, at);
      assert forall i :: 0 <= i < |init| ==> init[i] == keys[i];
    }
  }

  // ---------------------------------------------------------------------
  // The permanent notes

  /** One file written for an idea: its path, and the content and locations the template is given. */
  datatype PermanentNote = PermanentNote(path: string, content: Json, locations: seq<Json>)

  /** `f"idea_{i + 1:03d}.md"` for the idea at position `i` (from 0). */
  function IdeaFileName(i: nat): string {
    "idea_" + (ZeroPad3(i + 1) + ".md")
  }

  /** The number in an idea's file name is its 1-based position, so two positions never share a name. */
  lemma IdeaFileNamesDiffer(i: nat, j: nat)
    requires i != j
    ensures IdeaFileName(i) != IdeaFileName(j)
    ensures |IdeaFileName(i)| > 0 && IdeaFileName(i)[0] == 'i'
  {
    var a := IdeaFileNumber(i);
    var b := IdeaFileNumber(j);
    assert a != b;
  }

  /** The digits after `idea_` are the padded position, and they read back as the 1-based position. */
  lemma IdeaFileNumber(i: nat) returns (digits: string)
    ensures LeadingDigits(IdeaFileName(i)[5..]) == digits && AllDigits(digits) && DecimalValue(digits) == i + 1
  {
    digits := ZeroPad3(i + 1);
    assert IdeaFileName(i)[5..] == digits + ".md";
    LeadingDigitsOf(digits, ".md");
    ZeroPad3RoundTrip(i + 1);
  }

  /**
   * The item lookup and content choice inside the inner `try`: the item at
   * `transcribed_data[loc][idx]`, then `transcription.transcription` for a
   * note with a transcription, `content` for a highlight, and `None` for
   * anything else.
   */
  function IdeaContent(transcribed: Dict<Json>, loc: string, idx: int): Result<Json, PyError> {
    if loc !in transcribed.at then Err(KeyError)
    else
      match Index(transcribed.at[loc], idx)
      case Err(e) => Err(e)
      case Ok(item) =>
        if !item.JObj? then Err(AttributeError)
        else if Get(item.obj, "type") == JStr("note") && "transcription" in item.obj.at then
          var transcription := item.obj.at["transcription"];
          if transcription.JObj? then Ok(Get(transcription.obj, "transcription")) else Err(AttributeError)
        else if Get(item.obj, "type") == JStr("highlight") then Ok(Get(item.obj, "content"))
        else Ok(JNull)
  }

  /** The exceptions the inner `except` catches: the idea is skipped. */
  predicate Caught(e: PyError) {
    e == KeyError || e == IndexError || e == TypeError
  }

  /** `[link['ref_location'] for link in links]` over a list of links. */
  function RefLocations(links: seq<Json>): Result<seq<Json>, PyError> {
    if |links| == 0 then Ok([])
    else
      match RefLocations(links[..|links| - 1])
      case Err(e) => Err(e)
      case Ok(locs) =>
        match Subscript(links[|links| - 1], "ref_location")
        case Err(e) => Err(e)
        case Ok(l) => Ok(locs + [l])
  }

  /** The same comprehension over `idea.get('links', [])`, whatever its value. */
  function LinkedLocations(links: Json): Result<seq<Json>, PyError> {
    match Iterate(links)
    case Err(e) => Err(e)
    case Ok(xs) => RefLocations(xs)
  }

  /** What the loop does with one idea: write a note, skip it, or stop with an exception. */
  datatype IdeaOutcome = Write(note: PermanentNote) | Skip | Abort(error: PyError)

  /** The body of the loop for the idea at position `i`. */
  function Idea(idea: Json, i: nat, transcribed: Dict<Json>, outputDir: string, repr: Json -> string): IdeaOutcome {
    if !idea.JObj? then Abort(AttributeError)
    else
      var loc := PyStr(Get(idea.obj, "idea_location"), repr);
      match PyInt(Get(idea.obj, "idea_index"))
      case Err(e) => Abort(e)
      case Ok(idx) =>
        match IdeaContent(transcribed, loc, idx)
        case Err(e) => if Caught(e) then Skip else Abort(e)
        case Ok(content) =>
          if !Truthy(content) then Skip
          else
            match LinkedLocations(GetOr(idea.obj, "links", JArr([])))
            case Err(e) => Abort(e)
            case Ok(locs) => Write(PermanentNote(PathJoin(outputDir, IdeaFileName(i)), content, locs))
  }

  /** The notes written so far, and either the count the method logs at the end or the exception that stopped it. */
  datatype Generation = Generation(written: seq<PermanentNote>, outcome: Result<nat, PyError>)

  /** The loop's state after one more idea: a written note is counted, an exception ends the loop. */
  function Advance(g: Generation, step: IdeaOutcome): Generation {
    if g.outcome.Err? then g
    else
      match step
      case Write(note) => Generation(g.written + [note], Ok(g.outcome.value + 1))
      case Skip => g
      case Abort(e) => Generation(g.written, Err(e))
  }

  /** The loop over the ideas `ideas`, in order. */
  function Ideas(ideas: seq<Json>, transcribed: Dict<Json>, outputDir: string, repr: Json -> string): Generation {
    if |ideas| == 0 then Generation([], Ok(0))
    else Advance(Ideas(ideas[..|ideas| - 1], transcribed, outputDir, repr), Idea(ideas[|ideas| - 1], |ideas| - 1, transcribed, outputDir, repr))
  }

  /** `create_permanent_notes` from `organized_data.get('ideas', [])` on. */
  function PermanentNotes(organized: Json, transcribed: Dict<Json>, outputDir: string, repr: Json -> string): Generation {
    if !organized.JObj? then Generation([], Err(AttributeError))
    else
      var ideas := GetOr(organized.obj, "ideas", JArr([]));
      if !Truthy(ideas) then Generation([], Ok(0))
      else
        match Iterate(ideas)
        case Err(e) => Generation([], Err(e))
        case Ok(xs) => Ideas(xs, transcribed, outputDir, repr)
  }

  /**
   * `create_permanent_notes(organized_data, transcribed_data, output_dir, ...)`:
   * the notes it writes, in order, and the count it logs, or the exception
   * that ended it (the notes written before it stay written).
   */
  method CreatePermanentNotes(organized: Json, transcribed: Dict<Json>, outputDir: string, repr: Json -> string)
    returns (written: seq<PermanentNote>, outcome: Result<nat, PyError>)
    ensures Generation(written, outcome) == PermanentNotes(organized, transcribed, outputDir, repr)
  {
    if !organized.JObj? {
      return [], Err(AttributeError);
    }
    var ideas := GetOr(organized.obj, "ideas", JArr([]));
    if !Truthy(ideas) {
      return [], Ok(0);
    }
    var ideaList := Iterate(ideas);
    if ideaList.Err? {
      return [], Err(ideaList.error);
    }
    written, outcome := GenerateNotes(ideaList.value, transcribed, outputDir, repr);
  }

  /** The loop over the ideas, with `notes_generated_count`. */
  method GenerateNotes(ideas: seq<Json>, transcribed: Dict<Json>, outputDir: string, repr: Json -> string)
    returns (written: seq<PermanentNote>, outcome: Result<nat, PyError>)
    ensures Generation(written, outcome) == Ideas(ideas, transcribed, outputDir, repr)
  {
    written := [];
    var notesGeneratedCount := 0;
    var i := 0;
    while i < |ideas|
      invariant 0 <= i <= |ideas|
      invariant Ideas(ideas[..i], transcribed, outputDir, repr) == Generation(written, Ok(notesGeneratedCount))
    {
      var step := GenerateNote(ideas[i], i, transcribed, outputDir, repr);
      IdeasAt(ideas, i, i + 1, transcribed, outputDir, repr);
      if step.Abort? {
        IdeasStop(ideas, i + 1, transcribed, outputDir, repr);
        return written, Err(step.error);
      }
      written, notesGeneratedCount := Tally(written, notesGeneratedCount, step);
      i := i + 1;
    }
    assert ideas[..i] == ideas;
    outcome := Ok(notesGeneratedCount);
  }

  /** The end of the loop body: a written note is kept and counted, a skipped idea leaves both as they were. */
  method Tally(written0: seq<PermanentNote>, count0: nat, step: IdeaOutcome) returns (written: seq<PermanentNote>, count: nat)
    requires !step.Abort?
    ensures Generation(written, Ok(count)) == Advance(Generation(written0, Ok(count0)), step)
  {
    written, count := written0, count0;
    if step.Write? {
      count := count + 1;
      written := written + [step.note];
    }
  }

  /** One pass of the loop body for the idea at position `i`. */
  method GenerateNote(idea: Json, i: nat, transcribed: Dict<Json>, outputDir: string, repr: Json -> string)
    returns (step: IdeaOutcome)
    ensures step == Idea(idea, i, transcribed, outputDir, repr)
  {
    if !idea.JObj? {
      return Abort(AttributeError);
    }
    var ideaLoc := PyStr(Get(idea.obj, "idea_location"), repr);
    var ideaIdx := PyInt(Get(idea.obj, "idea_index"));
    if ideaIdx.Err? {
      return Abort(ideaIdx.error);
    }
    var found := IdeaContent(transcribed, ideaLoc, ideaIdx.value);
    if found.Err? {
      if Caught(found.error) {
        return Skip;
      }
      return Abort(found.error);
    }
    var ideaContent := found.value;
    if !Truthy(ideaContent) {
      return Skip;
    }
    var linkedLocations := LinkedLocations(GetOr(idea.obj, "links", JArr([])));
    if linkedLocations.Err? {
      return Abort(linkedLocations.error);
    }
    var filename := IdeaFileName(i);
    var filepath := PathJoin(outputDir, filename);
    step := Write(PermanentNote(filepath, ideaContent, linkedLocations.value));
  }

  /** One more idea. */
  lemma IdeasAt(ideas: seq<Json>, i: nat, next: nat, transcribed: Dict<Json>, outputDir: string, repr: Json -> string)
    requires i < |ideas| && next == i + 1
    ensures Ideas(ideas[..next], transcribed, outputDir, repr)
         == Advance(Ideas(ideas[..i], transcribed, outputDir, repr), Idea(ideas[i], i, transcribed, outputDir, repr))
  {
    assert ideas[..next][..i] == ideas[..i];
  }

  /** After an exception, no later idea is looked at. */
  lemma {:induction false} IdeasStop(ideas: seq<Json>, i: nat, transcribed: Dict<Json>, outputDir: string, repr: Json -> string)
    requires i <= |ideas| && Ideas(ideas[..i], transcribed, outputDir, repr).outcome.Err?
    ensures Ideas(ideas, transcribed, outputDir, repr) == Ideas(ideas[..i], transcribed, outputDir, repr)
    decreases |ideas| - i
  {
    if i < |ideas| {
      IdeasAt(ideas, i, i + 1, transcribed, outputDir, repr);
      IdeasStop(ideas, i + 1, transcribed, outputDir, repr);
    } else {
      assert ideas[..i] == ideas;
    }
  }

  /** The idea names an item whose content is non-empty: the condition under which `notes_generated_count` grows. */
  predicate Resolves(idea: Json, transcribed: Dict<Json>, repr: Json -> string) {
    && idea.JObj?
    && PyInt(Get(idea.obj, "idea_index")).Ok?
    && var content := IdeaContent(transcribed, PyStr(Get(idea.obj, "idea_location"), repr), PyInt(Get(idea.obj, "idea_index")).value);
       content.Ok? && Truthy(content.value)
  }

  /** The content an idea resolves to. */
  function ResolvedContent(idea: Json, transcribed: Dict<Json>, repr: Json -> string): Json
    requires Resolves(idea, transcribed, repr)
  {
    IdeaContent(transcribed, PyStr(Get(idea.obj, "idea_location"), repr), PyInt(Get(idea.obj, "idea_index")).value).value
  }

  /** The positions (from 0) of the ideas among `ideas` that resolve. */
  function ResolvedPositions(ideas: seq<Json>, transcribed: Dict<Json>, repr: Json -> string): (positions: seq<nat>)
    ensures |positions| <= |ideas|
    ensures forall k :: 0 <= k < |positions| ==> positions[k] < |ideas|
  {
    if |ideas| == 0 then []
    else
      var init := ResolvedPositions(ideas[..|ideas| - 1], transcribed, repr);
      if Resolves(ideas[|ideas| - 1], transcribed, repr) then init + [|ideas| - 1] else init
  }

  /**
   * When the loop body does not raise, it writes a note exactly when the
   * idea resolves, to `idea_<position + 1>.md` in the output directory, with
   * the resolved content and the linked locations.
   */
  lemma IdeaWrites(idea: Json, i: nat, transcribed: Dict<Json>, outputDir: string, repr: Json -> string)
    requires !Idea(idea, i, transcribed, outputDir, repr).Abort?
    ensures Idea(idea, i, transcribed, outputDir, repr).Write? <==> Resolves(idea, transcribed, repr)
    ensures Idea(idea, i, transcribed, outputDir, repr).Write? ==>
      var note := Idea(idea, i, transcribed, outputDir, repr).note;
      && note.path == PathJoin(outputDir, IdeaFileName(i))
      && note.content == ResolvedContent(idea, transcribed, repr)
      && LinkedLocations(GetOr(idea.obj, "links", JArr([]))) == Ok(note.locations)
  {
  }

  /** An idea whose location is not in `transcribed_data` is skipped. */
  lemma MissingLocationSkips(idea: Json, i: nat, transcribed: Dict<Json>, outputDir: string, repr: Json -> string)
    requires idea.JObj? && PyInt(Get(idea.obj, "idea_index")).Ok?
    requires PyStr(Get(idea.obj, "idea_location"), repr) !in transcribed.at
    ensures Idea(idea, i, transcribed, outputDir, repr) == Skip
  {
  }

  /** So is an idea whose index is outside its location's list of items, counting from either end. */
  lemma OutOfRangeSkips(idea: Json, i: nat, transcribed: Dict<Json>, outputDir: string, repr: Json -> string, items: seq<Json>)
    requires idea.JObj? && PyInt(Get(idea.obj, "idea_index")).Ok?
    requires var loc := PyStr(Get(idea.obj, "idea_location"), repr);
      loc in transcribed.at && transcribed.at[loc] == JArr(items)
    requires var idx := PyInt(Get(idea.obj, "idea_index")).value; idx < -|items| || idx >= |items|
    ensures Idea(idea, i, transcribed, outputDir, repr) == Skip
  {
  }

  /** And so is an idea whose item has empty or absent content. */
  lemma EmptyContentSkips(idea: Json, i: nat, transcribed: Dict<Json>, outputDir: string, repr: Json -> string)
    requires idea.JObj? && PyInt(Get(idea.obj, "idea_index")).Ok?
    requires var content := IdeaContent(transcribed, PyStr(Get(idea.obj, "idea_location"), repr), PyInt(Get(idea.obj, "idea_index")).value);
      content.Ok? && !Truthy(content.value)
    ensures Idea(idea, i, transcribed, outputDir, repr) == Skip
  {
  }

  /** A skipped idea leaves a gap in the numbering: after a skipped first idea, the one note written is `idea_002.md`. */
  lemma SkipLeavesGap(a: Json, b: Json, transcribed: Dict<Json>, outputDir: string, repr: Json -> string)
    requires Idea(a, 0, transcribed, outputDir, repr) == Skip && Idea(b, 1, transcribed, outputDir, repr).Write?
    ensures Ideas([a, b], transcribed, outputDir, repr) == Generation([Idea(b, 1, transcribed, outputDir, repr).note], Ok(1))
    ensures Idea(b, 1, transcribed, outputDir, repr).note.path == PathJoin(outputDir, "idea_002.md")
  {
    assert [a, b][..1] == [a] && [a][..0] == [];
    assert Ideas([a], transcribed, outputDir, repr) == Advance(Generation([], Ok(0)), Skip) == Generation([], Ok(0));
    assert Ideas([a, b], transcribed, outputDir, repr) == Advance(Generation([], Ok(0)), Idea(b, 1, transcribed, outputDir, repr));
    IdeaWrites(b, 1, transcribed, outputDir, repr);
    SecondIdeaFile();
  }

  lemma SecondIdeaFile()
    ensures IdeaFileName(1) == "idea_002.md"
  {
    ZeroPad3Digits(2);
  }

  /** An idea naming a highlight takes its `content`, and one naming a transcribed note takes the transcription's text. */
  lemma ContentSources(transcribed: Dict<Json>, loc: string, items: seq<Json>, idx: nat, item: Dict<Json>)
    requires loc in transcribed.at && transcribed.at[loc] == JArr(items) && idx < |items| && items[idx] == JObj(item)
    ensures Get(item, "type") == JStr("highlight") ==> IdeaContent(transcribed, loc, idx) == Ok(Get(item, "content"))
    ensures Get(item, "type") == JStr("note") && "transcription" in item.at && item.at["transcription"].JObj?
            ==> IdeaContent(transcribed, loc, idx) == Ok(Get(item.at["transcription"].obj, "transcription"))
    ensures Get(item, "type") != JStr("highlight") && Get(item, "type") != JStr("note") ==> IdeaContent(transcribed, loc, idx) == Ok(JNull)
    ensures Get(item, "type") == JStr("note") && "transcription" !in item.at ==> IdeaContent(transcribed, loc, idx) == Ok(JNull)
  {
  }

  /** With `ideas` missing or false (empty, null, zero, ...), no note is written and nothing fails. */
  lemma NoIdeasNoNotes(organized: Dict<Json>, transcribed: Dict<Json>, outputDir: string, repr: Json -> string)
    requires !Truthy(GetOr(organized, "ideas", JArr([])))
    ensures PermanentNotes(JObj(organized), transcribed, outputDir, repr) == Generation([], Ok(0))
  {
  }

  /**
   * A run that does not raise writes one note per resolving idea, in order,
   * the note the loop body makes from that idea, and logs the number of notes.
   */
  lemma {:induction false} GenerationFacts(ideas: seq<Json>, transcribed: Dict<Json>, outputDir: string, repr: Json -> string)
    requires Ideas(ideas, transcribed, outputDir, repr).outcome.Ok?
    ensures var g := Ideas(ideas, transcribed, outputDir, repr);
      var positions := ResolvedPositions(ideas, transcribed, repr);
      && g.outcome.value == |g.written| == |positions|
      && (forall k :: 0 <= k < |g.written| ==> Idea(ideas[positions[k]], positions[k], transcribed, outputDir, repr) == Write(g.written[k]))
  {
    if |ideas| > 0 {
      var n := |ideas| - 1;
      var init := ideas[..n];
      var g0 := Ideas(init, transcribed, outputDir, repr);
      var p0 := ResolvedPositions(init, transcribed, repr);
      var step := Idea(ideas[n], n, transcribed, outputDir, repr);
      assert Ideas(ideas, transcribed, outputDir, repr) == Advance(g0, step);
      assert g0.outcome.Ok? && !step.Abort?;
      GenerationFacts(init, transcribed, outputDir, repr);
      IdeaWrites(ideas[n], n, transcribed, outputDir, repr);
      var g := Ideas(ideas, transcribed, outputDir, repr);
      var positions := ResolvedPositions(ideas, transcribed, repr);
      if step.Write? {
        assert positions == p0 + [n];
        assert g.written == g0.written + [step.note];
      } else {
        assert positions == p0;
        assert g.written == g0.written;
      }
      forall k | 0 <= k < |g.written|
        ensures Idea(ideas[positions[k]], positions[k], transcribed, outputDir, repr) == Write(g.written[k])
      {
        if k < |g0.written| {
          assert g.written[k] == g0.written[k] && positions[k] == p0[k];
          assert ideas[p0[k]] == init[p0[k]];
        }
      }
    }
  }

  /** So the k-th note written goes to `idea_<p + 1>.md` for the position p of the k-th resolving idea, with that idea's content. */
  lemma GeneratedNotes(ideas: seq<Json>, transcribed: Dict<Json>, outputDir: string, repr: Json -> string, k: nat)
    requires Ideas(ideas, transcribed, outputDir, repr).outcome.Ok?
    requires k < |Ideas(ideas, transcribed, outputDir, repr).written|
    ensures var note := Ideas(ideas, transcribed, outputDir, repr).written[k];
      var positions := ResolvedPositions(ideas, transcribed, repr);
      && k < |positions|
      && note.path == PathJoin(outputDir, IdeaFileName(positions[k]))
      && Resolves(ideas[positions[k]], transcribed, repr)
      && note.content == ResolvedContent(ideas[positions[k]], transcribed, repr)
  {
    GenerationFacts(ideas, transcribed, outputDir, repr);
    var positions := ResolvedPositions(ideas, transcribed, repr);
    IdeaWrites(ideas[positions[k]], positions[k], transcribed, outputDir, repr);
  }

  /** In a run that does not raise, no idea raised. */
  lemma {:induction false} GenerationNoAbort(ideas: seq<Json>, transcribed: Dict<Json>, outputDir: string, repr: Json -> string)
    requires Ideas(ideas, transcribed, outputDir, repr).outcome.Ok?
    ensures forall i :: 0 <= i < |ideas| ==> !Idea(ideas[i], i, transcribed, outputDir, repr).Abort?
  {
    if |ideas| > 0 {
      var n := |ideas| - 1;
      var init := ideas[..n];
      assert Ideas(init, transcribed, outputDir, repr).outcome.Ok?;
      GenerationNoAbort(init, transcribed, outputDir, repr);
      assert forall i :: 0 <= i < n ==> init[i] == ideas[i];
    }
  }

  ghost predicate Increasing(xs: seq<nat>) {
    forall k, l :: 0 <= k < l < |xs| ==> xs[k] < xs[l]
  }

  /** The resolving positions are increasing. */
  lemma {:induction false} ResolvedPositionsIncrease(ideas: seq<Json>, transcribed: Dict<Json>, repr: Json -> string)
    ensures Increasing(ResolvedPositions(ideas, transcribed, repr))
  {
    if |ideas| > 0 {
      var n := |ideas| - 1;
      ResolvedPositionsIncrease(ideas[..n], transcribed, repr);
      var p0 := ResolvedPositions(ideas[..n], transcribed, repr);
      if Resolves(ideas[n], transcribed, repr) {
        var positions := p0 + [n];
        assert ResolvedPositions(ideas, transcribed, repr) == positions;
        assert forall k :: 0 <= k < |p0| ==> p0[k] < n;
        forall k, l | 0 <= k < l < |positions|
          ensures positions[k] < positions[l]
        {
          assert positions[k] == p0[k] < n;
          if l < |p0| {
            assert positions[l] == p0[l];
            assert p0[k] < p0[l];
          } else {
            assert positions[l] == n;
          }
        }
      }
    }
  }

  /** The resolving positions name exactly the ideas that resolve. */
  lemma {:induction false} ResolvedPositionsMembers(ideas: seq<Json>, transcribed: Dict<Json>, repr: Json -> string)
    ensures forall i :: i in ResolvedPositions(ideas, transcribed, repr) <==> 0 <= i < |ideas| && Resolves(ideas[i], transcribed, repr)
  {
    if |ideas| > 0 {
      var n := |ideas| - 1;
      var init := ideas[..n];
      ResolvedPositionsMembers(init, transcribed, repr);
      var p0 := ResolvedPositions(init, transcribed, repr);
      var p := ResolvedPositions(ideas, transcribed, repr);
      assert p == if Resolves(ideas[n], transcribed, repr) then p0 + [n] else p0;
      forall i
        ensures i in p <==> 0 <= i < |ideas| && Resolves(ideas[i], transcribed, repr)
      {
        if 0 <= i < n {
          assert init[i] == ideas[i];
        }
        assert i in p <==> i in p0 || (i == n && Resolves(ideas[n], transcribed, repr));
      }
    }
  }

  /** No two notes of a run are written to the same file. */
  lemma WrittenPathsDistinct(ideas: seq<Json>, transcribed: Dict<Json>, outputDir: string, repr: Json -> string)
    requires Ideas(ideas, transcribed, outputDir, repr).outcome.Ok?
    ensures var written := Ideas(ideas, transcribed, outputDir, repr).written;
      forall k, l :: 0 <= k < l < |written| ==> written[k].path != written[l].path
  {
    var written := Ideas(ideas, transcribed, outputDir, repr).written;
    var positions := ResolvedPositions(ideas, transcribed, repr);
    GenerationFacts(ideas, transcribed, outputDir, repr);
    ResolvedPositionsIncrease(ideas, transcribed, repr);
    forall k, l | 0 <= k < l < |written|
      ensures written[k].path != written[l].path
    {
      GeneratedNotes(ideas, transcribed, outputDir, repr, k);
      GeneratedNotes(ideas, transcribed, outputDir, repr, l);
      IdeaFileNamesDiffer(positions[k], positions[l]);
      IdeaFileNamesDiffer(positions[l], positions[k]);
      PathJoinInjective(outputDir, IdeaFileName(positions[k]), IdeaFileName(positions[l]));
    }
  }

  /** The linked locations are the links' `ref_location` values, one per link, in link order. */
  lemma {:induction false} RefLocationsFacts(links: seq<Json>)
    ensures RefLocations(links).Ok? <==> forall k :: 0 <= k < |links| ==> links[k].JObj? && "ref_location" in links[k].obj.at
    ensures RefLocations(links).Ok? ==>
      && |RefLocations(links).value| == |links|
      && forall k :: 0 <= k < |links| ==> RefLocations(links).value[k] == links[k].obj.at["ref_location"]
  {
    if |links| > 0 {
      var init := links[..|links| - 1];
      RefLocationsFacts(init);
      assert forall k :: 0 <= k < |init| ==> init[k] == links[k];
    }
  }
}
