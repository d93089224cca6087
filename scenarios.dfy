/**
 * Worked examples of the marker state machine of `_create_structured_data`:
 * generic scenario lemmas over any lines of the right shape, and one concrete
 * document with a continued highlight.
 */
module Scenarios {
  import opened Wrappers
  import opened Text
  import opened Annotations
  import opened PdfParser

  lemma NotContains(s: string, t: string)
    requires |t| > 0 && forall i :: 0 <= i < |s| ==> s[i] != t[0]
    ensures !Contains(s, t)
  {
    forall i | 0 <= i <= |s| - |t|
      ensures !StartsWith(s[i..], t)
    {
      assert s[i..][0] == s[i];
    }
    ContainsFacts(s, t);
  }

  lemma LocFive(s: string)
    requires |s| > 6 && s[..6] == "Loc 5 " && !IsSpace(s[|s| - 1])
    ensures IsMarker(s) && MarkerKey(s) == "5"
  {
    StripKeeps(s);
    assert s[..4] == "Loc " && IsDigit(s[4]);
    assert s[4..][0] == '5' && s[4..][1] == ' ';
    assert s[4..][1..][0] == ' ';
    assert LeadingDigits(s[4..][1..]) == [];
    assert LeadingDigits(s[4..]) == "5";
  }

  lemma FooBody() ensures !IsMarker("foo") && Content(["foo"]) == "foo" && !NoteFound(["foo"])
  {
    StripKeeps("foo");
    assert BodyLines(["foo"]) == ["foo"];
    assert TrailingDigits("foo") == 0;
  }

  lemma BarBodyLines() ensures !IsMarker("bar 12") && BodyLines(["bar 12"]) == ["bar 12"] && !NoteFound(["bar 12"])
  {
    StripKeeps("bar 12");
  }

  lemma BarDropsPage() ensures DropPageNumber("bar 12") == "bar"
  {
    var s := "bar 12";
    assert s[..5] == "bar 1" && s[..5][..4] == "bar ";
    assert TrailingDigits("bar ") == 0;
    assert TrailingDigits("bar 1") == 1;
    assert TrailingDigits(s) == 2;
    assert SpacesBefore(s, 3) == 0;
    assert SpacesBefore(s, 4) == 1;
    assert s[..3] == "bar";
  }

  lemma BarBody() ensures !IsMarker("bar 12") && Content(["bar 12"]) == "bar" && !NoteFound(["bar 12"])
  {
    BarBodyLines();
    BarDropsPage();
    StripKeeps("bar 12");
  }

  lemma PlainStep(st: ParseState, marker: string, body: seq<string>, images: seq<string>)
    requires IsMarker(marker) && IsHighlightMarker(marker) && !IsContinued(marker) && !WantsNote(marker, body)
    ensures var key := MarkerKey(marker); var r := EnsureKey(st.rec, key);
      Segment(st, marker, body, images) == ParseState(AppendEntry(r, key, Highlight(Content(body))), st.imageIndex)
  {
  }

  lemma ContinuedStep(st: ParseState, marker: string, body: seq<string>, images: seq<string>)
    requires IsMarker(marker) && IsHighlightMarker(marker) && IsContinued(marker) && !WantsNote(marker, body)
    ensures var key := MarkerKey(marker); var r := EnsureKey(st.rec, key);
      Segment(st, marker, body, images) == ParseState(SetEntries(r, key, ExtendLastHighlight(r.at[key], " " + Content(body))), st.imageIndex)
  {
  }

  /** One plain highlight segment on its own. */
  lemma FirstSegment(m0: string, b0: string, images: seq<string>)
    requires IsMarker(m0) && IsHighlightMarker(m0) && !IsContinued(m0) && !WantsNote(m0, [b0]) && !IsMarker(b0)
    ensures var st := Parse([m0, b0], images);
      && st.rec.keys == [MarkerKey(m0)] && MarkerKey(m0) in st.rec.at
      && st.rec.at[MarkerKey(m0)] == [Highlight(Content([b0]))] && st.imageIndex == 0
  {
    var L := [m0, b0];
    LastMarkerIs(L, 0);
    assert L[..0] == [] && L[1..] == [b0];
    ParseUnfold(L, images, 0);
    PlainStep(InitialState(), m0, [b0], images);
  }

  /** A continued highlight whose location holds exactly one highlight extends it. */
  lemma ContinueOne(st0: ParseState, m1: string, b1: string, images: seq<string>, c0: string)
    requires IsMarker(m1) && IsHighlightMarker(m1) && IsContinued(m1) && !WantsNote(m1, [b1])
    requires st0.rec.keys == [MarkerKey(m1)] && MarkerKey(m1) in st0.rec.at
    requires st0.rec.at[MarkerKey(m1)] == [Highlight(c0)] && st0.imageIndex == 0
    ensures var st := Segment(st0, m1, [b1], images);
      && st.rec.keys == [MarkerKey(m1)] && MarkerKey(m1) in st.rec.at
      && st.rec.at[MarkerKey(m1)] == [Highlight(c0 + " " + Content([b1]))] && st.imageIndex == 0
  {
    var key := MarkerKey(m1);
    ContinuedStep(st0, m1, [b1], images);
    assert EnsureKey(st0.rec, key) == st0.rec;
    var sfx := " " + Content([b1]);
    var r := ExtendLastHighlight([Highlight(c0)], sfx);
    assert LastHighlight([Highlight(c0)]) == Some(0);
    assert |r| == 1 && r[0].Highlight? && r[0].content == c0 + sfx;
    assert c0 + sfx == c0 + " " + Content([b1]);
    assert r == [Highlight(c0 + " " + Content([b1]))];
  }

  /**
   * A highlight at some location followed by a continued highlight at the
   * same location, neither asking for a note: one highlight, with the
   * continuation's text appended after a blank.
   */
  lemma MergeScenario(m0: string, b0: string, m1: string, b1: string, images: seq<string>)
    requires IsMarker(m0) && IsHighlightMarker(m0) && !IsContinued(m0) && !WantsNote(m0, [b0]) && !IsMarker(b0)
    requires IsMarker(m1) && IsHighlightMarker(m1) && IsContinued(m1) && !WantsNote(m1, [b1]) && !IsMarker(b1)
    requires MarkerKey(m1) == MarkerKey(m0)
    ensures var st := Parse([m0, b0, m1, b1], images);
      && st.rec.keys == [MarkerKey(m0)] && MarkerKey(m0) in st.rec.at
      && st.rec.at[MarkerKey(m0)] == [Highlight(Content([b0]) + " " + Content([b1]))]
      && st.imageIndex == 0
  {
    var L := [m0, b0, m1, b1];
    LastMarkerIs(L, 2);
    assert L[..2] == [m0, b0] && L[3..] == [b1];
    ParseUnfold(L, images, 2);
    FirstSegment(m0, b0, images);
    ContinueOne(Parse([m0, b0], images), m1, b1, images, Content([b0]));
  }

  /** A fact about the example's two marker lines only: both carry location 5. */
  lemma MarkerFive(m: string)
    requires m == "Loc 5 | Highlight" || m == "Loc 5 | Highlight Continued"
    ensures IsMarker(m) && MarkerKey(m) == "5"
  {
    LocFive(m);
  }

  /** A fact about the example's two marker lines only: both are highlights. */
  lemma BothHighlights(m0: string, m1: string)
    requires m0 == "Loc 5 | Highlight" && m1 == "Loc 5 | Highlight Continued"
    ensures IsHighlightMarker(m0) && IsHighlightMarker(m1)
  {
    StripKeeps(m0);
    ContainsAt(m0, "Highlight", 8);
    StripKeeps(m1);
    ContainsAt(m1, "Highlight", 8);
  }

  /** A fact about the example's two marker lines only: neither mentions a note. */
  lemma NeitherNote(m0: string, m1: string)
    requires m0 == "Loc 5 | Highlight" && m1 == "Loc 5 | Highlight Continued"
    ensures !Contains(Strip(m0), "Note") && !Contains(Strip(m1), "Note")
  {
    StripKeeps(m0);
    NotContains(m0, "Note");
    StripKeeps(m1);
    NotContains(m1, "Note");
  }

  /** A fact about the example's two marker lines only: the second continues the previous highlight, the first does not. */
  lemma ContinuedOnlySecond(m0: string, m1: string)
    requires m0 == "Loc 5 | Highlight" && m1 == "Loc 5 | Highlight Continued"
    ensures !IsContinued(m0) && IsContinued(m1)
  {
    StripKeeps(m0);
    NotContains(m0, "Continued");
    StripKeeps(m1);
    ContainsAt(m1, "Continued", 18);
  }

  lemma ContinuationExampleFacts(m0: string, b0: string, m1: string, b1: string)
    requires m0 == "Loc 5 | Highlight" && b0 == "foo" && m1 == "Loc 5 | Highlight Continued" && b1 == "bar 12"
    ensures IsMarker(m0) && IsHighlightMarker(m0) && !IsContinued(m0) && !WantsNote(m0, [b0]) && !IsMarker(b0)
    ensures IsMarker(m1) && IsHighlightMarker(m1) && IsContinued(m1) && !WantsNote(m1, [b1]) && !IsMarker(b1)
    ensures MarkerKey(m0) == "5" && MarkerKey(m1) == "5" && Content([b0]) == "foo" && Content([b1]) == "bar"
  {
    MarkerFive(m0);
    MarkerFive(m1);
    BothHighlights(m0, m1);
    NeitherNote(m0, m1);
    ContinuedOnlySecond(m0, m1);
    FooBody(); BarBody();
  }

  lemma JoinFooBar(a: string, b: string)
    requires a == "foo" && b == "bar"
    ensures a + " " + b == "foo bar"
  {
  }

  /** The continuation example: "foo" and the unnumbered "bar" become one highlight. */
  lemma ContinuationExample(m0: string, b0: string, m1: string, b1: string)
    requires m0 == "Loc 5 | Highlight" && b0 == "foo" && m1 == "Loc 5 | Highlight Continued" && b1 == "bar 12"
    ensures var st := Parse([m0, b0, m1, b1], []);
      st.rec.keys == ["5"] && "5" in st.rec.at && st.rec.at["5"] == [Highlight("foo bar")]
  {
    ContinuationExampleFacts(m0, b0, m1, b1);
    MergeScenario(m0, b0, m1, b1, []);
    var st := Parse([m0, b0, m1, b1], []);
    var k := MarkerKey(m0);
    assert st.rec.at[k] == [Highlight(Content([b0]) + " " + Content([b1]))];
    JoinFooBar(Content([b0]), Content([b1]));
  }
}
