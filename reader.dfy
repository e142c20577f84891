/** The request handler `index()`: it checks the `start` and `end` query
    arguments against the catalog, picks the inclusive range of chapters
    between them, and assembles the reading text. Paragraph extraction from a
    chapter's .docx file is the parameter `paras`: the paragraphs a file holds
    at the time of the request. */
module Reader {
  import opened Text
  import opened Catalog

  /** A query argument: `request.args.get(name)` is None when it is absent. */
  datatype Option<T> = None | Some(value: T)

  /** The message shown in place of text when the range is inverted:
      "\U{26A0}\U{FE0F} Invalid range: 'From' must come before 'To'.", written
      in short pieces so that the verifier can look at its characters. */
  const Warning: string :=
    "\U{26A0}\U{FE0F} Invalid" + " range: " + "'From' must" + " come before" + " 'To'."

  /** What opens and what closes every chapter heading. */
  const HeadingOpen: string := "\n\n----- "
  const HeadingClose: string := " -----\n\n"

  /** Python's truth value of an optional string: present and not empty. */
  predicate Truthy(arg: Option<string>) {
    arg.Some? && arg.value != ""
  }

  /** `chapters.index(x)`: the first position holding `x`. The handler only
      calls it after `x in chapters` held. */
  function IndexOf(chapters: seq<string>, x: string): (i: nat)
    requires x in chapters
    ensures i < |chapters| && chapters[i] == x
    ensures forall k :: 0 <= k < i ==> chapters[k] != x
    decreases |chapters|
  {
    if chapters[0] == x then 0 else 1 + IndexOf(chapters[1..], x)
  }

  /** The three outcomes of the handler's checks. */
  datatype Selection = Nothing | InvalidRange | Range(selected: seq<string>)

  /** Both arguments are truthy and name catalog entries. */
  predicate BothInCatalog(chapters: seq<string>, start: Option<string>, end: Option<string>) {
    Truthy(start) && Truthy(end) && start.value in chapters && end.value in chapters
  }

  /** The validation and the slice `chapters[start_index:end_index + 1]`. */
  function Select(chapters: seq<string>, start: Option<string>, end: Option<string>): (s: Selection)
    ensures s.Range? ==> BothInCatalog(chapters, start, end) && |s.selected| >= 1
    ensures s.Range? ==> s.selected[0] == start.value && s.selected[|s.selected| - 1] == end.value
  {
    if BothInCatalog(chapters, start, end) then
      var startIndex := IndexOf(chapters, start.value);
      var endIndex := IndexOf(chapters, end.value);
      if startIndex <= endIndex then Range(chapters[startIndex..endIndex + 1]) else InvalidRange
    else Nothing
  }

  /** `chapter.replace('.docx', '')`: the name shown for a chapter. It is
      never longer than the file name, and equals it exactly when ".docx"
      does not occur in it. */
  function DisplayName(chapter: string): (name: string)
    ensures |name| <= |chapter|
    ensures name == chapter <==> forall i: nat :: !OccursAt(chapter, Extension, i)
  {
    RemoveAll(chapter, Extension)
  }

  /** The heading line written before each chapter's text: the opener, the
      display name, the closer. */
  function Heading(chapter: string): (h: string)
    ensures |h| == |HeadingOpen| + |DisplayName(chapter)| + |HeadingClose|
    ensures h[..|HeadingOpen|] == HeadingOpen
  {
    HeadingOpen + DisplayName(chapter) + HeadingClose
  }

  /** The display name can be read back from a heading: it is what stands
      between the opener and the closer. */
  lemma HeadingNameBetween(chapter: string)
    ensures Heading(chapter)[|HeadingOpen|..|Heading(chapter)| - |HeadingClose|] == DisplayName(chapter)
    ensures Heading(chapter)[|Heading(chapter)| - |HeadingClose|..] == HeadingClose
  {
    var h := Heading(chapter);
    assert h == HeadingOpen + DisplayName(chapter) + HeadingClose;
  }

  /** One chapter's contribution: its heading, then its paragraphs joined by
      newlines, the heading opener first. */
  function Section(chapter: string, paras: string -> seq<string>): (text: string)
    ensures |text| >= |Heading(chapter)| && text[..|Heading(chapter)|] == Heading(chapter)
    ensures text[|Heading(chapter)|..] == Join("\n", paras(chapter))
    ensures text[..|HeadingOpen|] == HeadingOpen
  {
    Heading(chapter) + Join("\n", paras(chapter))
  }

  /** The text of the selected chapters, one section after another. It is
      empty exactly when nothing is selected, and otherwise starts with a
      heading. */
  function Render(selected: seq<string>, paras: string -> seq<string>): (text: string)
    ensures text == "" <==> selected == []
    ensures selected != [] ==> |text| > |HeadingOpen| && text[..|HeadingOpen|] == HeadingOpen
    decreases |selected|
  {
    if selected == [] then "" else Section(selected[0], paras) + Render(selected[1..], paras)
  }

  /** The `content` the handler hands to the page template: empty exactly
      when the checks select nothing, the warning on an inverted range, and
      otherwise text that starts with a heading. */
  function Content(s: Selection, paras: string -> seq<string>): (content: string)
    ensures content == "" <==> s.Nothing? || s == Range([])
    ensures s.InvalidRange? ==> '\n' !in content
    ensures s.Range? && s.selected != [] ==> |content| > |HeadingOpen| && content[..|HeadingOpen|] == HeadingOpen
  {
    match s
    case Nothing => ""
    case InvalidRange => Warning
    case Range(selected) => Render(selected, paras)
  }

  /** Rendering two runs of chapters one after the other gives the two texts
      one after the other. */
  lemma {:induction false} RenderAppend(a: seq<string>, b: seq<string>, paras: string -> seq<string>)
    ensures Render(a + b, paras) == Render(a, paras) + Render(b, paras)
    decreases |a|
  {
    if a == [] {
      assert a + b == b;
    } else {
      assert (a + b)[1..] == a[1..] + b;
      RenderAppend(a[1..], b, paras);
    }
  }

  /** The handler. `content` starts empty; on a valid range the loop appends
      each selected chapter's heading and then its joined paragraphs; on an
      inverted range it becomes the warning. */
  method Index(chapters: seq<string>, start: Option<string>, end: Option<string>,
               paras: string -> seq<string>)
    returns (content: string)
    ensures content == Content(Select(chapters, start, end), paras)
  {
    content := "";
    if BothInCatalog(chapters, start, end) {
      var startIndex := IndexOf(chapters, start.value);
      var endIndex := IndexOf(chapters, end.value);
      if startIndex <= endIndex {
        var selected := chapters[startIndex..endIndex + 1];
        assert Select(chapters, start, end) == Range(selected);
        for i := 0 to |selected|
          invariant content == Render(selected[..i], paras)
        {
          var chapter := selected[i];
          ghost var before := content;
          content := content + Heading(chapter);
          content := content + Join("\n", paras(chapter));
          RenderStep(selected, i, paras);
          assert content == before + (Heading(chapter) + Join("\n", paras(chapter)));
        }
        assert selected[..|selected|] == selected;
      } else {
        content := Warning;
      }
    }
  }

  /** Rendering one more chapter of a selection appends its section. */
  lemma RenderStep(selected: seq<string>, i: nat, paras: string -> seq<string>)
    requires i < |selected|
    ensures Render(selected[..i + 1], paras) ==
            Render(selected[..i], paras) + (Heading(selected[i]) + Join("\n", paras(selected[i])))
  {
    RenderAppend(selected[..i], [selected[i]], paras);
    RenderCons(selected[i], [], paras);
    assert selected[..i + 1] == selected[..i] + [selected[i]];
  }

  /** The outcome of the checks, three ways: nothing unless both arguments
      are truthy catalog entries; the warning exactly when the start entry
      stands after the end entry; otherwise the inclusive slice between them,
      of length end index - start index + 1, in catalog order. */
  lemma SelectOutcome(chapters: seq<string>, start: Option<string>, end: Option<string>)
    ensures Select(chapters, start, end).Nothing? <==> !BothInCatalog(chapters, start, end)
    ensures Select(chapters, start, end).InvalidRange? <==>
            BothInCatalog(chapters, start, end) &&
            IndexOf(chapters, start.value) > IndexOf(chapters, end.value)
    ensures Select(chapters, start, end).Range? ==>
            var s, e := IndexOf(chapters, start.value), IndexOf(chapters, end.value);
            var selected := Select(chapters, start, end).selected;
            s <= e && |selected| == e - s + 1 &&
            forall k :: 0 <= k < |selected| ==> selected[k] == chapters[s + k]
  {
  }

  /** Missing, empty or unknown arguments give empty content. */
  lemma ContentEmptyUnlessBothInCatalog(chapters: seq<string>, start: Option<string>, end: Option<string>,
                                        paras: string -> seq<string>)
    requires !BothInCatalog(chapters, start, end)
    ensures Content(Select(chapters, start, end), paras) == ""
  {
  }

  /** In a sorted catalog without repeats, catalog positions follow string
      order. */
  lemma IndexOrderIsStringOrder(chapters: seq<string>, x: string, y: string)
    requires WellFormed(chapters) && x in chapters && y in chapters
    ensures IndexOf(chapters, x) <= IndexOf(chapters, y) <==> LexLe(x, y)
  {
    var i, j := IndexOf(chapters, x), IndexOf(chapters, y);
    if i < j {
      assert LexLe(chapters[i], chapters[j]);
    } else if i == j {
      assert x[..|x|] == x;
    } else {
      assert LexLe(y, x);
      if LexLe(x, y) {
        LexLeAntisymmetric(x, y);
        assert false;
      }
    }
  }

  /** With the catalog the reader builds, an inverted range means the end
      name sorts strictly before the start name. */
  lemma InvalidRangeIffEndSortsFirst(chapters: seq<string>, start: Option<string>, end: Option<string>)
    requires WellFormed(chapters) && BothInCatalog(chapters, start, end)
    ensures Select(chapters, start, end).InvalidRange? <==> !LexLe(start.value, end.value)
  {
    IndexOrderIsStringOrder(chapters, start.value, end.value);
  }

  /** With the catalog the reader builds, the selection holds exactly the
      catalog entries that sort between the two arguments, both included. */
  lemma RangeIsStringInterval(chapters: seq<string>, start: Option<string>, end: Option<string>)
    requires WellFormed(chapters) && Select(chapters, start, end).Range?
    ensures forall x :: x in Select(chapters, start, end).selected <==>
                        x in chapters && LexLe(start.value, x) && LexLe(x, end.value)
  {
    var s, e := IndexOf(chapters, start.value), IndexOf(chapters, end.value);
    var selected := Select(chapters, start, end).selected;
    assert selected == chapters[s..e + 1];
    forall x ensures x in selected <==> x in chapters && LexLe(start.value, x) && LexLe(x, end.value) {
      if x in chapters {
        IndexOrderIsStringOrder(chapters, start.value, x);
        IndexOrderIsStringOrder(chapters, x, end.value);
        var k := IndexOf(chapters, x);
        if s <= k <= e {
          assert selected[k - s] == x;
        }
      }
    }
  }

  /** Asking for one chapter as both start and end selects that chapter
      alone. */
  lemma SingleChapter(chapters: seq<string>, chapter: string)
    requires chapter in chapters && chapter != ""
    ensures Select(chapters, Some(chapter), Some(chapter)) == Range([chapter])
  {
  }

  /** Rendering a chapter in front of a run of chapters. */
  lemma RenderCons(chapter: string, rest: seq<string>, paras: string -> seq<string>)
    ensures Render([chapter] + rest, paras) == Section(chapter, paras) + Render(rest, paras)
  {
  }

  /** The rendered text, cut at any selected chapter: what comes before it,
      then its heading, then its paragraphs, then what comes after it. So
      every selected chapter gets one heading, in selection order. */
  lemma {:induction false} RenderAt(selected: seq<string>, k: nat, paras: string -> seq<string>)
    requires k < |selected|
    ensures Render(selected, paras) ==
            Render(selected[..k], paras) + Section(selected[k], paras) + Render(selected[k + 1..], paras)
  {
    var before, after := selected[..k], selected[k + 1..];
    assert selected == before + ([selected[k]] + after);
    RenderAppend(before, [selected[k]] + after, paras);
    RenderCons(selected[k], after, paras);
  }

  /** The warning is a single line. */
  lemma WarningHasNoNewline()
    ensures '\n' !in Warning
  {
  }

  /** The warning holds no chapter heading, since a heading opens with a
      newline. */
  lemma WarningHasNoHeading()
    ensures forall i: nat :: !OccursAt(Warning, HeadingOpen, i)
  {
    WarningHasNoNewline();
    forall i: nat ensures !OccursAt(Warning, HeadingOpen, i) {
      if i + |HeadingOpen| <= |Warning| {
        assert Warning[i] != '\n';
        assert Warning[i..i + |HeadingOpen|][0] == Warning[i];
      }
    }
  }

  /** The page shows its reader block (`{% if content %}`) exactly when both
      arguments name catalog entries: on a valid range the text starts with
      a heading, on an inverted one it is the warning. With catalog entries
      all ending in ".docx", the emptiness checks add nothing. */
  lemma ReaderShownIffBothInCatalog(chapters: seq<string>, start: Option<string>, end: Option<string>,
                                    paras: string -> seq<string>)
    requires WellFormed(chapters)
    ensures Content(Select(chapters, start, end), paras) != "" <==>
            start.Some? && end.Some? && start.value in chapters && end.value in chapters
  {
  }

  /** The name shown for a catalog entry whose only ".docx" is its ending is
      the entry without its last five characters. */
  lemma DisplayNameDropsExtension(chapter: string)
    requires EndsWith(chapter, Extension)
    requires forall i: nat :: i < |chapter| - |Extension| ==> !OccursAt(chapter, Extension, i)
    ensures DisplayName(chapter) == chapter[..|chapter| - 5]
  {
    RemoveAllSuffixOnly(chapter, Extension);
  }

  /** A chapter's paragraphs can be read back from its section when none of
      them holds a newline and there is at least one: the text after the
      heading splits on newlines into exactly those paragraphs. */
  lemma SectionKeepsParagraphs(chapter: string, paras: string -> seq<string>)
    requires paras(chapter) != []
    requires forall k :: 0 <= k < |paras(chapter)| ==> '\n' !in paras(chapter)[k]
    ensures Section(chapter, paras)[..|Heading(chapter)|] == Heading(chapter)
    ensures SplitOn(Section(chapter, paras)[|Heading(chapter)|..], '\n') == paras(chapter)
  {
    assert Section(chapter, paras)[|Heading(chapter)|..] == Join("\n", paras(chapter));
    SplitOnJoin(paras(chapter), '\n');
  }
}
