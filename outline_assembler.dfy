/** The outline assembler of `PDFOutlineExtractor.extract_outline`: one pass
    over the document's lines that skips the title and texts already emitted,
    filters out non-headings, and classifies the rest. The line sequence the
    PDF reader would produce is taken as a parameter. */
module OutlineAssembler {
  import opened Textual
  import opened Lines
  import opened HeadingFilter
  import opened LevelClassifier
  import opened TitleDetector

  /** The title of a document without any line. */
  const EmptyTitle: string := "Empty Document"

  /** `[line["font_size"] for line in lines]`, duplicates included. */
  function FontSizes(lines: seq<TextLine>): (sizes: seq<real>)
    ensures |sizes| == |lines|
    ensures forall i :: 0 <= i < |lines| ==> sizes[i] == lines[i].fontSize
  {
    if lines == [] then [] else [lines[0].fontSize] + FontSizes(lines[1..])
  }

  /** The stripped text of line `i`. */
  function LineText(lines: seq<TextLine>, i: nat): string
    requires i < |lines|
  {
    Strip(lines[i].text)
  }

  /** A text is emitted unless it equals the title ignoring case or fails the
      heading filter. */
  function Eligible(text: string, title: string): (r: bool)
    ensures r ==> |text| >= MinLength
  {
    Lower(text) != Lower(title) && IsHeadingCandidate(text)
  }

  /** The entry made from line `i`: its level among all the document's sizes,
      its stripped text and its page. */
  function EntryFor(lines: seq<TextLine>, i: nat): (e: HeadingEntry)
    requires i < |lines|
    ensures e.text == Strip(lines[i].text) && e.page == lines[i].page
  {
    HeadingEntry(ClassifyHeadingLevel(lines[i].fontSize, FontSizes(lines), lines[i].fontFlags),
                 LineText(lines, i), lines[i].page)
  }

  /** A line's entry is H1 exactly when no line of the document is more than
      the tolerance larger, and H2 only when the line is bold. */
  lemma EntryLevel(lines: seq<TextLine>, i: nat)
    requires i < |lines|
    ensures EntryFor(lines, i).level == H1 <==>
      forall j :: 0 <= j < |lines| ==> lines[j].fontSize <= lines[i].fontSize + Tolerance
    ensures EntryFor(lines, i).level == H2 ==> IsBold(lines[i].fontFlags)
  {
  }

  /** The stripped texts of all lines. */
  function LineTexts(lines: seq<TextLine>): (texts: seq<string>)
    ensures |texts| == |lines|
    ensures forall j :: 0 <= j < |lines| ==> texts[j] == LineText(lines, j)
  {
    if lines == [] then [] else [LineText(lines, 0)] + LineTexts(lines[1..])
  }

  /** For each line, whether its text is eligible against `title`. */
  function EligibleFlags(lines: seq<TextLine>, title: string): (flags: seq<bool>)
    ensures |flags| == |lines|
    ensures forall j :: 0 <= j < |lines| ==> flags[j] == Eligible(LineText(lines, j), title)
  {
    if lines == [] then [] else [Eligible(LineText(lines, 0), title)] + EligibleFlags(lines[1..], title)
  }

  /** The texts at the picked positions: the source's `seen` set. */
  function PickedTexts(texts: seq<string>, picks: seq<nat>): set<string> {
    set j | j in picks && j < |texts| :: texts[j]
  }

  lemma PickedTextsAppend(texts: seq<string>, picks: seq<nat>, j: nat)
    requires j < |texts|
    ensures PickedTexts(texts, picks + [j]) == PickedTexts(texts, picks) + {texts[j]}
  {
    assert forall x :: x in picks + [j] <==> x in picks || x == j;
  }

  /** The positions, among the first `n` texts, of the first occurrence of
      each eligible text, in order: the selection the loop makes. */
  function FirstEligible(texts: seq<string>, eligible: seq<bool>, n: nat): (picks: seq<nat>)
    requires |eligible| == |texts| && n <= |texts|
    ensures |picks| <= n
    ensures forall k :: 0 <= k < |picks| ==> picks[k] < n
    decreases n
  {
    if n == 0 then []
    else
      var prev := FirstEligible(texts, eligible, n - 1);
      if eligible[n - 1] && texts[n - 1] !in PickedTexts(texts, prev) then prev + [n - 1] else prev
  }

  /** The picked positions are increasing. */
  lemma {:induction false} FirstEligibleIncreasing(texts: seq<string>, eligible: seq<bool>, n: nat)
    requires |eligible| == |texts| && n <= |texts|
    ensures forall k, m :: 0 <= k < m < |FirstEligible(texts, eligible, n)| ==>
      FirstEligible(texts, eligible, n)[k] < FirstEligible(texts, eligible, n)[m]
    decreases n
  {
    if n > 0 {
      FirstEligibleIncreasing(texts, eligible, n - 1);
    }
  }

  /** Only eligible texts are picked. */
  lemma {:induction false} FirstEligibleOnlyEligible(texts: seq<string>, eligible: seq<bool>, n: nat)
    requires |eligible| == |texts| && n <= |texts|
    ensures forall k :: 0 <= k < |FirstEligible(texts, eligible, n)| ==> eligible[FirstEligible(texts, eligible, n)[k]]
    decreases n
  {
    if n > 0 {
      FirstEligibleOnlyEligible(texts, eligible, n - 1);
    }
  }

  /** Every eligible text among the first `n` is picked somewhere. */
  lemma {:induction false} FirstEligibleComplete(texts: seq<string>, eligible: seq<bool>, n: nat)
    requires |eligible| == |texts| && n <= |texts|
    ensures forall j :: 0 <= j < n && eligible[j] ==> texts[j] in PickedTexts(texts, FirstEligible(texts, eligible, n))
    decreases n
  {
    if n > 0 {
      FirstEligibleComplete(texts, eligible, n - 1);
      PickedTextsAppend(texts, FirstEligible(texts, eligible, n - 1), n - 1);
    }
  }

  /** Equal texts are equally eligible. */
  predicate EligibleByText(texts: seq<string>, eligible: seq<bool>)
    requires |eligible| == |texts|
  {
    forall i, j :: 0 <= i < j < |texts| && texts[i] == texts[j] ==> eligible[i] == eligible[j]
  }

  /** A position among `picks` holding the text `t`. */
  lemma PickedTextWitness(texts: seq<string>, picks: seq<nat>, t: string) returns (k: nat)
    requires t in PickedTexts(texts, picks)
    ensures k < |picks| && picks[k] < |texts| && texts[picks[k]] == t
  {
    var p :| p in picks && p < |texts| && texts[p] == t;
    k :| k < |picks| && picks[k] == p;
  }

  /** Each picked text is picked at its first occurrence, and no text twice. */
  lemma {:induction false} FirstEligibleFirst(texts: seq<string>, eligible: seq<bool>, n: nat)
    requires |eligible| == |texts| && n <= |texts|
    requires EligibleByText(texts, eligible)
    ensures forall k, j :: 0 <= k < |FirstEligible(texts, eligible, n)| && 0 <= j < FirstEligible(texts, eligible, n)[k] ==>
      texts[j] != texts[FirstEligible(texts, eligible, n)[k]]
    ensures forall k, m :: 0 <= k < m < |FirstEligible(texts, eligible, n)| ==>
      texts[FirstEligible(texts, eligible, n)[k]] != texts[FirstEligible(texts, eligible, n)[m]]
    decreases n
  {
    if n > 0 {
      var prev := FirstEligible(texts, eligible, n - 1);
      FirstEligibleFirst(texts, eligible, n - 1);
      FirstEligibleComplete(texts, eligible, n - 1);
      FirstEligibleOnlyEligible(texts, eligible, n - 1);
      forall k | 0 <= k < |prev| ensures texts[prev[k]] in PickedTexts(texts, prev) {
        assert prev[k] in prev;
      }
    }
  }

  /** The entries of the first `n` lines, whether emitted or not. */
  function AllEntries(lines: seq<TextLine>, n: nat): (entries: seq<HeadingEntry>)
    requires n <= |lines|
    ensures |entries| == n
  {
    if n == 0 then [] else AllEntries(lines, n - 1) + [EntryFor(lines, n - 1)]
  }

  lemma {:induction false} AllEntriesAt(lines: seq<TextLine>, n: nat, j: nat)
    requires j < n <= |lines|
    ensures AllEntries(lines, n)[j] == EntryFor(lines, j)
    decreases n
  {
    var prev := AllEntries(lines, n - 1);
    assert AllEntries(lines, n) == prev + [EntryFor(lines, n - 1)];
    if j < n - 1 {
      AllEntriesAt(lines, n - 1, j);
      assert (prev + [EntryFor(lines, n - 1)])[j] == prev[j];
    }
  }

  /** The elements of `xs` at the positions `picks`, in that order. */
  function Select<T>(xs: seq<T>, picks: seq<nat>): (r: seq<T>)
    requires forall k :: 0 <= k < |picks| ==> picks[k] < |xs|
    ensures |r| == |picks| && forall k :: 0 <= k < |picks| ==> r[k] == xs[picks[k]]
  {
    seq(|picks|, k requires 0 <= k < |picks| => xs[picks[k]])
  }

  lemma SelectAppend<T>(xs: seq<T>, picks: seq<nat>, j: nat)
    requires forall k :: 0 <= k < |picks| ==> picks[k] < |xs|
    requires j < |xs|
    ensures Select(xs, picks + [j]) == Select(xs, picks) + [xs[j]]
  {
    assert forall k :: 0 <= k < |picks| ==> (picks + [j])[k] == picks[k];
  }

  /** The lines `extract_outline` turns into headings, given the title. */
  function OutlinePicks(lines: seq<TextLine>, title: string): seq<nat> {
    FirstEligible(LineTexts(lines), EligibleFlags(lines, title), |lines|)
  }

  /** `outline` is what the loop produces for `lines` and `title`; `picked`
      names the line each entry comes from. The outline is the subsequence of
      the lines whose text is eligible, each text taken at its first occurrence
      only: so it has no two equal texts, no text equal to the title ignoring
      case, and misses no eligible text. */
  ghost predicate IsOutline(lines: seq<TextLine>, title: string, outline: seq<HeadingEntry>, picked: seq<nat>) {
    && |picked| == |outline|
    && (forall k :: 0 <= k < |picked| ==> picked[k] < |lines| && outline[k] == EntryFor(lines, picked[k]))
    && (forall k, m :: 0 <= k < m < |picked| ==> picked[k] < picked[m])
    && (forall k :: 0 <= k < |outline| ==> Eligible(outline[k].text, title))
    && (forall k, m :: 0 <= k < m < |outline| ==> outline[k].text != outline[m].text)
    && (forall k, j :: 0 <= k < |picked| && 0 <= j < picked[k] ==> LineText(lines, j) != outline[k].text)
    && (forall j :: 0 <= j < |lines| && Eligible(LineText(lines, j), title) ==>
          exists k :: 0 <= k < |outline| && outline[k].text == LineText(lines, j))
  }

  /** The outline `extract_outline` returns for `lines` under `title`. */
  function OutlineOf(lines: seq<TextLine>, title: string): (outline: seq<HeadingEntry>)
    ensures |outline| <= |lines|
  {
    Select(AllEntries(lines, |lines|), OutlinePicks(lines, title))
  }

  lemma FlagsByText(lines: seq<TextLine>, title: string)
    ensures EligibleByText(LineTexts(lines), EligibleFlags(lines, title))
  {
    var texts, flags := LineTexts(lines), EligibleFlags(lines, title);
    forall i, j | 0 <= i < j < |texts| && texts[i] == texts[j] ensures flags[i] == flags[j] {
      assert LineText(lines, i) == LineText(lines, j);
    }
  }

  /** Entry `k` of the outline is the entry of picked line `k`. */
  lemma OutlineOfEntries(lines: seq<TextLine>, title: string)
    ensures |OutlineOf(lines, title)| == |OutlinePicks(lines, title)|
    ensures forall k :: 0 <= k < |OutlinePicks(lines, title)| ==>
      && OutlinePicks(lines, title)[k] < |lines|
      && OutlineOf(lines, title)[k] == EntryFor(lines, OutlinePicks(lines, title)[k])
      && OutlineOf(lines, title)[k].text == LineTexts(lines)[OutlinePicks(lines, title)[k]]
  {
    var picks := OutlinePicks(lines, title);
    forall k | 0 <= k < |picks|
      ensures OutlineOf(lines, title)[k] == EntryFor(lines, picks[k])
    {
      AllEntriesAt(lines, |lines|, picks[k]);
    }
  }

  /** Every eligible line's text is in the outline. */
  lemma OutlineOfComplete(lines: seq<TextLine>, title: string)
    ensures forall j :: 0 <= j < |lines| && Eligible(LineText(lines, j), title) ==>
      exists k :: 0 <= k < |OutlineOf(lines, title)| && OutlineOf(lines, title)[k].text == LineText(lines, j)
  {
    var texts, flags, picks := LineTexts(lines), EligibleFlags(lines, title), OutlinePicks(lines, title);
    var outline := OutlineOf(lines, title);
    FirstEligibleComplete(texts, flags, |lines|);
    OutlineOfEntries(lines, title);
    forall j | 0 <= j < |lines| && Eligible(LineText(lines, j), title)
      ensures exists k :: 0 <= k < |outline| && outline[k].text == LineText(lines, j)
    {
      assert flags[j];
      var k := PickedTextWitness(texts, picks, texts[j]);
      assert outline[k].text == texts[j];
    }
  }

  /** The entries of the picked lines form the outline described above. */
  lemma OutlineOfIsOutline(lines: seq<TextLine>, title: string)
    ensures IsOutline(lines, title, OutlineOf(lines, title), OutlinePicks(lines, title))
  {
    var texts, flags, n := LineTexts(lines), EligibleFlags(lines, title), |lines|;
    FlagsByText(lines, title);
    FirstEligibleIncreasing(texts, flags, n);
    FirstEligibleOnlyEligible(texts, flags, n);
    FirstEligibleFirst(texts, flags, n);
    OutlineOfEntries(lines, title);
    OutlineOfComplete(lines, title);
  }

  /** Level monotonicity within the outline: of two entries, the one whose
      line is more than the tolerance larger is at least as prominent. */
  lemma OutlineLevelsMonotone(lines: seq<TextLine>, title: string, k: nat, m: nat)
    requires k < |OutlinePicks(lines, title)| && m < |OutlinePicks(lines, title)|
    requires lines[OutlinePicks(lines, title)[k]].fontSize > lines[OutlinePicks(lines, title)[m]].fontSize + Tolerance
    ensures k < |OutlineOf(lines, title)| && m < |OutlineOf(lines, title)|
    ensures OutlineOf(lines, title)[k].level.Rank() <= OutlineOf(lines, title)[m].level.Rank()
  {
    var picks := OutlinePicks(lines, title);
    OutlineOfEntries(lines, title);
    var p, q := picks[k], picks[m];
    LevelMonotone(FontSizes(lines), p, q, lines[p].fontFlags, lines[q].fontFlags);
  }

  /** A one-line document whose text is already clean: the line becomes the
      title, and so it is not also a heading. */
  lemma SingleLineDocument(l: TextLine)
    requires l.page == 1
    requires l.text == [] || (!IsSpace(l.text[0]) && !IsSpace(l.text[|l.text| - 1]))
    requires SingleSpaced(l.text)
    requires l.text == [] || l.text[|l.text| - 1] !in TitleTrailing
    ensures TitleOf([l]) == l.text
    ensures OutlineOf([l], l.text) == []
  {
    assert [l][1..] == [];
    assert FirstPage([l]) == [l];
    assert SortByTop([l]) == [l];
    NoContinuationFound([l], l, 1);
    NormalizeFixesClean(l.text);
    assert Strip(l.text) == l.text by {
      assert TrimStart(l.text, Whitespace) == l.text;
    }
    assert !EligibleFlags([l], l.text)[0];
  }

  /** The single line "Report" on page 1 is the title, and the outline is empty. */
  lemma SingleLineReport(l: TextLine)
    requires l == TextLine("Report", 1, 20.0, 16, BBox(0.0, 0.0, 100.0, 15.0))
    ensures TitleOf([l]) == "Report"
    ensures OutlineOf([l], "Report") == []
  {
    var t := l.text;
    assert t == "Report";
    assert forall i :: 0 <= i < |t| ==> 'A' <= t[i];
    SingleLineDocument(l);
  }

  /** The caption "Figure 3: results" never appears in an outline, whatever
      the document and its title. */
  lemma FigureCaptionNeverHeading(lines: seq<TextLine>, title: string, caption: string)
    requires caption == "Figure 3: results"
    ensures forall k :: 0 <= k < |OutlineOf(lines, title)| ==> OutlineOf(lines, title)[k].text != caption
  {
    OutlineOfIsOutline(lines, title);
    FigureCaptionRejected(caption);
  }

  /** The title is compared whole, so the lines of a merged title can still be
      headings: when the title is the texts of lines `i` and `j` joined by a
      space, both texts are in the outline if they pass the heading filter. */
  lemma MergedTitleLinesStayHeadings(lines: seq<TextLine>, title: string, i: nat, j: nat)
    requires i < |lines| && j < |lines|
    requires title == LineText(lines, i) + " " + LineText(lines, j)
    requires IsHeadingCandidate(LineText(lines, i)) && IsHeadingCandidate(LineText(lines, j))
    ensures exists k :: 0 <= k < |OutlineOf(lines, title)| && OutlineOf(lines, title)[k].text == LineText(lines, i)
    ensures exists k :: 0 <= k < |OutlineOf(lines, title)| && OutlineOf(lines, title)[k].text == LineText(lines, j)
  {
    assert Eligible(LineText(lines, i), title) && Eligible(LineText(lines, j), title) by {
      assert |Lower(LineText(lines, i))| != |Lower(title)| && |Lower(LineText(lines, j))| != |Lower(title)|;
    }
    OutlineOfComplete(lines, title);
  }

  /** Under the title "Lab Work", which the lines "Lab" and "Work" make
      (`LabWorkTitle`), both texts are still eligible, so by `OutlineOfComplete`
      both lines are headings as well. */
  lemma LabWorkEligible(u: string, w: string, title: string)
    requires u == "Lab" && w == "Work" && title == "Lab Work"
    ensures Eligible(u, title) && Eligible(w, title)
  {
    assert Lower(u) == "lab" && Lower(w) == "work";
    LabWorkAccepted(u);
    LabWorkAccepted(w);
    assert |Lower(u)| != |Lower(title)| && |Lower(w)| != |Lower(title)|;
  }

  /** A line whose text is not eligible, or already picked, leaves the
      selection unchanged. */
  lemma OutlineStepSkip(lines: seq<TextLine>, title: string, i: nat)
    requires i < |lines|
    requires var texts := LineTexts(lines);
      !Eligible(texts[i], title) ||
      texts[i] in PickedTexts(texts, FirstEligible(texts, EligibleFlags(lines, title), i))
    ensures var texts, flags := LineTexts(lines), EligibleFlags(lines, title);
      FirstEligible(texts, flags, i + 1) == FirstEligible(texts, flags, i)
  {
  }

  /** A line whose eligible text is not yet picked is picked next: its entry
      is appended and its text remembered. */
  lemma OutlineStepTake(lines: seq<TextLine>, title: string, i: nat)
    requires i < |lines|
    requires var texts := LineTexts(lines);
      Eligible(texts[i], title) &&
      texts[i] !in PickedTexts(texts, FirstEligible(texts, EligibleFlags(lines, title), i))
    ensures var texts, flags, all := LineTexts(lines), EligibleFlags(lines, title), AllEntries(lines, |lines|);
      && Select(all, FirstEligible(texts, flags, i + 1)) == Select(all, FirstEligible(texts, flags, i)) + [EntryFor(lines, i)]
      && PickedTexts(texts, FirstEligible(texts, flags, i + 1)) == PickedTexts(texts, FirstEligible(texts, flags, i)) + {texts[i]}
  {
    var texts, flags, all := LineTexts(lines), EligibleFlags(lines, title), AllEntries(lines, |lines|);
    var picks := FirstEligible(texts, flags, i);
    assert FirstEligible(texts, flags, i + 1) == picks + [i];
    AllEntriesAt(lines, |lines|, i);
    SelectAppend(all, picks, i);
    PickedTextsAppend(texts, picks, i);
  }

  /** The loop of `extract_outline`: skip the title and texts already emitted,
      drop non-headings, classify the rest, and remember each emitted text. */
  method AssembleOutline(lines: seq<TextLine>, title: string) returns (outline: seq<HeadingEntry>)
    ensures outline == OutlineOf(lines, title)
  {
    var fontSizes := FontSizes(lines);
    ghost var texts, flags, all := LineTexts(lines), EligibleFlags(lines, title), AllEntries(lines, |lines|);
    var seen: set<string> := {};
    outline := [];
    for i := 0 to |lines|
      invariant outline == Select(all, FirstEligible(texts, flags, i))
      invariant seen == PickedTexts(texts, FirstEligible(texts, flags, i))
    {
      var text := Strip(lines[i].text);
      assert text == texts[i];
      if Lower(text) == Lower(title) || text in seen {
        OutlineStepSkip(lines, title, i);
        continue;
      }
      if !IsHeadingCandidate(text) {
        OutlineStepSkip(lines, title, i);
        continue;
      }
      var level := ClassifyHeadingLevel(lines[i].fontSize, fontSizes, lines[i].fontFlags);
      var entry := HeadingEntry(level, text, lines[i].page);
      OutlineStepTake(lines, title, i);
      outline := outline + [entry];
      seen := seen + {text};
    }
  }

  /** `extract_outline`: a document without lines gets the empty-document
      placeholder; otherwise the title of `extract_title` and the outline the
      loop builds around it. */
  method ExtractOutline(lines: seq<TextLine>) returns (result: OutlineResult)
    ensures lines == [] ==> result == OutlineResult(EmptyTitle, [])
    ensures lines != [] ==> result.title == TitleOf(lines)
    ensures result.outline == OutlineOf(lines, result.title)
    ensures IsOutline(lines, result.title, result.outline, OutlinePicks(lines, result.title))
  {
    if lines == [] {
      return OutlineResult(EmptyTitle, []);
    }
    var title := ExtractTitle(lines);
    var outline := AssembleOutline(lines, title);
    result := OutlineResult(title, outline);
    OutlineOfIsOutline(lines, title);
  }
}
