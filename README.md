# Outline inference of `PDFOutlineExtractor`, modelled in Dafny

This project models the typographic outline inference of the PDF outline
extractor (`main.py`). The extractor reads a PDF into a flat list of text-line
records (text, page, font size, font flags, bounding box). From that list it
infers:

- a **document title**: the topmost line of page 1, possibly joined with one
  continuation line, then cleaned up;
- an **outline**: the heading lines in reading order, each with a level from
  H1 to H4.

Headings are chosen by a **heading filter** (length, punctuation and a
blacklist of substrings). Their levels come from a **level classifier**, which
ranks a line's font size against the document's distinct font sizes, with
boldness splitting the second tier.

The line list is a parameter of the model; the PDF reader is not modelled.

Modules:

- `Textual` (`textual.dfy`): the string operations the code relies on. It
  covers ASCII `lower()`, substring search, `strip`/`rstrip` and
  `re.sub(r"\s+", " ", …)`, with their properties.
- `Lines` (`lines.dfy`): the records:
  - a line;
  - a bounding box;
  - the level H1–H4 with its rank;
  - a heading entry;
  - the result.
- `HeadingFilter` (`heading_filter.dfy`): `is_heading_candidate`.
- `LevelClassifier` (`level_classifier.dfy`): `classify_heading_level`, plus
  a reference definition by rank that the classifier is proved equal to.
- `TitleDetector` (`title_detector.dfy`): `extract_title`. It is a method
  with the source's loop and `break`, proved equal to the specification
  function `TitleOf`. The page-1 sort is a stable insertion sort, proved
  sorted, a permutation and stable.
- `OutlineAssembler` (`outline_assembler.dfy`): `extract_outline`. It is a
  method with the source's loop, `continue`s and `seen` set, proved equal to
  the specification function `OutlineOf`.
  - `OutlineOf` selects, in order, the first occurrence of every eligible
    text, via the generic `FirstEligible`.
  - Lemmas prove what the outline is: an order-preserving selection of the
    lines, with no duplicate text, no text equal to the title ignoring case,
    only filter-passing texts, and every eligible text present. Levels are
    monotone in font size.

Three behaviours of the code are easy to misread, and the model keeps them as
written:

- **Punctuation test.** `sum(c in text for c in '.,;:!?') > 5` (main.py:65)
  counts how many of the six marks occur at all, not how many punctuation
  characters the text holds. So it rejects only text in which all six marks
  occur; a text with many full stops passes. `MarksPresent` models this, and
  `HeadingFilter.AllMarksRejected` and `HeadingFilter.NumberingAccepted` show
  both sides.
- **Merged titles.** Each line is compared only against the whole, possibly
  merged, title (main.py:100). So with a two-line title, each of the two lines
  can still become a heading. `Eligible` models this;
  `OutlineAssembler.MergedTitleLinesStayHeadings` proves it in general and the
  "Lab" / "Work" lemmas give a concrete case.
- **Line records.** `extract_outline` does not check the line records it gets
  (main.py:98-111): an empty or blank text is simply rejected by the length
  test. The model does the same.

## Model

| member | source | states |
|---|---|---|
| Textual.LowerChar | main.py:64 | a capital letter becomes the small letter 32 code points later; every other character is unchanged |
| Textual.Lower | main.py:64 | `lower()` keeps the length and lower-cases each character in place |
| Textual.LowerIdempotent | main.py:64 | lower-casing twice is lower-casing once |
| Textual.LowerOfLowercase | main.py:64 | text without capitals is its own lower-case form |
| Textual.LowerKeepsNonCapital | main.py:64 | every non-capital character of the text still occurs after lower-casing |
| Textual.Contains | main.py:72 | `word in text` never holds for a word longer than the text, and holds whenever the text starts with the word |
| Textual.ContainsInfix | main.py:72 | a word occurs in any text that has it somewhere in the middle |
| Textual.TrimStart | main.py:61 | the left strip returns a suffix; everything removed is in the trim set; the new first character is not |
| Textual.TrimEnd | main.py:61 | `rstrip` returns a prefix; everything removed is in the trim set; the new last character is not |
| Textual.Strip | main.py:99 | the stripped text has no whitespace at either end and is no longer than the input |
| Textual.StripTrimmed | main.py:99 | text without whitespace at either end is left unchanged |
| Textual.StripKeepsText | main.py:99 | stripping removes whitespace only: the visible characters are unchanged |
| Textual.CollapseWhitespace | main.py:61 | the collapsed text is single-spaced, empty exactly when the input is, and starts with whitespace exactly when the input does |
| Textual.CollapseKeepsLast | main.py:61 | the collapsed text ends with whitespace exactly when the input does |
| Textual.Words | main.py:61 | a text that starts with a visible character has at least one word |
| Textual.CollapseKeepsWords | main.py:61 | collapsing whitespace keeps the same words in the same order |
| Textual.CollapseKeepsText | main.py:61 | collapsing whitespace keeps every visible character in order |
| Textual.CollapseSingleSpaced | main.py:61 | collapsing a single-spaced text changes nothing |
| HeadingFilter.MarksPresent | main.py:65 | the sum over the marks is at most the number of marks |
| HeadingFilter.MarksPresentAll | main.py:65 | the sum reaches its maximum exactly when every mark occurs in the text |
| HeadingFilter.AnyContained | main.py:72 | nothing is found in an empty word list |
| HeadingFilter.AnyContainedExists | main.py:72 | `any(word in text …)` holds exactly when some blacklist word occurs in the text |
| HeadingFilter.IsHeadingCandidate | main.py:63-72 | an accepted text has at least three characters |
| HeadingFilter.HeadingCandidateMeaning | main.py:63-72 | accepted iff: at least three characters; at least one of the six marks missing from the lower-cased text; no blacklist word in it |
| HeadingFilter.CandidateIgnoresCase | main.py:64 | lower-casing the input first does not change the verdict |
| HeadingFilter.FigureCaptionRejected | main.py:68-72 | "Figure 3: results" is rejected |
| HeadingFilter.NumberingAccepted | main.py:65-72 | any text of 3+ digits, full stops and spaces is accepted, however many full stops it has |
| HeadingFilter.NoLettersNoBlacklisted | main.py:68-72 | a lower-cased text without letters or `@` contains no blacklist word |
| HeadingFilter.NoInitialsNoBlacklisted | main.py:68-72 | a text holding none of the blacklist words' first characters contains no blacklist word |
| HeadingFilter.BlacklistInitial | main.py:68-71 | every blacklist word is non-empty and starts with a small letter or `@` |
| HeadingFilter.AcceptedWithoutInitials | main.py:63-72 | a text whose lower-case form has 3+ characters, no full stop and none of the blacklist initials is accepted |
| HeadingFilter.AllMarksRejected | main.py:65-66 | a text in which all six marks occur is rejected |
| HeadingFilter.LabWorkAccepted | main.py:63-72 | any text that lower-cases to "lab" or "work" is accepted |
| LevelClassifier.IsBold | main.py:76 | `flags & (1 << 4) != 0` holds exactly when bit 4 of the flags is set, that is when the flags modulo 32 are at least 16 |
| LevelClassifier.InsertDescending | main.py:75 | inserting into a strictly descending list keeps it strictly descending and adds exactly the new value |
| LevelClassifier.DistinctDescending | main.py:75 | `sorted(set(sizes), reverse=True)` is strictly descending and holds exactly the sizes |
| LevelClassifier.ClassifyHeadingLevel | main.py:74-85 | needs a non-empty size list; H1 iff no document size exceeds the line's size by more than 0.1; H2 only for bold flags |
| LevelClassifier.ClassifyByRank | main.py:75-85 | the level follows from how many distinct sizes lie more than 0.1 above the line's size (0 → H1; 1 → H2 if bold, else H3; 2 → H3; more → H4), and is H4 when every size does |
| LevelClassifier.LevelMonotone | main.py:74-85 | a document size more than 0.1 above another gets a level at least as prominent, whatever the flags |
| LevelClassifier.BoldSplitsSecondTierOnly | main.py:76-81 | if two flag values give different levels for one size, the levels are H2 and H3, exactly one distinct size lies above, and exactly one of the flags is bold |
| LevelClassifier.TwoTierDocument | main.py:74-85 | sizes 24, 18, 18, 12: bold 18 → H2, plain 18 → H3, 12 → H3, 24 → H1 |
| TitleDetector.FirstPage | main.py:44 | the page-1 copy holds exactly the lines on page 1 |
| TitleDetector.FirstPageFilters | main.py:44 | the page-1 copy keeps a line iff it is on page 1, and keeps the input order |
| TitleDetector.InsertKeepsSorted | main.py:48 | inserting into a list sorted by top edge keeps it sorted |
| TitleDetector.InsertByTopPermutes | main.py:48 | inserting a line adds exactly that line |
| TitleDetector.SortByTopPermutes | main.py:48 | the sort result is a permutation of its input |
| TitleDetector.SortByTopSorted | main.py:48 | the sort result is ordered by top edge |
| TitleDetector.SortKeepsTies | main.py:48 | the sort is stable: lines with equal top edges keep their order |
| TitleDetector.FirstLowest | main.py:48-49 | gives the first index with the smallest top edge |
| TitleDetector.SortRemovesLowest | main.py:48-49 | the sorted list starts with the first line of smallest top edge, followed by the sorted rest |
| TitleDetector.FilterMembers | main.py:54-59 | keeping the lines that pass a test keeps exactly those lines |
| TitleDetector.FilterSorted | main.py:48-59 | filtering after the sort equals sorting after the filter |
| TitleDetector.Continues | main.py:55-57 | a line continues the base iff its size is within 0.5, its flags are equal and its top edge is within 25 of the base's bottom edge |
| TitleDetector.FindContinuation | main.py:54-59 | returns the first later line that continues the base, or none when no line does |
| TitleDetector.NormalizeTitle | main.py:61 | the cleaned title has no leading whitespace, no whitespace run, and no trailing space, `.`, `,` or `:` |
| TitleDetector.NormalizeIdempotent | main.py:61 | cleaning a title twice is cleaning it once |
| TitleDetector.NormalizeFixesClean | main.py:61 | an already clean text is left unchanged |
| TitleDetector.NormalizeKeepsText | main.py:61 | cleaning keeps a prefix of the visible characters; the visible characters it drops are all `.`, `,` or `:` |
| TitleDetector.TitleOf | main.py:43-61 | every title, the placeholder included, has no leading whitespace, is single-spaced and ends in none of space, `.`, `,`, `:` |
| TitleDetector.ScanFindsSortedContinuation | main.py:48-59 | after the sort the base is the first page-1 line of smallest top edge; the loop finds no line iff no other page-1 line continues it, and otherwise finds the first topmost continuing line |
| TitleDetector.TitleFromTopmostLine | main.py:43-61 | the title is the placeholder without page-1 lines; otherwise the base's cleaned text when no other page-1 line continues it, and else the base's text joined with the continuing line of smallest top edge (the earliest in input order on a tie), then cleaned |
| TitleDetector.TitleLinesFromFirstPage | main.py:44-58 | the base line and every candidate continuation are input lines on page 1 |
| TitleDetector.TitleWithoutContinuation | main.py:54-61 | when no other page-1 line continues the base, the title is the base line's text alone |
| TitleDetector.ExtractTitle | main.py:43-61 | the method with its loop and `break` returns `TitleOf(lines)` |
| TitleDetector.TwoLineTitle | main.py:54-61 | a page-1 line followed lower down by a continuing line gives a title of both texts |
| TitleDetector.CleanTwoWords | main.py:61 | two letter-only words joined by one space are already clean |
| TitleDetector.ContinuedTitle | main.py:54-61 | the lines "Deep" and "Learning" make the title "Deep Learning" |
| TitleDetector.LabWorkTitle | main.py:43-61 | two page-1 lines "Lab" and "Work" of equal font, 2 units apart, make the title "Lab Work" |
| OutlineAssembler.FontSizes | main.py:93 | the size list holds each line's size, duplicates included, in order |
| OutlineAssembler.Eligible | main.py:99-103 | an eligible text has at least three characters |
| OutlineAssembler.EntryFor | main.py:99-110 | an entry holds the line's stripped text and its page |
| OutlineAssembler.EntryLevel | main.py:105 | an entry is H1 iff no line's size exceeds its line's size by more than 0.1, and is H2 only for bold flags |
| OutlineAssembler.FirstEligible | main.py:95-111 | there are at most as many picks as positions read, and picked positions are positions already read |
| OutlineAssembler.FirstEligibleIncreasing | main.py:98-110 | picked positions are strictly increasing, so input order is kept |
| OutlineAssembler.FirstEligibleOnlyEligible | main.py:100-103 | only eligible texts are picked |
| OutlineAssembler.FirstEligibleComplete | main.py:98-111 | every eligible text read so far has been picked |
| OutlineAssembler.FirstEligibleFirst | main.py:100-111 | each text is picked at its first occurrence, and no text twice |
| OutlineAssembler.OutlineOf | main.py:95-111 | the outline has at most one entry per line |
| OutlineAssembler.OutlineOfEntries | main.py:105-110 | entry k is the entry of picked line k: its level among all sizes, its stripped text and its page |
| OutlineAssembler.OutlineOfComplete | main.py:98-111 | every eligible line's text appears in the outline |
| OutlineAssembler.OutlineOfIsOutline | main.py:95-111 | the outline satisfies the seven clauses of `IsOutline` (listed below the table) |
| OutlineAssembler.OutlineLevelsMonotone | main.py:105 | an entry whose line is more than 0.1 larger is at least as prominent |
| OutlineAssembler.SingleLineDocument | main.py:89-113 | a one-line page-1 document with clean text has that text as title and an empty outline |
| OutlineAssembler.SingleLineReport | main.py:89-113 | the single line "Report" gives title "Report" and no headings |
| OutlineAssembler.FigureCaptionNeverHeading | main.py:102-103 | "Figure 3: results" never appears in an outline |
| OutlineAssembler.MergedTitleLinesStayHeadings | main.py:98-111 | when the title is two line texts joined by a space and both pass the filter, both texts still appear in the outline |
| OutlineAssembler.LabWorkEligible | main.py:100-103 | under the title "Lab Work" the texts "Lab" and "Work" are both eligible |
| OutlineAssembler.OutlineStepTake | main.py:100-111 | reading an eligible, unseen line appends its entry and adds its text to `seen` |
| OutlineAssembler.AssembleOutline | main.py:95-111 | the loop with `continue`s and the `seen` set returns `OutlineOf(lines, title)` |
| OutlineAssembler.ExtractOutline | main.py:87-113 | no lines gives ("Empty Document", []); otherwise the title is `TitleOf(lines)` and the outline is `OutlineOf` for that title, which satisfies `IsOutline` |

`IsOutline` has seven clauses:

- there is one picked line per entry;
- the entries are the entries of the picked lines;
- the picked lines are in increasing order;
- every entry is eligible;
- no two texts are equal;
- each entry comes from the first line with its text;
- every eligible line is represented.

## Left out

- `extract_text_with_lines` (main.py:10-41): reading the PDF through PyMuPDF is a foreign library. Its result is the `lines` parameter of `ExtractOutline`.
- `process_directory` and the `__main__` block (main.py:116-134): directory globbing, file output, JSON serialisation and printing are I/O. `Level.Label` gives the JSON strings, but no serialisation is modelled.
- Floating point: sizes and coordinates are exact reals. The code only compares them against the thresholds 0.1, 0.5 and 25.
- Unicode: `lower()` is modelled on ASCII letters only. The whitespace of `strip()` and `\s` is the ASCII whitespace plus the four information separators (`\x1c`–`\x1f`). Other Unicode spaces and case mappings are not modelled.
- TitleDetector.SortByTop: the in-place `list.sort` (Timsort) on the page-1 copy is modelled as a stable insertion sort on values. Its result (sorted, a permutation, stable) is the same; the in-place update of the copy is not modelled.
- OutlineAssembler.ExtractOutline: the outline is specified through `OutlineOf`, which names the lines an outline comes from (`OutlinePicks`). Python dictionaries become `HeadingEntry` values.
