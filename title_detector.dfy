/** The title detector of `PDFOutlineExtractor.extract_title`: the topmost
    line of page 1, joined with at most one visually matching continuation
    line, with whitespace collapsed and trailing punctuation trimmed. */
module TitleDetector {
  import opened Textual
  import opened Lines

  /** The title when page 1 has no lines. */
  const Untitled: string := "Untitled Document"

  /** A continuation line's size must lie strictly within this of the base's. */
  const SizeTolerance: real := 0.5

  /** A continuation line's top must lie strictly within this of the base's bottom. */
  const MaxGap: real := 25.0

  /** Characters trimmed from the end of the finished title. */
  const TitleTrailing: set<char> := {' ', '.', ',', ':'}

  function Abs(x: real): real {
    if x < 0.0 then -x else x
  }

  /** The top edge of a line's box, the sort key. */
  function Top(l: TextLine): real {
    l.bbox.y0
  }

  /** `[l for l in lines if l["page"] == 1]`. */
  function FirstPage(lines: seq<TextLine>): (p: seq<TextLine>)
    ensures |p| <= |lines|
    ensures forall l :: l in p <==> l in lines && l.page == 1
  {
    if lines == [] then []
    else (if lines[0].page == 1 then [lines[0]] else []) + FirstPage(lines[1..])
  }

  /** The page-1 copy is an order-preserving filter: it keeps a line exactly
      when it is on page 1, and splitting the lines splits the copy. */
  lemma {:induction false} FirstPageFilters(a: seq<TextLine>, b: seq<TextLine>, l: TextLine)
    ensures FirstPage([l]) == if l.page == 1 then [l] else []
    ensures FirstPage(a + b) == FirstPage(a) + FirstPage(b)
    decreases |a|
  {
    assert [l][1..] == [];
    if a == [] {
      assert a + b == b;
    } else {
      assert (a + b)[0] == a[0] && (a + b)[1..] == a[1..] + b;
      FirstPageFilters(a[1..], b, l);
    }
  }

  // ---------------------------------------------------------------------------
  // The stable sort of the page-1 lines by their top edge

  predicate SortedByTop(s: seq<TextLine>) {
    forall i, j :: 0 <= i < j < |s| ==> Top(s[i]) <= Top(s[j])
  }

  /** Inserts `x` before the first line whose top is not above it. */
  function InsertByTop(x: TextLine, s: seq<TextLine>): (r: seq<TextLine>)
    ensures |r| == |s| + 1
  {
    if s == [] || Top(x) <= Top(s[0]) then [x] + s
    else [s[0]] + InsertByTop(x, s[1..])
  }

  /** Insertion adds exactly the new line. */
  lemma {:induction false} InsertByTopPermutes(x: TextLine, s: seq<TextLine>)
    ensures multiset(InsertByTop(x, s)) == multiset(s) + multiset{x}
    decreases |s|
  {
    if s != [] && Top(x) > Top(s[0]) {
      InsertByTopPermutes(x, s[1..]);
      assert s == [s[0]] + s[1..];
    }
  }

  lemma {:induction false} InsertKeepsSorted(x: TextLine, s: seq<TextLine>)
    requires SortedByTop(s)
    ensures SortedByTop(InsertByTop(x, s))
    decreases |s|
  {
    if s != [] && Top(x) > Top(s[0]) {
      InsertKeepsSorted(x, s[1..]);
      InsertByTopPermutes(x, s[1..]);
      var rest := InsertByTop(x, s[1..]);
      forall j | 0 <= j < |rest|
        ensures Top(s[0]) <= Top(rest[j])
      {
        assert rest[j] in multiset(rest);
        assert rest[j] == x || rest[j] in s[1..];
      }
    }
  }

  /** `first_page.sort(key=lambda l: l["bbox"][1])`: a stable sort by top edge,
      as an insertion sort. `SortByTopSorted` shows the result is sorted. */
  function SortByTop(s: seq<TextLine>): (r: seq<TextLine>)
    ensures |r| == |s|
  {
    if s == [] then [] else InsertByTop(s[0], SortByTop(s[1..]))
  }

  /** The sort result is a permutation of its input. */
  lemma {:induction false} SortByTopPermutes(s: seq<TextLine>)
    ensures multiset(SortByTop(s)) == multiset(s)
    decreases |s|
  {
    if s != [] {
      SortByTopPermutes(s[1..]);
      InsertByTopPermutes(s[0], SortByTop(s[1..]));
      assert s == [s[0]] + s[1..];
    }
  }

  /** The sort result is sorted by top edge. */
  lemma {:induction false} SortByTopSorted(s: seq<TextLine>)
    ensures SortedByTop(SortByTop(s))
    decreases |s|
  {
    if s != [] {
      SortByTopSorted(s[1..]);
      InsertKeepsSorted(s[0], SortByTop(s[1..]));
    }
  }

  /** The lines of `s` whose top edge is `y`, in order. */
  function WithTop(s: seq<TextLine>, y: real): seq<TextLine> {
    if s == [] then []
    else (if Top(s[0]) == y then [s[0]] else []) + WithTop(s[1..], y)
  }

  lemma {:induction false} InsertKeepsTies(x: TextLine, s: seq<TextLine>, y: real)
    ensures WithTop(InsertByTop(x, s), y) ==
      if Top(x) == y then [x] + WithTop(s, y) else WithTop(s, y)
    decreases |s|
  {
    if s == [] || Top(x) <= Top(s[0]) {
      assert ([x] + s)[1..] == s;
    } else {
      InsertKeepsTies(x, s[1..], y);
      var r := [s[0]] + InsertByTop(x, s[1..]);
      assert r[1..] == InsertByTop(x, s[1..]);
    }
  }

  /** Stability: lines with equal top edges keep their relative order. */
  lemma {:induction false} SortKeepsTies(s: seq<TextLine>, y: real)
    ensures WithTop(SortByTop(s), y) == WithTop(s, y)
    decreases |s|
  {
    if s != [] {
      SortKeepsTies(s[1..], y);
      InsertKeepsTies(s[0], SortByTop(s[1..]), y);
    }
  }

  /** The index of the first line with the smallest top edge. */
  function FirstLowest(s: seq<TextLine>): (k: nat)
    requires s != []
    ensures k < |s|
    ensures forall i :: 0 <= i < |s| ==> Top(s[k]) <= Top(s[i])
    ensures forall i :: 0 <= i < k ==> Top(s[k]) < Top(s[i])
  {
    if |s| == 1 then 0
    else
      var k := FirstLowest(s[1..]);
      if Top(s[0]) <= Top(s[k + 1]) then 0 else k + 1
  }

  /** `s` without its element at position `k`. */
  function Without(s: seq<TextLine>, k: nat): (r: seq<TextLine>)
    requires k < |s|
    ensures |r| == |s| - 1
  {
    s[..k] + s[k + 1..]
  }

  /** The sort puts the first of the topmost lines in front, followed by the
      sorted remainder: the sort is stable, so ties go to the earlier line. */
  lemma {:induction false} SortRemovesLowest(s: seq<TextLine>)
    requires s != []
    ensures SortByTop(s) == [s[FirstLowest(s)]] + SortByTop(Without(s, FirstLowest(s)))
    decreases |s|
  {
    var k := FirstLowest(s);
    SortCons(s);
    if |s| == 1 {
      assert Without(s, 0) == [];
    } else if k == 0 {
      assert Without(s, 0) == s[1..];
      LowestInFront(s[0], s[1..]);
    } else {
      SortRemovesLowest(s[1..]);
      SortRemovesLowestStep(s);
    }
  }

  /** The step of `SortRemovesLowest` when the topmost line is not in front. */
  lemma SortRemovesLowestStep(s: seq<TextLine>)
    requires |s| > 1 && FirstLowest(s) > 0
    requires var k' := FirstLowest(s[1..]);
      SortByTop(s[1..]) == [s[1..][k']] + SortByTop(Without(s[1..], k'))
    ensures InsertByTop(s[0], SortByTop(s[1..])) ==
      [s[FirstLowest(s)]] + SortByTop(Without(s, FirstLowest(s)))
  {
    var k := FirstLowest(s);
    var k' := FirstLowest(s[1..]);
    var w := Without(s[1..], k');
    assert k == k' + 1 && s[1..][k'] == s[k];
    WithoutShift(s, k);
    SortCons([s[0]] + w);
    assert ([s[0]] + w)[1..] == w;
    InsertBelowHead(s[0], s[k], SortByTop(w));
  }

  lemma LowestInFront(x: TextLine, s: seq<TextLine>)
    requires forall i :: 0 <= i < |s| ==> Top(x) <= Top(s[i])
    ensures InsertByTop(x, SortByTop(s)) == [x] + SortByTop(s)
  {
    var t := SortByTop(s);
    if t != [] {
      SortByTopPermutes(s);
      assert t[0] in multiset(s);
    }
  }

  lemma SortCons(s: seq<TextLine>)
    requires s != []
    ensures SortByTop(s) == InsertByTop(s[0], SortByTop(s[1..]))
  {
  }

  lemma WithoutShift(s: seq<TextLine>, k: nat)
    requires 0 < k < |s|
    ensures Without(s, k) == [s[0]] + Without(s[1..], k - 1)
  {
    assert s[1..][..k - 1] == s[1..k] && s[1..][k..] == s[k + 1..];
    assert s[..k] == [s[0]] + s[1..k];
  }

  lemma InsertBelowHead(x: TextLine, m: TextLine, u: seq<TextLine>)
    requires Top(x) > Top(m)
    ensures InsertByTop(x, [m] + u) == [m] + InsertByTop(x, u)
  {
    assert ([m] + u)[0] == m && ([m] + u)[1..] == u;
  }

  // ---------------------------------------------------------------------------
  // The continuation line and the title

  /** `next_line` may continue the title started by `base`: nearly the same
      size, the same flags, and its top close to the base's bottom edge (an
      absolute distance, so a line above the base's bottom also qualifies). */
  function Continues(base: TextLine, next: TextLine): (r: bool)
    ensures r <==>
      && base.fontSize - SizeTolerance < next.fontSize < base.fontSize + SizeTolerance
      && next.fontFlags == base.fontFlags
      && base.bbox.y1 - MaxGap < next.bbox.y0 < base.bbox.y1 + MaxGap
  {
    && Abs(next.fontSize - base.fontSize) < SizeTolerance
    && next.fontFlags == base.fontFlags
    && Abs(Top(next) - base.bbox.y1) < MaxGap
  }

  /** The first index from `i` on whose line continues `base`. */
  function FindContinuation(s: seq<TextLine>, base: TextLine, i: nat): (r: Option<nat>)
    requires i <= |s|
    ensures r.Some? ==> i <= r.value < |s| && Continues(base, s[r.value])
    ensures r.Some? ==> forall j :: i <= j < r.value ==> !Continues(base, s[j])
    ensures r.None? ==> forall j :: i <= j < |s| ==> !Continues(base, s[j])
    decreases |s| - i
  {
    if i == |s| then None
    else if Continues(base, s[i]) then Some(i)
    else FindContinuation(s, base, i + 1)
  }

  /** `re.sub(r"\s+", " ", raw.strip()).rstrip(" .,:")`. */
  function NormalizeTitle(raw: string): (t: string)
    ensures t == [] || !IsSpace(t[0])
    ensures SingleSpaced(t)
    ensures t == [] || t[|t| - 1] !in TitleTrailing
  {
    var c := CollapseWhitespace(Strip(raw));
    var t := TrimEnd(c, TitleTrailing);
    SingleSpacedPrefix(c, |t|);
    t
  }

  /** The title `extract_title` returns for `lines`. It never starts with
      whitespace, has no run of two whitespace characters, and does not end in
      a space, full stop, comma or colon. */
  function TitleOf(lines: seq<TextLine>): (t: string)
    ensures t == [] || !IsSpace(t[0])
    ensures SingleSpaced(t)
    ensures t == [] || t[|t| - 1] !in TitleTrailing
  {
    var page := FirstPage(lines);
    if page == [] then UntitledIsClean(); Untitled
    else
      var sorted := SortByTop(page);
      var base := sorted[0];
      match FindContinuation(sorted, base, 1)
      case None => NormalizeTitle(base.text)
      case Some(j) => NormalizeTitle(base.text + " " + sorted[j].text)
  }

  /** Normalizing a title twice changes nothing. */
  lemma NormalizeIdempotent(raw: string)
    ensures NormalizeTitle(NormalizeTitle(raw)) == NormalizeTitle(raw)
  {
    var t := NormalizeTitle(raw);
    NormalizeFixesClean(t);
  }

  /** A text that is already clean is its own normal form. */
  lemma NormalizeFixesClean(t: string)
    requires t == [] || !IsSpace(t[0])
    requires SingleSpaced(t)
    requires t == [] || t[|t| - 1] !in TitleTrailing
    ensures NormalizeTitle(t) == t
  {
    assert TrimStart(t, Whitespace) == t;
    assert TrimEnd(t, Whitespace) == t;
    CollapseSingleSpaced(t);
    assert TrimEnd(t, TitleTrailing) == t;
  }

  /** Normalizing keeps every visible character of the raw title except the
      trailing full stops, commas and colons. */
  lemma NormalizeKeepsText(raw: string)
    ensures var n, v := NonSpace(NormalizeTitle(raw)), NonSpace(raw);
      && n <= v
      && forall i :: |n| <= i < |v| ==> v[i] == '.' || v[i] == ',' || v[i] == ':'
  {
    var c := CollapseWhitespace(Strip(raw));
    assert NonSpace(c) == NonSpace(raw) by {
      StripKeepsText(raw);
      CollapseKeepsText(Strip(raw));
    }
    TrimEndKeepsPrefix(c, TitleTrailing);
    VisibleTrailingMarks(NonSpace(TrimEnd(c, TitleTrailing)), NonSpace(c));
  }

  /** The visible characters of `TitleTrailing` are the three marks. */
  lemma VisibleTrailingMarks(n: string, v: string)
    requires forall i :: |n| <= i < |v| ==> v[i] in TitleTrailing && !IsSpace(v[i])
    ensures forall i :: |n| <= i < |v| ==> v[i] == '.' || v[i] == ',' || v[i] == ':'
  {
  }

  /** Page-1 lines of `lines` other than `base`, counted with multiplicity. */
  function OtherFirstPageLines(lines: seq<TextLine>, base: TextLine): multiset<TextLine> {
    multiset(FirstPage(lines)) - multiset{base}
  }

  /** The sorted page-1 lines after the first are the other page-1 lines. */
  lemma SortedTailIsRest(page: seq<TextLine>)
    requires page != []
    ensures multiset(SortByTop(page)[1..]) == multiset(page) - multiset{SortByTop(page)[0]}
  {
    var sorted := SortByTop(page);
    SortByTopPermutes(page);
    assert sorted == [sorted[0]] + sorted[1..];
  }

  /** The lines of `s` that pass `keep`, in order. */
  function Filter(s: seq<TextLine>, keep: TextLine -> bool): (r: seq<TextLine>)
    ensures |r| <= |s|
  {
    if s == [] then []
    else (if keep(s[0]) then [s[0]] else []) + Filter(s[1..], keep)
  }

  /** The filtered list holds exactly the lines of the input that pass. */
  lemma {:induction false} FilterMembers(s: seq<TextLine>, keep: TextLine -> bool)
    ensures forall l :: l in Filter(s, keep) <==> l in s && keep(l)
    decreases |s|
  {
    if s != [] {
      FilterMembers(s[1..], keep);
      assert s == [s[0]] + s[1..];
    }
  }

  lemma FilterFront(x: TextLine, t: seq<TextLine>, keep: TextLine -> bool)
    ensures Filter([x] + t, keep) == (if keep(x) then [x] else []) + Filter(t, keep)
  {
    assert ([x] + t)[0] == x && ([x] + t)[1..] == t;
  }

  /** A line not below the head of a sorted list goes in front of any filtered
      part of it too. */
  lemma InsertInFrontOfFiltered(x: TextLine, t: seq<TextLine>, keep: TextLine -> bool)
    requires SortedByTop(t) && (t == [] || Top(x) <= Top(t[0]))
    ensures InsertByTop(x, Filter(t, keep)) == [x] + Filter(t, keep)
  {
    var c := Filter(t, keep);
    if c != [] {
      FilterMembers(t, keep);
      assert c[0] in c;
      var j :| 0 <= j < |t| && t[j] == c[0];
      assert Top(t[0]) <= Top(t[j]);
    }
  }

  /** Inserting a line into a sorted list, then filtering, is filtering, then
      inserting the line if it passes. */
  lemma {:induction false} FilterInsert(x: TextLine, t: seq<TextLine>, keep: TextLine -> bool)
    requires SortedByTop(t)
    ensures Filter(InsertByTop(x, t), keep) ==
      if keep(x) then InsertByTop(x, Filter(t, keep)) else Filter(t, keep)
    decreases |t|
  {
    if t == [] || Top(x) <= Top(t[0]) {
      assert InsertByTop(x, t) == [x] + t;
      FilterFront(x, t, keep);
      InsertInFrontOfFiltered(x, t, keep);
    } else {
      FilterInsert(x, t[1..], keep);
      FilterInsertBehind(x, t, keep);
    }
  }

  /** The step of `FilterInsert` when the line goes behind the head. */
  lemma FilterInsertBehind(x: TextLine, t: seq<TextLine>, keep: TextLine -> bool)
    requires t != [] && Top(x) > Top(t[0])
    requires Filter(InsertByTop(x, t[1..]), keep) ==
      if keep(x) then InsertByTop(x, Filter(t[1..], keep)) else Filter(t[1..], keep)
    ensures Filter(InsertByTop(x, t), keep) ==
      if keep(x) then InsertByTop(x, Filter(t, keep)) else Filter(t, keep)
  {
    var t' := t[1..];
    var rest := InsertByTop(x, t');
    var f' := Filter(t', keep);
    assert InsertByTop(x, t) == [t[0]] + rest;
    assert t == [t[0]] + t';
    FilterFront(t[0], rest, keep);
    FilterFront(t[0], t', keep);
    if keep(t[0]) {
      assert Filter(t, keep) == [t[0]] + f';
      assert Filter(InsertByTop(x, t), keep) == [t[0]] + Filter(rest, keep);
      if keep(x) {
        InsertBelowHead(x, t[0], f');
      }
    } else {
      assert Filter(t, keep) == f';
      assert Filter(InsertByTop(x, t), keep) == Filter(rest, keep);
    }
  }

  /** Filtering commutes with the stable sort. */
  lemma {:induction false} FilterSorted(s: seq<TextLine>, keep: TextLine -> bool)
    ensures Filter(SortByTop(s), keep) == SortByTop(Filter(s, keep))
    decreases |s|
  {
    if s != [] {
      FilterSorted(s[1..], keep);
      FilterSortedStep(s, keep);
    }
  }

  /** The step of `FilterSorted`, given the claim for the tail. */
  lemma FilterSortedStep(s: seq<TextLine>, keep: TextLine -> bool)
    requires s != []
    requires Filter(SortByTop(s[1..]), keep) == SortByTop(Filter(s[1..], keep))
    ensures Filter(SortByTop(s), keep) == SortByTop(Filter(s, keep))
  {
    var x, c := s[0], Filter(s[1..], keep);
    if keep(x) {
      calc {
        Filter(SortByTop(s), keep);
      ==
        Filter(InsertByTop(x, SortByTop(s[1..])), keep);
      == { SortByTopSorted(s[1..]); FilterInsert(x, SortByTop(s[1..]), keep); }
        InsertByTop(x, SortByTop(c));
      == { assert ([x] + c)[0] == x && ([x] + c)[1..] == c; }
        SortByTop([x] + c);
      == { assert Filter(s, keep) == [x] + c; }
        SortByTop(Filter(s, keep));
      }
    } else {
      calc {
        Filter(SortByTop(s), keep);
      ==
        Filter(InsertByTop(x, SortByTop(s[1..])), keep);
      == { SortByTopSorted(s[1..]); FilterInsert(x, SortByTop(s[1..]), keep); }
        SortByTop(c);
      == { assert Filter(s, keep) == c; }
        SortByTop(Filter(s, keep));
      }
    }
  }

  /** The test `Continues(base, ·)` as a value, for filtering. */
  function ContinuesBase(base: TextLine): TextLine -> bool {
    l => Continues(base, l)
  }

  /** The scan for a continuation from `i` finds the first continuing line of `s[i..]`. */
  lemma {:induction false} FindContinuationFirst(s: seq<TextLine>, base: TextLine, i: nat)
    requires i <= |s|
    ensures FindContinuation(s, base, i).None? <==> Filter(s[i..], ContinuesBase(base)) == []
    ensures FindContinuation(s, base, i).Some? ==>
      s[FindContinuation(s, base, i).value] == Filter(s[i..], ContinuesBase(base))[0]
    decreases |s| - i
  {
    if i < |s| {
      assert s[i..][0] == s[i] && s[i..][1..] == s[i + 1..];
      FindContinuationFirst(s, base, i + 1);
    }
  }

  /** The page-1 lines other than the first topmost one that continue it, in
      input order. */
  function Continuations(page: seq<TextLine>): seq<TextLine>
    requires page != []
  {
    var k := FirstLowest(page);
    Filter(Without(page, k), ContinuesBase(page[k]))
  }

  /** The title described without sorting. The base is the first page-1 line
      with the smallest top edge. The title is its text alone when no other
      page-1 line continues it, and otherwise its text joined with that of the
      first continuing line with the smallest top edge. */
  function TitleByScan(lines: seq<TextLine>): string {
    var page := FirstPage(lines);
    if page == [] then Untitled
    else
      var base := page[FirstLowest(page)];
      var cands := Continuations(page);
      if cands == [] then NormalizeTitle(base.text)
      else NormalizeTitle(base.text + " " + cands[FirstLowest(cands)].text)
  }

  /** What the title is made of: the sort in `extract_title` only serves to
      find the first topmost page-1 line and, among the other page-1 lines that
      continue it, the first topmost one. */
  lemma TitleFromTopmostLine(lines: seq<TextLine>)
    ensures TitleOf(lines) == TitleByScan(lines)
  {
    var page := FirstPage(lines);
    if page != [] {
      ScanFindsSortedContinuation(page);
    }
  }

  /** The scan of the sorted page-1 lines for a continuation finds the first
      topmost of the other lines that continue the base. */
  lemma ScanFindsSortedContinuation(page: seq<TextLine>)
    requires page != []
    ensures var sorted, cands := SortByTop(page), Continuations(page);
      var r := FindContinuation(sorted, sorted[0], 1);
      && sorted[0] == page[FirstLowest(page)]
      && (r.None? <==> cands == [])
      && (r.Some? ==> sorted[r.value] == cands[FirstLowest(cands)])
  {
    var k := FirstLowest(page);
    var base, rest, sorted := page[k], Without(page, k), SortByTop(page);
    var cands := Continuations(page);
    assert sorted[0] == base && sorted[1..] == SortByTop(rest) by {
      SortRemovesLowest(page);
    }
    assert Filter(sorted[1..], ContinuesBase(base)) == SortByTop(cands) by {
      FilterSorted(rest, ContinuesBase(base));
    }
    FindContinuationFirst(sorted, base, 1);
    if cands != [] {
      SortRemovesLowest(cands);
    }
  }

  /** The base line and its continuations are page-1 lines of the input. */
  lemma TitleLinesFromFirstPage(lines: seq<TextLine>)
    requires FirstPage(lines) != []
    ensures var page := FirstPage(lines);
      var base := page[FirstLowest(page)];
      base in lines && base.page == 1 &&
      forall c :: c in Continuations(page) ==> c in lines && c.page == 1
  {
    var page := FirstPage(lines);
    var k := FirstLowest(page);
    var rest := Without(page, k);
    FilterMembers(rest, ContinuesBase(page[k]));
    forall c | c in Continuations(page) ensures c in page {
      assert c in rest;
      assert rest == page[..k] + page[k + 1..];
    }
  }

  /** When no other page-1 line continues the topmost one, the title is the
      topmost line's text alone. */
  lemma TitleWithoutContinuation(lines: seq<TextLine>)
    requires FirstPage(lines) != []
    requires var page := FirstPage(lines); var base := page[FirstLowest(page)];
      forall c :: c in OtherFirstPageLines(lines, base) ==> !Continues(base, c)
    ensures var page := FirstPage(lines); TitleOf(lines) == NormalizeTitle(page[FirstLowest(page)].text)
  {
    var page := FirstPage(lines);
    var sorted := SortByTop(page);
    SortRemovesLowest(page);
    SortedTailIsRest(page);
    forall j | 1 <= j < |sorted|
      ensures !Continues(sorted[0], sorted[j])
    {
      assert sorted[j] in multiset(sorted[1..]);
    }
    NoContinuationFound(sorted, sorted[0], 1);
  }

  lemma {:induction false} NoContinuationFound(s: seq<TextLine>, base: TextLine, i: nat)
    requires i <= |s|
    requires forall j :: i <= j < |s| ==> !Continues(base, s[j])
    ensures FindContinuation(s, base, i) == None
    decreases |s| - i
  {
    if i < |s| {
      NoContinuationFound(s, base, i + 1);
    }
  }

  lemma UntitledIsClean()
    ensures Untitled[0] == 'U' && Untitled[|Untitled| - 1] == 't' && SingleSpaced(Untitled)
  {
    var u, d := "Untitled", "Document";
    assert Untitled == u + " " + d;
    assert forall i :: 0 <= i < |u| ==> 'A' <= u[i];
    assert forall i :: 0 <= i < |d| ==> 'A' <= d[i];
    WordsJoinedSingleSpaced(u, d);
  }

  /** `extract_title`: take the page-1 lines, sort a copy by top edge, append
      the first continuation of the topmost line, then clean the result up. */
  method ExtractTitle(lines: seq<TextLine>) returns (title: string)
    ensures title == TitleOf(lines)
  {
    var firstPage := FirstPage(lines);
    if firstPage == [] {
      return Untitled;
    }
    firstPage := SortByTop(firstPage);
    var base := firstPage[0];
    title := base.text;
    var i := 1;
    while i < |firstPage|
      invariant 1 <= i <= |firstPage|
      invariant title == base.text
      invariant FindContinuation(firstPage, base, 1) == FindContinuation(firstPage, base, i)
    {
      if Continues(base, firstPage[i]) {
        title := title + " " + firstPage[i].text;
        break;
      }
      i := i + 1;
    }
    title := NormalizeTitle(title);
  }

  lemma SortTwo(a: TextLine, b: TextLine)
    requires Top(a) <= Top(b)
    ensures SortByTop([a, b]) == [a, b]
  {
    assert [a, b][1..] == [b] && [b][1..] == [];
    assert SortByTop([b]) == [b];
  }

  lemma FirstPageTwo(a: TextLine, b: TextLine)
    requires a.page == 1 && b.page == 1
    ensures FirstPage([a, b]) == [a, b]
  {
    assert [a, b][1..] == [b] && [b][1..] == [];
    assert FirstPage([b]) == [b];
  }

  /** A page-1 line followed by one that continues it, lower on the page,
      makes a title of both texts. */
  lemma TwoLineTitle(a: TextLine, b: TextLine)
    requires a.page == 1 && b.page == 1
    requires Top(a) <= Top(b) && Continues(a, b)
    ensures TitleOf([a, b]) == NormalizeTitle(a.text + " " + b.text)
  {
    FirstPageTwo(a, b);
    SortTwo(a, b);
    assert FindContinuation([a, b], a, 1) == Some(1);
  }

  /** Two page-1 lines of the same size and flags, the second starting 2 units
      below the first one's bottom, make the single title "Deep Learning". */
  lemma ContinuedTitle(a: TextLine, b: TextLine, title: string)
    requires a == TextLine("Deep", 1, 22.0, 16, BBox(0.0, 0.0, 100.0, 20.0))
    requires b == TextLine("Learning", 1, 22.0, 16, BBox(0.0, 22.0, 100.0, 40.0))
    requires title == "Deep Learning"
    ensures TitleOf([a, b]) == title
  {
    assert a.text == "Deep" && b.text == "Learning";
    assert TitleOf([a, b]) == NormalizeTitle(a.text + " " + b.text) by {
      TwoLineTitle(a, b);
    }
    DeepLearningClean();
  }

  /** "Deep" and "Learning" joined by a space form a clean title. */
  lemma DeepLearningClean()
    ensures NormalizeTitle("Deep" + " " + "Learning") == "Deep Learning"
  {
    CleanTwoWords("Deep", "Learning", "Deep" + " " + "Learning");
    assert "Deep" + " " + "Learning" == "Deep Learning";
  }

  /** Two words of letters joined by one space form a clean title. */
  lemma CleanTwoWords(u: string, w: string, t: string)
    requires u != [] && w != [] && t == u + " " + w
    requires forall i :: 0 <= i < |u| ==> 'A' <= u[i] <= 'z'
    requires forall i :: 0 <= i < |w| ==> 'A' <= w[i] <= 'z'
    ensures NormalizeTitle(t) == t
  {
    forall i | 0 <= i < |t| && i != |u| ensures !IsSpace(t[i]) {
      if i < |u| {
        assert t[i] == u[i];
      } else {
        assert t[i] == w[i - |u| - 1];
      }
    }
    assert t[0] == u[0] && t[|u|] == ' ' && t[|u| + 1] == w[0] && t[|t| - 1] == w[|w| - 1];
    NormalizeFixesClean(t);
  }

  /** Two page-1 lines "Lab" and "Work" of the same size and flags, the second
      starting 2 units below the first one's bottom, make the title "Lab Work". */
  lemma LabWorkTitle(a: TextLine, b: TextLine)
    requires a.text == "Lab" && b.text == "Work" && a.page == 1 && b.page == 1
    requires a.fontSize == b.fontSize && a.fontFlags == b.fontFlags
    requires a.bbox.y0 == 0.0 && a.bbox.y1 == 20.0 && b.bbox.y0 == 22.0
    ensures TitleOf([a, b]) == "Lab Work"
  {
    assert TitleOf([a, b]) == NormalizeTitle(a.text + " " + b.text) by {
      TwoLineTitle(a, b);
    }
    LabWorkClean();
  }

  /** "Lab" and "Work" joined by a space form a clean title. */
  lemma LabWorkClean()
    ensures NormalizeTitle("Lab" + " " + "Work") == "Lab Work"
  {
    CleanTwoWords("Lab", "Work", "Lab" + " " + "Work");
    assert "Lab" + " " + "Work" == "Lab Work";
  }
}
