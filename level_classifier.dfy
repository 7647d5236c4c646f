/** The level classifier of `PDFOutlineExtractor.classify_heading_level`: a
    line's font size is ranked against the document's distinct font sizes, from
    the largest down, with a tolerance band; boldness splits the second tier. */
module LevelClassifier {
  import opened Lines

  /** Sizes within this distance below a tier still belong to it. */
  const Tolerance: real := 0.1

  /** The font-flag bit that marks bold text (bit 4). */
  const BoldBit: int := 16

  /** `flags & 16 != 0`. Dafny's division by a positive number rounds down, as
      Python's does, so this agrees with the bit test on negative flags too. */
  function IsBold(flags: int): (b: bool)
    ensures b <==> flags % (2 * BoldBit) >= BoldBit
  {
    var q, r := flags / (2 * BoldBit), flags % (2 * BoldBit);
    assert flags == 2 * BoldBit * q + r;
    assert flags / BoldBit == 2 * q + r / BoldBit;
    (flags / BoldBit) % 2 == 1
  }

  predicate StrictlyDescending(u: seq<real>) {
    forall i, j :: 0 <= i < j < |u| ==> u[i] > u[j]
  }

  /** Adds `x` to a strictly descending list unless it is already there. */
  function InsertDescending(x: real, u: seq<real>): (r: seq<real>)
    requires StrictlyDescending(u)
    ensures StrictlyDescending(r)
    ensures forall y :: y in r <==> y == x || y in u
  {
    if u == [] then [x]
    else if x > u[0] then [x] + u
    else if x == u[0] then u
    else
      var r := InsertDescending(x, u[1..]);
      assert forall y :: y in u[1..] ==> y < u[0];
      assert forall j :: 0 <= j < |r| ==> r[j] in r && r[j] < u[0];
      [u[0]] + r
  }

  /** `sorted(set(sizes), reverse=True)`: each distinct size once, largest first. */
  function DistinctDescending(sizes: seq<real>): (u: seq<real>)
    ensures StrictlyDescending(u)
    ensures forall y :: y in u <==> y in sizes
  {
    if sizes == [] then [] else InsertDescending(sizes[0], DistinctDescending(sizes[1..]))
  }

  /** The classifier. `allSizes` holds every line's size, duplicates included;
      the source indexes its first distinct size, so it must not be empty. */
  function ClassifyHeadingLevel(fontSize: real, allSizes: seq<real>, flags: int): (level: Level)
    requires |allSizes| > 0
    ensures level == H1 <==> forall i :: 0 <= i < |allSizes| ==> fontSize >= allSizes[i] - Tolerance
    ensures level == H2 ==> IsBold(flags)
  {
    var u := DistinctDescending(allSizes);
    assert allSizes[0] in u;
    assert forall i :: 0 <= i < |allSizes| ==> allSizes[i] in u;
    assert forall y :: y in u ==> y <= u[0];
    assert u[0] in allSizes;
    if fontSize >= u[0] - Tolerance then H1
    else if |u| > 1 && fontSize >= u[1] - Tolerance then (if IsBold(flags) then H2 else H3)
    else if |u| > 2 && fontSize >= u[2] - Tolerance then H3
    else H4
  }

  /** The distinct sizes of the document that lie strictly above `x`. */
  function SizesAbove(x: real, allSizes: seq<real>): set<real> {
    set s | s in allSizes && s > x
  }

  /** The level of a line with `above` distinct sizes more than the tolerance
      above its own size. */
  function LevelForRank(above: nat, bold: bool): Level {
    if above == 0 then H1
    else if above == 1 then (if bold then H2 else H3)
    else if above == 2 then H3
    else H4
  }

  /** How many leading entries of `u` lie above `x`. */
  function LeadingAbove(u: seq<real>, x: real): (k: nat)
    ensures k <= |u|
    ensures forall i :: 0 <= i < k ==> u[i] > x
    ensures k < |u| ==> u[k] <= x
  {
    if u == [] || u[0] <= x then 0 else 1 + LeadingAbove(u[1..], x)
  }

  /** In a strictly descending list the entries above `x` are exactly its
      leading ones, and there are as many of them as they are long. */
  lemma {:induction false} CountAbove(u: seq<real>, x: real)
    requires StrictlyDescending(u)
    ensures |set s | s in u && s > x| == LeadingAbove(u, x)
    decreases |u|
  {
    if u == [] {
      assert (set s | s in u && s > x) == {};
    } else if u[0] <= x {
      assert (set s | s in u && s > x) == {};
    } else {
      CountAbove(u[1..], x);
      var rest := set s | s in u[1..] && s > x;
      assert (set s | s in u && s > x) == {u[0]} + rest;
      assert u[0] !in rest;
    }
  }

  /** The classifier agrees with the reference definition: a line is ranked by
      how many distinct document sizes exceed its own by more than the tolerance,
      and is H4 when every size does. */
  lemma ClassifyByRank(fontSize: real, allSizes: seq<real>, flags: int)
    requires |allSizes| > 0
    ensures ClassifyHeadingLevel(fontSize, allSizes, flags) ==
      if exists i :: 0 <= i < |allSizes| && allSizes[i] <= fontSize + Tolerance
      then LevelForRank(|SizesAbove(fontSize + Tolerance, allSizes)|, IsBold(flags))
      else H4
  {
    var u := DistinctDescending(allSizes);
    var x := fontSize + Tolerance;
    assert SizesAbove(x, allSizes) == set s | s in u && s > x;
    CountAbove(u, x);
    var k := LeadingAbove(u, x);
    if exists i :: 0 <= i < |allSizes| && allSizes[i] <= x {
      var i :| 0 <= i < |allSizes| && allSizes[i] <= x;
      assert allSizes[i] in u;
      assert k < |u|;
    } else {
      forall j | 0 <= j < |u| ensures u[j] > x {
        assert u[j] in allSizes;
      }
      assert k == |u|;
    }
  }

  lemma StrictSubsetSmaller(small: set<real>, big: set<real>, a: real)
    requires small <= big && a in big && a !in small
    ensures |small| < |big|
  {
    var extra := big - small;
    assert extra == (extra - {a}) + {a};
    assert big == small + extra && small * extra == {};
  }

  lemma LevelForRankMonotone(k1: nat, k2: nat, b1: bool, b2: bool)
    requires k1 < k2
    ensures LevelForRank(k1, b1).Rank() <= LevelForRank(k2, b2).Rank()
  {
  }

  /** Level monotonicity: of two sizes of the document, the one more than the
      tolerance larger gets a level at least as prominent, whatever the flags. */
  lemma LevelMonotone(allSizes: seq<real>, i: nat, j: nat, flagsI: int, flagsJ: int)
    requires i < |allSizes| && j < |allSizes|
    requires allSizes[i] > allSizes[j] + Tolerance
    ensures ClassifyHeadingLevel(allSizes[i], allSizes, flagsI).Rank()
         <= ClassifyHeadingLevel(allSizes[j], allSizes, flagsJ).Rank()
  {
    var a, b := allSizes[i], allSizes[j];
    ClassifyByRank(a, allSizes, flagsI);
    ClassifyByRank(b, allSizes, flagsJ);
    var aboveA := SizesAbove(a + Tolerance, allSizes);
    var aboveB := SizesAbove(b + Tolerance, allSizes);
    assert aboveA <= aboveB;
    assert a in aboveB && a !in aboveA;
    StrictSubsetSmaller(aboveA, aboveB, a);
    LevelForRankMonotone(|aboveA|, |aboveB|, IsBold(flagsI), IsBold(flagsJ));
  }

  /** The bold bit matters only in the second tier, where exactly one distinct
      size lies more than the tolerance above the line, and there it chooses
      between H2 and H3. */
  lemma BoldSplitsSecondTierOnly(fontSize: real, allSizes: seq<real>, flags1: int, flags2: int)
    requires |allSizes| > 0
    requires ClassifyHeadingLevel(fontSize, allSizes, flags1) != ClassifyHeadingLevel(fontSize, allSizes, flags2)
    ensures |SizesAbove(fontSize + Tolerance, allSizes)| == 1
    ensures {ClassifyHeadingLevel(fontSize, allSizes, flags1), ClassifyHeadingLevel(fontSize, allSizes, flags2)} == {H2, H3}
    ensures IsBold(flags1) != IsBold(flags2)
  {
    ClassifyByRank(fontSize, allSizes, flags1);
    ClassifyByRank(fontSize, allSizes, flags2);
  }

  /** Two size tiers below the largest: at 18 the bold line is H2 and the plain
      one H3, and at 12, the third distinct size, a plain line is H3. */
  lemma TwoTierDocument(sizes: seq<real>)
    requires sizes == [24.0, 18.0, 18.0, 12.0]
    ensures ClassifyHeadingLevel(18.0, sizes, 16) == H2
    ensures ClassifyHeadingLevel(18.0, sizes, 0) == H3
    ensures ClassifyHeadingLevel(12.0, sizes, 0) == H3
    ensures ClassifyHeadingLevel(24.0, sizes, 0) == H1
  {
    var u := DistinctDescending(sizes);
    assert |u| >= 3 && u[0] == 24.0 && u[1] == 18.0 && u[2] == 12.0 by {
      assert 24.0 in u && 18.0 in u && 12.0 in u;
      assert forall y :: y in u ==> y == 24.0 || y == 18.0 || y == 12.0;
      DescendingOfThree(u, 24.0, 18.0, 12.0);
    }
  }

  /** A strictly descending list holding exactly three given values starts
      with them in descending order. */
  lemma DescendingOfThree(u: seq<real>, a: real, b: real, c: real)
    requires StrictlyDescending(u) && a > b > c
    requires a in u && b in u && c in u
    requires forall y :: y in u ==> y == a || y == b || y == c
    ensures |u| >= 3 && u[0] == a && u[1] == b && u[2] == c
  {
    var ia :| 0 <= ia < |u| && u[ia] == a;
    var ib :| 0 <= ib < |u| && u[ib] == b;
    var ic :| 0 <= ic < |u| && u[ic] == c;
    assert u[0] in u && u[0] == a;
    assert ib > 0 && u[1] in u && u[1] == b;
    assert ic > 1 && u[2] in u && u[2] == c;
  }
}
