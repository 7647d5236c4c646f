/** The heading filter of `PDFOutlineExtractor.is_heading_candidate`: a line is
    a plausible heading when it is long enough, is not prose-like punctuation,
    and contains none of the boilerplate words. */
module HeadingFilter {
  import opened Textual

  /** Shorter (lower-cased) texts are never headings. */
  const MinLength: nat := 3

  /** The punctuation marks whose presence is counted. */
  const Punctuation: string := ".,;:!?"

  /** A text is rejected when more than this many of the marks occur in it. */
  const PunctuationLimit: nat := 5

  /** Substrings of captions, links, legal and form lines. */
  const Blacklist: seq<string> :=
    ["figure", "table", "http", "@", "email", "copyright",
     "isbn", "doi", "page", "signature", "name of", "date of"]

  /** `sum(c in t for c in marks)`: how many of the marks occur in `t` at all,
      however often each occurs. */
  function MarksPresent(t: string, marks: string): (n: nat)
    ensures n <= |marks|
    decreases |marks|
  {
    if marks == [] then 0
    else (if marks[0] in t then 1 else 0) + MarksPresent(t, marks[1..])
  }

  /** The count reaches its maximum exactly when every mark occurs. */
  lemma {:induction false} MarksPresentAll(t: string, marks: string)
    ensures MarksPresent(t, marks) == |marks| <==> forall c :: c in marks ==> c in t
    decreases |marks|
  {
    if marks != [] {
      MarksPresentAll(t, marks[1..]);
      assert forall c :: c in marks <==> c == marks[0] || c in marks[1..];
    }
  }

  /** `any(w in t for w in words)`, scanning the words in order. */
  function AnyContained(t: string, words: seq<string>): (found: bool)
    ensures found ==> words != []
    decreases |words|
  {
    words != [] && (Contains(t, words[0]) || AnyContained(t, words[1..]))
  }

  /** The scan finds a word exactly when some word of the list occurs in `t`. */
  lemma {:induction false} AnyContainedExists(t: string, words: seq<string>)
    ensures AnyContained(t, words) <==> exists w :: w in words && Contains(t, w)
    decreases |words|
  {
    if words != [] {
      AnyContainedExists(t, words[1..]);
      assert forall w :: w in words <==> w == words[0] || w in words[1..];
    }
  }

  /** The heading filter. Because `MarksPresent` counts distinct marks, the
      punctuation test rejects only texts in which all six marks occur. */
  function IsHeadingCandidate(text: string): (ok: bool)
    ensures ok ==> |text| >= MinLength
  {
    var t := Lower(text);
    if |t| < MinLength || MarksPresent(t, Punctuation) > PunctuationLimit then false
    else !AnyContained(t, Blacklist)
  }

  /** What the filter accepts: texts of at least three characters that lack at
      least one of the six marks and contain no blacklisted word, both tested on
      the lower-cased text. */
  lemma HeadingCandidateMeaning(text: string)
    ensures IsHeadingCandidate(text) <==>
      && |text| >= MinLength
      && !(forall c :: c in Punctuation ==> c in Lower(text))
      && !(exists w :: w in Blacklist && Contains(Lower(text), w))
  {
    MarksPresentAll(Lower(text), Punctuation);
    AnyContainedExists(Lower(text), Blacklist);
  }

  /** The filter looks at the lower-cased text only, so lower-casing first changes nothing. */
  lemma CandidateIgnoresCase(text: string)
    ensures IsHeadingCandidate(Lower(text)) == IsHeadingCandidate(text)
  {
    LowerIdempotent(text);
  }

  /** A figure caption never passes the filter. */
  lemma FigureCaptionRejected(text: string)
    requires text == "Figure 3: results"
    ensures !IsHeadingCandidate(text)
  {
    var t := Lower(text);
    assert t[0] == 'f' && t[1] == 'i' && t[2] == 'g' && t[3] == 'u' && t[4] == 'r' && t[5] == 'e';
    assert Contains(t, Blacklist[0]) by { assert "figure" <= t[0..]; }
  }

  /** Heavy punctuation alone does not reject a text: any text of at least
      three digits, full stops and spaces is a candidate, however many full
      stops it has, since only one of the six marks occurs in it. */
  lemma NumberingAccepted(text: string)
    requires |text| >= MinLength
    requires forall i :: 0 <= i < |text| ==> text[i] == '.' || text[i] == ' ' || '0' <= text[i] <= '9'
    ensures IsHeadingCandidate(text)
  {
    LowerOfLowercase(text);
    assert MarksPresent(text, Punctuation) <= PunctuationLimit by {
      assert ',' in Punctuation && ',' !in text;
      MarksPresentAll(text, Punctuation);
    }
    NoLettersNoBlacklisted(text);
  }

  /** Every blacklisted word starts with a lower-case letter or `@`, so a text
      without either contains none of them. */
  lemma NoLettersNoBlacklisted(t: string)
    requires forall i :: 0 <= i < |t| ==> !('a' <= t[i] <= 'z') && t[i] != '@'
    ensures !AnyContained(t, Blacklist)
  {
    forall w | w in Blacklist
      ensures !Contains(t, w)
    {
      BlacklistInitial(w);
      MissingFirstChar(t, w);
    }
    AnyContainedExists(t, Blacklist);
  }

  /** The first characters of the blacklisted words. */
  const BlacklistInitials: set<char> := {'f', 't', 'h', '@', 'e', 'c', 'i', 'd', 'p', 's', 'n'}

  /** A text holding none of the blacklist's initial characters contains no
      blacklisted word. */
  lemma NoInitialsNoBlacklisted(t: string)
    requires forall i :: 0 <= i < |t| ==> t[i] !in BlacklistInitials
    ensures !AnyContained(t, Blacklist)
  {
    forall w | w in Blacklist
      ensures !Contains(t, w)
    {
      BlacklistInitial(w);
      MissingFirstChar(t, w);
    }
    AnyContainedExists(t, Blacklist);
  }

  /** A text is accepted when it has at least three characters, no full stop,
      and, lower-cased, none of the blacklist's initial characters. */
  lemma AcceptedWithoutInitials(text: string, lower: string)
    requires lower == Lower(text)
    requires |lower| >= MinLength && '.' !in lower
    requires forall i :: 0 <= i < |lower| ==> lower[i] !in BlacklistInitials
    ensures IsHeadingCandidate(text)
  {
    NoInitialsNoBlacklisted(lower);
  }

  lemma BlacklistInitial(w: string)
    requires w in Blacklist
    ensures w != [] && ('a' <= w[0] <= 'z' || w[0] == '@') && w[0] in BlacklistInitials
  {
  }

  /** A text in which all six marks occur is rejected, however short or
      heading-like the rest of it is. */
  lemma AllMarksRejected(text: string)
    requires forall c :: c in Punctuation ==> c in text
    ensures !IsHeadingCandidate(text)
  {
    var t := Lower(text);
    assert MarksPresent(t, Punctuation) == |Punctuation| by {
      forall c | c in Punctuation ensures c in t {
        LowerKeepsNonCapital(text, c);
      }
      MarksPresentAll(t, Punctuation);
    }
  }

  /** "Lab" and "Work", in any case, pass the heading filter. */
  lemma LabWorkAccepted(u: string)
    requires Lower(u) == "lab" || Lower(u) == "work"
    ensures IsHeadingCandidate(u)
  {
    InitialFree(Lower(u));
    AcceptedWithoutInitials(u, Lower(u));
  }

  /** The two lower-cased example words have neither a full stop nor an
      initial of the blacklist. */
  lemma InitialFree(lower: string)
    requires lower == "lab" || lower == "work"
    ensures |lower| >= MinLength && '.' !in lower
    ensures forall i :: 0 <= i < |lower| ==> lower[i] !in BlacklistInitials
  {
  }
}
