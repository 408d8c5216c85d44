/** The regular expressions of the analyzer, written as predicates over characters.
    Where a pattern lets the regex engine backtrack (`\s+\d+`, `\d+\b`, `\s\d+$`) it is
    given twice: as a greedy scan, which the analyzer uses, and as the regex's own
    meaning (some way of splitting the text matches), and the two are proved equal. */
module Patterns {
  import opened Chars

  // ---------------------------------------------------------------------------
  // Caption pattern /^Figure\s+\d+\s*[:\-–]?/i (insertimagelegend.js line 69).
  // Its tail `\s*[:\-–]?` can always match the empty string, so it never decides
  // whether `test` succeeds and is left out.
  // ---------------------------------------------------------------------------

  /** Regex meaning: "figure" (any ASCII case) at the start, then one or more
      whitespace characters, then one or more digits. */
  ghost predicate CaptionRegex(s: string) {
    MatchAtCI(s, 0, "figure") &&
    exists k, m | 6 < k < m <= |s| :: All(s, 6, k, IsSpace) && All(s, k, m, IsDigit)
  }

  /** Greedy scan: after "figure", the maximal whitespace run is non-empty and is
      followed by a digit. */
  predicate IsCaptionText(s: string) {
    MatchAtCI(s, 0, "figure") &&
    var k := 6 + RunFrom(s, 6, IsSpace);
    6 < k < |s| && IsDigit(s[k])
  }

  lemma CaptionTextIsCaptionRegex(s: string)
    ensures IsCaptionText(s) <==> CaptionRegex(s)
  {
    if IsCaptionText(s) {
      var k := 6 + RunFrom(s, 6, IsSpace);
      RunFromSpec(s, 6, IsSpace);
      assert All(s, 6, k, IsSpace) && All(s, k, k + 1, IsDigit);
    }
    if CaptionRegex(s) {
      var k, m :| 6 < k < m <= |s| && All(s, 6, k, IsSpace) && All(s, k, m, IsDigit);
      assert IsDigit(s[k]);
      RunFromExact(s, 6, k, IsSpace);
    }
  }

  // ---------------------------------------------------------------------------
  // Heuristic row pattern /\bFigure\s*\d+\b/i (line 131).
  // ---------------------------------------------------------------------------

  /** `\b` just before position i, where s[i] is a word character ('F' or 'f'). */
  predicate WordStartAt(s: string, i: nat)
    requires i <= |s|
  {
    i == 0 || !IsWordChar(s[i - 1])
  }

  /** `\b` just after position m - 1, where s[m - 1] is a word character (a digit). */
  predicate WordEndAt(s: string, m: nat)
    requires m <= |s|
  {
    m == |s| || !IsWordChar(s[m])
  }

  /** Regex meaning: some occurrence of "figure" at a word start, then whitespace,
      then digits that end at a word boundary. */
  ghost predicate FigureNumberRegex(s: string) {
    exists i, k, m | 0 <= i && i + 6 <= k < m <= |s| ::
      WordStartAt(s, i) && MatchAtCI(s, i, "figure") &&
      All(s, i + 6, k, IsSpace) && All(s, k, m, IsDigit) && WordEndAt(s, m)
  }

  /** Greedy scan at one candidate position i. */
  predicate FigureNumberAt(s: string, i: nat) {
    i + 6 <= |s| && WordStartAt(s, i) && MatchAtCI(s, i, "figure") &&
    var k := i + 6 + RunFrom(s, i + 6, IsSpace);
    var m := k + RunFrom(s, k, IsDigit);
    k < m && WordEndAt(s, m)
  }

  /** The scan tried at every candidate position from i on, left to right. */
  predicate FigureNumberFrom(s: string, i: nat)
    decreases |s| - i
  {
    i + 6 <= |s| && (FigureNumberAt(s, i) || FigureNumberFrom(s, i + 1))
  }

  predicate HasFigureNumber(s: string) {
    FigureNumberFrom(s, 0)
  }

  lemma {:induction false} FigureNumberFromMeaning(s: string, i: nat)
    ensures FigureNumberFrom(s, i) <==> exists j | i <= j :: FigureNumberAt(s, j)
    decreases |s| - i
  {
    if i + 6 <= |s| {
      if FigureNumberAt(s, i) {
        assert i <= i && FigureNumberAt(s, i);
      } else {
        FigureNumberFromMeaning(s, i + 1);
        assert forall j | i <= j && FigureNumberAt(s, j) :: i + 1 <= j;
      }
    } else {
      assert forall j | i <= j :: !FigureNumberAt(s, j);
    }
  }

  /** A successful greedy scan at i is a way for the regex to match. */
  lemma FigureNumberAtIsRegex(s: string, i: nat)
    requires FigureNumberAt(s, i)
    ensures FigureNumberRegex(s)
  {
    var k := i + 6 + RunFrom(s, i + 6, IsSpace);
    var m := k + RunFrom(s, k, IsDigit);
    assert k < m && WordEndAt(s, m);
    RunFromSpec(s, i + 6, IsSpace);
    RunFromSpec(s, k, IsDigit);
    assert 0 <= i && i + 6 <= k < m <= |s| && WordStartAt(s, i) && MatchAtCI(s, i, "figure") &&
      All(s, i + 6, k, IsSpace) && All(s, k, m, IsDigit) && WordEndAt(s, m);
  }

  /** Wherever the regex can match, the greedy scan at the same "figure" succeeds:
      the greedy runs cannot overshoot, since whitespace is not a digit and a digit
      is a word character. */
  lemma RegexIsFigureNumberAt(s: string, i: nat, k: nat, m: nat)
    requires i + 6 <= k < m <= |s|
    requires WordStartAt(s, i) && MatchAtCI(s, i, "figure")
    requires All(s, i + 6, k, IsSpace) && All(s, k, m, IsDigit) && WordEndAt(s, m)
    ensures FigureNumberAt(s, i)
  {
    assert IsDigit(s[k]);
    RunFromExact(s, i + 6, k, IsSpace);
    RunFromExact(s, k, m, IsDigit);
  }

  lemma HasFigureNumberIsFigureNumberRegex(s: string)
    ensures HasFigureNumber(s) <==> FigureNumberRegex(s)
  {
    FigureNumberFromMeaning(s, 0);
    if HasFigureNumber(s) {
      var i :| 0 <= i && FigureNumberAt(s, i);
      FigureNumberAtIsRegex(s, i);
    }
    if FigureNumberRegex(s) {
      var i, k, m :| 0 <= i && i + 6 <= k < m <= |s| &&
        WordStartAt(s, i) && MatchAtCI(s, i, "figure") &&
        All(s, i + 6, k, IsSpace) && All(s, k, m, IsDigit) && WordEndAt(s, m);
      RegexIsFigureNumberAt(s, i, k, m);
    }
  }

  // ---------------------------------------------------------------------------
  // Page-number pattern /\s\d+$/ (lines 131 and 144).
  // ---------------------------------------------------------------------------

  /** Regex meaning: a whitespace character followed by digits up to the end. */
  ghost predicate PageNumberRegex(s: string) {
    exists i | 0 <= i && i + 1 < |s| :: IsSpace(s[i]) && All(s, i + 1, |s|, IsDigit)
  }

  /** Greedy scan from the end: the maximal trailing digit run is non-empty and is
      preceded by whitespace. */
  predicate EndsWithPageNumber(s: string) {
    var d := RunBefore(s, |s|, IsDigit);
    0 < d < |s| && IsSpace(s[|s| - d - 1])
  }

  lemma EndsWithPageNumberIsPageNumberRegex(s: string)
    ensures EndsWithPageNumber(s) <==> PageNumberRegex(s)
  {
    RunBeforeSpec(s, |s|, IsDigit);
    if EndsWithPageNumber(s) {
      var d := RunBefore(s, |s|, IsDigit);
      assert IsSpace(s[|s| - d - 1]) && All(s, |s| - d, |s|, IsDigit);
    }
    if PageNumberRegex(s) {
      var i :| 0 <= i && i + 1 < |s| && IsSpace(s[i]) && All(s, i + 1, |s|, IsDigit);
      assert !IsDigit(s[i]);
      RunBeforeExact(s, i + 1, |s|, IsDigit);
    }
  }

  // ---------------------------------------------------------------------------
  // Patterns without backtracking: written directly.
  // ---------------------------------------------------------------------------

  /** Three dots in a row at position i. */
  predicate DotsAt(s: string, i: nat) {
    i + 3 <= |s| && s[i] == '.' && s[i + 1] == '.' && s[i + 2] == '.'
  }

  predicate DotLeaderFrom(s: string, i: nat)
    decreases |s| - i
  {
    i + 3 <= |s| && (DotsAt(s, i) || DotLeaderFrom(s, i + 1))
  }

  /** /\.{3,}/: three dots in a row somewhere (a dot leader). */
  predicate HasDotLeader(s: string) {
    DotLeaderFrom(s, 0)
  }

  lemma {:induction false} DotLeaderFromMeaning(s: string, i: nat)
    ensures DotLeaderFrom(s, i) <==> exists j | i <= j :: DotsAt(s, j)
    decreases |s| - i
  {
    if i + 3 <= |s| {
      if DotsAt(s, i) {
        assert i <= i && DotsAt(s, i);
      } else {
        DotLeaderFromMeaning(s, i + 1);
        assert forall j | i <= j && DotsAt(s, j) :: i + 1 <= j;
      }
    } else {
      assert forall j | i <= j :: !DotsAt(s, j);
    }
  }

  lemma HasDotLeaderMeaning(s: string)
    ensures HasDotLeader(s) <==> exists j | 0 <= j :: DotsAt(s, j)
  {
    DotLeaderFromMeaning(s, 0);
  }

  /** `txt.indexOf('\t') !== -1`. */
  predicate HasTab(s: string) {
    '\t' in s
  }

  /** "toc" in any ASCII case at i, followed by a non-word character or the end. */
  predicate TocAt(s: string, i: nat) {
    i + 3 <= |s| && MatchAtCI(s, i, "toc") && WordEndAt(s, i + 3)
  }

  predicate TocFrom(s: string, i: nat)
    decreases |s| - i
  {
    i + 3 <= |s| && (TocAt(s, i) || TocFrom(s, i + 1))
  }

  /** /TOC\b/i. */
  predicate HasTocWord(s: string) {
    TocFrom(s, 0)
  }

  lemma {:induction false} TocFromMeaning(s: string, i: nat)
    ensures TocFrom(s, i) <==> exists j | i <= j :: TocAt(s, j)
    decreases |s| - i
  {
    if i + 3 <= |s| {
      if TocAt(s, i) {
        assert i <= i && TocAt(s, i);
      } else {
        TocFromMeaning(s, i + 1);
        assert forall j | i <= j && TocAt(s, j) :: i + 1 <= j;
      }
    } else {
      assert forall j | i <= j :: !TocAt(s, j);
    }
  }

  lemma HasTocWordMeaning(s: string)
    ensures HasTocWord(s) <==> exists j | 0 <= j :: TocAt(s, j)
  {
    TocFromMeaning(s, 0);
  }

  /** /TOC\b|tableof|table of figures|table des illustrations|liste des figures|table des figures/i
      (lines 107 and 118): a field instruction that builds a table of contents or a list of figures. */
  predicate IsListFieldInstr(s: string) {
    HasTocWord(s) ||
    ContainsCI(s, "tableof") ||
    ContainsCI(s, "table of figures") ||
    ContainsCI(s, "table des illustrations") ||
    ContainsCI(s, "liste des figures") ||
    ContainsCI(s, "table des figures")
  }

  /** Line 131: a paragraph that looks like a row of a list of figures. */
  predicate IsListRow(s: string) {
    HasFigureNumber(s) && (HasDotLeader(s) || EndsWithPageNumber(s) || HasTab(s))
  }

  /** Line 144: a paragraph accepted as an entry of the list of figures. */
  predicate IsListEntry(s: string) {
    IsCaptionText(s) ||
    (ContainsCI(s, "figure") && (EndsWithPageNumber(s) || HasDotLeader(s) || HasTab(s)))
  }

  /** Every paragraph that passes the row heuristic is also accepted as an entry:
      the row pattern's "figure" is a case-insensitive occurrence of "figure". */
  lemma ListRowIsListEntry(s: string)
    requires IsListRow(s)
    ensures IsListEntry(s)
  {
    FigureNumberFromMeaning(s, 0);
    var i :| 0 <= i && FigureNumberAt(s, i);
    var w := "figure";
    assert MatchAtCI(s, i, w);
    ContainsCIMeaning(s, w);
    assert exists j | 0 <= j && j + |w| <= |s| :: MatchAtCI(s, j, w) by {
      assert 0 <= i && i + |w| <= |s| && MatchAtCI(s, i, w);
    }
    assert HasDotLeader(s) || EndsWithPageNumber(s) || HasTab(s);
  }
}
