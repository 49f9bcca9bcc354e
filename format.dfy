/** The structural check on a response (`verify_format` and the pattern
    `format_pattern` in examples/scripts/math_verifier.py). */
module Format {
  import opened Text

  const ThinkOpen: string := "<think>"
  const ThinkClose: string := "</think>"
  const AnswerOpen: string := "<answer>"
  const AnswerClose: string := "</answer>"

  /** The response made of think section `x` and answer section `y`. */
  function Compose(x: string, y: string): string {
    ThinkOpen + x + ThinkClose + AnswerOpen + y + AnswerClose
  }

  /** `s` is think section `x` and answer section `y` laid out as the pattern
      demands: the think section holds no closing think tag and the answer
      section no closing answer tag. */
  ghost predicate IsFormatted(s: string, x: string, y: string) {
    s == Compose(x, y) && !Contains(x, ThinkClose) && !Contains(y, AnswerClose)
  }

  // The pattern `^<think>(?:(?!</think>).)*</think><answer>(?:(?!</answer>).)*</answer>\Z`
  // under `re.match` and `re.DOTALL`, scanned as the regex engine runs it.
  // The negative lookahead leaves the engine no choice at any position, so
  // the scan never needs to backtrack.

  /** `(?:(?!</think>).)*</think>` and the rest of the pattern, from index `i`. */
  function ScanThink(s: string, i: nat): bool
    decreases |s| - i
  {
    if OccursAt(s, i, ThinkClose) then AfterThink(s, i + |ThinkClose|)
    else i < |s| && ScanThink(s, i + 1)
  }

  /** `<answer>(?:(?!</answer>).)*</answer>\Z` from index `j`. */
  predicate AfterThink(s: string, j: nat) {
    OccursAt(s, j, AnswerOpen) && ScanAnswer(s, j + |AnswerOpen|)
  }

  /** `(?:(?!</answer>).)*</answer>\Z` from index `i`. */
  function ScanAnswer(s: string, i: nat): bool
    decreases |s| - i
  {
    if OccursAt(s, i, AnswerClose) then i + |AnswerClose| == |s|
    else i < |s| && ScanAnswer(s, i + 1)
  }

  /** `re.match(format_pattern, s, re.DOTALL)` succeeds. */
  predicate MatchesPattern(s: string) {
    OccursAt(s, 0, ThinkOpen) && ScanThink(s, |ThinkOpen|)
  }

  /** `verify_format(s)`: the pattern matches and each opening tag is counted
      once. */
  predicate VerifyFormat(s: string) {
    MatchesPattern(s) && Count(s, ThinkOpen) == 1 && Count(s, AnswerOpen) == 1
  }

  /** An accepted response starts with the opening think tag, ends with the
      closing answer tag and has room for all four tags. */
  lemma FormatFrame(s: string)
    requires VerifyFormat(s)
    ensures |s| >= |Compose([], [])| && OccursAt(s, 0, ThinkOpen)
    ensures OccursAt(s, |s| - |AnswerClose|, AnswerClose)
  {
    PatternSound(s);
    var x, y :| IsFormatted(s, x, y);
    ComposeSlices(s, x, y);
  }

  /** An accepted response neither starts nor ends with whitespace, so
      stripping leaves it as it is. */
  lemma FormattedIsStripped(s: string)
    requires VerifyFormat(s)
    ensures Strip(s) == s
  {
    FormatFrame(s);
    var e := |s| - |AnswerClose|;
    assert s[0] == s[0..|ThinkOpen|][0] == '<';
    assert s[|s| - 1] == s[e..e + |AnswerClose|][|AnswerClose| - 1] == '>';
  }

  /** No tag repeats its leading character, so no tag overlaps itself. */
  lemma TagsLeadUnique()
    ensures LeadUnique(ThinkOpen) && LeadUnique(ThinkClose)
    ensures LeadUnique(AnswerOpen) && LeadUnique(AnswerClose)
  {
    forall k | 0 < k < 8 ensures ThinkClose[k] != '<' && AnswerOpen[k] != '<' && AnswerClose[k] != '<' {
      assert k in {1, 2, 3, 4, 5, 6, 7};
    }
    assert AnswerClose[8] != '<';
    forall k | 0 < k < 7 ensures ThinkOpen[k] != '<' {
      assert k in {1, 2, 3, 4, 5, 6};
    }
  }

  /** Where each part of `Compose(x, y)` sits. */
  lemma ComposeSlices(s: string, x: string, y: string)
    requires s == Compose(x, y)
    ensures
      && |s| == |x| + |y| + 32
      && OccursAt(s, 0, ThinkOpen)
      && OccursAt(s, 7, x)
      && OccursAt(s, 7 + |x|, ThinkClose)
      && OccursAt(s, 15 + |x|, AnswerOpen)
      && OccursAt(s, 23 + |x|, y)
      && OccursAt(s, 23 + |x| + |y|, AnswerClose)
  {
  }

  /** The answer scan succeeds exactly when the first closing answer tag
      from `i` on ends the string. */
  lemma {:induction false} ScanAnswerFind(s: string, i: nat)
    ensures ScanAnswer(s, i) <==>
      var r := FindFrom(s, AnswerClose, i); r.Some? && r.value + |AnswerClose| == |s|
    decreases |s| - i
  {
    if !OccursAt(s, i, AnswerClose) && i < |s| {
      ScanAnswerFind(s, i + 1);
    }
  }

  /** The think scan succeeds exactly when the rest of the pattern matches
      right after the first closing think tag from `i` on. */
  lemma {:induction false} ScanThinkFind(s: string, i: nat)
    ensures ScanThink(s, i) <==>
      var r := FindFrom(s, ThinkClose, i); r.Some? && AfterThink(s, r.value + |ThinkClose|)
    decreases |s| - i
  {
    if !OccursAt(s, i, ThinkClose) && i < |s| {
      ScanThinkFind(s, i + 1);
    }
  }

  /** A string with the four tags at these places is the composition of
      what lies between them. */
  lemma Reassemble(s: string, k: nat, e: nat)
    requires OccursAt(s, 0, ThinkOpen) && 7 <= k
    requires OccursAt(s, k, ThinkClose) && OccursAt(s, k + 8, AnswerOpen)
    requires k + 16 <= e && OccursAt(s, e, AnswerClose) && e + 9 == |s|
    ensures s == Compose(s[7..k], s[k + 16..e])
  {
    var x, y := s[7..k], s[k + 16..e];
    var c := Compose(x, y);
    assert |c| == |s|;
    forall j | 0 <= j < |s|
      ensures c[j] == s[j]
    {
      if j < 7 {
        assert s[j] == s[0..7][j];
      } else if j < k {
        assert s[j] == x[j - 7];
      } else if j < k + 8 {
        assert s[j] == s[k..k + 8][j - k];
      } else if j < k + 16 {
        assert s[j] == s[k + 8..k + 16][j - k - 8];
      } else if j < e {
        assert s[j] == y[j - k - 16];
      } else {
        assert s[j] == s[e..e + 9][j - e];
      }
    }
  }

  /** A string the pattern matches splits into a think and an answer section. */
  lemma PatternSound(s: string)
    requires MatchesPattern(s)
    ensures exists x, y :: IsFormatted(s, x, y)
  {
    ScanThinkFind(s, 7);
    var k := FindFrom(s, ThinkClose, 7).value;
    ScanAnswerFind(s, k + 16);
    var e := FindFrom(s, AnswerClose, k + 16).value;
    Reassemble(s, k, e);
    SliceFree(s, ThinkClose, 7, k);
    SliceFree(s, AnswerClose, k + 16, e);
    assert IsFormatted(s, s[7..k], s[k + 16..e]);
  }

  /** In a formatted string the searches for the closing tags land exactly
      at the ends of the two sections. */
  lemma ComposeFinds(s: string, x: string, y: string)
    requires IsFormatted(s, x, y)
    ensures FindFrom(s, ThinkClose, 7) == Some(7 + |x|)
    ensures FindFrom(s, AnswerClose, 23 + |x|) == Some(23 + |x| + |y|)
  {
    ComposeSlices(s, x, y);
    FindsAt(s, x, y);
  }

  /** The positional core of `ComposeFinds`. */
  lemma FindsAt(s: string, x: string, y: string)
    requires OccursAt(s, 7, x) && OccursAt(s, 7 + |x|, ThinkClose) && !Contains(x, ThinkClose)
    requires OccursAt(s, 23 + |x|, y) && OccursAt(s, 23 + |x| + |y|, AnswerClose) && !Contains(y, AnswerClose)
    ensures FindFrom(s, ThinkClose, 7) == Some(7 + |x|)
    ensures FindFrom(s, AnswerClose, 23 + |x|) == Some(23 + |x| + |y|)
  {
    TagsLeadUnique();
    FirstAfter(s, ThinkClose, 7, x);
    FirstAfter(s, AnswerClose, 23 + |x|, y);
  }

  /** Every think and answer section free of its closing tag is matched by
      the pattern. */
  lemma PatternComplete(s: string, x: string, y: string)
    requires IsFormatted(s, x, y)
    ensures MatchesPattern(s)
  {
    ComposeSlices(s, x, y);
    ComposeFinds(s, x, y);
    ScanAnswerFind(s, 23 + |x|);
    ScanThinkFind(s, 7);
  }

  /** The regular expression admits at most one split of a string. */
  lemma DecompositionUnique(s: string, x1: string, y1: string, x2: string, y2: string)
    requires IsFormatted(s, x1, y1) && IsFormatted(s, x2, y2)
    ensures x1 == x2 && y1 == y2
  {
    ComposeFinds(s, x1, y1);
    ComposeFinds(s, x2, y2);
    ComposeSlices(s, x1, y1);
    ComposeSlices(s, x2, y2);
  }

  /** `verify_format` accepts exactly the strings `<think>X</think><answer>Y</answer>`
      with no closing think tag in X, no closing answer tag in Y, and one
      opening think tag and one opening answer tag in the whole string. */
  lemma FormatIff(s: string)
    ensures VerifyFormat(s) <==>
      && (exists x, y :: IsFormatted(s, x, y))
      && Count(s, ThinkOpen) == 1
      && Count(s, AnswerOpen) == 1
  {
    if MatchesPattern(s) {
      PatternSound(s);
    }
    if exists x, y :: IsFormatted(s, x, y) {
      var x, y :| IsFormatted(s, x, y);
      PatternComplete(s, x, y);
    }
  }

  /** The closing tags hold no opening tag. */
  lemma ClosingTagCounts()
    ensures Count(ThinkClose, ThinkOpen) == 0 && Count(ThinkClose, AnswerOpen) == 0
    ensures Count(AnswerClose, ThinkOpen) == 0 && Count(AnswerClose, AnswerOpen) == 0
  {
    assert ThinkClose + [] == ThinkClose && AnswerClose + [] == AnswerClose;
    assert !OccursAt(ThinkClose + [], 0, ThinkOpen) by { assert ThinkClose[1] != ThinkOpen[1]; }
    assert !OccursAt(ThinkClose + [], 0, AnswerOpen) by { assert ThinkClose[1] != AnswerOpen[1]; }
    assert !OccursAt(AnswerClose + [], 0, ThinkOpen) by { assert AnswerClose[1] != ThinkOpen[1]; }
    assert !OccursAt(AnswerClose + [], 0, AnswerOpen) by { assert AnswerClose[1] != AnswerOpen[1]; }
    TagsLeadUnique();
    CountSkipPrefix(ThinkClose, [], ThinkOpen);
    CountSkipPrefix(ThinkClose, [], AnswerOpen);
    CountSkipPrefix(AnswerClose, [], ThinkOpen);
    CountSkipPrefix(AnswerClose, [], AnswerOpen);
  }

  /** An opening tag followed by a section counts its own tag once more and
      the other opening tag as often as the section does. */
  lemma OpenedSectionCounts(x: string, y: string)
    ensures Count(ThinkOpen + x, ThinkOpen) == 1 + Count(x, ThinkOpen)
    ensures Count(ThinkOpen + x, AnswerOpen) == Count(x, AnswerOpen)
    ensures Count(AnswerOpen + y, AnswerOpen) == 1 + Count(y, AnswerOpen)
    ensures Count(AnswerOpen + y, ThinkOpen) == Count(y, ThinkOpen)
  {
    TagsLeadUnique();
    var a, b := ThinkOpen + x, AnswerOpen + y;
    CountLeading(ThinkOpen, x);
    CountLeading(AnswerOpen, y);
    assert !OccursAt(a, 0, AnswerOpen) by { assert a[1] != AnswerOpen[1]; }
    CountSkipPrefix(ThinkOpen, x, AnswerOpen);
    assert !OccursAt(b, 0, ThinkOpen) by { assert b[1] != ThinkOpen[1]; }
    CountSkipPrefix(AnswerOpen, y, ThinkOpen);
  }

  /** Opening tags in a formatted string: the two the layout puts there and
      whatever the two sections hold. */
  lemma SectionCounts(s: string, x: string, y: string)
    requires s == Compose(x, y)
    ensures Count(s, ThinkOpen) == 1 + Count(x, ThinkOpen) + Count(y, ThinkOpen)
    ensures Count(s, AnswerOpen) == 1 + Count(x, AnswerOpen) + Count(y, AnswerOpen)
  {
    TagsLeadUnique();
    var a, b := ThinkOpen + x, AnswerOpen + y;
    var c := a + ThinkClose;
    var d := c + b;
    assert s == d + AnswerClose;
    CountConcat(d, AnswerClose, ThinkOpen);
    CountConcat(d, AnswerClose, AnswerOpen);
    CountConcat(c, b, ThinkOpen);
    CountConcat(c, b, AnswerOpen);
    CountConcat(a, ThinkClose, ThinkOpen);
    CountConcat(a, ThinkClose, AnswerOpen);
    OpenedSectionCounts(x, y);
    ClosingTagCounts();
  }

  /** Given the layout, `verify_format` holds exactly when neither section
      holds an opening tag; the pattern alone accepts the layout either way,
      so a second opening tag (even inside the answer section) is caught
      only by the counts. */
  lemma FormatBySections(s: string, x: string, y: string)
    requires IsFormatted(s, x, y)
    ensures MatchesPattern(s)
    ensures VerifyFormat(s) <==>
      && !Contains(x, ThinkOpen) && !Contains(x, AnswerOpen)
      && !Contains(y, ThinkOpen) && !Contains(y, AnswerOpen)
  {
    PatternComplete(s, x, y);
    SectionCounts(s, x, y);
  }

  /** Sections without a `<` are always accepted; in particular both may be
      empty. */
  lemma FormatAcceptsPlainSections(s: string, x: string, y: string)
    requires s == Compose(x, y)
    requires forall k :: 0 <= k < |x| ==> x[k] != '<'
    requires forall k :: 0 <= k < |y| ==> y[k] != '<'
    ensures VerifyFormat(s)
  {
    NoLeadNoContains(x, ThinkClose);
    NoLeadNoContains(x, ThinkOpen);
    NoLeadNoContains(x, AnswerOpen);
    NoLeadNoContains(y, AnswerClose);
    NoLeadNoContains(y, ThinkOpen);
    NoLeadNoContains(y, AnswerOpen);
    FormatBySections(s, x, y);
  }

  /** `<think></think><answer></answer>` passes. */
  lemma EmptySectionsAccepted()
    ensures VerifyFormat("<think></think><answer></answer>")
  {
    var s := "<think></think><answer></answer>";
    assert s == Compose([], []);
    FormatAcceptsPlainSections(s, [], []);
  }

  /** Only the opening tags are counted: a closing answer tag inside the
      think section and a closing think tag inside the answer section pass,
      so an accepted response may hold two of each closing tag. */
  lemma StrayClosingTagsAccepted()
    ensures VerifyFormat(Compose(AnswerClose, ThinkClose))
  {
    var s := Compose(AnswerClose, ThinkClose);
    forall i: nat | i + |ThinkClose| <= |AnswerClose|
      ensures !OccursAt(AnswerClose, i, ThinkClose)
    {
      if i == 0 {
        assert AnswerClose[0..8][2] != ThinkClose[2];
      } else {
        assert AnswerClose[1..9][0] != ThinkClose[0];
      }
    }
    ClosingTagCounts();
    FormatBySections(s, AnswerClose, ThinkClose);
  }

  /** Nothing may follow the closing answer tag, not even a newline: the
      pattern ends in `\Z`, which, unlike `$`, does not match before a final
      line break. */
  lemma TrailingTextRejected(s: string, t: string)
    requires VerifyFormat(s) && t != []
    ensures !MatchesPattern(s + t) && !VerifyFormat(s + t)
  {
    FormatIff(s);
    var x, y :| IsFormatted(s, x, y);
    ComposeSlices(s, x, y);
    var u := s + t;
    OccursShift(s, t, 7, x);
    OccursShift(s, t, 7 + |x|, ThinkClose);
    OccursShift(s, t, 23 + |x|, y);
    OccursShift(s, t, 23 + |x| + |y|, AnswerClose);
    TagsLeadUnique();
    FirstAfter(u, ThinkClose, 7, x);
    FirstAfter(u, AnswerClose, 23 + |x|, y);
    ScanAnswerFind(u, 23 + |x|);
    ScanThinkFind(u, 7);
  }

  /** Nothing may precede the opening think tag. */
  lemma LeadingTextRejected(t: string, s: string)
    requires VerifyFormat(s) && t != []
    ensures !VerifyFormat(t + s)
  {
    OccursShift(t, s, 0, ThinkOpen);
    TagsLeadUnique();
    if VerifyFormat(t + s) {
      CountOneUnique(t + s, ThinkOpen, 0, |t|);
    }
  }

  /** Nothing may stand between the closing think tag and the opening answer
      tag. */
  lemma GapRejected(s: string, x: string, g: string, y: string)
    requires s == ThinkOpen + x + ThinkClose + g + AnswerOpen + y + AnswerClose
    requires !Contains(x, ThinkClose) && g != []
    ensures !VerifyFormat(s)
  {
    var k := 7 + |x|;
    assert OccursAt(s, 7, x) && OccursAt(s, k, ThinkClose);
    assert OccursAt(s, k + 8 + |g|, AnswerOpen) by {
      assert s[k + 8 + |g|..k + 16 + |g|] == AnswerOpen;
    }
    AnswerOpenAfterGap(s, x, k + 8 + |g|);
  }

  /** The positional core of `GapRejected`: an opening answer tag later than
      right after the first closing think tag cannot be the one the pattern
      and the count accept. */
  lemma AnswerOpenAfterGap(s: string, x: string, j: nat)
    requires OccursAt(s, 7, x) && !Contains(x, ThinkClose)
    requires OccursAt(s, 7 + |x|, ThinkClose)
    requires j > 15 + |x| && OccursAt(s, j, AnswerOpen)
    ensures !VerifyFormat(s)
  {
    var k := 7 + |x|;
    TagsLeadUnique();
    FirstAfter(s, ThinkClose, 7, x);
    ScanThinkFind(s, 7);
    if VerifyFormat(s) {
      assert AfterThink(s, k + 8);
      CountOneUnique(s, AnswerOpen, k + 8, j);
    }
  }
}
