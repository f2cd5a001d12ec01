/**
  The segment extractor of `Text::extracted_text` (src/main.rs).

  The source builds the regular expression

      (?s)# <escaped stem>\s*(.*?)\s*(?:# [a-zA-Z0-9_]+\.py|\z)

  and returns capture group 1 of its leftmost-first match.  This module
  states what that match is (the ghost predicates, read directly off the
  pattern) and computes it without a regex engine (the functions), and the
  contracts of the functions tie the two together.
 */
module Segment {
  import opened Wrappers

  /** The class `\s` of the regex crate in its default Unicode mode: the
      Unicode White_Space property. */
  predicate IsWhitespace(c: char) {
    || '\t' <= c <= '\r'
    || c == ' '
    || c == '\U{85}'
    || c == '\U{A0}'
    || c == '\U{1680}'
    || '\U{2000}' <= c <= '\U{200A}'
    || c == '\U{2028}'
    || c == '\U{2029}'
    || c == '\U{202F}'
    || c == '\U{205F}'
    || c == '\U{3000}'
  }

  /** The class `[a-zA-Z0-9_]`. */
  predicate IsNameChar(c: char) {
    'a' <= c <= 'z' || 'A' <= c <= 'Z' || '0' <= c <= '9' || c == '_'
  }

  /** The literal the pattern starts with.  `regex::escape` makes every
      character of the stem stand for itself, so this is plain text. */
  function StemHeader(stem: string): string {
    "# " + stem
  }

  /** `pat` occurs in `text` at index `i`, character for character. */
  predicate OccursAt(text: string, pat: string, i: nat) {
    i + |pat| <= |text| && text[i..i + |pat|] == pat
  }

  // ---------------------------------------------------------------------
  // The match, read off the pattern.
  // ---------------------------------------------------------------------

  ghost predicate IsFirstOccurrence(text: string, pat: string, p: nat) {
    OccursAt(text, pat, p) && forall q: nat :: q < p ==> !OccursAt(text, pat, q)
  }

  ghost predicate AllWhitespace(text: string, i: nat, j: nat)
    requires i <= j <= |text|
  {
    forall k :: i <= k < j ==> IsWhitespace(text[k])
  }

  /** `text[i..j]` matches `# [a-zA-Z0-9_]+\.py`. */
  ghost predicate FileHeaderSpan(text: string, i: nat, j: nat) {
    && i + 6 <= j <= |text|
    && text[i] == '#' && text[i + 1] == ' '
    && (forall k :: i + 2 <= k < j - 3 ==> IsNameChar(text[k]))
    && text[j - 3..j] == ".py"
  }

  /** `# [a-zA-Z0-9_]+\.py` matches starting at `i`. */
  ghost predicate FileHeaderAt(text: string, i: nat) {
    exists j: nat :: FileHeaderSpan(text, i, j)
  }

  /** The tail of the pattern, `\s*(?:# [a-zA-Z0-9_]+\.py|\z)`, matches
      starting at `e`. */
  ghost predicate TerminatorAt(text: string, e: nat) {
    exists w: nat :: e <= w <= |text| && AllWhitespace(text, e, w) && (w == |text| || FileHeaderAt(text, w))
  }

  /** `text[cs..ce]` is capture group 1 of the match that starts at `p`:
      `p` is the first occurrence of the header literal, the greedy `\s*`
      takes the whole whitespace run after it, and the lazy `(.*?)` stops
      at the first position where the tail matches. */
  ghost predicate IsCaptureAt(text: string, stem: string, p: nat, cs: nat, ce: nat) {
    && IsFirstOccurrence(text, StemHeader(stem), p)
    && p + |StemHeader(stem)| <= cs <= ce <= |text|
    && AllWhitespace(text, p + |StemHeader(stem)|, cs)
    && (cs == |text| || !IsWhitespace(text[cs]))
    && TerminatorAt(text, ce)
    && forall e: nat :: cs <= e < ce ==> !TerminatorAt(text, e)
  }

  /** `text[cs..ce]` is capture group 1 of the leftmost-first match. */
  ghost predicate IsCapture(text: string, stem: string, cs: nat, ce: nat) {
    exists p: nat :: IsCaptureAt(text, stem, p, cs, ce)
  }

  // ---------------------------------------------------------------------
  // The match, computed.
  // ---------------------------------------------------------------------

  /** The first index at or after `from` where `pat` occurs. */
  function FindFrom(text: string, pat: string, from: nat): (r: Option<nat>)
    decreases |text| - from
    ensures r.Some? ==> from <= r.value && OccursAt(text, pat, r.value)
    ensures r.Some? ==> forall q: nat :: from <= q < r.value ==> !OccursAt(text, pat, q)
    ensures r.None? ==> forall q: nat :: from <= q ==> !OccursAt(text, pat, q)
  {
    if from + |pat| > |text| then None
    else if OccursAt(text, pat, from) then Some(from)
    else FindFrom(text, pat, from + 1)
  }

  /** The end of the whitespace run that starts at `i`. */
  function SkipWhitespace(text: string, i: nat): (j: nat)
    requires i <= |text|
    decreases |text| - i
    ensures i <= j <= |text| && AllWhitespace(text, i, j)
    ensures j == |text| || !IsWhitespace(text[j])
  {
    if i < |text| && IsWhitespace(text[i]) then SkipWhitespace(text, i + 1) else i
  }

  /** The end of the run of name characters that starts at `i`. */
  function SkipNameChars(text: string, i: nat): (j: nat)
    requires i <= |text|
    decreases |text| - i
    ensures i <= j <= |text| && forall k :: i <= k < j ==> IsNameChar(text[k])
    ensures j == |text| || !IsNameChar(text[j])
  {
    if i < |text| && IsNameChar(text[i]) then SkipNameChars(text, i + 1) else i
  }

  /** Whether a file header starts at `i`.  Because `.` is not a name
      character, `[a-zA-Z0-9_]+` can only end where the run of name
      characters ends. */
  function IsFileHeaderAt(text: string, i: nat): (b: bool)
    ensures b <==> FileHeaderAt(text, i)
  {
    if i + 2 <= |text| && text[i] == '#' && text[i + 1] == ' ' then
      var n := SkipNameChars(text, i + 2);
      NameRunDeterminesHeader(text, i, n);
      n > i + 2 && OccursAt(text, ".py", n)
    else
      assert forall j: nat :: !FileHeaderSpan(text, i, j);
      false
  }

  /** With `n` the end of the name run after `# `, a header starts at `i`
      exactly when that run is non-empty and `.py` follows it. */
  lemma NameRunDeterminesHeader(text: string, i: nat, n: nat)
    requires i + 2 <= n <= |text|
    requires forall k :: i + 2 <= k < n ==> IsNameChar(text[k])
    requires n == |text| || !IsNameChar(text[n])
    requires text[i] == '#' && text[i + 1] == ' '
    ensures FileHeaderAt(text, i) <==> n > i + 2 && OccursAt(text, ".py", n)
  {
    if n > i + 2 && OccursAt(text, ".py", n) {
      assert FileHeaderSpan(text, i, n + 3);
    }
    if FileHeaderAt(text, i) {
      var j: nat :| FileHeaderSpan(text, i, j);
      assert text[j - 3] == '.';
    }
  }

  /** Whether the tail `\s*(?:# [a-zA-Z0-9_]+\.py|\z)` matches at `e`.  A
      header starts with `#`, which is not whitespace, so the greedy `\s*`
      can only end where the whitespace run ends. */
  function IsTerminatorAt(text: string, e: nat): (b: bool)
    requires e <= |text|
    ensures b <==> TerminatorAt(text, e)
  {
    var w := SkipWhitespace(text, e);
    WhitespaceRunDeterminesTerminator(text, e, w);
    w == |text| || IsFileHeaderAt(text, w)
  }

  /** With `w` the end of the whitespace run at `e`, the tail matches at
      `e` exactly when the text ends at `w` or a header starts there. */
  lemma WhitespaceRunDeterminesTerminator(text: string, e: nat, w: nat)
    requires e <= w <= |text| && AllWhitespace(text, e, w)
    requires w == |text| || !IsWhitespace(text[w])
    ensures TerminatorAt(text, e) <==> w == |text| || FileHeaderAt(text, w)
  {
  }

  /** The first position at or after `e` where the tail matches; the end
      of the text always is one, by `\z`. */
  function CaptureEnd(text: string, e: nat): (ce: nat)
    requires e <= |text|
    decreases |text| - e
    ensures e <= ce <= |text| && TerminatorAt(text, ce)
    ensures forall k: nat :: e <= k < ce ==> !TerminatorAt(text, k)
  {
    if IsTerminatorAt(text, e) then e else CaptureEnd(text, e + 1)
  }

  /** `Text::extracted_text`: the segment of `text` that belongs to the
      file with stem `stem`, or None when the header literal `# <stem>`
      occurs nowhere in `text`.  That a segment is the capture of the
      leftmost-first match is lemma SegmentProperties.CaptureOf. */
  function ExtractedText(text: string, stem: string): (r: Option<string>)
    ensures r.None? <==> forall i: nat :: !OccursAt(text, StemHeader(stem), i)
  {
    var h := StemHeader(stem);
    match FindFrom(text, h, 0)
    case None => None
    case Some(p) =>
      var cs := SkipWhitespace(text, p + |h|);
      Some(text[cs..CaptureEnd(text, cs)])
  }
}
