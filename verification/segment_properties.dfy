/** What the segment extractor promises its callers, proved from the
    reading of the pattern in module Segment. */
module SegmentProperties {
  import opened Wrappers
  import opened Segment

  /** The pattern has at most one leftmost-first capture. */
  lemma CaptureIsUnique(text: string, stem: string, cs1: nat, ce1: nat, cs2: nat, ce2: nat)
    requires IsCapture(text, stem, cs1, ce1) && IsCapture(text, stem, cs2, ce2)
    ensures cs1 == cs2 && ce1 == ce2
  {
  }

  /** Every leftmost-first capture is what the extractor returns; with the
      contract of ExtractedText this makes the two agree exactly. */
  lemma CaptureIsExtracted(text: string, stem: string, cs: nat, ce: nat)
    requires IsCapture(text, stem, cs, ce)
    ensures ExtractedText(text, stem) == Some(text[cs..ce])
  {
    var p: nat :| IsCaptureAt(text, stem, p, cs, ce);
    assert OccursAt(text, StemHeader(stem), p);
    var _, cs', ce' := CaptureOf(text, stem);
    CaptureIsUnique(text, stem, cs, ce, cs', ce');
  }

  /** A returned segment is the capture of the leftmost-first match, and
      `p`, `cs` and `ce` are where that match and its capture lie. */
  lemma CaptureOf(text: string, stem: string) returns (p: nat, cs: nat, ce: nat)
    requires ExtractedText(text, stem).Some?
    ensures IsCaptureAt(text, stem, p, cs, ce) && ExtractedText(text, stem).value == text[cs..ce]
  {
    var h := StemHeader(stem);
    p := FindFrom(text, h, 0).value;
    cs := SkipWhitespace(text, p + |h|);
    ce := CaptureEnd(text, cs);
    assert IsFirstOccurrence(text, h, p);
  }

  /** A whitespace character just before a tail match extends it. */
  lemma TerminatorAbsorbsWhitespace(text: string, e: nat)
    requires 0 < e <= |text| && IsWhitespace(text[e - 1]) && TerminatorAt(text, e)
    ensures TerminatorAt(text, e - 1)
  {
    var w: nat :| e <= w <= |text| && AllWhitespace(text, e, w) && (w == |text| || FileHeaderAt(text, w));
    assert AllWhitespace(text, e - 1, w);
  }

  /** The tail of the pattern matches wherever a file header starts. */
  lemma FileHeaderIsTerminator(text: string, i: nat)
    requires i <= |text| && FileHeaderAt(text, i)
    ensures TerminatorAt(text, i)
  {
    assert AllWhitespace(text, i, i);
  }

  /** A file header inside a slice of `text` is a file header of `text`. */
  lemma FileHeaderInSlice(text: string, off: nat, sub: string, i: nat, j: nat)
    requires off + |sub| <= |text| && text[off..off + |sub|] == sub
    requires FileHeaderSpan(sub, i, j)
    ensures FileHeaderSpan(text, off + i, off + j)
  {
    assert forall k :: 0 <= k < |sub| ==> text[off + k] == sub[k];
    assert text[off + j - 3..off + j] == sub[j - 3..j];
  }

  /** A returned segment neither starts nor ends with whitespace (it may be
      empty). */
  lemma ExtractedTextIsTrimmed(text: string, stem: string)
    requires ExtractedText(text, stem).Some?
    ensures var s := ExtractedText(text, stem).value;
            s == [] || (!IsWhitespace(s[0]) && !IsWhitespace(s[|s| - 1]))
  {
    var s := ExtractedText(text, stem).value;
    var p, cs, ce := CaptureOf(text, stem);
    if cs < ce {
      assert s[0] == text[cs];
      assert s[|s| - 1] == text[ce - 1];
      if IsWhitespace(text[ce - 1]) {
        TerminatorAbsorbsWhitespace(text, ce);
      }
    }
  }

  /** Non-greedy boundary: a returned segment contains no file header
      `# <name>.py`.  A bare `# <stem>` header is no such boundary, so a
      segment can still run into a later section headed that way
      (BareStemHeaderExample). */
  lemma ExtractedTextHasNoFileHeader(text: string, stem: string)
    requires ExtractedText(text, stem).Some?
    ensures forall q: nat :: !FileHeaderAt(ExtractedText(text, stem).value, q)
  {
    var s := ExtractedText(text, stem).value;
    var p, cs, ce := CaptureOf(text, stem);
    forall q: nat
      ensures !FileHeaderAt(s, q)
    {
      if FileHeaderAt(s, q) {
        var j: nat :| FileHeaderSpan(s, q, j);
        FileHeaderInSlice(text, cs, s, q, j);
        FileHeaderIsTerminator(text, cs + q);
      }
    }
  }

  /** The tail of the pattern matches at a shifted position of a longer text. */
  lemma TerminatorInSuffix(text: string, off: nat)
    requires off <= |text| && TerminatorAt(text[off..], 0)
    ensures TerminatorAt(text, off)
  {
    var tail := text[off..];
    var w: nat :| 0 <= w <= |tail| && AllWhitespace(tail, 0, w) && (w == |tail| || FileHeaderAt(tail, w));
    assert forall k :: 0 <= k < |tail| ==> text[off + k] == tail[k];
    assert AllWhitespace(text, off, off + w);
    if w < |tail| {
      var j: nat :| FileHeaderSpan(tail, w, j);
      FileHeaderInSlice(text, off, tail, w, j);
    }
  }

  /** Whitespace followed by a file header `# <next>.py` ends a section. */
  lemma NextHeaderEndsSection(gap: string, next: string, rest: string)
    requires forall k :: 0 <= k < |gap| ==> IsWhitespace(gap[k])
    requires |next| > 0 && forall k :: 0 <= k < |next| ==> IsNameChar(next[k])
    ensures TerminatorAt(gap + "# " + next + ".py" + rest, 0)
  {
    var t := gap + "# " + next + ".py" + rest;
    var w := |gap|;
    var j := w + 2 + |next| + 3;
    assert forall k :: 0 <= k < |next| ==> t[w + 2 + k] == next[k];
    assert t[j - 3..j] == ".py";
    assert FileHeaderSpan(t, w, j);
    assert AllWhitespace(t, 0, w);
  }

  /** A file header of `text` that lies inside a slice is a file header of
      the slice. */
  lemma FileHeaderOfSlice(text: string, off: nat, sub: string, i: nat, j: nat)
    requires off + |sub| <= |text| && text[off..off + |sub|] == sub
    requires off <= i && j <= off + |sub| && FileHeaderSpan(text, i, j)
    ensures FileHeaderSpan(sub, i - off, j - off) && FileHeaderAt(sub, i - off)
  {
    assert forall k :: 0 <= k < |sub| ==> text[off + k] == sub[k];
    assert sub[j - off - 3..j - off] == text[j - 3..j];
  }

  /** The tail of the pattern cannot match strictly inside a file header:
      the whitespace run from there stops before the header's final `y`,
      at a character that is not `#`. */
  lemma NoTerminatorInsideFileHeader(text: string, i: nat, j: nat, e: nat)
    requires FileHeaderSpan(text, i, j) && i < e < j
    ensures !TerminatorAt(text, e)
  {
    var w := SkipWhitespace(text, e);
    assert text[j - 3..j] == ".py";
    assert w < j by {
      assert text[j - 1] == 'y';
    }
    assert text[w] != '#' by {
      assert text[j - 3] == '.' && text[j - 2] == 'p';
    }
    WhitespaceRunDeterminesTerminator(text, e, w);
  }

  /** No file header starts inside `text[cs..ce]` when that slice holds none
      and the tail matches at `ce`: it would lie inside the slice or run
      across `ce`. */
  lemma NoFileHeaderBeforeEnd(text: string, cs: nat, ce: nat, w: nat)
    requires cs <= w < ce <= |text| && TerminatorAt(text, ce)
    requires forall q: nat :: !FileHeaderAt(text[cs..ce], q)
    ensures !FileHeaderAt(text, w)
  {
    if FileHeaderAt(text, w) {
      var j: nat :| FileHeaderSpan(text, w, j);
      if j <= ce {
        FileHeaderOfSlice(text, cs, text[cs..ce], w, j);
      } else {
        NoTerminatorInsideFileHeader(text, w, j, ce);
      }
    }
  }

  /** Where the lazy `(.*?)` stops: if `text[cs..ce]` ends in a character
      that is not whitespace, holds no file header, and the tail matches at
      `ce`, then the tail matches at no position from `cs` up to `ce`. */
  lemma NoTerminatorBeforeEnd(text: string, cs: nat, ce: nat)
    requires cs < ce <= |text| && !IsWhitespace(text[ce - 1])
    requires forall q: nat :: !FileHeaderAt(text[cs..ce], q)
    requires TerminatorAt(text, ce)
    ensures forall e: nat :: cs <= e < ce ==> !TerminatorAt(text, e)
  {
    forall e: nat | cs <= e < ce
      ensures !TerminatorAt(text, e)
    {
      var w := SkipWhitespace(text, e);
      assert w < ce;
      WhitespaceRunDeterminesTerminator(text, e, w);
      NoFileHeaderBeforeEnd(text, cs, ce, w);
    }
  }

  /** The empty section: the greedy `\s*` runs on into the tail's own
      whitespace, and the capture is the empty one where that run ends. */
  lemma EmptySectionIsExtracted(pre: string, stem: string, lead: string, tail: string)
    requires forall q: nat :: q < |pre| ==> !OccursAt(pre + StemHeader(stem), StemHeader(stem), q)
    requires forall k :: 0 <= k < |lead| ==> IsWhitespace(lead[k])
    requires TerminatorAt(tail, 0)
    ensures ExtractedText(pre + StemHeader(stem) + lead + tail, stem) == Some("")
  {
    var h := StemHeader(stem);
    var text := pre + h + lead + tail;
    var p := |pre|;
    var off := p + |h| + |lead|;
    assert text[p..p + |h|] == h;
    assert forall q: nat :: q < p ==> !OccursAt(text, h, q) by {
      forall q: nat | q < p
        ensures !OccursAt(text, h, q)
      {
        assert !OccursAt(pre + h, h, q);
        assert text[..|pre| + |h|] == pre + h;
        assert text[q..q + |h|] == (pre + h)[q..q + |h|];
      }
    }
    assert IsFirstOccurrence(text, h, p);
    assert forall k :: 0 <= k < |lead| ==> text[p + |h| + k] == lead[k];
    assert text[off..] == tail;
    TerminatorInSuffix(text, off);
    var cs := SkipWhitespace(text, off);
    WhitespaceRunDeterminesTerminator(text, off, cs);
    WhitespaceRunDeterminesTerminator(text, cs, cs);
    assert AllWhitespace(text, p + |h|, cs);
    assert IsCaptureAt(text, stem, p, cs, cs);
    CaptureIsExtracted(text, stem, cs, cs);
    assert text[cs..cs] == "";
  }

  /** A non-empty section: the capture is the trimmed body, since the tail
      matches right after it and nowhere inside it. */
  lemma NonEmptySectionIsExtracted(pre: string, stem: string, lead: string, body: string, tail: string)
    requires forall q: nat :: q < |pre| ==> !OccursAt(pre + StemHeader(stem), StemHeader(stem), q)
    requires forall k :: 0 <= k < |lead| ==> IsWhitespace(lead[k])
    requires |body| > 0 && !IsWhitespace(body[0]) && !IsWhitespace(body[|body| - 1])
    requires forall q: nat :: !FileHeaderAt(body, q)
    requires TerminatorAt(tail, 0)
    ensures ExtractedText(pre + StemHeader(stem) + lead + body + tail, stem) == Some(body)
  {
    var h := StemHeader(stem);
    var text := pre + h + lead + body + tail;
    var p := |pre|;
    var cs := p + |h| + |lead|;
    var ce := cs + |body|;
    assert text[p..p + |h|] == h;
    assert forall q: nat :: q < p ==> !OccursAt(text, h, q) by {
      forall q: nat | q < p
        ensures !OccursAt(text, h, q)
      {
        assert !OccursAt(pre + h, h, q);
        assert text[..|pre| + |h|] == pre + h;
        assert text[q..q + |h|] == (pre + h)[q..q + |h|];
      }
    }
    assert IsFirstOccurrence(text, h, p);
    assert forall k :: 0 <= k < |lead| ==> text[p + |h| + k] == lead[k];
    assert AllWhitespace(text, p + |h|, cs);
    assert forall k :: 0 <= k < |body| ==> text[cs + k] == body[k];
    assert text[cs..ce] == body;
    assert text[ce..] == tail;
    TerminatorInSuffix(text, ce);
    NoTerminatorBeforeEnd(text, cs, ce);
    assert IsCaptureAt(text, stem, p, cs, ce);
    CaptureIsExtracted(text, stem, cs, ce);
  }

  /** Sections round-trip: a text made of any prefix without the header,
      the header `# <stem>`, whitespace, a body and then anything at which
      the tail of the pattern matches, yields exactly the body, provided
      the body is trimmed and holds no file header `# <name>.py`.  The body
      may hold any other `#`, such as the comment lines the model adds, and
      it may be empty. */
  lemma SectionIsExtracted(pre: string, stem: string, lead: string, body: string, tail: string)
    requires forall q: nat :: q < |pre| ==> !OccursAt(pre + StemHeader(stem), StemHeader(stem), q)
    requires forall k :: 0 <= k < |lead| ==> IsWhitespace(lead[k])
    requires |body| > 0 ==> !IsWhitespace(body[0]) && !IsWhitespace(body[|body| - 1])
    requires forall q: nat :: !FileHeaderAt(body, q)
    requires TerminatorAt(tail, 0)
    ensures ExtractedText(pre + StemHeader(stem) + lead + body + tail, stem) == Some(body)
  {
    if body == [] {
      assert pre + StemHeader(stem) + lead + body + tail == pre + StemHeader(stem) + lead + tail;
      EmptySectionIsExtracted(pre, stem, lead, tail);
    } else {
      NonEmptySectionIsExtracted(pre, stem, lead, body, tail);
    }
  }

  /** A file header holds a `#` and a `.`; a text lacking either holds
      none. */
  lemma FileHeaderHasHashAndDot(s: string)
    ensures forall q: nat :: FileHeaderAt(s, q) ==> '#' in s && '.' in s
  {
    forall q: nat | FileHeaderAt(s, q)
      ensures '#' in s && '.' in s
    {
      var j: nat :| FileHeaderSpan(s, q, j);
      assert s[j - 3] == '.';
    }
  }

  /** The stem is matched literally: a character of the header literal
      that the text lacks (a `.` of the stem, say, or the `#` itself) rules
      out any segment. */
  lemma MissingCharacterMeansNoSegment(text: string, stem: string, c: char)
    requires c in StemHeader(stem) && c !in text
    ensures ExtractedText(text, stem) == None
  {
  }

  /** A `.` in the stem is not a wildcard: `# axb` is no header for `a.b`. */
  lemma DottedStemExample()
    ensures ExtractedText("# axb\ncode", "a.b") == None
    ensures ExtractedText("# a.b\ncode", "a.b") == Some("code")
  {
    MissingCharacterMeansNoSegment("# axb\ncode", "a.b", '.');
    FileHeaderHasHashAndDot("code");
    assert '#' !in "code";
    assert AllWhitespace("", 0, 0);
    assert "" + StemHeader("a.b") + "\n" + "code" + "" == "# a.b\ncode";
    SectionIsExtracted("", "a.b", "\n", "code", "");
  }

  /** Only a `# <name>.py` header ends a section: a later header written as
      `# <stem>` does not, so the segment for `main` swallows the section
      of `service` as well. */
  lemma BareStemHeaderExample()
    ensures ExtractedText("# main\nA\n# service\nB", "main") == Some("A\n# service\nB")
  {
    var body := "A\n# service\nB";
    FileHeaderHasHashAndDot(body);
    assert '.' !in body;
    assert AllWhitespace("", 0, 0);
    assert "" + StemHeader("main") + "\n" + body + "" == "# main\nA\n# service\nB";
    SectionIsExtracted("", "main", "\n", body, "");
  }

  /** Headers that are bare file names, without `# `, match nothing. */
  lemma BareNameHeadersExample()
    ensures ExtractedText("main\nprint('hi')\n\nservice\nx=1\n", "main") == None
  {
    MissingCharacterMeansNoSegment("main\nprint('hi')\n\nservice\nx=1\n", "main", '#');
  }

  /** The header `# service.py`, after a blank line, ends a section
      whatever follows it. */
  lemma ServiceHeaderEndsSection(rest: string)
    ensures TerminatorAt("\n\n# service.py" + rest, 0)
  {
    assert "\n\n# service.py" + rest == "\n\n" + "# " + "service" + ".py" + rest;
    NextHeaderEndsSection("\n\n", "service", rest);
  }

  /** Two sections: the first one's segment stops before the second header. */
  lemma TwoSectionsExample()
    ensures ExtractedText("# main\nprint('hi')\n\n# service.py\nx=1\n", "main") == Some("print('hi')")
  {
    var body := "print('hi')";
    var tail := "\n\n# service.py" + "\nx=1\n";
    ServiceHeaderEndsSection("\nx=1\n");
    FileHeaderHasHashAndDot(body);
    assert '#' !in body;
    assert "# main\nprint('hi')\n\n# service.py\nx=1\n" == "" + StemHeader("main") + "\n" + body + tail;
    SectionIsExtracted("", "main", "\n", body, tail);
  }

  /** An empty section: a header followed at once by the next file's
      header gives the empty segment, not None. */
  lemma EmptySectionExample()
    ensures ExtractedText("# main\n\n# service.py\ny", "main") == Some("")
  {
    var tail := "\n\n# service.py" + "\ny";
    ServiceHeaderEndsSection("\ny");
    FileHeaderHasHashAndDot("");
    assert "" + StemHeader("main") + "" + "" + tail == "# main\n\n# service.py\ny";
    SectionIsExtracted("", "main", "", "", tail);
  }

  /** A commented section: a comment line `# adds one` in the body is no
      file header, so the segment keeps it and still stops before the
      next file's header. */
  lemma CommentedSectionExample()
    ensures ExtractedText("# main\n# adds one\nx = 1\n\n# service.py\ny", "main") == Some("# adds one\nx = 1")
  {
    var body := "# adds one\nx = 1";
    var tail := "\n\n# service.py" + "\ny";
    ServiceHeaderEndsSection("\ny");
    FileHeaderHasHashAndDot(body);
    assert '.' !in body;
    assert "" + StemHeader("main") + "\n" + body == "# main\n# adds one\nx = 1";
    assert "# main\n# adds one\nx = 1" + tail == "# main\n# adds one\nx = 1\n\n# service.py\ny";
    SectionIsExtracted("", "main", "\n", body, tail);
  }

  /** The header literal is not anchored to a whole name: under a header
      `# main.py` the segment for stem `main` begins with `.py`. */
  lemma FileNameHeaderExample()
    ensures ExtractedText("# main.py\nprint('hi')\n", "main") == Some(".py\nprint('hi')")
  {
    var body := ".py\nprint('hi')";
    FileHeaderHasHashAndDot(body);
    assert '#' !in body;
    assert AllWhitespace("\n", 0, 1);
    assert "# main.py\nprint('hi')\n" == "" + StemHeader("main") + "" + body + "\n";
    SectionIsExtracted("", "main", "", body, "\n");
  }
}
