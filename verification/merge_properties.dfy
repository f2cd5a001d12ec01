/** What the merge loop promises, proved about its specification Run (to
    which Write is tied by its postcondition). */
module MergeProperties {
  import opened Wrappers
  import opened Segment
  import opened Merge

  /** The entry ends the walk: it is a `.py` file that opens, and either it
      has no segment (the `unwrap` panics) or reading it fails (the `?`
      returns). */
  predicate Stops(text: string, item: Option<DirEntry>, existing: set<Path>, faults: Faults) {
    && IsPyFile(item)
    && Opens(existing, faults, item.value.path)
    && (ExtractedText(text, item.value.stem).None? || item.value.path in faults.readFails)
  }

  /** The entry changes nothing and the walk goes on: it is not a `.py`
      file, or it does not open, or writing it fails. */
  predicate Skips(text: string, item: Option<DirEntry>, existing: set<Path>, faults: Faults) {
    || !IsPyFile(item)
    || !Opens(existing, faults, item.value.path)
    || (&& ExtractedText(text, item.value.stem).Some?
        && item.value.path !in faults.readFails
        && item.value.path in faults.writeFails)
  }

  /** The entry's segment, or nothing when it has none. */
  function SegmentOf(text: string, item: Option<DirEntry>): string
    requires item.Some?
  {
    match ExtractedText(text, item.value.stem)
    case Some(segment) => segment
    case None => []
  }

  /** The walk names `p` as a `.py` file. */
  ghost predicate Targets(walk: Walk, p: Path) {
    exists k :: 0 <= k < |walk| && IsPyFile(walk[k]) && walk[k].value.path == p
  }

  /** The entry is a `.py` file that opens and takes a write. */
  predicate Appends(item: Option<DirEntry>, existing: set<Path>, faults: Faults) {
    IsPyFile(item) && Opens(existing, faults, item.value.path) && item.value.path !in faults.writeFails
  }

  /** What the entry appends to file `p`. */
  function AddedBy(text: string, item: Option<DirEntry>, existing: set<Path>, faults: Faults, p: Path): string {
    if Appends(item, existing, faults) && item.value.path == p then SegmentOf(text, item) else []
  }

  /** The text appended to file `p` by a walk that runs to the end: the
      segments of the entries for `p`, in walk order, when `p` opens and
      writing it succeeds.  This is a reference definition per file,
      independent of the order in which Run updates the whole store. */
  function AppendedTo(text: string, walk: Walk, existing: set<Path>, faults: Faults, p: Path): string
    decreases |walk|
  {
    if walk == [] then []
    else
      AddedBy(text, walk[0], existing, faults, p) + AppendedTo(text, walk[1..], existing, faults, p)
  }

  // Steps of the proofs below.

  /** A proof step, not a property of the merge: sequence concatenation
      regrouped, stated once so that the proofs below stay small. */
  lemma ConcatIsAssociative(a: string, b: string, c: string)
    ensures (a + b) + c == a + (b + c)
  {
  }

  /** A walk that runs to the end is not stopped by its first entry. */
  lemma DoneGoesPastFirst(text: string, walk: Walk, files: map<Path, string>, faults: Faults)
    requires walk != [] && Run(text, walk, files, faults).outcome.Done?
    ensures !Stops(text, walk[0], files.Keys, faults)
  {
  }

  /** One entry that does not stop the walk: the files after it. */
  lemma FirstStep(text: string, walk: Walk, files: map<Path, string>, faults: Faults) returns (files': map<Path, string>)
    requires walk != [] && !Stops(text, walk[0], files.Keys, faults)
    ensures files'.Keys == files.Keys
    ensures forall p :: p in files ==> files'[p] == files[p] + AddedBy(text, walk[0], files.Keys, faults, p)
    ensures Run(text, walk, files, faults) == Run(text, walk[1..], files', faults)
  {
    var item := walk[0];
    files' := if Appends(item, files.Keys, faults)
              then files[item.value.path := files[item.value.path] + SegmentOf(text, item)]
              else files;
    forall p | p in files
      ensures files'[p] == files[p] + AddedBy(text, item, files.Keys, faults, p)
    {
      assert files[p] + [] == files[p];
    }
  }

  // Properties of the merge.

  /** Running two walks one after the other is running their concatenation,
      except that a walk that stops does not start the second. */
  lemma {:induction false} RunConcat(text: string, a: Walk, b: Walk, files: map<Path, string>, faults: Faults)
    ensures Run(text, a + b, files, faults)
         == (var m := Run(text, a, files, faults);
             if m.outcome.Done? then Run(text, b, m.files, faults) else m)
  {
    if a == [] {
      assert a + b == b;
    } else {
      assert (a + b)[0] == a[0];
      assert (a + b)[1..] == a[1..] + b;
      var item := a[0];
      if !IsPyFile(item) || !Opens(files.Keys, faults, item.value.path) {
        RunConcat(text, a[1..], b, files, faults);
      } else {
        var p := item.value.path;
        match ExtractedText(text, item.value.stem)
        case None =>
        case Some(segment) =>
          if p in faults.readFails {
          } else if p in faults.writeFails {
            RunConcat(text, a[1..], b, files, faults);
          } else {
            RunConcat(text, a[1..], b, files[p := files[p] + segment], faults);
          }
      }
    }
  }

  /** How `write` ends depends on which files exist and on which operations
      fail on them, not on their text; so a second call on the same
      directory ends as the first did.  Content that is not valid UTF-8,
      which makes `read_to_string` fail, is one of the read faults. */
  lemma {:induction false} OutcomeIgnoresContents(text: string, walk: Walk, files1: map<Path, string>, files2: map<Path, string>, faults: Faults)
    requires files1.Keys == files2.Keys
    ensures Run(text, walk, files1, faults).outcome == Run(text, walk, files2, faults).outcome
    decreases |walk|
  {
    if walk != [] {
      var item := walk[0];
      if !IsPyFile(item) || !Opens(files1.Keys, faults, item.value.path) {
        OutcomeIgnoresContents(text, walk[1..], files1, files2, faults);
      } else {
        var p := item.value.path;
        match ExtractedText(text, item.value.stem)
        case None =>
        case Some(segment) =>
          if p in faults.readFails {
          } else if p in faults.writeFails {
            OutcomeIgnoresContents(text, walk[1..], files1, files2, faults);
          } else {
            OutcomeIgnoresContents(text, walk[1..], files1[p := files1[p] + segment], files2[p := files2[p] + segment], faults);
          }
      }
    }
  }

  /** `write` returns `Ok(())` exactly when no entry of the walk stops it. */
  lemma {:induction false} DoneIffNoEntryStops(text: string, walk: Walk, files: map<Path, string>, faults: Faults)
    ensures Run(text, walk, files, faults).outcome.Done?
        <==> forall k :: 0 <= k < |walk| ==> !Stops(text, walk[k], files.Keys, faults)
    decreases |walk|
  {
    if walk != [] {
      var item := walk[0];
      assert forall k :: 1 <= k < |walk| ==> walk[k] == walk[1..][k - 1];
      if !IsPyFile(item) || !Opens(files.Keys, faults, item.value.path) {
        DoneIffNoEntryStops(text, walk[1..], files, faults);
      } else {
        var p := item.value.path;
        match ExtractedText(text, item.value.stem)
        case None =>
        case Some(segment) =>
          if p in faults.readFails {
          } else if p in faults.writeFails {
            DoneIffNoEntryStops(text, walk[1..], files, faults);
          } else {
            DoneIffNoEntryStops(text, walk[1..], files[p := files[p] + segment], faults);
          }
      }
    }
  }

  /** The first entry that stops `write` ends it at once: a missing segment
      panics and a read failure returns the error, with the files as the
      entries before it left them and no later entry looked at. */
  lemma FirstStopEndsWrite(text: string, walk: Walk, files: map<Path, string>, faults: Faults, k: nat)
    requires k < |walk| && Stops(text, walk[k], files.Keys, faults)
    requires forall j :: 0 <= j < k ==> !Stops(text, walk[j], files.Keys, faults)
    ensures var p := walk[k].value.path;
            var before := Run(text, walk[..k], files, faults);
            && before.outcome.Done?
            && Run(text, walk, files, faults)
               == Merged(if ExtractedText(text, walk[k].value.stem).None? then Panic(p) else ReadError(p), before.files)
  {
    assert walk == walk[..k] + walk[k..];
    RunConcat(text, walk[..k], walk[k..], files, faults);
    DoneIffNoEntryStops(text, walk[..k], files, faults);
    assert walk[k..][0] == walk[k];
  }

  /** When `write` runs to the end, every file holds its old content
      followed by exactly the segments appended to it (append, never
      overwrite or prepend). */
  lemma {:induction false} RunAppendsSegments(text: string, walk: Walk, files: map<Path, string>, faults: Faults, p: Path)
    requires p in files && Run(text, walk, files, faults).outcome.Done?
    ensures Run(text, walk, files, faults).files[p] == files[p] + AppendedTo(text, walk, files.Keys, faults, p)
    decreases |walk|
  {
    if walk == [] {
      assert files[p] + [] == files[p];
    } else {
      DoneGoesPastFirst(text, walk, files, faults);
      var files' := FirstStep(text, walk, files, faults);
      RunAppendsSegments(text, walk[1..], files', faults, p);
      var added := AddedBy(text, walk[0], files.Keys, faults, p);
      var rest := AppendedTo(text, walk[1..], files.Keys, faults, p);
      assert AppendedTo(text, walk[1..], files'.Keys, faults, p) == rest;
      ConcatIsAssociative(files[p], added, rest);
    }
  }

  /** Only `.py` files of the walk that open and can be written change,
      however `write` ends. */
  lemma {:induction false} UntargetedFilesUnchanged(text: string, walk: Walk, files: map<Path, string>, faults: Faults, p: Path)
    requires p in files
    requires !Targets(walk, p) || p in faults.openFails || p in faults.writeFails
    ensures Run(text, walk, files, faults).files[p] == files[p]
    decreases |walk|
  {
    if walk != [] {
      var item := walk[0];
      assert !Targets(walk, p) ==> !Targets(walk[1..], p) by {
        if Targets(walk[1..], p) {
          var k :| 0 <= k < |walk[1..]| && IsPyFile(walk[1..][k]) && walk[1..][k].value.path == p;
          assert walk[k + 1] == walk[1..][k];
        }
      }
      if !IsPyFile(item) || !Opens(files.Keys, faults, item.value.path) {
        UntargetedFilesUnchanged(text, walk[1..], files, faults, p);
      } else {
        var q := item.value.path;
        match ExtractedText(text, item.value.stem)
        case None =>
        case Some(segment) =>
          if q in faults.readFails {
          } else if q in faults.writeFails {
            UntargetedFilesUnchanged(text, walk[1..], files, faults, p);
          } else {
            assert !Targets(walk, p) ==> q != p;
            UntargetedFilesUnchanged(text, walk[1..], files[q := files[q] + segment], faults, p);
          }
      }
    }
  }

  /** Failure isolation: an entry that is skipped, because it is not a
      `.py` file, because it does not open or because writing it fails, is
      as if it were not in the walk; the files before and after it are
      merged all the same. */
  lemma SkippedEntryIsTransparent(text: string, a: Walk, item: Option<DirEntry>, b: Walk, files: map<Path, string>, faults: Faults)
    requires Skips(text, item, files.Keys, faults)
    ensures Run(text, a + [item] + b, files, faults) == Run(text, a + b, files, faults)
  {
    assert a + [item] + b == a + ([item] + b);
    RunConcat(text, a, [item] + b, files, faults);
    RunConcat(text, a, b, files, faults);
    assert ([item] + b)[0] == item;
    assert ([item] + b)[1..] == b;
  }

  /** A `.py` file named once in the walk, that opens, reads and writes,
      receives exactly its segment. */
  lemma {:induction false} AppendedOnce(text: string, walk: Walk, existing: set<Path>, faults: Faults, k: nat)
    requires k < |walk| && IsPyFile(walk[k])
    requires forall j :: 0 <= j < |walk| && j != k && IsPyFile(walk[j]) ==> walk[j].value.path != walk[k].value.path
    requires Opens(existing, faults, walk[k].value.path) && walk[k].value.path !in faults.writeFails
    ensures AppendedTo(text, walk, existing, faults, walk[k].value.path) == SegmentOf(text, walk[k])
    decreases |walk|
  {
    var p := walk[k].value.path;
    if k == 0 {
      NotTargetedAppendsNothing(text, walk[1..], existing, faults, p);
    } else {
      assert forall j :: 0 <= j < |walk[1..]| ==> walk[1..][j] == walk[j + 1];
      AppendedOnce(text, walk[1..], existing, faults, k - 1);
    }
  }

  /** A file the walk does not name as a `.py` file receives nothing. */
  lemma {:induction false} NotTargetedAppendsNothing(text: string, walk: Walk, existing: set<Path>, faults: Faults, p: Path)
    requires forall j :: 0 <= j < |walk| && IsPyFile(walk[j]) ==> walk[j].value.path != p
    ensures AppendedTo(text, walk, existing, faults, p) == []
    decreases |walk|
  {
    if walk != [] {
      assert forall j :: 0 <= j < |walk[1..]| ==> walk[1..][j] == walk[j + 1];
      NotTargetedAppendsNothing(text, walk[1..], existing, faults, p);
    }
  }

  /** Append, not overwrite: a `.py` file named once in the walk, that
      opens, reads and writes, ends up holding its old content followed by
      its segment when `write` returns `Ok(())`. */
  lemma SingleFileGetsItsSegment(text: string, walk: Walk, files: map<Path, string>, faults: Faults, k: nat)
    requires k < |walk| && Appends(walk[k], files.Keys, faults)
    requires forall j :: 0 <= j < |walk| && j != k && IsPyFile(walk[j]) ==> walk[j].value.path != walk[k].value.path
    requires Run(text, walk, files, faults).outcome.Done?
    ensures ExtractedText(text, walk[k].value.stem).Some?
    ensures var p := walk[k].value.path;
            Run(text, walk, files, faults).files[p] == files[p] + ExtractedText(text, walk[k].value.stem).value
  {
    DoneIffNoEntryStops(text, walk, files, faults);
    assert !Stops(text, walk[k], files.Keys, faults);
    AppendedOnce(text, walk, files.Keys, faults, k);
    RunAppendsSegments(text, walk, files, faults, walk[k].value.path);
  }

  /** `write` is not idempotent: a second call with the same response on
      the same directory runs to the end again and appends every segment a
      second time.  The second call keeps the same faults: a file is only
      appended to after it was read, so its text was valid UTF-8, and a
      segment is UTF-8 text too. */
  lemma WriteTwiceAppendsTwice(text: string, walk: Walk, files: map<Path, string>, faults: Faults, p: Path)
    requires p in files && Run(text, walk, files, faults).outcome.Done?
    ensures var once := Run(text, walk, files, faults);
            var twice := Run(text, walk, once.files, faults);
            var added := AppendedTo(text, walk, files.Keys, faults, p);
            twice.outcome.Done? && twice.files[p] == files[p] + added + added
  {
    var once := Run(text, walk, files, faults);
    OutcomeIgnoresContents(text, walk, files, once.files, faults);
    RunAppendsSegments(text, walk, files, faults, p);
    RunAppendsSegments(text, walk, once.files, faults, p);
  }
}
