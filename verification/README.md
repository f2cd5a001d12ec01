# ai-comment-app: response splitting and merge, in Dafny

The program sends Python files to a language model and gets back one
text holding the commented version of every file. Two parts of
`src/main.rs` then split that text into per-file segments and append each
segment to its file. This project models those two parts and proves what
they do.

- `Text::extracted_text` finds the segment for a file stem using the
  regular expression `(?s)# <stem>\s*(.*?)\s*(?:# [a-zA-Z0-9_]+\.py|\z)`.
  Module `Segment` states that match as ghost predicates read off the
  pattern: `IsFirstOccurrence`, `FileHeaderAt`, `TerminatorAt` and
  `IsCaptureAt`. It also computes the match without a regex engine, with
  `FindFrom`, `SkipWhitespace`, `IsFileHeaderAt`, `CaptureEnd` and
  `ExtractedText`. Module `SegmentProperties` proves that the computed
  segment is exactly the regex's capture. It also proves the segment's
  properties:
  - A segment exists exactly when `# <stem>` occurs.
  - The stem is matched literally.
  - The segment is trimmed of whitespace at both ends.
  - The segment never contains a file header.
  - A well-formed section is extracted unchanged, comment lines and all,
    and an empty section gives the empty segment.
- `Text::write` is the merge loop. In module `Merge`, the file system is a
  `FileStore` object. It holds the contents of every existing file and the
  paths on which opening, reading or writing fails. The directory walk is
  a sequence of entries. `Write` is a method with a loop, and its
  postcondition equates its outcome and the new contents with `Run`, a
  function that processes one entry at a time. Module `MergeProperties`
  proves these properties of `Run`:
  - A file is changed only if it is a regular `.py` file of the walk.
  - An append adds to the end of the file and never overwrites it.
  - Failures are isolated: a file that fails to open or to write is
    skipped, and the loop goes on.
  - A read error ends the loop at once, and so does the panic on a missing
    segment.
  - The outcome depends on which files exist and which operations fail on
    them, not on their text.
  - Running `write` twice appends every segment twice.

A tool of this kind would be expected to behave differently in four
places. The model follows the code:
- One would expect a header line made of the file's name alone. The code
  looks for the literal `# <stem>` anywhere in the text, not only at the
  start of a line. So a header `# main.py` gives the stem `main` a segment
  that begins with `.py` (`FileNameHeaderExample`). A response that writes
  its headers as bare names such as `main`, with no `# `, gives no segment
  at all (`BareNameHeadersExample`).
- One would expect each header to end the section before it. The code ends
  a section only at a header `# <name>.py` or at the end of the text. So
  with headers written as `# <stem>`, the segment for `main` in
  `# main\nA\n# service\nB` is `A\n# service\nB`: the next file's section
  is appended to `main.py` too (`BareStemHeaderExample`). No header style
  splits cleanly, since `# <name>.py` headers give segments that begin
  with `.py`.
- One would expect a file with no segment to be skipped. The code calls
  `unwrap`, which panics. This is the `Panic` outcome.
- One would expect a read error to affect only that file. The `?` makes
  `write` return the error. This is the `ReadError` outcome, and no later
  file is looked at.

Regex `\s` is modelled exactly as the Unicode White_Space property
(`Segment.IsWhitespace`). That is what the regex crate's `\s` means in its
default Unicode mode.

## Model

| member | source | states |
|---|---|---|
| `Segment.FindFrom` | src/main.rs:82-84 | the result is the first index at or after `from` where the pattern occurs, with no occurrence before it; None means it occurs nowhere from `from` on |
| `Segment.SkipWhitespace` | src/main.rs:82 | the greedy `\s*`: the end of the whitespace run at `i`, with every character before it whitespace and the next one not |
| `Segment.SkipNameChars` | src/main.rs:82 | the end of the run of `[a-zA-Z0-9_]` characters at `i` |
| `Segment.IsFileHeaderAt` | src/main.rs:82 | true exactly when `# [a-zA-Z0-9_]+\.py` matches at `i`, as FileHeaderAt reads the pattern |
| `Segment.IsTerminatorAt` | src/main.rs:82 | true exactly when the tail of the pattern matches at `e`: whitespace, then a file header or the end of the text |
| `Segment.CaptureEnd` | src/main.rs:82 | the lazy `(.*?)`: the least position at or after `e` where the tail matches, and the tail matches at no earlier one |
| `Segment.ExtractedText` | src/main.rs:79-93 | None exactly when the literal `# <stem>` occurs nowhere in the text, and Some otherwise |
| `SegmentProperties.CaptureOf` | src/main.rs:82-86 | a Some result is `text[cs..ce]`, the capture of the leftmost-first match, which starts at the first occurrence of `# <stem>` |
| `SegmentProperties.CaptureIsUnique` | src/main.rs:82 | the pattern has only one leftmost-first capture |
| `SegmentProperties.CaptureIsExtracted` | src/main.rs:82-86 | every leftmost-first capture is what `extracted_text` returns |
| `SegmentProperties.ExtractedTextIsTrimmed` | src/main.rs:82 | a segment neither starts nor ends with whitespace, though it may be empty |
| `SegmentProperties.ExtractedTextHasNoFileHeader` | src/main.rs:82 | a segment contains no header `# <name>.py`; a bare `# <stem>` header does not stop it |
| `SegmentProperties.NextHeaderEndsSection` | src/main.rs:82 | whitespace followed by `# <name>.py` is where a segment may end |
| `SegmentProperties.SectionIsExtracted` | src/main.rs:82-86 | a section made of `# <stem>`, whitespace, a body that is empty or trimmed and holds no file header `# <name>.py` (other `#` lines allowed), and then a file header or the end, yields exactly that body, when `# <stem>` does not occur earlier |
| `SegmentProperties.EmptySectionIsExtracted` | src/main.rs:82-86 | a header followed only by whitespace and then a file header or the end yields `Some("")`, not None |
| `SegmentProperties.NonEmptySectionIsExtracted` | src/main.rs:82-86 | a non-empty trimmed body with no file header, between `# <stem>` plus whitespace and a place where the tail matches, is exactly the segment |
| `SegmentProperties.NoTerminatorBeforeEnd` | src/main.rs:82 | the lazy `(.*?)` runs to the end of a body that ends in a non-space and holds no file header: the tail of the pattern matches nowhere inside it |
| `SegmentProperties.NoTerminatorInsideFileHeader` | src/main.rs:82 | the tail of the pattern never matches strictly inside a file header |
| `SegmentProperties.MissingCharacterMeansNoSegment` | src/main.rs:82 | the stem is literal: if the text lacks a character of `# <stem>`, there is no segment |
| `SegmentProperties.DottedStemExample` | src/main.rs:82 | the `.` in stem `a.b` matches only a `.`: `# axb\ncode` gives no segment and `# a.b\ncode` gives `code` |
| `SegmentProperties.BareStemHeaderExample` | src/main.rs:82 | a later header `# service` does not end the section of `main`: `# main\nA\n# service\nB` gives `A\n# service\nB` |
| `SegmentProperties.BareNameHeadersExample` | src/main.rs:82 | headers written as bare names such as `main`, with no `# `, give no segment |
| `SegmentProperties.EmptySectionExample` | src/main.rs:82 | with stem `main`, `# main\n\n# service.py\ny` gives the empty segment |
| `SegmentProperties.CommentedSectionExample` | src/main.rs:82 | with stem `main`, `# main\n# adds one\nx = 1\n\n# service.py\ny` gives `# adds one\nx = 1`: a comment line stays in the segment |
| `SegmentProperties.TwoSectionsExample` | src/main.rs:82 | in `# main …# service.py…`, the segment for `main` is its body only |
| `SegmentProperties.FileNameHeaderExample` | src/main.rs:82 | under the header `# main.py`, the segment for stem `main` begins with `.py` |
| `Merge.Run` | src/main.rs:34-68 | the merge creates and deletes no file: the set of paths is unchanged |
| `Merge.FileStore.AppendAll` | src/main.rs:60-63 | `write_all` in append mode: on success the data is added at the end of the file, and on failure nothing changes |
| `Merge.Write` | src/main.rs:34-68 | the loop's outcome and the new contents of every file are those of `Run` on the old contents |
| `MergeProperties.RunConcat` | src/main.rs:35-65 | running two walks in turn is running their concatenation, and a walk that stops does not start the next |
| `MergeProperties.OutcomeIgnoresContents` | src/main.rs:41-57 | how `write` ends depends on which files exist and which operations fail on them, not on their text |
| `MergeProperties.DoneIffNoEntryStops` | src/main.rs:50-67 | `Ok(())` exactly when no `.py` file that opens lacks a segment or fails to read |
| `MergeProperties.FirstStopEndsWrite` | src/main.rs:50-57 | the first missing segment panics, or the first read failure returns `Err`; either leaves the files as the earlier entries left them |
| `MergeProperties.RunAppendsSegments` | src/main.rs:41-63 | after `Ok(())`, every file holds its old content followed by the segments appended to it, in walk order |
| `MergeProperties.UntargetedFilesUnchanged` | src/main.rs:35-47 | a file that is not a regular `.py` file of the walk is unchanged, whatever the outcome; so is one that fails to open or to write |
| `MergeProperties.SkippedEntryIsTransparent` | src/main.rs:39-63 | an entry that is not a `.py` file, or fails to open, or fails to write, acts as if it were absent from the walk; the files around it are merged all the same |
| `MergeProperties.AppendedOnce` | src/main.rs:41-63 | a `.py` file named once, that opens and writes, receives exactly its own segment |
| `MergeProperties.SingleFileGetsItsSegment` | src/main.rs:41-63 | after `Ok(())`, such a file holds its old content followed by its segment, never the segment alone or before it |
| `MergeProperties.WriteTwiceAppendsTwice` | src/main.rs:41-63 | a second `write` with the same text also returns `Ok(())` and appends every segment again |

## Left out

- `main` (src/main.rs:97-123) is not modelled. It covers the model client, streaming, printing and the async runtime, which are network and I/O.
- `build_message` (src/main.rs:70-77) is not modelled. It only builds a `genai::ChatRequest`, a type from outside the repository.
- `Text::new` is the datatype constructor `Merge.Text`. `write` reads only the `dir` field, and its walk is a parameter of `Write`.
- WalkDir's traversal is not modelled: the walk is a given sequence. A walk error is a `None` entry, which `filter_map` drops. Recursion order and symlinks are not modelled.
- The OS behaviour of `OpenOptions::open`, `read_to_string` and `write_all` is not modelled. Each fails on the paths in `Faults`. Opening also fails on a path that is not in the store, because the source does not pass `create`.
- Merge.FileStore.AppendAll: a `write_all` that fails after writing part of the data is modelled as writing nothing.
- File content that is not valid UTF-8 makes `read_to_string` return `Err(InvalidData)`. The model stores files as strings and folds such files into `Faults.readFails`, so it does not tie that read error to the bytes.
- The contents of the read buffer are not modelled, since the source never uses them. Only the read's failure matters.
- A file stem that is not valid UTF-8 would make `to_str().unwrap()` panic. This is not modelled, because paths here are strings.
- The `eprintln!` and `println!` logging is not modelled. It prints only and changes no state.
- Rust strings are UTF-8 and the regex works on byte offsets. The model works on Unicode scalar values, which gives the same matches for valid UTF-8.
