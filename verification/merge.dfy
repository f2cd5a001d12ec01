/**
  The merge loop of `Text::write` (src/main.rs): walk the directory, and for
  every regular `.py` file open it for read and append, take its segment
  from the response, read it, and append the segment.

  The file system is a FileStore: the contents of every existing file and
  the paths on which opening, reading or writing fails.  The directory walk
  is given as the sequence of what WalkDir yields.
 */
module Merge {
  import opened Wrappers
  import Segment

  type Path = string

  /** The `Text` configuration; `write` reads none of it but `dir`, whose
      walk is passed to Write as a sequence. */
  datatype Text = Text(promptText: string, userText: string, model: string, dir: Path)

  /** One entry of the walk, with what `Path::is_file`, `Path::extension`
      and `Path::file_stem` say of it. */
  datatype DirEntry = DirEntry(path: Path, isFile: bool, extension: Option<string>, stem: string)

  /** What WalkDir yields: an entry, or None for a walk error, which
      `filter_map(|entry| entry.ok())` drops. */
  type Walk = seq<Option<DirEntry>>

  /** The paths on which each file operation fails. */
  datatype Faults = Faults(openFails: set<Path>, readFails: set<Path>, writeFails: set<Path>)

  /** How `write` ends: `Ok(())`, `Err` from the read's `?`, or the panic of
      `unwrap` on a missing segment.  The path is the file at which it
      stopped. */
  datatype Outcome = Done | ReadError(path: Path) | Panic(path: Path)

  /** The outcome together with the file contents afterwards. */
  datatype Merged = Merged(outcome: Outcome, files: map<Path, string>)

  /** The test of src/main.rs:39: a regular file with extension `py`. */
  predicate IsPyFile(item: Option<DirEntry>) {
    item.Some? && item.value.isFile && item.value.extension == Some("py")
  }

  /** Opening with read, write and append (and no create) succeeds on an
      existing file without an open fault. */
  predicate Opens(existing: set<Path>, faults: Faults, p: Path) {
    p in existing && p !in faults.openFails
  }

  /** What `write` does from the given contents on: the specification of
      the loop, one entry at a time. */
  function Run(text: string, walk: Walk, files: map<Path, string>, faults: Faults): (m: Merged)
    decreases |walk|
    ensures m.files.Keys == files.Keys
  {
    if walk == [] then Merged(Done, files)
    else
      var item := walk[0];
      if !IsPyFile(item) || !Opens(files.Keys, faults, item.value.path) then
        Run(text, walk[1..], files, faults)
      else
        var p := item.value.path;
        match Segment.ExtractedText(text, item.value.stem)
        case None => Merged(Panic(p), files)
        case Some(segment) =>
          if p in faults.readFails then Merged(ReadError(p), files)
          else if p in faults.writeFails then Run(text, walk[1..], files, faults)
          else Run(text, walk[1..], files[p := files[p] + segment], faults)
  }

  /** The file system as `write` sees it. */
  class FileStore {
    var files: map<Path, string>
    const faults: Faults

    constructor (files: map<Path, string>, faults: Faults)
      ensures this.files == files && this.faults == faults
    {
      this.files := files;
      this.faults := faults;
    }

    /** `write_all` on a file opened in append mode: the data lands at the
        end of the file, whatever was read before. */
    method AppendAll(p: Path, data: string) returns (ok: bool)
      requires p in files
      modifies this
      ensures ok == (p !in faults.writeFails)
      ensures files == if ok then old(files)[p := old(files)[p] + data] else old(files)
    {
      ok := p !in faults.writeFails;
      if ok {
        files := files[p := files[p] + data];
      }
    }
  }

  /** `Text::write`: merge the response `text` into the `.py` files of the
      walk.  `walk` is the sequence of entries that `WalkDir::new(config.dir)`
      yields; the traversal itself is not modelled. */
  method Write(config: Text, text: string, walk: Walk, fs: FileStore) returns (outcome: Outcome)
    modifies fs
    ensures Merged(outcome, fs.files) == Run(text, walk, old(fs.files), fs.faults)
  {
    for i := 0 to |walk|
      invariant Run(text, walk[i..], fs.files, fs.faults) == Run(text, walk, old(fs.files), fs.faults)
    {
      assert walk[i..][1..] == walk[i + 1..];
      var item := walk[i];
      if !IsPyFile(item) {
        continue;
      }
      var path := item.value.path;
      if !Opens(fs.files.Keys, fs.faults, path) {
        continue;
      }
      var extracted := Segment.ExtractedText(text, item.value.stem);
      if extracted.None? {
        return Panic(path);
      }
      if path in fs.faults.readFails {
        return ReadError(path);
      }
      var written := fs.AppendAll(path, extracted.value);
      if !written {
        continue;
      }
    }
    return Done;
  }
}
