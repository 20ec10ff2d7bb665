/**
 `process_and_package`: the batch loop over the uploaded files. Each upload
 is tried in turn; whatever it raises is caught at the item boundary and
 becomes one error line of the log. Icons that get through are collected
 for the gallery, saved as `icon_NNN.png` in the batch's directory and added
 to `processed_icons.zip`.

 The decoder, the background remover and the file system are not part of
 this model: how each of their calls behaves on a given upload is part of
 the `Upload` value.
 */
module Batch {
  import opened Images
  import opened Backgrounds
  import opened Pipeline
  import opened Naming

  /** Whether a foreign call returned normally or raised an exception with the given text. */
  datatype Outcome = Completed | Threw(reason: string)

  /**
   One uploaded file, as the foreign calls of the loop see it: `decoded` is
   `Image.open(file).convert("RGBA")`; `removed` is the PNG encoding, rembg's
   `remove` and the decoding of its answer; `saved` is `padded.save(file_path)`;
   `archived` is `zipf.write(file_path, arcname=filename)`.
   */
  datatype Upload = Upload(decoded: Result<Image>, removed: Result<Image>, saved: Outcome, archived: Outcome)

  /** The lines of `log_output`; only the file name, the index, the sizes and the reason carry information. */
  datatype LogLine =
    | NoFilesWarning
    | Processed(name: string, original: (nat, nat), resized: (nat, nat))
    | Failed(index: nat, reason: string)

  /**
   How one iteration of the loop ends. `Listed` is the case where
   `zipf.write` raises: the icon and its path were already appended to the
   outputs, so they stay there, but the archive lacks it and the log reports
   a failure.
   */
  datatype ItemOutcome =
    | Packed(original: Image, fitted: Fitted)
    | Listed(original: Image, fitted: Fitted, reason: string)
    | Dropped(reason: string)

  function SizeOf(img: Image): (nat, nat) {
    (img.width, img.height)
  }

  /**
   The body of the `try` block for one upload, as a tagged result. The item
   is dropped when decoding, background removal, `thumbnail` or `save`
   raises, and the first of these to raise gives its text; once `save` has
   completed, a raising `zipf.write` still leaves the icon listed.
   */
  function Attempt(u: Upload, size: int, bg: Background): (r: ItemOutcome)
    ensures r.Dropped? <==> u.decoded.Err? || u.removed.Err? || size < 1 || u.saved.Threw?
    ensures r.Listed? <==> !r.Dropped? && u.archived.Threw?
    ensures u.decoded.Err? ==> r.reason == u.decoded.reason
    ensures u.decoded.Ok? && u.removed.Err? ==> r.reason == u.removed.reason
    ensures u.decoded.Ok? && u.removed.Ok? && size < 1 ==> r.reason == NonPositiveSize
    ensures u.decoded.Ok? && u.removed.Ok? && size >= 1 && u.saved.Threw? ==> r.reason == u.saved.reason
    ensures r.Listed? ==> r.reason == u.archived.reason
    ensures !r.Dropped? ==> r.original == u.decoded.value && r.fitted == FitIcon(u.removed.value, size, bg).value
  {
    if u.decoded.Err? then Dropped(u.decoded.reason)
    else if u.removed.Err? then Dropped(u.removed.reason)
    else
      var fitted := FitIcon(u.removed.value, size, bg);
      if fitted.Err? then Dropped(fitted.reason)
      else if u.saved.Threw? then Dropped(u.saved.reason)
      else if u.archived.Threw? then Listed(u.decoded.value, fitted.value, u.archived.reason)
      else Packed(u.decoded.value, fitted.value)
  }

  /** The tagged result of every upload, in input order. */
  function Outcomes(files: seq<Upload>, size: int, bg: Background): (r: seq<ItemOutcome>)
    ensures |r| == |files|
    ensures forall k | 0 <= k < |files| :: r[k] == Attempt(files[k], size, bg)
  {
    seq(|files|, k requires 0 <= k < |files| => Attempt(files[k], size, bg))
  }

  /** What the loop has built so far: gallery images, file paths, archive entry names and log lines. */
  datatype Batch = Batch(images: seq<Image>, paths: seq<string>, entries: seq<string>, log: seq<LogLine>)

  /** The log line of the item at 0-based position `k`. */
  function LineFor(o: ItemOutcome, k: nat): (l: LogLine)
    ensures l.Processed? <==> o.Packed?
    ensures o.Packed? ==> l.name == FileName(k + 1) && l.original == SizeOf(o.original) && l.resized == SizeOf(o.fitted.resized)
    ensures !o.Packed? ==> l == Failed(k + 1, o.reason)
  {
    match o
    case Packed(img, f) => Processed(FileName(k + 1), SizeOf(img), SizeOf(f.resized))
    case Listed(_, _, e) => Failed(k + 1, e)
    case Dropped(e) => Failed(k + 1, e)
  }

  /** Adds the effect of the item at position `k` to the batch. */
  function Record(b: Batch, o: ItemOutcome, k: nat, dir: string): (r: Batch)
    ensures r.log == b.log + [LineFor(o, k)]
    ensures r.images == b.images + (if o.Dropped? then [] else [o.fitted.icon])
    ensures r.paths == b.paths + (if o.Dropped? then [] else [PathInDir(dir, FileName(k + 1))])
    ensures r.entries == b.entries + (if o.Packed? then [FileName(k + 1)] else [])
  {
    var name := FileName(k + 1);
    match o
    case Packed(_, f) =>
      Batch(b.images + [f.icon], b.paths + [PathInDir(dir, name)], b.entries + [name], b.log + [LineFor(o, k)])
    case Listed(_, f, _) =>
      Batch(b.images + [f.icon], b.paths + [PathInDir(dir, name)], b.entries, b.log + [LineFor(o, k)])
    case Dropped(_) =>
      b.(log := b.log + [LineFor(o, k)])
  }

  /** The batch built from a sequence of item results, each at its own position. */
  function Collect(outs: seq<ItemOutcome>, dir: string): (b: Batch)
    ensures |b.log| == |outs|
    ensures |b.paths| == |b.images| <= |outs|
    ensures |b.entries| <= |b.images|
  {
    if outs == [] then Batch([], [], [], [])
    else Record(Collect(outs[..|outs| - 1], dir), outs[|outs| - 1], |outs| - 1, dir)
  }

  /** Processing one more item extends the batch by that item's effect. */
  lemma CollectNext(outs: seq<ItemOutcome>, idx: nat, dir: string)
    requires idx < |outs|
    ensures Collect(outs[..idx + 1], dir) == Record(Collect(outs[..idx], dir), outs[idx], idx, dir)
  {
    assert outs[..idx + 1][..idx] == outs[..idx];
  }

  /** The `zipfile.ZipFile` opened for writing: the names of the entries written so far. */
  class ZipWriter {
    const path: string
    var entries: seq<string>
    var closed: bool

    constructor (path: string)
      ensures this.path == path && entries == [] && !closed
    {
      this.path := path;
      entries := [];
      closed := false;
    }

    /** `zipf.write(source, arcname=arcname)`; `outcome` says whether reading the source and writing the entry raises. */
    method Write(source: string, arcname: string, outcome: Outcome) returns (r: Outcome)
      requires !closed
      modifies this
      ensures r == outcome && !closed
      ensures entries == if outcome.Completed? then old(entries) + [arcname] else old(entries)
    {
      if outcome.Completed? {
        entries := entries + [arcname];
      }
      r := outcome;
    }

    /** Leaving the `with` block: the archive is finalised with the entries it has. */
    method Close()
      requires !closed
      modifies this
      ensures closed && entries == old(entries)
    {
      closed := true;
    }
  }

  /**
   `process_and_package(files, size, bg_color_label)`. It returns the gallery
   images, the log lines, the file paths, the archive path (None for an empty
   upload) and the names of the entries the archive holds.
   */
  method ProcessAndPackage(files: seq<Upload>, size: int, choice: string, tempDir: string)
    returns (results: seq<Image>, log: seq<LogLine>, filePaths: seq<string>, zipPath: Option<string>, archived: seq<string>)
    ensures files == [] ==> results == [] && log == [NoFilesWarning] && filePaths == [] && zipPath == None && archived == []
    ensures files != [] ==> zipPath == Some(JoinPath(tempDir, ArchiveName))
    ensures files != [] ==>
      Batch(results, filePaths, archived, log) == Collect(Outcomes(files, size, ResolveBackground(choice)), tempDir)
  {
    if files == [] {
      return [], [NoFilesWarning], [], None, [];
    }
    var bg := ResolveBackground(choice);
    ghost var outs := Outcomes(files, size, bg);
    results, filePaths, log := [], [], [];
    var zip := JoinPath(tempDir, ArchiveName);
    var zipf := new ZipWriter(zip);
    for idx := 0 to |files|
      invariant !zipf.closed
      invariant results == Collect(outs[..idx], tempDir).images
      invariant filePaths == Collect(outs[..idx], tempDir).paths
      invariant zipf.entries == Collect(outs[..idx], tempDir).entries
      invariant log == Collect(outs[..idx], tempDir).log
    {
      CollectNext(outs, idx, tempDir);
      assert outs[idx] == Attempt(files[idx], size, bg);
      var file := files[idx];
      if file.decoded.Err? {
        assert outs[idx] == Dropped(file.decoded.reason);
        log := log + [LineFor(Dropped(file.decoded.reason), idx)];
        continue;
      }
      var img := file.decoded.value;
      if file.removed.Err? {
        assert outs[idx] == Dropped(file.removed.reason);
        log := log + [LineFor(Dropped(file.removed.reason), idx)];
        continue;
      }
      var fitted := FitIcon(file.removed.value, size, bg);
      if fitted.Err? {
        assert outs[idx] == Dropped(fitted.reason);
        log := log + [LineFor(Dropped(fitted.reason), idx)];
        continue;
      }
      var filename := FileName(idx + 1);
      var filePath := JoinPath(tempDir, filename);
      FileNameIsRelative(idx + 1);
      if file.saved.Threw? {
        assert outs[idx] == Dropped(file.saved.reason);
        log := log + [LineFor(Dropped(file.saved.reason), idx)];
        continue;
      }
      results := results + [fitted.value.icon];
      filePaths := filePaths + [filePath];
      var written := zipf.Write(filePath, filename, file.archived);
      if written.Threw? {
        assert outs[idx] == Listed(img, fitted.value, written.reason);
        log := log + [LineFor(Listed(img, fitted.value, written.reason), idx)];
        continue;
      }
      assert outs[idx] == Packed(img, fitted.value);
      log := log + [LineFor(Packed(img, fitted.value), idx)];
    }
    zipf.Close();
    assert outs[..|files|] == outs;
    zipPath := Some(zip);
    archived := zipf.entries;
  }
}
