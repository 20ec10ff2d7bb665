/**
 What the batch of `process_and_package` promises, stated over the tagged
 item results that `Collect` consumes: one log line per upload, outputs in
 input order minus failures and named by original position, distinct names,
 and icons that are always squares of the requested size.
 */
module BatchProperties {
  import opened Images
  import opened Backgrounds
  import opened Pipeline
  import opened Naming
  import opened Batch

  /** The positions whose flag is set, in increasing order. */
  function Where(flags: seq<bool>): seq<nat> {
    if flags == [] then []
    else Where(flags[..|flags| - 1]) + (if flags[|flags| - 1] then [|flags| - 1] else [])
  }

  /** Every position `Where` lists is in range and has its flag set. */
  lemma {:induction false} WhereSelected(flags: seq<bool>)
    ensures forall j | 0 <= j < |Where(flags)| :: Where(flags)[j] < |flags| && flags[Where(flags)[j]]
  {
    if flags != [] {
      WhereSelected(flags[..|flags| - 1]);
    }
  }

  /** `Where` lists its positions in strictly increasing order. */
  lemma {:induction false} WhereIncreasing(flags: seq<bool>)
    ensures forall i, j | 0 <= i < j < |Where(flags)| :: Where(flags)[i] < Where(flags)[j]
  {
    if flags != [] {
      WhereSelected(flags[..|flags| - 1]);
      WhereIncreasing(flags[..|flags| - 1]);
    }
  }

  /** Every position whose flag is set is listed by `Where`. */
  lemma {:induction false} WhereComplete(flags: seq<bool>)
    ensures forall k | 0 <= k < |flags| && flags[k] :: k in Where(flags)
  {
    if flags != [] {
      var p := flags[..|flags| - 1];
      WhereComplete(p);
      assert forall k | 0 <= k < |p| :: flags[k] == p[k];
    }
  }

  /** Items whose icon reached the gallery and the file list: all but the dropped ones. */
  function KeptFlags(outs: seq<ItemOutcome>): (f: seq<bool>)
    ensures |f| == |outs| && forall k | 0 <= k < |outs| :: f[k] == !outs[k].Dropped?
  {
    seq(|outs|, k requires 0 <= k < |outs| => !outs[k].Dropped?)
  }

  /** Items whose icon reached the archive. */
  function ArchivedFlags(outs: seq<ItemOutcome>): (f: seq<bool>)
    ensures |f| == |outs| && forall k | 0 <= k < |outs| :: f[k] == outs[k].Packed?
  {
    seq(|outs|, k requires 0 <= k < |outs| => outs[k].Packed?)
  }

  /** Every upload adds exactly one log line, at its own position, naming its 1-based index or its file. */
  lemma {:induction false} CollectLog(outs: seq<ItemOutcome>, dir: string)
    ensures |Collect(outs, dir).log| == |outs|
    ensures forall k | 0 <= k < |outs| :: Collect(outs, dir).log[k] == LineFor(outs[k], k)
  {
    if outs != [] {
      var p := outs[..|outs| - 1];
      LogStep(outs, dir);
      CollectLog(p, dir);
      var l, lp := Collect(outs, dir).log, Collect(p, dir).log;
      forall k | 0 <= k < |p|
        ensures l[k] == LineFor(outs[k], k)
      {
        assert l[k] == lp[k] && p[k] == outs[k];
      }
    }
  }

  /** The last item's effect on the log. */
  lemma LogStep(outs: seq<ItemOutcome>, dir: string)
    requires outs != []
    ensures var k := |outs| - 1;
      Collect(outs, dir).log == Collect(outs[..k], dir).log + [LineFor(outs[k], k)]
  {
  }

  /** The last item's effect on the gallery. */
  lemma ImagesStep(outs: seq<ItemOutcome>, dir: string)
    requires outs != []
    ensures var k := |outs| - 1;
      Collect(outs, dir).images == Collect(outs[..k], dir).images + (if outs[k].Dropped? then [] else [outs[k].fitted.icon])
  {
  }

  /** The last item's effect on the file list. */
  lemma PathsStep(outs: seq<ItemOutcome>, dir: string)
    requires outs != []
    ensures var k := |outs| - 1;
      Collect(outs, dir).paths == Collect(outs[..k], dir).paths + (if outs[k].Dropped? then [] else [PathInDir(dir, FileName(k + 1))])
  {
  }

  /** The last item's effect on the archive. */
  lemma EntriesStep(outs: seq<ItemOutcome>, dir: string)
    requires outs != []
    ensures var k := |outs| - 1;
      Collect(outs, dir).entries == Collect(outs[..k], dir).entries + (if outs[k].Packed? then [FileName(k + 1)] else [])
  {
  }

  /** Selecting the positions of a longer flag sequence extends the selection of its prefix. */
  lemma WhereStep(flags: seq<bool>, prefix: seq<bool>)
    requires flags != [] && prefix == flags[..|flags| - 1]
    ensures Where(flags) == Where(prefix) + (if flags[|flags| - 1] then [|flags| - 1] else [])
  {
  }

  /** The gallery holds the icons of the kept items, in input order. */
  lemma {:induction false} CollectImages(outs: seq<ItemOutcome>, dir: string)
    ensures var b, kept := Collect(outs, dir), Where(KeptFlags(outs));
      && |b.images| == |kept|
      && forall j | 0 <= j < |kept| ::
           kept[j] < |outs| && !outs[kept[j]].Dropped? && b.images[j] == outs[kept[j]].fitted.icon
  {
    if outs != [] {
      var n := |outs|;
      var p := outs[..n - 1];
      assert KeptFlags(outs)[..n - 1] == KeptFlags(p);
      WhereStep(KeptFlags(outs), KeptFlags(p));
      ImagesStep(outs, dir);
      CollectImages(p, dir);
    }
  }

  /** The file list holds, for each kept item, the path named after its original 1-based position. */
  lemma {:induction false} CollectPaths(outs: seq<ItemOutcome>, dir: string)
    ensures var b, kept := Collect(outs, dir), Where(KeptFlags(outs));
      && |b.paths| == |kept|
      && forall j | 0 <= j < |kept| :: b.paths[j] == PathInDir(dir, FileName(kept[j] + 1))
  {
    if outs != [] {
      var n := |outs|;
      var p := outs[..n - 1];
      assert KeptFlags(outs)[..n - 1] == KeptFlags(p);
      WhereStep(KeptFlags(outs), KeptFlags(p));
      PathsStep(outs, dir);
      CollectPaths(p, dir);
    }
  }

  /** The archive holds, for each fully packed item, the entry named after its original 1-based position. */
  lemma {:induction false} CollectEntries(outs: seq<ItemOutcome>, dir: string)
    ensures var b, arch := Collect(outs, dir), Where(ArchivedFlags(outs));
      && |b.entries| == |arch|
      && forall j | 0 <= j < |arch| :: b.entries[j] == FileName(arch[j] + 1)
  {
    if outs != [] {
      var n := |outs|;
      var p := outs[..n - 1];
      assert ArchivedFlags(outs)[..n - 1] == ArchivedFlags(p);
      WhereStep(ArchivedFlags(outs), ArchivedFlags(p));
      EntriesStep(outs, dir);
      CollectEntries(p, dir);
      var e, ep := Collect(outs, dir).entries, Collect(p, dir).entries;
      var a, ap := Where(ArchivedFlags(outs)), Where(ArchivedFlags(p));
      forall j | 0 <= j < |ap|
        ensures e[j] == FileName(a[j] + 1)
      {
        assert e[j] == ep[j] && a[j] == ap[j];
      }
    }
  }

  /** Names made from strictly increasing indices are pairwise different. */
  lemma NamesFromIncreasing(names: seq<string>, idx: seq<nat>)
    requires |names| == |idx|
    requires forall j | 0 <= j < |idx| :: names[j] == FileName(idx[j] + 1)
    requires forall i, j | 0 <= i < j < |idx| :: idx[i] < idx[j]
    ensures forall i, j | 0 <= i < j < |names| :: names[i] != names[j]
  {
    forall i, j | 0 <= i < j < |names|
      ensures names[i] != names[j]
    {
      FileNamesDiffer(idx[i] + 1, idx[j] + 1);
    }
  }

  /** Paths made from strictly increasing indices are pairwise different. */
  lemma PathsFromIncreasing(dir: string, paths: seq<string>, idx: seq<nat>)
    requires |paths| == |idx|
    requires forall j | 0 <= j < |idx| :: paths[j] == PathInDir(dir, FileName(idx[j] + 1))
    requires forall i, j | 0 <= i < j < |idx| :: idx[i] < idx[j]
    ensures forall i, j | 0 <= i < j < |paths| :: paths[i] != paths[j]
  {
    forall i, j | 0 <= i < j < |paths|
      ensures paths[i] != paths[j]
    {
      PathsDiffer(dir, idx[i] + 1, idx[j] + 1);
    }
  }

  /** An index not among `idx` has its name missing from the names made from `idx`. */
  lemma NameAbsent(names: seq<string>, idx: seq<nat>, k: nat)
    requires |names| == |idx|
    requires forall j | 0 <= j < |idx| :: names[j] == FileName(idx[j] + 1) && idx[j] != k
    ensures FileName(k + 1) !in names
  {
    forall j | 0 <= j < |names|
      ensures names[j] != FileName(k + 1)
    {
      FileNamesDiffer(idx[j] + 1, k + 1);
    }
  }

  /** An index not among `idx` has its path missing from the paths made from `idx`. */
  lemma PathAbsent(dir: string, paths: seq<string>, idx: seq<nat>, k: nat)
    requires |paths| == |idx|
    requires forall j | 0 <= j < |idx| :: paths[j] == PathInDir(dir, FileName(idx[j] + 1)) && idx[j] != k
    ensures PathInDir(dir, FileName(k + 1)) !in paths
  {
    forall j | 0 <= j < |paths|
      ensures paths[j] != PathInDir(dir, FileName(k + 1))
    {
      PathsDiffer(dir, idx[j] + 1, k + 1);
    }
  }

  /** No two archive entries share a name. */
  lemma EntriesAreDistinct(outs: seq<ItemOutcome>, dir: string)
    ensures var e := Collect(outs, dir).entries;
      forall i, j | 0 <= i < j < |e| :: e[i] != e[j]
  {
    CollectEntries(outs, dir);
    WhereIncreasing(ArchivedFlags(outs));
    NamesFromIncreasing(Collect(outs, dir).entries, Where(ArchivedFlags(outs)));
  }

  /** No two output files share a path. */
  lemma PathsAreDistinct(outs: seq<ItemOutcome>, dir: string)
    ensures var ps := Collect(outs, dir).paths;
      forall i, j | 0 <= i < j < |ps| :: ps[i] != ps[j]
  {
    CollectPaths(outs, dir);
    WhereIncreasing(KeptFlags(outs));
    PathsFromIncreasing(dir, Collect(outs, dir).paths, Where(KeptFlags(outs)));
  }

  /** An item that did not reach the archive has no entry there. */
  lemma NotArchived(outs: seq<ItemOutcome>, dir: string, k: nat)
    requires k < |outs| && !outs[k].Packed?
    ensures FileName(k + 1) !in Collect(outs, dir).entries
  {
    CollectEntries(outs, dir);
    WhereSelected(ArchivedFlags(outs));
    NameAbsent(Collect(outs, dir).entries, Where(ArchivedFlags(outs)), k);
  }

  /** A dropped item has no file in the file list. */
  lemma NotListed(outs: seq<ItemOutcome>, dir: string, k: nat)
    requires k < |outs| && outs[k].Dropped?
    ensures PathInDir(dir, FileName(k + 1)) !in Collect(outs, dir).paths
  {
    CollectPaths(outs, dir);
    WhereSelected(KeptFlags(outs));
    PathAbsent(dir, Collect(outs, dir).paths, Where(KeptFlags(outs)), k);
  }

  /**
   An item that failed before its icon was recorded leaves only its error
   line: its name is in neither the archive nor the file list.
   */
  lemma DroppedLeavesOnlyItsLine(outs: seq<ItemOutcome>, dir: string, k: nat)
    requires k < |outs| && outs[k].Dropped?
    ensures var b := Collect(outs, dir);
      && |b.log| == |outs| && b.log[k] == Failed(k + 1, outs[k].reason)
      && FileName(k + 1) !in b.entries
      && PathInDir(dir, FileName(k + 1)) !in b.paths
  {
    CollectLog(outs, dir);
    NotArchived(outs, dir, k);
    NotListed(outs, dir, k);
  }

  /**
   When `zipf.write` raises for an item, its icon and path stay in the
   outputs (they were appended first), its entry is missing from the archive,
   and its log line reports a failure.
   */
  lemma ArchiveFailureKeepsIcon(outs: seq<ItemOutcome>, dir: string, k: nat)
    requires k < |outs| && outs[k].Listed?
    ensures var b := Collect(outs, dir);
      && |b.log| == |outs| && b.log[k] == Failed(k + 1, outs[k].reason)
      && FileName(k + 1) !in b.entries
      && PathInDir(dir, FileName(k + 1)) in b.paths
      && outs[k].fitted.icon in b.images
  {
    var b, kept := Collect(outs, dir), Where(KeptFlags(outs));
    CollectLog(outs, dir);
    NotArchived(outs, dir, k);
    CollectImages(outs, dir);
    CollectPaths(outs, dir);
    WhereComplete(KeptFlags(outs));
    assert KeptFlags(outs)[k];
    var j :| 0 <= j < |kept| && kept[j] == k;
    assert b.paths[j] == PathInDir(dir, FileName(k + 1));
    assert b.images[j] == outs[k].fitted.icon;
  }

  /** When no archive write raises, images, paths and entries stay in step: one of each per success. */
  lemma InStepWhenArchiveWrites(outs: seq<ItemOutcome>, dir: string)
    requires forall k | 0 <= k < |outs| :: !outs[k].Listed?
    ensures var b := Collect(outs, dir);
      && |b.images| == |b.paths| == |b.entries|
      && forall j | 0 <= j < |b.paths| :: b.paths[j] == PathInDir(dir, b.entries[j])
  {
    assert KeptFlags(outs) == ArchivedFlags(outs);
    CollectImages(outs, dir);
    CollectPaths(outs, dir);
    CollectEntries(outs, dir);
  }

  lemma {:induction false} WhereAllSet(flags: seq<bool>)
    requires forall k | 0 <= k < |flags| :: flags[k]
    ensures |Where(flags)| == |flags|
    ensures forall j | 0 <= j < |flags| :: Where(flags)[j] == j
  {
    if flags != [] {
      WhereAllSet(flags[..|flags| - 1]);
    }
  }

  lemma {:induction false} WhereAllButOne(flags: seq<bool>, k: nat)
    requires k < |flags| && !flags[k]
    requires forall i | 0 <= i < |flags| && i != k :: flags[i]
    ensures |Where(flags)| == |flags| - 1
    ensures forall j | 0 <= j < |flags| - 1 :: Where(flags)[j] == if j < k then j else j + 1
  {
    var n := |flags|;
    if k == n - 1 {
      WhereAllSet(flags[..n - 1]);
    } else {
      WhereAllButOne(flags[..n - 1], k);
    }
  }

  /**
   A batch of N items of which item k fails and every other one is packed
   gives N - 1 icons, paths and archive entries, named after the original
   positions, so the names skip k + 1.
   */
  lemma OneFailureAmongSuccesses(outs: seq<ItemOutcome>, dir: string, k: nat)
    requires k < |outs| && outs[k].Dropped?
    requires forall i | 0 <= i < |outs| && i != k :: outs[i].Packed?
    ensures var b := Collect(outs, dir);
      && |b.images| == |outs| - 1 && |b.paths| == |outs| - 1 && |b.entries| == |outs| - 1
      && forall j | 0 <= j < |outs| - 1 :: b.entries[j] == FileName(if j < k then j + 1 else j + 2)
  {
    WhereAllButOne(KeptFlags(outs), k);
    WhereAllButOne(ArchivedFlags(outs), k);
    CollectImages(outs, dir);
    CollectPaths(outs, dir);
    CollectEntries(outs, dir);
  }

  /** In the same batch the log has one line per item: the error at line k, a success line naming its file everywhere else. */
  lemma OneFailureLog(outs: seq<ItemOutcome>, dir: string, k: nat)
    requires k < |outs| && outs[k].Dropped?
    requires forall i | 0 <= i < |outs| && i != k :: outs[i].Packed?
    ensures var b := Collect(outs, dir);
      && |b.log| == |outs|
      && b.log[k] == Failed(k + 1, outs[k].reason)
      && forall i | 0 <= i < |outs| && i != k :: b.log[i].Processed? && b.log[i].name == FileName(i + 1)
  {
    CollectLog(outs, dir);
  }

  /** Inputs A (fails) and B (succeeds): an error line for index 1, a success line and the only entry `icon_002.png`. */
  lemma FailedFirstDoesNotShiftNames(e: string, original: Image, fitted: Fitted, dir: string)
    ensures var b := Collect([Dropped(e), Packed(original, fitted)], dir);
      && b.entries == ["icon_002.png"]
      && b.log == [Failed(1, e), Processed("icon_002.png", SizeOf(original), SizeOf(fitted.resized))]
  {
    FileNameFormat(2);
    assert FileName(2) == "icon_002.png";
    var outs := [Dropped(e), Packed(original, fitted)];
    assert outs[..1] == [Dropped(e)];
    assert [Dropped(e)][..0] == [];
    assert Collect(outs[..1], dir) == Batch([], [], [], [Failed(1, e)]);
    assert Collect(outs, dir) == Record(Collect(outs[..1], dir), outs[1], 1, dir);
  }

  /** The icon of an item that got past fitting is a `size` square, fully opaque when a colour was chosen. */
  lemma KeptIconIsSquare(u: Upload, size: int, bg: Background)
    requires !Attempt(u, size, bg).Dropped?
    ensures var icon := Attempt(u, size, bg).fitted.icon;
      && icon.width == size && icon.height == size
      && (bg.Solid? ==> AllOpaque(icon))
  {
    var f := FitIcon(u.removed.value, size, bg);
    assert f.Ok? && Attempt(u, size, bg).fitted == f.value;
    if bg.Solid? {
      ColouredIsOpaque(u.removed.value, size, bg.colour);
    }
  }

  /** Every gallery image is a `size` by `size` square, and fully opaque when a colour was chosen. */
  lemma IconsAreSquares(files: seq<Upload>, size: int, bg: Background, dir: string)
    ensures var b := Collect(Outcomes(files, size, bg), dir);
      forall j | 0 <= j < |b.images| ::
        && b.images[j].width == size && b.images[j].height == size
        && (bg.Solid? ==> AllOpaque(b.images[j]))
  {
    var outs := Outcomes(files, size, bg);
    var b, kept := Collect(outs, dir), Where(KeptFlags(outs));
    CollectImages(outs, dir);
    forall j | 0 <= j < |b.images|
      ensures b.images[j].width == size && b.images[j].height == size
      ensures bg.Solid? ==> AllOpaque(b.images[j])
    {
      KeptIconIsSquare(files[kept[j]], size, bg);
    }
  }

  /** Fitting fails for a target size below one, so the item is dropped whatever its foreign calls do. */
  lemma SmallSizeDrops(u: Upload, size: int, bg: Background)
    requires size < 1
    ensures Attempt(u, size, bg).Dropped?
  {
  }

  /** When every item is dropped, only the log grows. */
  lemma NoneKept(outs: seq<ItemOutcome>, dir: string)
    requires forall k | 0 <= k < |outs| :: outs[k].Dropped?
    ensures var b := Collect(outs, dir);
      b.images == [] && b.paths == [] && b.entries == []
  {
    var kept, arch := Where(KeptFlags(outs)), Where(ArchivedFlags(outs));
    CollectImages(outs, dir);
    CollectPaths(outs, dir);
    CollectEntries(outs, dir);
    WhereSelected(KeptFlags(outs));
    WhereSelected(ArchivedFlags(outs));
    if kept != [] {
      assert false;
    }
    if arch != [] {
      assert false;
    }
  }

  /** A target size below one makes every upload fail: nothing is produced and every log line is an error. */
  lemma NonPositiveSizeFailsAll(files: seq<Upload>, size: int, bg: Background, dir: string)
    requires size < 1
    ensures var b := Collect(Outcomes(files, size, bg), dir);
      && b.images == [] && b.paths == [] && b.entries == []
      && |b.log| == |files|
      && forall k | 0 <= k < |files| :: b.log[k].Failed? && b.log[k].index == k + 1
  {
    var outs := Outcomes(files, size, bg);
    forall k | 0 <= k < |files|
      ensures outs[k].Dropped?
    {
      SmallSizeDrops(files[k], size, bg);
    }
    NoneKept(outs, dir);
    CollectLog(outs, dir);
  }
}
