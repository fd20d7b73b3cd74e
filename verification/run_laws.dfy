/**
 * What a whole run of the loop in `main` does: which files it touches,
 * what it reports, what it leaves on disk, and how the processing of one
 * file is independent of the others. Each law is proved for any sequence of
 * per-file plans and then read back for the walked files.
 */
module RunLaws {
  import opened Wrappers
  import opened PosixPath
  import opened Naming
  import opened Chunking
  import opened Storage
  import opened Archiver
  import opened Driver

  /** The walked files the extension filter keeps, in walk order. */
  function Filter(cfg: Config, files: seq<SourceFile>): (kept: seq<SourceFile>)
    ensures |kept| <= |files|
    ensures forall i :: 0 <= i < |kept| ==> Selected(cfg, kept[i])
    decreases |files|
  {
    if files == [] then []
    else if Selected(cfg, files[0]) then [files[0]] + Filter(cfg, files[1..])
    else Filter(cfg, files[1..])
  }

  /** A file the filter accepts is kept. */
  lemma {:induction false} SelectedIsKept(cfg: Config, files: seq<SourceFile>, i: nat)
    requires i < |files| && Selected(cfg, files[i])
    ensures files[i] in Filter(cfg, files)
    decreases i
  {
    if i > 0 {
      SelectedIsKept(cfg, files[1..], i - 1);
      assert files[1..][i - 1] == files[i];
    }
  }

  /**
   * Filtering two walks one after the other is filtering each, in order;
   * with `FilterOne` this makes the kept files exactly the accepted ones,
   * in walk order.
   */
  lemma {:induction false} FilterAppend(cfg: Config, a: seq<SourceFile>, b: seq<SourceFile>)
    ensures Filter(cfg, a + b) == Filter(cfg, a) + Filter(cfg, b)
    decreases |a|
  {
    if a == [] {
      assert a + b == b;
    } else {
      assert (a + b)[0] == a[0] && (a + b)[1..] == a[1..] + b;
      FilterAppend(cfg, a[1..], b);
    }
  }

  /** A single walked file is kept exactly when the filter accepts it. */
  lemma FilterOne(cfg: Config, f: SourceFile)
    ensures Filter(cfg, [f]) == if Selected(cfg, f) then [f] else []
  {
    assert [f][1..] == [];
  }

  /** The plans of handled files, in order. */
  function Handled(plans: seq<Plan>): (h: seq<Plan>)
    ensures |h| <= |plans|
    ensures forall i :: 0 <= i < |h| ==> h[i].Handle?
    decreases |plans|
  {
    if plans == [] then []
    else if plans[0].Handle? then [plans[0]] + Handled(plans[1..])
    else Handled(plans[1..])
  }

  /** The archives the plans write, one file after the other. */
  function WrittenOf(plans: seq<Plan>): seq<Archive>
    decreases |plans|
  {
    if plans == [] then []
    else (if plans[0].Handle? then plans[0].written else []) + WrittenOf(plans[1..])
  }

  /** The destinations of the handled plans with all their ancestors. */
  function DirsOf(plans: seq<Plan>): set<Path>
    decreases |plans|
  {
    if plans == [] then {}
    else (if plans[0].Handle? then Ancestors(plans[0].report.destination) else {}) + DirsOf(plans[1..])
  }

  /** The plans of the kept files are the handled plans of all files. */
  lemma {:induction false} PlansOfFilter(files: seq<SourceFile>, cfg: Config, date: string, blocked: set<Path>)
    ensures Plans(Filter(cfg, files), cfg, date, blocked) == Handled(Plans(files, cfg, date, blocked))
    decreases |files|
  {
    if files != [] {
      PlansOfFilter(files[1..], cfg, date, blocked);
      var plans := Plans(files, cfg, date, blocked);
      assert plans[0] == PlanFor(cfg, date, blocked, files[0]) && plans[1..] == Plans(files[1..], cfg, date, blocked);
      if Selected(cfg, files[0]) {
        var kept := Filter(cfg, files);
        assert kept[0] == files[0] && kept[1..] == Filter(cfg, files[1..]);
      }
    }
  }

  /** The plans of two file sequences one after the other. */
  lemma {:induction false} PlansAppend(a: seq<SourceFile>, b: seq<SourceFile>, cfg: Config, date: string,
                                       blocked: set<Path>)
    ensures Plans(a + b, cfg, date, blocked) == Plans(a, cfg, date, blocked) + Plans(b, cfg, date, blocked)
    decreases |a|
  {
    if a == [] {
      assert a + b == b;
    } else {
      assert (a + b)[0] == a[0] && (a + b)[1..] == a[1..] + b;
      PlansAppend(a[1..], b, cfg, date, blocked);
    }
  }

  /** A run finds a file to handle exactly when some plan handles one. */
  lemma {:induction false} FoundIffHandled(plans: seq<Plan>, disk: Disk, blocked: set<Path>)
    ensures RunPlans(plans, disk, blocked).0.found <==> exists i :: 0 <= i < |plans| && plans[i].Handle?
    decreases |plans|
  {
    if plans != [] && plans[0].Skip? {
      FoundIffHandled(plans[1..], disk, blocked);
      if exists i :: 0 <= i < |plans| && plans[i].Handle? {
        var i :| 0 <= i < |plans| && plans[i].Handle?;
        assert plans[1..][i - 1].Handle?;
      }
      if exists i :: 0 <= i < |plans[1..]| && plans[1..][i].Handle? {
        var i :| 0 <= i < |plans[1..]| && plans[1..][i].Handle?;
        assert plans[i + 1].Handle?;
      }
    }
  }

  /**
   * `found_allowed_extension` ends up true exactly when some walked file
   * passes the extension filter, whether or not the run then crashes.
   */
  lemma FoundIffSelected(files: seq<SourceFile>, cfg: Config, date: string, disk: Disk, blocked: set<Path>)
    ensures RunFiles(files, cfg, date, disk, blocked).0.found
        <==> exists i :: 0 <= i < |files| && Selected(cfg, files[i])
  {
    var plans := Plans(files, cfg, date, blocked);
    FoundIffHandled(plans, disk, blocked);
    forall i | 0 <= i < |files| ensures plans[i].Handle? <==> Selected(cfg, files[i]) {
      PlanAt(files, cfg, date, blocked, i);
    }
  }

  /**
   * "No files with the allowed extensions were found." is printed exactly
   * when no walked file passes the filter.
   */
  lemma NoMatchesIffNoneSelected(files: seq<SourceFile>, cfg: Config, date: string, disk: Disk,
                                 blocked: set<Path>)
    ensures ReportsNoMatches(RunFiles(files, cfg, date, disk, blocked).0)
        <==> forall i :: 0 <= i < |files| ==> !Selected(cfg, files[i])
  {
    FoundIffSelected(files, cfg, date, disk, blocked);
  }

  /** Plans that handle nothing leave the run unchanged. */
  lemma {:induction false} RunSkipsUnhandled(plans: seq<Plan>, disk: Disk, blocked: set<Path>)
    ensures RunPlans(plans, disk, blocked) == RunPlans(Handled(plans), disk, blocked)
    decreases |plans|
  {
    if plans != [] {
      if plans[0].Skip? {
        RunSkipsUnhandled(plans[1..], disk, blocked);
      } else {
        var h := Handled(plans);
        assert h[0] == plans[0] && h[1..] == Handled(plans[1..]);
        match CreateDirs(disk.dirs, blocked, plans[0].report.destination)
        case None =>
        case Some(dirs) =>
          RunSkipsUnhandled(plans[1..], Disk(dirs, disk.archives + plans[0].written), blocked);
      }
    }
  }

  /**
   * A file the filter rejects is not touched at all: no folder is created
   * for it and nothing is written for it, so the run is the run over the
   * kept files alone.
   */
  lemma RunIgnoresRejected(files: seq<SourceFile>, cfg: Config, date: string, disk: Disk, blocked: set<Path>)
    ensures RunFiles(files, cfg, date, disk, blocked) == RunFiles(Filter(cfg, files), cfg, date, disk, blocked)
  {
    RunSkipsUnhandled(Plans(files, cfg, date, blocked), disk, blocked);
    PlansOfFilter(files, cfg, date, blocked);
  }

  /**
   * The reports of a run are those of the handled plans, in order: all of
   * them unless the run crashed, and then those before the crashing one.
   */
  lemma {:induction false} ReportsArePlanned(plans: seq<Plan>, disk: Disk, blocked: set<Path>)
    ensures var r := RunPlans(plans, disk, blocked).0;
      var h := Handled(plans);
      && |r.reports| <= |h|
      && (!r.crashed <==> |r.reports| == |h|)
      && forall i :: 0 <= i < |r.reports| ==> r.reports[i] == h[i].report
    decreases |plans|
  {
    if plans != [] {
      if plans[0].Skip? {
        ReportsArePlanned(plans[1..], disk, blocked);
      } else {
        var h := Handled(plans);
        assert h[0] == plans[0] && h[1..] == Handled(plans[1..]);
        match CreateDirs(disk.dirs, blocked, plans[0].report.destination)
        case None =>
        case Some(dirs) =>
          var disk' := Disk(dirs, disk.archives + plans[0].written);
          ReportsArePlanned(plans[1..], disk', blocked);
          var r := RunPlans(plans, disk, blocked).0;
          var rest := RunPlans(plans[1..], disk', blocked).0;
          forall i | 1 <= i < |r.reports| ensures r.reports[i] == h[i].report {
            assert r.reports[i] == rest.reports[i - 1] && h[i] == h[1..][i - 1];
          }
      }
    }
  }

  /**
   * The reports follow the kept files in walk order, each with that file's
   * destination and a status that depends on that file alone (an error in
   * an earlier file does not change it). Every kept file is reported unless
   * the run crashed, and then only the files before the crashing one are.
   */
  lemma ReportsFollowFilter(files: seq<SourceFile>, cfg: Config, date: string, disk: Disk, blocked: set<Path>)
    ensures var r := RunFiles(files, cfg, date, disk, blocked).0;
      var kept := Filter(cfg, files);
      && |r.reports| <= |kept|
      && (!r.crashed <==> |r.reports| == |kept|)
      && forall i :: 0 <= i < |r.reports| ==>
           var dest := DestinationFor(cfg, date, kept[i]);
           r.reports[i] == FileReport(kept[i], dest, ProcessFile(cfg, kept[i], dest, blocked).0)
  {
    var plans := Plans(files, cfg, date, blocked);
    ReportsArePlanned(plans, disk, blocked);
    PlansOfFilter(files, cfg, date, blocked);
    var kept := Filter(cfg, files);
    forall i | 0 <= i < |kept| ensures Plans(kept, cfg, date, blocked)[i] == PlanFor(cfg, date, blocked, kept[i]) {
      PlanAt(kept, cfg, date, blocked, i);
    }
  }

  /**
   * The archives a run leaves on disk: those already there, then the
   * archives of the handled plans that ran, in order.
   */
  lemma {:induction false} ArchivesAfterPlans(plans: seq<Plan>, disk: Disk, blocked: set<Path>)
    ensures var r := RunPlans(plans, disk, blocked);
      && |r.0.reports| <= |Handled(plans)|
      && r.1.archives == disk.archives + WrittenOf(Handled(plans)[..|r.0.reports|])
    decreases |plans|
  {
    ReportsArePlanned(plans, disk, blocked);
    if plans != [] {
      if plans[0].Skip? {
        ArchivesAfterPlans(plans[1..], disk, blocked);
      } else {
        var p := plans[0];
        var h := Handled(plans);
        assert h[0] == p && h[1..] == Handled(plans[1..]);
        match CreateDirs(disk.dirs, blocked, p.report.destination)
        case None =>
          assert h[..0] == [];
        case Some(dirs) =>
          var disk' := Disk(dirs, disk.archives + p.written);
          ArchivesAfterPlans(plans[1..], disk', blocked);
          var tail := Handled(plans[1..])[..|RunPlans(plans[1..], disk', blocked).0.reports|];
          assert h[..|tail| + 1] == [p] + tail;
          assert ([p] + tail)[0] == p && ([p] + tail)[1..] == tail;
          assert disk.archives + p.written + WrittenOf(tail) == disk.archives + (p.written + WrittenOf(tail));
      }
    }
  }

  /**
   * The directories after a run: those already there, with the destinations
   * of the handled plans that ran and all their ancestors added.
   */
  lemma {:induction false} DirsAfterPlans(plans: seq<Plan>, disk: Disk, blocked: set<Path>)
    ensures var r := RunPlans(plans, disk, blocked);
      && |r.0.reports| <= |Handled(plans)|
      && r.1.dirs == disk.dirs + DirsOf(Handled(plans)[..|r.0.reports|])
    decreases |plans|
  {
    ReportsArePlanned(plans, disk, blocked);
    if plans != [] {
      if plans[0].Skip? {
        DirsAfterPlans(plans[1..], disk, blocked);
      } else {
        var p := plans[0];
        var h := Handled(plans);
        assert h[0] == p && h[1..] == Handled(plans[1..]);
        match CreateDirs(disk.dirs, blocked, p.report.destination)
        case None =>
          assert h[..0] == [];
        case Some(dirs) =>
          var disk' := Disk(dirs, disk.archives + p.written);
          DirsAfterPlans(plans[1..], disk', blocked);
          var tail := Handled(plans[1..])[..|RunPlans(plans[1..], disk', blocked).0.reports|];
          assert h[..|tail| + 1] == [p] + tail;
          assert ([p] + tail)[0] == p && ([p] + tail)[1..] == tail;
          assert dirs == disk.dirs + Ancestors(p.report.destination);
      }
    }
  }

  /**
   * What a run over the walked files leaves on disk: the archives of the
   * first `n` kept files appended in order, and their destinations with all
   * ancestors added, where `n` is the number of reports.
   */
  lemma DiskAfterRun(files: seq<SourceFile>, cfg: Config, date: string, disk: Disk, blocked: set<Path>)
    ensures var r := RunFiles(files, cfg, date, disk, blocked);
      var kept := Plans(Filter(cfg, files), cfg, date, blocked);
      && |r.0.reports| <= |kept|
      && r.1.archives == disk.archives + WrittenOf(kept[..|r.0.reports|])
      && r.1.dirs == disk.dirs + DirsOf(kept[..|r.0.reports|])
  {
    ArchivesAfterPlans(Plans(files, cfg, date, blocked), disk, blocked);
    DirsAfterPlans(Plans(files, cfg, date, blocked), disk, blocked);
    PlansOfFilter(files, cfg, date, blocked);
  }

  /** A handled plan put in front of both a composed run and its first half. */
  lemma ComposeCons(report: FileReport, ra: (RunResult, Disk), rb: (RunResult, Disk), both: (RunResult, Disk))
    requires both == if ra.0.crashed then ra
                     else (RunResult(ra.0.found || rb.0.found, rb.0.crashed, ra.0.reports + rb.0.reports), rb.1)
    ensures var ra' := (RunResult(true, ra.0.crashed, [report] + ra.0.reports), ra.1);
      (RunResult(true, both.0.crashed, [report] + both.0.reports), both.1)
        == if ra'.0.crashed then ra'
           else (RunResult(true, rb.0.crashed, ra'.0.reports + rb.0.reports), rb.1)
  {
    assert [report] + (ra.0.reports + rb.0.reports) == ([report] + ra.0.reports) + rb.0.reports;
  }

  /**
   * Running over `a + b` is running over `a`, then, unless that crashed,
   * over `b` from the state `a` left: the result combines the two runs.
   */
  lemma {:induction false} RunPlansCompose(a: seq<Plan>, b: seq<Plan>, disk: Disk, blocked: set<Path>)
    ensures var ra := RunPlans(a, disk, blocked);
      var rb := RunPlans(b, ra.1, blocked);
      RunPlans(a + b, disk, blocked)
        == if ra.0.crashed then ra
           else (RunResult(ra.0.found || rb.0.found, rb.0.crashed, ra.0.reports + rb.0.reports), rb.1)
    decreases |a|
  {
    if a == [] {
      assert a + b == b;
      assert [] + RunPlans(b, disk, blocked).0.reports == RunPlans(b, disk, blocked).0.reports;
    } else {
      assert (a + b)[0] == a[0] && (a + b)[1..] == a[1..] + b;
      if a[0].Skip? {
        RunPlansCompose(a[1..], b, disk, blocked);
      } else {
        match CreateDirs(disk.dirs, blocked, a[0].report.destination)
        case None =>
        case Some(dirs) =>
          var disk' := Disk(dirs, disk.archives + a[0].written);
          RunPlansCompose(a[1..], b, disk', blocked);
          var ra' := RunPlans(a[1..], disk', blocked);
          ComposeCons(a[0].report, ra', RunPlans(b, ra'.1, blocked), RunPlans(a[1..] + b, disk', blocked));
      }
    }
  }

  /**
   * The walked files split anywhere: the run over all of them is the run
   * over the first part, then, unless that crashed, the run over the rest
   * from the state the first part left.
   */
  lemma RunComposes(a: seq<SourceFile>, b: seq<SourceFile>, cfg: Config, date: string, disk: Disk,
                    blocked: set<Path>)
    ensures var ra := RunFiles(a, cfg, date, disk, blocked);
      var rb := RunFiles(b, cfg, date, ra.1, blocked);
      RunFiles(a + b, cfg, date, disk, blocked)
        == if ra.0.crashed then ra
           else (RunResult(ra.0.found || rb.0.found, rb.0.crashed, ra.0.reports + rb.0.reports), rb.1)
  {
    PlansAppend(a, b, cfg, date, blocked);
    RunPlansCompose(Plans(a, cfg, date, blocked), Plans(b, cfg, date, blocked), disk, blocked);
  }

  /**
   * The `try` block for one file: it completes exactly when the file opens
   * and every part can be written. Then it wrote one part per `chunk_size`
   * bytes (rounded up), and the entries concatenate to the file; a
   * `chunk_size` of -1 reads the file in one piece, and a zero `chunk_size`
   * reads nothing, so the file completes with no part at all. A size `read`
   * rejects fails the file before any part. Otherwise the parts written
   * before the error stay, holding a proper prefix of the file, and a file
   * that cannot be opened gets none.
   */
  lemma ProcessFileLaws(cfg: Config, f: SourceFile, dest: Path, blocked: set<Path>)
    ensures var (status, written) := ProcessFile(cfg, f, dest, blocked);
      && (status.Completed? <==>
            f.content.Some? && !ReadRejects(cfg.chunkSize)
            && AllWritable(ExpectedArchives(dest, EffectiveNameFor(cfg, f), f.content.value, cfg.chunkSize), blocked))
      && (status.Completed? ==>
            && |written| == status.parts
            && (cfg.chunkSize > 0 ==> status.parts == (|f.content.value| + cfg.chunkSize - 1) / cfg.chunkSize)
            && (cfg.chunkSize == -1 ==> status.parts == if f.content.value == [] then 0 else 1)
            && (cfg.chunkSize == 0 ==> status.parts == 0)
            && (cfg.chunkSize != 0 ==> Contents(written) == f.content.value))
      && (ReadRejects(cfg.chunkSize) ==> status == Failed(0) && written == [])
      && (status.Failed? ==>
            && |written| == status.partsWritten
            && (f.content.None? ==> written == [])
            && (f.content.Some? && !ReadRejects(cfg.chunkSize) ==> Contents(written) < f.content.value))
  {
    match f.content
    case None =>
    case Some(data) =>
      var effective := EffectiveNameFor(cfg, f);
      CompressStatus(dest, effective, data, cfg.chunkSize, blocked);
      var done := Compress(dest, effective, data, cfg.chunkSize, blocked);
      if done.0.Completed? {
        CompressCompleted(dest, effective, data, cfg.chunkSize, blocked);
      } else if !ReadRejects(cfg.chunkSize) {
        CompressFailed(dest, effective, data, cfg.chunkSize, blocked);
      }
  }

  /**
   * For a walked file name (no `/`), the destination folder is named after
   * the file name without its extension.
   */
  lemma DestinationOfWalkedFile(cfg: Config, date: string, f: SourceFile)
    requires '/' !in f.name
    ensures DestinationFor(cfg, date, f)
         == Destination(cfg.destinationDir, FolderComponent(cfg.folderName, SplitExt(f.name).0), date)
  {
    BasenameOfJoin(f.root, f.name);
    assert Basename(Join(f.root, f.name)) == f.name;
  }

  /**
   * For a walked file name (no `/`), parts are named after the name WITH
   * its extension unless a prefix is configured: `report.csv` gives
   * `report.csv_part_1.zip`.
   */
  lemma EffectiveNameOfWalkedFile(cfg: Config, f: SourceFile)
    requires '/' !in f.name
    ensures EffectiveNameFor(cfg, f) == if cfg.filenamePrefix != [] then cfg.filenamePrefix else f.name
  {
    var base := Basename(Join(f.root, f.name));
    BasenameOfJoin(f.root, f.name);
    EffectiveNameOfBase(cfg.filenamePrefix, base);
  }

  /**
   * The effective name for a configured prefix and a base name, stated over
   * plain strings; kept apart from `EffectiveNameOfWalkedFile` so that the
   * solver does not meet the path functions while unfolding it.
   */
  lemma EffectiveNameOfBase(prefix: string, base: string)
    ensures EffectiveName(Some(prefix), base) == if prefix != [] then prefix else base
  {
  }
}
