/**
 * The per-file loop of `main`: for every file the directory walk yields,
 * apply the extension filter, derive the destination folder, create it,
 * and chunk the file into it, catching any error of the chunking so that
 * later files are still processed.
 */
module Driver {
  import opened Wrappers
  import opened PosixPath
  import opened Naming
  import opened Chunking
  import opened Storage
  import opened Archiver

  /** The configuration values `main` reads, after defaults are applied. */
  datatype Config = Config(
    allowedExtensions: seq<string>,
    chunkSize: int,
    filenamePrefix: string,
    folderName: string,
    useCurrentDateAsFolder: bool,
    destinationDir: Path)

  /**
   * A file found by the directory walk: the directory it was found in, its
   * name, and its content, `None` when opening it fails.
   */
  datatype SourceFile = SourceFile(root: Path, name: string, content: Option<seq<Byte>>)

  /** One processed file: where its parts went and how its processing ended. */
  datatype FileReport = FileReport(file: SourceFile, destination: Path, status: FileStatus)

  /**
   * What a run shows: `found` is `found_allowed_extension`; `crashed` says
   * an exception escaped `main` (a destination that could not be created,
   * since `os.makedirs` is outside the `try`); `reports` has one entry per
   * file processed, in order.
   */
  datatype RunResult = RunResult(found: bool, crashed: bool, reports: seq<FileReport>)

  /** The `current_date` string: today's `YYYY-MM-DD` when the option is on, else empty. */
  function DateSegment(useDate: bool, today: string): string {
    if useDate then today else ""
  }

  /** The extension filter applied to one file. */
  predicate Selected(cfg: Config, f: SourceFile) {
    ExtensionAllowed(f.name, cfg.allowedExtensions)
  }

  /** The destination folder of a file: the folder component from its base name without extension. */
  function DestinationFor(cfg: Config, date: string, f: SourceFile): Path {
    var baseNoExt := SplitExt(Basename(Join(f.root, f.name))).0;
    Destination(cfg.destinationDir, FolderComponent(cfg.folderName, baseNoExt), date)
  }

  /** The name the parts of a file are called after: the prefix, else the full base name. */
  function EffectiveNameFor(cfg: Config, f: SourceFile): string {
    EffectiveName(Some(cfg.filenamePrefix), Basename(Join(f.root, f.name)))
  }

  /**
   * The `try` block for one file: opening it (an error ends it with nothing
   * written) and chunking it into `dest`.
   */
  function ProcessFile(cfg: Config, f: SourceFile, dest: Path, blocked: set<Path>): (FileStatus, seq<Archive>) {
    match f.content
    case None => (Failed(0), [])
    case Some(data) => Compress(dest, EffectiveNameFor(cfg, f), data, cfg.chunkSize, blocked)
  }

  /**
   * What the loop body does with one walked file, as far as it depends on
   * that file alone: nothing for a file the filter rejects; otherwise the
   * report of its destination and `try` block, and the archives that block
   * writes. Neither depends on earlier files: only on the file, the
   * configuration and the paths that cannot be created.
   */
  datatype Plan = Skip | Handle(report: FileReport, written: seq<Archive>)

  function PlanFor(cfg: Config, date: string, blocked: set<Path>, f: SourceFile): Plan {
    if !Selected(cfg, f) then Skip
    else
      var dest := DestinationFor(cfg, date, f);
      var done := ProcessFile(cfg, f, dest, blocked);
      Handle(FileReport(f, dest, done.0), done.1)
  }

  /** The plan of every walked file, in walk order. */
  function Plans(files: seq<SourceFile>, cfg: Config, date: string, blocked: set<Path>): (plans: seq<Plan>)
    ensures |plans| == |files|
    decreases |files|
  {
    if files == [] then [] else [PlanFor(cfg, date, blocked, files[0])] + Plans(files[1..], cfg, date, blocked)
  }

  /** The plan at position `i` is the plan of file `i`. */
  lemma {:induction false} PlanAt(files: seq<SourceFile>, cfg: Config, date: string, blocked: set<Path>, i: nat)
    requires i < |files|
    ensures Plans(files, cfg, date, blocked)[i] == PlanFor(cfg, date, blocked, files[i])
    decreases i
  {
    if i > 0 {
      PlanAt(files[1..], cfg, date, blocked, i - 1);
      assert files[1..][i - 1] == files[i];
    }
  }

  /**
   * The loop over the files' plans from the filesystem state `disk`: a
   * handled file first has its destination created, which ends the whole
   * run when it fails (the exception is not caught), and otherwise has its
   * archives written before the loop goes on.
   */
  function RunPlans(plans: seq<Plan>, disk: Disk, blocked: set<Path>): (r: (RunResult, Disk))
    ensures r.0.crashed ==> r.0.found
    ensures |r.0.reports| <= |plans|
    decreases |plans|
  {
    if plans == [] then (RunResult(false, false, []), disk)
    else
      match plans[0]
      case Skip => RunPlans(plans[1..], disk, blocked)
      case Handle(report, written) =>
        match CreateDirs(disk.dirs, blocked, report.destination)
        case None => (RunResult(true, true, []), disk)
        case Some(dirs) =>
          var rest := RunPlans(plans[1..], Disk(dirs, disk.archives + written), blocked);
          (RunResult(true, rest.0.crashed, [report] + rest.0.reports), rest.1)
  }

  /** The run over `files` from the filesystem state `disk`: its result and the final state. */
  function RunFiles(files: seq<SourceFile>, cfg: Config, date: string, disk: Disk, blocked: set<Path>)
    : (RunResult, Disk)
  {
    RunPlans(Plans(files, cfg, date, blocked), disk, blocked)
  }

  /** Whether "No files with the allowed extensions were found." is printed. */
  predicate ReportsNoMatches(r: RunResult) {
    !r.crashed && !r.found
  }

  /**
   * The loop state of `Run` after the plans before `i`: the run over the
   * remaining plans from `disk`, put after what was already found and
   * reported, is the whole run.
   */
  ghost predicate Tracks(whole: (RunResult, Disk), plans: seq<Plan>, i: nat, disk: Disk, blocked: set<Path>,
                         found: bool, reports: seq<FileReport>)
    requires i <= |plans|
  {
    var rest := RunPlans(plans[i..], disk, blocked);
    whole == (RunResult(found || rest.0.found, rest.0.crashed, reports + rest.0.reports), rest.1)
  }

  lemma TrackStart(plans: seq<Plan>, disk: Disk, blocked: set<Path>)
    ensures Tracks(RunPlans(plans, disk, blocked), plans, 0, disk, blocked, false, [])
  {
    var whole := RunPlans(plans, disk, blocked);
    assert plans[0..] == plans;
    assert [] + whole.0.reports == whole.0.reports;
  }

  lemma TrackSkip(whole: (RunResult, Disk), plans: seq<Plan>, i: nat, disk: Disk, blocked: set<Path>,
                  found: bool, reports: seq<FileReport>)
    requires i < |plans| && plans[i] == Skip
    requires Tracks(whole, plans, i, disk, blocked, found, reports)
    ensures Tracks(whole, plans, i + 1, disk, blocked, found, reports)
  {
    assert plans[i..][0] == plans[i] && plans[i..][1..] == plans[i + 1..];
  }

  lemma TrackCrash(whole: (RunResult, Disk), plans: seq<Plan>, i: nat, disk: Disk, blocked: set<Path>,
                   found: bool, reports: seq<FileReport>)
    requires i < |plans| && plans[i].Handle?
    requires CreateDirs(disk.dirs, blocked, plans[i].report.destination).None?
    requires Tracks(whole, plans, i, disk, blocked, found, reports)
    ensures whole == (RunResult(true, true, reports), disk)
  {
    assert plans[i..][0] == plans[i];
    assert reports + [] == reports;
  }

  lemma TrackProcess(whole: (RunResult, Disk), plans: seq<Plan>, i: nat, disk: Disk, blocked: set<Path>,
                     found: bool, reports: seq<FileReport>, dirs: set<Path>)
    requires i < |plans| && plans[i].Handle?
    requires CreateDirs(disk.dirs, blocked, plans[i].report.destination) == Some(dirs)
    requires Tracks(whole, plans, i, disk, blocked, found, reports)
    ensures Tracks(whole, plans, i + 1, Disk(dirs, disk.archives + plans[i].written), blocked, true,
                   reports + [plans[i].report])
  {
    assert plans[i..][0] == plans[i] && plans[i..][1..] == plans[i + 1..];
    var rest := RunPlans(plans[i + 1..], Disk(dirs, disk.archives + plans[i].written), blocked);
    assert reports + ([plans[i].report] + rest.0.reports) == (reports + [plans[i].report]) + rest.0.reports;
  }

  lemma TrackEnd(whole: (RunResult, Disk), plans: seq<Plan>, disk: Disk, blocked: set<Path>,
                 found: bool, reports: seq<FileReport>)
    requires Tracks(whole, plans, |plans|, disk, blocked, found, reports)
    ensures whole == (RunResult(found, false, reports), disk)
  {
    assert plans[|plans|..] == [] && reports + [] == reports;
  }

  /**
   * The `try` block of `main` for one file: open it and chunk it into
   * `dest`; an error while opening or chunking ends this file only.
   */
  method ProcessOneFile(f: SourceFile, cfg: Config, dest: Path, fs: FileSystem) returns (status: FileStatus)
    modifies fs`archives
    ensures status == ProcessFile(cfg, f, dest, fs.blocked).0
    ensures fs.archives == old(fs.archives) + ProcessFile(cfg, f, dest, fs.blocked).1
  {
    var baseFilename := Basename(Join(f.root, f.name));
    match f.content {
      case None =>
        status := Failed(0);
      case Some(data) =>
        var stream := new ByteStream(data);
        assert stream.Remaining() == data;
        status := CompressChunks(stream, cfg.chunkSize, dest, baseFilename, Some(cfg.filenamePrefix), fs);
    }
  }

  /**
   * One file the filter accepts: derive its destination, create it (a
   * failure here is not caught), then run the `try` block on the file.
   */
  method HandleSelected(f: SourceFile, cfg: Config, currentDate: string, fs: FileSystem)
    returns (created: bool, report: FileReport)
    modifies fs`dirs, fs`archives
    ensures var dest := DestinationFor(cfg, currentDate, f);
      var made := CreateDirs(old(fs.dirs), fs.blocked, dest);
      && created == made.Some?
      && (!created ==> fs.State() == old(fs.State()))
      && (created ==>
            var done := ProcessFile(cfg, f, dest, fs.blocked);
            report == FileReport(f, dest, done.0)
            && fs.State() == Disk(made.value, old(fs.archives) + done.1))
  {
    var filePath := Join(f.root, f.name);
    var baseNoExt := SplitExt(Basename(filePath)).0;
    var folder := FolderComponent(cfg.folderName, baseNoExt);
    var dest := Destination(cfg.destinationDir, folder, currentDate);
    created := fs.MakeDirs(dest);
    if !created {
      return created, FileReport(f, dest, Failed(0));
    }
    var status := ProcessOneFile(f, cfg, dest, fs);
    report := FileReport(f, dest, status);
  }

  /**
   * The loop of `main` over the walked files. It ends with the result and
   * the filesystem state `RunFiles` describes.
   */
  method Run(files: seq<SourceFile>, cfg: Config, today: string, fs: FileSystem) returns (result: RunResult)
    modifies fs`dirs, fs`archives
    ensures (result, fs.State())
         == RunFiles(files, cfg, DateSegment(cfg.useCurrentDateAsFolder, today), old(fs.State()), fs.blocked)
  {
    var currentDate := DateSegment(cfg.useCurrentDateAsFolder, today);
    ghost var plans := Plans(files, cfg, currentDate, fs.blocked);
    ghost var whole := RunPlans(plans, fs.State(), fs.blocked);
    TrackStart(plans, fs.State(), fs.blocked);
    var found := false;
    var reports: seq<FileReport> := [];
    var i := 0;
    while i < |files|
      invariant 0 <= i <= |files|
      invariant Tracks(whole, plans, i, fs.State(), fs.blocked, found, reports)
    {
      var f := files[i];
      PlanAt(files, cfg, currentDate, fs.blocked, i);
      if !ExtensionAllowed(f.name, cfg.allowedExtensions) {
        TrackSkip(whole, plans, i, fs.State(), fs.blocked, found, reports);
        i := i + 1;
        continue;
      }
      ghost var before := fs.State();
      ghost var foundBefore := found;
      found := true;
      var created, report := HandleSelected(f, cfg, currentDate, fs);
      if !created {
        TrackCrash(whole, plans, i, before, fs.blocked, foundBefore, reports);
        return RunResult(found, true, reports);
      }
      TrackProcess(whole, plans, i, before, fs.blocked, foundBefore, reports, fs.dirs);
      reports := reports + [report];
      i := i + 1;
    }
    TrackEnd(whole, plans, fs.State(), fs.blocked, found, reports);
    result := RunResult(found, false, reports);
  }
}
