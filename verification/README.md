# split_and_zip in Dafny

A model of the backup script `split_and_zip.py`. For every file that a walk
of the source directory yields, the script does four things:
- applies the extension filter;
- derives a destination folder, made of the destination root, a folder
  component and an optional `YYYY-MM-DD` segment, and creates it;
- reads the file `chunk_size` bytes at a time;
- writes every non-empty piece as its own single-entry archive
  `{effective}_part_{k}.zip`, whose entry is `{effective}_part_{k}`.

The model is split by concern:

| file | module | contents |
|---|---|---|
| `wrappers.dfy` | `Wrappers` | `Option` |
| `posix_path.dfy` | `PosixPath` | `os.path.join`, `basename`, `splitext` (posix rules, including leading dots) and the ancestors `os.makedirs` creates |
| `naming.dfy` | `Naming` | decimal rendering of part numbers, part and archive names, effective name, folder component, destination and the extension filter |
| `chunking.dfy` | `Chunking` | what `read(n)` returns and the chunks a stream splits into; their laws |
| `storage.dfy` | `Storage` | `Archive` and `Disk` values, `makedirs` as a function, and two classes changed in place: `ByteStream` (the open file, its read position advanced by `Read`) and `FileSystem` (directories and written archives) |
| `archiver.dfy` | `Archiver` | `process_and_compress_chunk` as the loop method `CompressChunks`, proved against `ExpectedArchives` / `WrittenBefore` |
| `driver.dfy` | `Driver` | the loop of `main` as the method `Run`, proved against the function `RunFiles` |
| `run_laws.dfy` | `RunLaws` | properties of `RunFiles`: filter, `found` flag, reports, disk state, composition over several files, per-file outcome |

How the model is set up:

- **Errors.** A path that cannot be created, as a directory or as an
  archive, is a member of the set `blocked`. A permission error or a
  file in the way are such cases.
- **Per-file outcome.** The outcome of one file depends only on that file,
  the configuration and `blocked`. `Driver.PlanFor` computes it. Running
  the plans in order, and letting each create its folder and append its
  archives, gives the whole run (`Driver.RunPlans`).
- **Status.** The status of a file is `Completed(parts)` or
  `Failed(partsWritten)`. A file that cannot be opened is `Failed(0)`. A
  write that fails stops the file's processing. The parts already written
  stay on disk, and the next file is processed.
- **Chunk size.** `chunk_size` is an integer, as in the script, where
  nothing checks it. The file is opened with `open(path, 'rb')`, and the
  buffered reader's `read(n)` decides what happens:
  - A positive size gives chunks of that many bytes; the last one may be
    short.
  - A size of -1 makes `read` return the rest of the file, so a non-empty
    file becomes one part.
  - A zero size makes `read` return `b''`, so no part is written and the
    file still counts as completed.
  - A size below -1 raises `ValueError`, and one above the largest
    `Py_ssize_t` (2^63 - 1 on a 64-bit platform) raises `OverflowError`.
    Either way the first read raises, the `try` catches it, and the file
    fails with no part written.

Two behaviours of the script are easy to misread, and the model follows the
code:

- The effective name (line 67) is the base name WITH its extension when no
  prefix is set. So `report.csv` gives `report.csv_part_1.zip`, not
  `report_part_1.zip`. The folder component (line 61) does drop the
  extension.
- `os.makedirs` (line 66) is outside the `try`. A destination that cannot
  be created therefore ends the whole run with an uncaught exception
  (`crashed`), not only that file. Files before it keep their archives.
  By then `found_allowed_extension` is already set, but nothing more is
  printed.

## Model

| member | source | states |
|---|---|---|
| PosixPath.Join | split_and_zip.py:15 | `os.path.join`: an absolute second part replaces the first; otherwise the two are joined with one `/` unless the first is empty or already ends in `/` (also used at lines 60 and 64) |
| PosixPath.Basename | split_and_zip.py:61 | the base name has no `/`, is a suffix of the path, and is preceded by a `/` unless it is the whole path |
| PosixPath.SplitExt | split_and_zip.py:54 | root and extension concatenate back to the name; the extension is empty, or a dot followed by neither `/` nor `.`; it is non-empty exactly when the last path component has a dot preceded by some non-dot character of that component |
| PosixPath.Ancestors | split_and_zip.py:66 | the directories `makedirs` creates include the path itself, and every one is a non-empty prefix of it |
| PosixPath.AncestorsExact | split_and_zip.py:66 | the directories `makedirs` creates are exactly the path and each of its non-empty prefixes that ends right before a `/` |
| PosixPath.AncestorsClosed | split_and_zip.py:66 | every ancestor of a created directory is created too: the set is closed under taking ancestors |
| PosixPath.BasenameOfJoin | split_and_zip.py:60-61 | the base name of `join(root, file)` is `file` for any walked file name |
| PosixPath.JoinInjective | split_and_zip.py:15 | joining one folder with two relative names gives the same path only when the names are equal |
| Naming.NatToString | split_and_zip.py:15 | `str(k)` for a part number: its decimal digits, most significant first |
| Naming.PartStem | split_and_zip.py:17 | the entry name `{effective}_part_{k}` |
| Naming.ArchiveFileName | split_and_zip.py:15 | the archive file name `{effective}_part_{k}.zip` |
| Naming.EffectiveName | split_and_zip.py:13 | the prefix when it is given and non-empty, else the base file name |
| Naming.FolderComponent | split_and_zip.py:63 | the configured folder name when non-empty, else the base name without extension |
| Naming.Destination | split_and_zip.py:64 | `join(root, folder, date)` when the date is non-empty, else `join(root, folder)` |
| Naming.ExtensionAllowed | split_and_zip.py:54-55 | a file passes when the allow-list is empty or holds its exact `splitext` extension |
| Naming.NatToStringDigits | split_and_zip.py:15 | the rendering of a part number is a non-empty digit string with no leading zero unless the number is 0 |
| Naming.DecimalRoundTrip | split_and_zip.py:15 | reading back the digits written for a part number gives that number |
| Naming.NatToStringInjective | split_and_zip.py:15 | two part numbers render the same exactly when they are equal |
| Naming.PartStemInjective | split_and_zip.py:17 | entry names `{effective}_part_{k}` are equal exactly when the part numbers are |
| Naming.ArchiveFileNameInjective | split_and_zip.py:15 | archive names `{effective}_part_{k}.zip` are equal exactly when the part numbers are |
| Naming.ArchiveNameSplitsToEntry | split_and_zip.py:15-17 | for any effective name, the entry name is the archive file name with `.zip` split off as its extension |
| Naming.DestinationLaw | split_and_zip.py:63-64 | for plain segments the destination is `root/folder`, or `root/folder/date` exactly when the date is non-empty |
| Chunking.ReadRejects | split_and_zip.py:9 | `read(n)` raises for `n` below -1 (`ValueError`) or above the largest `Py_ssize_t` (`OverflowError`) |
| Chunking.Chunks | split_and_zip.py:8-11 | the successive non-empty results of `read(size)` for a positive size: `size` bytes each, or what is left |
| Chunking.ReadChunks | split_and_zip.py:8-11 | the non-empty pieces the loop reads for any integer size: the chunks for a positive size, the whole file for -1, nothing for 0 or a size `read` rejects |
| Chunking.ReadLen | split_and_zip.py:9 | a `read(n)` that does not raise returns `n` bytes when that many are left, otherwise all that remain, and all that remain for `n == -1` |
| Chunking.ChunksRoundTrip | split_and_zip.py:8-11 | concatenating the chunks of a positive size gives back the whole stream |
| Chunking.ReadChunksRoundTrip | split_and_zip.py:8-11 | for any non-zero size `read` accepts, the pieces read until `read` returns nothing concatenate to the file; size 0, or a size `read` rejects, reads no piece |
| Chunking.ReadChunksNonEmpty | split_and_zip.py:9-11 | no piece the loop handles is empty, since an empty read ends the loop |
| Chunking.ChunkCount | split_and_zip.py:8-11 | a stream of length L gives ceil(L / size) chunks, 0 for an empty stream |
| Chunking.ChunksBounded | split_and_zip.py:9 | every chunk has between 1 and `size` bytes |
| Chunking.ChunksFull | split_and_zip.py:9 | every chunk but the last has exactly `size` bytes |
| Chunking.LastChunk | split_and_zip.py:9-11 | the last chunk holds L mod size bytes, or `size` when that is 0 |
| Chunking.ChunkAt | split_and_zip.py:9 | chunk i is the byte range [i*size, min((i+1)*size, L)) |
| Chunking.ExactMultiple | split_and_zip.py:8-11 | a length that is a multiple of `size` gives L / size chunks, all full |
| Storage.CreateDirs | split_and_zip.py:66 | `makedirs(p, exist_ok=True)` fails exactly for an empty path or a missing ancestor that cannot be created; otherwise it adds the path and its missing ancestors and nothing else, keeping existing directories |
| Storage.CreateDirsIdempotent | split_and_zip.py:66 | creating a destination that was just created succeeds and changes nothing |
| Storage.ByteStream.Read | split_and_zip.py:9 | `read(n)` raises exactly for a size it rejects, and then reads nothing; otherwise it returns the next `n` unread bytes, or all of them for `n == -1`, and advances past exactly those |
| Storage.FileSystem.MakeDirs | split_and_zip.py:66 | the directories become those `CreateDirs` gives, and are unchanged when it fails |
| Storage.FileSystem.WriteArchive | split_and_zip.py:16-17 | writing succeeds exactly when the path is not blocked, and then appends that one archive and nothing else |
| Archiver.Part | split_and_zip.py:15-17 | part k of a file: the archive `{folder}/{effective}_part_{k}.zip` whose only entry `{effective}_part_{k}` holds the chunk |
| Archiver.ExpectedArchives | split_and_zip.py:8-20 | the archives written when no write fails: part k + 1 holds piece k of what the loop reads |
| Archiver.WrittenBefore | split_and_zip.py:16 | the count of archives written is at most their number; all before it can be written, and the one at it cannot |
| Archiver.ContentsOfChunks | split_and_zip.py:16-17 | archives holding the chunks one each hold, together, the chunks back to back |
| Archiver.ExpectedArchivesRoundTrip | split_and_zip.py:6-20 | extracting all parts of a file in order and concatenating them gives the file back, for any non-zero chunk size `read` accepts |
| Archiver.PartialContentsPrefix | split_and_zip.py:16-17 | the parts written before a failure hold a prefix of the file's bytes |
| Archiver.ArchivePathsDistinct | split_and_zip.py:15-17 | two parts of one file never share an archive path or an entry name |
| Archiver.PartsDiffer | split_and_zip.py:15-17 | parts with different numbers differ in path and entry, whatever they hold |
| Archiver.ReadStep | split_and_zip.py:9-11 | a read is empty exactly when no chunk remains; otherwise it returns the next chunk and leaves the rest |
| Archiver.WritePart | split_and_zip.py:15-17 | one iteration writes part k under `{effective}_part_{k}.zip` with entry `{effective}_part_{k}`, when its path can be created |
| Archiver.CompressChunks | split_and_zip.py:6-20 | status and appended archives are those `Compress` gives for the unread content: the expected parts up to the first that cannot be written, or nothing when `read` rejects the size; a completed file with a non-zero size leaves the stream exhausted, a failed write leaves it just after the failed chunk, and size 0 or a first read that raises leaves it untouched |
| Archiver.Compress | split_and_zip.py:6-20 | what the chunking of one file ends with and writes: `Failed(0)` and nothing when `read` rejects the size; otherwise the expected parts up to the first that cannot be written, `Completed` exactly when there is none |
| Archiver.CompressStatus | split_and_zip.py:6-20 | the file completes exactly when `read` accepts the size and every expected part can be written; the status counts the parts written; a rejected size writes nothing and fails |
| Archiver.CompressCompleted | split_and_zip.py:8-20 | a completed file has ceil(L/size) parts for a positive size, 1 (0 when empty) for -1 and 0 for size 0, and for a non-zero size its parts hold the whole file |
| Archiver.CompressFailed | split_and_zip.py:16-17 | a file whose writing stopped early has parts that hold a proper prefix of it |
| Archiver.FailedIsShort | split_and_zip.py:16-17 | stopping before the last part leaves strictly less than the whole content written |
| Driver.DateSegment | split_and_zip.py:48 | the `current_date` string: the formatted date when the option is on, else empty |
| Driver.DestinationFor | split_and_zip.py:60-64 | the destination folder of a walked file, from its base name without extension |
| Driver.EffectiveNameFor | split_and_zip.py:67 | the name parts are called after: the prefix, else the base name of the file with its extension |
| Driver.ProcessFile | split_and_zip.py:71-75 | the `try` block for one file: `Failed(0)` and nothing when it cannot be opened, else what `Compress` gives |
| Driver.PlanFor | split_and_zip.py:54-75 | the loop body for one walked file: skip it when the filter rejects it, else its destination, report and written archives |
| Driver.RunFiles | split_and_zip.py:48-78 | the whole loop over the walked files: the plans run in order from the initial filesystem |
| Driver.ReportsNoMatches | split_and_zip.py:77-78 | the message is printed exactly when the run did not crash and no file was found |
| Driver.Selected | split_and_zip.py:54-56 | a walked file is handled exactly when its extension passes the `allowed_extensions` filter |
| Driver.Plans | split_and_zip.py:52-53 | one plan per walked file, in walk order |
| Driver.PlanAt | split_and_zip.py:52-56 | the plan at position i is that of walked file i |
| Driver.RunPlans | split_and_zip.py:50-78 | a crash implies a file had matched; at most one report per file |
| Driver.ProcessOneFile | split_and_zip.py:71-75 | the `try` block's status and appended archives are those of `ProcessFile`: nothing for a file that cannot be opened, else those of the chunking |
| Driver.HandleSelected | split_and_zip.py:60-75 | for a matching file, the destination is created, or on failure nothing changes and the run must end; otherwise the report and the new disk are those of its plan |
| Driver.Run | split_and_zip.py:48-78 | the loop's result and final filesystem are `RunFiles` of the walked files, the configuration, the date segment and the initial state |
| RunLaws.Filter | split_and_zip.py:54-56 | the files kept by the extension filter are no more than the walked ones, and all pass it |
| RunLaws.SelectedIsKept | split_and_zip.py:54-56 | every walked file the filter accepts is kept |
| RunLaws.FilterAppend | split_and_zip.py:52-56 | filtering two walks one after the other is filtering each, in order |
| RunLaws.FilterOne | split_and_zip.py:54-56 | a single walked file is kept exactly when the filter accepts it; with `FilterAppend`, the kept files are exactly the accepted ones in walk order |
| RunLaws.PlansOfFilter | split_and_zip.py:54-56 | planning only the kept files gives exactly the handled plans of all walked files |
| RunLaws.PlansAppend | split_and_zip.py:52-53 | the plans of two walked sequences in a row are the plans of each, in order |
| RunLaws.FoundIffHandled | split_and_zip.py:50-58 | `found_allowed_extension` is set exactly when some plan handles a file |
| RunLaws.FoundIffSelected | split_and_zip.py:50-58 | `found_allowed_extension` is set exactly when some walked file passes the filter |
| RunLaws.NoMatchesIffNoneSelected | split_and_zip.py:77-78 | "No files with the allowed extensions were found." is printed exactly when no walked file passes the filter |
| RunLaws.RunSkipsUnhandled | split_and_zip.py:55-56 | skipped files have no effect on the run |
| RunLaws.RunIgnoresRejected | split_and_zip.py:54-56 | the run over the walked files equals the run over only those that pass the filter, so rejected files produce no folder and no archive |
| RunLaws.ReportsArePlanned | split_and_zip.py:52-75 | report i is that of handled plan i; every handled file is reported exactly when the run does not crash |
| RunLaws.ReportsFollowFilter | split_and_zip.py:54-75 | report i is for kept file i, with its derived destination and its `try` block's status; all kept files are reported exactly when the run does not crash |
| RunLaws.ArchivesAfterPlans | split_and_zip.py:71-75 | the archives after a run are those before it plus the writes of the handled files that were reached, in order |
| RunLaws.DirsAfterPlans | split_and_zip.py:66 | the directories after a run are those before it plus those each reached handled file created |
| RunLaws.DiskAfterRun | split_and_zip.py:52-75 | the final filesystem is the initial one plus the directories and archives of the kept files that were reached, in order |
| RunLaws.RunPlansCompose | split_and_zip.py:52-53 | running two plan sequences in a row is running the first, then the second on its final disk unless the first crashed |
| RunLaws.RunComposes | split_and_zip.py:52-53 | the same for two sequences of walked files: the run is a left-to-right fold in which a crash ends everything |
| RunLaws.ProcessFileLaws | split_and_zip.py:71-75 | a file completes exactly when it opens, `read` accepts the size and all its parts can be written; then its parts number ceil(L/size) for a positive size, 1 or 0 for -1, and 0 for size 0, and hold the file; a size `read` rejects fails with no part; otherwise the parts written number `partsWritten` and hold a proper prefix of it |
| RunLaws.DestinationOfWalkedFile | split_and_zip.py:60-64 | the destination uses the walked file's name without its extension as folder, unless a folder name is set |
| RunLaws.EffectiveNameOfWalkedFile | split_and_zip.py:13 | parts are named after the prefix when it is non-empty, else after the walked file's full name, extension included (line 67) |

## Left out

- The zip container format is not modelled. `ZipFile(name, 'w')` is opened without a compression argument, so entries are stored uncompressed, which is `ZipFile`'s default. An archive is its path, its entry name and its entry's bytes, so extracting is reading the entry's bytes back.
- Reading `config.json` (lines 23-38) is not modelled. Defaults and JSON errors are not modelled either. `Config` holds the values after defaults are applied, with an integer `chunk_size`. A non-integer `chunk_size` is not modelled.
- The source-directory checks (lines 40-45) are not modelled.
- `os.walk` (lines 52-53) is not modelled. Its traversal order and the directories it visits are not modelled. The walked files are given as a sequence of (directory, name, content) values, in walk order.
- `datetime.now()` (line 48) is replaced by a parameter `today` holding the formatted date.
- Console output (lines 19, 69, 75, 78 and 80) is not modelled. The only print the model captures is the "no files found" message, through `found`.
- Exception types and messages are not modelled, only where an exception is caught.
- Storage.FileSystem.WriteArchive: a later archive with the same path as an earlier one is appended, not written over it. Two files with the same destination and effective name therefore both keep their parts in `archives`. On a real disk the later parts replace the earlier ones.
- Storage.FileSystem.MakeDirs: a failing `makedirs` leaves the directories unchanged. The real call may already have created some ancestors before it fails.
- Storage.ByteStream.Read: an I/O error during a read of a file that did open is not modelled. A failure partway through a file is modelled as a write that fails.
- Archiver.WritePart: a failed write leaves no archive. A partly written zip file that `ZipFile` may leave behind is not modelled.
- Paths are compared as plain strings, with no normalisation. A `folder_name` ending in `/` with no date segment gives the destination `out/x/`, and `Ancestors` then holds both `out/x` and `out/x/` as different directories.
- A `chunk_size` that `read` accepts but that is too large to allocate as a buffer raises `MemoryError`. That depends on the memory available and is not modelled.
- The largest accepted `read` size is that of a 64-bit platform; a 32-bit platform would reject sizes above 2^31 - 1.
- Storage.CreateDirs: the initial directories are not required to contain the parents of each of their members. With `dirs = {"a/b"}` and `a` blocked, creating `a/b/c` fails in the model. `os.makedirs` would succeed there, because it stops climbing at the first directory that exists. A real disk cannot hold `a/b` without `a`, so this arises only from an initial state no filesystem has.
- File names are Dafny strings of Unicode scalar values. The lone surrogates that Python's `surrogateescape` decoding can put in a file name are not representable. No law depends on the characters of a name beyond `/` and `.`.
