/**
 * `process_and_compress_chunk`: read a source file `chunk_size` bytes at a
 * time and write each non-empty piece, in order, as its own single-entry
 * archive `{effective}_part_{k}.zip` holding an entry `{effective}_part_{k}`.
 */
module Archiver {
  import opened Wrappers
  import opened PosixPath
  import opened Naming
  import opened Chunking
  import opened Storage

  /**
   * How processing one source file ended: every part written, or stopped by
   * an error after `partsWritten` parts (which stay on disk).
   */
  datatype FileStatus = Completed(parts: nat) | Failed(partsWritten: nat)

  /** Part `k` of a file: `{folder}/{effective}_part_{k}.zip`, whose only entry `{effective}_part_{k}` holds `chunk`. */
  function Part(folder: Path, effective: string, k: nat, chunk: seq<Byte>): Archive {
    var stem := PartStem(effective, k);
    Archive(Join(folder, stem + ".zip"), stem, chunk)
  }

  /**
   * The archives for `chunks` in `folder`, numbered from `first` on: the
   * archive at position `i` is part number `first + i`, holding chunk `i`.
   */
  function Parts(folder: Path, effective: string, chunks: seq<seq<Byte>>, first: nat): (r: seq<Archive>)
    ensures |r| == |chunks|
    ensures forall i :: 0 <= i < |chunks| ==> r[i] == Part(folder, effective, first + i, chunks[i])
  {
    seq(|chunks|, i requires 0 <= i < |chunks| => Part(folder, effective, first + i, chunks[i]))
  }

  /** The archives that processing `data` writes when nothing fails: part k holds chunk k, from 1 on. */
  function ExpectedArchives(folder: Path, effective: string, data: seq<Byte>, size: int): seq<Archive> {
    Parts(folder, effective, ReadChunks(data, size), 1)
  }

  /** How many archives are written before the first one whose path cannot be created. */
  function WrittenBefore(archives: seq<Archive>, blocked: set<Path>): (w: nat)
    ensures w <= |archives|
    ensures forall j :: 0 <= j < w ==> archives[j].path !in blocked
    ensures w < |archives| ==> archives[w].path in blocked
    decreases |archives|
  {
    if archives == [] || archives[0].path in blocked then 0
    else 1 + WrittenBefore(archives[1..], blocked)
  }

  /** The bytes of the archives' entries, decompressed and concatenated in order. */
  function Contents(archives: seq<Archive>): seq<Byte> {
    if archives == [] then [] else archives[0].bytes + Contents(archives[1..])
  }

  /** Archives holding the chunks one by one hold, together, the chunks written back to back. */
  lemma {:induction false} ContentsOfChunks(archives: seq<Archive>, chunks: seq<seq<Byte>>)
    requires |archives| == |chunks|
    requires forall i :: 0 <= i < |chunks| ==> archives[i].bytes == chunks[i]
    ensures Contents(archives) == Flatten(chunks)
    decreases |chunks|
  {
    if chunks != [] {
      assert archives[0].bytes == chunks[0];
      forall i | 0 <= i < |chunks| - 1 ensures archives[1..][i].bytes == chunks[1..][i] {
        assert archives[1..][i] == archives[i + 1];
      }
      ContentsOfChunks(archives[1..], chunks[1..]);
    }
  }

  /** Extracting every part in index order and concatenating gives back the source file. */
  lemma ExpectedArchivesRoundTrip(folder: Path, effective: string, data: seq<Byte>, size: int)
    requires size != 0 && !ReadRejects(size)
    ensures Contents(ExpectedArchives(folder, effective, data, size)) == data
  {
    ContentsOfChunks(ExpectedArchives(folder, effective, data, size), ReadChunks(data, size));
    ReadChunksRoundTrip(data, size);
  }

  /** The parts written before a failure hold a prefix of what all the parts hold. */
  lemma {:induction false} PartialContentsPrefix(archives: seq<Archive>, k: nat)
    requires k <= |archives|
    ensures Contents(archives[..k]) <= Contents(archives)
    decreases k
  {
    if k > 0 {
      assert archives[..k][1..] == archives[1..][..k - 1];
      PartialContentsPrefix(archives[1..], k - 1);
    }
  }

  /** The parts of one file have pairwise different archive paths and entry names, so none overwrites another. */
  lemma ArchivePathsDistinct(folder: Path, effective: string, data: seq<Byte>, size: int, i: nat, j: nat)
    requires i < |ExpectedArchives(folder, effective, data, size)| && j < |ExpectedArchives(folder, effective, data, size)|
    requires i != j
    ensures ExpectedArchives(folder, effective, data, size)[i].path != ExpectedArchives(folder, effective, data, size)[j].path
    ensures ExpectedArchives(folder, effective, data, size)[i].entry != ExpectedArchives(folder, effective, data, size)[j].entry
  {
    var chunks := ReadChunks(data, size);
    PartsDiffer(folder, effective, i + 1, j + 1, chunks[i], chunks[j]);
  }

  /** Parts with different numbers differ in archive path and in entry name, whatever they hold. */
  lemma PartsDiffer(folder: Path, effective: string, j: nat, k: nat, c1: seq<Byte>, c2: seq<Byte>)
    requires j != k
    ensures Part(folder, effective, j, c1).path != Part(folder, effective, k, c2).path
    ensures Part(folder, effective, j, c1).entry != Part(folder, effective, k, c2).entry
  {
    var a, b := ArchiveFileName(effective, j), ArchiveFileName(effective, k);
    assert a[0] == b[0] by {
      if effective == [] {
        assert a[0] == '_' && b[0] == '_';
      } else {
        assert a[0] == effective[0] && b[0] == effective[0];
      }
    }
    JoinInjective(folder, a, b);
    ArchiveFileNameInjective(effective, j, k);
    PartStemInjective(effective, j, k);
  }

  /** Archive `idx` of the expected ones is part `idx + 1`, holding chunk `idx`. */
  lemma NextPart(folder: Path, effective: string, data: seq<Byte>, size: int, idx: nat)
    requires idx < |ReadChunks(data, size)|
    ensures ExpectedArchives(folder, effective, data, size)[idx] == Part(folder, effective, idx + 1, ReadChunks(data, size)[idx])
  {
  }

  /** None of `archives` has a path that cannot be created. */
  predicate AllWritable(archives: seq<Archive>, blocked: set<Path>) {
    forall j :: 0 <= j < |archives| ==> archives[j].path !in blocked
  }

  /**
   * What `process_and_compress_chunk` ends with and leaves on disk for the
   * content `data`: nothing, and a failure, when `read` rejects the size;
   * otherwise the expected archives up to the first one that cannot be
   * written, completing exactly when there is none.
   */
  function Compress(folder: Path, effective: string, data: seq<Byte>, size: int, blocked: set<Path>)
    : (FileStatus, seq<Archive>)
  {
    if ReadRejects(size) then (Failed(0), [])
    else
      var expected := ExpectedArchives(folder, effective, data, size);
      var w := WrittenBefore(expected, blocked);
      (if w == |expected| then Completed(w) else Failed(w), expected[..w])
  }

  /**
   * How `process_and_compress_chunk` ends: it completes exactly when `read`
   * accepts the size and every expected part can be written; it reports
   * the number of parts it wrote; a size `read` rejects writes nothing.
   */
  lemma CompressStatus(folder: Path, effective: string, data: seq<Byte>, size: int, blocked: set<Path>)
    ensures var (status, written) := Compress(folder, effective, data, size, blocked);
      && (status.Completed? <==> !ReadRejects(size) && AllWritable(ExpectedArchives(folder, effective, data, size), blocked))
      && |written| == (if status.Completed? then status.parts else status.partsWritten)
      && (ReadRejects(size) ==> status == Failed(0) && written == [])
  {
    if !ReadRejects(size) {
      var expected := ExpectedArchives(folder, effective, data, size);
      assert expected[..|expected|] == expected;
    }
  }

  /**
   * A completed file has one part per `size` bytes, rounded up, for a
   * positive size; one part, or none for an empty file, for size -1; none
   * for size 0; and for a non-zero size its parts hold the whole file.
   */
  lemma CompressCompleted(folder: Path, effective: string, data: seq<Byte>, size: int, blocked: set<Path>)
    requires Compress(folder, effective, data, size, blocked).0.Completed?
    ensures var (status, written) := Compress(folder, effective, data, size, blocked);
      && (size > 0 ==> status.parts == (|data| + size - 1) / size)
      && (size == -1 ==> status.parts == if data == [] then 0 else 1)
      && (size == 0 ==> status.parts == 0)
      && (size != 0 ==> Contents(written) == data)
  {
    var expected := ExpectedArchives(folder, effective, data, size);
    assert expected[..|expected|] == expected;
    if size > 0 {
      ChunkCount(data, size);
    }
    if size != 0 {
      ExpectedArchivesRoundTrip(folder, effective, data, size);
    }
  }

  /** A file whose writing stopped early has its parts hold a proper prefix of it. */
  lemma CompressFailed(folder: Path, effective: string, data: seq<Byte>, size: int, blocked: set<Path>)
    requires !ReadRejects(size) && Compress(folder, effective, data, size, blocked).0.Failed?
    ensures Contents(Compress(folder, effective, data, size, blocked).1) < data
  {
    var expected := ExpectedArchives(folder, effective, data, size);
    FailedIsShort(folder, effective, data, size, WrittenBefore(expected, blocked));
  }

  /**
   * Stopping before the last part leaves at least the bytes of that part
   * unwritten, since no chunk is empty.
   */
  lemma FailedIsShort(folder: Path, effective: string, data: seq<Byte>, size: int, w: nat)
    requires w < |ExpectedArchives(folder, effective, data, size)|
    ensures Contents(ExpectedArchives(folder, effective, data, size)[..w]) < data
  {
    var expected := ExpectedArchives(folder, effective, data, size);
    assert size != 0 && !ReadRejects(size);
    ExpectedArchivesRoundTrip(folder, effective, data, size);
    PartialContentsPrefix(expected, w);
    ReadChunksNonEmpty(data, size);
    ContentsSplit(expected, w);
    NextPart(folder, effective, data, size, w);
    assert |expected[w].bytes| > 0;
    ContentsSplit(expected[w..], 1);
    assert expected[w..][..1] == [expected[w]];
  }

  /** The contents of a sequence of archives split at any point. */
  lemma {:induction false} ContentsSplit(archives: seq<Archive>, k: nat)
    requires k <= |archives|
    ensures Contents(archives) == Contents(archives[..k]) + Contents(archives[k..])
    decreases k
  {
    if k > 0 {
      assert archives[..k][1..] == archives[1..][..k - 1];
      assert archives[k..] == archives[1..][k - 1..];
      ContentsSplit(archives[1..], k - 1);
    }
  }

  /** Writing one more archive that can be created keeps every written archive creatable. */
  lemma Advance(expected: seq<Archive>, blocked: set<Path>, idx: nat)
    requires idx < |expected| && AllWritable(expected[..idx], blocked) && expected[idx].path !in blocked
    ensures expected[..idx + 1] == expected[..idx] + [expected[idx]]
    ensures AllWritable(expected[..idx + 1], blocked)
  {
    assert expected[..idx + 1] == expected[..idx] + [expected[idx]];
  }

  /** Writing stops after `idx` archives when all before it were creatable and it is the end or is not. */
  lemma StopsAt(expected: seq<Archive>, blocked: set<Path>, idx: nat)
    requires idx <= |expected| && AllWritable(expected[..idx], blocked)
    requires idx < |expected| ==> expected[idx].path in blocked
    ensures WrittenBefore(expected, blocked) == idx
  {
    forall j | 0 <= j < idx ensures expected[j].path !in blocked {
      assert expected[..idx][j] == expected[j];
    }
  }

  /**
   * A read of `size` bytes when chunks `idx..` of `all` remain is empty
   * exactly when none remain, and otherwise returns chunk `idx` and leaves
   * the chunks after it.
   */
  lemma ReadStep(all: seq<seq<Byte>>, idx: nat, before: seq<Byte>, size: int, chunk: seq<Byte>, after: seq<Byte>)
    requires !ReadRejects(size)
    requires idx <= |all| && ReadChunks(before, size) == all[idx..]
    requires chunk == before[..ReadLen(size, |before|)] && after == before[|chunk|..]
    ensures |chunk| == 0 <==> idx == |all|
    ensures |chunk| > 0 ==> all[idx] == chunk && ReadChunks(after, size) == all[idx + 1..]
  {
    if |chunk| > 0 {
      if size > 0 {
        assert Chunks(before, size) == [chunk] + Chunks(after, size);
      } else {
        assert chunk == before && after == [];
      }
      assert ReadChunks(before, size) == [chunk] + ReadChunks(after, size);
      assert all[idx..][0] == all[idx] && all[idx..][1..] == all[idx + 1..];
    }
  }

  /**
   * One iteration's write: `zipfile.ZipFile(zip_filename, 'w')` with
   * `writestr(entry, chunk)`, where both names are those of part `k`.
   */
  method WritePart(fs: FileSystem, outputFolder: Path, effective: string, k: nat, chunk: seq<Byte>)
    returns (ok: bool)
    modifies fs`archives
    ensures ok == (Part(outputFolder, effective, k, chunk).path !in fs.blocked)
    ensures fs.archives == old(fs.archives) + if ok then [Part(outputFolder, effective, k, chunk)] else []
  {
    var entry := PartStem(effective, k);
    var zipFilename := Join(outputFolder, entry + ".zip");
    ok := fs.WriteArchive(zipFilename, entry, chunk);
  }

  /**
   * `process_and_compress_chunk(file, chunk_size, output_folder,
   * base_filename, filename_prefix)`. The archives it appends are the
   * expected archives of the unread content up to the first one that cannot
   * be written; at that point it stops with the parts written so far. A
   * size `read` rejects raises at the first read, before anything is written.
   */
  method CompressChunks(file: ByteStream, chunkSize: int, outputFolder: Path, baseFilename: string,
                        filenamePrefix: Option<string>, fs: FileSystem)
    returns (status: FileStatus)
    requires file.Valid()
    modifies file`pos, fs`archives
    ensures file.Valid()
    ensures var done := Compress(outputFolder, EffectiveName(filenamePrefix, baseFilename),
                                 old(file.Remaining()), chunkSize, fs.blocked);
            status == done.0 && fs.archives == old(fs.archives) + done.1
    ensures status.Completed? ==> ReadChunks(file.Remaining(), chunkSize) == []
    ensures status.Completed? && chunkSize != 0 ==> file.Remaining() == []
    ensures chunkSize == 0 ==> file.Remaining() == old(file.Remaining())
    ensures ReadRejects(chunkSize) ==> file.Remaining() == old(file.Remaining())
    ensures status.Failed? && !ReadRejects(chunkSize) ==>
      ReadChunks(file.Remaining(), chunkSize) == ReadChunks(old(file.Remaining()), chunkSize)[status.partsWritten + 1..]
  {
    ghost var content := file.Remaining();
    ghost var all := ReadChunks(content, chunkSize);
    ghost var expected := ExpectedArchives(outputFolder, EffectiveName(filenamePrefix, baseFilename),
                                           content, chunkSize);
    var idx := 0;
    while true
      invariant file.Valid()
      invariant 0 <= idx <= |all|
      invariant ReadChunks(file.Remaining(), chunkSize) == all[idx..]
      invariant ReadRejects(chunkSize) ==> file.Remaining() == content
      invariant chunkSize == 0 ==> file.Remaining() == content
      invariant AllWritable(expected[..idx], fs.blocked)
      invariant fs.archives == old(fs.archives) + expected[..idx]
      decreases |file.data| - file.pos
    {
      ghost var before := file.Remaining();
      var read := file.Read(chunkSize);
      if read.None? {
        status := Failed(idx);
        return;
      }
      var chunk := read.value;
      ReadStep(all, idx, before, chunkSize, chunk, file.Remaining());
      if |chunk| == 0 {
        break;
      }
      var effective := EffectiveName(filenamePrefix, baseFilename);
      NextPart(outputFolder, effective, content, chunkSize, idx);
      var ok := WritePart(fs, outputFolder, effective, idx + 1, chunk);
      if !ok {
        StopsAt(expected, fs.blocked, idx);
        status := Failed(idx);
        return;
      }
      Advance(expected, fs.blocked, idx);
      idx := idx + 1;
    }
    StopsAt(expected, fs.blocked, idx);
    assert expected[..idx] == expected;
    status := Completed(idx);
  }
}
