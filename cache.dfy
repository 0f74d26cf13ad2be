/** The local side of the archive store (s3archivefs/src/repo.rs): a sparse
    file as long as the archive object, filled chunk by chunk from the object
    store on demand. No table records which chunks are present: a byte that
    was never written is a hole and reads as zero. */
module SparseCache {
  import opened Wrappers
  import opened Strings
  import opened Chunking

  /** `HoleDetectMode`: how a read decides which bytes are missing. */
  datatype HoleDetectMode = AllZero | Lseek

  /** The archive object in the store: its bytes and its user metadata
      (`None` when the object carries no user metadata at all). */
  datatype RemoteObject = RemoteObject(data: seq<byte>, userMeta: Option<map<string, string>>)

  function Min(a: nat, b: nat): nat { if a <= b then a else b }

  function Max(a: nat, b: nat): nat { if a <= b then b else a }

  /** A ranged GET of the inclusive range `[first, last]`: a range starting at
      or past the end of the object is unsatisfiable (status 416, section 4.4
      of RFC 7233); a range reaching past the end is cut at the end (section
      2.1 of RFC 7233). */
  function GetRange(obj: seq<byte>, first: nat, last: nat): (r: Option<seq<byte>>)
    ensures r.Some? <==> first <= last && first < |obj|
    ensures r.Some? ==> |r.value| == Min(last + 1, |obj|) - first
    ensures r.Some? ==> forall i :: 0 <= i < |r.value| ==> r.value[i] == obj[first + i]
  {
    if first <= last && first < |obj| then Some(obj[first..Min(last + 1, |obj|)]) else None
  }

  /** The bytes of a file of fixed length after `data` is written at `at`
      (bytes that would fall past the end are dropped). */
  function Overlay(file: seq<byte>, at: nat, data: seq<byte>): seq<byte>
  {
    seq(|file|, i requires 0 <= i < |file| => if at <= i < at + |data| then data[i - at] else file[i])
  }

  /** The offsets `lo` up to but not including `hi`. */
  function Interval(lo: nat, hi: nat): (r: set<nat>)
    ensures forall i :: i in r <==> lo <= i < hi
    decreases hi - lo
  {
    if lo >= hi then {} else {lo} + Interval(lo + 1, hi)
  }

  /** The window fetched for a missing range covers that range whenever the
      range lies inside the object: the ranged GET succeeds and the bytes it
      returns start at or before the range and reach its end. */
  lemma FetchCovers(obj: seq<byte>, start: nat, reqSize: nat, chunkLog: nat)
    requires start < |obj| && start + reqSize <= |obj|
    ensures var w := FetchWindow(start, reqSize, chunkLog);
      var got := GetRange(obj, w.0, w.1 - 1);
      && got.Some?
      && w.0 <= start
      && start + reqSize <= w.0 + |got.value|
  {
  }

  /** The sparse cache file. `written` is the set of offsets that hold data;
      every other offset is a hole. */
  class SparseFile {
    const bytes: array<byte>
    ghost var written: set<nat>

    /** Holes read as zero, and data lies inside the file. */
    ghost predicate Valid()
      reads this, bytes
    {
      && (forall i :: i in written ==> i < bytes.Length)
      && (forall i :: 0 <= i < bytes.Length && i !in written ==> bytes[i] == 0)
    }

    /** A new sparse file of the given length: all holes. */
    constructor (length: nat)
      ensures Valid() && fresh(bytes)
      ensures bytes.Length == length && written == {}
      ensures forall i :: 0 <= i < length ==> bytes[i] == 0
    {
      bytes := new byte[length](_ => 0);
      written := {};
    }

    /** A sparse file found on disk, with the offsets that hold data. */
    constructor FromImage(contents: seq<byte>, ghost data: set<nat>)
      requires forall i :: i in data ==> i < |contents|
      requires forall i :: 0 <= i < |contents| && i !in data ==> contents[i] == 0
      ensures Valid() && fresh(bytes)
      ensures bytes[..] == contents && written == data
    {
      bytes := new byte[|contents|](i requires 0 <= i < |contents| => contents[i]);
      written := data;
    }

    /** `seek` then `write_all`: the bytes land from `at` on and become data. */
    method WriteAt(at: nat, data: seq<byte>)
      requires Valid()
      modifies this, bytes
      ensures Valid()
      ensures bytes[..] == Overlay(old(bytes[..]), at, data)
      ensures forall i :: i in written <==> i in old(written) || (at <= i < at + |data| && i < bytes.Length)
    {
      forall i | at <= i < at + |data| && i < bytes.Length {
        bytes[i] := data[i - at];
      }
      written := written + Interval(at, Min(at + |data|, bytes.Length));
    }
  }

  /** Whether a new `Local` builds its sparse file from the object
      (`!exists || force`) or opens the file already on disk. */
  predicate Installs(exists_: bool, force: bool) { !exists_ || force }

  /** The superblock attached to the object, when the metadata lookup
      succeeds. */
  function MetadataSuperblock(obj: RemoteObject, base64Decode: string -> Option<seq<byte>>): Option<seq<byte>>
  {
    var m := GetMetadata(obj.userMeta, base64Decode, |obj.data|);
    if m.Done? && m.value.Ok? then Some(m.value.value.0) else None
  }

  /** The first offset of the metadata range fetched at install time: the
      inode table start rounded down to a chunk boundary. */
  function InstallFetchStart(sbBin: seq<byte>, chunkSize: Option<nat>): nat
    requires |sbBin| == SUPERBLOCK_SIZE
  {
    var sb := DecodeSuperblock(sbBin);
    AlignDown(sb.inodeTableStart, ChunkLog(ClampChunkSize(chunkSize), sb.blockSize, sb.blockLog))
  }

  /** Installing from the object succeeds when there is an object whose
      metadata yields a superblock, the object is not empty, and the ranged
      GET of the metadata area is satisfiable and completes. */
  predicate InstallSucceeds(remote: Option<RemoteObject>, base64Decode: string -> Option<seq<byte>>,
                            chunkSize: Option<nat>, fetchOk: bool)
  {
    && remote.Some?
    && MetadataSuperblock(remote.value, base64Decode).Some?
    && |remote.value.data| > 0
    && GetRange(remote.value.data,
                InstallFetchStart(MetadataSuperblock(remote.value, base64Decode).value, chunkSize),
                |remote.value.data| - 1).Some?
    && fetchOk
  }

  /** The install path of `Local::new`, on a fresh sparse file: the last
      byte is written (so the file takes the object's length, or the
      superblock's when the object is shorter), the metadata superblock is
      written at offset 0, and the object's bytes from the inode table start
      (rounded down to a chunk) to its end are fetched into place. Every
      failure panics: no metadata superblock, an empty object (the offset
      `filesize - 1` wraps to 2^64 - 1, which `seek` refuses), an
      unsatisfiable range or a failed transfer. */
  method Install(obj: RemoteObject, base64Decode: string -> Option<seq<byte>>, chunkSize: Option<nat>,
                 fetchOk: bool) returns (r: Outcome<SparseFile>)
    ensures r.Done? <==> InstallSucceeds(Some(obj), base64Decode, chunkSize, fetchOk)
    ensures r.Done? ==>
      var f := r.value;
      var sbBin := MetadataSuperblock(obj, base64Decode).value;
      var start := InstallFetchStart(sbBin, chunkSize);
      && fresh(f) && fresh(f.bytes) && f.Valid()
      && f.bytes.Length == Max(|obj.data|, SUPERBLOCK_SIZE)
      && (forall i :: start <= i < |obj.data| ==> i in f.written && f.bytes[i] == obj.data[i])
      && (forall i :: 0 <= i < SUPERBLOCK_SIZE && i < start ==> f.bytes[i] == sbBin[i])
      && (forall i :: i in f.written ==> i < SUPERBLOCK_SIZE || start <= i)
  {
    var meta := GetMetadata(obj.userMeta, base64Decode, |obj.data|);
    if meta.Panic? || meta.value.Err? {
      return Panic("unable to read superblock from remote");
    }
    var sbBin := meta.value.value.0;
    assert MetadataSuperblock(obj, base64Decode) == Some(sbBin);
    var filesize := |obj.data|;
    if filesize == 0 {
      return Panic("failed to seek file");
    }
    var f := NewWithSuperblock(filesize, sbBin);
    var sb := DecodeSuperblock(sbBin);
    var metaStart := AlignDown(sb.inodeTableStart, ChunkLog(ClampChunkSize(chunkSize), sb.blockSize, sb.blockLog));
    assert InstallFetchStart(sbBin, chunkSize) == metaStart;
    var got := GetRange(obj.data, metaStart, filesize - 1);
    if got.None? || !fetchOk {
      return Panic("unable to read superblock from remote");
    }
    WriteMetadataArea(f, obj.data, sbBin, metaStart, got.value);
    return Done(f);
  }

  /** The first steps of the install: a new sparse file whose last byte is
      written (giving it its length) and whose first bytes are the
      superblock. */
  method NewWithSuperblock(filesize: nat, sbBin: seq<byte>) returns (f: SparseFile)
    requires filesize > 0 && |sbBin| == SUPERBLOCK_SIZE
    ensures fresh(f) && fresh(f.bytes) && f.Valid()
    ensures f.bytes.Length == Max(filesize, SUPERBLOCK_SIZE)
    ensures forall i :: 0 <= i < SUPERBLOCK_SIZE ==> f.bytes[i] == sbBin[i]
    ensures forall i :: i in f.written ==> i < SUPERBLOCK_SIZE || i == filesize - 1
  {
    f := new SparseFile(Max(filesize, SUPERBLOCK_SIZE));
    f.WriteAt(filesize - 1, [0]);
    ghost var afterLast := f.bytes[..];
    f.WriteAt(0, sbBin);
    forall i | 0 <= i < SUPERBLOCK_SIZE
      ensures f.bytes[i] == sbBin[i]
    {
      assert f.bytes[i] == Overlay(afterLast, 0, sbBin)[i];
    }
  }

  /** The last step of the install: the fetched metadata area lands from
      `metaStart` to the end of the object, leaving the superblock before
      it in place. */
  method WriteMetadataArea(f: SparseFile, obj: seq<byte>, sbBin: seq<byte>, metaStart: nat, got: seq<byte>)
    requires f.Valid() && f.bytes.Length == Max(|obj|, SUPERBLOCK_SIZE) && |sbBin| == SUPERBLOCK_SIZE
    requires |obj| > 0 && GetRange(obj, metaStart, |obj| - 1) == Some(got)
    requires forall i :: 0 <= i < SUPERBLOCK_SIZE ==> f.bytes[i] == sbBin[i]
    requires forall i :: i in f.written ==> i < SUPERBLOCK_SIZE || i == |obj| - 1
    modifies f, f.bytes
    ensures f.Valid()
    ensures forall i :: metaStart <= i < |obj| ==> i in f.written && f.bytes[i] == obj[i]
    ensures forall i :: 0 <= i < SUPERBLOCK_SIZE && i < metaStart ==> f.bytes[i] == sbBin[i]
    ensures forall i :: i in f.written ==> i < SUPERBLOCK_SIZE || metaStart <= i
  {
    ghost var before := f.bytes[..];
    f.WriteAt(metaStart, got);
    forall i | metaStart <= i < |obj|
      ensures i in f.written && f.bytes[i] == obj[i]
    {
      assert f.bytes[i] == Overlay(before, metaStart, got)[i];
    }
    forall i | 0 <= i < SUPERBLOCK_SIZE && i < metaStart
      ensures f.bytes[i] == sbBin[i]
    {
      assert f.bytes[i] == Overlay(before, metaStart, got)[i];
    }
  }

  /** After installation from an object whose first bytes are the metadata
      superblock, the file starts with that superblock, its data past the
      superblock is the object's, and the area from the inode table to the
      end is data. */
  lemma InstalledCoherent(f: SparseFile, obj: seq<byte>, sbBin: seq<byte>, chunkSize: Option<nat>)
    requires f.Valid() && f.bytes.Length == |obj| && |obj| >= SUPERBLOCK_SIZE
    requires sbBin == obj[..SUPERBLOCK_SIZE]
    requires var start := InstallFetchStart(sbBin, chunkSize);
      && (forall i :: start <= i < |obj| ==> i in f.written && f.bytes[i] == obj[i])
      && (forall i :: 0 <= i < SUPERBLOCK_SIZE && i < start ==> f.bytes[i] == sbBin[i])
      && (forall i :: i in f.written ==> i < SUPERBLOCK_SIZE || start <= i)
    ensures f.bytes[..SUPERBLOCK_SIZE] == sbBin
    ensures forall i :: i in f.written && SUPERBLOCK_SIZE <= i < f.bytes.Length ==> f.bytes[i] == obj[i]
    ensures forall i :: DecodeSuperblock(sbBin).inodeTableStart <= i < |obj| ==> i in f.written
  {
    var start := InstallFetchStart(sbBin, chunkSize);
    forall i | 0 <= i < SUPERBLOCK_SIZE
      ensures f.bytes[i] == sbBin[i]
    {
      if start <= i {
        assert f.bytes[i] == obj[i];
      }
    }
  }

  /** `Local`: the sparse file, the optional object behind it, the hole
      detection mode and the chunk length (as a power of two). `sent` records
      the `Range` headers of the ranged GETs issued after construction. */
  class Local {
    const file: SparseFile
    const remote: Option<RemoteObject>
    const hdmode: HoleDetectMode
    const chunkLog: nat
    const inodeTableStart: nat
    ghost var sent: seq<string>

    ghost predicate Valid()
      reads this, file, file.bytes
    {
      file.Valid()
    }

    /** The file is as long as the object, and its data past the superblock
        is the object's. (The superblock itself comes from the object's
        metadata, which nothing ties to the object's first bytes.) */
    ghost predicate Coherent()
      reads this, file, file.bytes
    {
      && remote.Some?
      && |remote.value.data| == file.bytes.Length
      && forall i :: i in file.written && SUPERBLOCK_SIZE <= i < file.bytes.Length ==>
           file.bytes[i] == remote.value.data[i]
    }

    /** Everything from the inode table to the end of the file is data: reads
        there need no fetch. */
    ghost predicate MetadataResident()
      reads this, file
    {
      forall i :: inodeTableStart <= i < file.bytes.Length ==> i in file.written
    }

    constructor Make(file: SparseFile, remote: Option<RemoteObject>, hdmode: HoleDetectMode,
                     chunkLog: nat, inodeTableStart: nat)
      ensures this.file == file && this.remote == remote && this.hdmode == hdmode
      ensures this.chunkLog == chunkLog && this.inodeTableStart == inodeTableStart
      ensures sent == []
    {
      this.file := file;
      this.remote := remote;
      this.hdmode := hdmode;
      this.chunkLog := chunkLog;
      this.inodeTableStart := inodeTableStart;
      sent := [];
    }

    /** `Local::new`. When the file does not exist yet or `force` is set, the
        file is rebuilt from the object (see `Install`); otherwise the file on
        disk is used as it is. Then the superblock is read back from the file
        (a file too short to hold one panics) and the chunk length is chosen
        from it. */
    static method New(chunkSize: Option<nat>, hdmode: HoleDetectMode, exists_: bool, force: bool,
                      remote: Option<RemoteObject>, base64Decode: string -> Option<seq<byte>>,
                      installFetchOk: bool, localContents: seq<byte>, ghost localWritten: set<nat>)
      returns (r: Outcome<Local>)
      requires !Installs(exists_, force) ==>
        && (forall i :: i in localWritten ==> i < |localContents|)
        && (forall i :: 0 <= i < |localContents| && i !in localWritten ==> localContents[i] == 0)
      ensures r.Done? ==>
        && fresh(r.value) && fresh(r.value.file) && fresh(r.value.file.bytes)
        && r.value.Valid() && r.value.sent == []
        && r.value.remote == remote && r.value.hdmode == hdmode
        && r.value.file.bytes.Length >= SUPERBLOCK_SIZE
        && var sb := DecodeSuperblock(r.value.file.bytes[..SUPERBLOCK_SIZE]);
           && r.value.chunkLog == ChunkLog(ClampChunkSize(chunkSize), sb.blockSize, sb.blockLog)
           && r.value.inodeTableStart == sb.inodeTableStart
      ensures !Installs(exists_, force) ==>
        && (r.Done? <==> |localContents| >= SUPERBLOCK_SIZE)
        && (r.Done? ==> r.value.file.bytes[..] == localContents && r.value.file.written == localWritten)
      ensures Installs(exists_, force) ==>
        (r.Done? <==> InstallSucceeds(remote, base64Decode, chunkSize, installFetchOk))
      ensures Installs(exists_, force) && r.Done? ==>
        var obj := remote.value.data;
        var start := InstallFetchStart(MetadataSuperblock(remote.value, base64Decode).value, chunkSize);
        && r.value.file.bytes.Length == Max(|obj|, SUPERBLOCK_SIZE)
        && (forall i :: start <= i < |obj| ==> i in r.value.file.written && r.value.file.bytes[i] == obj[i])
      ensures Installs(exists_, force) && r.Done? && SUPERBLOCK_SIZE <= |remote.value.data|
              && MetadataSuperblock(remote.value, base64Decode).value == remote.value.data[..SUPERBLOCK_SIZE] ==>
        r.value.Coherent() && r.value.MetadataResident()
    {
      var found := OpenFile(chunkSize, exists_, force, remote, base64Decode, installFetchOk, localContents, localWritten);
      if found.Panic? {
        return Panic(found.msg);
      }
      var f := found.value;
      if f.bytes.Length < SUPERBLOCK_SIZE {
        return Panic("failed to read the superblock of the sparse file");
      }
      var sb := DecodeSuperblock(f.bytes[..SUPERBLOCK_SIZE]);
      var local := new Local.Make(f, remote, hdmode, ChunkLog(ClampChunkSize(chunkSize), sb.blockSize, sb.blockLog),
                                  sb.inodeTableStart);
      if Installs(exists_, force) && SUPERBLOCK_SIZE <= |remote.value.data|
         && MetadataSuperblock(remote.value, base64Decode).value == remote.value.data[..SUPERBLOCK_SIZE] {
        NewCoherent(local, MetadataSuperblock(remote.value, base64Decode).value, chunkSize);
      }
      return Done(local);
    }

    /** The sparse file `Local::new` starts from: installed from the object
        when it does not exist yet or when forced (without an object that
        panics), otherwise the file already on disk. */
    static method OpenFile(chunkSize: Option<nat>, exists_: bool, force: bool,
                           remote: Option<RemoteObject>, base64Decode: string -> Option<seq<byte>>,
                           installFetchOk: bool, localContents: seq<byte>, ghost localWritten: set<nat>)
      returns (r: Outcome<SparseFile>)
      requires !Installs(exists_, force) ==>
        && (forall i :: i in localWritten ==> i < |localContents|)
        && (forall i :: 0 <= i < |localContents| && i !in localWritten ==> localContents[i] == 0)
      ensures r.Done? ==> fresh(r.value) && fresh(r.value.bytes) && r.value.Valid()
      ensures !Installs(exists_, force) ==>
        r.Done? && r.value.bytes[..] == localContents && r.value.written == localWritten
      ensures Installs(exists_, force) ==>
        (r.Done? <==> InstallSucceeds(remote, base64Decode, chunkSize, installFetchOk))
      ensures Installs(exists_, force) && r.Done? ==>
        var f := r.value;
        var obj := remote.value.data;
        var sbBin := MetadataSuperblock(remote.value, base64Decode).value;
        var start := InstallFetchStart(sbBin, chunkSize);
        && f.bytes.Length == Max(|obj|, SUPERBLOCK_SIZE)
        && (forall i :: start <= i < |obj| ==> i in f.written && f.bytes[i] == obj[i])
        && (forall i :: 0 <= i < SUPERBLOCK_SIZE && i < start ==> f.bytes[i] == sbBin[i])
        && (forall i :: i in f.written ==> i < SUPERBLOCK_SIZE || start <= i)
    {
      if Installs(exists_, force) {
        if remote.None? {
          return Panic("both local and remote repo not exist, can not continue");
        }
        r := Install(remote.value, base64Decode, chunkSize, installFetchOk);
      } else {
        var f := new SparseFile.FromImage(localContents, localWritten);
        r := Done(f);
      }
    }

    /** A `Local` over a freshly installed file whose object starts with the
        metadata superblock is coherent, and its metadata area is resident. */
    static lemma NewCoherent(local: Local, sbBin: seq<byte>, chunkSize: Option<nat>)
      requires local.Valid() && local.remote.Some?
      requires var obj := local.remote.value.data;
        && local.file.bytes.Length == |obj| && |obj| >= SUPERBLOCK_SIZE && sbBin == obj[..SUPERBLOCK_SIZE]
        && local.inodeTableStart == DecodeSuperblock(local.file.bytes[..SUPERBLOCK_SIZE]).inodeTableStart
        && var start := InstallFetchStart(sbBin, chunkSize);
           && (forall i :: start <= i < |obj| ==> i in local.file.written && local.file.bytes[i] == obj[i])
           && (forall i :: 0 <= i < SUPERBLOCK_SIZE && i < start ==> local.file.bytes[i] == sbBin[i])
           && (forall i :: i in local.file.written ==> i < SUPERBLOCK_SIZE || start <= i)
      ensures local.Coherent() && local.MetadataResident()
    {
      InstalledCoherent(local.file, local.remote.value.data, sbBin, chunkSize);
    }

    /** `request_remote_data_task`. Without an object it does nothing and
        succeeds. Otherwise it widens `[start, start + reqSize)` to chunk
        boundaries, asks for that window as an inclusive range, and writes
        what arrives at the window's start; a transport failure or an
        unsatisfiable range is an error and writes nothing. */
    method RequestRemoteData(start: nat, reqSize: nat, transportOk: bool) returns (r: Result<(), IoErrorKind>)
      requires Valid()
      modifies this, file, file.bytes
      ensures Valid()
      ensures remote.None? ==> r.Ok? && unchanged(this, file, file.bytes)
      ensures remote.Some? ==>
        var w := FetchWindow(start, reqSize, chunkLog);
        var got := GetRange(remote.value.data, w.0, w.1 - 1);
        && sent == old(sent) + [RangeHeader(w.0, w.1 - 1)]
        && (r.Ok? <==> transportOk && got.Some?)
        && (r.Ok? ==> file.bytes[..] == Overlay(old(file.bytes[..]), w.0, got.value)
                      && forall i :: i in file.written <==>
                           i in old(file.written) || (w.0 <= i < w.0 + |got.value| && i < file.bytes.Length))
        && (r.Err? ==> unchanged(file, file.bytes))
      ensures old(Coherent()) ==> Coherent()
    {
      if remote.None? {
        return Ok(());
      }
      var w := FetchWindow(start, reqSize, chunkLog);
      sent := sent + [RangeHeader(w.0, w.1 - 1)];
      var got := GetRange(remote.value.data, w.0, w.1 - 1);
      if !transportOk || got.None? {
        return Err(OtherError);
      }
      ghost var before := file.bytes[..];
      ghost var wasCoherent := Coherent();
      file.WriteAt(w.0, got.value);
      if wasCoherent {
        forall i | i in file.written && SUPERBLOCK_SIZE <= i < file.bytes.Length
          ensures file.bytes[i] == remote.value.data[i]
        {
          assert file.bytes[i] == Overlay(before, w.0, got.value)[i];
        }
      }
      return Ok(());
    }
  }
}
