/** The read hook installed in place of libsquashfs's file read
    (`archive_read_at` in s3archivefs/src/hook_helper.rs, repeated verbatim in
    s3archivefs/src/squashfs.rs): before the archive reader reads a range of
    the sparse file, the bytes of that range that are still holes are fetched
    from the object store. */
module ReadHook {
  import opened Wrappers
  import opened Chunking
  import opened SparseCache

  /** The libsquashfs error codes the hook returns. */
  datatype SqfsError = ErrorIo | ErrorOutOfBounds

  /** What a libsquashfs `read_at` produces: the bytes, or an error code. */
  datatype SqfsRead = Data(bytes: seq<byte>) | Failed(err: SqfsError)

  /** The outcome of `lseek(fd, offset, SEEK_HOLE)`: the offset of the next
      hole (the end of the file counts as one), `ENXIO` for an offset at or
      past the end, or some other failure. */
  datatype SeekHole = Hole(pos: nat) | Enxio | OtherErrno

  /** libsquashfs's stdio `read_at`, the read the hook wraps: an offset at or
      past the end, or a non-empty range reaching past the end, is out of
      bounds; an empty range inside the file reads nothing. */
  function StdioReadAt(file: seq<byte>, offset: nat, size: nat): (r: SqfsRead)
    ensures r.Data? <==> offset < |file| && offset + size <= |file|
    ensures r.Data? ==> |r.bytes| == size && forall i :: 0 <= i < size ==> r.bytes[i] == file[offset + i]
    ensures r.Failed? ==> r.err == ErrorOutOfBounds
  {
    if offset >= |file| then Failed(ErrorOutOfBounds)
    else if size == 0 then Data([])
    else if offset + size > |file| then Failed(ErrorOutOfBounds)
    else Data(file[offset..offset + size])
  }

  // ---------------------------------------------------------------------
  // is_zero

  predicate AllZeroBytes(bs: seq<byte>)
  {
    forall i :: 0 <= i < |bs| ==> bs[i] == 0
  }

  /** The alignment of `u128` on the target. */
  const U128_ALIGN: nat := 16

  /** `buf.align_to::<u128>()` for a buffer at address `addr`: the lengths of
      the unaligned prefix and of the aligned middle (a whole number of
      16-byte words); the rest is the suffix. */
  function AlignToU128(len: nat, addr: nat): (pm: (nat, nat))
    ensures pm.0 + pm.1 <= len && pm.1 % U128_ALIGN == 0
  {
    var p := Min((U128_ALIGN - addr % U128_ALIGN) % U128_ALIGN, len);
    (p, (len - p) / U128_ALIGN * U128_ALIGN)
  }

  /** The 16-byte little-endian words of `bs` (a trailing partial word is
      dropped). */
  function U128Words(bs: seq<byte>): (ws: seq<nat>)
    decreases |bs|
  {
    if |bs| < U128_ALIGN then [] else [LeValue(bs[..U128_ALIGN])] + U128Words(bs[U128_ALIGN..])
  }

  predicate WordsAllZero(ws: seq<nat>)
  {
    forall w :: 0 <= w < |ws| ==> ws[w] == 0
  }

  /** `is_zero`: the prefix bytes, the suffix bytes and the aligned words
      are all zero. */
  predicate IsZero(buf: seq<byte>, addr: nat)
  {
    var pm := AlignToU128(|buf|, addr);
    && AllZeroBytes(buf[..pm.0])
    && AllZeroBytes(buf[pm.0 + pm.1..])
    && WordsAllZero(U128Words(buf[pm.0..pm.0 + pm.1]))
  }

  lemma AllZeroConcat(a: seq<byte>, b: seq<byte>)
    ensures AllZeroBytes(a + b) <==> AllZeroBytes(a) && AllZeroBytes(b)
  {
    if AllZeroBytes(a + b) {
      forall i | 0 <= i < |b| ensures b[i] == 0 { assert b[i] == (a + b)[|a| + i]; }
      forall i | 0 <= i < |a| ensures a[i] == 0 { assert a[i] == (a + b)[i]; }
    }
  }

  lemma WordsAllZeroCons(x: nat, ws: seq<nat>)
    ensures WordsAllZero([x] + ws) <==> x == 0 && WordsAllZero(ws)
  {
    if WordsAllZero([x] + ws) {
      assert x == ([x] + ws)[0];
      forall w | 0 <= w < |ws| ensures ws[w] == 0 { assert ws[w] == ([x] + ws)[w + 1]; }
    }
  }

  /** A run of whole words is zero word by word exactly when it is zero byte
      by byte. */
  lemma {:induction false} WordsZero(bs: seq<byte>)
    requires |bs| % U128_ALIGN == 0
    ensures WordsAllZero(U128Words(bs)) <==> AllZeroBytes(bs)
    decreases |bs|
  {
    if |bs| >= U128_ALIGN {
      var head, tail := bs[..U128_ALIGN], bs[U128_ALIGN..];
      WordsZero(tail);
      LeValueZero(head);
      assert U128Words(bs) == [LeValue(head)] + U128Words(tail);
      WordsAllZeroCons(LeValue(head), U128Words(tail));
      assert bs == head + tail;
      AllZeroConcat(head, tail);
    }
  }

  /** However the buffer is split into prefix, words and suffix, `is_zero`
      holds exactly when every byte is zero. */
  lemma IsZeroIff(buf: seq<byte>, addr: nat)
    ensures IsZero(buf, addr) <==> AllZeroBytes(buf)
  {
    var pm := AlignToU128(|buf|, addr);
    var pre, mid, suf := buf[..pm.0], buf[pm.0..pm.0 + pm.1], buf[pm.0 + pm.1..];
    WordsZero(mid);
    assert buf == pre + mid + suf;
    if AllZeroBytes(pre) && AllZeroBytes(mid) && AllZeroBytes(suf) {
      forall i | 0 <= i < |buf| ensures buf[i] == 0 {
        if i < pm.0 { assert buf[i] == pre[i]; }
        else if i < pm.0 + pm.1 { assert buf[i] == mid[i - pm.0]; }
        else { assert buf[i] == suf[i - pm.0 - pm.1]; }
      }
    }
  }

  // ---------------------------------------------------------------------
  // Where the missing bytes start

  /** The index of the first zero byte (the length when there is none). */
  function FirstZero(bs: seq<byte>): (k: nat)
    ensures k <= |bs|
    ensures forall i :: 0 <= i < k ==> bs[i] != 0
    ensures k < |bs| ==> bs[k] == 0
  {
    if |bs| == 0 || bs[0] == 0 then 0
    else
      var k := FirstZero(bs[1..]);
      assert forall i :: 1 <= i < k + 1 ==> bs[i] == bs[1..][i - 1];
      k + 1
  }

  /** ALLZERO mode as written: an all-zero buffer is missing entirely, any
      other buffer is complete. */
  function AllZeroNewOffsetAsWritten(offset: nat, data: seq<byte>, addr: nat): (n: nat)
    ensures n == offset || n == offset + |data|
    ensures n == offset <==> AllZeroBytes(data)
  {
    IsZeroIff(data, addr);
    if IsZero(data, addr) then offset else offset + |data|
  }

  /** ALLZERO mode, corrected: the missing part starts at the first zero byte,
      since a hole reads as zero and every byte before it is non-zero, hence
      data. */
  function AllZeroNewOffset(offset: nat, data: seq<byte>, addr: nat): (n: nat)
    ensures offset <= n <= offset + |data|
    ensures forall k :: 0 <= k < n - offset ==> data[k] != 0
    ensures n < offset + |data| ==> data[n - offset] == 0
  {
    IsZeroIff(data, addr);
    if IsZero(data, addr) then offset else offset + FirstZero(data)
  }

  /** On a buffer that is all zeros, or has no zero byte at all, the corrected
      test agrees with the one as written. */
  lemma AllZeroAgreesOnUniform(offset: nat, data: seq<byte>, addr: nat)
    requires AllZeroBytes(data) || forall i :: 0 <= i < |data| ==> data[i] != 0
    ensures AllZeroNewOffset(offset, data, addr) == AllZeroNewOffsetAsWritten(offset, data, addr)
  {
    if |data| > 0 && AllZeroBytes(data) {
      assert data[0] == 0;
    }
  }

  /** The as-written test and the corrected one part ways exactly on buffers
      that mix data and zeros: there the as-written test reports nothing
      missing although a zero byte, possibly a hole, lies inside. */
  lemma AllZeroAsWrittenMissesHoles(offset: nat, data: seq<byte>, addr: nat)
    requires exists i :: 0 <= i < |data| && data[i] == 0
    requires exists j :: 0 <= j < |data| && data[j] != 0
    ensures AllZeroNewOffsetAsWritten(offset, data, addr) == offset + |data|
    ensures AllZeroNewOffset(offset, data, addr) < offset + |data|
  {
  }

  /** A concrete case: a two-byte read whose first byte was fetched and whose
      second byte is still a hole. */
  lemma AllZeroPartialHoleExample()
    ensures AllZeroNewOffsetAsWritten(96, [7, 0], 0) == 98
    ensures AllZeroNewOffset(96, [7, 0], 0) == 97
  {
    var data: seq<byte> := [7, 0];
    assert data[1] == 0 && data[0] != 0;
    AllZeroAsWrittenMissesHoles(96, data, 0);
  }

  /** `new_offset`: the first byte of `[offset, offset + size)` that may be
      missing, or the error the hook returns at once. ALLZERO reads the range
      first and returns that read's error; then the whole range counts as
      missing when every byte is zero and as present otherwise. LSEEK takes
      the `SEEK_HOLE` answer, `ENXIO` giving out-of-bounds and any other
      failure an I/O error. */
  function NewOffset(mode: HoleDetectMode, file: seq<byte>, offset: nat, size: nat, addr: nat, probe: SeekHole)
    : (r: Result<nat, SqfsError>)
    ensures mode == AllZero ==>
      && (r.Err? <==> StdioReadAt(file, offset, size).Failed?)
      && (r.Err? ==> r.error == ErrorOutOfBounds)
      && (r.Ok? ==> offset + size <= |file|
                    && (r.value == offset || r.value == offset + size)
                    && (r.value == offset <==> AllZeroBytes(file[offset..offset + size])))
    ensures mode == Lseek ==>
      && (r.Ok? <==> probe.Hole?)
      && (r.Ok? ==> r.value == probe.pos)
      && (probe == Enxio ==> r == Err(ErrorOutOfBounds))
      && (probe == OtherErrno ==> r == Err(ErrorIo))
  {
    match mode
    case AllZero =>
      (match StdioReadAt(file, offset, size)
       case Failed(e) => Err(e)
       case Data(d) =>
         assert d == file[offset..offset + size];
         Ok(AllZeroNewOffsetAsWritten(offset, d, addr)))
    case Lseek =>
      (match probe
       case Hole(pos) => Ok(pos)
       case Enxio => Err(ErrorOutOfBounds)
       case OtherErrno => Err(ErrorIo))
  }

  /** `new_offset` with the corrected ALLZERO rule: the missing part starts at
      the first zero byte of the range, every byte before it being non-zero.
      LSEEK is as written. */
  function NewOffsetCorrected(mode: HoleDetectMode, file: seq<byte>, offset: nat, size: nat, addr: nat, probe: SeekHole)
    : (r: Result<nat, SqfsError>)
    ensures mode == Lseek ==> r == NewOffset(mode, file, offset, size, addr, probe)
    ensures mode == AllZero ==>
      && (r.Err? <==> StdioReadAt(file, offset, size).Failed?)
      && (r.Err? ==> r.error == ErrorOutOfBounds)
      && (r.Ok? ==> offset <= r.value <= offset + size <= |file|
                    && (forall i :: offset <= i < r.value ==> file[i] != 0)
                    && (r.value < offset + size ==> file[r.value] == 0))
  {
    match mode
    case AllZero =>
      (match StdioReadAt(file, offset, size)
       case Failed(e) => Err(e)
       case Data(d) => Ok(AllZeroNewOffset(offset, d, addr)))
    case Lseek => NewOffset(mode, file, offset, size, addr, probe)
  }

  /** The source's ALLZERO rule at the hook: a two-byte read whose first
      byte was fetched and whose second is still a hole counts as present,
      so nothing is fetched and the read returns the hole's zero where the
      object has another byte. */
  lemma AllZeroStaleRead(file: seq<byte>, obj: seq<byte>, offset: nat, addr: nat, probe: SeekHole)
    requires offset + 2 <= |file| && offset + 2 <= |obj|
    requires file[offset] != 0 && file[offset + 1] == 0 && obj[offset + 1] != 0
    ensures NewOffset(AllZero, file, offset, 2, addr, probe) == Ok(offset + 2)
    ensures StdioReadAt(file, offset, 2) != Data(obj[offset..offset + 2])
  {
    var d := file[offset..offset + 2];
    assert d[0] != 0;
    assert StdioReadAt(file, offset, 2).bytes[1] != obj[offset..offset + 2][1];
  }

  /** The source's whole-buffer test is exact on a range that is either all
      zero (then all of it is fetched) or all data (then none is needed). */
  ghost predicate ZeroOrResident(f: SparseFile, offset: nat, size: nat)
    reads f, f.bytes
  {
    offset + size <= f.bytes.Length
    && (AllZeroBytes(f.bytes[offset..offset + size]) || forall i :: offset <= i < offset + size ==> i in f.written)
  }

  /** A `SEEK_HOLE` answer that tells the truth about the file: `ENXIO` only
      past the end, and otherwise a position at or after `offset`, no further
      than the end, with only data before it. */
  ghost predicate ProbeSound(file: SparseFile, offset: nat, probe: SeekHole)
    reads file
  {
    match probe
    case Hole(pos) =>
      offset < file.bytes.Length && offset <= pos <= file.bytes.Length
      && forall i :: offset <= i < pos ==> i in file.written
    case Enxio => offset >= file.bytes.Length
    case OtherErrno => false
  }

  // ---------------------------------------------------------------------
  // archive_read_at

  /** `archive_read_at`. A read in the metadata area (from the inode table to
      the end) goes straight to the file. Elsewhere the hook finds where the
      missing bytes start; if that is before the end of the read it asks for
      `[new_offset, offset + size)` from the object store (a failure is an
      I/O error), and then reads the file. An offset past the end of the
      archive panics in the metadata test.

      When the cache is coherent with the object, the metadata area is
      resident, the transfer works and the hole detection is accurate, a
      read inside the object past the superblock returns the object's
      bytes. Accurate means a truthful `SEEK_HOLE` answer in LSEEK mode; in
      ALLZERO mode the whole-buffer test is accurate only on a range that is
      all zero or all data (`ZeroOrResident`); on a range that mixes fetched
      bytes with holes it fetches nothing and returns the holes' zeros
      (`AllZeroStaleRead`). */
  method ArchiveReadAt(local: Local, offset: nat, size: nat, addr: nat, probe: SeekHole, transportOk: bool)
    returns (r: Outcome<SqfsRead>)
    requires local.Valid()
    modifies local, local.file, local.file.bytes
    ensures local.Valid()
    ensures old(local.Coherent()) ==> local.Coherent()
    ensures old(local.MetadataResident()) ==> local.MetadataResident()
    ensures r.Panic? <==> local.inodeTableStart <= offset && local.file.bytes.Length < offset
    ensures local.inodeTableStart <= offset <= local.file.bytes.Length ==>
      r == Done(StdioReadAt(old(local.file.bytes[..]), offset, size)) && unchanged(local, local.file, local.file.bytes)
    ensures offset < local.inodeTableStart ==>
      var m := NewOffset(local.hdmode, old(local.file.bytes[..]), offset, size, addr, probe);
      && (m.Err? ==> r == Done(Failed(m.error)) && unchanged(local, local.file, local.file.bytes))
      && (m.Ok? ==> r.Done? && FetchedAndRead(local, old(local.file.bytes[..]), old(local.file.written),
                                              old(local.sent), offset, size, m.value, transportOk, r.value))
    ensures old(local.Coherent() && local.MetadataResident()) && transportOk
            && SUPERBLOCK_SIZE <= offset && offset + size <= |local.remote.value.data|
            && offset < |local.remote.value.data|
            && (local.hdmode == Lseek ==> old(ProbeSound(local.file, offset, probe)))
            && (local.hdmode == AllZero ==> old(ZeroOrResident(local.file, offset, size))) ==>
      r == Done(Data(local.remote.value.data[offset..offset + size]))
  {
    var meta := IsMetadataArea(offset, local.inodeTableStart, local.file.bytes.Length);
    if meta.Panic? {
      return Panic(meta.msg);
    }
    if meta.value {
      var read := ReadMetadata(local, offset, size);
      return Done(read);
    }
    var m := NewOffset(local.hdmode, local.file.bytes[..], offset, size, addr, probe);
    if m.Err? {
      return Done(Failed(m.error));
    }
    if (local.hdmode == Lseek ==> ProbeSound(local.file, offset, probe))
       && (local.hdmode == AllZero ==> ZeroOrResident(local.file, offset, size)) {
      HeadWritten(local.file, local.hdmode, offset, size, addr, probe, m.value);
    }
    var read := FetchAndRead(local, offset, size, m.value, transportOk);
    return Done(read);
  }

  /** `archive_read_at` with the corrected ALLZERO rule (`NewOffsetCorrected`):
      the same steps, and on a coherent cache with a resident metadata area
      and a working transfer every read inside the object past the
      superblock returns the object's bytes, however fetched bytes and holes
      mix in the range. */
  method ArchiveReadAtCorrected(local: Local, offset: nat, size: nat, addr: nat, probe: SeekHole, transportOk: bool)
    returns (r: Outcome<SqfsRead>)
    requires local.Valid()
    modifies local, local.file, local.file.bytes
    ensures local.Valid()
    ensures old(local.Coherent()) ==> local.Coherent()
    ensures old(local.MetadataResident()) ==> local.MetadataResident()
    ensures r.Panic? <==> local.inodeTableStart <= offset && local.file.bytes.Length < offset
    ensures local.inodeTableStart <= offset <= local.file.bytes.Length ==>
      r == Done(StdioReadAt(old(local.file.bytes[..]), offset, size)) && unchanged(local, local.file, local.file.bytes)
    ensures offset < local.inodeTableStart ==>
      var m := NewOffsetCorrected(local.hdmode, old(local.file.bytes[..]), offset, size, addr, probe);
      && (m.Err? ==> r == Done(Failed(m.error)) && unchanged(local, local.file, local.file.bytes))
      && (m.Ok? ==> r.Done? && FetchedAndRead(local, old(local.file.bytes[..]), old(local.file.written),
                                              old(local.sent), offset, size, m.value, transportOk, r.value))
    ensures old(local.Coherent() && local.MetadataResident()) && transportOk
            && SUPERBLOCK_SIZE <= offset && offset + size <= |local.remote.value.data|
            && offset < |local.remote.value.data|
            && (local.hdmode == Lseek ==> old(ProbeSound(local.file, offset, probe))) ==>
      r == Done(Data(local.remote.value.data[offset..offset + size]))
  {
    var meta := IsMetadataArea(offset, local.inodeTableStart, local.file.bytes.Length);
    if meta.Panic? {
      return Panic(meta.msg);
    }
    if meta.value {
      var read := ReadMetadata(local, offset, size);
      return Done(read);
    }
    var m := NewOffsetCorrected(local.hdmode, local.file.bytes[..], offset, size, addr, probe);
    if m.Err? {
      return Done(Failed(m.error));
    }
    if local.hdmode == Lseek ==> ProbeSound(local.file, offset, probe) {
      HeadWrittenCorrected(local.file, local.hdmode, offset, size, addr, probe, m.value);
    }
    var read := FetchAndRead(local, offset, size, m.value, transportOk);
    return Done(read);
  }

  /** A read in the metadata area goes straight to the file; on a coherent
      cache whose metadata area is resident it returns the object's bytes. */
  method ReadMetadata(local: Local, offset: nat, size: nat) returns (r: SqfsRead)
    requires local.Valid() && local.inodeTableStart <= offset <= local.file.bytes.Length
    ensures r == StdioReadAt(local.file.bytes[..], offset, size)
    ensures local.Coherent() && local.MetadataResident() && SUPERBLOCK_SIZE <= offset
            && offset < |local.remote.value.data| && offset + size <= |local.remote.value.data| ==>
      r == Data(local.remote.value.data[offset..offset + size])
  {
    r := StdioReadAt(local.file.bytes[..], offset, size);
    if local.Coherent() && local.MetadataResident() && SUPERBLOCK_SIZE <= offset
       && offset < |local.remote.value.data| && offset + size <= |local.remote.value.data| {
      ReadCoherent(local, offset, size);
    }
  }

  /** What the hook leaves behind once it knows that the missing bytes start
      at `newOffset`, from the file's bytes, written offsets and sent
      requests before: nothing to fetch (the range is data, or there is no
      object) reads the file as it was; otherwise one ranged GET for the
      chunk-aligned window is sent, and either its bytes are written over
      the file and the file is read, or the read is an I/O error and the
      file is as it was. */
  ghost predicate FetchedAndRead(local: Local, bytes0: seq<byte>, written0: set<nat>, sent0: seq<string>,
                                 offset: nat, size: nat, newOffset: nat, transportOk: bool, r: SqfsRead)
    reads local, local.file, local.file.bytes
  {
    if offset + size <= newOffset || local.remote.None? then
      && r == StdioReadAt(bytes0, offset, size)
      && local.file.bytes[..] == bytes0 && local.file.written == written0 && local.sent == sent0
    else
      var w := FetchWindow(newOffset, offset + size - newOffset, local.chunkLog);
      var got := GetRange(local.remote.value.data, w.0, w.1 - 1);
      && local.sent == sent0 + [RangeHeader(w.0, w.1 - 1)]
      && (if transportOk && got.Some? then
            local.file.bytes[..] == Overlay(bytes0, w.0, got.value)
            && r == StdioReadAt(local.file.bytes[..], offset, size)
          else
            r == Failed(ErrorIo) && local.file.bytes[..] == bytes0 && local.file.written == written0)
  }

  /** The hook once it knows where the missing bytes start: fetch from
      `newOffset` to the end of the read when that is not empty (a failure
      is an I/O error), then read the file. */
  method FetchAndRead(local: Local, offset: nat, size: nat, newOffset: nat, transportOk: bool)
    returns (r: SqfsRead)
    requires local.Valid()
    modifies local, local.file, local.file.bytes
    ensures local.Valid()
    ensures old(local.Coherent()) ==> local.Coherent()
    ensures old(local.MetadataResident()) ==> local.MetadataResident()
    ensures FetchedAndRead(local, old(local.file.bytes[..]), old(local.file.written), old(local.sent),
                           offset, size, newOffset, transportOk, r)
    ensures old(local.Coherent()) && transportOk
            && SUPERBLOCK_SIZE <= offset && offset + size <= |local.remote.value.data|
            && offset < |local.remote.value.data|
            && (forall i :: offset <= i < newOffset ==> i in old(local.file.written)) ==>
      r == Data(local.remote.value.data[offset..offset + size])
  {
    ghost var bytes0, written, sent0 := local.file.bytes[..], local.file.written, local.sent;
    if newOffset < offset + size {
      var res := local.RequestRemoteData(newOffset, offset + size - newOffset, transportOk);
      if res.Err? {
        assert local.file.bytes[..] == bytes0 && local.file.written == written;
        return Failed(ErrorIo);
      }
    }
    assert offset + size <= newOffset || local.remote.None? ==>
      local.file.bytes[..] == bytes0 && local.file.written == written && local.sent == sent0;
    r := StdioReadAt(local.file.bytes[..], offset, size);
    if old(local.Coherent()) && transportOk
       && SUPERBLOCK_SIZE <= offset && offset + size <= |local.remote.value.data|
       && offset < |local.remote.value.data|
       && forall i :: offset <= i < newOffset ==> i in written {
      FilledCoherent(local, offset, size, newOffset, written);
    }
  }

  /** After the fetch, a read of a coherent cache past the superblock
      returns the object's bytes: those before `newOffset` were data already
      and the fetched window covers the rest. */
  lemma FilledCoherent(local: Local, offset: nat, size: nat, newOffset: nat, written: set<nat>)
    requires local.Valid() && local.Coherent()
    requires SUPERBLOCK_SIZE <= offset && offset < |local.remote.value.data| && offset + size <= |local.remote.value.data|
    requires forall i :: offset <= i < newOffset ==> i in written
    requires written <= local.file.written
    requires newOffset < offset + size ==>
      var w := FetchWindow(newOffset, offset + size - newOffset, local.chunkLog);
      var got := GetRange(local.remote.value.data, w.0, w.1 - 1);
      got.Some? && forall i :: w.0 <= i < w.0 + |got.value| && i < local.file.bytes.Length ==> i in local.file.written
    ensures StdioReadAt(local.file.bytes[..], offset, size) == Data(local.remote.value.data[offset..offset + size])
  {
    if newOffset < offset + size {
      FetchCovers(local.remote.value.data, newOffset, offset + size - newOffset, local.chunkLog);
    }
    ReadCoherent(local, offset, size);
  }

  /** The bytes the hook does not ask for are data: in ALLZERO mode, as
      written, on a range that is all zero or all data; in LSEEK mode before
      a truthful `SEEK_HOLE` answer. */
  lemma HeadWritten(f: SparseFile, mode: HoleDetectMode, offset: nat, size: nat, addr: nat, probe: SeekHole, n: nat)
    requires f.Valid()
    requires NewOffset(mode, f.bytes[..], offset, size, addr, probe) == Ok(n)
    requires mode == Lseek ==> ProbeSound(f, offset, probe)
    requires mode == AllZero ==> ZeroOrResident(f, offset, size)
    ensures forall i :: offset <= i < n ==> i in f.written
  {
    if mode == AllZero && n != offset {
      assert !AllZeroBytes(f.bytes[..][offset..offset + size]);
      assert f.bytes[..][offset..offset + size] == f.bytes[offset..offset + size];
    }
  }

  /** With the corrected ALLZERO rule the bytes the hook does not ask for are
      data on any range: each of them is non-zero, and a hole reads as zero. */
  lemma HeadWrittenCorrected(f: SparseFile, mode: HoleDetectMode, offset: nat, size: nat, addr: nat, probe: SeekHole, n: nat)
    requires f.Valid()
    requires NewOffsetCorrected(mode, f.bytes[..], offset, size, addr, probe) == Ok(n)
    requires mode == Lseek ==> ProbeSound(f, offset, probe)
    ensures forall i :: offset <= i < n ==> i in f.written
  {
    if mode == AllZero {
      forall i | offset <= i < n ensures i in f.written {
        assert f.bytes[..][i] != 0;
      }
    }
  }

  /** A read of data bytes past the superblock of a coherent cache returns
      the object's bytes. */
  lemma ReadCoherent(local: Local, offset: nat, size: nat)
    requires local.Valid() && local.Coherent()
    requires SUPERBLOCK_SIZE <= offset && offset < local.file.bytes.Length && offset + size <= local.file.bytes.Length
    requires forall i :: offset <= i < offset + size ==> i in local.file.written
    ensures StdioReadAt(local.file.bytes[..], offset, size) == Data(local.remote.value.data[offset..offset + size])
  {
  }
}
