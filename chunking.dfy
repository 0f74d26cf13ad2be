/** The arithmetic of the sparse cache (s3archivefs/src/repo.rs): how the
    configured chunk size is clamped and turned into a power-of-two chunk
    length, how a missing byte range is widened to chunk boundaries and sent
    to the object store as an inclusive HTTP byte range, which offsets belong
    to the metadata area that is fetched at install time, and how the
    superblock attached to the object is accepted. */
module Chunking {
  import opened Wrappers
  import opened Strings

  /** Largest cache chunk a user may configure (`MAX_CHUNK_SIZE`, 4 GiB). */
  const MAX_CHUNK_SIZE: nat := 0x1_0000_0000

  /** `size_of::<sqfs_super_t>()`: the SquashFS 4.0 superblock is 96 bytes. */
  const SUPERBLOCK_SIZE: nat := 96

  function Pow2(k: nat): (r: nat)
    ensures r >= 1
  {
    if k == 0 then 1 else 2 * Pow2(k - 1)
  }

  lemma {:induction false} Pow2Monotonic(a: nat, b: nat)
    requires a <= b
    ensures Pow2(a) <= Pow2(b)
    decreases b
  {
    if a < b {
      Pow2Monotonic(a, b - 1);
    }
  }

  // ---------------------------------------------------------------------
  // Chunk size

  /** The `opt_chunk_size` clamp in `Local::new`: an unset size becomes 0
      (`unwrap_or_default`), a larger one is cut down to `MAX_CHUNK_SIZE`. */
  function ClampChunkSize(opt: Option<nat>): (r: nat)
    ensures r <= MAX_CHUNK_SIZE
    ensures opt.None? ==> r == 0
    ensures opt.Some? && opt.value <= MAX_CHUNK_SIZE ==> r == opt.value
    ensures opt.Some? && opt.value > MAX_CHUNK_SIZE ==> r == MAX_CHUNK_SIZE
  {
    match opt
    case None => 0
    case Some(x) => if x > MAX_CHUNK_SIZE then MAX_CHUNK_SIZE else x
  }

  /** The floor of the base-2 logarithm (the source computes it in `f32`). */
  function FloorLog2(n: nat): (r: nat)
    requires n >= 1
    ensures Pow2(r) <= n < 2 * Pow2(r)
  {
    if n == 1 then 0 else 1 + FloorLog2(n / 2)
  }

  /** `chunk_log`: the superblock's `block_log` when the requested chunk is not
      larger than a block, otherwise the floor of log2 of the requested size. */
  function ChunkLog(chunkSize: nat, blockSize: nat, blockLog: nat): nat
  {
    if chunkSize <= blockSize then blockLog else FloorLog2(chunkSize)
  }

  /** For a well-formed superblock (`block_size == 1 << block_log`) the chunk is
      a power of two never smaller than a block, and it never exceeds a
      requested size that is larger than a block. */
  lemma ChunkLogBounds(chunkSize: nat, blockLog: nat)
    ensures var r := ChunkLog(chunkSize, Pow2(blockLog), blockLog);
      && Pow2(r) >= Pow2(blockLog)
      && (chunkSize <= Pow2(blockLog) ==> r == blockLog)
      && (chunkSize > Pow2(blockLog) ==> Pow2(r) <= chunkSize < 2 * Pow2(r))
  {
    var r := ChunkLog(chunkSize, Pow2(blockLog), blockLog);
    if chunkSize > Pow2(blockLog) {
      if r < blockLog {
        Pow2Monotonic(r + 1, blockLog);
        assert false;
      }
      Pow2Monotonic(blockLog, r);
    }
  }

  // ---------------------------------------------------------------------
  // Alignment

  /** The product of a sign and a positive factor keeps the sign, at least one
      factor away from zero. */
  lemma MulSign(a: int, c: int)
    requires c > 0
    ensures a >= 1 ==> a * c >= c
    ensures a <= -1 ==> a * c <= -c
  {
  }

  /** A multiple of `c` leaves no remainder. */
  lemma MultipleMod(q: int, c: int)
    requires c > 0
    ensures (q * c) % c == 0
  {
    var t := q * c;
    var d, m := t / c, t % c;
    assert t == d * c + m;
    assert (q - d) * c == m;
    MulSign(q - d, c);
  }

  /** Rounding down to a multiple of a positive `c`. */
  lemma RoundDown(x: nat, c: nat)
    requires c > 0
    ensures (x - x % c) % c == 0
    ensures x % c <= x
  {
    var q, m := x / c, x % c;
    assert x == q * c + m;
    MulSign(q, c);
    MultipleMod(q, c);
  }

  /** Two distinct multiples of `c` lie a positive multiple of `c` apart. */
  lemma MultiplesApart(a: nat, b: nat, c: nat)
    requires c > 0 && a % c == 0 && b % c == 0 && a < b
    ensures (b - a) % c == 0 && b - a >= c
  {
    var p, q := a / c, b / c;
    assert a == p * c;
    assert b == q * c;
    assert b - a == (q - p) * c;
    MulSign(q - p, c);
    MultipleMod(q - p, c);
  }

  /** `(x >> k) << k`: round down to a multiple of `1 << k`. */
  function AlignDown(x: nat, k: nat): (r: nat)
    ensures r % Pow2(k) == 0
    ensures r <= x < r + Pow2(k)
  {
    var c := Pow2(k);
    RoundDown(x, c);
    x - x % c
  }

  /** The window `request_remote_data_task` fetches for the missing range
      `[start, start + reqSize)`: `(aligned_start, aligned_end)`. The end is the
      chunk boundary after the chunk holding `start + reqSize`, so a request
      ending exactly on a boundary still pulls in one more chunk. */
  function FetchWindow(start: nat, reqSize: nat, chunkLog: nat): (w: (nat, nat))
    ensures w.0 % Pow2(chunkLog) == 0 && w.1 % Pow2(chunkLog) == 0
    ensures w.0 <= start && start < w.0 + Pow2(chunkLog)
    ensures start + reqSize < w.1 <= start + reqSize + Pow2(chunkLog)
  {
    var c := Pow2(chunkLog);
    var d := AlignDown(start + reqSize, chunkLog);
    AddMultiple(d, c);
    (AlignDown(start, chunkLog), d + c)
  }

  /** Adding `c` to a multiple of `c` gives a multiple of `c`. */
  lemma AddMultiple(d: nat, c: nat)
    requires c > 0 && d % c == 0
    ensures (d + c) % c == 0
  {
    var q := d / c;
    assert d == q * c;
    assert d + c == (q + 1) * c;
    MultipleMod(q + 1, c);
  }

  /** The window is exactly chunk-sized: it spans a whole number of chunks and
      it never reaches a full chunk past the end of the request. */
  lemma FetchWindowChunks(start: nat, reqSize: nat, chunkLog: nat)
    ensures var w := FetchWindow(start, reqSize, chunkLog);
      && (w.1 - w.0) % Pow2(chunkLog) == 0
      && w.1 - w.0 >= Pow2(chunkLog)
  {
    var w := FetchWindow(start, reqSize, chunkLog);
    MultiplesApart(w.0, w.1, Pow2(chunkLog));
  }

  // ---------------------------------------------------------------------
  // The HTTP range sent to the object store

  /** `format!("bytes={}-{}", start, end)` with the inclusive last byte
      (section 2.1 of RFC 7233). */
  function RangeHeader(first: nat, last: nat): string
  {
    "bytes=" + ToDecimal(first) + "-" + ToDecimal(last)
  }

  /** How the object store reads a `bytes=first-last` header back. */
  function ParseRangeHeader(h: string): Option<(nat, nat)>
  {
    if !StartsWith(h, "bytes=") then None
    else
      var parts := Split(h[6..], '-');
      if |parts| == 2 && |parts[0]| > 0 && |parts[1]| > 0
         && AllDigits(parts[0]) && AllDigits(parts[1])
      then Some((DigitsValue(parts[0]), DigitsValue(parts[1])))
      else None
  }

  /** The range string names exactly the inclusive pair it was built from. */
  lemma RangeHeaderRoundTrip(first: nat, last: nat)
    ensures ParseRangeHeader(RangeHeader(first, last)) == Some((first, last))
  {
    var a, b := ToDecimal(first), ToDecimal(last);
    var h := RangeHeader(first, last);
    assert h[..6] == "bytes=";
    assert h[6..] == a + ['-'] + b;
    DecimalHasNo(first, '-');
    DecimalHasNo(last, '-');
    SplitAppend(a, '-', b);
    SplitNoSep(b, '-');
    DecimalValue(first);
    DecimalValue(last);
  }

  // ---------------------------------------------------------------------
  // Metadata area

  /** `is_metadata_area`: offsets below the inode table are file data; from the
      inode table up to the archive size (inclusive) are metadata; a larger
      offset panics. */
  function IsMetadataArea(offset: nat, inodeTableStart: nat, archiveSize: nat): (r: Outcome<bool>)
    ensures r == Done(false) <==> offset < inodeTableStart
    ensures r == Done(true) <==> inodeTableStart <= offset <= archiveSize
    ensures r.Panic? <==> inodeTableStart <= offset && archiveSize < offset
  {
    if offset < inodeTableStart then Done(false)
    else if offset > archiveSize then Panic("requested offset is larger than file size")
    else Done(true)
  }

  // ---------------------------------------------------------------------
  // Superblock

  /** A little-endian unsigned integer. */
  function LeValue(bs: seq<byte>): nat
  {
    if |bs| == 0 then 0 else (bs[0] as nat) + 256 * LeValue(bs[1..])
  }

  /** The `n` little-endian bytes of `x`. */
  function LeBytes(x: nat, n: nat): (bs: seq<byte>)
    ensures |bs| == n
  {
    if n == 0 then [] else [(x % 256) as byte] + LeBytes(x / 256, n - 1)
  }

  function Pow256(n: nat): (r: nat)
    ensures r >= 1
  {
    if n == 0 then 1 else 256 * Pow256(n - 1)
  }

  /** Encoding a value that fits and decoding it again gives it back. */
  lemma {:induction false} LeRoundTrip(x: nat, n: nat)
    requires x < Pow256(n)
    ensures LeValue(LeBytes(x, n)) == x
  {
    if n > 0 {
      LeRoundTrip(x / 256, n - 1);
      assert LeBytes(x, n)[1..] == LeBytes(x / 256, n - 1);
    }
  }

  /** A little-endian value is zero exactly when every byte is zero. */
  lemma {:induction false} LeValueZero(bs: seq<byte>)
    ensures LeValue(bs) == 0 <==> forall i :: 0 <= i < |bs| ==> bs[i] == 0
  {
    if |bs| > 0 {
      LeValueZero(bs[1..]);
      assert forall i :: 0 < i < |bs| ==> bs[i] == bs[1..][i - 1];
    }
  }

  /** The superblock fields the cache needs. */
  datatype Superblock = Superblock(blockSize: nat, blockLog: nat, inodeTableStart: nat)

  /** Reading a `sqfs_super_t` out of its 96 on-disk bytes (the source copies
      the bytes over the struct on a little-endian host): `block_size` at 12,
      `block_log` at 22, `inode_table_start` at 64. */
  function DecodeSuperblock(raw: seq<byte>): (sb: Superblock)
    requires |raw| == SUPERBLOCK_SIZE
    ensures sb.blockSize < Pow256(4) && sb.blockLog < Pow256(2) && sb.inodeTableStart < Pow256(8)
  {
    LeBound(raw[12..16]);
    LeBound(raw[22..24]);
    LeBound(raw[64..72]);
    Superblock(LeValue(raw[12..16]), LeValue(raw[22..24]), LeValue(raw[64..72]))
  }

  lemma {:induction false} LeBound(bs: seq<byte>)
    ensures LeValue(bs) < Pow256(|bs|)
  {
    if |bs| > 0 {
      LeBound(bs[1..]);
    }
  }

  /** The user-metadata key the superblock is attached under. */
  const SUPERBLOCK_META_KEY: string := "s3archivefs-superblock"

  datatype IoErrorKind = NotFound | InvalidData | OtherError

  /** `Remote::get_metadata`: the superblock comes from the object's user
      metadata, base64-encoded (the decoder is a parameter). No user metadata
      at all panics (`unwrap`); a missing key reads as the empty string; a
      decoding failure is `NotFound`; a decoded length other than the
      superblock's is `InvalidData`. */
  function GetMetadata(userMeta: Option<map<string, string>>, base64Decode: string -> Option<seq<byte>>,
                       filesize: int): (r: Outcome<Result<(seq<byte>, int), IoErrorKind>>)
    ensures r.Panic? <==> userMeta.None?
    ensures r.Done? && r.value.Ok? ==> |r.value.value.0| == SUPERBLOCK_SIZE && r.value.value.1 == filesize
    ensures r.Done? && r.value.Err? ==> r.value.error in {NotFound, InvalidData}
    ensures userMeta.Some? ==>
      var encoded := if SUPERBLOCK_META_KEY in userMeta.value then userMeta.value[SUPERBLOCK_META_KEY] else "";
      (r == Done(Err(InvalidData)) <==>
         base64Decode(encoded).Some? && |base64Decode(encoded).value| != SUPERBLOCK_SIZE)
  {
    match userMeta
    case None => Panic("called `Option::unwrap()` on a `None` value")
    case Some(m) =>
      var encoded := if SUPERBLOCK_META_KEY in m then m[SUPERBLOCK_META_KEY] else "";
      match base64Decode(encoded)
      case None => Done(Err(NotFound))
      case Some(sb) =>
        if |sb| != SUPERBLOCK_SIZE then Done(Err(InvalidData)) else Done(Ok((sb, filesize)))
  }
}
