/** SquashFS inodes as the archive reader hands them over, and how
    s3archivefs/src/squashfs.rs turns one into a `stat64`: the file-type bits,
    link count, size, device number and 512-byte block count per inode type.
    Also the data-block size words of a file inode (SquashFS 4.0 format) and
    the "no xattrs" index. */
module Inodes {
  import opened Wrappers

  // Linux `<sys/stat.h>` file-type bits.
  const S_IFMT: bv32 := 0xF000
  const S_IFSOCK: bv32 := 0xC000
  const S_IFLNK: bv32 := 0xA000
  const S_IFREG: bv32 := 0x8000
  const S_IFBLK: bv32 := 0x6000
  const S_IFDIR: bv32 := 0x4000
  const S_IFCHR: bv32 := 0x2000
  const S_IFIFO: bv32 := 0x1000

  /** The type-specific part of a SquashFS inode, one constructor per inode
      type (1 = DIR ... 14 = EXT_SOCKET). `size` of a file is what
      `sqfs_inode_get_file_size` reports (a `sqfs_u64`), `sparse` the
      64-bit count of sparse bytes of an extended file; `size` of a
      directory is its listing size. */
  datatype InodeData =
    | Dir(nlink: nat, size: u64)
    | File(size: u64)
    | Slink(nlink: nat, targetSize: nat)
    | Bdev(nlink: nat, devno: nat)
    | Cdev(nlink: nat, devno: nat)
    | Fifo(nlink: nat)
    | Socket(nlink: nat)
    | ExtDir(nlink: nat, size: u64)
    | ExtFile(size: u64, nlink: nat, sparse: u64)
    | ExtSlink(nlink: nat, targetSize: nat)
    | ExtBdev(nlink: nat, devno: nat)
    | ExtCdev(nlink: nat, devno: nat)
    | ExtFifo(nlink: nat)
    | ExtSocket(nlink: nat)

  /** An inode: the common header and the type-specific part.
      `payloadBytesUsed` is the size of the trailing block-size list of a
      file inode (four bytes per block). */
  datatype Inode = Inode(mode: bv16, inodeNumber: nat, modTime: nat, payloadBytesUsed: nat,
                         blockSizes: seq<nat>, data: InodeData)

  /** The on-disk inode type number. */
  function TypeCode(d: InodeData): (t: nat)
    ensures 1 <= t <= 14
    ensures (t == 1 || t == 8) <==> (d.Dir? || d.ExtDir?)
  {
    match d
    case Dir(_, _) => 1
    case File(_) => 2
    case Slink(_, _) => 3
    case Bdev(_, _) => 4
    case Cdev(_, _) => 5
    case Fifo(_) => 6
    case Socket(_) => 7
    case ExtDir(_, _) => 8
    case ExtFile(_, _, _) => 9
    case ExtSlink(_, _) => 10
    case ExtBdev(_, _) => 11
    case ExtCdev(_, _) => 12
    case ExtFifo(_) => 13
    case ExtSocket(_) => 14
  }

  predicate IsDirectory(d: InodeData) { d.Dir? || d.ExtDir? }

  /** The file-type bits `stat` ORs in for each inode type. */
  function KindBits(d: InodeData): (b: bv32)
    ensures b & S_IFMT == b && b != 0
    ensures b == S_IFDIR <==> IsDirectory(d)
    ensures b == S_IFREG <==> (d.File? || d.ExtFile?)
  {
    match d
    case File(_) => S_IFREG
    case ExtFile(_, _, _) => S_IFREG
    case Dir(_, _) => S_IFDIR
    case ExtDir(_, _) => S_IFDIR
    case Fifo(_) => S_IFIFO
    case ExtFifo(_) => S_IFIFO
    case Socket(_) => S_IFSOCK
    case ExtSocket(_) => S_IFSOCK
    case Bdev(_, _) => S_IFBLK
    case ExtBdev(_, _) => S_IFBLK
    case Cdev(_, _) => S_IFCHR
    case ExtCdev(_, _) => S_IFCHR
    case Slink(_, _) => S_IFLNK
    case ExtSlink(_, _) => S_IFLNK
  }

  /** `s_isreg`: the type bits of the mode are those of a regular file. */
  predicate SIsReg(mode: bv16)
  {
    S_IFMT & (mode as bv32) == S_IFREG
  }

  /** `s_isreg` looks at the type bits only: permission bits never change
      its answer, and a mode carrying exactly the regular-file type bits
      passes. */
  lemma SIsRegTypeBitsOnly(mode: bv16, perms: bv16)
    requires perms & 0xF000 == 0
    ensures SIsReg(mode | perms) <==> SIsReg(mode)
    ensures SIsReg(0x8000 | perms)
    ensures !SIsReg(0x4000 | perms)
  {
  }

  // ---------------------------------------------------------------------
  // Block counts

  const TWO_64: nat := 0x1_0000_0000_0000_0000

  /** An unsigned 64-bit value. */
  type u64 = x: nat | x < TWO_64

  /** `st_blocks` of a basic file: 0 when empty, else `((size - 1) >> 9) + 1`. */
  function FileBlocks(size: nat): nat
  {
    if size == 0 then 0 else (size - 1) / 512 + 1
  }

  /** The basic-file count is the number of 512-byte units needed to hold the
      size, rounded up. */
  lemma FileBlocksCeil(size: nat)
    ensures FileBlocks(size) * 512 >= size
    ensures FileBlocks(size) > 0 ==> (FileBlocks(size) - 1) * 512 < size
  {
  }

  /** `st_blocks` of an extended file as written: `(size + sparse - 511) >> 9`
      in 64-bit unsigned arithmetic with wrap-around (a release build; a
      debug build panics on the overflow instead). Below 511 the difference
      wraps to just under 2^64. */
  function ExtFileBlocksAsWritten(size: u64, sparse: u64): (b: nat)
    ensures b < TWO_64 / 512
    ensures 511 <= size + sparse < TWO_64 + 511 ==> b * 512 <= size + sparse - 511 < b * 512 + 512
    ensures size + sparse < 511 ==> b * 512 <= TWO_64 + size + sparse - 511 < b * 512 + 512
  {
    ((size + sparse - 511) % TWO_64) / 512
  }

  /** `st_blocks` of an extended file, corrected: the bytes actually stored
      (`size - sparse`) in 512-byte units, rounded up, as the Linux SquashFS
      driver computes it. */
  function ExtFileBlocks(size: nat, sparse: nat): nat
  {
    if sparse >= size then 0 else (size - sparse + 511) / 512
  }

  /** A file with no sparse bytes counts the same blocks whether its inode is
      basic or extended. */
  lemma ExtFileBlocksMatchesBasic(size: nat)
    ensures ExtFileBlocks(size, 0) == FileBlocks(size)
  {
  }

  /** The as-written count is wrong for every non-sparse extended file: below
      511 bytes the subtraction wraps to a huge count, and from 511 bytes on
      it is at least one block short. */
  lemma {:induction false} ExtFileBlocksAsWrittenWrong(size: u64)
    ensures size >= 511 ==> ExtFileBlocksAsWritten(size, 0) < ExtFileBlocks(size, 0)
    ensures size < 511 ==> ExtFileBlocksAsWritten(size, 0) > ExtFileBlocks(size, 0)
  {
    if size < 511 {
      assert (size - 511) % TWO_64 == TWO_64 + size - 511;
    } else {
      var q := (size - 511) / 512;
      assert (size - 511) % TWO_64 == size - 511;
      assert (size + 511) / 512 >= q + 1;
    }
  }

  // ---------------------------------------------------------------------
  // stat

  /** The `libc::stat64` fields `stat` fills in. */
  datatype Stat = Stat(dev: nat, ino: nat, nlink: nat, mode: bv32, uid: nat, gid: nat, rdev: nat,
                       size: nat, blksize: nat, blocks: nat,
                       atime: nat, atimeNsec: nat, mtime: nat, mtimeNsec: nat, ctime: nat, ctimeNsec: nat)

  /** The `stat` mode: the inode's mode with its type's bits ORed in. */
  function StatMode(mode: bv16, d: InodeData): bv32
  {
    (mode as bv32) | KindBits(d)
  }

  /** `Archive::stat` for a tree node's inode and owner: the inode's mode with
      its type bits ORed in, the per-type link count, size, device number and
      block count (the extended-file count as written, see
      `ExtFileBlocksAsWritten`); only the modification time comes from the
      inode. */
  function StatOf(inode: Inode, uid: nat, gid: nat): (st: Stat)
    ensures st.dev == 0 && st.blksize == 0 && st.atime == 0 && st.ctime == 0
    ensures st.atimeNsec == 0 && st.mtimeNsec == 0 && st.ctimeNsec == 0
    ensures st.ino == inode.inodeNumber && st.mtime == inode.modTime && st.uid == uid && st.gid == gid
    ensures st.mode == StatMode(inode.mode, inode.data)
    ensures inode.data.File? ==> st.nlink == 1
    ensures !inode.data.File? ==> st.nlink == inode.data.nlink
    ensures inode.data.File? || inode.data.ExtFile? ==> st.size == inode.data.size
    ensures inode.data.File? ==> st.blocks * 512 >= st.size && (st.blocks > 0 ==> (st.blocks - 1) * 512 < st.size)
    ensures inode.data.ExtFile? ==> st.blocks == ExtFileBlocksAsWritten(inode.data.size, inode.data.sparse)
    ensures IsDirectory(inode.data) ==> st.size == inode.data.size && st.blocks == 0
    ensures inode.data.Slink? || inode.data.ExtSlink? ==> st.size == inode.data.targetSize && st.blocks == 0
    ensures inode.data.Bdev? || inode.data.ExtBdev? || inode.data.Cdev? || inode.data.ExtCdev? ==>
            st.rdev == inode.data.devno
    ensures !(inode.data.Bdev? || inode.data.ExtBdev? || inode.data.Cdev? || inode.data.ExtCdev?) ==> st.rdev == 0
    ensures (inode.data.Fifo? || inode.data.ExtFifo? || inode.data.Socket? || inode.data.ExtSocket?
             || inode.data.Bdev? || inode.data.ExtBdev? || inode.data.Cdev? || inode.data.ExtCdev?) ==>
            st.size == 0 && st.blocks == 0
  {
    var base := Stat(0, inode.inodeNumber, 0, StatMode(inode.mode, inode.data), uid, gid, 0, 0, 0, 0, 0, 0, inode.modTime, 0, 0, 0);
    match inode.data
    case File(size) => FileBlocksCeil(size); base.(nlink := 1, size := size, blocks := FileBlocks(size))
    case ExtFile(size, nlink, sparse) => base.(nlink := nlink, size := size, blocks := ExtFileBlocksAsWritten(size, sparse))
    case Dir(nlink, size) => base.(nlink := nlink, size := size)
    case ExtDir(nlink, size) => base.(nlink := nlink, size := size)
    case Fifo(nlink) => base.(nlink := nlink)
    case ExtFifo(nlink) => base.(nlink := nlink)
    case Socket(nlink) => base.(nlink := nlink)
    case ExtSocket(nlink) => base.(nlink := nlink)
    case Bdev(nlink, devno) => base.(nlink := nlink, rdev := devno)
    case ExtBdev(nlink, devno) => base.(nlink := nlink, rdev := devno)
    case Cdev(nlink, devno) => base.(nlink := nlink, rdev := devno)
    case ExtCdev(nlink, devno) => base.(nlink := nlink, rdev := devno)
    case Slink(nlink, targetSize) => base.(nlink := nlink, size := targetSize)
    case ExtSlink(nlink, targetSize) => base.(nlink := nlink, size := targetSize)
  }

  /** `stat` with the corrected extended-file block count: every field as
      `StatOf` gives it except `st_blocks` of an extended file, which counts
      the stored bytes rounded up to 512, the same as a basic file of that
      stored size. */
  function StatOfCorrected(inode: Inode, uid: nat, gid: nat): (st: Stat)
    ensures st.(blocks := 0) == StatOf(inode, uid, gid).(blocks := 0)
    ensures !inode.data.ExtFile? ==> st.blocks == StatOf(inode, uid, gid).blocks
    ensures inode.data.ExtFile? ==>
            var stored := if inode.data.sparse >= inode.data.size then 0 else inode.data.size - inode.data.sparse;
            st.blocks * 512 >= stored && (st.blocks > 0 ==> (st.blocks - 1) * 512 < stored)
  {
    var st := StatOf(inode, uid, gid);
    match inode.data
    case ExtFile(size, _, sparse) =>
      var stored := if sparse >= size then 0 else size - sparse;
      assert ExtFileBlocks(size, sparse) == FileBlocks(stored);
      FileBlocksCeil(stored);
      st.(blocks := ExtFileBlocks(size, sparse))
    case _ => st
  }

  /** The inode's own mode agrees with its type: it carries no type bits, or
      exactly the ones of its type. */
  predicate ModeConsistent(inode: Inode)
  {
    var t := (inode.mode as bv32) & S_IFMT;
    t == 0 || t == KindBits(inode.data)
  }

  /** For an inode whose mode agrees with its type, the `stat` mode has
      exactly that type's bits and the inode's permission bits. So a
      directory never looks like anything else, and `s_isreg` of the result
      holds exactly for file inodes. */
  lemma StatModeType(inode: Inode, uid: nat, gid: nat)
    requires ModeConsistent(inode)
    ensures StatOf(inode, uid, gid).mode & S_IFMT == KindBits(inode.data)
    ensures StatOf(inode, uid, gid).mode & 0x0FFF == (inode.mode as bv32) & 0x0FFF
    ensures (StatOf(inode, uid, gid).mode & S_IFMT == S_IFDIR) <==> IsDirectory(inode.data)
  {
    var st := StatOf(inode, uid, gid);
    assert st.mode == StatMode(inode.mode, inode.data);
    StatModeBits(inode.mode, inode.data);
  }

  /** The `stat` mode computed from the inode's mode and type alone. */
  lemma StatModeBits(mode: bv16, d: InodeData)
    requires (mode as bv32) & S_IFMT == 0 || (mode as bv32) & S_IFMT == KindBits(d)
    ensures StatMode(mode, d) & S_IFMT == KindBits(d)
    ensures StatMode(mode, d) & 0x0FFF == (mode as bv32) & 0x0FFF
  {
    OrTypeBits(mode as bv32, KindBits(d));
  }

  /** ORing type bits into a mode that has none, or the same ones, leaves
      those type bits and the permission bits. */
  lemma OrTypeBits(m: bv32, k: bv32)
    requires k & 0xF000 == k
    requires m & 0xF000 == 0 || m & 0xF000 == k
    ensures (m | k) & 0xF000 == k
    ensures (m | k) & 0x0FFF == m & 0x0FFF
  {
  }

  // ---------------------------------------------------------------------
  // Data-block size words

  /** Bit 24 of a data-block size word: the block is stored uncompressed. */
  const BLOCK_UNCOMPRESSED: nat := 0x100_0000

  /** A data-block size word of a file inode: the on-disk size in the low 24
      bits, bit 24 set when the block is stored uncompressed. */
  datatype BlockSize = BlockSize(onDisk: nat, uncompressed: bool)

  /** Splits a 32-bit size word: `w & ((1 << 24) - 1)` and `w & (1 << 24)`. */
  function DecodeBlockWord(w: nat): (b: BlockSize)
    ensures b.onDisk < BLOCK_UNCOMPRESSED
  {
    BlockSize(w % BLOCK_UNCOMPRESSED, (w / BLOCK_UNCOMPRESSED) % 2 == 1)
  }

  /** The size word that stores `b`. */
  function EncodeBlockWord(b: BlockSize): nat
  {
    if b.uncompressed then b.onDisk + BLOCK_UNCOMPRESSED else b.onDisk
  }

  /** Decoding inverts encoding for every size that fits the 24-bit field. */
  lemma BlockWordDecodeEncode(b: BlockSize)
    requires b.onDisk < BLOCK_UNCOMPRESSED
    ensures DecodeBlockWord(EncodeBlockWord(b)) == b
  {
  }

  /** Encoding a decoded word gives back every word that uses no bit above
      bit 24. */
  lemma BlockWordEncodeDecode(w: nat)
    requires w < 2 * BLOCK_UNCOMPRESSED
    ensures EncodeBlockWord(DecodeBlockWord(w)) == w
  {
  }

  /** The index an inode carries when it has no extended attributes. */
  const NO_XATTR: nat := 0xFFFF_FFFF

  /** `collect_xattrs`: nothing without an xattr reader or for the "no
      xattrs" index; otherwise whatever the reader finds (`lookup`, which
      stands for the libsquashfs xattr reader). */
  function CollectXattrs(hasReader: bool, index: nat, lookup: nat -> Option<map<seq<byte>, seq<byte>>>)
    : (r: Option<map<seq<byte>, seq<byte>>>)
    ensures !hasReader || index == NO_XATTR ==> r.None?
    ensures hasReader && index != NO_XATTR ==> r == lookup(index)
  {
    if !hasReader then None
    else if index == NO_XATTR then None
    else lookup(index)
  }
}
