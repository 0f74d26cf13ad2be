# s3archivefs in Dafny

s3archivefs serves a SquashFS archive stored as one object in Amazon S3
without downloading the whole object. A local *sparse cache file* as long
as the object stands in for it: at install time it receives the
superblock (kept in the object's user metadata) and the metadata area
(from the inode table to the end). File data is fetched chunk by chunk
when the archive reader first reads it. A read hook sits in front of
libsquashfs's file read. It decides which bytes of a read are still holes
and fetches them. It decides either by testing the bytes for all zeros
(ALLZERO) or by asking the kernel for the next hole (LSEEK). On top of
this sit:

- the archive side: `stat` of an inode, a directory listing and
  extraction of one file;
- the Lambda front end: a virtual-prefix map from S3 listing prefixes to
  archive objects, the search key of a listing and paging of the listing
  with a continuation token;
- the FUSE front end: command-line filtering, and the `open` and
  `getxattr` guards.

The model has these modules:

- `Wrappers`: `Option`, `Result`, `Outcome` and `byte`. `Outcome`
  distinguishes a Rust `panic!`/`unwrap` failure (`Panic`) from a
  returned value.
- `Strings`: `split`, `join`, `starts_with`, `trim_start_matches`, and
  decimal format/parse of `usize`, with their round trips.
- `Chunking`: the pure arithmetic of `repo.rs`.
  - the chunk-size clamp and `chunk_log`;
  - chunk alignment of the fetch window;
  - the `Range` header;
  - `is_metadata_area`;
  - the superblock decoding and `get_metadata`.
- `SparseCache`:
  - the sparse file, as a class over an `array<byte>` with a ghost set of
    written offsets (holes read as zero);
  - the install path of `Local::new`;
  - class `Local` with `request_remote_data_task`, proved against the
    object's bytes.
- `ReadHook`: `is_zero` with `align_to::<u128>` and `archive_read_at`.
  The central property: on a cache coherent with the object, a read
  returns the object's bytes. As written, ALLZERO mode promises this only
  for a range that is all zeros or all data (see "## Findings");
  `ArchiveReadAtCorrected` promises it for every range.
- `Inodes`: the 14 SquashFS inode types, `stat` (as written, and with
  the corrected extended-file block count), `s_isreg`, the data-block
  size words and the "no xattrs" index.
- `Archive`:
  - `extract_one` (a block loop, then the tail fragment);
  - `traverse_tree`, a recursive method over a list object proved equal
    to a depth-first `Flatten`;
  - `file_list`.
- `VMap`: `PrefixVMap::new`, which loads lines and sorts the keys, and
  `query`, which does a two-way prefix `rfind` and splits the target URL.
- `Listing`: `get_repo_prefix`, `get_repo_search_top_and_key` and
  `filter_result`. `filter_result` is an in-place method, proved against
  a `Page` function. A lemma shows that resuming from the returned token
  yields the next page.
- `FuseArgs`:
  - the argument filter loop of the FUSE `main`, proved against a
    step function;
  - the forced single-threaded `-s`;
  - `ops_open` and `ops_getxattr`.

These things become parameters, because the model cannot perform them:

- the object store: the object's bytes and metadata, and whether a
  transfer completes;
- the base64 decoder;
- the `SEEK_HOLE` answer;
- the directory lookup result;
- the data reader's blocks and fragment;
- environment variables and the mapping file's lines;
- which write fails.

`hook_helper.rs` and `squashfs.rs` contain the same `archive_read_at` and
`is_zero`; the model has one copy, and the rows below cite
`hook_helper.rs`.

Where the source's comments and its code differ, the model follows the
code. One case: `PrefixVMap::new` says in a comment that a repeated
prefix is skipped, but `HashMap::insert` has already overwritten the
value, so the last line wins (`VMap.LoadLastWins`).

## Model

| member | source | states |
|---|---|---|
| Chunking.ClampChunkSize | s3archivefs/src/repo.rs:113-120 | an unset chunk size is 0; a size above 4 GiB becomes 4 GiB; any other size is kept |
| Chunking.FloorLog2 | s3archivefs/src/repo.rs:183 | the result r satisfies 2^r <= n < 2^(r+1) (floor of log2) |
| Chunking.ChunkLogBounds | s3archivefs/src/repo.rs:179-184 | the chunk is never smaller than a block; a requested size no larger than a block gives the block log; a larger one gives the largest power of two not above it |
| Chunking.AlignDown | s3archivefs/src/repo.rs:208 | the shifted-down offset is a multiple of the chunk, not above the offset, and less than one chunk below it |
| Chunking.FetchWindow | s3archivefs/src/repo.rs:208-211 | both window ends are chunk-aligned; the window starts at most one chunk before the request; it ends strictly after the request's end and at most one chunk past it |
| Chunking.FetchWindowChunks | s3archivefs/src/repo.rs:208-211 | the window spans a whole, positive number of chunks |
| Chunking.RangeHeaderRoundTrip | s3archivefs/src/repo.rs:70 | the `bytes=first-last` header parses back to exactly (first, last) |
| Chunking.IsMetadataArea | s3archivefs/src/repo.rs:267-274 | false below the inode table; true from the inode table up to the archive size inclusive; panic beyond it (each as an if-and-only-if) |
| Chunking.LeValueZero | s3archivefs/src/hook_helper.rs:10-14 | a little-endian word is zero if and only if each of its bytes is zero |
| Chunking.LeRoundTrip | s3archivefs/src/repo.rs:145-149 | decoding the little-endian encoding of a value that fits gives the value back |
| Chunking.DecodeSuperblock | s3archivefs/src/repo.rs:145-152 | the fields read from the 96 raw bytes fit their on-disk widths (u32 block size, u16 block log, u64 inode table start) |
| Chunking.GetMetadata | s3archivefs/src/repo.rs:44-66 | panics iff the object has no user metadata; a missing key reads as ""; InvalidData iff the decoded length is not 96; Ok carries 96 bytes and the object size |
| SparseCache.GetRange | s3archivefs/src/repo.rs:69-73 | the ranged GET succeeds iff first <= last and first is inside the object; it returns the object's bytes from first, cut at the object's end |
| SparseCache.FetchCovers | s3archivefs/src/repo.rs:208-222 | for a request inside the object, the GET of the widened window succeeds and its bytes cover the whole request |
| SparseCache.SparseFile.constructor | s3archivefs/src/repo.rs:130-139 | a new sparse file of the given length is all holes and reads as zeros |
| SparseCache.SparseFile.FromImage | s3archivefs/src/repo.rs:122-124 | an existing file keeps its bytes and its data offsets, and holes still read as zero |
| SparseCache.SparseFile.WriteAt | s3archivefs/src/repo.rs:142-143 | the bytes become the overlay of the data at the offset; exactly the offsets written inside the file become data |
| SparseCache.Install | s3archivefs/src/repo.rs:124-173 | succeeds iff the superblock, a non-empty object, a satisfiable range and the transfer are all there, and panics otherwise; on success: the file has the object's length (at least 96), the superblock is at 0, and the object's bytes from the aligned inode table start to the end are data |
| SparseCache.NewWithSuperblock | s3archivefs/src/repo.rs:130-143 | the new file is as long as the object (or the superblock, when longer), starts with the superblock, and holds data only in the superblock and at the last byte |
| SparseCache.WriteMetadataArea | s3archivefs/src/repo.rs:161-172 | every byte from the aligned start to the end of the object is data equal to the object's; the superblock bytes before that start are kept; nothing between the superblock and that start becomes data |
| SparseCache.InstalledCoherent | s3archivefs/src/repo.rs:138-172 | after install from an object whose head is its superblock: the file starts with the superblock, every data byte past it is the object's, and the whole metadata area is data |
| SparseCache.Local.Make | s3archivefs/src/repo.rs:188-195 | the fields are stored as given and no request has been sent yet |
| SparseCache.Local.OpenFile | s3archivefs/src/repo.rs:122-173 | the file is installed iff it is missing or `force` is set, and then exists exactly when Install succeeds and has its layout; otherwise it is the file found on disk, unchanged |
| SparseCache.Local.New | s3archivefs/src/repo.rs:109-196 | installs iff the file is missing or `force` is set, and then succeeds exactly as Install does; otherwise uses the file on disk unchanged and panics iff it is shorter than a superblock; chunk log and inode table start come from the file's superblock; when the object's first 96 bytes are its metadata superblock, the result is coherent with the object and its metadata is resident |
| SparseCache.Local.NewCoherent | s3archivefs/src/repo.rs:124-196 | a cache over a freshly installed file whose object starts with the superblock is coherent with the object and has its metadata area resident |
| SparseCache.Local.RequestRemoteData | s3archivefs/src/repo.rs:202-241 | without an object: Ok and nothing changes; otherwise sends the range header of the aligned window, is Ok iff the transfer and range succeed, then overlays the fetched bytes (marked as data), and on error leaves the file unchanged; keeps coherence with the object |
| ReadHook.StdioReadAt | s3archivefs/src/hook_helper.rs:100 | the wrapped read returns the bytes iff the range lies inside the file; otherwise it is out of bounds |
| ReadHook.AlignToU128 | s3archivefs/src/hook_helper.rs:10 | the prefix and the aligned middle fit in the buffer, and the middle is whole 16-byte words |
| ReadHook.WordsZero | s3archivefs/src/hook_helper.rs:12-14 | a run of 16-byte words is zero word by word iff it is zero byte by byte |
| ReadHook.IsZeroIff | s3archivefs/src/hook_helper.rs:9-15 | `is_zero` holds iff every byte is zero, whatever the buffer's alignment |
| ReadHook.AllZeroNewOffsetAsWritten | s3archivefs/src/hook_helper.rs:55-65 | as written: the result is the offset iff the buffer is all zeros, and otherwise the end of the read |
| ReadHook.AllZeroNewOffset | s3archivefs/src/hook_helper.rs:55-65 | corrected: the result is the first zero byte of the read (or its end); every byte before it is non-zero, hence data |
| ReadHook.AllZeroAgreesOnUniform | s3archivefs/src/hook_helper.rs:60-65 | on all-zero buffers and on buffers without zeros, the corrected and as-written tests agree |
| ReadHook.AllZeroAsWrittenMissesHoles | s3archivefs/src/hook_helper.rs:60-65 | on a buffer mixing zero and non-zero bytes, the as-written test fetches nothing while the corrected one does |
| ReadHook.AllZeroPartialHoleExample | s3archivefs/src/hook_helper.rs:60-65 | for the bytes [7, 0] read at offset 96, the as-written new offset is 98 (no fetch) and the corrected one is 97 |
| ReadHook.NewOffset | s3archivefs/src/hook_helper.rs:54-79 | ALLZERO: the first read's error iff it fails; otherwise the read offset iff the whole range is zero, and else the end of the read; LSEEK: the hole position, with ENXIO giving out-of-bounds and any other errno an I/O error |
| ReadHook.NewOffsetCorrected | s3archivefs/src/hook_helper.rs:54-79 | corrected ALLZERO: the first zero byte of the range (or its end), every byte before it non-zero; LSEEK as written |
| ReadHook.AllZeroStaleRead | s3archivefs/src/hook_helper.rs:58-65 | as written, a 2-byte read whose first byte is data and whose second is a hole gets the end of the read as new offset, so nothing is fetched and the read differs from the object's bytes |
| ReadHook.HeadWritten | s3archivefs/src/hook_helper.rs:54-80 | every byte between the read offset and the new offset is data: in ALLZERO mode for a range that is all zero or all data, in LSEEK mode for a truthful `SEEK_HOLE` answer |
| ReadHook.HeadWrittenCorrected | s3archivefs/src/hook_helper.rs:54-80 | corrected: every byte before the new offset is data on any range in ALLZERO mode, and for a truthful `SEEK_HOLE` answer in LSEEK mode |
| ReadHook.ArchiveReadAt | s3archivefs/src/hook_helper.rs:32-102 | panics iff the offset is past the archive in the metadata area; metadata reads go straight to the file; otherwise fetches the window from the source's new offset, failing with an I/O error; keeps coherence and metadata residency; on a coherent cache it returns the object's bytes when the hole probe is truthful (LSEEK) or the range is all zeros or all data (ALLZERO) |
| ReadHook.ArchiveReadAtCorrected | s3archivefs/src/hook_helper.rs:32-102 | corrected: the same steps with the first-zero-byte rule; on a coherent cache a read inside the object past the superblock returns the object's bytes in ALLZERO mode for every range, and in LSEEK mode for a truthful probe |
| ReadHook.ReadMetadata | s3archivefs/src/hook_helper.rs:44-47 | a metadata-area read goes straight to the file, and on a coherent cache with resident metadata returns the object's bytes |
| ReadHook.FetchAndRead | s3archivefs/src/hook_helper.rs:82-100 | nothing is fetched when the new offset is past the read or there is no object; otherwise one ranged GET of the chunk-aligned window is sent and its bytes are written before the file is read, or the read fails with an I/O error and the file is unchanged; on a coherent cache the read returns the object's bytes |
| ReadHook.FilledCoherent | s3archivefs/src/hook_helper.rs:83-100 | after the fetch, data before the new offset plus the fetched window cover the read, so a coherent cache returns the object's bytes |
| ReadHook.ReadCoherent | s3archivefs/src/hook_helper.rs:100 | a read of data bytes past the superblock of a coherent cache returns the object's bytes |
| Inodes.TypeCode | s3archivefs/src/squashfs.rs:654-736 | the type number is between 1 and 14, and is 1 or 8 iff the inode is a directory |
| Inodes.KindBits | s3archivefs/src/squashfs.rs:655-732 | each type ORs in non-zero bits inside S_IFMT; S_IFDIR iff a directory, S_IFREG iff a file |
| Inodes.SIsRegTypeBitsOnly | s3archivefs/src/squashfs.rs:16-18 | `s_isreg` ignores permission bits; it accepts regular-file bits and rejects directory bits |
| Inodes.FileBlocksCeil | s3archivefs/src/squashfs.rs:662-666 | a basic file's block count is the size in 512-byte units rounded up |
| Inodes.ExtFileBlocksAsWritten | s3archivefs/src/squashfs.rs:675 | as written in a release build, `(size + sparse - 511) >> 9` in u64 with wrap-around: the difference divided by 512, and below 511 the wrapped difference divided by 512 |
| Inodes.ExtFileBlocksMatchesBasic | s3archivefs/src/squashfs.rs:662-675 | corrected: an extended file without sparse bytes counts the same blocks as a basic one |
| Inodes.ExtFileBlocksAsWrittenWrong | s3archivefs/src/squashfs.rs:675 | for every non-sparse size below 2^64 the as-written count is wrong: too large below 511 bytes, too small from 511 on |
| Inodes.StatOf | s3archivefs/src/squashfs.rs:643-758 | as written: the link count is 1 for a basic file and the inode's own otherwise; size per type; rdev is the device number for block and character devices and 0 otherwise; blocks are the size rounded up to 512 for a basic file, the as-written count for an extended file, and 0 for every other type; inode number, owner and mtime are copied; every other time, dev and blksize are zero |
| Inodes.StatOfCorrected | s3archivefs/src/squashfs.rs:662-675 | corrected: every field as StatOf gives it except an extended file's blocks, which are its stored bytes (size minus sparse) rounded up to 512 |
| Inodes.StatModeType | s3archivefs/src/squashfs.rs:650-732 | for an inode whose mode agrees with its type, the stat mode has exactly that type's bits and the inode's permissions; it looks like a directory iff it is one |
| Inodes.DecodeBlockWord | s3archivefs/src/squashfs.rs:804-805 | the on-disk size is the low 24 bits |
| Inodes.BlockWordDecodeEncode | s3archivefs/src/squashfs.rs:804-805 | decoding an encoded block size gives it back |
| Inodes.BlockWordEncodeDecode | s3archivefs/src/squashfs.rs:804-805 | encoding a decoded 25-bit word gives it back |
| Inodes.CollectXattrs | s3archivefs/src/squashfs.rs:252-266 | nothing without a reader or for index 0xFFFFFFFF; otherwise the reader's answer |
| Archive.FileSize | s3archivefs/src/squashfs.rs:349-352 | the size of a file inode is its recorded size |
| Archive.RemainingClosedForm | s3archivefs/src/squashfs.rs:356-389 | after n passes of the block loop, what remains is size - n*block_size, or 0 once the blocks cover the size |
| Archive.FragmentIffTail | s3archivefs/src/squashfs.rs:391 | the fragment is read iff the size exceeds the full blocks |
| Archive.ExtractOne | s3archivefs/src/squashfs.rs:312-450 | a create failure, a missing entry and a non-regular file are errors with no output; it panics iff the lookup fails otherwise; a failing write stops with the blocks written so far; on success the output is all blocks, then the fragment iff a tail remains, and the size is returned |
| Archive.TraverseTree | s3archivefs/src/squashfs.rs:481-506 | appends exactly the depth-first flattening of the node's children to the list |
| Archive.FlattenPaths | s3archivefs/src/squashfs.rs:495-501 | every listed path starts with the current path followed by '/' |
| Archive.FlattenCount | s3archivefs/src/squashfs.rs:489-505 | the listing has one entry per non-directory node |
| Archive.FlattenNoDirectories | s3archivefs/src/squashfs.rs:494-501 | in a tree whose modes agree with their types, no listed entry is a directory |
| Archive.ListFiles | s3archivefs/src/squashfs.rs:508-538 | a missing entry gives an empty list; it panics iff the lookup fails otherwise; a found node gives the flattening below it under the given path, or "" when no path is given |
| Strings.ParseUsize | s3archivefs-fuse/src/main.rs:328 | accepts only an optional '+' and then decimal digits, with a value below 2^64 |
| Strings.ParseFormat | s3archivefs-fuse/src/main.rs:328 | any 64-bit value printed in decimal parses back to itself |
| VMap.InsertSorted | s3archivefs-lambda/src/vmap.rs:60-61 | inserting a new key into sorted keys keeps them sorted, adds exactly that key and grows the list by one |
| VMap.ParseLine | s3archivefs-lambda/src/vmap.rs:25-30 | a parsed prefix never starts with '/' |
| VMap.ParseLineRoundTrip | s3archivefs-lambda/src/vmap.rs:25-30 | a prefix, the separator and a target parse to the trimmed prefix and the target; the prefix "/" gives the root "" |
| VMap.ParseLineSkips | s3archivefs-lambda/src/vmap.rs:26-29 | a line with no separator or with two is skipped |
| VMap.LoadLastWins | s3archivefs-lambda/src/vmap.rs:30-35 | the last line naming a prefix decides its target |
| VMap.EnvLines | s3archivefs-lambda/src/vmap.rs:18-24 | at most 20 environment entries are read, in order, up to the first missing one |
| VMap.LoadEnv | s3archivefs-lambda/src/vmap.rs:18-36 | the map built from the environment is the environment lines loaded one after another into an empty map |
| VMap.LoadFile | s3archivefs-lambda/src/vmap.rs:43-55 | the map after the file is the file's lines loaded one after another into the map from the environment |
| VMap.LoadAppend | s3archivefs-lambda/src/vmap.rs:13-58 | loading two batches of lines in turn is loading their concatenation |
| VMap.SortedKeys | s3archivefs-lambda/src/vmap.rs:60-61 | the key list is sorted and holds exactly the map's keys |
| VMap.NewPrefixVMap | s3archivefs-lambda/src/vmap.rs:13-67 | the map is the environment lines, then the file's lines, loaded in order; the keys are exactly the map's prefixes, strictly sorted |
| VMap.MatchesTwoWay | s3archivefs-lambda/src/vmap.rs:73-79 | the rfind test holds iff one of key and query is a prefix of the other; the root "" matches everything |
| VMap.RFind | s3archivefs-lambda/src/vmap.rs:73-79 | the result is the index of the last matching key, or none when no key matches |
| VMap.SelectKeyGreatest | s3archivefs-lambda/src/vmap.rs:73-87 | the selected prefix is the greatest matching mapped prefix; nothing is selected iff none matches, which is impossible once "" is mapped |
| VMap.ParseUrl | s3archivefs-lambda/src/vmap.rs:90 | scheme, "://", host and path concatenate back to the target; the host has no '/'; the path is empty or starts with '/' |
| VMap.ParseTargetSound | s3archivefs-lambda/src/vmap.rs:91-102 | an accepted target has a non-empty bucket and object, the object has no '/', and the key is the object or `prefix/object` |
| VMap.ParseTargetRoundTrip | s3archivefs-lambda/src/vmap.rs:89-105 | `s3://bucket/prefix/object` is read back as (bucket, prefix, object) |
| VMap.Query | s3archivefs-lambda/src/vmap.rs:70-111 | the answer is the selected prefix with its target's parts; it exists iff a prefix is selected and its target parses |
| Listing.GetRepoPrefixSound | s3archivefs-lambda/src/main.rs:24-34 | a returned prefix puts the path back together as `prefix/object`, or as the object alone with prefix "" |
| Listing.GetRepoPrefixRoundTrip | s3archivefs-lambda/src/main.rs:24-34 | the prefix of `prefix/object` is prefix; a path ending in another name has none |
| Listing.SearchTopAndKeySound | s3archivefs-lambda/src/main.rs:37-45 | the search prefix is copies of the virtual prefix followed by the key; the key no longer starts with the virtual prefix; the key is `top/last` with no '/' in last |
| Listing.IndexOf | s3archivefs-lambda/src/main.rs:51 | the result is the first position of the name, or none when it is absent |
| Listing.Position | s3archivefs-lambda/src/main.rs:51 | the scan returns the first index whose path is the name, or none (IndexOf) |
| Listing.KeepMatchingExact | s3archivefs-lambda/src/main.rs:58 | `retain` keeps exactly the entries starting with the key |
| Listing.KeepMatchingAppend | s3archivefs-lambda/src/main.rs:58 | `retain` distributes over concatenation of listings |
| Listing.Retain | s3archivefs-lambda/src/main.rs:58 | the scan keeps exactly what KeepMatching keeps, in order |
| Listing.PageOf | s3archivefs-lambda/src/main.rs:60-65 | at most max_count entries, a prefix of the kept ones; a token is returned only when entries were cut, and it names the last entry kept; it panics iff max_count is 0 and something was kept |
| Listing.Truncate | s3archivefs-lambda/src/main.rs:60-65 | the listing is cut in place exactly as PageOf says, returning its token or its panic |
| Listing.Page | s3archivefs-lambda/src/main.rs:47-66 | the page holds at most max_count entries, all starting with the filter key; a token names its last entry |
| Listing.FilterResult | s3archivefs-lambda/src/main.rs:47-66 | the listing is edited in place to the page, and the return value is the token (or the panic) |
| Listing.KeepMatchingSplit | s3archivefs-lambda/src/main.rs:51-58 | the m-th kept entry sits at some position p, and the entries kept after p are the kept entries after the m-th |
| Listing.ResumePoint | s3archivefs-lambda/src/main.rs:51-58 | with distinct paths, resuming after the m-th kept entry starts just past it and keeps exactly the entries kept after it |
| Listing.ResumeContinues | s3archivefs-lambda/src/main.rs:374-394 | with distinct paths, asking again with the returned token gives the page that follows |
| FuseArgs.Step | s3archivefs-fuse/src/main.rs:254-310 | each pass consumes at least one argument |
| FuseArgs.FilterFromClean | s3archivefs-fuse/src/main.rs:254-310 | option values never start with '-'; nothing forwarded after the executable name is an application option; the forwarded list only grows |
| FuseArgs.FilterFromForwardsOthers | s3archivefs-fuse/src/main.rs:301-307 | arguments that are not application options are forwarded in order; help is set iff one of them is -h/--help |
| FuseArgs.ParseCommandLine | s3archivefs-fuse/src/main.rs:240-340 | empty argv panics; help shows the forwarded arguments; a missing bucket, key or cache file panics; otherwise mounts with the collected values, the parsed chunk size and "-s" appended unless present |
| FuseArgs.SingleThreaded | s3archivefs-fuse/src/main.rs:336-340 | on the mount path "-s" is forwarded once, last; only an executable named "-s" suppresses the append |
| FuseArgs.OpsOpen | s3archivefs-fuse/src/main.rs:34-44 | the result is 0 or -EACCES |
| FuseArgs.OpsOpenAccess | s3archivefs-fuse/src/main.rs:40-42 | read-only opens pass whatever their other flags; write-only and read-write opens are refused |
| FuseArgs.OpsGetxattr | s3archivefs-fuse/src/main.rs:152-174 | a null or empty name gives 0 without asking the archive; otherwise the archive's answer |

## Left out

- The libsquashfs calls are not modelled: superblock read, compressor, directory, data and xattr readers, and the read-function swap in `Archive::new_from_sparse` (s3archivefs/src/squashfs.rs:136-241). Their results are parameters.
- Archive.ExtractOne: the `ret > 0` checks on `sqfs_data_reader_get_block` and `get_fragment` are not modelled. libsquashfs reports errors as negative codes, so those panics cannot trigger. The block and fragment contents are parameters.
- Archive.ExtractOne: the metadata written after the data (permissions, mtime, owner, xattrs; s3archivefs/src/squashfs.rs:420-447) is not modelled. `collect_xattrs` is modelled separately as `Inodes.CollectXattrs`.
- Archive.FileSize: for an inode that passes `s_isreg` but is not a file inode, the source reads an uninitialised size. The model uses 0 there.
- The AWS SDK, the network and the S3 Object Lambda handlers (`get_object_handler`, `head_object_handler`, `list_objects_v2_handler`) are left out. They are I/O glue around the modelled functions.
- SparseCache.GetRange: the object store's reply to an inclusive range is assumed to follow RFC 7233: 416 past the end, cut at the end. The source delegates this to S3.
- `Remote::intall_archivefs` (an upload), `print_superblock`, `print_list`, `print_stat` and the other printing are left out: they are output only.
- Threads, `FileLock`, the tokio runtime and the `CONTEXT` thread-local are left out. Each call is modelled as happening alone, so concurrent fills of the same chunk are not modelled.
- Chunking.FloorLog2: `chunk_log` is computed in the source with `f32` `log2().floor()`. The model uses the exact integer floor. They differ only where `f32` rounding moves a value across a power of two.
- SparseCache.Local.New: `try_exists`, file creation and the file's existing contents are parameters. `Archive::new_from_sparse` is modelled only by reading the superblock back from the file.
- VMap.ParseUrl: `url::Url::parse` is replaced by a literal `scheme://host/path` split. It does no scheme lower-casing, ports, user info, percent-decoding or IDNA. An empty host counts as missing.
- VMap.Matches: `split_at` on a non-character boundary panics for non-ASCII prefixes. Strings are sequences of characters here, so that panic is not modelled.
- VMap.NewPrefixVMap: environment variables, the existence check of the mapping file and `read_to_string` are parameters: the list of entries and the optional list of lines. `str::lines` is not modelled.
- The hole-detection choice, the cache path and `Local::new` arguments of the Lambda handlers are left out.
- FuseArgs.OpsGetxattr: the archive's own `getxattr` is a parameter. The `debug!` call that dereferences the name before the null check is not modelled.
- The other FUSE callbacks (`getattr`, `readdir`, `read`, `readlink`, `release`, `listxattr`, `init`, `destroy`) are left out. They forward to the archive side modelled above.
- `show_help` and the `fuse_main` call are left out.
- Arithmetic widths: offsets and sizes are unbounded `nat`. Wrap-around is written out only where it matters: the `st_blocks` finding and `usize` parsing. File sizes, directory sizes and sparse counts of inodes are `u64`.
- Inodes.ExtFileBlocksAsWritten: the model is of a release build, where u64 arithmetic wraps. A debug build panics on the overflow at s3archivefs/src/squashfs.rs:675 instead.
- Inodes.StatOf: the `panic!` for an unknown inode type (s3archivefs/src/squashfs.rs:733-735) is not modelled. The inode datatype has exactly the 14 known types.
- Archive.ExtractOne: `output.write` at s3archivefs/src/squashfs.rs:376 and 404 may write fewer bytes than given, and the source ignores the count. The model treats every successful write as writing the whole block, so a short write is not modelled.
- Archive.TraverseTree: `CStr::to_str().unwrap()` panics on an entry name that is not UTF-8 (s3archivefs/src/squashfs.rs:497 and 500; also the `debug!` at 335 when debug logging is on). Names are strings of characters here, so that panic is not modelled. The same holds for Archive.ListFiles.

## Findings

| source | as written | input that shows it | evidently intended | confidence | as-written member | corrected member |
|---|---|---|---|---|---|---|
| s3archivefs/src/hook_helper.rs:60-65 (also s3archivefs/src/squashfs.rs:65-70) | ALLZERO mode fetches only when the whole buffer is zero; any non-zero byte marks the entire read as cached | a 2-byte read at offset 96 (past the superblock) whose first byte is cached (7) and whose second is a hole (0): new offset 98, nothing fetched, and the hole is returned as a zero | fetch from the first zero byte (a possible hole) onwards, as ReadHook.ArchiveReadAtCorrected does, so every read of a coherent cache returns the object's bytes | medium, not executed | ReadHook.AllZeroStaleRead | ReadHook.AllZeroNewOffset |
| s3archivefs/src/squashfs.rs:675 | `st_blocks = (size + sparse - 511) >> 9` in u64, which Inodes.StatOf and so the archive listing report | an extended file of 100 bytes with no sparse bytes: the subtraction wraps and gives a huge count; one of 600 bytes gives 0 instead of 2 | the bytes actually stored, rounded up: `(size - sparse + 511) >> 9`, equal to the basic-file count when sparse = 0 | high, not executed | Inodes.ExtFileBlocksAsWrittenWrong | Inodes.StatOfCorrected |
