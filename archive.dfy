/** The archive side of s3archivefs/src/squashfs.rs: extracting one regular
    file block by block (then its tail fragment), and flattening the
    directory tree the archive reader builds into `(path, stat)` pairs. The
    directory reader, data reader and output file are given inputs. */
module Archive {
  import opened Wrappers
  import opened Strings
  import opened Inodes

  /** A node of the tree `sqfs_dir_reader_get_full_hierarchy` builds; the
      first-child/next-sibling list of the source is the `children`
      sequence. */
  datatype TreeNode = TreeNode(name: string, inode: Inode, uid: nat, gid: nat, children: seq<TreeNode>)

  /** What looking a path up in the directory tree gives: the node, "no such
      entry", or another libsquashfs error code. */
  datatype Lookup = Found(node: TreeNode) | NoEntry | LookupFailed(code: int)

  // ---------------------------------------------------------------------
  // extract_one

  /** The errors `extract_one` returns to its caller. */
  datatype ExtractError = CreateFailed | EntryNotFound | NotRegularFile | WriteFailed

  /** The size `sqfs_inode_get_file_size` reports for a file inode. */
  function FileSize(d: InodeData): (s: nat)
    ensures d.File? || d.ExtFile? ==> s == d.size
  {
    match d
    case File(size) => size
    case ExtFile(size, _, _) => size
    case _ => 0
  }

  /** The number of data blocks of a file inode: four bytes of block-size
      list per block. */
  function BlockCount(inode: Inode): nat
  {
    inode.payloadBytesUsed / 4
  }

  /** The remaining size after `n` passes of the block loop, each taking
      away a whole block or whatever is left when that is less. */
  function Remaining(size: nat, blockSize: nat, n: nat): nat
  {
    if n == 0 then size
    else
      var left := Remaining(size, blockSize, n - 1);
      left - (if left < blockSize then left else blockSize)
  }

  /** After `n` passes exactly the bytes beyond the first `n` full blocks
      remain, and never less than nothing. */
  lemma {:induction false} RemainingClosedForm(size: nat, blockSize: nat, n: nat)
    ensures size >= n * blockSize ==> Remaining(size, blockSize, n) == size - n * blockSize
    ensures size < n * blockSize ==> Remaining(size, blockSize, n) == 0
  {
    if n > 0 {
      RemainingClosedForm(size, blockSize, n - 1);
      assert (n - 1) * blockSize + blockSize == n * blockSize;
    }
  }

  /** A tail fragment is read exactly when the file is larger than all its
      full blocks together. */
  lemma FragmentIffTail(size: nat, blockSize: nat, n: nat)
    ensures Remaining(size, blockSize, n) > 0 <==> size > n * blockSize
  {
    RemainingClosedForm(size, blockSize, n);
  }

  /** The first `n` data blocks as the data reader hands them over, one
      after another. */
  function Blocks(block: nat -> seq<byte>, n: nat): (r: seq<byte>)
    ensures n == 0 ==> r == []
  {
    if n == 0 then [] else Blocks(block, n - 1) + block(n - 1)
  }

  /** `Archive::extract_one`. The output file is created first; then the
      path is looked up (missing: `NotFound`; any other reader error
      panics) and must be a regular file. The block loop writes every data
      block (`block(i)`, what `sqfs_data_reader_get_block` returns) and
      takes `min(remaining, block_size)` off the remaining size; when bytes
      remain, the tail `fragment` is written. `writeFailsAt` is the index
      of the write that fails, if any (the fragment write has index
      `BlockCount`). On success the file size is returned. */
  method ExtractOne(createOk: bool, lookup: Lookup, blockSize: nat, block: nat -> seq<byte>,
                    fragment: seq<byte>, writeFailsAt: Option<nat>)
    returns (r: Outcome<Result<nat, ExtractError>>, created: bool, output: seq<byte>)
    ensures created == createOk
    ensures !createOk ==> r == Done(Err(CreateFailed)) && output == []
    ensures createOk && lookup.NoEntry? ==> r == Done(Err(EntryNotFound)) && output == []
    ensures createOk && lookup.LookupFailed? ==> r.Panic?
    ensures r.Panic? <==> createOk && lookup.LookupFailed?
    ensures createOk && lookup.Found? && !SIsReg(lookup.node.inode.mode) ==>
              r == Done(Err(NotRegularFile)) && output == []
    ensures createOk && lookup.Found? && SIsReg(lookup.node.inode.mode) ==>
              var inode := lookup.node.inode;
              var n := BlockCount(inode);
              var size := FileSize(inode.data);
              if writeFailsAt.Some? && writeFailsAt.value < n then
                r == Done(Err(WriteFailed)) && output == Blocks(block, writeFailsAt.value)
              else if writeFailsAt == Some(n) && size > n * blockSize then
                r == Done(Err(WriteFailed)) && output == Blocks(block, n)
              else
                r == Done(Ok(size)) &&
                output == Blocks(block, n) + (if size > n * blockSize then fragment else [])
  {
    created := createOk;
    output := [];
    if !createOk {
      return Done(Err(CreateFailed)), created, output;
    }
    if lookup.NoEntry? {
      return Done(Err(EntryNotFound)), created, output;
    }
    if lookup.LookupFailed? {
      return Panic("error loading directory tree"), created, output;
    }
    var inode := lookup.node.inode;
    if !SIsReg(inode.mode) {
      return Done(Err(NotRegularFile)), created, output;
    }
    var size := FileSize(inode.data);
    var fileSize := size;
    var blkCnt := BlockCount(inode);
    var i := 0;
    while i < blkCnt
      invariant 0 <= i <= blkCnt
      invariant fileSize == Remaining(size, blockSize, i)
      invariant output == Blocks(block, i)
      invariant writeFailsAt.Some? ==> writeFailsAt.value >= i
    {
      var read := if fileSize < blockSize then fileSize else blockSize;
      if writeFailsAt == Some(i) {
        return Done(Err(WriteFailed)), created, output;
      }
      output := output + block(i);
      fileSize := fileSize - read;
      i := i + 1;
    }
    FragmentIffTail(size, blockSize, blkCnt);
    if fileSize > 0 {
      if writeFailsAt == Some(blkCnt) {
        return Done(Err(WriteFailed)), created, output;
      }
      output := output + fragment;
    }
    return Done(Ok(size)), created, output;
  }

  // ---------------------------------------------------------------------
  // traverse_tree / file_list

  /** One element of the listing: the path and the `stat` of a file. */
  datatype Entry = Entry(path: string, stat: Stat)

  /** The listing of the nodes `children` under `currPath`, in depth-first
      order: a directory contributes its own listing under its path, any
      other node one entry. */
  function Flatten(children: seq<TreeNode>, currPath: string): seq<Entry>
    decreases children, 1
  {
    if children == [] then []
    else Flatten(children[..|children| - 1], currPath) + Visit(children[|children| - 1], currPath)
  }

  /** What one child contributes to the listing of its parent. */
  function Visit(child: TreeNode, currPath: string): seq<Entry>
    decreases child, 0
  {
    var path := currPath + "/" + child.name;
    if IsDirectory(child.inode.data) then Flatten(child.children, path)
    else [Entry(path, StatOf(child.inode, child.uid, child.gid))]
  }

  /** The number of non-directory nodes below the nodes `children`,
      themselves included. */
  function FileCount(children: seq<TreeNode>): nat
    decreases children
  {
    if children == [] then 0
    else
      var c := children[0];
      (if IsDirectory(c.inode.data) then FileCount(c.children) else 1) + FileCount(children[1..])
  }

  /** The list a directory walk fills (the `&mut Vec` of the source). */
  class FileList {
    var entries: seq<Entry>

    constructor ()
      ensures entries == []
    {
      entries := [];
    }
  }

  /** `Archive::traverse_tree`: walk the children of `n` in order; recurse
      into a directory with its path, append any other node with its path
      and `stat`. */
  method TraverseTree(n: TreeNode, currPath: string, vec: FileList)
    modifies vec
    ensures vec.entries == old(vec.entries) + Flatten(n.children, currPath)
    decreases n
  {
    var i := 0;
    while i < |n.children|
      invariant 0 <= i <= |n.children|
      invariant vec.entries == old(vec.entries) + Flatten(n.children[..i], currPath)
    {
      var child := n.children[i];
      assert n.children[..i + 1][..i] == n.children[..i];
      var path := currPath + "/" + child.name;
      if IsDirectory(child.inode.data) {
        TraverseTree(child, path, vec);
      } else {
        vec.entries := vec.entries + [Entry(path, StatOf(child.inode, child.uid, child.gid))];
      }
      i := i + 1;
    }
    assert n.children[..i] == n.children;
  }

  /** Every listed path lies below `currPath`. */
  lemma {:induction false} FlattenPaths(children: seq<TreeNode>, currPath: string)
    ensures forall k :: 0 <= k < |Flatten(children, currPath)| ==>
              StartsWith(Flatten(children, currPath)[k].path, currPath + "/")
    decreases children, 1
  {
    if children != [] {
      var init, last := children[..|children| - 1], children[|children| - 1];
      FlattenPaths(init, currPath);
      VisitPaths(last, currPath);
    }
  }

  lemma {:induction false} VisitPaths(child: TreeNode, currPath: string)
    ensures forall k :: 0 <= k < |Visit(child, currPath)| ==>
              StartsWith(Visit(child, currPath)[k].path, currPath + "/")
    decreases child, 0
  {
    var path := currPath + "/" + child.name;
    if IsDirectory(child.inode.data) {
      FlattenPaths(child.children, path);
      forall k | 0 <= k < |Visit(child, currPath)|
        ensures StartsWith(Visit(child, currPath)[k].path, currPath + "/")
      {
        var p := Visit(child, currPath)[k].path;
        assert StartsWith(p, path);
        assert p[..|currPath + "/"|] == path[..|currPath + "/"|];
      }
    }
  }

  /** The listing has one entry per non-directory node of the tree. */
  lemma {:induction false} FlattenCount(children: seq<TreeNode>, currPath: string)
    ensures |Flatten(children, currPath)| == FileCount(children)
    decreases children
  {
    if children != [] {
      var c := children[0];
      FlattenCount(children[1..], currPath);
      if IsDirectory(c.inode.data) {
        FlattenCount(c.children, currPath + "/" + c.name);
      }
      FlattenCons(children, currPath);
    }
  }

  /** `Flatten` read from the front: the first child's part, then the rest. */
  lemma {:induction false} FlattenCons(children: seq<TreeNode>, currPath: string)
    requires children != []
    ensures Flatten(children, currPath) == Visit(children[0], currPath) + Flatten(children[1..], currPath)
    decreases |children|
  {
    if |children| > 1 {
      var init := children[..|children| - 1];
      FlattenCons(init, currPath);
      assert init[1..] == children[1..][..|children[1..]| - 1];
      assert init[0] == children[0];
    } else {
      assert children[..0] == [];
      assert children[1..] == [];
    }
  }

  /** Every node of a tree has a mode that agrees with its type. */
  predicate ModesConsistent(children: seq<TreeNode>)
    decreases children
  {
    forall k :: 0 <= k < |children| ==>
      ModeConsistent(children[k].inode) && ModesConsistent(children[k].children)
  }

  /** A `stat` that describes a directory. */
  predicate StatIsDirectory(st: Stat)
  {
    st.mode & S_IFMT == S_IFDIR
  }

  /** Directories are never listed: in a tree whose modes agree with their
      types, no entry's `stat` is a directory's. */
  lemma {:induction false} FlattenNoDirectories(children: seq<TreeNode>, currPath: string)
    requires ModesConsistent(children)
    ensures forall k :: 0 <= k < |Flatten(children, currPath)| ==>
              !StatIsDirectory(Flatten(children, currPath)[k].stat)
    decreases children, 1
  {
    if children != [] {
      var init, last := children[..|children| - 1], children[|children| - 1];
      assert ModesConsistent(init) by {
        forall k | 0 <= k < |init| ensures ModeConsistent(init[k].inode) && ModesConsistent(init[k].children) {
          assert init[k] == children[k];
        }
      }
      FlattenNoDirectories(init, currPath);
      VisitNoDirectories(last, currPath);
    }
  }

  lemma {:induction false} VisitNoDirectories(child: TreeNode, currPath: string)
    requires ModeConsistent(child.inode) && ModesConsistent(child.children)
    ensures forall k :: 0 <= k < |Visit(child, currPath)| ==> !StatIsDirectory(Visit(child, currPath)[k].stat)
    decreases child, 0
  {
    if IsDirectory(child.inode.data) {
      FlattenNoDirectories(child.children, currPath + "/" + child.name);
    } else {
      StatModeType(child.inode, child.uid, child.gid);
    }
  }

  /** `Archive::file_list`: look the path up (no path: the root, listed
      under ""), list nothing for a missing entry, panic on any other reader
      error, and otherwise flatten the subtree below the node. */
  method ListFiles(path: Option<string>, lookup: Lookup) returns (r: Outcome<seq<Entry>>)
    ensures lookup.NoEntry? ==> r == Done([])
    ensures r.Panic? <==> lookup.LookupFailed?
    ensures lookup.Found? ==>
              r == Done(Flatten(lookup.node.children, if path.None? then "" else path.value))
  {
    var currPath := if path.None? then "" else path.value;
    var vec := new FileList();
    match lookup
    case NoEntry =>
      return Done(vec.entries);
    case LookupFailed(code) =>
      return Panic("error loading directory tree");
    case Found(n) =>
      TraverseTree(n, currPath, vec);
      assert vec.entries == [] + Flatten(n.children, currPath);
      assert vec.entries == Flatten(n.children, currPath);
      return Done(vec.entries);
  }
}
