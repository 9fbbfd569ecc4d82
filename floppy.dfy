/**
 * The path front end of floppy.cpp as functions of the filesystem image:
 * `readdir` resolves a path from the root inode, and each operation checks
 * the paths it is given, answers with 0 or a negated errno value, and
 * changes the image through the inode manager's operations.
 *
 * Replies are None where the source aborts: one of its own assertions, or
 * one of the inode manager's, fails.
 *
 * The operations that resize a file or a directory take the variant v of
 * `resize` they run: `AsWritten` is the source's own, `Corrected` the one
 * with its three defects repaired (see the Freeing and Resizing modules).
 */
module Floppy {
  import opened Bytes
  import opened Ext2
  import opened Blocks
  import opened Inodes
  import opened Freeing
  import opened Directories
  import opened Paths
  import Resizing

  /** The root directory's inode number. */
  const ROOT: u32 := 1

  /** The errno values the operations return, negated. */
  const ENOENT: int := 2
  const EEXIST: int := 17
  const ENOTDIR: int := 20
  const EISDIR: int := 21
  const ENOTEMPTY: int := 39

  /** The `rename` flags. */
  const RENAME_NOREPLACE: nat := 1
  const RENAME_EXCHANGE: nat := 2

  const U64_MOD: int := 0x1_0000_0000_0000_0000

  /** `size_t`, `uint64_t`. */
  type u64 = x: int | 0 <= x < U64_MOD

  /** `flags & bit` for a one-bit flag. */
  predicate HasFlag(flags: nat, bit: nat)
    requires bit == RENAME_NOREPLACE || bit == RENAME_EXCHANGE
  {
    (flags / bit) % 2 == 1
  }

  /** The conversion of an unsigned count to the `int` an operation returns. */
  function Int32(x: nat): (r: int)
    ensures -0x8000_0000 <= r < 0x8000_0000
    ensures x < 0x8000_0000 ==> r == x
  {
    var m := x % U32_MOD;
    if m >= 0x8000_0000 then m - U32_MOD else m
  }

  /** The image is one the operations work on: its geometry holds, its inode numbers fit 32 bits, and it has a root. */
  predicate Mounted(fs: Image, sb: SuperBlock, bgd: seq<GroupDesc>)
  {
    Geometry(sb, bgd) && Shaped(fs, Log(sb)) && InodeCountFits(sb, bgd) && ValidIid(sb, bgd, ROOT)
  }

  // ---------------------------------------------------------------------
  // readdir
  // ---------------------------------------------------------------------

  /** What `readdir` finds: an inode and its record, nothing, or an abort. */
  datatype Lookup = Found(iid: u32, ino: Inode) | Missing | Aborted

  /**
   * One step of `readdir`: `find_next(ino, name)` and `read_inode` of what
   * it finds. A dentry naming an inode outside the inode tables aborts.
   */
  function Next(fs: Image, sb: SuperBlock, bgd: seq<GroupDesc>, ino: Inode, name: seq<byte>): (r: Lookup)
    requires Geometry(sb, bgd) && Shaped(fs, Log(sb))
    ensures r.Found? ==> ValidIid(sb, bgd, r.iid) && r.ino == ReadInode(fs, sb, bgd, r.iid)
  {
    match FindOnDisk(fs, sb, bgd, ino, name)
    case None => Aborted
    case Some(None) => Missing
    case Some(Some(next)) =>
      if !ValidIid(sb, bgd, next) then Aborted else Found(next, ReadInode(fs, sb, bgd, next))
  }

  /**
   * The loop of `readdir(dir)` from token i on, standing at inode iid whose
   * record is ino: each token is looked up in the current inode, which
   * must be a directory unless the token is the last one (asserted).
   */
  function Walk(fs: Image, sb: SuperBlock, bgd: seq<GroupDesc>, path: seq<seq<byte>>, i: nat, iid: u32, ino: Inode): (r: Lookup)
    requires Geometry(sb, bgd) && Shaped(fs, Log(sb))
    requires ValidIid(sb, bgd, iid) && ino == ReadInode(fs, sb, bgd, iid)
    ensures r.Found? ==> ValidIid(sb, bgd, r.iid) && r.ino == ReadInode(fs, sb, bgd, r.iid)
    decreases |path| - i
  {
    if i >= |path| then Found(iid, ino)
    else if i < |path| - 1 && !HasModeBit(ino.mode, EXT2_S_IFDIR) then Aborted
    else
      match Next(fs, sb, bgd, ino, path[i])
      case Found(next, nino) => Walk(fs, sb, bgd, path, i + 1, next, nino)
      case other => other
  }

  /**
   * `readdir(dir)`: the empty path is the root; otherwise the tokens after
   * the first, empty, one are looked up from the root.
   */
  function ReadDir(fs: Image, sb: SuperBlock, bgd: seq<GroupDesc>, dir: seq<byte>): (r: Lookup)
    requires Mounted(fs, sb, bgd) && Absolute(dir)
    ensures r.Found? ==> ValidIid(sb, bgd, r.iid) && r.ino == ReadInode(fs, sb, bgd, r.iid)
  {
    if dir == [] then Found(ROOT, ReadInode(fs, sb, bgd, ROOT))
    else Walk(fs, sb, bgd, Tokens(dir), 1, ROOT, ReadInode(fs, sb, bgd, ROOT))
  }

  /** Both "" and "/" resolve to the root inode. */
  lemma ReadDirRoot(fs: Image, sb: SuperBlock, bgd: seq<GroupDesc>)
    requires Mounted(fs, sb, bgd)
    ensures ReadDir(fs, sb, bgd, []) == Found(ROOT, ReadInode(fs, sb, bgd, ROOT))
    ensures ReadDir(fs, sb, bgd, [SLASH]) == Found(ROOT, ReadInode(fs, sb, bgd, ROOT))
  {
    TokensOfRoot();
  }

  // ---------------------------------------------------------------------
  // read, write, truncate
  // ---------------------------------------------------------------------

  /**
   * `read(dir, buf, size, offset)`: the reply and the bytes put in buf;
   * -ENOENT for a missing path.
   */
  function Read(fs: Image, sb: SuperBlock, bgd: seq<GroupDesc>, dir: seq<byte>, size: u64, offset: u64): (r: Option<(int, seq<byte>)>)
    requires Mounted(fs, sb, bgd) && Absolute(dir)
  {
    match ReadDir(fs, sb, bgd, dir)
    case Aborted => None
    case Missing => Some((-ENOENT, []))
    case Found(iid, ino) => ReadAt(fs, sb, bgd, iid, ino.size, size, offset)
  }

  /**
   * `read` on inode iid of i_size isize: 0 and no bytes at or past the end
   * of the file; otherwise `read_inode_data` of size bytes cut at i_size,
   * and their count: min(size, i_size - offset) where offset + size does
   * not wrap around 64 bits.
   */
  function ReadAt(fs: Image, sb: SuperBlock, bgd: seq<GroupDesc>, iid: u32, isize: u32, size: u64, offset: u64): (r: Option<(int, seq<byte>)>)
    requires Geometry(sb, bgd) && Shaped(fs, Log(sb)) && ValidIid(sb, bgd, iid)
    ensures offset >= isize ==> r == Some((0, []))
    ensures offset < isize && offset + size < U64_MOD && r.Some? ==>
      r.value.0 == Int32(Min(size, isize - offset)) && |r.value.1| == Min(size, isize - offset)
  {
    if offset >= isize then Some((0, []))
    else
      var n := ReadCount(isize, size, offset);
      match ReadData(fs, sb, bgd, iid, offset, n)
      case None => None
      case Some(d) => Some((Int32(n), d))
  }

  /**
   * The count `read` asks for before i_size: size, cut to what is left
   * after offset when `offset + size`, in 64 bits, passes i_size.
   */
  function ReadCount(isize: u32, size: u64, offset: u64): (n: nat)
    requires offset < isize
    ensures offset + size < U64_MOD ==> n == Min(size, isize - offset)
  {
    if (offset + size) % U64_MOD > isize then isize - offset else size
  }

  /**
   * The replies of `read`: -ENOENT exactly for a missing path, 0 and no
   * bytes at or past the end of the file, and otherwise the count read and
   * as many bytes.
   */
  lemma ReadReply(fs: Image, sb: SuperBlock, bgd: seq<GroupDesc>, dir: seq<byte>, size: u64, offset: u64)
    requires Mounted(fs, sb, bgd) && Absolute(dir)
    ensures var r := Read(fs, sb, bgd, dir, size, offset); var c := ReadDir(fs, sb, bgd, dir);
      && (r == Some((-ENOENT, [])) <==> c.Missing?)
      && (c.Found? && offset >= c.ino.size ==> r == Some((0, [])))
      && (c.Found? && offset < c.ino.size && offset + size < U64_MOD && r.Some? ==>
            r.value.0 == Int32(Min(size, c.ino.size - offset)) && |r.value.1| == Min(size, c.ino.size - offset))
  {
  }

  /** A write's end, `offset + size` in 64 bits. */
  function End(offset: u64, size: nat): (r: u64)
    ensures offset + size < U64_MOD ==> r == offset + size
    ensures offset + size >= U64_MOD && size < U64_MOD ==> r < offset
  {
    (offset + size) % U64_MOD
  }

  /**
   * `write(dir, buf, size, offset)`: -ENOENT for a missing path, -EISDIR
   * where the inode is not a regular file.
   */
  function Write(v: Variant, fs: Image, sb: SuperBlock, bgd: seq<GroupDesc>, dir: seq<byte>, data: seq<byte>, offset: u64): (r: Option<Reply>)
    requires Mounted(fs, sb, bgd) && Absolute(dir) && |data| < U64_MOD
    ensures r.Some? ==> Shaped(r.value.fs, Log(sb))
  {
    match ReadDir(fs, sb, bgd, dir)
    case Aborted => None
    case Missing => Some(Reply(-ENOENT, fs))
    case Found(iid, ino) =>
      if !HasModeBit(ino.mode, EXT2_S_IFREG) then Some(Reply(-EISDIR, fs))
      else WriteAt(v, fs, sb, bgd, iid, ino.size, data, offset)
  }

  /**
   * `write` on the regular file iid of i_size isize: the file grows to the
   * write's end when that passes i_size, the data is written, and its size
   * is returned.
   */
  function WriteAt(v: Variant, fs: Image, sb: SuperBlock, bgd: seq<GroupDesc>, iid: u32, isize: u32, data: seq<byte>, offset: u64): (r: Option<Reply>)
    requires Geometry(sb, bgd) && Shaped(fs, Log(sb)) && ValidIid(sb, bgd, iid) && |data| < U64_MOD
    ensures r.Some? ==> Shaped(r.value.fs, Log(sb)) && r.value.code == Int32(|data|)
  {
    match Grow(v, fs, sb, bgd, iid, isize, End(offset, |data|))
    case None => None
    case Some(fs1) =>
      match WriteData(fs1, sb, bgd, iid, offset, data)
      case None => None
      case Some(fs2) => Some(Reply(Int32(|data|), fs2))
  }

  /** A write whose growing step left fs1 is the write of the data into fs1. */
  lemma WriteAtSteps(v: Variant, fs: Image, sb: SuperBlock, bgd: seq<GroupDesc>, iid: u32, isize: u32, data: seq<byte>, offset: u64, fs1: Image)
    requires Geometry(sb, bgd) && Shaped(fs, Log(sb)) && ValidIid(sb, bgd, iid) && |data| < U64_MOD
    requires Grow(v, fs, sb, bgd, iid, isize, End(offset, |data|)) == Some(fs1)
    ensures var w := WriteData(fs1, sb, bgd, iid, offset, data);
      WriteAt(v, fs, sb, bgd, iid, isize, data, offset) == if w.Some? then Some(Reply(Int32(|data|), w.value)) else None
  {
  }

  /** The growing step of `write`: `resize(iid, end)`, in 32 bits, only when end passes the file's size. */
  function Grow(v: Variant, fs: Image, sb: SuperBlock, bgd: seq<GroupDesc>, iid: u32, size: u32, end: u64): (r: Option<Image>)
    requires Geometry(sb, bgd) && Shaped(fs, Log(sb)) && ValidIid(sb, bgd, iid)
    ensures r.Some? ==> Shaped(r.value, Log(sb))
    ensures end <= size ==> r == Some(fs)
  {
    if end > size then Resizing.Resize(v, fs, sb, bgd, iid, end % U32_MOD) else Some(fs)
  }

  /** The record after `i_links_count_++`, in 16 bits. */
  function LinkUp(ino: Inode): (r: Inode)
    ensures r.linksCount == (ino.linksCount + 1) % 0x1_0000
  {
    ino.(linksCount := (ino.linksCount + 1) % 0x1_0000)
  }

  /** The record after `i_links_count_--`, in 16 bits: 0 becomes 0xFFFF. */
  function LinkDown(ino: Inode): (r: Inode)
    ensures r.linksCount == (ino.linksCount + 0xFFFF) % 0x1_0000
  {
    ino.(linksCount := (ino.linksCount + 0xFFFF) % 0x1_0000)
  }

  /** The reply of an operation that may change the image: its code and the image afterwards. */
  datatype Reply = Reply(code: int, fs: Image)

  /**
   * The replies of `write`: -ENOENT exactly for a missing path, -EISDIR
   * for an inode that is not a regular file, both with the image as it
   * was, and otherwise the size written.
   */
  lemma WriteReply(v: Variant, fs: Image, sb: SuperBlock, bgd: seq<GroupDesc>, dir: seq<byte>, data: seq<byte>, offset: u64)
    requires Mounted(fs, sb, bgd) && Absolute(dir) && |data| < U64_MOD
    ensures var r := Write(v, fs, sb, bgd, dir, data, offset);
      match ReadDir(fs, sb, bgd, dir)
      case Aborted => r.None?
      case Missing => r == Some(Reply(-ENOENT, fs))
      case Found(_, ino) =>
        if !HasModeBit(ino.mode, EXT2_S_IFREG) then r == Some(Reply(-EISDIR, fs))
        else r.Some? ==> r.value.code == Int32(|data|)
  {
  }

  /**
   * `truncate(dir, size)`: -ENOENT for a missing path, -EISDIR where the
   * inode is not a regular file; otherwise `resize(iid, size)`, the size
   * cut to 32 bits, and 0.
   */
  function Truncate(v: Variant, fs: Image, sb: SuperBlock, bgd: seq<GroupDesc>, dir: seq<byte>, size: u64): (r: Option<Reply>)
    requires Mounted(fs, sb, bgd) && Absolute(dir)
    ensures r.Some? ==> Shaped(r.value.fs, Log(sb))
    ensures r.Some? ==> r.value.code in {0, -ENOENT, -EISDIR}
    ensures r.Some? && r.value.code != 0 ==> r.value.fs == fs
  {
    match ReadDir(fs, sb, bgd, dir)
    case Aborted => None
    case Missing => Some(Reply(-ENOENT, fs))
    case Found(iid, ino) =>
      if !HasModeBit(ino.mode, EXT2_S_IFREG) then Some(Reply(-EISDIR, fs))
      else Done(Resizing.Resize(v, fs, sb, bgd, iid, size % U32_MOD))
  }

  /** The reply 0 with the image a step leaves; None where the step aborts. */
  function Done(o: Option<Image>): (r: Option<Reply>)
    ensures r.Some? <==> o.Some?
    ensures r.Some? ==> r.value == Reply(0, o.value)
  {
    match o
    case None => None
    case Some(fs) => Some(Reply(0, fs))
  }

  // ---------------------------------------------------------------------
  // create, mkdir
  // ---------------------------------------------------------------------

  /** The parent check shared by the operations: the parent directory, or the error to return. */
  datatype Parent = InDir(iid: u32, ino: Inode) | Fail(code: int) | Abort

  /**
   * `readdir(pName)` and the mode check after it: -ENOENT where the parent
   * path is missing, -ENOTDIR where it is not a directory.
   */
  function ParentDir(fs: Image, sb: SuperBlock, bgd: seq<GroupDesc>, dir: seq<byte>): (r: Parent)
    requires Mounted(fs, sb, bgd) && Absolute(dir)
    ensures r.InDir? ==> ValidIid(sb, bgd, r.iid) && r.ino == ReadInode(fs, sb, bgd, r.iid) && HasModeBit(r.ino.mode, EXT2_S_IFDIR)
    ensures r.Fail? ==> r.code == -ENOENT || r.code == -ENOTDIR
  {
    ParentAbsolute(dir);
    match ReadDir(fs, sb, bgd, SplitParent(dir).0)
    case Aborted => Abort
    case Missing => Fail(-ENOENT)
    case Found(piid, pino) =>
      if !HasModeBit(pino.mode, EXT2_S_IFDIR) then Fail(-ENOTDIR) else InDir(piid, pino)
  }

  /**
   * `create(dir, in)`: -EEXIST where the path resolves, the parent's error
   * where it has one; otherwise a new inode holding `in` is linked in the
   * parent under the last name of the path, and 0.
   */
  function Create(v: Variant, fs: Image, sb: SuperBlock, bgd: seq<GroupDesc>, dir: seq<byte>, ino: Inode): (r: Option<Reply>)
    requires Mounted(fs, sb, bgd) && Absolute(dir)
    ensures r.Some? ==> Shaped(r.value.fs, Log(sb))
  {
    match ReadDir(fs, sb, bgd, dir)
    case Aborted => None
    case Found(_, _) => Some(Reply(-EEXIST, fs))
    case Missing =>
      match ParentDir(fs, sb, bgd, dir)
      case Abort => None
      case Fail(code) => Some(Reply(code, fs))
      case InDir(piid, _) => Done(AddNew(v, fs, sb, bgd, piid, ino, SplitParent(dir).1))
  }

  /** `new_inode(in)`, then `dir_add_dentry(piid, new_iid, name)`. */
  function AddNew(v: Variant, fs: Image, sb: SuperBlock, bgd: seq<GroupDesc>, piid: u32, ino: Inode, name: seq<byte>): (r: Option<Image>)
    requires Geometry(sb, bgd) && Shaped(fs, Log(sb)) && InodeCountFits(sb, bgd) && ValidIid(sb, bgd, piid)
    ensures r.Some? ==> Shaped(r.value, Log(sb))
  {
    var (n, fs1) := NewInode(fs, sb, bgd, ino);
    match n
    case None => None
    case Some(iid) => DirAdd(v, fs1, sb, bgd, piid, iid, name)
  }

  /**
   * The replies of `create` and `mkdir`: -EEXIST exactly where the path
   * resolves, -ENOENT or -ENOTDIR exactly where it does not and the parent
   * has that error, all with the image as it was; 0 otherwise.
   */
  lemma CreateReply(v: Variant, fs: Image, sb: SuperBlock, bgd: seq<GroupDesc>, dir: seq<byte>, ino: Inode)
    requires Mounted(fs, sb, bgd) && Absolute(dir)
    ensures var r := Create(v, fs, sb, bgd, dir, ino);
      && (ReadDir(fs, sb, bgd, dir).Found? ==> r == Some(Reply(-EEXIST, fs)))
      && (ReadDir(fs, sb, bgd, dir).Missing? && ParentDir(fs, sb, bgd, dir).Fail? ==> r == Some(Reply(ParentDir(fs, sb, bgd, dir).code, fs)))
      && (r.Some? && r.value.code == 0 <==> ReadDir(fs, sb, bgd, dir).Missing? && ParentDir(fs, sb, bgd, dir).InDir? && r.Some?)
    ensures var r := Mkdir(v, fs, sb, bgd, dir, ino);
      && (ReadDir(fs, sb, bgd, dir).Found? ==> r == Some(Reply(-EEXIST, fs)))
      && (ReadDir(fs, sb, bgd, dir).Missing? && ParentDir(fs, sb, bgd, dir).Fail? ==> r == Some(Reply(ParentDir(fs, sb, bgd, dir).code, fs)))
      && (r.Some? && r.value.code == 0 <==> ReadDir(fs, sb, bgd, dir).Missing? && ParentDir(fs, sb, bgd, dir).InDir? && r.Some?)
  {
  }

  /**
   * `mkdir(dir, in)`: the checks of `create`; then the parent's link count
   * goes up by one (in 16 bits) and is written back, a new inode holding
   * `in` gets "." for itself and ".." for the parent, and the parent links
   * it under the last name of the path.
   */
  function Mkdir(v: Variant, fs: Image, sb: SuperBlock, bgd: seq<GroupDesc>, dir: seq<byte>, ino: Inode): (r: Option<Reply>)
    requires Mounted(fs, sb, bgd) && Absolute(dir)
    ensures r.Some? ==> Shaped(r.value.fs, Log(sb))
  {
    match ReadDir(fs, sb, bgd, dir)
    case Aborted => None
    case Found(_, _) => Some(Reply(-EEXIST, fs))
    case Missing =>
      match ParentDir(fs, sb, bgd, dir)
      case Abort => None
      case Fail(code) => Some(Reply(code, fs))
      case InDir(piid, pino) => Done(MakeDir(v, fs, sb, bgd, piid, pino, ino, SplitParent(dir).1))
  }

  /**
   * The parent piid, whose record is pino, gains a link; then `new_inode(in)`
   * and the three `dir_add_dentry` calls of `mkdir`.
   */
  function MakeDir(v: Variant, fs: Image, sb: SuperBlock, bgd: seq<GroupDesc>, piid: u32, pino: Inode, ino: Inode, name: seq<byte>): (r: Option<Image>)
    requires Geometry(sb, bgd) && Shaped(fs, Log(sb)) && InodeCountFits(sb, bgd) && ValidIid(sb, bgd, piid)
    ensures r.Some? ==> Shaped(r.value, Log(sb))
  {
    var fs1 := WriteInode(fs, sb, bgd, piid, LinkUp(pino));
    var (n, fs2) := NewInode(fs1, sb, bgd, ino);
    match n
    case None => None
    case Some(iid) => AddDots(v, fs2, sb, bgd, piid, iid, name)
  }

  /** `dir_add_dentry(iid, iid, ".")`, then the entries of `AddUp`. */
  function AddDots(v: Variant, fs: Image, sb: SuperBlock, bgd: seq<GroupDesc>, piid: u32, iid: u32, name: seq<byte>): (r: Option<Image>)
    requires Geometry(sb, bgd) && Shaped(fs, Log(sb)) && ValidIid(sb, bgd, piid) && ValidIid(sb, bgd, iid)
    ensures r.Some? ==> Shaped(r.value, Log(sb))
  {
    match DirAdd(v, fs, sb, bgd, iid, iid, DOT)
    case None => None
    case Some(fs1) => AddUp(v, fs1, sb, bgd, piid, iid, name)
  }

  /** `dir_add_dentry(iid, piid, "..")`, then `dir_add_dentry(piid, iid, name)`. */
  function AddUp(v: Variant, fs: Image, sb: SuperBlock, bgd: seq<GroupDesc>, piid: u32, iid: u32, name: seq<byte>): (r: Option<Image>)
    requires Geometry(sb, bgd) && Shaped(fs, Log(sb)) && ValidIid(sb, bgd, piid) && ValidIid(sb, bgd, iid)
    ensures r.Some? ==> Shaped(r.value, Log(sb))
  {
    match DirAdd(v, fs, sb, bgd, iid, piid, DOTDOT)
    case None => None
    case Some(fs1) => DirAdd(v, fs1, sb, bgd, piid, iid, name)
  }

  // ---------------------------------------------------------------------
  // unlink, rmdir
  // ---------------------------------------------------------------------

  /**
   * `unlink(dir)`: -ENOENT for a missing path, -EISDIR where it is not a
   * regular file, the parent's error where it has one; otherwise the name
   * leaves the parent and the file loses a link, and 0.
   */
  function Unlink(v: Variant, fs: Image, sb: SuperBlock, bgd: seq<GroupDesc>, dir: seq<byte>): (r: Option<Reply>)
    requires Mounted(fs, sb, bgd) && Absolute(dir)
    ensures r.Some? ==> Shaped(r.value.fs, Log(sb))
  {
    match ReadDir(fs, sb, bgd, dir)
    case Aborted => None
    case Missing => Some(Reply(-ENOENT, fs))
    case Found(ciid, cino) =>
      if !HasModeBit(cino.mode, EXT2_S_IFREG) then Some(Reply(-EISDIR, fs))
      else
        match ParentDir(fs, sb, bgd, dir)
        case Abort => None
        case Fail(code) => Some(Reply(code, fs))
        case InDir(piid, _) => Done(Unlinked(v, fs, sb, bgd, piid, SplitParent(dir).1, ciid, cino))
  }

  /** `dir_del_dentry(piid, name)`, then the link count of the file, as read before, goes down. */
  function Unlinked(v: Variant, fs: Image, sb: SuperBlock, bgd: seq<GroupDesc>, piid: u32, name: seq<byte>, ciid: u32, cino: Inode): (r: Option<Image>)
    requires Geometry(sb, bgd) && Shaped(fs, Log(sb)) && ValidIid(sb, bgd, piid) && ValidIid(sb, bgd, ciid)
    ensures r.Some? ==> Shaped(r.value, Log(sb))
  {
    match DirDel(fs, sb, bgd, piid, name)
    case None => None
    case Some(fs1) => DropLink(v, fs1, sb, bgd, ciid, cino)
  }

  /**
   * `i_links_count_--` (in 16 bits): at 0 the file is emptied and its inode
   * freed, otherwise the record with the new count is written back.
   */
  function DropLink(v: Variant, fs: Image, sb: SuperBlock, bgd: seq<GroupDesc>, iid: u32, ino: Inode): (r: Option<Image>)
    requires Geometry(sb, bgd) && Shaped(fs, Log(sb)) && ValidIid(sb, bgd, iid)
    ensures r.Some? ==> Shaped(r.value, Log(sb))
  {
    var dropped := LinkDown(ino);
    if dropped.linksCount == 0 then Release(v, fs, sb, bgd, iid)
    else Some(WriteInode(fs, sb, bgd, iid, dropped))
  }

  /** `resize(iid, 0)`, then `del_inode(iid)`. */
  function Release(v: Variant, fs: Image, sb: SuperBlock, bgd: seq<GroupDesc>, iid: u32): (r: Option<Image>)
    requires Geometry(sb, bgd) && Shaped(fs, Log(sb)) && ValidIid(sb, bgd, iid)
    ensures r.Some? ==> Shaped(r.value, Log(sb))
  {
    match Resizing.Resize(v, fs, sb, bgd, iid, 0)
    case None => None
    case Some(fs1) => DelInode(fs1, sb, bgd, iid)
  }

  /**
   * `rmdir(dir)`: -ENOENT for a missing path, -ENOTDIR where it is not a
   * directory, -ENOTEMPTY unless `dir_empty`, the parent's error where it
   * has one; otherwise the name leaves the parent, the directory is
   * emptied and its inode freed, and 0. The parent's link count stays.
   */
  function Rmdir(v: Variant, fs: Image, sb: SuperBlock, bgd: seq<GroupDesc>, dir: seq<byte>): (r: Option<Reply>)
    requires Mounted(fs, sb, bgd) && Absolute(dir)
    ensures r.Some? ==> Shaped(r.value.fs, Log(sb))
  {
    match ReadDir(fs, sb, bgd, dir)
    case Aborted => None
    case Missing => Some(Reply(-ENOENT, fs))
    case Found(ciid, cino) =>
      if !HasModeBit(cino.mode, EXT2_S_IFDIR) then Some(Reply(-ENOTDIR, fs))
      else
        match DirEmpty(fs, sb, bgd, ciid)
        case None => None
        case Some(false) => Some(Reply(-ENOTEMPTY, fs))
        case Some(true) =>
          match ParentDir(fs, sb, bgd, dir)
          case Abort => None
          case Fail(code) => Some(Reply(code, fs))
          case InDir(piid, _) => Done(Removed(v, fs, sb, bgd, piid, SplitParent(dir).1, ciid))
  }

  /** `dir_del_dentry(piid, name)`, `resize(ciid, 0)`, `del_inode(ciid)`. */
  function Removed(v: Variant, fs: Image, sb: SuperBlock, bgd: seq<GroupDesc>, piid: u32, name: seq<byte>, ciid: u32): (r: Option<Image>)
    requires Geometry(sb, bgd) && Shaped(fs, Log(sb)) && ValidIid(sb, bgd, piid) && ValidIid(sb, bgd, ciid)
    ensures r.Some? ==> Shaped(r.value, Log(sb))
  {
    match DirDel(fs, sb, bgd, piid, name)
    case None => None
    case Some(fs1) => Release(v, fs1, sb, bgd, ciid)
  }

  /**
   * The replies of `unlink`: each error exactly where its check fails
   * first, with the image as it was, and 0 otherwise.
   */
  lemma UnlinkReply(v: Variant, fs: Image, sb: SuperBlock, bgd: seq<GroupDesc>, dir: seq<byte>)
    requires Mounted(fs, sb, bgd) && Absolute(dir)
    ensures var r := Unlink(v, fs, sb, bgd, dir); var c := ReadDir(fs, sb, bgd, dir);
      && (c.Missing? ==> r == Some(Reply(-ENOENT, fs)))
      && (c.Found? && !HasModeBit(c.ino.mode, EXT2_S_IFREG) ==> r == Some(Reply(-EISDIR, fs)))
      && (c.Found? && HasModeBit(c.ino.mode, EXT2_S_IFREG) && ParentDir(fs, sb, bgd, dir).Fail? ==>
            r == Some(Reply(ParentDir(fs, sb, bgd, dir).code, fs)))
      && (r.Some? && r.value.code == 0 <==> c.Found? && HasModeBit(c.ino.mode, EXT2_S_IFREG) && ParentDir(fs, sb, bgd, dir).InDir? && r.Some?)
  {
  }

  /**
   * The replies of `rmdir`: each error exactly where its check fails
   * first, with the image as it was, and 0 otherwise.
   */
  lemma RmdirReply(v: Variant, fs: Image, sb: SuperBlock, bgd: seq<GroupDesc>, dir: seq<byte>)
    requires Mounted(fs, sb, bgd) && Absolute(dir)
    ensures var r := Rmdir(v, fs, sb, bgd, dir); var c := ReadDir(fs, sb, bgd, dir);
      && (c.Missing? ==> r == Some(Reply(-ENOENT, fs)))
      && (c.Found? && !HasModeBit(c.ino.mode, EXT2_S_IFDIR) ==> r == Some(Reply(-ENOTDIR, fs)))
      && (c.Found? && HasModeBit(c.ino.mode, EXT2_S_IFDIR) && DirEmpty(fs, sb, bgd, c.iid) == Some(false) ==>
            r == Some(Reply(-ENOTEMPTY, fs)))
      && (r.Some? && r.value.code == 0 <==>
            c.Found? && HasModeBit(c.ino.mode, EXT2_S_IFDIR) && DirEmpty(fs, sb, bgd, c.iid) == Some(true) &&
            ParentDir(fs, sb, bgd, dir).InDir? && r.Some?)
  {
  }

  /**
   * What a successful `unlink` leaves of the file: with links left, its
   * record holds the count one lower (in 16 bits); at none, its inode is
   * free.
   */
  lemma UnlinkDrops(v: Variant, fs: Image, sb: SuperBlock, bgd: seq<GroupDesc>, dir: seq<byte>)
    requires Mounted(fs, sb, bgd) && Absolute(dir)
    requires Unlink(v, fs, sb, bgd, dir).Some? && Unlink(v, fs, sb, bgd, dir).value.code == 0
    ensures var c := ReadDir(fs, sb, bgd, dir); var fs' := Unlink(v, fs, sb, bgd, dir).value.fs;
      && c.Found? && HasModeBit(c.ino.mode, EXT2_S_IFREG)
      && (LinkDown(c.ino).linksCount == 0 ==> !InodeState(fs', sb, bgd, c.iid))
      && (LinkDown(c.ino).linksCount != 0 ==> ReadInode(fs', sb, bgd, c.iid) == LinkDown(c.ino))
  {
    UnlinkReply(v, fs, sb, bgd, dir);
    var c := ReadDir(fs, sb, bgd, dir);
    var piid := ParentDir(fs, sb, bgd, dir).iid;
    var fs1 := DirDel(fs, sb, bgd, piid, SplitParent(dir).1).value;
    if LinkDown(c.ino).linksCount == 0 {
      ReleaseFrees(v, fs1, sb, bgd, c.iid);
    } else {
      ReadWriteInode(fs1, sb, bgd, c.iid, LinkDown(c.ino), c.iid);
    }
  }

  /** A successful `rmdir` leaves the directory's inode free. */
  lemma RmdirFrees(v: Variant, fs: Image, sb: SuperBlock, bgd: seq<GroupDesc>, dir: seq<byte>)
    requires Mounted(fs, sb, bgd) && Absolute(dir)
    requires Rmdir(v, fs, sb, bgd, dir).Some? && Rmdir(v, fs, sb, bgd, dir).value.code == 0
    ensures var c := ReadDir(fs, sb, bgd, dir);
      && c.Found? && HasModeBit(c.ino.mode, EXT2_S_IFDIR)
      && !InodeState(Rmdir(v, fs, sb, bgd, dir).value.fs, sb, bgd, c.iid)
  {
    RmdirReply(v, fs, sb, bgd, dir);
    var c := ReadDir(fs, sb, bgd, dir);
    var p := ParentDir(fs, sb, bgd, dir);
    var fs1 := DirDel(fs, sb, bgd, p.iid, SplitParent(dir).1).value;
    ReleaseFrees(v, fs1, sb, bgd, c.iid);
  }

  /** `resize(iid, 0)` then `del_inode(iid)`, when it succeeds, leaves iid free. */
  lemma ReleaseFrees(v: Variant, fs: Image, sb: SuperBlock, bgd: seq<GroupDesc>, iid: u32)
    requires Geometry(sb, bgd) && Shaped(fs, Log(sb)) && ValidIid(sb, bgd, iid)
    requires Release(v, fs, sb, bgd, iid).Some?
    ensures !InodeState(Release(v, fs, sb, bgd, iid).value, sb, bgd, iid)
  {
    var fs1 := Resizing.Resize(v, fs, sb, bgd, iid, 0).value;
    var g := InodeGroup(sb, iid);
    assert GroupInodeBitmap(Release(v, fs, sb, bgd, iid).value, sb, bgd, g)
        == SetBitAt(GroupInodeBitmap(fs1, sb, bgd, g), InodeIndex(sb, iid), false);
  }

  /**
   * With every inode allocated, `create` and `mkdir` abort in `new_inode`
   * (the assertion on `getIdleInode`) once their checks pass.
   */
  lemma CreateFull(v: Variant, fs: Image, sb: SuperBlock, bgd: seq<GroupDesc>, dir: seq<byte>, ino: Inode)
    requires Mounted(fs, sb, bgd) && Absolute(dir) && DistinctInodeBitmaps(bgd) && BitmapsOutsideTables(sb, bgd)
    requires forall iid: nat | ValidIid(sb, bgd, iid) :: InodeState(fs, sb, bgd, iid)
    requires ReadDir(fs, sb, bgd, dir).Missing? && ParentDir(fs, sb, bgd, dir).InDir?
    ensures Create(v, fs, sb, bgd, dir, ino).None?
    ensures Mkdir(v, fs, sb, bgd, dir, ino).None?
  {
    var p := ParentDir(fs, sb, bgd, dir);
    AddNewFull(v, fs, sb, bgd, p.iid, ino, SplitParent(dir).1);
    MakeDirFull(v, fs, sb, bgd, p.iid, p.ino, ino, SplitParent(dir).1);
  }

  /** With every inode allocated, `new_inode` aborts before the entry is added. */
  lemma AddNewFull(v: Variant, fs: Image, sb: SuperBlock, bgd: seq<GroupDesc>, piid: u32, ino: Inode, name: seq<byte>)
    requires Geometry(sb, bgd) && Shaped(fs, Log(sb)) && InodeCountFits(sb, bgd) && ValidIid(sb, bgd, piid)
    requires DistinctInodeBitmaps(bgd)
    requires forall iid: nat | ValidIid(sb, bgd, iid) :: InodeState(fs, sb, bgd, iid)
    ensures AddNew(v, fs, sb, bgd, piid, ino, name).None?
  {
    IdleInodeSpec(fs, sb, bgd);
  }

  /**
   * With every inode allocated, `mkdir` aborts in `new_inode` after raising
   * the parent's link count, which touches no inode bitmap.
   */
  lemma MakeDirFull(v: Variant, fs: Image, sb: SuperBlock, bgd: seq<GroupDesc>, piid: u32, pino: Inode, ino: Inode, name: seq<byte>)
    requires Geometry(sb, bgd) && Shaped(fs, Log(sb)) && InodeCountFits(sb, bgd) && ValidIid(sb, bgd, piid)
    requires DistinctInodeBitmaps(bgd) && BitmapsOutsideTables(sb, bgd)
    requires forall iid: nat | ValidIid(sb, bgd, iid) :: InodeState(fs, sb, bgd, iid)
    ensures MakeDir(v, fs, sb, bgd, piid, pino, ino, name).None?
  {
    var fs1 := WriteInode(fs, sb, bgd, piid, LinkUp(pino));
    forall iid: nat | ValidIid(sb, bgd, iid) ensures InodeState(fs1, sb, bgd, iid) {
      TableBlockNotBitmap(sb, bgd, piid, InodeGroup(sb, iid));
      assert InodeState(fs, sb, bgd, iid);
    }
    IdleInodeSpec(fs1, sb, bgd);
  }

  // ---------------------------------------------------------------------
  // rename
  // ---------------------------------------------------------------------

  /**
   * `rename(oldDir, newDir, flags)`: both paths are resolved first.
   * -ENOENT where the source is missing. With RENAME_EXCHANGE the two
   * inode records trade places, or -ENOENT where the destination is
   * missing. Otherwise see `Move`.
   */
  function Rename(v: Variant, fs: Image, sb: SuperBlock, bgd: seq<GroupDesc>, oldDir: seq<byte>, newDir: seq<byte>, flags: nat): (r: Option<Reply>)
    requires Mounted(fs, sb, bgd) && Absolute(oldDir) && Absolute(newDir)
    ensures r.Some? ==> Shaped(r.value.fs, Log(sb))
  {
    RenameWith(v, fs, sb, bgd, oldDir, newDir, flags, ReadDir(fs, sb, bgd, oldDir), ReadDir(fs, sb, bgd, newDir))
  }

  /** `rename` once the source resolved to o and the destination to n. */
  function RenameWith(v: Variant, fs: Image, sb: SuperBlock, bgd: seq<GroupDesc>, oldDir: seq<byte>, newDir: seq<byte>, flags: nat, o: Lookup, n: Lookup): (r: Option<Reply>)
    requires Mounted(fs, sb, bgd) && Absolute(oldDir) && Absolute(newDir)
    requires o.Found? ==> ValidIid(sb, bgd, o.iid)
    requires n.Found? ==> ValidIid(sb, bgd, n.iid)
    ensures r.Some? ==> Shaped(r.value.fs, Log(sb))
  {
    if o.Aborted? || n.Aborted? then None
    else if o.Missing? then Some(Reply(-ENOENT, fs))
    else if HasFlag(flags, RENAME_EXCHANGE) then
      if n.Missing? then Some(Reply(-ENOENT, fs))
      else Some(Reply(0, Exchange(fs, sb, bgd, o.iid, o.ino, n.iid, n.ino)))
    else Move(v, fs, sb, bgd, oldDir, newDir, flags, o.iid, o.ino, n)
  }

  /** `write_inode(old_inode, new_ciid)`, then `write_inode(new_inode, old_ciid)`. */
  function Exchange(fs: Image, sb: SuperBlock, bgd: seq<GroupDesc>, oiid: u32, oino: Inode, niid: u32, nino: Inode): (r: Image)
    requires Geometry(sb, bgd) && Shaped(fs, Log(sb)) && ValidIid(sb, bgd, oiid) && ValidIid(sb, bgd, niid)
    ensures Shaped(r, Log(sb))
  {
    WriteInode(WriteInode(fs, sb, bgd, niid, oino), sb, bgd, oiid, nino)
  }

  /**
   * The moving part of `rename`, with the source resolved to oiid and the
   * destination's lookup n. Both parents must resolve (asserted).
   *  - Onto a directory: a directory source is relinked into it under its
   *    old name and the two link counts follow; a file source is relinked,
   *    under its old name, in the destination's parent.
   *  - A directory onto a file: -EISDIR.
   *  - A file onto a file: -EEXIST with RENAME_NOREPLACE; otherwise the
   *    destination is unlinked and the source relinked, under its old name,
   *    in the destination's parent.
   *  - Onto another kind of inode: abort (asserted).
   *  - Onto nothing: relinked in the destination's parent under the new
   *    name; for a directory the two parents' link counts follow.
   */
  function Move(v: Variant, fs: Image, sb: SuperBlock, bgd: seq<GroupDesc>, oldDir: seq<byte>, newDir: seq<byte>, flags: nat, oiid: u32, oino: Inode, n: Lookup): (r: Option<Reply>)
    requires Mounted(fs, sb, bgd) && Absolute(oldDir) && Absolute(newDir) && ValidIid(sb, bgd, oiid)
    requires n.Found? ==> ValidIid(sb, bgd, n.iid)
    ensures r.Some? ==> Shaped(r.value.fs, Log(sb))
    ensures r.Some? ==> r.value.code in {0, -EISDIR, -EEXIST}
    ensures r.Some? && r.value.code != 0 ==> r.value.fs == fs
    ensures n.Found? && r.Some? ==>
      (r.value.code == -EISDIR <==>
         !HasModeBit(n.ino.mode, EXT2_S_IFDIR) && HasModeBit(n.ino.mode, EXT2_S_IFREG) && HasModeBit(oino.mode, EXT2_S_IFDIR))
    ensures n.Found? && r.Some? ==>
      (r.value.code == -EEXIST <==>
         !HasModeBit(n.ino.mode, EXT2_S_IFDIR) && HasModeBit(n.ino.mode, EXT2_S_IFREG) &&
         !HasModeBit(oino.mode, EXT2_S_IFDIR) && HasFlag(flags, RENAME_NOREPLACE))
  {
    ParentAbsolute(oldDir);
    ParentAbsolute(newDir);
    var (p, c) := SplitParent(oldDir);
    var (np, nc) := SplitParent(newDir);
    var op := ReadDir(fs, sb, bgd, p);
    var npl := ReadDir(fs, sb, bgd, np);
    if !op.Found? || !npl.Found? then None
    else MoveInto(v, fs, sb, bgd, newDir, flags, oiid, oino, n, op.iid, npl.iid, c, nc)
  }

  /** The cases of `Move` once the parents resolved: op the source's parent, npl the destination's, c and nc the two names. */
  function MoveInto(v: Variant, fs: Image, sb: SuperBlock, bgd: seq<GroupDesc>, newDir: seq<byte>, flags: nat, oiid: u32, oino: Inode, n: Lookup,
                    op: u32, npl: u32, c: seq<byte>, nc: seq<byte>): (r: Option<Reply>)
    requires Mounted(fs, sb, bgd) && Absolute(newDir) && ValidIid(sb, bgd, oiid)
    requires ValidIid(sb, bgd, op) && ValidIid(sb, bgd, npl)
    requires n.Found? ==> ValidIid(sb, bgd, n.iid)
    ensures r.Some? ==> Shaped(r.value.fs, Log(sb))
    ensures r.Some? ==> r.value.code in {0, -EISDIR, -EEXIST}
    ensures r.Some? && r.value.code != 0 ==> r.value.fs == fs
    ensures n.Found? && r.Some? ==>
      (r.value.code == -EISDIR <==>
         !HasModeBit(n.ino.mode, EXT2_S_IFDIR) && HasModeBit(n.ino.mode, EXT2_S_IFREG) && HasModeBit(oino.mode, EXT2_S_IFDIR))
    ensures n.Found? && r.Some? ==>
      (r.value.code == -EEXIST <==>
         !HasModeBit(n.ino.mode, EXT2_S_IFDIR) && HasModeBit(n.ino.mode, EXT2_S_IFREG) &&
         !HasModeBit(oino.mode, EXT2_S_IFDIR) && HasFlag(flags, RENAME_NOREPLACE))
  {
    if n.Found? && HasModeBit(n.ino.mode, EXT2_S_IFDIR) then
      if HasModeBit(oino.mode, EXT2_S_IFDIR) then Done(Relocate(v, fs, sb, bgd, op, c, n.iid, oiid, c, true))
      else Done(Relocate(v, fs, sb, bgd, op, c, npl, oiid, c, false))
    else if n.Found? && HasModeBit(n.ino.mode, EXT2_S_IFREG) && HasModeBit(oino.mode, EXT2_S_IFDIR) then
      Some(Reply(-EISDIR, fs))
    else if n.Found? && HasModeBit(n.ino.mode, EXT2_S_IFREG) then
      if HasFlag(flags, RENAME_NOREPLACE) then Some(Reply(-EEXIST, fs))
      else
        Done(Replace(v, fs, sb, bgd, newDir, op, c, npl, oiid))
    else if n.Found? then None
    else Done(Relocate(v, fs, sb, bgd, op, c, npl, oiid, nc, HasModeBit(oino.mode, EXT2_S_IFDIR)))
  }

  /**
   * A file moved onto a file: `unlink(newDir)`, then the file iid leaves
   * from and enters to, under its old name.
   */
  function Replace(v: Variant, fs: Image, sb: SuperBlock, bgd: seq<GroupDesc>, newDir: seq<byte>, from: u32, name: seq<byte>, to: u32, iid: u32): (r: Option<Image>)
    requires Mounted(fs, sb, bgd) && Absolute(newDir) && ValidIid(sb, bgd, from) && ValidIid(sb, bgd, to)
    ensures r.Some? ==> Shaped(r.value, Log(sb))
  {
    match Unlink(v, fs, sb, bgd, newDir)
    case None => None
    case Some(u) => Relocate(v, u.fs, sb, bgd, from, name, to, iid, name, false)
  }

  /**
   * `dir_del_dentry(from, name)` and `dir_add_dentry(to, iid, newName)`;
   * when dir holds, the link count of from goes down and that of to goes
   * up, each read and written back in turn.
   */
  function Relocate(v: Variant, fs: Image, sb: SuperBlock, bgd: seq<GroupDesc>, from: u32, name: seq<byte>, to: u32, iid: u32, newName: seq<byte>, dir: bool): (r: Option<Image>)
    requires Geometry(sb, bgd) && Shaped(fs, Log(sb)) && ValidIid(sb, bgd, from) && ValidIid(sb, bgd, to)
    ensures r.Some? ==> Shaped(r.value, Log(sb))
  {
    match DirDel(fs, sb, bgd, from, name)
    case None => None
    case Some(fs1) => Adopt(v, fs1, sb, bgd, from, to, iid, newName, dir)
  }

  /** `dir_add_dentry(to, iid, newName)`, then for a directory the link counts of from and to follow. */
  function Adopt(v: Variant, fs: Image, sb: SuperBlock, bgd: seq<GroupDesc>, from: u32, to: u32, iid: u32, newName: seq<byte>, dir: bool): (r: Option<Image>)
    requires Geometry(sb, bgd) && Shaped(fs, Log(sb)) && ValidIid(sb, bgd, from) && ValidIid(sb, bgd, to)
    ensures r.Some? ==> Shaped(r.value, Log(sb))
  {
    match DirAdd(v, fs, sb, bgd, to, iid, newName)
    case None => None
    case Some(fs1) => if dir then Some(Relink(fs1, sb, bgd, from, to)) else Some(fs1)
  }

  /** The link count of from goes down and that of to goes up, in 16 bits, each read and written back in turn. */
  function Relink(fs: Image, sb: SuperBlock, bgd: seq<GroupDesc>, from: u32, to: u32): (r: Image)
    requires Geometry(sb, bgd) && Shaped(fs, Log(sb)) && ValidIid(sb, bgd, from) && ValidIid(sb, bgd, to)
    ensures Shaped(r, Log(sb))
  {
    var a := ReadInode(fs, sb, bgd, from);
    var fs1 := WriteInode(fs, sb, bgd, from, LinkDown(a));
    var b := ReadInode(fs1, sb, bgd, to);
    WriteInode(fs1, sb, bgd, to, LinkUp(b))
  }

  /**
   * The replies of `rename`: -ENOENT exactly where the source is missing,
   * or with RENAME_EXCHANGE the destination, with the image as it was; an
   * exchange of two inodes answers 0 with their records swapped.
   */
  lemma RenameReply(v: Variant, fs: Image, sb: SuperBlock, bgd: seq<GroupDesc>, oldDir: seq<byte>, newDir: seq<byte>, flags: nat)
    requires Mounted(fs, sb, bgd) && Absolute(oldDir) && Absolute(newDir)
    requires !ReadDir(fs, sb, bgd, oldDir).Aborted? && !ReadDir(fs, sb, bgd, newDir).Aborted?
    ensures var r := Rename(v, fs, sb, bgd, oldDir, newDir, flags);
      var o := ReadDir(fs, sb, bgd, oldDir);
      var n := ReadDir(fs, sb, bgd, newDir);
      && (r == Some(Reply(-ENOENT, fs)) <==> o.Missing? || (HasFlag(flags, RENAME_EXCHANGE) && n.Missing?))
      && (o.Found? && n.Found? && HasFlag(flags, RENAME_EXCHANGE) ==>
            r == Some(Reply(0, Exchange(fs, sb, bgd, o.iid, o.ino, n.iid, n.ino))))
      && (r.Some? && r.value.code != 0 ==> r.value.fs == fs)
  {
  }

  /** An exchange trades the two records: each inode number afterwards holds the other's. */
  lemma ExchangeSwaps(fs: Image, sb: SuperBlock, bgd: seq<GroupDesc>, oiid: u32, oino: Inode, niid: u32, nino: Inode)
    requires Geometry(sb, bgd) && Shaped(fs, Log(sb)) && ValidIid(sb, bgd, oiid) && ValidIid(sb, bgd, niid) && oiid != niid
    requires TablesDisjoint(sb, bgd)
    ensures ReadInode(Exchange(fs, sb, bgd, oiid, oino, niid, nino), sb, bgd, oiid) == nino
    ensures ReadInode(Exchange(fs, sb, bgd, oiid, oino, niid, nino), sb, bgd, niid) == oino
  {
    var fs1 := WriteInode(fs, sb, bgd, niid, oino);
    InodeLocInjective(sb, bgd, oiid, niid);
    ReadWriteInode(fs, sb, bgd, niid, oino, niid);
    ReadWriteInode(fs1, sb, bgd, oiid, nino, oiid);
    ReadWriteInode(fs1, sb, bgd, oiid, nino, niid);
  }
}
