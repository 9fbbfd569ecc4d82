/**
 * The `MyFS` object of floppy.cpp: the path operations over the shared
 * inode manager. Each method reads and writes the device through the
 * managers and is proved to answer, and to leave the image, as the
 * functional model of the same operation in module Floppy does.
 *
 * A reply None is an abort of the source (a failed assertion of its own or
 * of a manager's); the image is then left unspecified.
 */
module FileSystem {
  import opened Bytes
  import opened Device
  import opened Ext2
  import opened Blocks
  import opened Inodes
  import opened Directories
  import opened Paths
  import opened Floppy
  import opened InodeManagement
  import opened Freeing
  import Resizing

  /** A method's reply r and image fs agree with the model's reply f. */
  predicate Answers(r: Option<int>, f: Option<Reply>, fs: Image)
  {
    r.Some? == f.Some? && (r.Some? ==> r.value == f.value.code && fs == f.value.fs)
  }

  /** A step's success ok and image fs agree with the model's result f. */
  predicate Yields(ok: bool, f: Option<Image>, fs: Image)
  {
    ok == f.Some? && (ok ==> fs == f.value)
  }

  /** The device holds a filesystem the operations work on, with the descriptor table it stores. */
  predicate Formatted(dev: seq<DeviceBlock>)
    requires |dev| == BLOCK_NUM
  {
    var sb := DecodeSuper(dev[1]);
    var fs := View(dev, Log(sb));
    Loadable(fs, sb) && Mounted(fs, sb, StoredDescs(fs, sb))
  }

  class MyFS {
    const im: InodeManager

    /** The `resize` the operations run: the source's own, or the corrected one. */
    const variant: Variant

    /** The managers are ready and the image has a root the operations can reach. */
    predicate Valid()
      reads this, im, im.bm, im.bm.disk, im.sbm
    {
      im.Valid() && InodeCountFits(im.sbm.sb, im.bm.bgd) && ValidIid(im.sbm.sb, im.bm.bgd, ROOT)
    }

    /** The cached superblock. */
    function Sb(): SuperBlock
      reads this, im, im.sbm
    {
      im.sbm.sb
    }

    /** The cached group descriptor table. */
    function Bgd(): seq<GroupDesc>
      reads this, im, im.bm
    {
      im.bm.bgd
    }

    /** The filesystem image on the device. */
    function Fs(): (fs: Image)
      reads this, im, im.bm, im.bm.disk, im.sbm
      requires Valid()
      ensures Shaped(fs, Log(Sb()))
    {
      im.Fs()
    }

    /**
     * `MyFS(bd)`: the three managers over the device. The descriptor cache
     * is never loaded, so no inode, the root included, can be reached.
     */
    constructor (d: Disk)
      requires d.Valid()
      ensures im.bm.disk == d && im.sbm.disk == d && im.bm.sbm == im.sbm
      ensures im.sbm.sb == DecodeSuper(d.blocks[1]) && im.bm.bgd == []
      ensures !Valid() && variant == AsWritten
    {
      var sbm := new SuperBlockManager(d);
      var bm := new BlockManager(d, sbm);
      im := new InodeManager(sbm, bm);
      variant := AsWritten;
    }

    /**
     * The managers over the device, with the descriptor table loaded by
     * `refresh`; the operations resize with variant v.
     */
    constructor Mount(d: Disk, v: Variant)
      requires d.Valid() && Formatted(d.blocks)
      ensures Valid() && im.bm.disk == d && variant == v
      ensures Sb() == DecodeSuper(d.blocks[1]) && Fs() == View(d.blocks, Log(Sb()))
      ensures Bgd() == StoredDescs(Fs(), Sb())
    {
      var sbm := new SuperBlockManager(d);
      var bm := new BlockManager(d, sbm);
      bm.Refresh();
      im := new InodeManager(sbm, bm);
      variant := v;
    }

    // -------------------------------------------------------------------
    // readdir
    // -------------------------------------------------------------------

    /**
     * `readdir(dir)`: from the root, each token after the first is looked
     * up in the current directory with `find_next`.
     */
    method Readdir(dir: seq<byte>) returns (r: Lookup)
      requires Valid() && Absolute(dir)
      ensures r == ReadDir(Fs(), Sb(), Bgd(), dir)
    {
      var ino := im.ReadInode(ROOT);
      if dir == [] {
        return Found(ROOT, ino);
      }
      var path := SplitPath(dir);
      LeadingToken(dir);
      var iid := ROOT;
      var i := 1;
      while i < |path|
        invariant 1 <= i <= |path|
        invariant ValidIid(Sb(), Bgd(), iid) && ino == Inodes.ReadInode(Fs(), Sb(), Bgd(), iid)
        invariant Walk(Fs(), Sb(), Bgd(), path, i, iid, ino) == ReadDir(Fs(), Sb(), Bgd(), dir)
      {
        if i < |path| - 1 && !HasModeBit(ino.mode, EXT2_S_IFDIR) {
          return Aborted;
        }
        var next := im.FindNext(ino, path[i]);
        if next.None? {
          return Aborted;
        }
        if next.value.None? {
          return Missing;
        }
        if !ValidIid(Sb(), Bgd(), next.value.value) {
          return Aborted;
        }
        iid := next.value.value;
        ino := im.ReadInode(iid);
        i := i + 1;
      }
      r := Found(iid, ino);
    }

    /** `readdir(pName)` for the parent of dir, and the check that it is a directory. */
    method ParentOf(dir: seq<byte>) returns (p: Parent)
      requires Valid() && Absolute(dir)
      ensures p == ParentDir(Fs(), Sb(), Bgd(), dir)
    {
      ParentAbsolute(dir);
      var l := Readdir(SplitParent(dir).0);
      if l.Aborted? {
        return Abort;
      }
      if l.Missing? {
        return Fail(-ENOENT);
      }
      if !HasModeBit(l.ino.mode, EXT2_S_IFDIR) {
        return Fail(-ENOTDIR);
      }
      p := InDir(l.iid, l.ino);
    }

    // -------------------------------------------------------------------
    // read, write, truncate
    // -------------------------------------------------------------------

    /** `read(dir, buf, size, offset)`: the reply and the bytes put in buf. */
    method Read(dir: seq<byte>, size: u64, offset: u64) returns (r: Option<(int, seq<byte>)>)
      requires Valid() && Absolute(dir)
      ensures r == Floppy.Read(Fs(), Sb(), Bgd(), dir, size, offset)
    {
      var l := Readdir(dir);
      if l.Aborted? {
        return None;
      }
      if l.Missing? {
        return Some((-ENOENT, []));
      }
      r := ReadFrom(im, l.iid, l.ino.size, size, offset);
    }

    /** `write(dir, buf, size, offset)`. */
    method Write(dir: seq<byte>, data: seq<byte>, offset: u64) returns (r: Option<int>)
      requires Valid() && Absolute(dir) && |data| < U64_MOD
      modifies im.bm.disk
      ensures Valid()
      ensures Answers(r, Floppy.Write(variant, old(Fs()), Sb(), Bgd(), dir, data, offset), Fs())
    {
      var l := Readdir(dir);
      if l.Aborted? {
        return None;
      }
      if l.Missing? {
        return Some(-ENOENT);
      }
      if !HasModeBit(l.ino.mode, EXT2_S_IFREG) {
        return Some(-EISDIR);
      }
      var ok := WriteTo(variant, im, l.iid, l.ino.size, data, offset);
      r := if ok then Some(Int32(|data|)) else None;
    }

    /** `truncate(dir, size)`. */
    method Truncate(dir: seq<byte>, size: u64) returns (r: Option<int>)
      requires Valid() && Absolute(dir)
      modifies im.bm.disk
      ensures Valid()
      ensures Answers(r, Floppy.Truncate(variant, old(Fs()), Sb(), Bgd(), dir, size), Fs())
    {
      var l := Readdir(dir);
      if l.Aborted? {
        return None;
      }
      if l.Missing? {
        return Some(-ENOENT);
      }
      if !HasModeBit(l.ino.mode, EXT2_S_IFREG) {
        return Some(-EISDIR);
      }
      var ok := im.Resize(variant, l.iid, size % U32_MOD);
      r := if ok then Some(0) else None;
    }

    // -------------------------------------------------------------------
    // create, mkdir
    // -------------------------------------------------------------------

    /** `create(dir, in)`. */
    method Create(dir: seq<byte>, ino: Inode) returns (r: Option<int>)
      requires Valid() && Absolute(dir)
      modifies im.bm.disk
      ensures Valid()
      ensures Answers(r, Floppy.Create(variant, old(Fs()), Sb(), Bgd(), dir, ino), Fs())
    {
      var l := Readdir(dir);
      if l.Aborted? {
        return None;
      }
      if l.Found? {
        return Some(-EEXIST);
      }
      var p := ParentOf(dir);
      if p.Abort? {
        return None;
      }
      if p.Fail? {
        return Some(p.code);
      }
      var ok := AddNewIn(variant, im, p.iid, ino, SplitParent(dir).1);
      r := if ok then Some(0) else None;
    }

    /** `mkdir(dir, in)`. */
    method Mkdir(dir: seq<byte>, ino: Inode) returns (r: Option<int>)
      requires Valid() && Absolute(dir)
      modifies im.bm.disk
      ensures Valid()
      ensures Answers(r, Floppy.Mkdir(variant, old(Fs()), Sb(), Bgd(), dir, ino), Fs())
    {
      var l := Readdir(dir);
      if l.Aborted? {
        return None;
      }
      if l.Found? {
        return Some(-EEXIST);
      }
      var p := ParentOf(dir);
      if p.Abort? {
        return None;
      }
      if p.Fail? {
        return Some(p.code);
      }
      var ok := MakeDirIn(variant, im, p.iid, p.ino, ino, SplitParent(dir).1);
      r := if ok then Some(0) else None;
    }

    // -------------------------------------------------------------------
    // unlink, rmdir
    // -------------------------------------------------------------------

    /** `unlink(dir)`. */
    method Unlink(dir: seq<byte>) returns (r: Option<int>)
      requires Valid() && Absolute(dir)
      modifies im.bm.disk
      ensures Valid()
      ensures Answers(r, Floppy.Unlink(variant, old(Fs()), Sb(), Bgd(), dir), Fs())
    {
      var c := Readdir(dir);
      if c.Aborted? {
        return None;
      }
      if c.Missing? {
        return Some(-ENOENT);
      }
      if !HasModeBit(c.ino.mode, EXT2_S_IFREG) {
        return Some(-EISDIR);
      }
      var p := ParentOf(dir);
      if p.Abort? {
        return None;
      }
      if p.Fail? {
        return Some(p.code);
      }
      var ok := UnlinkedIn(variant, im, p.iid, SplitParent(dir).1, c.iid, c.ino);
      r := if ok then Some(0) else None;
    }

    /** `rmdir(dir)`. */
    method Rmdir(dir: seq<byte>) returns (r: Option<int>)
      requires Valid() && Absolute(dir)
      modifies im.bm.disk
      ensures Valid()
      ensures Answers(r, Floppy.Rmdir(variant, old(Fs()), Sb(), Bgd(), dir), Fs())
    {
      var c := Readdir(dir);
      if c.Aborted? {
        return None;
      }
      if c.Missing? {
        return Some(-ENOENT);
      }
      if !HasModeBit(c.ino.mode, EXT2_S_IFDIR) {
        return Some(-ENOTDIR);
      }
      var e := im.DirEmpty(c.iid);
      if e.None? {
        return None;
      }
      if !e.value {
        return Some(-ENOTEMPTY);
      }
      var p := ParentOf(dir);
      if p.Abort? {
        return None;
      }
      if p.Fail? {
        return Some(p.code);
      }
      var ok := RemovedIn(variant, im, p.iid, SplitParent(dir).1, c.iid);
      r := if ok then Some(0) else None;
    }

    // -------------------------------------------------------------------
    // rename
    // -------------------------------------------------------------------

    /** `rename(oldDir, newDir, flags)`. */
    method Rename(oldDir: seq<byte>, newDir: seq<byte>, flags: nat) returns (r: Option<int>)
      requires Valid() && Absolute(oldDir) && Absolute(newDir)
      modifies im.bm.disk
      ensures Valid()
      ensures Answers(r, Floppy.Rename(variant, old(Fs()), Sb(), Bgd(), oldDir, newDir, flags), Fs())
    {
      var o := Readdir(oldDir);
      var n := Readdir(newDir);
      r := RenameFound(oldDir, newDir, flags, o, n);
    }

    /** `rename` once the source resolved to o and the destination to n. */
    method RenameFound(oldDir: seq<byte>, newDir: seq<byte>, flags: nat, o: Lookup, n: Lookup) returns (r: Option<int>)
      requires Valid() && Absolute(oldDir) && Absolute(newDir)
      requires o.Found? ==> ValidIid(Sb(), Bgd(), o.iid)
      requires n.Found? ==> ValidIid(Sb(), Bgd(), n.iid)
      modifies im.bm.disk
      ensures Valid()
      ensures Answers(r, RenameWith(variant, old(Fs()), Sb(), Bgd(), oldDir, newDir, flags, o, n), Fs())
    {
      if o.Aborted? || n.Aborted? {
        return None;
      }
      if o.Missing? {
        return Some(-ENOENT);
      }
      if HasFlag(flags, RENAME_EXCHANGE) {
        if n.Missing? {
          return Some(-ENOENT);
        }
        Exchanged(im, o.iid, o.ino, n.iid, n.ino);
        return Some(0);
      }
      r := MoveTo(oldDir, newDir, flags, o.iid, o.ino, n);
    }

    /** The part of `rename` after the exchange case, with the source resolved to oiid and the destination's lookup n. */
    method MoveTo(oldDir: seq<byte>, newDir: seq<byte>, flags: nat, oiid: u32, oino: Inode, n: Lookup) returns (r: Option<int>)
      requires Valid() && Absolute(oldDir) && Absolute(newDir) && ValidIid(Sb(), Bgd(), oiid)
      requires n.Found? ==> ValidIid(Sb(), Bgd(), n.iid)
      modifies im.bm.disk
      ensures Valid()
      ensures Answers(r, Move(variant, old(Fs()), Sb(), Bgd(), oldDir, newDir, flags, oiid, oino, n), Fs())
    {
      ParentAbsolute(oldDir);
      ParentAbsolute(newDir);
      var c := SplitParent(oldDir).1;
      var nc := SplitParent(newDir).1;
      var op := Readdir(SplitParent(oldDir).0);
      var npl := Readdir(SplitParent(newDir).0);
      if !op.Found? || !npl.Found? {
        return None;
      }
      r := MovedInto(newDir, flags, oiid, oino, n, op.iid, npl.iid, c, nc);
    }

    /** The cases of `rename` once both parents resolved: op the source's parent, npl the destination's. */
    method MovedInto(newDir: seq<byte>, flags: nat, oiid: u32, oino: Inode, n: Lookup, op: u32, npl: u32, c: seq<byte>, nc: seq<byte>) returns (r: Option<int>)
      requires Valid() && Absolute(newDir) && ValidIid(Sb(), Bgd(), oiid)
      requires ValidIid(Sb(), Bgd(), op) && ValidIid(Sb(), Bgd(), npl)
      requires n.Found? ==> ValidIid(Sb(), Bgd(), n.iid)
      modifies im.bm.disk
      ensures Valid()
      ensures Answers(r, MoveInto(variant, old(Fs()), Sb(), Bgd(), newDir, flags, oiid, oino, n, op, npl, c, nc), Fs())
    {
      var ok;
      if n.Found? && HasModeBit(n.ino.mode, EXT2_S_IFDIR) {
        if HasModeBit(oino.mode, EXT2_S_IFDIR) {
          ok := Relocated(variant, im, op, c, n.iid, oiid, c, true);
        } else {
          ok := Relocated(variant, im, op, c, npl, oiid, c, false);
        }
      } else if n.Found? && HasModeBit(n.ino.mode, EXT2_S_IFREG) && HasModeBit(oino.mode, EXT2_S_IFDIR) {
        return Some(-EISDIR);
      } else if n.Found? && HasModeBit(n.ino.mode, EXT2_S_IFREG) {
        if HasFlag(flags, RENAME_NOREPLACE) {
          return Some(-EEXIST);
        }
        ok := Replaced(newDir, op, c, npl, oiid);
      } else if n.Found? {
        return None;
      } else {
        ok := Relocated(variant, im, op, c, npl, oiid, nc, HasModeBit(oino.mode, EXT2_S_IFDIR));
      }
      r := if ok then Some(0) else None;
    }

    /** A file onto a file: `unlink(newDir)`, then the file iid moves from from to to under its old name. */
    method Replaced(newDir: seq<byte>, from: u32, name: seq<byte>, to: u32, iid: u32) returns (ok: bool)
      requires Valid() && Absolute(newDir) && ValidIid(Sb(), Bgd(), from) && ValidIid(Sb(), Bgd(), to)
      modifies im.bm.disk
      ensures Valid()
      ensures Yields(ok, Replace(variant, old(Fs()), Sb(), Bgd(), newDir, from, name, to, iid), Fs())
    {
      var u := Unlink(newDir);
      if u.None? {
        return false;
      }
      ok := Relocated(variant, im, from, name, to, iid, name, false);
    }
  }

  // ---------------------------------------------------------------------
  // The steps of the operations, over the inode manager
  // ---------------------------------------------------------------------

  /** `read` on the file iid of i_size isize: the count cut at i_size and `read_inode_data`. */
  method ReadFrom(im: InodeManager, iid: u32, isize: u32, size: u64, offset: u64) returns (r: Option<(int, seq<byte>)>)
    requires im.Valid() && ValidIid(im.sbm.sb, im.bm.bgd, iid)
    ensures r == ReadAt(im.Fs(), im.sbm.sb, im.bm.bgd, iid, isize, size, offset)
  {
    if offset >= isize {
      return Some((0, []));
    }
    var n := ReadCount(isize, size, offset);
    var d := im.ReadData(iid, offset, n);
    if d.None? {
      return None;
    }
    r := Some((Int32(n), d.value));
  }

  /** The resize, when the write ends past i_size, and `write_inode_data` of `write`. */
  method WriteTo(v: Variant, im: InodeManager, iid: u32, isize: u32, data: seq<byte>, offset: u64) returns (ok: bool)
    requires im.Valid() && ValidIid(im.sbm.sb, im.bm.bgd, iid) && |data| < U64_MOD
    modifies im.bm.disk
    ensures im.Valid()
    ensures var f := WriteAt(v, old(im.Fs()), im.sbm.sb, im.bm.bgd, iid, isize, data, offset);
      ok == f.Some? && (ok ==> im.Fs() == f.value.fs)
  {
    ghost var fs0, sb, bgd := im.Fs(), im.sbm.sb, im.bm.bgd;
    var end := End(offset, |data|);
    if end > isize {
      ok := im.Resize(v, iid, end % U32_MOD);
      if !ok {
        return;
      }
    }
    ghost var fs1 := im.Fs();
    assert Grow(v, fs0, sb, bgd, iid, isize, end) == Some(fs1);
    ok := im.WriteData(iid, offset, data);
    WriteAtSteps(v, fs0, sb, bgd, iid, isize, data, offset, fs1);
  }

  /** `new_inode(in)` and its entry under name in directory piid. */
  method AddNewIn(v: Variant, im: InodeManager, piid: u32, ino: Inode, name: seq<byte>) returns (ok: bool)
    requires im.Valid() && ValidIid(im.sbm.sb, im.bm.bgd, piid) && InodeCountFits(im.sbm.sb, im.bm.bgd)
    modifies im.bm.disk
    ensures im.Valid()
    ensures Yields(ok, Floppy.AddNew(v, old(im.Fs()), im.sbm.sb, im.bm.bgd, piid, ino, name), im.Fs())
  {
    var n := im.NewInode(ino);
    if n.None? {
      return false;
    }
    ok := im.DirAdd(v, piid, n.value, name);
  }

  /** The parent gains a link; then `new_inode(in)`, its "." and ".." entries, and its entry under name in piid. */
  method MakeDirIn(v: Variant, im: InodeManager, piid: u32, pino: Inode, ino: Inode, name: seq<byte>) returns (ok: bool)
    requires im.Valid() && ValidIid(im.sbm.sb, im.bm.bgd, piid) && InodeCountFits(im.sbm.sb, im.bm.bgd)
    modifies im.bm.disk
    ensures im.Valid()
    ensures Yields(ok, MakeDir(v, old(im.Fs()), im.sbm.sb, im.bm.bgd, piid, pino, ino, name), im.Fs())
  {
    var _ := im.WriteInode(LinkUp(pino), piid);
    var n := im.NewInode(ino);
    if n.None? {
      return false;
    }
    ok := AddDotsIn(v, im, piid, n.value, name);
  }

  /** "." and ".." in the new directory iid, then its entry under name in piid. */
  method AddDotsIn(v: Variant, im: InodeManager, piid: u32, iid: u32, name: seq<byte>) returns (ok: bool)
    requires im.Valid() && ValidIid(im.sbm.sb, im.bm.bgd, piid) && ValidIid(im.sbm.sb, im.bm.bgd, iid)
    modifies im.bm.disk
    ensures im.Valid()
    ensures Yields(ok, AddDots(v, old(im.Fs()), im.sbm.sb, im.bm.bgd, piid, iid, name), im.Fs())
  {
    ok := im.DirAdd(v, iid, iid, DOT);
    if ok {
      ok := AddUpIn(v, im, piid, iid, name);
    }
  }

  /** ".." in the new directory iid, then its entry under name in piid. */
  method AddUpIn(v: Variant, im: InodeManager, piid: u32, iid: u32, name: seq<byte>) returns (ok: bool)
    requires im.Valid() && ValidIid(im.sbm.sb, im.bm.bgd, piid) && ValidIid(im.sbm.sb, im.bm.bgd, iid)
    modifies im.bm.disk
    ensures im.Valid()
    ensures Yields(ok, AddUp(v, old(im.Fs()), im.sbm.sb, im.bm.bgd, piid, iid, name), im.Fs())
  {
    ok := im.DirAdd(v, iid, piid, DOTDOT);
    if ok {
      ok := im.DirAdd(v, piid, iid, name);
    }
  }

  /** `dir_del_dentry(piid, name)`, then the file loses a link. */
  method UnlinkedIn(v: Variant, im: InodeManager, piid: u32, name: seq<byte>, ciid: u32, cino: Inode) returns (ok: bool)
    requires im.Valid() && ValidIid(im.sbm.sb, im.bm.bgd, piid) && ValidIid(im.sbm.sb, im.bm.bgd, ciid)
    modifies im.bm.disk
    ensures im.Valid()
    ensures Yields(ok, Unlinked(v, old(im.Fs()), im.sbm.sb, im.bm.bgd, piid, name, ciid, cino), im.Fs())
  {
    ok := im.DirDel(piid, name);
    if ok {
      ok := DropLinkOf(v, im, ciid, cino);
    }
  }

  /** `i_links_count_--` on the record read before: free the inode at 0, write it back otherwise. */
  method DropLinkOf(v: Variant, im: InodeManager, iid: u32, ino: Inode) returns (ok: bool)
    requires im.Valid() && ValidIid(im.sbm.sb, im.bm.bgd, iid)
    modifies im.bm.disk
    ensures im.Valid()
    ensures Yields(ok, DropLink(v, old(im.Fs()), im.sbm.sb, im.bm.bgd, iid, ino), im.Fs())
  {
    var dropped := LinkDown(ino);
    if dropped.linksCount == 0 {
      ok := ReleaseInode(v, im, iid);
    } else {
      ok := im.WriteInode(dropped, iid);
    }
  }

  /** `resize(iid, 0)`, then `del_inode(iid)`. */
  method ReleaseInode(v: Variant, im: InodeManager, iid: u32) returns (ok: bool)
    requires im.Valid() && ValidIid(im.sbm.sb, im.bm.bgd, iid)
    modifies im.bm.disk
    ensures im.Valid()
    ensures Yields(ok, Floppy.Release(v, old(im.Fs()), im.sbm.sb, im.bm.bgd, iid), im.Fs())
  {
    ok := im.Resize(v, iid, 0);
    if ok {
      ok := im.DelInode(iid);
    }
  }

  /** `dir_del_dentry(piid, name)`, then the directory is emptied and its inode freed. */
  method RemovedIn(v: Variant, im: InodeManager, piid: u32, name: seq<byte>, ciid: u32) returns (ok: bool)
    requires im.Valid() && ValidIid(im.sbm.sb, im.bm.bgd, piid) && ValidIid(im.sbm.sb, im.bm.bgd, ciid)
    modifies im.bm.disk
    ensures im.Valid()
    ensures Yields(ok, Removed(v, old(im.Fs()), im.sbm.sb, im.bm.bgd, piid, name, ciid), im.Fs())
  {
    ok := im.DirDel(piid, name);
    if ok {
      ok := ReleaseInode(v, im, ciid);
    }
  }

  /** `write_inode(old_inode, new_ciid)`, then `write_inode(new_inode, old_ciid)`. */
  method Exchanged(im: InodeManager, oiid: u32, oino: Inode, niid: u32, nino: Inode)
    requires im.Valid() && ValidIid(im.sbm.sb, im.bm.bgd, oiid) && ValidIid(im.sbm.sb, im.bm.bgd, niid)
    modifies im.bm.disk
    ensures im.Valid()
    ensures im.Fs() == Exchange(old(im.Fs()), im.sbm.sb, im.bm.bgd, oiid, oino, niid, nino)
  {
    var _ := im.WriteInode(oino, niid);
    var _ := im.WriteInode(nino, oiid);
  }

  /** The entry name leaves from and iid enters to as newName; for a directory the link counts follow. */
  method Relocated(v: Variant, im: InodeManager, from: u32, name: seq<byte>, to: u32, iid: u32, newName: seq<byte>, dir: bool) returns (ok: bool)
    requires im.Valid() && ValidIid(im.sbm.sb, im.bm.bgd, from) && ValidIid(im.sbm.sb, im.bm.bgd, to)
    modifies im.bm.disk
    ensures im.Valid()
    ensures Yields(ok, Relocate(v, old(im.Fs()), im.sbm.sb, im.bm.bgd, from, name, to, iid, newName, dir), im.Fs())
  {
    ok := im.DirDel(from, name);
    if ok {
      ok := Adopted(v, im, from, to, iid, newName, dir);
    }
  }

  /** iid enters to as newName; for a directory the link counts of from and to follow. */
  method Adopted(v: Variant, im: InodeManager, from: u32, to: u32, iid: u32, newName: seq<byte>, dir: bool) returns (ok: bool)
    requires im.Valid() && ValidIid(im.sbm.sb, im.bm.bgd, from) && ValidIid(im.sbm.sb, im.bm.bgd, to)
    modifies im.bm.disk
    ensures im.Valid()
    ensures Yields(ok, Adopt(v, old(im.Fs()), im.sbm.sb, im.bm.bgd, from, to, iid, newName, dir), im.Fs())
  {
    ok := im.DirAdd(v, to, iid, newName);
    if ok && dir {
      Relinked(im, from, to);
    }
  }

  /** The link count of from goes down and that of to goes up, each read and written back in turn. */
  method Relinked(im: InodeManager, from: u32, to: u32)
    requires im.Valid() && ValidIid(im.sbm.sb, im.bm.bgd, from) && ValidIid(im.sbm.sb, im.bm.bgd, to)
    modifies im.bm.disk
    ensures im.Valid()
    ensures im.Fs() == Floppy.Relink(old(im.Fs()), im.sbm.sb, im.bm.bgd, from, to)
  {
    var a := im.ReadInode(from);
    var _ := im.WriteInode(LinkDown(a), from);
    var b := im.ReadInode(to);
    var _ := im.WriteInode(LinkUp(b), to);
  }
}
