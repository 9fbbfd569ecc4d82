/**
 * Directories: a directory file is a chain of entries, each an 8-byte header
 * `{inode, rec_len, name_len, file_type}` followed by the name, the next
 * entry starting rec_len bytes further on. The iterator walks the chain from
 * offset 0 until it reaches i_size, reading every header and name with one
 * call of `read_inode_data_helper`, so neither may cross a block boundary.
 *
 * The walks are stated over a `Dir`: the header `cur_dentry()` yields at each
 * offset and the reads of names, None where they abort. For a file on disk it
 * is `DiskDir`; properties of the chain hold for every directory.
 */
module Directories {
  import opened Bytes
  import opened Ext2
  import opened Blocks
  import opened Arith
  import opened Addressing
  import opened Inodes
  import opened Streams
  import opened Freeing
  import opened Resizing

  /**
   * A directory as the iterator sees it: `cur_dentry()` at each offset, and
   * the helper reads that fetch names.
   */
  datatype Dir = Dir(header: nat -> Option<DentryHeader>, chunk: Reader)

  /** `read_inode_data_helper` on a directory: one chunk, which must lie inside a block. */
  function DiskReader(fs: Image, sb: SuperBlock, bgd: seq<GroupDesc>, ino: Inode): Reader
  {
    ChunkReader(Resolution(sb, bgd, ino)(fs), fs, BlockBytes(Log(sb)))
  }

  /** `cur_dentry()` at off over a reader: the header, None where the read aborts or falls short. */
  function HeaderOf(rd: Reader, off: nat): Option<DentryHeader>
  {
    match rd(off)(DENTRY_BYTES)
    case None => None
    case Some(b) => if |b| == DENTRY_BYTES then Some(DecodeDentry(b)) else None
  }

  /** The directory held by a reader. */
  function DirOf(rd: Reader): (d: Dir)
    ensures d.chunk == rd
    ensures forall off: nat :: d.header(off) == HeaderOf(rd, off)
  {
    Dir((off: nat) => HeaderOf(rd, off), rd)
  }

  /** The directory whose inode is ino, on disk. */
  function DiskDir(fs: Image, sb: SuperBlock, bgd: seq<GroupDesc>, ino: Inode): Dir
  {
    DirOf(DiskReader(fs, sb, bgd, ino))
  }

  /** `cur_dentry()` at off. */
  function HeaderAt(dir: Dir, off: nat): Option<DentryHeader>
  {
    dir.header(off)
  }

  /** `cur_dentry_name()` at off, given the header there. */
  function NameAt(dir: Dir, off: nat, h: DentryHeader): Option<seq<byte>>
  {
    match dir.chunk(off + DENTRY_BYTES)(h.nameLen)
    case None => None
    case Some(b) => if |b| == h.nameLen then Some(b) else None
  }

  /**
   * Where `++it` moves from off past header h: None where rec_len is 0 (the
   * source would loop for ever) or the next entry would start beyond i_size
   * (the source would read past the end of the directory).
   */
  function Step(size: nat, off: nat, h: DentryHeader): (next: Option<nat>)
    ensures next.Some? ==> off < next.value <= size
  {
    if h.recLen == 0 || off + h.recLen > size then None else Some(off + h.recLen)
  }

  // ---------------------------------------------------------------------
  // The chain of entries
  // ---------------------------------------------------------------------

  /** An entry of the chain: its offset, its header and its name. */
  datatype Entry = Entry(off: nat, header: DentryHeader, name: seq<byte>)

  /** The chain from off is its first entry followed by the chain from the next one. */
  lemma ListingCons(dir: Dir, size: nat, off: nat, e: Entry, next: nat)
    requires off < size && EntryAt(dir, size, off) == Some((e, next)) && Listing(dir, size, next).Some?
    ensures Listing(dir, size, off) == Some([e] + Listing(dir, size, next).value)
  {
  }

  /** The entry at off and where the next one starts, None where a read or the step aborts. */
  function EntryAt(dir: Dir, size: nat, off: nat): (r: Option<(Entry, nat)>)
    ensures r.Some? ==> r.value.0.off == off && Reads(dir, r.value.0) && Step(size, off, r.value.0.header) == Some(r.value.1)
  {
    match HeaderAt(dir, off)
    case None => None
    case Some(h) =>
      match NameAt(dir, off, h)
      case None => None
      case Some(n) =>
        match Step(size, off, h)
        case None => None
        case Some(next) => Some((Entry(off, h, n), next))
  }

  /** Reading at e's offset yields e's header and name. */
  predicate Reads(dir: Dir, e: Entry)
  {
    HeaderAt(dir, e.off) == Some(e.header) && NameAt(dir, e.off, e.header) == Some(e.name)
  }

  /** An entry that reads and steps is the entry at its offset. */
  lemma EntryAtOf(dir: Dir, size: nat, e: Entry)
    requires Reads(dir, e) && Step(size, e.off, e.header).Some?
    ensures EntryAt(dir, size, e.off) == Some((e, Step(size, e.off, e.header).value))
  {
  }

  /** The entries from off to size, None where a read or a step aborts. */
  function Listing(dir: Dir, size: nat, off: nat): Option<seq<Entry>>
    decreases size - off
  {
    if off >= size then Some([])
    else
      match EntryAt(dir, size, off)
      case None => None
      case Some((e, next)) =>
        match Listing(dir, size, next)
        case None => None
        case Some(es) => Some([e] + es)
  }

  /** The entries follow one another: each starts where the previous one's rec_len ends, the last ends at size. */
  predicate Chained(es: seq<Entry>, off: nat, size: nat)
  {
    if es == [] then off >= size
    else es[0].off == off && off < size && es[0].header.recLen > 0 && Chained(es[1..], off + es[0].header.recLen, size)
  }

  lemma {:induction false} ListingChained(dir: Dir, size: nat, off: nat)
    requires Listing(dir, size, off).Some?
    ensures Chained(Listing(dir, size, off).value, off, size)
    ensures forall k | 0 <= k < |Listing(dir, size, off).value| ::
      var e := Listing(dir, size, off).value[k];
      off <= e.off < size && HeaderAt(dir, e.off) == Some(e.header) && NameAt(dir, e.off, e.header) == Some(e.name)
    decreases size - off
  {
    if off < size {
      var h := HeaderAt(dir, off).value;
      ListingChained(dir, size, Step(size, off, h).value);
      var es := Listing(dir, size, off).value;
      assert es[1..] == Listing(dir, size, Step(size, off, h).value).value;
    }
  }

  // ---------------------------------------------------------------------
  // find_next
  // ---------------------------------------------------------------------

  /**
   * The loop of `find_next` from off: the inode of the first entry named
   * name, none when the chain ends first, None where it aborts.
   */
  function FindFrom(dir: Dir, size: nat, name: seq<byte>, off: nat): (r: Option<Option<u32>>)
    ensures r.Some? && r.value.Some? ==>
      exists o: nat | off <= o < size ::
        HeaderAt(dir, o).Some? && HeaderAt(dir, o).value.inode == r.value.value && NameAt(dir, o, HeaderAt(dir, o).value) == Some(name)
    decreases size - off
  {
    if off >= size then Some(None)
    else
      match HeaderAt(dir, off)
      case None => None
      case Some(h) =>
        match NameAt(dir, off, h)
        case None => None
        case Some(n) =>
          if n == name then Some(Some(h.inode))
          else
            match Step(size, off, h)
            case None => None
            case Some(next) => FindFrom(dir, size, name, next)
  }

  /** `find_next(in, name)`. */
  function FindNext(dir: Dir, size: nat, name: seq<byte>): Option<Option<u32>>
  {
    FindFrom(dir, size, name, 0)
  }

  /** The inode of the first entry of es named name. */
  function FirstNamed(es: seq<Entry>, name: seq<byte>): Option<u32>
  {
    if es == [] then None
    else if es[0].name == name then Some(es[0].header.inode)
    else FirstNamed(es[1..], name)
  }

  /** Over a chain that lists without aborting, find_next yields the first entry with the name. */
  lemma {:induction false} FindListing(dir: Dir, size: nat, name: seq<byte>, off: nat)
    requires Listing(dir, size, off).Some?
    ensures FindFrom(dir, size, name, off) == Some(FirstNamed(Listing(dir, size, off).value, name))
    decreases size - off
  {
    if off < size {
      var h := HeaderAt(dir, off).value;
      var es := Listing(dir, size, off).value;
      if NameAt(dir, off, h).value != name {
        FindListing(dir, size, name, Step(size, off, h).value);
        assert es[1..] == Listing(dir, size, Step(size, off, h).value).value;
      }
    }
  }

  /** FirstNamed finds an entry of es with the name, and there is none exactly when it finds nothing. */
  lemma {:induction false} FirstNamedIn(es: seq<Entry>, name: seq<byte>)
    ensures FirstNamed(es, name).Some? ==>
      exists k | 0 <= k < |es| :: es[k].name == name && es[k].header.inode == FirstNamed(es, name).value
    ensures FirstNamed(es, name).None? <==> forall k | 0 <= k < |es| :: es[k].name != name
  {
    if es != [] {
      FirstNamedIn(es[1..], name);
      if es[0].name != name && FirstNamed(es, name).Some? {
        var k :| 0 <= k < |es[1..]| && es[1..][k].name == name && es[1..][k].header.inode == FirstNamed(es, name).value;
        assert es[k + 1] == es[1..][k];
      }
      assert forall k | 0 <= k < |es| - 1 :: es[1..][k] == es[k + 1];
    }
  }

  // ---------------------------------------------------------------------
  // dir_empty
  // ---------------------------------------------------------------------

  const DOT: seq<byte> := [46]
  const DOTDOT: seq<byte> := [46, 46]

  /** The loop of `dir_empty` from off: false at the first name other than "." and "..". */
  function EmptyFrom(dir: Dir, size: nat, off: nat): (r: Option<bool>)
    ensures r == Some(false) ==>
      exists o: nat | off <= o < size ::
        HeaderAt(dir, o).Some? && NameAt(dir, o, HeaderAt(dir, o).value).Some? &&
        NameAt(dir, o, HeaderAt(dir, o).value).value != DOT && NameAt(dir, o, HeaderAt(dir, o).value).value != DOTDOT
    decreases size - off
  {
    if off >= size then Some(true)
    else
      match HeaderAt(dir, off)
      case None => None
      case Some(h) =>
        match NameAt(dir, off, h)
        case None => None
        case Some(n) =>
          if n != DOT && n != DOTDOT then Some(false)
          else
            match Step(size, off, h)
            case None => None
            case Some(next) => EmptyFrom(dir, size, next)
  }

  /**
   * `dir_empty`: a directory with link count 2 is empty without looking;
   * otherwise its entries are read.
   */
  function DirEmptyOf(dir: Dir, ino: Inode): Option<bool>
  {
    if ino.linksCount == 2 then Some(true) else EmptyFrom(dir, ino.size, 0)
  }

  /** Over a chain that lists, the scan answers whether every name is "." or "..". */
  lemma {:induction false} EmptyListing(dir: Dir, size: nat, off: nat)
    requires Listing(dir, size, off).Some?
    ensures var es := Listing(dir, size, off).value;
      EmptyFrom(dir, size, off) == Some(forall k | 0 <= k < |es| :: es[k].name == DOT || es[k].name == DOTDOT)
    decreases size - off
  {
    if off < size {
      var h := HeaderAt(dir, off).value;
      var n := NameAt(dir, off, h).value;
      var es := Listing(dir, size, off).value;
      assert es[0].name == n;
      if n == DOT || n == DOTDOT {
        EmptyListing(dir, size, Step(size, off, h).value);
        assert es[1..] == Listing(dir, size, Step(size, off, h).value).value;
        assert forall k | 0 <= k < |es| - 1 :: es[1..][k] == es[k + 1];
      }
    }
  }

  // ---------------------------------------------------------------------
  // The last entry (dir_add_dentry) and the entry before a name (dir_del_dentry)
  // ---------------------------------------------------------------------

  /**
   * The first loop of `dir_add_dentry` from off: the offset of the last
   * entry, prev when there is none from off on; only headers are read.
   */
  function LastFrom(dir: Dir, size: nat, off: nat, prev: nat): (r: Option<nat>)
    ensures r.Some? && r.value != prev ==> off <= r.value < size && HeaderAt(dir, r.value).Some?
    decreases size - off
  {
    if off >= size then Some(prev)
    else
      match HeaderAt(dir, off)
      case None => None
      case Some(h) =>
        match Step(size, off, h)
        case None => None
        case Some(next) => LastFrom(dir, size, next, off)
  }

  /** Over a chain that lists, that loop ends at the last entry. */
  lemma {:induction false} LastListing(dir: Dir, size: nat, off: nat, prev: nat)
    requires Listing(dir, size, off).Some?
    ensures var es := Listing(dir, size, off).value;
      LastFrom(dir, size, off, prev) == Some(if es == [] then prev else es[|es| - 1].off)
    decreases size - off
  {
    if off < size {
      var h := HeaderAt(dir, off).value;
      var es := Listing(dir, size, off).value;
      LastListing(dir, size, Step(size, off, h).value, off);
      assert es[1..] == Listing(dir, size, Step(size, off, h).value).value;
    }
  }

  /**
   * The loop of `dir_del_dentry` from off, prev being the entry before off:
   * the first entry named name, as (offset of the previous entry, its
   * header, the entry's header). None where the name is missing, where it
   * names the first entry, or where a read or step aborts.
   */
  function DelFrom(dir: Dir, size: nat, name: seq<byte>, off: nat, prev: nat): (r: Option<(nat, DentryHeader, DentryHeader)>)
    ensures r.Some? ==> HeaderAt(dir, r.value.0) == Some(r.value.1)
    ensures r.Some? ==>
      exists o: nat | off <= o < size :: o > 0 && HeaderAt(dir, o) == Some(r.value.2) && NameAt(dir, o, r.value.2) == Some(name)
    decreases size - off
  {
    if off >= size then None
    else
      match HeaderAt(dir, off)
      case None => None
      case Some(h) =>
        match NameAt(dir, off, h)
        case None => None
        case Some(n) =>
          if n == name then
            if off == 0 then None
            else
              match HeaderAt(dir, prev)
              case None => None
              case Some(ph) => Some((prev, ph, h))
          else
            match Step(size, off, h)
            case None => None
            case Some(next) => DelFrom(dir, size, name, next, off)
  }

  /** The index of the first entry of es named name, |es| when there is none. */
  function NamedIndex(es: seq<Entry>, name: seq<byte>): (k: nat)
    ensures k <= |es|
    ensures forall j | 0 <= j < k :: es[j].name != name
    ensures k < |es| ==> es[k].name == name
  {
    if es == [] then 0
    else if es[0].name == name then 0
    else NamedIndex(es[1..], name) + 1
  }

  /**
   * Over a chain from 0 that lists, the delete loop finds the entry k named
   * name and the entry k - 1 before it, and aborts exactly when there is no
   * such entry or it is the first.
   */
  lemma DelListing(dir: Dir, size: nat, name: seq<byte>)
    requires Listing(dir, size, 0).Some?
    ensures var es := Listing(dir, size, 0).value;
      var k := NamedIndex(es, name);
      DelFrom(dir, size, name, 0, 0) ==
        if k == |es| || k == 0 then None
        else Some((es[k - 1].off, es[k - 1].header, es[k].header))
  {
    ListingChained(dir, size, 0);
    DelListingFrom(dir, size, name, 0, 0, Listing(dir, size, 0).value, 0);
  }

  lemma {:induction false} DelListingFrom(dir: Dir, size: nat, name: seq<byte>, off: nat, prev: nat, es: seq<Entry>, i: nat)
    requires Listing(dir, size, off).Some? && i <= |es| && Listing(dir, size, off).value == es[i..]
    requires forall j | 0 <= j < i :: es[j].name != name
    requires i > 0 ==> off > 0 && es[i - 1].off == prev && HeaderAt(dir, prev) == Some(es[i - 1].header)
    requires i == 0 ==> off == 0
    ensures var k := NamedIndex(es, name);
      DelFrom(dir, size, name, off, prev) ==
        if k == |es| || k == 0 then None
        else Some((es[k - 1].off, es[k - 1].header, es[k].header))
    decreases size - off
  {
    NamedIndexFrom(es, name, i);
    if off < size {
      var h := HeaderAt(dir, off).value;
      var rest := Listing(dir, size, off).value;
      assert rest[0] == es[i];
      if NameAt(dir, off, h).value != name {
        var next := Step(size, off, h).value;
        assert Listing(dir, size, next).value == rest[1..] == es[i + 1..];
        DelListingFrom(dir, size, name, next, off, es, i + 1);
      }
    }
  }

  lemma {:induction false} NamedIndexFrom(es: seq<Entry>, name: seq<byte>, i: nat)
    requires i <= |es| && forall j | 0 <= j < i :: es[j].name != name
    ensures NamedIndex(es, name) >= i
    ensures i < |es| && es[i].name == name ==> NamedIndex(es, name) == i
    ensures i == |es| ==> NamedIndex(es, name) == |es|
  {
    if i > 0 {
      assert es[0].name != name;
      NamedIndexFrom(es[1..], name, i - 1);
    }
  }

  // ---------------------------------------------------------------------
  // How the chain changes when entries are added or removed
  // ---------------------------------------------------------------------

  /** Where the part es[k..] of a chain ending at size starts. */
  function Boundary(es: seq<Entry>, k: nat, size: nat): nat
    requires k <= |es|
  {
    if k < |es| then es[k].off else size
  }

  /** A chain read from off splits at any entry into the chain up to it and the chain from it. */
  lemma {:induction false} ListingSplit(dir: Dir, size: nat, off: nat, k: nat)
    requires off <= size && Listing(dir, size, off).Some? && k <= |Listing(dir, size, off).value|
    ensures var es := Listing(dir, size, off).value;
      var b := Boundary(es, k, size);
      && off <= b <= size
      && Listing(dir, b, off) == Some(es[..k])
      && Listing(dir, size, b) == Some(es[k..])
    decreases size - off
  {
    if k > 0 {
      var es := Listing(dir, size, off).value;
      var (e, next) := EntryAt(dir, size, off).value;
      var rest := Listing(dir, size, next).value;
      assert es == [e] + rest;
      ListingSplit(dir, size, next, k - 1);
      SplitTail(dir, size, off, k, es, e, next, rest);
    }
  }

  /** The step of ListingSplit from the chain after the first entry to the whole chain. */
  lemma SplitTail(dir: Dir, size: nat, off: nat, k: nat, es: seq<Entry>, e: Entry, next: nat, rest: seq<Entry>)
    requires off < size && EntryAt(dir, size, off) == Some((e, next)) && es == [e] + rest
    requires 0 < k <= |es|
    requires var b := Boundary(rest, k - 1, size);
      && next <= b <= size
      && Listing(dir, b, next) == Some(rest[..k - 1])
      && Listing(dir, size, b) == Some(rest[k - 1..])
    ensures var b := Boundary(es, k, size);
      && off <= b <= size
      && Listing(dir, b, off) == Some(es[..k])
      && Listing(dir, size, b) == Some(es[k..])
  {
    var b := Boundary(rest, k - 1, size);
    assert Boundary(es, k, size) == b;
    assert Step(b, off, e.header) == Some(next);
    assert EntryAt(dir, b, off) == Some((e, next));
    assert es[..k] == [e] + rest[..k - 1];
    assert es[k..] == rest[k - 1..];
  }

  /** A chain read up to size continues with the chain read from size on. */
  lemma {:induction false} ListingExtend(dir: Dir, size: nat, size2: nat, off: nat)
    requires off <= size <= size2
    requires Listing(dir, size, off).Some? && Listing(dir, size2, size).Some?
    ensures Listing(dir, size2, off) == Some(Listing(dir, size, off).value + Listing(dir, size2, size).value)
    decreases size - off
  {
    if off < size {
      var (e, next) := EntryAt(dir, size, off).value;
      ListingExtend(dir, size, size2, next);
      ExtendTail(dir, size, size2, off, e, next, Listing(dir, size, next).value, Listing(dir, size2, size).value);
    } else {
      assert [] + Listing(dir, size2, size).value == Listing(dir, size2, size).value;
    }
  }

  /** The step of ListingExtend: the first entry steps the same way under the larger size. */
  lemma ExtendTail(dir: Dir, size: nat, size2: nat, off: nat, e: Entry, next: nat, a: seq<Entry>, b: seq<Entry>)
    requires off < size <= size2 && EntryAt(dir, size, off) == Some((e, next))
    requires Listing(dir, size, next) == Some(a) && Listing(dir, size2, next) == Some(a + b)
    ensures Listing(dir, size, off) == Some([e] + a)
    ensures Listing(dir, size2, off) == Some([e] + a + b)
  {
    ListingCons(dir, size, off, e, next);
    assert EntryAt(dir, size2, off) == Some((e, next)) by {
      EntryAtOf(dir, size2, e);
    }
    ListingCons(dir, size2, off, e, next);
    assert [e] + (a + b) == [e] + a + b;
  }

  /** A reader that reads every entry of a chain the same way reads the same chain. */
  lemma {:induction false} ListingSame(dir: Dir, dir': Dir, size: nat, off: nat)
    requires Listing(dir, size, off).Some?
    requires forall k | 0 <= k < |Listing(dir, size, off).value| :: Reads(dir', Listing(dir, size, off).value[k])
    ensures Listing(dir', size, off) == Listing(dir, size, off)
    decreases size - off
  {
    if off < size {
      var es := Listing(dir, size, off).value;
      var (e, next) := EntryAt(dir, size, off).value;
      assert es[0] == e;
      EntryAtOf(dir', size, e);
      assert es[1..] == Listing(dir, size, next).value;
      assert forall k | 0 <= k < |es| - 1 :: es[1..][k] == es[k + 1];
      ListingSame(dir, dir', size, next);
    }
  }

  /** A single entry read at its offset is the whole chain up to where its rec_len ends. */
  lemma ListingOne(dir: Dir, e: Entry)
    requires Reads(dir, e) && e.header.recLen > 0
    ensures Listing(dir, e.off + e.header.recLen, e.off) == Some([e])
  {
    var size := e.off + e.header.recLen;
    EntryAtOf(dir, size, e);
    assert Listing(dir, size, size) == Some([]);
    assert [e] + [] == [e];
  }

  /** Each entry's rec_len reaches exactly to where the next entry, or the chain, ends. */
  lemma {:induction false} ListingLinks(dir: Dir, size: nat, off: nat, k: nat)
    requires Listing(dir, size, off).Some? && k < |Listing(dir, size, off).value|
    ensures var es := Listing(dir, size, off).value;
      es[k].off + es[k].header.recLen == Boundary(es, k + 1, size) && es[k].header.recLen > 0
    decreases size - off
  {
    var es := Listing(dir, size, off).value;
    var (e, next) := EntryAt(dir, size, off).value;
    assert es[1..] == Listing(dir, size, next).value;
    if k > 0 {
      ListingLinks(dir, size, next, k - 1);
      assert es[1..][k - 1] == es[k];
      assert Boundary(es[1..], k, size) == Boundary(es, k + 1, size);
    } else if |es| == 1 {
      assert next >= size;
    }
  }

  /**
   * dir_add_dentry without stretching: when the old entries read as before
   * and the new entry reads at the old i_size, the directory of size
   * i_size + rec_len lists the old entries followed by the new one.
   */
  lemma AddListing(dir: Dir, dir': Dir, size: nat, es: seq<Entry>, e: Entry)
    requires Listing(dir, size, 0) == Some(es)
    requires forall k | 0 <= k < |es| :: Reads(dir', es[k])
    requires e.off == size && Reads(dir', e) && e.header.recLen > 0
    ensures Listing(dir', size + e.header.recLen, 0) == Some(es + [e])
  {
    ListingSame(dir, dir', size, 0);
    ListingOne(dir', e);
    ListingExtend(dir', size, size + e.header.recLen, 0);
  }

  /**
   * The entries i to j of a chain, read by a directory that reads each of
   * them the same way, form the chain between their boundaries.
   */
  lemma SameBetween(dir: Dir, dir': Dir, size: nat, es: seq<Entry>, i: nat, j: nat)
    requires Listing(dir, size, 0) == Some(es) && i <= j <= |es|
    requires forall t | i <= t < j :: Reads(dir', es[t])
    ensures Boundary(es, i, size) <= Boundary(es, j, size) <= size
    ensures Listing(dir', Boundary(es, j, size), Boundary(es, i, size)) == Some(es[i..j])
  {
    var bj := Boundary(es, j, size);
    ListingSplit(dir, size, 0, j);
    var pre := es[..j];
    assert Listing(dir, bj, 0) == Some(pre);
    ListingSplit(dir, bj, 0, i);
    assert Boundary(pre, i, bj) == Boundary(es, i, size);
    assert pre[i..] == es[i..j];
    assert forall t | 0 <= t < j - i :: es[i..j][t] == es[i + t];
    ListingSame(dir, dir', bj, Boundary(es, i, size));
  }

  /** The first j entries of a chain, read the same way, form the chain up to entry j. */
  lemma SamePrefix(dir: Dir, dir': Dir, size: nat, es: seq<Entry>, j: nat)
    requires Listing(dir, size, 0) == Some(es) && j <= |es|
    requires forall t | 0 <= t < j :: Reads(dir', es[t])
    ensures Boundary(es, j, size) <= size
    ensures Listing(dir', Boundary(es, j, size), 0) == Some(es[..j])
  {
    SameBetween(dir, dir', size, es, 0, j);
    BoundaryStart(dir, size, es);
    assert es[0..j] == es[..j];
  }

  /** The entries from i on, read the same way, form the chain from entry i. */
  lemma SameSuffix(dir: Dir, dir': Dir, size: nat, es: seq<Entry>, i: nat)
    requires Listing(dir, size, 0) == Some(es) && i <= |es|
    requires forall t | i <= t < |es| :: Reads(dir', es[t])
    ensures Boundary(es, i, size) <= size
    ensures Listing(dir', size, Boundary(es, i, size)) == Some(es[i..])
  {
    SameBetween(dir, dir', size, es, i, |es|);
    assert es[i..|es|] == es[i..];
  }

  /** A chain read from 0 starts at 0. */
  lemma BoundaryStart(dir: Dir, size: nat, es: seq<Entry>)
    requires Listing(dir, size, 0) == Some(es)
    ensures Boundary(es, 0, size) == 0
  {
    if es != [] {
      var (e, next) := EntryAt(dir, size, 0).value;
      ListingCons(dir, size, 0, e, next);
    }
  }

  /** Three consecutive chains read as one. */
  lemma Join3(dir: Dir, a: nat, b: nat, c: nat, xs: seq<Entry>, e: Entry, ys: seq<Entry>)
    requires a <= b <= c
    requires Listing(dir, a, 0) == Some(xs) && Listing(dir, b, a) == Some([e]) && Listing(dir, c, b) == Some(ys)
    ensures Listing(dir, c, 0) == Some(xs + [e] + ys)
  {
    ListingExtend(dir, a, b, 0);
    ListingExtend(dir, b, c, 0);
  }

  /** Entry e with its rec_len set to r. */
  function Stretched(e: Entry, r: u16): Entry
  {
    Entry(e.off, e.header.(recLen := r), e.name)
  }

  /**
   * The stretching step of dir_add_dentry: when the earlier entries read as
   * before and the last one reads with rec_len r, the directory of size
   * `off + r` lists the same entries with only the last one's rec_len changed.
   */
  lemma StretchListing(dir: Dir, dir': Dir, size: nat, es: seq<Entry>, r: u16)
    requires Listing(dir, size, 0) == Some(es) && es != [] && r > 0
    requires forall k | 0 <= k < |es| - 1 :: Reads(dir', es[k])
    requires Reads(dir', Stretched(es[|es| - 1], r))
    ensures var last := es[|es| - 1];
      Listing(dir', last.off + r, 0) == Some(es[..|es| - 1] + [Stretched(last, r)])
  {
    var n := |es|;
    var st := Stretched(es[n - 1], r);
    BeforeLast(dir, dir', size, es);
    ListingOne(dir', st);
    Join2(dir', st.off, st.off + r, es[..n - 1], [st]);
  }

  /** The chain before the last entry reads in dir' as it did in dir. */
  lemma BeforeLast(dir: Dir, dir': Dir, size: nat, es: seq<Entry>)
    requires Listing(dir, size, 0) == Some(es) && es != []
    requires forall k | 0 <= k < |es| - 1 :: Reads(dir', es[k])
    ensures Listing(dir', es[|es| - 1].off, 0) == Some(es[..|es| - 1])
  {
    SamePrefix(dir, dir', size, es, |es| - 1);
  }

  /** Two chains read one after the other make one chain. */
  lemma Join2(dir: Dir, a: nat, b: nat, xs: seq<Entry>, ys: seq<Entry>)
    requires a <= b && Listing(dir, a, 0) == Some(xs) && Listing(dir, b, a) == Some(ys)
    ensures Listing(dir, b, 0) == Some(xs + ys)
  {
    ListingExtend(dir, a, b, 0);
  }

  /**
   * dir_del_dentry: when entry k - 1 reads with rec_len grown by entry k's,
   * and every other entry but k reads as before, the chain skips entry k
   * and lists everything else unchanged.
   */
  lemma DelLayout(dir: Dir, dir': Dir, size: nat, es: seq<Entry>, k: nat)
    requires Listing(dir, size, 0) == Some(es) && 0 < k < |es|
    requires es[k - 1].header.recLen + es[k].header.recLen < 0x1_0000
    requires forall j | 0 <= j < |es| && j != k - 1 && j != k :: Reads(dir', es[j])
    requires Reads(dir', Stretched(es[k - 1], es[k - 1].header.recLen + es[k].header.recLen))
    ensures Listing(dir', size, 0) == Some(es[..k - 1] + [Stretched(es[k - 1], es[k - 1].header.recLen + es[k].header.recLen)] + es[k + 1..])
  {
    var st := Stretched(es[k - 1], es[k - 1].header.recLen + es[k].header.recLen);
    var b := Boundary(es, k + 1, size);
    DelJoin(dir, size, es, k);
    DelAround(dir, dir', size, es, k);
    ListingOne(dir', st);
    Join3(dir', st.off, b, size, es[..k - 1], st, es[k + 1..]);
  }

  /** The chains before entry k - 1 and after entry k read in dir' as they did in dir. */
  lemma DelAround(dir: Dir, dir': Dir, size: nat, es: seq<Entry>, k: nat)
    requires Listing(dir, size, 0) == Some(es) && 0 < k < |es|
    requires forall j | 0 <= j < |es| && j != k - 1 && j != k :: Reads(dir', es[j])
    ensures Listing(dir', es[k - 1].off, 0) == Some(es[..k - 1])
    ensures Boundary(es, k + 1, size) <= size && Listing(dir', size, Boundary(es, k + 1, size)) == Some(es[k + 1..])
  {
    SamePrefix(dir, dir', size, es, k - 1);
    SameSuffix(dir, dir', size, es, k + 1);
  }



  /** The joined rec_len of entries k - 1 and k reaches to where entry k + 1 starts. */
  lemma DelJoin(dir: Dir, size: nat, es: seq<Entry>, k: nat)
    requires Listing(dir, size, 0) == Some(es) && 0 < k < |es|
    ensures es[k - 1].off + es[k - 1].header.recLen + es[k].header.recLen == Boundary(es, k + 1, size)
    ensures es[k - 1].header.recLen > 0
  {
    ListingLinks(dir, size, 0, k - 1);
    ListingLinks(dir, size, 0, k);
  }

  // ---------------------------------------------------------------------
  // Lookups in the changed chains
  // ---------------------------------------------------------------------

  /** A lookup in two chains read one after the other finds the first chain's entry if it has one. */
  lemma {:induction false} FirstNamedConcat(xs: seq<Entry>, ys: seq<Entry>, name: seq<byte>)
    ensures FirstNamed(xs + ys, name) == if FirstNamed(xs, name).Some? then FirstNamed(xs, name) else FirstNamed(ys, name)
  {
    if xs != [] {
      assert (xs + ys)[0] == xs[0];
      assert (xs + ys)[1..] == xs[1..] + ys;
      FirstNamedConcat(xs[1..], ys, name);
    } else {
      assert xs + ys == ys;
    }
  }

  /**
   * After dir_add_dentry of a name the directory did not hold, find_next of
   * that name yields the inode added, and every other name finds what it
   * found before.
   */
  lemma FindAfterAdd(dir: Dir, dir': Dir, size: nat, es: seq<Entry>, e: Entry, name: seq<byte>)
    requires Listing(dir, size, 0) == Some(es)
    requires Listing(dir', size + e.header.recLen, 0) == Some(es + [e])
    requires FirstNamed(es, e.name) == None
    ensures FindNext(dir', size + e.header.recLen, name) ==
      Some(if name == e.name then Some(e.header.inode) else FirstNamed(es, name))
  {
    FindListing(dir', size + e.header.recLen, name, 0);
    FirstNamedConcat(es, [e], name);
    FirstNamedConcat([e], [], name);
    assert [e][1..] == [];
    FirstNamedIn(es, name);
  }

  /** Changing the last entry's rec_len changes no lookup. */
  lemma FindAfterStretch(es: seq<Entry>, r: u16, name: seq<byte>)
    requires es != []
    ensures var last := es[|es| - 1];
      FirstNamed(es[..|es| - 1] + [Stretched(last, r)], name) == FirstNamed(es, name)
  {
    var n := |es|;
    var last := es[n - 1];
    assert es == es[..n - 1] + [last];
    FirstNamedConcat(es[..n - 1], [last], name);
    FirstNamedConcat(es[..n - 1], [Stretched(last, r)], name);
    assert [last][1..] == [];
    var st := Stretched(last, r);
    assert [st][1..] == [];
  }

  /**
   * After dir_del_dentry removes the first entry named name, a lookup of
   * that name finds only a later entry with the same name, and a lookup of
   * every other name finds what it found before.
   */
  lemma FindAfterDel(es: seq<Entry>, k: nat, r: u16, name: seq<byte>)
    requires 0 < k < |es| && k == NamedIndex(es, name)
    ensures var p := es[k - 1];
      FirstNamed(es[..k - 1] + [Stretched(p, r)] + es[k + 1..], name) == FirstNamed(es[k + 1..], name)
    ensures var p := es[k - 1];
      forall other | other != name ::
        FirstNamed(es[..k - 1] + [Stretched(p, r)] + es[k + 1..], other) == FirstNamed(es, other)
  {
    var p := es[k - 1];
    var st := Stretched(p, r);
    FirstNamedConcat(es[..k - 1] + [st], es[k + 1..], name);
    FirstNamedConcat(es[..k - 1], [st], name);
    FirstNamedIn(es[..k - 1], name);
    assert [st][1..] == [];
    assert es == es[..k - 1] + [p] + ([es[k]] + es[k + 1..]);
    forall other | other != name
      ensures FirstNamed(es[..k - 1] + [st] + es[k + 1..], other) == FirstNamed(es, other)
    {
      FirstNamedConcat(es[..k - 1] + [st], es[k + 1..], other);
      FirstNamedConcat(es[..k - 1], [st], other);
      FirstNamedConcat(es[..k - 1] + [p], [es[k]] + es[k + 1..], other);
      FirstNamedConcat(es[..k - 1], [p], other);
      FirstNamedConcat([es[k]], es[k + 1..], other);
      assert [st][1..] == [] && [p][1..] == [] && [es[k]][1..] == [];
    }
  }

  // ---------------------------------------------------------------------
  // Where dir_add_dentry puts the new entry
  // ---------------------------------------------------------------------

  /** `UPPER4(sizeof(dentry) + name.size())`: the rec_len of a new entry for a name of n bytes. */
  function NewRecLen(n: nat): (r: nat)
    ensures r % 4 == 0 && DENTRY_BYTES + n <= r < DENTRY_BYTES + n + 4
  {
    Upper4(DENTRY_BYTES + n)
  }

  /** A new entry's rec_len holds its header and name, is a multiple of 4, and is at most 264 for names below 256 bytes. */
  lemma NewRecLenBounds(n: nat)
    requires n < 256
    ensures DENTRY_BYTES + n <= NewRecLen(n) <= 264 && NewRecLen(n) % 4 == 0
  {
    Upper4Least(DENTRY_BYTES + n, 264);
  }

  /** The entry does not fit in what is left of the directory's last block: `i_size % bs + rec_len > bs`. */
  predicate NeedsStretch(bs: nat, size: nat, rec: nat)
    requires bs > 0
  {
    InBlock(bs, size) + rec > bs
  }

  /** `block_size - prev.offset_ % block_size`: the rec_len that takes the entry at p to the end of its block. */
  function StretchRec(bs: nat, p: nat): (r: nat)
    requires bs > 0
    ensures 0 < r <= bs && InBlock(bs, p) + r == bs
  {
    bs - InBlock(bs, p)
  }

  /**
   * The stretched last entry ends where its block ends, so i_size is then a
   * whole number of blocks: `i_size + new_rec_len - rec_len` is that end when
   * the old rec_len reached i_size.
   */
  lemma StretchEnds(bs: nat, p: nat, rec: nat, size: nat)
    requires bs > 0 && p + rec == size
    ensures 0 < StretchRec(bs, p) <= bs
    ensures size + StretchRec(bs, p) - rec == p + StretchRec(bs, p) == Mul(BlockOf(bs, p) + 1, bs)
    ensures InBlock(bs, p + StretchRec(bs, p)) == 0
  {
    DivMod(p, bs);
    MulSucc(BlockOf(bs, p), bs);
    DivModUnique(p + StretchRec(bs, p), bs, BlockOf(bs, p) + 1, 0);
  }

  /**
   * The new header and its name each lie inside one block, so the
   * iterator's helper reads can reach them: either the entry fits in the
   * last block, or after stretching it starts a block of its own.
   */
  lemma AddFits(bs: nat, at: nat, n: nat)
    requires bs >= 264 && n < 256
    requires InBlock(bs, at) + NewRecLen(n) <= bs || InBlock(bs, at) == 0
    ensures InOneBlock(bs, at, DENTRY_BYTES)
    ensures InOneBlock(bs, at + DENTRY_BYTES, n)
  {
    NewRecLenBounds(n);
    DivMod(at, bs);
    if InBlock(bs, at) + DENTRY_BYTES < bs {
      DivModUnique(at + DENTRY_BYTES, bs, Div(at, bs), InBlock(bs, at) + DENTRY_BYTES);
    }
  }

  /** What a directory reads as a header when the 8 bytes at off are an encoded header. */
  lemma HeaderOfEncoded(rd: Reader, off: nat, h: DentryHeader)
    requires rd(off)(DENTRY_BYTES) == Some(EncodeDentry(h))
    ensures HeaderAt(DirOf(rd), off) == Some(h)
  {
    DentryRoundTrip(h, []);
    assert EncodeDentry(h) + [] == EncodeDentry(h);
  }

  /** An entry reads back from the bytes dir_add_dentry writes: its encoded header, then its name. */
  lemma WrittenEntryReads(rd: Reader, e: Entry)
    requires rd(e.off)(DENTRY_BYTES) == Some(EncodeDentry(e.header))
    requires e.header.nameLen == |e.name| && rd(e.off + DENTRY_BYTES)(|e.name|) == Some(e.name)
    ensures Reads(DirOf(rd), e)
  {
    HeaderOfEncoded(rd, e.off, e.header);
  }

  // ---------------------------------------------------------------------
  // The directory operations on disk
  // ---------------------------------------------------------------------

  /** `read_inode_data(iid, dst, off, size)`: the bytes read, None where a helper aborts. */
  function ReadData(fs: Image, sb: SuperBlock, bgd: seq<GroupDesc>, iid: nat, off: nat, size: nat): (r: Option<seq<byte>>)
    requires Geometry(sb, bgd) && Shaped(fs, Log(sb)) && ValidIid(sb, bgd, iid)
    ensures r.Some? ==> |r.value| == size
  {
    var bs := BlockBytes(Log(sb));
    var res := Resolution(sb, bgd, ReadInode(fs, sb, bgd, iid))(fs);
    ReadStreamLength(res, fs, bs, off, size);
    ReadStream(ChunkReader(res, fs, bs), bs, off, size)
  }

  /** `write_inode_data(iid, src, off, |data|)`: the image afterwards, None where a helper aborts. */
  function WriteData(fs: Image, sb: SuperBlock, bgd: seq<GroupDesc>, iid: nat, off: nat, data: seq<byte>): (r: Option<Image>)
    requires Geometry(sb, bgd) && Shaped(fs, Log(sb)) && ValidIid(sb, bgd, iid)
    ensures r.Some? ==> Shaped(r.value, Log(sb))
  {
    var bs := BlockBytes(Log(sb));
    var r := Resolution(sb, bgd, ReadInode(fs, sb, bgd, iid));
    WriteStreamShape(r, fs, bs, off, data);
    WriteStream(ChunkWriter(r, bs), fs, bs, off, data)
  }

  /** `find_next(in, name)` on the directory whose inode is ino. */
  function FindOnDisk(fs: Image, sb: SuperBlock, bgd: seq<GroupDesc>, ino: Inode, name: seq<byte>): (r: Option<Option<u32>>)
    ensures var dir := DiskDir(fs, sb, bgd, ino);
      r.Some? && r.value.Some? ==>
        exists o: nat | o < ino.size ::
          HeaderAt(dir, o).Some? && HeaderAt(dir, o).value.inode == r.value.value && NameAt(dir, o, HeaderAt(dir, o).value) == Some(name)
  {
    FindNext(DiskDir(fs, sb, bgd, ino), ino.size, name)
  }

  /**
   * The stretching step of `dir_add_dentry(dst, ...)`: the last entry's
   * rec_len is set to reach the end of its block and i_size follows. None
   * where the directory is empty, since the source then reads a header at
   * the end iterator, or where a read, write or resize aborts.
   */
  function Stretch(v: Variant, fs: Image, sb: SuperBlock, bgd: seq<GroupDesc>, dst: nat): (r: Option<Image>)
    requires Geometry(sb, bgd) && Shaped(fs, Log(sb)) && ValidIid(sb, bgd, dst)
    ensures r.Some? ==> Shaped(r.value, Log(sb))
  {
    match LastEntry(fs, sb, bgd, dst)
    case None => None
    case Some((p, ph)) =>
      var size := ReadInode(fs, sb, bgd, dst).size;
      var rec := StretchRec(BlockBytes(Log(sb)), p);
      StretchLast(v, fs, sb, bgd, dst, p, ph.(recLen := rec % 0x1_0000), StretchedSize(size, rec, ph.recLen))
  }

  /** `i_size + new_rec_len - rec_len` in uint32 arithmetic. */
  function StretchedSize(size: u32, rec: nat, recLen: u16): (r: u32)
    ensures 0 <= size + rec - recLen < U32_MOD ==> r == size + rec - recLen
  {
    (size + rec - recLen) % U32_MOD
  }

  /**
   * The first loop of `dir_add_dentry(dst, ...)` and `prev.cur_dentry()`:
   * the offset and header of the directory's last entry. None where the
   * directory is empty or a read aborts.
   */
  function LastEntry(fs: Image, sb: SuperBlock, bgd: seq<GroupDesc>, dst: nat): Option<(nat, DentryHeader)>
    requires Geometry(sb, bgd) && Shaped(fs, Log(sb)) && ValidIid(sb, bgd, dst)
  {
    var ino := ReadInode(fs, sb, bgd, dst);
    var dir := DiskDir(fs, sb, bgd, ino);
    match LastFrom(dir, ino.size, 0, 0)
    case None => None
    case Some(p) =>
      if p == ino.size then None
      else
        match HeaderAt(dir, p)
        case None => None
        case Some(ph) => Some((p, ph))
  }

  /**
   * The last entry, at p, is rewritten with header h, whose rec_len reaches
   * the end of its block, and the directory is resized to size,
   * `i_size + new_rec_len - rec_len` in 32 bits.
   */
  function StretchLast(v: Variant, fs: Image, sb: SuperBlock, bgd: seq<GroupDesc>, dst: nat, p: nat, h: DentryHeader, size: u32): (r: Option<Image>)
    requires Geometry(sb, bgd) && Shaped(fs, Log(sb)) && ValidIid(sb, bgd, dst)
    ensures r.Some? ==> Shaped(r.value, Log(sb))
  {
    match WriteData(fs, sb, bgd, dst, p, EncodeDentry(h))
    case None => None
    case Some(fs1) => Resize(v, fs1, sb, bgd, dst, size)
  }

  /**
   * `dir_add_dentry(dst, src, name)`: an entry for src named name, written
   * at the end of directory dst after the directory grows by its rec_len.
   * None where dst is not a directory or the name has 256 bytes or more
   * (both asserted), or where a step aborts.
   */
  function DirAdd(v: Variant, fs: Image, sb: SuperBlock, bgd: seq<GroupDesc>, dst: nat, src: u32, name: seq<byte>): (r: Option<Image>)
    requires Geometry(sb, bgd) && Shaped(fs, Log(sb)) && ValidIid(sb, bgd, dst)
    ensures r.Some? ==> Shaped(r.value, Log(sb))
  {
    var ino := ReadInode(fs, sb, bgd, dst);
    var bs := BlockBytes(Log(sb));
    if !HasModeBit(ino.mode, EXT2_S_IFDIR) || |name| >= 256 then None
    else
      NewRecLenBounds(|name|);
      var d := DentryHeader(src, NewRecLen(|name|), |name|, EXT2_FT_REG_FILE);
      var stretched := if NeedsStretch(bs, ino.size, d.recLen) then Stretch(v, fs, sb, bgd, dst) else Some(fs);
      match stretched
      case None => None
      case Some(fs1) => Append(v, fs1, sb, bgd, dst, d, name)
  }

  /** The end of `dir_add_dentry`: grow the directory by d's rec_len and write d and the name at the old i_size. */
  function Append(v: Variant, fs: Image, sb: SuperBlock, bgd: seq<GroupDesc>, dst: nat, d: DentryHeader, name: seq<byte>): (r: Option<Image>)
    requires Geometry(sb, bgd) && Shaped(fs, Log(sb)) && ValidIid(sb, bgd, dst)
    ensures r.Some? ==> Shaped(r.value, Log(sb))
  {
    var at := ReadInode(fs, sb, bgd, dst).size;
    AppendAt(v, fs, sb, bgd, dst, at, Add32(at, d.recLen), d, name)
  }

  /** `a + b` in uint32 arithmetic. */
  function Add32(a: u32, b: u32): (r: u32)
    ensures a + b < U32_MOD ==> r == a + b
    ensures a + b >= U32_MOD ==> r == a + b - U32_MOD
  {
    (a + b) % U32_MOD
  }

  /** The end of `dir_add_dentry` for a directory whose i_size is at: resize to size, then write the entry at at. */
  function AppendAt(v: Variant, fs: Image, sb: SuperBlock, bgd: seq<GroupDesc>, dst: nat, at: nat, size: u32, d: DentryHeader, name: seq<byte>): (r: Option<Image>)
    requires Geometry(sb, bgd) && Shaped(fs, Log(sb)) && ValidIid(sb, bgd, dst)
    ensures r.Some? ==> Shaped(r.value, Log(sb))
  {
    match Resize(v, fs, sb, bgd, dst, size)
    case None => None
    case Some(fs2) => WriteEntry(fs2, sb, bgd, dst, at, d, name)
  }

  /** The two writes of `dir_add_dentry`: header d at offset at, then the name right after it. */
  function WriteEntry(fs: Image, sb: SuperBlock, bgd: seq<GroupDesc>, dst: nat, at: nat, d: DentryHeader, name: seq<byte>): (r: Option<Image>)
    requires Geometry(sb, bgd) && Shaped(fs, Log(sb)) && ValidIid(sb, bgd, dst)
    ensures r.Some? ==> Shaped(r.value, Log(sb))
  {
    match WriteData(fs, sb, bgd, dst, at, EncodeDentry(d))
    case None => None
    case Some(fs3) => WriteData(fs3, sb, bgd, dst, at + DENTRY_BYTES, name)
  }

  /**
   * `dir_del_dentry(dst, name)`: the entry before the first one named name
   * takes over its rec_len (in 16 bits), so the iterator skips it. None
   * where dst is not a directory, the name is missing or names the first
   * entry (all asserted), or where a step aborts.
   */
  function DirDel(fs: Image, sb: SuperBlock, bgd: seq<GroupDesc>, dst: nat, name: seq<byte>): (r: Option<Image>)
    requires Geometry(sb, bgd) && Shaped(fs, Log(sb)) && ValidIid(sb, bgd, dst)
    ensures r.Some? ==> Shaped(r.value, Log(sb))
  {
    match DelTarget(fs, sb, bgd, dst, name)
    case None => None
    case Some((p, merged)) => WriteData(fs, sb, bgd, dst, p, EncodeDentry(merged))
  }

  /**
   * The search of `dir_del_dentry(dst, name)`: the offset of the entry
   * before the first one named name, and that entry's header with the two
   * rec_lens added (in 16 bits). None where dst is not a directory, the
   * name is missing or names the first entry, or a read aborts.
   */
  function DelTarget(fs: Image, sb: SuperBlock, bgd: seq<GroupDesc>, dst: nat, name: seq<byte>): Option<(nat, DentryHeader)>
    requires Geometry(sb, bgd) && Shaped(fs, Log(sb)) && ValidIid(sb, bgd, dst)
  {
    var ino := ReadInode(fs, sb, bgd, dst);
    if !HasModeBit(ino.mode, EXT2_S_IFDIR) then None
    else
      Absorb(DelFrom(DiskDir(fs, sb, bgd, ino), ino.size, name, 0, 0))
  }

  /** `prev_dentry.rec_len_ += cur_dentry.rec_len_` on what the delete loop found, in 16 bits. */
  function Absorb(found: Option<(nat, DentryHeader, DentryHeader)>): (r: Option<(nat, DentryHeader)>)
    ensures r.Some? <==> found.Some?
    ensures r.Some? ==> r.value.0 == found.value.0 && r.value.1 == found.value.1.(recLen := r.value.1.recLen)
    ensures r.Some? && found.value.1.recLen + found.value.2.recLen < 0x1_0000 ==>
      r.value.1.recLen == found.value.1.recLen + found.value.2.recLen
  {
    match found
    case None => None
    case Some((p, ph, ch)) => Some((p, ph.(recLen := (ph.recLen + ch.recLen) % 0x1_0000)))
  }

  /** `dir_empty(dst)`: None where dst is not a directory (asserted) or a read aborts. */
  function DirEmpty(fs: Image, sb: SuperBlock, bgd: seq<GroupDesc>, dst: nat): (r: Option<bool>)
    requires Geometry(sb, bgd) && Shaped(fs, Log(sb)) && ValidIid(sb, bgd, dst)
    ensures ReadInode(fs, sb, bgd, dst).linksCount == 2 && HasModeBit(ReadInode(fs, sb, bgd, dst).mode, EXT2_S_IFDIR) ==> r == Some(true)
  {
    var ino := ReadInode(fs, sb, bgd, dst);
    if !HasModeBit(ino.mode, EXT2_S_IFDIR) then None
    else DirEmptyOf(DiskDir(fs, sb, bgd, ino), ino)
  }
}
