/** What the layers come to together: on a new device a file is created, its name is found, and
    what is written to it is read back, with everything in order at the end. */
module EndToEnd {
  import opened Blocks
  import B = Bitmap
  import BufferCache
  import C = CacheState
  import D = DirEntries
  import Directory
  import FileBytes
  import FileRw
  import FileSystem
  import H = HardLinks
  import I = InodeTable
  import Names = FileNames
  import OpenFiles
  import T = FileTree

  /** file_wr and then file_rd from the same position (fs/file_rw.c:12-110): as many bytes as were
      written are read back, and no other byte of any file changed. */
  method WriteThenRead(tree: Names.Tree, i: nat, pos: nat, buf: seq<Byte>) returns (w: nat, got: array<Byte>)
    requires tree.Valid() && OpenFiles.HeldFile(tree, i) && |tree.t.fs.cache.refs| + 2 < |tree.t.fs.cache.h.key|
    requires pos + |buf| <= FileBytes.MAX_BYTES && tree.t.mem[i].ino.size + |buf| < 0x1_0000_0000
    modifies tree.t`mem, tree.t`ino, tree.t.obj[i], tree.t.fs, tree.t.fs.cache
    ensures tree.Valid() && fresh(got) && w <= |buf| == got.Length && got[..w] == buf[..w]
    ensures FileBytes.Wrote(old(tree.t.fs.cache.view), old(tree.t.fs.zones), old(tree.t.mem[i].num), buf, pos, pos, w, tree.t.fs.cache.view, tree.t.fs.zones)
  {
    hide Names.Shows, H.Tidy, FileBytes.Wrote, FileBytes.ByteAt, T.OthersKept;
    ghost var v, zs, k := tree.t.fs.cache.view, tree.t.fs.zones, tree.t.mem[i].num;
    Names.Mirrored(tree.t, tree.dir, tree.nlinks, i);
    var f := new FileRw.OpenFile(false);
    f.pos := pos;
    w := OpenFiles.WriteFile(tree, i, f, buf, |buf|);
    got := new Byte[|buf|];
    f.pos := pos;
    var r := OpenFiles.ReadFile(tree, i, f, got, w);
    FileBytes.ReadBack(v, zs, k, buf, pos, w, tree.t.fs.cache.view, tree.t.fs.zones, got[..w]);
  }

  /** open with O_CREAT of a name that is not in the directory of entry d, and find_entry of the
      same name: if the file could be made the name is found, with the number of the file. The
      directory is held a second time. */
  method CreateThenFind(tree: Names.Tree, d: nat, s: D.CStr, mode: nat, mtime: nat, ghost k: nat)
    returns (r: int, ghost num: nat, found: bool, no: nat)
    requires tree.Valid() && tree.HasDir(d) && tree.t.mem[d].num == k && tree.t.mem[d].cnt > 1
    requires Names.CanMake(tree.t.mem) && |tree.t.fs.cache.refs| + 3 < |tree.t.fs.cache.h.key|
    requires s != [] && |s| != D.NAME_LEN && mode < 0x1_0000 && !Names.IsDir(mode) && mtime < 0x1_0000_0000
    modifies tree, tree.t, tree.t.obj, tree.t.fs, tree.t.fs.cache, tree.t.fs.area
    ensures tree.Valid() && tree.t.fs.cache.refs == old(tree.t.fs.cache.refs)
    ensures |tree.t.fs.cache.h.key| == |old(tree.t.fs.cache.h.key)|
    ensures r != -1 ==> found && no == num && Names.NewHeld(tree.t.mem, r, num) && num in tree.nlinks
    ensures r != -1 ==> Names.NewIno(old(tree.t.mem), tree.t.mem, r, mode, mtime)
  {
    hide Names.Shows, H.Tidy, T.OthersKept, Names.CanMake, Names.NewIno, H.Put, H.IndexOf, Names.FullDir,
      Names.NoBit, Directory.Holds;
    ghost var room;
    r, num, room := tree.Create(d, s, mode, mtime, k);
    found, no := false, 0;
    if r == -1 {
      return;
    }
    ghost var dir, nl := tree.dir, tree.nlinks;
    Names.MadeThere(old(tree.dir), old(tree.nlinks), k, s, num, dir, nl);
    Names.Mirrored(tree.t, dir, nl, d);
    found, no := FindNumber(tree.t, d, s, dir, nl);
  }

  /** The name is in directory k, for inode no, or it is not there. */
  predicate NumberOf(dir: map<nat, seq<D.DirEnt>>, k: nat, s: D.CStr, found: bool, no: nat) {
    k in dir && var e := H.IndexOf(dir[k], Directory.Stored(s), 0);
      (found <==> s != [] && e < |dir[k]|) && (found ==> no == dir[k][e].ino)
  }

  /** The number that find_entry finds for a name. */
  method FindNumber(t: I.Table, d: nat, s: D.CStr, ghost dir: map<nat, seq<D.DirEnt>>, ghost nlinks: map<nat, nat>)
    returns (found: bool, no: nat)
    requires Names.Shows(t, dir, nlinks) && Names.AtDir(t.mem, d, dir, nlinks)
    requires |t.fs.cache.refs| + 3 < |t.fs.cache.h.key| && H.Short(dir[t.mem[d].num])
    modifies t.obj[d], t.fs, t.fs.cache
    ensures Names.Shows(t, dir, nlinks) && t.fs.cache.refs == old(t.fs.cache.refs)
    ensures |t.fs.cache.h.key| == |old(t.fs.cache.h.key)|
    ensures NumberOf(dir, t.mem[d].num, s, found, no)
  {
    hide Names.Shows, H.Short, H.IndexOf, Directory.Holds;
    no := 0;
    ghost var refs, k := t.fs.cache.refs, t.mem[d].num;
    Names.Mirrored(t, dir, nlinks, d);
    var b, j;
    ghost var e;
    found, b, j, e := Names.FindName(t, d, s, dir, nlinks);
    if found {
      no := Names.SlotIno(t, d, e, b, j, refs, dir, nlinks);
      Names.Unhold(t, k, e, b, j, dir, nlinks, refs);
    }
  }

  /** Entries of which none that is free has zones, and some are free. */
  lemma CanMakeIf(mem: seq<I.Mem>)
    requires I.HasRoom(mem) && forall i :: 0 <= i < I.NR_INODE && mem[i].cnt == 0 ==>
      mem[i].ino.zone == I.NoZones() && mem[i].ino.size == 0
    ensures Names.CanMake(mem) && mem[I.Victim(mem)].ino.size == 0
  {
    hide I.Victim, I.NoZones;
    I.VictimIs(mem);
  }

  lemma Blanks()
    ensures var mem := seq(I.NR_INODE, _ => I.Blank()); I.HasRoom(mem) && Names.CanMake(mem) && mem[I.Victim(mem)] == I.Blank()
  {
    var mem := seq(I.NR_INODE, _ => I.Blank());
    assert mem[0].cnt == 0;
    CanMakeIf(mem);
  }

  /** The new inode map has bits to take. */
  lemma NewMap(im: seq<Block>)
    requires im == seq(FileSystem.ZMAP_SLOTS, _ => ZeroBlock())[0 := B.SetBit(ZeroBlock(), 0, true)]
    ensures !Names.NoBit(im)
  {
    hide B.SetBit;
    assert B.Recognised(im[1], 0, 0);
    assert FileSystem.HasZero(im, 1);
  }

  /** Once the first inode has an entry the others are as they were. */
  lemma OneMade(c: I.Inodes, im: seq<Block>, r: int, uid: nat, mode: nat, c': I.Inodes, im': seq<Block>)
    requires I.MadeFrom(c, im, r, uid, mode, 0, c', im') && c.mem == seq(I.NR_INODE, _ => I.Blank()) && c.ino == map[]
    ensures 0 <= r < |c'.mem| == I.NR_INODE && OthersBlank(c'.mem, r)
    ensures c'.ino.Keys == {c'.mem[r].num} && c'.mem[r].dev != 0 && c'.mem[r].cnt == 1
    ensures c'.mem[r].ino == I.Renewed(I.Blank().ino, uid, mode, 0)
  {
    hide FileSystem.FirstZero, FileSystem.WithZBit, I.MovedIn;
    forall i | 0 <= i < I.NR_INODE && i != r
      ensures c'.mem[i] == I.Blank()
    {
      assert I.Cleaner(c.mem[i], c'.mem[i]);
    }
  }

  /** The table of a new device. */
  method NewTable(n: nat, d: Disk, nzones: nat) returns (t: I.Table)
    requires n > 4 && I.FIRST_DATAZONE <= nzones < 0x1_0000
    ensures t.Valid() && fresh(t) && fresh(t.fs) && fresh(t.fs.cache) && fresh(t.fs.area) && forall j :: 0 <= j < |t.obj| ==>
      fresh(t.obj[j])
    ensures t.ino == map[] && t.mem == seq(I.NR_INODE, _ => I.Blank()) && !Names.NoBit(t.imaps)
    ensures t.fs.cache.refs == map[] && |t.fs.cache.h.key| == n
  {
    hide BufferCache.Cache.Valid, C.State.Only, T.Owned, I.Table.Tables, Names.NoBit;
    var c := new BufferCache.Cache(n, d);
    var fs := new FileSystem.FileSys(c, I.FIRST_DATAZONE, nzones);
    t := new I.Table(fs);
    NewMap(t.imaps);
  }

  /** The inode of the root directory is the first that is made (fs/super.c:163-175). */
  method NewRoot(t: I.Table) returns (r: nat)
    requires t.Valid() && t.ino == map[] && t.mem == seq(I.NR_INODE, _ => I.Blank()) && !Names.NoBit(t.imaps)
    requires |t.fs.cache.refs| < |t.fs.cache.h.key|
    modifies t, t.obj, t.fs`zones, t.fs.cache, t.fs.area
    ensures t.Valid() && RootIn(t, r) && t.fs.cache.refs == old(t.fs.cache.refs)
    ensures |t.fs.cache.h.key| == |old(t.fs.cache.h.key)|
  {
    hide I.Table.Valid, Names.CanMake, I.Victim, I.MadeFrom, I.HasRoom, T.StillThere;
    Blanks();
    ghost var c0, im, s0 := t.Now(), t.imaps, t.fs.cache.Now();
    NoBitIs(t.imaps);
    var e := t.NewInode(0x1234, 0x4000, 0);
    r := e;
    OneMade(c0, im, r, 0x1234, 0x4000, t.Now(), t.imaps);
  }

  lemma NoBitIs(im: seq<Block>)
    ensures Names.NoBit(im) <==> |im| == FileSystem.ZMAP_SLOTS && forall m :: 0 <= m < FileSystem.ZMAP_SLOTS ==>
      !FileSystem.HasZero(im, m)
  {
  }

  /** Entry r has an empty directory, and no other inode is in use. */
  ghost predicate RootIn(t: I.Table, r: nat)
    reads t
  {
    && r < |t.mem| == I.NR_INODE && t.mem[r].dev != 0 && t.mem[r].cnt == 1 && t.ino.Keys == {t.mem[r].num}
    && t.mem[r].ino == I.Renewed(I.Blank().ino, 0x1234, 0x4000, 0)
    && OthersBlank(t.mem, r)
  }

  ghost predicate OthersBlank(mem: seq<I.Mem>, r: nat) {
    |mem| == I.NR_INODE && forall i :: 0 <= i < I.NR_INODE && i != r ==> mem[i] == I.Blank()
  }

  lemma BlankRoom(mem: seq<I.Mem>, r: nat)
    requires OthersBlank(mem, r) && r < I.NR_INODE && mem[r].cnt > 0
    ensures Names.CanMake(mem) && mem[I.Victim(mem)].ino.size == 0
  {
    hide Names.CanMake, I.Victim;
    assert mem[if r == 0 then 1 else 0].cnt == 0;
    CanMakeIf(mem);
  }

  lemma StillBlank(mem: seq<I.Mem>, r: nat, mem': seq<I.Mem>)
    requires OthersBlank(mem, r) && r < |mem| && mem[r].cnt > 0 && mem' == mem[r := mem[r].(cnt := mem[r].cnt + 1)]
    ensures OthersBlank(mem', r) && mem'[r].cnt > 1 && mem'[r].num == mem[r].num && mem'[r].dev == mem[r].dev
  {
  }

  lemma InAt(t: I.Table, r: nat)
    requires t.Valid() && r < |t.mem| && t.mem[r].dev != 0
    ensures t.mem[r].num in t.at && t.at[t.mem[r].num] == r && |t.obj| == |t.mem| == I.NR_INODE
    ensures I.Snap(t.obj[r]) == t.mem[r]
    ensures t.mem[r].num in t.fs.zones && t.fs.zones[t.mem[r].num] == t.mem[r].ino.zone
    ensures t.ino[t.mem[r].num] == t.mem[r].ino
  {
    hide FileSystem.FileSys.Valid, I.Consistent, I.NoAlias, FileSystem.ZBit;
    I.EntryIs(t.Now(), r);
  }

  /** The tree with its root directory, held twice. */
  method RootTree(t: I.Table, r: nat) returns (tree: Names.Tree)
    requires t.Valid() && RootIn(t, r) && |t.fs.cache.refs| < |t.fs.cache.h.key|
    modifies t, t.obj, t.fs.cache, t.fs.area
    ensures tree.Valid() && fresh(tree) && tree.t == t && |t.mem| == I.NR_INODE
    ensures AtRoot(t.mem, r, tree.dir, tree.nlinks)
    ensures t.fs.cache.refs == old(t.fs.cache.refs) && |t.fs.cache.h.key| == |old(t.fs.cache.h.key)|
  {
    hide I.Table.Valid, Names.TreeIs, H.Tidy, I.HasRoom, C.PinsKept, T.StillThere, OthersBlank;
    InAt(t, r);
    tree := new Names.Tree(t, r);
    ghost var mem := t.mem;
    var i := OpenFiles.Open(tree, t.obj[r].num);
    StillBlank(mem, r, t.mem);
  }

  /** Entry r is the root directory, empty and held twice, and all other entries are blank. */
  ghost predicate AtRoot(mem: seq<I.Mem>, r: nat, dir: map<nat, seq<D.DirEnt>>, nlinks: map<nat, nat>) {
    Names.AtDir(mem, r, dir, nlinks) && mem[r].cnt > 1 && dir == map[mem[r].num := []] && OthersBlank(mem, r)
  }

  /** A file is created, its name is looked up, and it is written and read. */
  method Session(tree: Names.Tree, root: nat, s: D.CStr, buf: seq<Byte>)
    returns (made: bool, found: bool, w: nat, got: array<Byte>)
    requires tree.Valid() && AtRoot(tree.t.mem, root, tree.dir, tree.nlinks)
    requires |tree.t.fs.cache.refs| + 3 < |tree.t.fs.cache.h.key|
    requires s != [] && |s| != D.NAME_LEN && |buf| <= FileBytes.MAX_BYTES
    modifies tree, tree.t, tree.t.obj, tree.t.fs, tree.t.fs.cache, tree.t.fs.area
    ensures tree.Valid() && (made ==> found && w <= |buf| == got.Length && got[..w] == buf[..w])
  {
    hide Names.Shows, H.Tidy, Names.CanMake, I.Victim, OthersBlank, FileBytes.Wrote;
    BlankRoom(tree.t.mem, root);
    var r, no;
    ghost var num;
    r, num, found, no := CreateThenFind(tree, root, s, 0x8000, 0, tree.t.mem[root].num);
    made, w, got := r != -1, 0, new Byte[0];
    if made {
      Names.Sizes(tree.t, tree.dir, tree.nlinks);
      w, got := WriteThenRead(tree, r, 0, buf);
    }
  }

  /** On a new device: a file is created in the root directory; its name is found there, with its
      number; what is written to it is read back; and all is in order. */
  method FirstSession(n: nat, d: Disk, nzones: nat, s: D.CStr, buf: seq<Byte>)
    returns (tree: Names.Tree, made: bool, found: bool, w: nat, got: array<Byte>)
    requires n > 4 && I.FIRST_DATAZONE <= nzones < 0x1_0000 && s != [] && |s| != D.NAME_LEN
    requires |buf| <= FileBytes.MAX_BYTES
    ensures tree.Valid() && (made ==> found && w <= |buf| == got.Length && got[..w] == buf[..w])
  {
    hide I.Table.Valid, Names.Shows, H.Tidy, AtRoot, RootIn;
    var t := NewTable(n, d, nzones);
    var root := NewRoot(t);
    tree := RootTree(t, root);
    made, found, w, got := Session(tree, root, s, buf);
  }
}
