/** Creating, linking and unlinking files (fs/namei.c:218-287, 565-701), on inodes from the
    table of inodes and on directories in files. */
module FileNames {
  import opened Blocks
  import opened CacheState
  import opened BufferCache
  import opened FileTree
  import opened FileSystem
  import opened InodeTable
  import opened DirEntries
  import opened Directory
  import opened HardLinks

  /** S_ISDIR (include/sys/stat.h). */
  predicate IsDir(mode: nat): (r: bool)
    ensures r <==> 0x4000 <= mode % 0x1_0000 < 0x5000
    ensures r ==> !IsReg(mode)
  {
    mode / 0x1000 % 16 == 4
  }

  // ---------- directories and link counts as the device has them ----------

  /** Inode x, with number k, is a directory with slots d. */
  ghost predicate DirIs(x: Inode, v: View, zs: Zones, k: nat, d: seq<DirEnt>) {
    && IsDir(x.mode) && x.nlinks > 0 && x.size % BLK_SIZE == 0
    && DirOK(v, zs, k, x.size / BLK_SIZE) && d == DirOf(v, zs, k, x.size / BLK_SIZE)
  }

  /** Inode x is no directory and has n links. */
  predicate FileIs(x: Inode, n: nat) {
    !IsDir(x.mode) && n == x.nlinks
  }

  /** The inodes in use are the directories and the files with a link count. */
  ghost predicate TreeIs(ino: map<nat, Inode>, v: View, zs: Zones, dir: map<nat, seq<DirEnt>>, nlinks: map<nat, nat>) {
    && ino.Keys == dir.Keys + nlinks.Keys
    && (forall k :: k in dir ==> k in ino && DirIs(ino[k], v, zs, k, dir[k]))
    && (forall k :: k in nlinks ==> k in ino && FileIs(ino[k], nlinks[k]))
  }

  lemma DirStill(x: Inode, v: View, zs: Zones, v': View, zs': Zones, k: nat, d: seq<DirEnt>)
    requires DirIs(x, v, zs, k, d) && StillThere(v, zs, v', zs')
    ensures DirIs(x, v', zs', k, d)
  {
    StillOthers(v, zs, v', zs', k + 1);
    hide DirOK, DirOf, StillThere, OthersKept;
    OthersDir(v, zs, v', zs', k + 1, k, x.size / BLK_SIZE);
  }

  lemma DirOther(x: Inode, v: View, zs: Zones, v': View, zs': Zones, q: nat, k: nat, d: seq<DirEnt>)
    requires DirIs(x, v, zs, k, d) && OthersKept(v, zs, v', zs', q) && k != q
    ensures DirIs(x, v', zs', k, d)
  {
    hide DirOK, DirOf, OthersKept;
    OthersDir(v, zs, v', zs', q, k, x.size / BLK_SIZE);
  }

  lemma TreeStill(ino: map<nat, Inode>, v: View, zs: Zones, v': View, zs': Zones, dir: map<nat, seq<DirEnt>>,
                  nlinks: map<nat, nat>)
    requires TreeIs(ino, v, zs, dir, nlinks) && StillThere(v, zs, v', zs')
    ensures TreeIs(ino, v', zs', dir, nlinks)
  {
    hide DirIs, StillThere;
    forall k | k in dir
      ensures DirIs(ino[k], v', zs', k, dir[k])
    {
      DirStill(ino[k], v, zs, v', zs', k, dir[k]);
    }
  }

  /** A new inode, which is no directory. */
  lemma TreeNew(ino: map<nat, Inode>, v: View, zs: Zones, dir: map<nat, seq<DirEnt>>, nlinks: map<nat, nat>, num: nat,
                x: Inode)
    requires TreeIs(ino, v, zs, dir, nlinks) && num !in ino && !IsDir(x.mode)
    ensures TreeIs(ino[num := x], v, zs, dir, nlinks[num := x.nlinks])
  {
    hide DirIs;
  }

  /** Directory q changed, and no other file. */
  lemma TreeDir(ino: map<nat, Inode>, v: View, zs: Zones, v': View, zs': Zones, dir: map<nat, seq<DirEnt>>,
                nlinks: map<nat, nat>, q: nat, x: Inode, d: seq<DirEnt>)
    requires TreeIs(ino, v, zs, dir, nlinks) && q in dir && q !in nlinks && OthersKept(v, zs, v', zs', q)
    requires DirIs(x, v', zs', q, d)
    ensures TreeIs(ino[q := x], v', zs', dir[q := d], nlinks)
  {
    hide DirIs, OthersKept;
    forall k | k in dir && k != q
      ensures DirIs(ino[k], v', zs', k, dir[k])
    {
      DirOther(ino[k], v, zs, v', zs', q, k, dir[k]);
    }
  }

  /** The link count of a file changed. */
  lemma TreeLinks(ino: map<nat, Inode>, v: View, zs: Zones, dir: map<nat, seq<DirEnt>>, nlinks: map<nat, nat>, i: nat,
                  x: Inode)
    requires TreeIs(ino, v, zs, dir, nlinks) && i in nlinks && i !in dir && !IsDir(x.mode)
    ensures TreeIs(ino[i := x], v, zs, dir, nlinks[i := x.nlinks])
  {
    hide DirIs;
  }

  /** A file went out of use. */
  lemma TreeGone(ino: map<nat, Inode>, v: View, zs: Zones, v': View, zs': Zones, dir: map<nat, seq<DirEnt>>,
                 nlinks: map<nat, nat>, i: nat)
    requires TreeIs(ino, v, zs, dir, nlinks) && i in nlinks && i !in dir && OthersKept(v, zs, v', zs', i)
    ensures TreeIs(ino - {i}, v', zs', dir, nlinks - {i})
  {
    hide DirIs, OthersKept;
    forall k | k in dir
      ensures DirIs(ino[k], v', zs', k, dir[k])
    {
      DirOther(ino[k], v, zs, v', zs', i, k, dir[k]);
    }
  }

  // ---------- the directory operations on a table entry ----------

  /** Entry d of the table is a held directory of whole blocks. */
  ghost predicate HeldDir(t: Table, d: nat, dir: seq<DirEnt>)
    reads t`mem, t.fs, t.fs.cache
  {
    && d < |t.mem| == NR_INODE && t.mem[d].dev != 0 && t.mem[d].cnt > 0
    && DirIs(t.mem[d].ino, t.fs.cache.view, t.fs.zones, t.mem[d].num, dir)
  }

  /** find_entry on entry d: nothing changes but what is held. */
  method FindIn(t: Table, d: nat, s: CStr) returns (found: bool, b: nat, j: nat, ghost e: nat)
    requires t.Valid() && d < NR_INODE && t.mem[d].dev != 0 && t.mem[d].cnt > 0
    requires |t.fs.cache.refs| + 2 < |t.fs.cache.h.key|
    requires DirOK(t.fs.cache.view, t.fs.zones, t.mem[d].num, BlkNr(t.mem[d].ino.size))
    modifies t.obj[d], t.fs, t.fs.cache
    ensures t.Valid() && t.fs.cache.view == old(t.fs.cache.view) && t.fs.zones == old(t.fs.zones)
    ensures |t.fs.cache.h.key| == |old(t.fs.cache.h.key)|
    ensures !found ==> t.fs.cache.refs == old(t.fs.cache.refs)
    ensures !found && |s| > 0 ==>
      NotThere(t.fs.cache.view, t.fs.zones, t.mem[d].num, BlkNr(t.mem[d].ino.size), s, Cut(|s|))
    ensures found ==> |s| > 0
    ensures found ==> FoundAt(t.fs.cache.view, t.fs.zones, t.mem[d].num, BlkNr(t.mem[d].ino.size), e, s, Cut(|s|))
    ensures found ==> Holds(t.fs.cache.view, t.fs.zones, t.mem[d].num, e, b, j, old(t.fs.cache.refs), t.fs.cache.Now())
  {
    hide FileSys.Valid, Consistent, InUseOk, NoAlias, DirOK, Holds, FoundAt, NotThere, Inode.Fits;
    InTable(t, d);
    OthersThan(t.obj, d);
    found, b, j, e := FindEntry(t.fs, t.obj[d], s, |s|);
  }

  /** So the slot found is the first that has the name, as it is stored. */
  method Lookup(t: Table, d: nat, s: CStr, ghost dir: seq<DirEnt>) returns (found: bool, b: nat, j: nat, ghost e: nat)
    requires t.Valid() && HeldDir(t, d, dir) && |t.fs.cache.refs| + 2 < |t.fs.cache.h.key| && Short(dir)
    modifies t.obj[d], t.fs, t.fs.cache
    ensures t.Valid() && t.fs.cache.view == old(t.fs.cache.view) && t.fs.zones == old(t.fs.zones)
    ensures |t.fs.cache.h.key| == |old(t.fs.cache.h.key)|
    ensures !found ==> t.fs.cache.refs == old(t.fs.cache.refs) && (s == [] || IndexOf(dir, Stored(s), 0) == |dir|)
    ensures found ==> s != [] && e == IndexOf(dir, Stored(s), 0) < |dir|
    ensures found ==> Holds(t.fs.cache.view, t.fs.zones, t.mem[d].num, e, b, j, old(t.fs.cache.refs), t.fs.cache.Now())
  {
    hide Table.Valid, FileSys.Valid, NoAlias, Inode.Fits, DirOK, DirOf, Holds, FirstHit, NoHits, Short;
    InTable(t, d);
    WholeBlks(t.mem[d].ino.size);
    ShortFind(dir, s);
    found, b, j, e := FindIn(t, d, s);
  }

  lemma WholeBlks(size: nat)
    requires size % BLK_SIZE == 0
    ensures BlkNr(size) == size / BLK_SIZE && size == BLK_SIZE * (size / BLK_SIZE)
  {
  }

  lemma ShortFind(dir: seq<DirEnt>, s: CStr)
    requires Short(dir)
    ensures s != [] ==> (NoHits(dir, s, Cut(|s|)) <==> IndexOf(dir, Stored(s), 0) == |dir|)
    ensures s != [] ==> forall e: nat :: FirstHit(dir, e, s, Cut(|s|)) ==> e == IndexOf(dir, Stored(s), 0) < |dir|
  {
    if s != [] {
      FindIs(dir, s);
    }
  }

  /** A directory that add_entry worked on: only its zones, its size and its mark may be new. */
  predicate GrownFrom(x: Mem, x': Mem) {
    x' == x.(ino := x.ino.(zone := x'.ino.zone, size := x'.ino.size), dirt := x'.dirt)
  }

  /** add_entry on entry d. */
  method AddIn(t: Table, d: nat, s: CStr) returns (ok: bool, b: nat, j: nat, ghost e: nat)
    requires t.Valid() && d < NR_INODE && t.mem[d].dev != 0 && t.mem[d].cnt > 0
    requires |t.fs.cache.refs| + 2 < |t.fs.cache.h.key|
    requires t.mem[d].ino.size % BLK_SIZE == 0
    requires DirOK(t.fs.cache.view, t.fs.zones, t.mem[d].num, t.mem[d].ino.size / BLK_SIZE)
    requires s != [] && |s| != NAME_LEN
    modifies t.obj[d], t.fs, t.fs.cache
    ensures t.fs.Valid() && t.Pending(d, old(t.fs.zones)) && |t.fs.cache.h.key| == |old(t.fs.cache.h.key)|
    ensures OthersKept(old(t.fs.cache.view), old(t.fs.zones), t.fs.cache.view, t.fs.zones, t.mem[d].num)
    ensures GrownFrom(t.mem[d], Snap(t.obj[d])) && (Snap(t.obj[d]) == t.mem[d] || Snap(t.obj[d]).dirt)
    ensures !ok ==> t.fs.cache.refs == old(t.fs.cache.refs) && Snap(t.obj[d]).ino.size == t.mem[d].ino.size
    ensures !ok ==>
      DirKept(old(t.fs.cache.view), old(t.fs.zones), t.mem[d].num, t.mem[d].ino.size / BLK_SIZE, t.fs.cache.view, t.fs.zones)
    ensures !ok ==> DirFull(old(t.fs.cache.view), old(t.fs.zones), t.mem[d].num, t.mem[d].ino.size / BLK_SIZE)
    ensures !ok ==> t.fs.NoZone() || t.mem[d].ino.size == MAX_BLKS * BLK_SIZE
    ensures ok ==> 0 < Cut(|s|) <= |s|
    ensures ok ==> Entered(old(t.fs.cache.view), old(t.fs.zones), t.mem[d].num, t.mem[d].ino.size / BLK_SIZE,
      t.fs.cache.view, t.fs.zones, Snap(t.obj[d]).ino.size, e, Prefix(s, Cut(|s|)))
    ensures ok ==> Holds(t.fs.cache.view, t.fs.zones, t.mem[d].num, e, b, j, old(t.fs.cache.refs), t.fs.cache.Now())
  {
    hide FileSys.Valid, Consistent, InUseOk, NoAlias, DirOK, Holds, Entered, DirKept, DirFull, OthersKept,
      FileSys.NoZone, Inode.Fits;
    InTable(t, d);
    OthersThan(t.obj, d);
    ghost var v, zs, k, n := t.fs.cache.view, t.fs.zones, t.mem[d].num, t.mem[d].ino.size / BLK_SIZE;
    ok, b, j, e := AddEntry(t.fs, t.obj[d], s, |s|);
    if ok {
      EnteredSize(v, zs, k, n, t.fs.cache.view, t.fs.zones, t.obj[d].size, e, Prefix(s, Cut(|s|)));
    }
    ZonesFit(t.fs, t.obj[d]);
    GrownFits(t.mem[d].ino, Snap(t.obj[d]).ino);
  }

  lemma EnteredSize(v: View, zs: Zones, ino: nat, n: nat, v': View, zs': Zones, size': nat, e: nat, name: CStr)
    requires Entered(v, zs, ino, n, v', zs', size', e, name)
    ensures size' < 0x1_0000_0000
  {
    hide DirOf;
  }

  lemma ZonesFit(fs: FileSys, m: MemInode)
    requires fs.Valid() && fs.Loaded(m)
    ensures |m.zone| == 9 && forall z :: 0 <= z < 9 ==> m.zone[z] < 0x1_0000
  {
    fs.UsedRange();
    hide FileSystem.UsedOf, LowOk, Cache.Valid;
    forall z | 0 <= z < 9
      ensures m.zone[z] < 0x1_0000
    {
      assert Ptr(fs.cache.view, fs.zones, Root(m.num, z)) == m.zone[z];
    }
  }

  lemma GrownFits(x: Inode, x': Inode)
    requires x.Fits() && x' == x.(zone := x'.zone, size := x'.size) && (x'.size == x.size || x'.size < 0x1_0000_0000)
    requires |x'.zone| == 9 && forall z :: 0 <= z < 9 ==> x'.zone[z] < 0x1_0000
    ensures x'.Fits()
  {
  }

  /** No slot of the directory is free, and it cannot grow. */
  ghost predicate NoRoom(fs: FileSys, dir: seq<DirEnt>)
    reads fs`zmap
  {
    UnusedFrom(dir, 0) == |dir| && (fs.NoZone() || |dir| == MAX_BLKS * ENTRIES_PER_BLK)
  }

  /** add_entry on entry d, and the writing of the inode number (fs/namei.c:272-283, 619-628). */
  method AddNamed(t: Table, d: nat, s: CStr, num: nat, ghost dir: seq<DirEnt>) returns (ok: bool)
    requires t.Valid() && HeldDir(t, d, dir) && |t.fs.cache.refs| + 2 < |t.fs.cache.h.key|
    requires s != [] && |s| != NAME_LEN && num < 0x1_0000
    modifies t.obj[d], t.fs, t.fs.cache
    ensures t.fs.Valid() && t.Pending(d, old(t.fs.zones)) && t.fs.cache.refs == old(t.fs.cache.refs)
    ensures |t.fs.cache.h.key| == |old(t.fs.cache.h.key)|
    ensures OthersKept(old(t.fs.cache.view), old(t.fs.zones), t.fs.cache.view, t.fs.zones, t.mem[d].num)
    ensures GrownFrom(t.mem[d], Snap(t.obj[d])) && (Snap(t.obj[d]) == t.mem[d] || Snap(t.obj[d]).dirt)
    ensures DirIs(Snap(t.obj[d]).ino, t.fs.cache.view, t.fs.zones, t.mem[d].num, if ok then Put(dir, DirEnt(num, Stored(s))) else dir)
    ensures !ok ==> NoRoom(t.fs, dir)
  {
    hide FileSys.Valid, NoAlias, DirOK, DirOf, Holds, Directory.Entered, DirKept, DirFull, OthersKept, FileSys.NoZone, Inode.Fits, Snap,
      UnusedFrom, Put, Table.Valid, Table.Pending;
    InTable(t, d);
    ghost var v, zs, k, n, refs := t.fs.cache.view, t.fs.zones, t.mem[d].num, t.mem[d].ino.size / BLK_SIZE, t.fs.cache.refs;
    DirSize(v, zs, k, n);
    var b, j;
    ghost var e;
    ok, b, j, e := AddIn(t, d, s);
    ghost var v1, zs1, x := t.fs.cache.view, t.fs.zones, Snap(t.obj[d]);
    if !ok {
      FullIs(v, zs, k, n, v1, zs1, dir);
      return;
    }
    EnteredOk(v, zs, k, n, v1, zs1, x.ino.size, e, Prefix(s, Cut(|s|)));
    SetIno(t.fs, k, x.ino.size / BLK_SIZE, e, b, j, num, refs);
    OthersTwice(v, zs, v1, zs1, t.fs.cache.view, zs1, k);
    NamePut(v, zs, k, n, v1, zs1, x.ino.size, e, s, num, t.fs.cache.view);
  }

  lemma DirSize(v: View, zs: Zones, k: nat, n: nat)
    requires DirOK(v, zs, k, n)
    ensures n <= MAX_BLKS
  {
  }

  /** The directory has the new name, or there is no room for it; every other file is as it was. */
  method Enter(t: Table, d: nat, s: CStr, num: nat, ghost dir: seq<DirEnt>) returns (ok: bool)
    requires t.Valid() && HeldDir(t, d, dir) && |t.fs.cache.refs| + 2 < |t.fs.cache.h.key|
    requires s != [] && |s| != NAME_LEN && num < 0x1_0000
    modifies t`mem, t`ino, t.obj[d], t.fs, t.fs.cache
    ensures t.Valid() && t.fs.cache.refs == old(t.fs.cache.refs) && |t.fs.cache.h.key| == |old(t.fs.cache.h.key)|
    ensures d < |old(t.mem)| == |t.mem| && t.mem == old(t.mem)[d := t.mem[d]] && GrownFrom(old(t.mem)[d], t.mem[d])
    ensures t.ino == old(t.ino)[t.mem[d].num := t.mem[d].ino]
    ensures OthersKept(old(t.fs.cache.view), old(t.fs.zones), t.fs.cache.view, t.fs.zones, t.mem[d].num)
    ensures DirIs(t.mem[d].ino, t.fs.cache.view, t.fs.zones, t.mem[d].num, if ok then Put(dir, DirEnt(num, Stored(s))) else dir)
    ensures !ok ==> NoRoom(t.fs, dir)
  {
    hide FileSys.Valid, NoAlias, DirIs, OthersKept, NoRoom, Inode.Fits, Snap, Put, Table.Valid, Table.Pending;
    InTable(t, d);
    ghost var zs := t.fs.zones;
    ok := AddNamed(t, d, s, num, dir);
    t.Record(d, zs);
  }

  lemma FullIs(v: View, zs: Zones, k: nat, n: nat, v': View, zs': Zones, dir: seq<DirEnt>)
    requires DirFull(v, zs, k, n) && n <= MAX_BLKS && dir == DirOf(v, zs, k, n) && DirKept(v, zs, k, n, v', zs')
    ensures UnusedFrom(dir, 0) == |dir| == ENTRIES_PER_BLK * n && DirOK(v', zs', k, n) && DirOf(v', zs', k, n) == dir
  {
    hide DirOf;
  }

  lemma EnteredOk(v: View, zs: Zones, k: nat, n: nat, v': View, zs': Zones, size': nat, e: nat, name: CStr)
    requires Directory.Entered(v, zs, k, n, v', zs', size', e, name)
    ensures size' % BLK_SIZE == 0 && DirOK(v', zs', k, size' / BLK_SIZE) && e < ENTRIES_PER_BLK * (size' / BLK_SIZE)
  {
    hide DirOf, DirOK;
  }

  /** The directory once the name and then the number are in. */
  lemma NamePut(v: View, zs: Zones, k: nat, n: nat, v1: View, zs1: Zones, size': nat, e: nat, s: CStr, num: nat,
                v2: View)
    requires s != [] && |s| != NAME_LEN && Directory.Entered(v, zs, k, n, v1, zs1, size', e, Prefix(s, Cut(|s|)))
    requires n <= MAX_BLKS && size' / BLK_SIZE <= MAX_BLKS && DirSetTo(v1, v2, zs1, k, size' / BLK_SIZE, e, num, true)
    ensures DirOf(v2, zs1, k, size' / BLK_SIZE) == Put(DirOf(v, zs, k, n), DirEnt(num, Stored(s)))
  {
    hide DirOf, DirOK, EntAt;
    var grew, dir := size' / BLK_SIZE == n + 1, DirOf(v, zs, k, n);
    assert Prefix(s, Cut(|s|)) == Stored(s);
    assert grew ==> forall i :: 0 <= i < |dir| ==> Grown(dir, grew)[i] == dir[i];
    PutIs(DirOf(v, zs, k, n), grew, e, Stored(s), num);
  }

  /** What an entry of the table says of its object. */
  lemma InTable(t: Table, d: nat)
    requires t.Valid() && d < NR_INODE && t.mem[d].dev != 0
    ensures |t.obj| == |t.mem| == NR_INODE && NoAlias(t.obj) && Snap(t.obj[d]) == t.mem[d] && t.mem[d].num in t.ino
    ensures t.mem[d].ino == t.ino[t.mem[d].num]
    ensures t.fs.Valid() && t.fs.Loaded(t.obj[d]) && t.mem[d].ino.Fits() && 0 < t.mem[d].num < NR_INODES
    ensures t.mem[d].num in t.fs.zones && t.fs.zones[t.mem[d].num] == t.mem[d].ino.zone
  {
    hide FileSys.Base, Owned, UsedOf, Consistent, NoAlias, ZBit;
    EntryIs(t.Now(), d);
  }

  // ---------- steps that keep the tree as it is ----------

  /** The device has these directories and link counts. */
  ghost predicate Shows(t: Table, dir: map<nat, seq<DirEnt>>, nlinks: map<nat, nat>)
    reads t, t.obj, t.fs, t.fs.cache, t.fs.area
  {
    t.Valid() && TreeIs(t.ino, t.fs.cache.view, t.fs.zones, dir, nlinks)
  }

  /** Every entry has the inode that it had and is held as often, but entries a and b once less
      each; with NR_INODE for a or b, none. */
  ghost predicate Less(mem: seq<Mem>, mem': seq<Mem>, a: nat, b: nat) {
    |mem'| == |mem| && forall q :: 0 <= q < |mem| ==>
      && mem'[q].num == mem[q].num && mem'[q].dev == mem[q].dev
      && mem'[q].cnt == mem[q].cnt - (if q == a then 1 else 0) - (if q == b then 1 else 0)
  }

  lemma LessTwice(mem: seq<Mem>, mem1: seq<Mem>, mem2: seq<Mem>, a: nat, b: nat)
    requires Less(mem, mem1, a, NR_INODE) && Less(mem1, mem2, b, NR_INODE) && |mem| <= NR_INODE
    ensures Less(mem, mem2, a, b) && Less(mem, mem2, b, a)
  {
  }

  lemma LessSwap(mem: seq<Mem>, mem': seq<Mem>, a: nat, b: nat)
    requires Less(mem, mem', a, b)
    ensures Less(mem, mem', b, a)
  {
  }

  lemma LessAgain(mem: seq<Mem>, mem1: seq<Mem>, mem2: seq<Mem>, a: nat, b: nat)
    requires Less(mem, mem1, NR_INODE, a) && Less(mem1, mem2, b, NR_INODE) && |mem| <= NR_INODE
    ensures Less(mem, mem2, b, a)
  {
  }

  lemma LessNone(mem: seq<Mem>, mem1: seq<Mem>, mem2: seq<Mem>, a: nat, b: nat)
    requires Less(mem, mem1, NR_INODE, NR_INODE) && Less(mem1, mem2, a, b) && |mem| <= NR_INODE
    ensures Less(mem, mem2, a, b)
  {
  }

  lemma LetGoLess(c: Inodes, i: nat, c': Inodes)
    requires LetGo(c, i, c') && |c.mem| <= NR_INODE
    ensures Less(c.mem, c'.mem, i, NR_INODE)
  {
  }

  lemma OneChanged(mem: seq<Mem>, i: nat, x: Mem)
    requires i < |mem| <= NR_INODE && x.num == mem[i].num && x.dev == mem[i].dev && x.cnt == mem[i].cnt
    ensures Less(mem, mem[i := x], NR_INODE, NR_INODE)
  {
  }

  /** Every entry that was held has the inode that it had and is held as often, but entry d once
      less. */
  ghost predicate OnlyLess(mem: seq<Mem>, mem': seq<Mem>, d: nat) {
    |mem'| == |mem| && forall q :: 0 <= q < |mem| && mem[q].cnt > 0 ==>
      mem'[q].num == mem[q].num && mem'[q].dev == mem[q].dev && mem'[q].cnt == mem[q].cnt - if q == d then 1 else 0
  }

  /** Entry i is held once more, and all other entries that were held are as before. */
  ghost predicate OneMore(mem: seq<Mem>, mem': seq<Mem>, i: nat) {
    |mem'| == |mem| && i < |mem| && mem'[i].cnt == mem[i].cnt + 1 && forall q :: 0 <= q < |mem| && mem[q].cnt > 0 ==>
      mem'[q].num == mem[q].num && mem'[q].dev == mem[q].dev && (q != i ==> mem'[q].cnt == mem[q].cnt)
  }

  /** Every entry that was held is as before. */
  ghost predicate SameHeld(mem: seq<Mem>, mem': seq<Mem>) {
    |mem'| == |mem| && forall q :: 0 <= q < |mem| && mem[q].cnt > 0 ==>
      mem'[q].num == mem[q].num && mem'[q].dev == mem[q].dev && mem'[q].cnt == mem[q].cnt
  }

  lemma SameLess(mem: seq<Mem>, mem1: seq<Mem>, mem2: seq<Mem>, d: nat, r: nat)
    requires SameHeld(mem, mem1) && Less(mem1, mem2, d, r) && (r < |mem| ==> mem[r].cnt == 0)
    ensures OnlyLess(mem, mem2, d)
  {
  }

  lemma HeldSame(mem: seq<Mem>, d: nat)
    ensures SameHeld(mem, mem) && (d < |mem| ==> SameHold(mem, d, mem))
  {
  }

  lemma MadeHeld(c: Inodes, im: seq<Block>, r: int, uid: nat, mode: nat, mtime: nat, c': Inodes, im': seq<Block>)
    requires MadeFrom(c, im, r, uid, mode, mtime, c', im')
    ensures SameHeld(c.mem, c'.mem) && 0 <= r < |c.mem| && c.mem[r].cnt == 0
  {
    hide FirstZero, MovedIn;
    forall q | 0 <= q < |c.mem| && c.mem[q].cnt > 0
      ensures Cleaner(c.mem[q], c'.mem[q])
    {
    }
  }

  /** A hold that is let go again. */
  lemma MoreLess(mem: seq<Mem>, mem1: seq<Mem>, mem2: seq<Mem>, i: nat, d: nat)
    requires OneMore(mem, mem1, i) && Less(mem1, mem2, i, d)
    ensures OnlyLess(mem, mem2, d)
  {
  }

  lemma OnlyLessOf(mem: seq<Mem>, mem': seq<Mem>, d: nat)
    requires Less(mem, mem', d, NR_INODE) && |mem| <= NR_INODE
    ensures OnlyLess(mem, mem', d)
  {
  }

  /** iput of an inode that has a link or is marked. */
  method LetGoOf(t: Table, i: nat, ghost dir: map<nat, seq<DirEnt>>, ghost nlinks: map<nat, nat>)
    requires Shows(t, dir, nlinks) && i < NR_INODE && t.mem[i].cnt > 0 && !Reclaims(t.mem[i])
    requires |t.fs.cache.refs| + 2 < |t.fs.cache.h.key|
    modifies t, t.obj[i], t.fs, t.fs.cache, t.fs.area
    ensures Shows(t, dir, nlinks) && LetGo(old(t.Now()), i, t.Now())
    ensures t.fs.zones == old(t.fs.zones) && t.fs.zmap == old(t.fs.zmap) && t.imaps == old(t.imaps)
    ensures HoldsKept(old(t.fs.cache.Now()), t.fs.cache.Now())
    ensures StillThere(old(t.fs.cache.view), old(t.fs.zones), t.fs.cache.view, t.fs.zones)
  {
    hide Table.Valid, TreeIs, StillThere, HoldsKept, OthersKept, OutOfUse, WithZBit;
    ghost var v, zs, ino := t.fs.cache.view, t.fs.zones, t.ino;
    Entries64(t);
    t.Iput(i);
    TreeStill(ino, v, zs, t.fs.cache.view, zs, dir, nlinks);
  }

  lemma Entries64(t: Table)
    requires t.Valid()
    ensures |t.mem| == |t.obj| == NR_INODE
  {
  }

  /** The inode map has no bit that new_inode could take. */
  ghost predicate NoBit(imaps: seq<Block>) {
    |imaps| == ZMAP_SLOTS && forall m :: 0 <= m < ZMAP_SLOTS ==> !HasZero(imaps, m)
  }

  /** new_inode for a file. */
  method NewFile(t: Table, uid: nat, mode: nat, mtime: nat, ghost dir: map<nat, seq<DirEnt>>,
                 ghost nlinks: map<nat, nat>) returns (r: int)
    requires Shows(t, dir, nlinks) && HasRoom(t.mem) && |t.fs.cache.refs| + 2 < |t.fs.cache.h.key|
    requires t.mem[Victim(t.mem)].ino.zone == NoZones() && !IsDir(mode)
    requires uid < 0x1_0000 && mode < 0x1_0000 && mtime < 0x1_0000_0000
    modifies t, t.obj, t.fs`zones, t.fs.cache, t.fs.area
    ensures t.Valid() && HoldsKept(old(t.fs.cache.Now()), t.fs.cache.Now())
    ensures r == -1 <==> NoBit(old(t.imaps))
    ensures StillThere(old(t.fs.cache.view), old(t.fs.zones), t.fs.cache.view, t.fs.zones)
    ensures r == -1 ==> Shows(t, dir, nlinks) && t.mem == old(t.mem)
    ensures r != -1 ==> |old(t.mem)| == NR_INODE && r == Victim(old(t.mem))
    ensures r != -1 ==> MadeFrom(old(t.Now()), old(t.imaps), r, uid, mode, mtime, t.Now(), t.imaps)
    ensures r != -1 ==> t.mem[r].num !in old(t.ino) && Shows(t, dir, nlinks[t.mem[r].num := 1])
  {
    hide Table.Valid, TreeIs, StillThere, HoldsKept, HasRoom, Victim, NoZones, HasZero, FirstZero, WithZBit, MovedIn;
    ghost var v, zs, ino := t.fs.cache.view, t.fs.zones, t.ino;
    StillSelf(v, zs);
    Entries64(t);
    ImapSize(t);
    r := t.NewInode(uid, mode, mtime);
    if r != -1 {
      TreeStill(ino, v, zs, t.fs.cache.view, t.fs.zones, dir, nlinks);
      TreeNew(ino, t.fs.cache.view, t.fs.zones, dir, nlinks, t.mem[r].num, t.mem[r].ino);
    }
  }

  lemma ImapSize(t: Table)
    requires t.Valid()
    ensures |t.imaps| == ZMAP_SLOTS
  {
  }

  /** Entry d is a held directory of the tree. */
  ghost predicate AtDir(mem: seq<Mem>, d: nat, dir: map<nat, seq<DirEnt>>, nlinks: map<nat, nat>) {
    d < |mem| == NR_INODE && mem[d].dev != 0 && mem[d].cnt > 0 && mem[d].num in dir && mem[d].num !in nlinks
  }

  lemma AtDirHeld(t: Table, d: nat, dir: map<nat, seq<DirEnt>>, nlinks: map<nat, nat>)
    requires Shows(t, dir, nlinks) && AtDir(t.mem, d, dir, nlinks)
    ensures HeldDir(t, d, dir[t.mem[d].num]) && |t.obj| == NR_INODE && t.mem[d].ino.nlinks > 0
    ensures IsDir(t.mem[d].ino.mode)
  {
    hide Table.Valid, DirOK, DirOf;
    InTable(t, d);
  }

  /** Slot e of directory k is the one with the name, or there is none. */
  predicate SlotOf(dir: map<nat, seq<DirEnt>>, k: nat, s: CStr, found: bool, e: nat) {
    k in dir && (found <==> s != [] && IndexOf(dir[k], Stored(s), 0) < |dir[k]|) && (found ==> e == IndexOf(dir[k], Stored(s), 0))
  }

  /** The name is looked up in the directory. */
  method FindName(t: Table, d: nat, s: CStr, ghost dir: map<nat, seq<DirEnt>>, ghost nlinks: map<nat, nat>)
    returns (found: bool, b: nat, j: nat, ghost e: nat)
    requires Shows(t, dir, nlinks) && AtDir(t.mem, d, dir, nlinks) && |t.fs.cache.refs| + 2 < |t.fs.cache.h.key|
    requires Short(dir[t.mem[d].num])
    modifies t.obj[d], t.fs, t.fs.cache
    ensures Shows(t, dir, nlinks) && t.fs.cache.view == old(t.fs.cache.view) && t.fs.zones == old(t.fs.zones)
    ensures |t.fs.cache.h.key| == |old(t.fs.cache.h.key)|
    ensures !found ==> t.fs.cache.refs == old(t.fs.cache.refs)
    ensures SlotOf(dir, t.mem[d].num, s, found, e)
    ensures found ==> Holds(t.fs.cache.view, t.fs.zones, t.mem[d].num, e, b, j, old(t.fs.cache.refs), t.fs.cache.Now())
  {
    hide Table.Valid, TreeIs, Holds, Short, HeldDir;
    AtDirHeld(t, d, dir, nlinks);
    found, b, j, e := Lookup(t, d, s, dir[t.mem[d].num]);
  }

  /** A name that is not there is entered for inode num. */
  method EnterName(t: Table, d: nat, s: CStr, num: nat, ghost dir: map<nat, seq<DirEnt>>, ghost nlinks: map<nat, nat>)
    returns (ok: bool)
    requires Shows(t, dir, nlinks) && AtDir(t.mem, d, dir, nlinks) && |t.fs.cache.refs| + 2 < |t.fs.cache.h.key|
    requires s != [] && |s| != NAME_LEN && num < 0x1_0000
    modifies t`mem, t`ino, t.obj[d], t.fs, t.fs.cache
    ensures t.fs.cache.refs == old(t.fs.cache.refs) && |t.fs.cache.h.key| == |old(t.fs.cache.h.key)|
    ensures AtDir(t.mem, d, dir, nlinks) && t.mem[d].num == old(t.mem[d].num)
    ensures Shows(t, WithName(dir, t.mem[d].num, s, num, ok), nlinks)
    ensures |old(t.mem)| == |t.mem| && t.mem == old(t.mem)[d := t.mem[d]] && GrownFrom(old(t.mem)[d], t.mem[d])
    ensures OthersKept(old(t.fs.cache.view), old(t.fs.zones), t.fs.cache.view, t.fs.zones, t.mem[d].num)
    ensures !ok ==> NoRoom(t.fs, dir[t.mem[d].num])
  {
    hide Table.Valid, TreeIs, HeldDir, OthersKept, NoRoom, DirIs, Put;
    AtDirHeld(t, d, dir, nlinks);
    ghost var k, v, zs, ino := t.mem[d].num, t.fs.cache.view, t.fs.zones, t.ino;
    ok := Enter(t, d, s, num, dir[k]);
    TreeDir(ino, v, zs, t.fs.cache.view, t.fs.zones, dir, nlinks, k, t.mem[d].ino, WithName(dir, k, s, num, ok)[k]);
    assert !ok ==> dir[k := dir[k]] == dir;
  }

  function WithName(dir: map<nat, seq<DirEnt>>, k: nat, s: CStr, num: nat, ok: bool): map<nat, seq<DirEnt>>
    requires k in dir
  {
    if ok then dir[k := Put(dir[k], DirEnt(num, Stored(s)))] else dir
  }

  /** The buffer of a slot that was found is let go. */
  method Unhold(t: Table, ghost k: nat, ghost e: nat, b: nat, j: nat, ghost dir: map<nat, seq<DirEnt>>,
                ghost nlinks: map<nat, nat>, ghost refs: map<Key, nat>)
    requires Shows(t, dir, nlinks) && Holds(t.fs.cache.view, t.fs.zones, k, e, b, j, refs, t.fs.cache.Now())
    modifies t.fs.cache
    ensures Shows(t, dir, nlinks) && t.fs.cache.view == old(t.fs.cache.view) && t.fs.cache.refs == refs
    ensures |t.fs.cache.h.key| == |old(t.fs.cache.h.key)|
  {
    hide Cache.Valid, PinsKept, State.Only, LowOk, Owned, UsedOf, Consistent, NoAlias, InUseOk, TreeIs, Ptr,
      DataSlot, Dropped;
    t.fs.cache.Brelse(b, HeldKey(t.fs.cache.view, t.fs.zones, k, e));
  }

  /** The slot that was found is cleared. */
  method StrikeName(t: Table, ghost d: nat, ghost e: nat, b: nat, j: nat, ghost refs: map<Key, nat>,
                    ghost dir: map<nat, seq<DirEnt>>, ghost nlinks: map<nat, nat>)
    requires Shows(t, dir, nlinks) && AtDir(t.mem, d, dir, nlinks) && e < |dir[t.mem[d].num]|
    requires Holds(t.fs.cache.view, t.fs.zones, t.mem[d].num, e, b, j, refs, t.fs.cache.Now())
    modifies t.fs.cache
    ensures t.fs.cache.refs == refs && |t.fs.cache.h.key| == |old(t.fs.cache.h.key)|
    ensures Shows(t, Struck(dir, t.mem[d].num, e), nlinks)
    ensures OthersKept(old(t.fs.cache.view), t.fs.zones, t.fs.cache.view, t.fs.zones, t.mem[d].num)
  {
    hide FileSys.Valid, TreeIs, OthersKept, DirOK, DirOf, Holds, Consistent, NoAlias, InUseOk;
    AtDirHeld(t, d, dir, nlinks);
    ghost var k, v, zs, x := t.mem[d].num, t.fs.cache.view, t.fs.zones, t.mem[d].ino;
    InTable(t, d);
    DirSize(v, zs, k, x.size / BLK_SIZE);
    ClearSlot(t.fs, k, x.size / BLK_SIZE, e, b, j, refs);
    TreeDir(t.ino, v, zs, t.fs.cache.view, zs, dir, nlinks, k, x, dir[k][e := DirEnt(0, [])]);
    assert t.ino[k := x] == t.ino;
  }

  function Struck(dir: map<nat, seq<DirEnt>>, k: nat, e: nat): map<nat, seq<DirEnt>>
    requires k in dir && e < |dir[k]|
  {
    dir[k := dir[k][e := DirEnt(0, [])]]
  }

  predicate LinksSet(mem: seq<Mem>, i: nat, n: nat, mem': seq<Mem>) {
    i < |mem| && mem' == mem[i := mem[i].(ino := mem[i].ino.(nlinks := n), dirt := true)]
  }

  /** A link count is set. */
  method SetCount(t: Table, i: nat, n: nat, ghost dir: map<nat, seq<DirEnt>>, ghost nlinks: map<nat, nat>)
    requires Shows(t, dir, nlinks) && i < NR_INODE && t.mem[i].dev != 0 && t.mem[i].num in nlinks
    requires t.mem[i].num !in dir && n < 0x100
    modifies t`mem, t`ino, t.obj[i]
    ensures LinksSet(old(t.mem), i, n, t.mem) && Shows(t, dir, nlinks[old(t.mem[i].num) := n])
  {
    hide Table.Valid, TreeIs;
    InTable(t, i);
    ghost var ino, k := t.ino, t.mem[i].num;
    NoDir(t, dir, nlinks, k);
    t.SetLinks(i, n);
    TreeLinks(ino, t.fs.cache.view, t.fs.zones, dir, nlinks, k, t.mem[i].ino);
  }

  lemma NoDir(t: Table, dir: map<nat, seq<DirEnt>>, nlinks: map<nat, nat>, k: nat)
    requires Shows(t, dir, nlinks) && k in nlinks
    ensures k in t.ino && !IsDir(t.ino[k].mode) && t.ino[k].nlinks == nlinks[k]
  {
    hide Table.Valid, DirIs;
  }

  // ---------- creating, linking and unlinking ----------

  /** What open with O_CREAT and O_EXCL does to directories and link counts: nothing if the name
      is there or the inode map has no bit to take; else a file num with one link is made and
      named, or with none if the directory has no room for its name. */
  ghost predicate Created(dir: map<nat, seq<DirEnt>>, nlinks: map<nat, nat>, k: nat, s: CStr, bit: bool, room: bool, num: nat,
                          r: int, dir': map<nat, seq<DirEnt>>, nlinks': map<nat, nat>)
  {
    k in dir &&
    if s == [] || IndexOf(dir[k], Stored(s), 0) < |dir[k]| || !bit then r == -1 && dir' == dir && nlinks' == nlinks
    else if room then num !in dir && num !in nlinks && r != -1 && dir' == dir[k := Put(dir[k], DirEnt(num, Stored(s)))] && nlinks' == nlinks[num := 1]
    else num !in dir && num !in nlinks && r == -1 && dir' == dir && nlinks' == nlinks[num := 0]
  }

  lemma CreatedTidy(dir: map<nat, seq<DirEnt>>, nlinks: map<nat, nat>, k: nat, s: CStr, num: nat, ok: bool)
    requires Tidy(dir, nlinks) && k in dir && num !in dir && num !in nlinks && s != [] && |s| != NAME_LEN
    requires IndexOf(dir[k], Stored(s), 0) == |dir[k]|
    ensures Tidy(WithName(dir, k, s, num, ok), nlinks[num := if ok then 1 else 0])
  {
    hide Put, Refs, UniqueNames, Short;
    FreshRefs(dir, nlinks, num);
    var x, n0 := DirEnt(num, Stored(s)), nlinks[num := 0];
    MoreKnown(dir, nlinks, n0);
    if ok {
      PutKeeps(dir, n0, k, x);
      PutKnown(dir, k, x, n0, n0[num := 1]);
      assert n0[num := 1] == nlinks[num := 1];
    }
  }

  /** Nothing names an inode that is not in use. */
  lemma FreshRefs(dir: map<nat, seq<DirEnt>>, nlinks: map<nat, nat>, num: nat)
    requires Known(dir, nlinks) && num !in dir && num !in nlinks
    ensures Refs(dir, num) == {}
  {
  }

  /** A new file, in entry r, is named in the directory of entry d; without room for the name it
      is let go without a link. */
  method NameNew(t: Table, d: nat, r: nat, s: CStr, ghost k: nat, ghost num: nat, ghost dir: map<nat, seq<DirEnt>>,
                 ghost nlinks: map<nat, nat>) returns (ok: bool)
    requires NewIn(t.mem, d, r, s, k, num, dir, nlinks) && Shows(t, dir, nlinks[num := 1])
    requires |t.fs.cache.refs| + 2 < |t.fs.cache.h.key|
    modifies t, t.obj, t.fs, t.fs.cache, t.fs.area
    ensures Shows(t, WithName(dir, k, s, num, ok), nlinks[num := if ok then 1 else 0])
    ensures t.fs.cache.refs == old(t.fs.cache.refs) && |t.fs.cache.h.key| == |old(t.fs.cache.h.key)|
    ensures AtDir(t.mem, d, dir, nlinks) && t.mem[d].num == k && SameHold(old(t.mem), d, t.mem)
    ensures ok ==> NewHeld(t.mem, r, num) && r < |old(t.mem)| && t.mem[r] == old(t.mem)[r]
    ensures !ok ==> FullDir(t.fs, dir, k)
    ensures OthersKept(old(t.fs.cache.view), old(t.fs.zones), t.fs.cache.view, t.fs.zones, k)
    ensures Less(old(t.mem), t.mem, NR_INODE, if ok then NR_INODE else r)
  {
    hide Shows, StillThere, HoldsKept, OthersKept, NoRoom, Put, UnusedFrom, IndexOf, GrownFrom, Less;
    ghost var v, zs, nl := t.fs.cache.view, t.fs.zones, nlinks[num := 1];
    AtDirHeld(t, d, dir, nl);
    Mirrored(t, dir, nl, r);
    ok := EnterName(t, d, s, t.obj[r].num, dir, nl);
    GrownSame(old(t.mem)[d], t.mem[d]);
    OneChanged(old(t.mem), d, t.mem[d]);
    ghost var mem1 := t.mem;
    if !ok {
      ghost var v1, zs1, s1 := t.fs.cache.view, t.fs.zones, t.fs.cache.Now();
      Unnamed(t, r, d, num, dir, nl);
      LessNone(old(t.mem), mem1, t.mem, NR_INODE, r);
      HoldsSizes(s1, t.fs.cache.Now());
      StillOthers(v1, zs1, t.fs.cache.view, t.fs.zones, k);
      OthersTwice(v, zs, v1, zs1, t.fs.cache.view, t.fs.zones, k);
      assert nl[num := 0] == nlinks[num := 0];
    }
  }

  lemma GrownSame(x: Mem, x': Mem)
    requires GrownFrom(x, x')
    ensures x'.num == x.num && x'.dev == x.dev && x'.cnt == x.cnt
  {
  }

  /** The new file is left without a link (fs/namei.c:273-274). */
  method Unnamed(t: Table, r: nat, ghost d: nat, ghost num: nat, ghost dir: map<nat, seq<DirEnt>>,
                 ghost nl: map<nat, nat>)
    requires Shows(t, dir, nl) && AtDir(t.mem, d, dir, nl) && r < NR_INODE && r != d
    requires |t.fs.cache.refs| + 2 < |t.fs.cache.h.key|
    requires t.mem[r].dev != 0 && t.mem[r].dirt && t.mem[r].cnt == 1 && t.mem[r].num == num && num in nl && num !in dir
    modifies t, t.obj, t.fs, t.fs.cache, t.fs.area
    ensures Shows(t, dir, nl[num := 0]) && HoldsKept(old(t.fs.cache.Now()), t.fs.cache.Now())
    ensures t.fs.zmap == old(t.fs.zmap)
    ensures d < |old(t.mem)| == |t.mem| && t.mem[d] == old(t.mem)[d]
    ensures StillThere(old(t.fs.cache.view), old(t.fs.zones), t.fs.cache.view, t.fs.zones)
    ensures Less(old(t.mem), t.mem, NR_INODE, r)
  {
    hide Shows, StillThere, HoldsKept, Less;
    Mirrored(t, dir, nl, r);
    SetCount(t, r, 0, dir, nl);
    ghost var c1 := t.Now();
    OneChanged(old(t.mem), r, c1.mem[r]);
    LetGoOf(t, r, dir, nl[num := 0]);
    LetGoLess(c1, r, t.Now());
    LessNone(old(t.mem), c1.mem, t.mem, r, NR_INODE);
    LessSwap(old(t.mem), t.mem, r, NR_INODE);
  }

  // ---------- steps of link and unlink ----------

  /** What is held is held on, over steps that keep all files and all holds. */
  lemma HoldsStill(v: View, zs: Zones, v': View, zs': Zones, k: nat, e: nat, b: nat, j: nat, refs: map<Key, nat>,
                   c: State, c': State)
    requires Holds(v, zs, k, e, b, j, refs, c) && StillThere(v, zs, v', zs') && HoldsKept(c, c')
    ensures Holds(v', zs', k, e, b, j, refs, c') && |c'.key| == |c.key| && |c'.refs| <= |refs| + 1
  {
    hide DataSlot, Dropped;
  }

  lemma HoldsSize(v: View, zs: Zones, k: nat, e: nat, b: nat, j: nat, refs: map<Key, nat>, c: State)
    requires Holds(v, zs, k, e, b, j, refs, c)
    ensures |c.refs| <= |refs| + 1
  {
    hide Dropped;
  }

  /** The inode number in the slot that was found. */
  method SlotIno(t: Table, d: nat, ghost e: nat, b: nat, j: nat, ghost refs: map<Key, nat>,
                 ghost dir: map<nat, seq<DirEnt>>, ghost nlinks: map<nat, nat>) returns (num: nat)
    requires Shows(t, dir, nlinks) && AtDir(t.mem, d, dir, nlinks) && e < |dir[t.mem[d].num]|
    requires Holds(t.fs.cache.view, t.fs.zones, t.mem[d].num, e, b, j, refs, t.fs.cache.Now())
    ensures num == dir[t.mem[d].num][e].ino
  {
    hide Cache.Valid, State.Only, LowOk, Owned, UsedOf, TreeIs, DirOK, DirOf, Ptr, DataSlot, Consistent, NoAlias,
      InUseOk, Dropped, EntAt;
    AtDirHeld(t, d, dir, nlinks);
    ghost var v, zs, k, n := t.fs.cache.view, t.fs.zones, t.mem[d].num, t.mem[d].ino.size / BLK_SIZE;
    DirSize(v, zs, k, n);
    t.fs.cache.Reads(b, HeldKey(v, zs, k, e));
    t.fs.cache.Total();
    SlotAt(v, zs, k, n, e);
    num := EntAt(t.fs.cache.h.data[b], j).ino;
  }

  /** iget, for a holder of the directory in entry d. */
  method GetInode(t: Table, num: nat, ghost d: nat, ghost dir: map<nat, seq<DirEnt>>, ghost nlinks: map<nat, nat>)
    returns (i: nat)
    requires Shows(t, dir, nlinks) && AtDir(t.mem, d, dir, nlinks) && (num in dir || num in nlinks)
    requires |t.fs.cache.refs| < |t.fs.cache.h.key|
    requires num in t.at || HasRoom(t.mem)
    modifies t`mem, t`at, t.obj, t.fs.cache, t.fs.area
    ensures Shows(t, dir, nlinks) && AtDir(t.mem, d, dir, nlinks) && |old(t.mem)| == NR_INODE
    ensures t.mem[d].num == old(t.mem)[d].num
    ensures i < NR_INODE && t.mem[i].dev != 0 && t.mem[i].num == num && t.mem[i].cnt > (if i == d then 1 else 0)
    ensures StillThere(old(t.fs.cache.view), t.fs.zones, t.fs.cache.view, t.fs.zones)
    ensures HoldsKept(old(t.fs.cache.Now()), t.fs.cache.Now())
    ensures OneMore(old(t.mem), t.mem, i)
  {
    hide Table.Valid, TreeIs, StillThere, HoldsKept, HasRoom, Victim, MovedIn;
    ghost var v, mem := t.fs.cache.view, t.mem;
    InUseIs(t, dir, nlinks);
    i := t.Iget(num);
    assert i != d ==> Cleaner(mem[d], t.mem[d]);
    TreeStill(t.ino, v, t.fs.zones, t.fs.cache.view, t.fs.zones, dir, nlinks);
  }

  /** Two inodes are let go. */
  method LetGoTwo(t: Table, i: nat, d: nat, ghost dir: map<nat, seq<DirEnt>>, ghost nlinks: map<nat, nat>)
    requires Shows(t, dir, nlinks) && AtDir(t.mem, d, dir, nlinks) && |t.fs.cache.refs| + 2 < |t.fs.cache.h.key|
    requires i < NR_INODE && t.mem[i].cnt > (if i == d then 1 else 0) && !Reclaims(t.mem[i])
    modifies t, t.obj, t.fs, t.fs.cache, t.fs.area
    ensures Shows(t, dir, nlinks) && HoldsKept(old(t.fs.cache.Now()), t.fs.cache.Now()) && t.fs.zmap == old(t.fs.zmap)
    ensures StillThere(old(t.fs.cache.view), old(t.fs.zones), t.fs.cache.view, t.fs.zones)
    ensures Less(old(t.mem), t.mem, i, d)
  {
    hide Shows, StillThere, HoldsKept, Less;
    ghost var v, zs, s0, c := t.fs.cache.view, t.fs.zones, t.fs.cache.Now(), t.Now();
    Mirrored(t, dir, nlinks, i);
    LetGoOf(t, i, dir, nlinks);
    ghost var c1 := t.Now();
    LetGoLess(c, i, c1);
    ghost var v1, zs1, s1 := t.fs.cache.view, t.fs.zones, t.fs.cache.Now();
    HoldsSizes(s0, s1);
    AtDirHeld(t, d, dir, nlinks);
    LetGoOf(t, d, dir, nlinks);
    LetGoLess(c1, d, t.Now());
    LessTwice(c.mem, c1.mem, t.mem, i, d);
    HoldsTwice(s0, s1, t.fs.cache.Now());
    StillTwice(v, zs, v1, zs1, t.fs.cache.view, t.fs.zones);
  }

  /** unlink gives up on a directory (fs/namei.c:676-681). */
  method LeaveBoth(t: Table, i: nat, d: nat, ghost k: nat, ghost e: nat, b: nat, j: nat, ghost refs: map<Key, nat>,
                   ghost dir: map<nat, seq<DirEnt>>, ghost nlinks: map<nat, nat>)
    requires Shows(t, dir, nlinks) && AtDir(t.mem, d, dir, nlinks) && t.mem[d].num == k
    requires |refs| + 3 < |t.fs.cache.h.key|
    requires i < NR_INODE && t.mem[i].cnt > (if i == d then 1 else 0) && !Reclaims(t.mem[i])
    requires Holds(t.fs.cache.view, t.fs.zones, k, e, b, j, refs, t.fs.cache.Now())
    modifies t, t.obj, t.fs, t.fs.cache, t.fs.area
    ensures Shows(t, dir, nlinks) && t.fs.cache.refs == refs && |t.fs.cache.h.key| == |old(t.fs.cache.h.key)|
    ensures StillThere(old(t.fs.cache.view), old(t.fs.zones), t.fs.cache.view, t.fs.zones)
    ensures Less(old(t.mem), t.mem, i, d)
  {
    hide Shows, StillThere, HoldsKept, Holds;
    ghost var v, zs, s0 := t.fs.cache.view, t.fs.zones, t.fs.cache.Now();
    HoldsSize(v, zs, k, e, b, j, refs, s0);
    LetGoTwo(t, i, d, dir, nlinks);
    HoldsStill(v, zs, t.fs.cache.view, t.fs.zones, k, e, b, j, refs, s0, t.fs.cache.Now());
    Unhold(t, k, e, b, j, dir, nlinks, refs);
  }

  /** unlink clears the slot of a file and counts its link off (fs/namei.c:683-699). */
  method StrikeAndCount(t: Table, i: nat, d: nat, ghost k: nat, ghost num: nat, ghost e: nat, b: nat, j: nat, ghost refs: map<Key, nat>,
                        ghost dir: map<nat, seq<DirEnt>>, ghost nlinks: map<nat, nat>)
    requires Shows(t, dir, nlinks) && AtDir(t.mem, d, dir, nlinks) && t.mem[d].num == k && e < |dir[k]|
    requires |refs| + 3 < |t.fs.cache.h.key|
    requires i < NR_INODE && i != d && t.mem[i].dev != 0 && t.mem[i].cnt > 0 && t.mem[i].num == num && num in nlinks
    requires num !in dir && nlinks[num] > 0
    requires Holds(t.fs.cache.view, t.fs.zones, k, e, b, j, refs, t.fs.cache.Now())
    modifies t, t.obj, t.fs, t.fs.cache, t.fs.area
    ensures Shows(t, Struck(dir, k, e), nlinks[num := nlinks[num] - 1])
    ensures t.fs.cache.refs == refs && |t.fs.cache.h.key| == |old(t.fs.cache.h.key)|
    ensures OthersKept(old(t.fs.cache.view), old(t.fs.zones), t.fs.cache.view, t.fs.zones, k)
    ensures Less(old(t.mem), t.mem, i, d)
  {
    hide Shows, StillThere, HoldsKept, Holds, OthersKept, Less;
    ghost var v, zs, dir1, nl1 := t.fs.cache.view, t.fs.zones, Struck(dir, k, e), nlinks[num := nlinks[num] - 1];
    LinksIs(t, dir, nlinks, i);
    Mirrored(t, dir, nlinks, i);
    if t.obj[i].nlinks == 0 {
      assert false;
    }
    var n := t.obj[i].nlinks - 1;
    StrikeName(t, d, e, b, j, refs, dir, nlinks);
    ghost var v1, zs1 := t.fs.cache.view, t.fs.zones;
    SetCount(t, i, n, dir1, nlinks);
    ghost var mem1 := t.mem;
    OneChanged(old(t.mem), i, mem1[i]);
    ghost var s1 := t.fs.cache.Now();
    LetGoTwo(t, i, d, dir1, nl1);
    LessNone(old(t.mem), mem1, t.mem, i, d);
    HoldsSizes(s1, t.fs.cache.Now());
    StillOthers(v1, zs1, t.fs.cache.view, t.fs.zones, k);
    OthersTwice(v, zs, v1, zs1, t.fs.cache.view, t.fs.zones, k);
  }

  /** link enters the new name, lets the directory go, and counts the link (fs/namei.c:619-635);
      without room for the name it gives up. */
  method LinkName(t: Table, i: nat, d: nat, s: CStr, ghost k: nat, ghost num: nat, ghost dir: map<nat, seq<DirEnt>>,
                  ghost nlinks: map<nat, nat>) returns (ok: bool)
    requires Shows(t, dir, nlinks) && AtDir(t.mem, d, dir, nlinks) && t.mem[d].num == k
    requires |t.fs.cache.refs| + 2 < |t.fs.cache.h.key|
    requires FileEntry(t.mem, i, num) && i != d && num in nlinks && num !in dir && s != [] && |s| != NAME_LEN
    modifies t, t.obj, t.fs, t.fs.cache, t.fs.area
    ensures Shows(t, WithName(dir, k, s, num, ok), if ok then nlinks[num := (nlinks[num] + 1) % 0x100] else nlinks)
    ensures t.fs.cache.refs == old(t.fs.cache.refs) && |t.fs.cache.h.key| == |old(t.fs.cache.h.key)|
    ensures !ok ==> FullDir(t.fs, dir, k)
    ensures OthersKept(old(t.fs.cache.view), old(t.fs.zones), t.fs.cache.view, t.fs.zones, k)
    ensures Less(old(t.mem), t.mem, i, d)
  {
    hide Shows, StillThere, HoldsKept, OthersKept, NoRoom, Put, UnusedFrom, IndexOf, GrownFrom, Less;
    ghost var v, zs := t.fs.cache.view, t.fs.zones;
    Mirrored(t, dir, nlinks, i);
    EntryNum(t, dir, nlinks, i);
    ok := EnterName(t, d, s, t.obj[i].num, dir, nlinks);
    GrownSame(old(t.mem)[d], t.mem[d]);
    OneChanged(old(t.mem), d, t.mem[d]);
    ghost var mem1 := t.mem;
    ghost var v1, zs1, s1 := t.fs.cache.view, t.fs.zones, t.fs.cache.Now();
    if ok {
      CountUp(t, i, d, num, WithName(dir, k, s, num, true), nlinks);
    } else {
      LetGoTwo(t, i, d, dir, nlinks);
    }
    LessNone(old(t.mem), mem1, t.mem, i, d);
    HoldsSizes(s1, t.fs.cache.Now());
    StillOthers(v1, zs1, t.fs.cache.view, t.fs.zones, k);
    OthersTwice(v, zs, v1, zs1, t.fs.cache.view, t.fs.zones, k);
  }

  /** link from the lookup on (fs/namei.c:608-637), for a file and a name that is not empty. */
  method LinkFile(t: Table, i: nat, d: nat, s: CStr, ghost k: nat, ghost num: nat, ghost dir: map<nat, seq<DirEnt>>,
                  ghost nlinks: map<nat, nat>)
    returns (ok: bool, ghost room: bool)
    requires Shows(t, dir, nlinks) && AtDir(t.mem, d, dir, nlinks) && t.mem[d].num == k
    requires |t.fs.cache.refs| + 3 < |t.fs.cache.h.key| && Short(dir[k])
    requires FileEntry(t.mem, i, num) && i != d && num in nlinks && num !in dir && s != [] && |s| != NAME_LEN
    modifies t, t.obj, t.fs, t.fs.cache, t.fs.area
    ensures Shows(t, WithName(dir, k, s, num, ok), if ok then nlinks[num := (nlinks[num] + 1) % 0x100] else nlinks)
    ensures ok <==> room && IndexOf(dir[k], Stored(s), 0) == |dir[k]|
    ensures t.fs.cache.refs == old(t.fs.cache.refs) && |t.fs.cache.h.key| == |old(t.fs.cache.h.key)|
    ensures !room ==> FullDir(t.fs, dir, k)
    ensures OthersKept(old(t.fs.cache.view), old(t.fs.zones), t.fs.cache.view, t.fs.zones, k)
    ensures Less(old(t.mem), t.mem, i, d)
  {
    hide Shows, StillThere, HoldsKept, OthersKept, Put, IndexOf, Holds, FullDir, Short, Less;
    room := true;
    Mirrored(t, dir, nlinks, i);
    MarkedStays(t.mem[i]);
    var found, b, j;
    ghost var e;
    found, b, j, e := FindName(t, d, s, dir, nlinks);
    if found {
      Unhold(t, k, e, b, j, dir, nlinks, old(t.fs.cache.refs));
      ghost var v, zs, s0 := t.fs.cache.view, t.fs.zones, t.fs.cache.Now();
      LetGoTwo(t, i, d, dir, nlinks);
      HoldsSizes(s0, t.fs.cache.Now());
      StillOthers(v, zs, t.fs.cache.view, t.fs.zones, k);
      return false, room;
    }
    ok := LinkName(t, i, d, s, k, num, dir, nlinks);
    room := ok;
  }

  /** Entry i has inode num, held and marked. */
  predicate FileEntry(mem: seq<Mem>, i: nat, num: nat) {
    i < |mem| == NR_INODE && mem[i].dev != 0 && mem[i].num == num && mem[i].cnt > 0 && mem[i].dirt
  }

  lemma EntryNum(t: Table, dir: map<nat, seq<DirEnt>>, nlinks: map<nat, nat>, i: nat)
    requires Shows(t, dir, nlinks) && i < NR_INODE && |t.mem| == NR_INODE && t.mem[i].dev != 0
    ensures t.mem[i].num < NR_INODES
  {
    hide Table.Valid, TreeIs;
    InTable(t, i);
  }

  method CountUp(t: Table, i: nat, d: nat, ghost num: nat, ghost dir: map<nat, seq<DirEnt>>,
                 ghost nlinks: map<nat, nat>)
    requires Shows(t, dir, nlinks) && AtDir(t.mem, d, dir, nlinks) && |t.fs.cache.refs| + 2 < |t.fs.cache.h.key|
    requires FileEntry(t.mem, i, num) && i != d && num in nlinks && num !in dir
    modifies t, t.obj, t.fs, t.fs.cache, t.fs.area
    ensures Shows(t, dir, nlinks[num := (nlinks[num] + 1) % 0x100])
    ensures HoldsKept(old(t.fs.cache.Now()), t.fs.cache.Now())
    ensures StillThere(old(t.fs.cache.view), old(t.fs.zones), t.fs.cache.view, t.fs.zones)
    ensures t.fs.zmap == old(t.fs.zmap)
    ensures Less(old(t.mem), t.mem, i, d)
  {
    hide Shows, StillThere, HoldsKept, Less;
    ghost var v, zs, s0, c := t.fs.cache.view, t.fs.zones, t.fs.cache.Now(), t.Now();
    AtDirHeld(t, d, dir, nlinks);
    LetGoOf(t, d, dir, nlinks);
    ghost var c1 := t.Now();
    LetGoLess(c, d, c1);
    ghost var v1, zs1, s1 := t.fs.cache.view, t.fs.zones, t.fs.cache.Now();
    HoldsSizes(s0, s1);
    LinksIs(t, dir, nlinks, i);
    Mirrored(t, dir, nlinks, i);
    SetCount(t, i, (t.obj[i].nlinks + 1) % 0x100, dir, nlinks);
    ghost var c2 := t.Now();
    OneChanged(c1.mem, i, c2.mem[i]);
    LetGoOf(t, i, dir, nlinks[num := (nlinks[num] + 1) % 0x100]);
    LetGoLess(c2, i, t.Now());
    LessNone(c1.mem, c2.mem, t.mem, i, NR_INODE);
    LessTwice(c.mem, c1.mem, t.mem, d, i);
    HoldsTwice(s0, s1, t.fs.cache.Now());
    StillTwice(v, zs, v1, zs1, t.fs.cache.view, t.fs.zones);
  }

  lemma LinksIs(t: Table, dir: map<nat, seq<DirEnt>>, nlinks: map<nat, nat>, i: nat)
    requires Shows(t, dir, nlinks) && i < |t.mem| && t.mem[i].dev != 0 && t.mem[i].num in nlinks
    ensures t.mem[i].ino.nlinks == nlinks[t.mem[i].num] && !IsDir(t.mem[i].ino.mode) && t.mem[i].ino.nlinks < 0x100
  {
    hide Table.Valid, DirIs;
    Entries64(t);
    InTable(t, i);
  }

  lemma CreatedNot(dir: map<nat, seq<DirEnt>>, nlinks: map<nat, nat>, k: nat, s: CStr, im: seq<Block>, num: nat)
    requires k in dir && NoBit(im)
    ensures Created(dir, nlinks, k, s, !NoBit(im), true, num, -1, dir, nlinks)
  {
  }

  lemma CreatedNow(dir: map<nat, seq<DirEnt>>, nlinks: map<nat, nat>, k: nat, s: CStr, im: seq<Block>, num: nat, r: int, ok: bool,
                   dir': map<nat, seq<DirEnt>>, nlinks': map<nat, nat>)
    requires Named(dir, nlinks, k, s, num, ok, dir', nlinks') && s != [] && IndexOf(dir[k], Stored(s), 0) == |dir[k]|
    requires !NoBit(im) && num !in dir && num !in nlinks && r != -1
    ensures Created(dir, nlinks, k, s, !NoBit(im), ok, num, if ok then r else -1, dir', nlinks')
  {
    hide Put, IndexOf;
  }

  /** The inode of a new file is made (fs/namei.c:260-269). */
  method MakeFile(t: Table, d: nat, s: CStr, mode: nat, mtime: nat, ghost k: nat, ghost dir: map<nat, seq<DirEnt>>,
                  ghost nlinks: map<nat, nat>) returns (r: int, ghost num: nat)
    requires Shows(t, dir, nlinks) && AtDir(t.mem, d, dir, nlinks) && t.mem[d].num == k && CanMake(t.mem)
    requires |t.fs.cache.refs| + 3 < |t.fs.cache.h.key|
    requires s != [] && |s| != NAME_LEN && IndexOf(dir[k], Stored(s), 0) == |dir[k]| && mode < 0x1_0000
    requires !IsDir(mode) && mtime < 0x1_0000_0000
    modifies t, t.obj, t.fs`zones, t.fs.cache, t.fs.area
    ensures t.fs.cache.refs == old(t.fs.cache.refs) && |t.fs.cache.h.key| == |old(t.fs.cache.h.key)|
    ensures r == -1 <==> NoBit(old(t.imaps))
    ensures r == -1 ==> Shows(t, dir, nlinks) && t.mem == old(t.mem)
    ensures r != -1 ==> r >= 0 && NewIn(t.mem, d, r, s, k, num, dir, nlinks) && Shows(t, dir, nlinks[num := 1])
    ensures SameHold(old(t.mem), d, t.mem) && (r != -1 ==> NewIno(old(t.mem), t.mem, r, mode, mtime))
    ensures OthersKept(old(t.fs.cache.view), old(t.fs.zones), t.fs.cache.view, t.fs.zones, k)
    ensures SameHeld(old(t.mem), t.mem) && (r != -1 ==> 0 <= r < |old(t.mem)| && old(t.mem)[r].cnt == 0)
  {
    hide Shows, Tidy, StillThere, HoldsKept, OthersKept, IndexOf, NoBit, MadeFrom, Victim, HasRoom, NoZones, NewIn,
      AtDir, SameHeld, SameHold, NewIno;
    num := 0;
    ghost var v, zs, c, s0 := t.fs.cache.view, t.fs.zones, t.Now(), t.fs.cache.Now();
    InUseIs(t, dir, nlinks);
    AtDirHeld(t, d, dir, nlinks);
    r := NewFile(t, 0xEEEE, mode, mtime, dir, nlinks);
    HoldsSizes(s0, t.fs.cache.Now());
    StillOthers(v, zs, t.fs.cache.view, t.fs.zones, k);
    if r != -1 {
      NewBesides(c, old(t.imaps), r, 0xEEEE, mode, mtime, t.Now(), t.imaps, d, s, k, dir, nlinks);
      MadeHeld(c, old(t.imaps), r, 0xEEEE, mode, mtime, t.Now(), t.imaps);
      num := t.mem[r].num;
    } else {
      HeldSame(t.mem, d);
    }
  }

  /** What link does to directories and link counts. */
  ghost predicate Linked(dir: map<nat, seq<DirEnt>>, nlinks: map<nat, nat>, k: nat, num: nat, s: CStr, room: bool,
                         r: int, dir': map<nat, seq<DirEnt>>, nlinks': map<nat, nat>) {
    k in dir &&
    if num in dir || num !in nlinks || s == [] || IndexOf(dir[k], Stored(s), 0) < |dir[k]| || !room then r == -1 && dir' == dir && nlinks' == nlinks
    else r == 0 && dir' == dir[k := Put(dir[k], DirEnt(num, Stored(s)))] && nlinks' == nlinks[num := (nlinks[num] + 1) % 0x100]
  }

  /** What unlink does to directories and link counts. */
  ghost predicate Unlinked(dir: map<nat, seq<DirEnt>>, nlinks: map<nat, nat>, k: nat, s: CStr, r: int,
                           dir': map<nat, seq<DirEnt>>, nlinks': map<nat, nat>) {
    k in dir &&
    var e := IndexOf(dir[k], Stored(s), 0);
    if s == [] || e == |dir[k]| || dir[k][e].ino in dir then r == -1 && dir' == dir && nlinks' == nlinks
    else r == 0 && dir' == Struck(dir, k, e) && OneLess(nlinks, dir[k][e].ino, nlinks')
  }

  /** link fails on a directory, without a name, if the name is there, and without room; else the
      first slot not in use has the new name, and there is one link more, in one byte. */
  lemma LinkedMeans(dir: map<nat, seq<DirEnt>>, nlinks: map<nat, nat>, k: nat, num: nat, s: CStr, room: bool, r: int,
                    dir': map<nat, seq<DirEnt>>, nlinks': map<nat, nat>)
    requires Linked(dir, nlinks, k, num, s, room, r, dir', nlinks') && num in nlinks && nlinks[num] < 0x100
    ensures k in dir && (r == 0 || r == -1)
    ensures r == -1 <==> num in dir || s == [] || Has(dir[k], Stored(s)) || !room
    ensures r == -1 ==> dir' == dir && nlinks' == nlinks
    ensures r == 0 ==> dir'.Keys == dir.Keys && (forall d :: d in dir && d != k ==> dir'[d] == dir[d])
    ensures r == 0 ==> nlinks' == nlinks[num := if nlinks[num] == 0xFF then 0 else nlinks[num] + 1]
    ensures r == 0 ==> PutInto(dir[k], DirEnt(num, if |s| > 14 then s[..13] else s), dir'[k])
  {
    hide Put, IndexOf, UnusedFrom;
    if r == 0 {
      PutIsInto(dir[k], DirEnt(num, Stored(s)));
      assert Stored(s) == if |s| > 14 then s[..13] else s;
    }
  }

  /** Some slot, the first not in use or else the first of a new block, is x now; all others are
      as before. */
  ghost predicate PutInto(d: seq<DirEnt>, x: DirEnt, d': seq<DirEnt>) {
    exists e: nat :: e <= |d| && SlotPut(d, x, d', e)
  }

  predicate SlotPut(d: seq<DirEnt>, x: DirEnt, d': seq<DirEnt>, e: nat)
    requires e <= |d|
  {
    && (forall i :: 0 <= i < e ==> d[i] != DirEnt(0, []))
    && if e < |d| then d[e] == DirEnt(0, []) && d' == d[e := x]
       else d' == d + [x] + seq(63, _ => DirEnt(0, []))
  }

  lemma PutIsInto(d: seq<DirEnt>, x: DirEnt)
    ensures PutInto(d, x, Put(d, x))
  {
    hide EntAt;
    EmptyEnts();
    assert SlotPut(d, x, Put(d, x), UnusedFrom(d, 0));
  }

  /** unlink fails without a name, if no slot has it, and on a directory; else the first slot with
      the name is cleared, and the file that it named has one link less. */
  lemma UnlinkedMeans(dir: map<nat, seq<DirEnt>>, nlinks: map<nat, nat>, k: nat, s: CStr, r: int,
                      dir': map<nat, seq<DirEnt>>, nlinks': map<nat, nat>) returns (e: nat)
    requires Unlinked(dir, nlinks, k, s, r, dir', nlinks')
    ensures k in dir && (r == 0 || r == -1)
    ensures e <= |dir[k]| && (forall i :: 0 <= i < e ==> dir[k][i].name != if |s| > 14 then s[..13] else s)
    ensures e < |dir[k]| ==> dir[k][e].name == if |s| > 14 then s[..13] else s
    ensures r == 0 <==> s != [] && e < |dir[k]| && dir[k][e].ino !in dir
    ensures r == -1 ==> dir' == dir && nlinks' == nlinks
    ensures r == 0 ==> dir' == dir[k := dir[k][e := DirEnt(0, [])]]
    ensures r == 0 ==> var i := dir[k][e].ino; i in nlinks && nlinks[i] > 0 && nlinks' == nlinks[i := nlinks[i] - 1]
  {
    e := IndexOf(dir[k], Stored(s), 0);
    assert Stored(s) == if |s| > 14 then s[..13] else s;
    hide IndexOf;
  }

  /** open with O_CREAT and O_EXCL fails without a name, if the name is there, if the inode map has
      no bit to take, and without room; else the first slot not in use has the name and the number
      of a file that was not there, with one link. */
  lemma CreatedMeans(dir: map<nat, seq<DirEnt>>, nlinks: map<nat, nat>, k: nat, s: CStr, bit: bool, room: bool, num: nat,
                     r: int, dir': map<nat, seq<DirEnt>>, nlinks': map<nat, nat>)
    requires Created(dir, nlinks, k, s, bit, room, num, r, dir', nlinks')
    ensures k in dir && (r == -1 <==> s == [] || Has(dir[k], Stored(s)) || !bit || !room)
    ensures r == -1 ==> dir' == dir
    ensures r == -1 ==> nlinks' == if s == [] || Has(dir[k], Stored(s)) || !bit then nlinks else nlinks[num := 0]
    ensures r != -1 ==> num !in dir && num !in nlinks && nlinks' == nlinks[num := 1]
    ensures r != -1 ==> dir'.Keys == dir.Keys && (forall d :: d in dir && d != k ==> dir'[d] == dir[d])
    ensures r != -1 ==> PutInto(dir[k], DirEnt(num, if |s| > 14 then s[..13] else s), dir'[k])
  {
    hide Put, IndexOf, UnusedFrom;
    if r != -1 {
      PutIsInto(dir[k], DirEnt(num, Stored(s)));
      assert Stored(s) == if |s| > 14 then s[..13] else s;
    }
  }

  /** iget can have an entry for the inode that the name stands for, if it needs one. */
  ghost predicate CanFetch(mem: seq<Mem>, at: map<nat, nat>, d: seq<DirEnt>, s: CStr) {
    HasRoom(mem) || s == [] || var e := IndexOf(d, Stored(s), 0); e == |d| || d[e].ino in at
  }

  function Fewer(nlinks: map<nat, nat>, i: nat): map<nat, nat>
    requires i in nlinks && nlinks[i] > 0
  {
    nlinks[i := nlinks[i] - 1]
  }

  lemma UnlinkedNow(dir: map<nat, seq<DirEnt>>, nlinks: map<nat, nat>, k: nat, s: CStr, file: bool)
    requires k in dir && s != [] && IndexOf(dir[k], Stored(s), 0) < |dir[k]|
    requires file == (dir[k][IndexOf(dir[k], Stored(s), 0)].ino !in dir)
    requires var i := dir[k][IndexOf(dir[k], Stored(s), 0)].ino; file ==> i in nlinks && nlinks[i] > 0
    ensures var e := IndexOf(dir[k], Stored(s), 0);
      if file then Unlinked(dir, nlinks, k, s, 0, Struck(dir, k, e), Fewer(nlinks, dir[k][e].ino)) else Unlinked(dir, nlinks, k, s, -1, dir, nlinks)
  {
    hide IndexOf;
  }

  lemma NamedSlot(d: seq<DirEnt>, name: CStr)
    requires IndexOf(d, name, 0) < |d|
    ensures d[IndexOf(d, name, 0)].name == name
  {
  }

  lemma UnlinkTidy(dir: map<nat, seq<DirEnt>>, nlinks: map<nat, nat>, k: nat, e: nat)
    requires Tidy(dir, nlinks) && k in dir && e < |dir[k]| && dir[k][e].name != []
    ensures var i := dir[k][e].ino; i in dir || i in nlinks
    ensures var i := dir[k][e].ino; i !in dir ==>
      i in nlinks && nlinks[i] > 0 && Tidy(Struck(dir, k, e), nlinks[i := nlinks[i] - 1])
  {
    hide Refs, UniqueNames, Short, Conserved;
    var i := dir[k][e].ino;
    ClearKnown(dir, k, e, nlinks, nlinks);
    if i !in dir {
      ClearKeeps(dir, nlinks, k, e);
      ClearKnown(dir, k, e, nlinks, nlinks[i := nlinks[i] - 1]);
    }
  }

  /** The rest of unlink, for a slot that was found; it may name a directory. */
  method UnlinkFound(t: Table, d: nat, ghost k: nat, ghost e: nat, b: nat, j: nat, ghost refs: map<Key, nat>,
                     ghost dir: map<nat, seq<DirEnt>>, ghost nlinks: map<nat, nat>)
    returns (file: bool)
    requires Shows(t, dir, nlinks) && Tidy(dir, nlinks) && AtDir(t.mem, d, dir, nlinks) && t.mem[d].num == k
    requires |refs| + 3 < |t.fs.cache.h.key|
    requires e < |dir[k]| && dir[k][e].name != [] && (dir[k][e].ino in t.at || HasRoom(t.mem))
    requires Holds(t.fs.cache.view, t.fs.zones, k, e, b, j, refs, t.fs.cache.Now())
    modifies t, t.obj, t.fs, t.fs.cache, t.fs.area
    ensures t.fs.cache.refs == refs && |t.fs.cache.h.key| == |old(t.fs.cache.h.key)| && file == (dir[k][e].ino !in dir)
    ensures !file ==> Shows(t, dir, nlinks)
    ensures file ==> StruckOff(t, dir, nlinks, k, e)
    ensures OthersKept(old(t.fs.cache.view), old(t.fs.zones), t.fs.cache.view, t.fs.zones, k)
    ensures OnlyLess(old(t.mem), t.mem, d)
  {
    hide Shows, Tidy, StillThere, HoldsKept, OthersKept, Holds, HasRoom, Reclaims, Less, OnlyLess, OneMore;
    ghost var v, zs, s0 := t.fs.cache.view, t.fs.zones, t.fs.cache.Now();
    HoldsSize(v, zs, k, e, b, j, refs, s0);
    UnlinkTidy(dir, nlinks, k, e);
    var num := SlotIno(t, d, e, b, j, refs, dir, nlinks);
    var i := GetInode(t, num, d, dir, nlinks);
    ghost var mem1 := t.mem;
    ghost var v1, zs1 := t.fs.cache.view, t.fs.zones;
    HoldsStill(v, zs, v1, zs1, k, e, b, j, refs, s0, t.fs.cache.Now());
    StillOthers(v, zs, v1, zs1, k);
    IsDirIs(t, dir, nlinks, i);
    Mirrored(t, dir, nlinks, i);
    file := !IsDir(t.obj[i].mode);
    if file {
      StrikeAndCount(t, i, d, k, num, e, b, j, refs, dir, nlinks);
    } else {
      LinkedStays(t.mem[i]);
      LeaveBoth(t, i, d, k, e, b, j, refs, dir, nlinks);
      StillOthers(v1, zs1, t.fs.cache.view, t.fs.zones, k);
    }
    MoreLess(old(t.mem), mem1, t.mem, i, d);
    OthersTwice(v, zs, v1, zs1, t.fs.cache.view, t.fs.zones, k);
  }

  /** unlink from the lookup on. */
  method UnlinkName(t: Table, d: nat, s: CStr, ghost k: nat, ghost dir: map<nat, seq<DirEnt>>,
                    ghost nlinks: map<nat, nat>) returns (found: bool, file: bool)
    requires Shows(t, dir, nlinks) && Tidy(dir, nlinks) && AtDir(t.mem, d, dir, nlinks) && t.mem[d].num == k
    requires |t.fs.cache.refs| + 3 < |t.fs.cache.h.key|
    requires CanFetch(t.mem, t.at, dir[k], s)
    modifies t, t.obj, t.fs, t.fs.cache, t.fs.area
    ensures t.fs.cache.refs == old(t.fs.cache.refs) && |t.fs.cache.h.key| == |old(t.fs.cache.h.key)|
    ensures found <==> s != [] && IndexOf(dir[k], Stored(s), 0) < |dir[k]|
    ensures found ==> file == (dir[k][IndexOf(dir[k], Stored(s), 0)].ino !in dir)
    ensures if found && file then StruckOff(t, dir, nlinks, k, IndexOf(dir[k], Stored(s), 0)) else Shows(t, dir, nlinks)
    ensures OthersKept(old(t.fs.cache.view), old(t.fs.zones), t.fs.cache.view, t.fs.zones, k)
    ensures OnlyLess(old(t.mem), t.mem, d)
  {
    hide Shows, Tidy, StillThere, HoldsKept, OthersKept, IndexOf, Holds, HasRoom, StruckOff, Less, OnlyLess;
    file := false;
    AtDirHeld(t, d, dir, nlinks);
    ShortDirs(dir, nlinks, k);
    ghost var v, zs, s0 := t.fs.cache.view, t.fs.zones, t.fs.cache.Now();
    var b, j;
    ghost var e;
    found, b, j, e := FindName(t, d, s, dir, nlinks);
    if found {
      NamedSlot(dir[k], Stored(s));
      file := UnlinkFound(t, d, k, e, b, j, s0.refs, dir, nlinks);
    } else {
      ghost var s1, c1 := t.fs.cache.Now(), t.Now();
      LetGoOf(t, d, dir, nlinks);
      LetGoLess(c1, d, t.Now());
      OnlyLessOf(c1.mem, t.mem, d);
      HoldsSizes(s1, t.fs.cache.Now());
      StillOthers(v, zs, t.fs.cache.view, t.fs.zones, k);
    }
  }

  lemma LinkedStays(x: Mem)
    ensures x.ino.nlinks > 0 ==> !Reclaims(x)
  {
  }

  /** Slot e of directory k is cleared and the file that it named has one link less. */
  ghost predicate StruckOff(t: Table, dir: map<nat, seq<DirEnt>>, nlinks: map<nat, nat>, k: nat, e: nat)
    reads t, t.obj, t.fs, t.fs.cache, t.fs.area
  {
    && k in dir && e < |dir[k]| && dir[k][e].ino in nlinks && nlinks[dir[k][e].ino] > 0
    && var nl := Fewer(nlinks, dir[k][e].ino);
      Shows(t, Struck(dir, k, e), nl) && Tidy(Struck(dir, k, e), nl)
  }

  lemma LinkedTidy(dir: map<nat, seq<DirEnt>>, nlinks: map<nat, nat>, k: nat, s: CStr, num: nat)
    requires Tidy(dir, nlinks) && k in dir && num in nlinks && s != [] && |s| != NAME_LEN
    ensures IndexOf(dir[k], Stored(s), 0) == |dir[k]| ==>
      (Tidy(WithName(dir, k, s, num, true), nlinks[num := (nlinks[num] + 1) % 0x100]) <==> nlinks[num] < 0xFF)
  {
    hide Put, Refs, UniqueNames, Short, Conserved;
    if IndexOf(dir[k], Stored(s), 0) < |dir[k]| {
      return;
    }
    var x, n' := DirEnt(num, Stored(s)), nlinks[num := (nlinks[num] + 1) % 0x100];
    PutKeeps(dir, nlinks, k, x);
    PutKnown(dir, k, x, nlinks, n');
    LinkCount(WithName(dir, k, s, num, true), nlinks, num);
  }

  lemma LinkedIs(dir: map<nat, seq<DirEnt>>, nlinks: map<nat, nat>, k: nat, num: nat, s: CStr, room: bool)
    requires k in dir && num in nlinks && num !in dir && s != []
    ensures if room && IndexOf(dir[k], Stored(s), 0) == |dir[k]|
      then Linked(dir, nlinks, k, num, s, room, 0, WithName(dir, k, s, num, true), nlinks[num := (nlinks[num] + 1) % 0x100])
      else Linked(dir, nlinks, k, num, s, room, -1, dir, nlinks)
  {
    hide IndexOf, Put;
  }

  lemma WithNot(dir: map<nat, seq<DirEnt>>, k: nat, s: CStr, num: nat)
    requires k in dir
    ensures WithName(dir, k, s, num, false) == dir
  {
  }

  lemma TidyApart(dir: map<nat, seq<DirEnt>>, nlinks: map<nat, nat>, num: nat)
    requires Tidy(dir, nlinks) && num in nlinks
    ensures num !in dir
  {
    hide Refs;
  }

  lemma MarkedStays(x: Mem)
    ensures x.dirt ==> !Reclaims(x)
  {
  }

  lemma IsDirIs(t: Table, dir: map<nat, seq<DirEnt>>, nlinks: map<nat, nat>, i: nat)
    requires Shows(t, dir, nlinks) && i < |t.mem| && t.mem[i].dev != 0
    ensures if IsDir(t.mem[i].ino.mode) then t.mem[i].num in dir && t.mem[i].ino.nlinks > 0 else t.mem[i].num in nlinks
    ensures t.mem[i].num in dir ==> IsDir(t.mem[i].ino.mode)
  {
    hide Table.Valid, DirOK, DirOf;
    Entries64(t);
    InTable(t, i);
  }

  class Tree {
    const t: Table
    ghost var dir: map<nat, seq<DirEnt>> // the directories by inode number
    ghost var nlinks: map<nat, nat>      // i_nlinks of the other inodes in use

    ghost predicate Valid()
      reads this, t, t.obj, t.fs, t.fs.cache, t.fs.area
    {
      Shows(t, dir, nlinks) && Tidy(dir, nlinks)
    }

    /** Entry d is a directory somebody holds. */
    ghost predicate HasDir(d: nat)
      reads this, t`mem
    {
      AtDir(t.mem, d, dir, nlinks)
    }

    /** The table and the root directory, which is all there is and is empty. */
    constructor (t: Table, root: nat)
      requires t.Valid() && root < NR_INODE && t.mem[root].dev != 0 && t.ino.Keys == {t.mem[root].num}
      requires IsDir(t.mem[root].ino.mode) && t.mem[root].ino.nlinks > 0 && t.mem[root].ino.size == 0
      requires t.mem[root].ino.zone == NoZones()
      ensures Valid() && this.t == t && dir == map[t.mem[root].num := []] && nlinks == map[]
    {
      InTable(t, root);
      this.t, dir, nlinks := t, map[t.mem[root].num := []], map[];
      new;
      hide Table.Valid, TreeIs, Tidy, NoZones;
      RootOnly(t.ino, t.fs.cache.view, t.fs.zones, t.mem[root].num);
    }

    /** The end of a call that failed before it changed anything. */
    method LeaveDir(d: nat)
      requires Valid() && HasDir(d) && |t.fs.cache.refs| + 2 < |t.fs.cache.h.key|
      modifies t, t.obj, t.fs, t.fs.cache, t.fs.area
      ensures Valid() && t.fs.cache.refs == old(t.fs.cache.refs) && |t.fs.cache.h.key| == |old(t.fs.cache.h.key)|
      ensures StillThere(old(t.fs.cache.view), old(t.fs.zones), t.fs.cache.view, t.fs.zones)
      ensures t.fs.zmap == old(t.fs.zmap)
      ensures LetGo(old(t.Now()), d, t.Now())
    {
      hide Shows, Tidy, StillThere, PinsKept;
      AtDirHeld(t, d, dir, nlinks);
      LetGoOf(t, d, dir, nlinks);
    }

    /** open with O_CREAT and O_EXCL in the directory of entry d (fs/namei.c:252-287), with number
        k: all stays in order, whether it succeeds or not. */
    method Create(d: nat, s: CStr, mode: nat, mtime: nat, ghost k: nat)
      returns (r: int, ghost num: nat, ghost room: bool)
      requires Valid() && HasDir(d) && t.mem[d].num == k && CanMake(t.mem) && |t.fs.cache.refs| + 3 < |t.fs.cache.h.key|
      requires |s| != NAME_LEN && mode < 0x1_0000 && !IsDir(mode) && mtime < 0x1_0000_0000
      modifies this, t, t.obj, t.fs, t.fs.cache, t.fs.area
      ensures Valid() && t.fs.cache.refs == old(t.fs.cache.refs) && |t.fs.cache.h.key| == |old(t.fs.cache.h.key)|
      ensures Created(old(dir), old(nlinks), k, s, !NoBit(old(t.imaps)), room, num, r, dir, nlinks)
      ensures OneHoldLess(old(t.mem), d, t.mem)
      ensures r != -1 ==> NewHeld(t.mem, r, num) && NewIno(old(t.mem), t.mem, r, mode, mtime)
      ensures r != -1 ==> t.mem[r].ino.nlinks == 1 && t.mem[r].ino.mode == mode && t.mem[r].ino.uid == 0xEEEE
      ensures !room ==> FullDir(t.fs, old(dir), k)
      ensures OthersKept(old(t.fs.cache.view), old(t.fs.zones), t.fs.cache.view, t.fs.zones, k)
      ensures |t.mem| == |old(t.mem)|
      ensures forall q | 0 <= q < |old(t.mem)| && old(t.mem)[q].cnt > 0 ::
        t.mem[q].num == old(t.mem)[q].num && t.mem[q].cnt == old(t.mem)[q].cnt - if q == d then 1 else 0
    {
      hide Shows, Tidy, StillThere, PinsKept, OthersKept, NoRoom, Put, UnusedFrom, IndexOf, CanMake, NoBit,
        MadeFrom, Holds;
      num, room := 0, true;
      ghost var v, zs := t.fs.cache.view, t.fs.zones;
      AtDirHeld(t, d, dir, nlinks);
      ShortDirs(dir, nlinks, k);
      var found, b, j;
      ghost var e;
      found, b, j, e := FindName(t, d, s, dir, nlinks);
      if found || s == [] {
        if found {
          Unhold(t, k, e, b, j, dir, nlinks, old(t.fs.cache.refs));
        }
        ghost var v1, zs1 := t.fs.cache.view, t.fs.zones;
        LeaveDir(d);
        StillOthers(v1, zs1, t.fs.cache.view, t.fs.zones, k);
        return -1, num, room;
      }
      r, num, room := CreateFile(d, s, mode, mtime, k);
    }

    /** The rest of open, for a name that is not there. */
    method CreateFile(d: nat, s: CStr, mode: nat, mtime: nat, ghost k: nat)
      returns (r: int, ghost num: nat, ghost room: bool)
      requires Valid() && HasDir(d) && t.mem[d].num == k && CanMake(t.mem) && |t.fs.cache.refs| + 3 < |t.fs.cache.h.key|
      requires s != [] && |s| != NAME_LEN && IndexOf(dir[k], Stored(s), 0) == |dir[k]| && mode < 0x1_0000
      requires !IsDir(mode) && mtime < 0x1_0000_0000
      modifies this, t, t.obj, t.fs, t.fs.cache, t.fs.area
      ensures Valid() && t.fs.cache.refs == old(t.fs.cache.refs) && |t.fs.cache.h.key| == |old(t.fs.cache.h.key)|
      ensures Created(old(dir), old(nlinks), k, s, !NoBit(old(t.imaps)), room, num, r, dir, nlinks)
      ensures OneHoldLess(old(t.mem), d, t.mem)
      ensures r != -1 ==> NewHeld(t.mem, r, num) && NewIno(old(t.mem), t.mem, r, mode, mtime)
      ensures !room ==> FullDir(t.fs, old(dir), k)
      ensures OthersKept(old(t.fs.cache.view), old(t.fs.zones), t.fs.cache.view, t.fs.zones, k)
      ensures OnlyLess(old(t.mem), t.mem, d)
    {
      hide Shows, Tidy, StillThere, HoldsKept, OthersKept, FullDir, IndexOf, NoBit, Created, Named, NewHeld,
        CanMake, Less, OnlyLess, SameHeld;
      ghost var v, zs := t.fs.cache.view, t.fs.zones;
      room := true;
      r, num := MakeFile(t, d, s, mode, mtime, k, dir, nlinks);
      ghost var v1, zs1 := t.fs.cache.view, t.fs.zones;
      if r == -1 {
        CreatedNot(dir, nlinks, k, s, old(t.imaps), num);
        ghost var c1 := t.Now();
        LeaveDir(d);
        LetGoLess(c1, d, t.Now());
        OnlyLessOf(c1.mem, t.mem, d);
        StillOthers(v1, zs1, t.fs.cache.view, t.fs.zones, k);
        OthersTwice(v, zs, v1, zs1, t.fs.cache.view, t.fs.zones, k);
        return;
      }
      ghost var mem1 := t.mem;
      var ok := NameAndLeave(d, r, s, k, num);
      SameLess(old(t.mem), mem1, t.mem, d, if ok then NR_INODE else r);
      room := ok;
      OthersTwice(v, zs, v1, zs1, t.fs.cache.view, t.fs.zones, k);
      CreatedNow(old(dir), old(nlinks), k, s, old(t.imaps), num, r, ok, dir, nlinks);
      if !ok {
        r := -1;
      }
    }

    /** link (fs/namei.c:566-638), to the inode in entry i, which namei found for the old name and
        marked, from the directory of entry d. The count, one byte, is right afterwards exactly if
        it was below 255. Both inodes are let go. */
    method Link(i: nat, d: nat, s: CStr, ghost k: nat, ghost num: nat) returns (r: int, ghost room: bool)
      requires Valid() && HasDir(d) && t.mem[d].num == k && |s| != NAME_LEN
      requires |t.fs.cache.refs| + 3 < |t.fs.cache.h.key|
      requires i < NR_INODE && t.mem[i].dev != 0 && t.mem[i].num == num && t.mem[i].cnt > (if i == d then 1 else 0)
      requires t.mem[i].dirt
      modifies this, t, t.obj, t.fs, t.fs.cache, t.fs.area
      ensures Shows(t, dir, nlinks) && t.fs.cache.refs == old(t.fs.cache.refs)
      ensures |t.fs.cache.h.key| == |old(t.fs.cache.h.key)|
      ensures Linked(old(dir), old(nlinks), k, num, s, room, r, dir, nlinks)
      ensures Valid() <==> r == -1 || num !in old(nlinks) || old(nlinks)[num] < 0xFF
      ensures !room ==> FullDir(t.fs, old(dir), k)
      ensures OthersKept(old(t.fs.cache.view), old(t.fs.zones), t.fs.cache.view, t.fs.zones, k)
      ensures |t.mem| == |old(t.mem)|
      ensures forall q | 0 <= q < |t.mem| ::
        t.mem[q].num == old(t.mem)[q].num
        && t.mem[q].cnt == old(t.mem)[q].cnt - (if q == i then 1 else 0) - (if q == d then 1 else 0)
    {
      hide Shows, Tidy, StillThere, PinsKept, OthersKept, NoRoom, Put, UnusedFrom, IndexOf, Holds, Reclaims,
        FullDir, WithName;
      room, r := true, -1;
      ghost var dir0, nl0 := dir, nlinks;
      Mirrored(t, dir0, nl0, i);
      MarkedStays(t.mem[i]);
      IsDirIs(t, dir0, nl0, i);
      AtDirHeld(t, d, dir0, nl0);
      if IsDir(t.obj[i].mode) || s == [] {
        LeaveTwo(i, d, k);
        return;
      }
      TidyApart(dir0, nl0, num);
      ShortDirs(dir0, nl0, k);
      LinkedTidy(dir0, nl0, k, s, num);
      var ok;
      ok, room := LinkFile(t, i, d, s, k, num, dir0, nl0);
      LinkedIs(dir0, nl0, k, num, s, room);
      if ok {
        r := 0;
      }
      dir, nlinks := if ok then WithName(dir0, k, s, num, true) else dir0, if ok then nl0[num := (nl0[num] + 1) % 0x100] else nl0;
      WithNot(dir0, k, s, num);
    }

    /** unlink (fs/namei.c:641-701) in the directory of entry d, with number k: all stays in order.
        The repair of a count of 0 (lines 684-688) is never needed. */
    method Unlink(d: nat, s: CStr, ghost k: nat) returns (r: int)
      requires Valid() && HasDir(d) && t.mem[d].num == k && |t.fs.cache.refs| + 3 < |t.fs.cache.h.key|
      requires CanFetch(t.mem, t.at, dir[k], s)
      modifies this, t, t.obj, t.fs, t.fs.cache, t.fs.area
      ensures Valid() && t.fs.cache.refs == old(t.fs.cache.refs) && |t.fs.cache.h.key| == |old(t.fs.cache.h.key)|
      ensures Unlinked(old(dir), old(nlinks), k, s, r, dir, nlinks)
      ensures OthersKept(old(t.fs.cache.view), old(t.fs.zones), t.fs.cache.view, t.fs.zones, k)
      ensures |t.mem| == |old(t.mem)|
      ensures forall q | 0 <= q < |old(t.mem)| && old(t.mem)[q].cnt > 0 ::
        t.mem[q].num == old(t.mem)[q].num && t.mem[q].cnt == old(t.mem)[q].cnt - if q == d then 1 else 0
    {
      hide Shows, Tidy, StillThere, PinsKept, OthersKept, IndexOf, CanFetch, Struck, Fewer;
      ghost var dir0, nl0, e := dir, nlinks, IndexOf(dir[k], Stored(s), 0);
      var found, file := UnlinkName(t, d, s, k, dir0, nl0);
      if found && file {
        UnlinkedNow(dir0, nl0, k, s, file);
        dir, nlinks := Struck(dir0, k, e), Fewer(nl0, dir0[k][e].ino);
        return 0;
      }
      dir, nlinks := dir0, nl0;
      return -1;
    }

    /** Both inodes are let go, and nothing else. */
    method LeaveTwo(i: nat, d: nat, ghost k: nat)
      requires Valid() && HasDir(d) && t.mem[d].num == k && |t.fs.cache.refs| + 2 < |t.fs.cache.h.key|
      requires i < NR_INODE && t.mem[i].cnt > (if i == d then 1 else 0) && !Reclaims(t.mem[i])
      modifies t, t.obj, t.fs, t.fs.cache, t.fs.area
      ensures Valid() && t.fs.cache.refs == old(t.fs.cache.refs) && |t.fs.cache.h.key| == |old(t.fs.cache.h.key)|
      ensures t.fs.zmap == old(t.fs.zmap)
      ensures OthersKept(old(t.fs.cache.view), old(t.fs.zones), t.fs.cache.view, t.fs.zones, k)
      ensures Less(old(t.mem), t.mem, i, d)
    {
      hide Shows, Tidy, StillThere, HoldsKept, OthersKept, Reclaims, Less;
      ghost var v, zs, s0 := t.fs.cache.view, t.fs.zones, t.fs.cache.Now();
      Mirrored(t, dir, nlinks, i);
      LetGoTwo(t, i, d, dir, nlinks);
      HoldsSizes(s0, t.fs.cache.Now());
      StillOthers(v, zs, t.fs.cache.view, t.fs.zones, k);
    }

    /** It is named, and the directory is let go. */
    method NameAndLeave(d: nat, r: nat, s: CStr, ghost k: nat, ghost num: nat) returns (ok: bool)
      requires NewIn(t.mem, d, r, s, k, num, dir, nlinks) && Shows(t, dir, nlinks[num := 1]) && Tidy(dir, nlinks)
      requires |t.fs.cache.refs| + 2 < |t.fs.cache.h.key|
      modifies this, t, t.obj, t.fs, t.fs.cache, t.fs.area
      ensures Valid() && t.fs.cache.refs == old(t.fs.cache.refs) && |t.fs.cache.h.key| == |old(t.fs.cache.h.key)|
      ensures Named(old(dir), old(nlinks), k, s, num, ok, dir, nlinks) && OneHoldLess(old(t.mem), d, t.mem)
      ensures ok ==> NewHeld(t.mem, r, num) && r < |old(t.mem)| && t.mem[r] == old(t.mem)[r]
      ensures !ok ==> FullDir(t.fs, old(dir), k)
      ensures OthersKept(old(t.fs.cache.view), old(t.fs.zones), t.fs.cache.view, t.fs.zones, k)
      ensures Less(old(t.mem), t.mem, d, if ok then NR_INODE else r)
    {
      hide Shows, Tidy, StillThere, PinsKept, OthersKept, NoRoom, FullDir, IndexOf, Put, Less;
      ghost var v, zs := t.fs.cache.view, t.fs.zones;
      ghost var dir0, nl0 := dir, nlinks;
      ok := NameNew(t, d, r, s, k, num, dir0, nl0);
      CreatedTidy(dir0, nl0, k, s, num, ok);
      ghost var v2, zs2 := t.fs.cache.view, t.fs.zones;
      dir, nlinks := WithName(dir0, k, s, num, ok), nl0[num := if ok then 1 else 0];
      ghost var c1 := t.Now();
      LeaveDir(d);
      LetGoLess(c1, d, t.Now());
      LessAgain(old(t.mem), c1.mem, t.mem, if ok then NR_INODE else r, d);
      StillOthers(v2, zs2, t.fs.cache.view, t.fs.zones, k);
      OthersTwice(v, zs, v2, zs2, t.fs.cache.view, t.fs.zones, k);
    }
  }

  /** An entry can be had for a new inode, and it has no zones: without that new_inode hands out
      blocks of another file (see InodeTable.Table.NewInode). */
  ghost predicate CanMake(mem: seq<Mem>) {
    HasRoom(mem) && mem[Victim(mem)].ino.zone == NoZones()
  }

  /** Entry r has file num, held once. */
  predicate NewHeld(mem: seq<Mem>, r: int, num: nat) {
    0 <= r < |mem| && mem[r].num == num && mem[r].cnt == 1 && mem[r].dev != 0
  }

  /** The new file is what new_inode makes of the entry that it takes. */
  ghost predicate NewIno(mem: seq<Mem>, mem': seq<Mem>, r: int, mode: nat, mtime: nat) {
    |mem| == NR_INODE && 0 <= r < |mem'| && mem'[r].ino == Renewed(mem[Victim(mem)].ino, 0xEEEE, mode, mtime)
  }

  /** The same inode is held as often. */
  predicate SameHold(mem: seq<Mem>, d: nat, mem': seq<Mem>) {
    d < |mem| == |mem'| && mem'[d].num == mem[d].num && mem'[d].dev == mem[d].dev && mem'[d].cnt == mem[d].cnt
  }

  /** It is held once less. */
  predicate OneHoldLess(mem: seq<Mem>, d: nat, mem': seq<Mem>) {
    d < |mem| == |mem'| && mem'[d].num == mem[d].num && mem'[d].dev == mem[d].dev && mem'[d].cnt == mem[d].cnt - 1
  }

  /** After a file was made, its name stands for it in the directory. */
  lemma MadeThere(dir: map<nat, seq<DirEnt>>, nlinks: map<nat, nat>, k: nat, s: CStr, num: nat,
                  dir': map<nat, seq<DirEnt>>, nlinks': map<nat, nat>)
    requires k in dir && num !in dir && num !in nlinks && s != [] && IndexOf(dir[k], Stored(s), 0) == |dir[k]|
    requires dir' == dir[k := Put(dir[k], DirEnt(num, Stored(s)))] && nlinks' == nlinks[num := 1]
    requires Tidy(dir', nlinks') && Tidy(dir, nlinks)
    ensures var e := IndexOf(dir'[k], Stored(s), 0); e < |dir'[k]| && dir'[k][e].ino == num
    ensures Short(dir'[k]) && k !in nlinks'
  {
    hide Put, Refs, UniqueNames;
    var e, x := UnusedFrom(dir[k], 0), DirEnt(num, Stored(s));
    PutAt(dir[k], x, e);
    assert dir'[k][e] == x;
    var f := IndexOf(dir'[k], Stored(s), 0);
    PutAt(dir[k], x, f);
    assert UniqueNames(dir'[k]);
  }

  lemma InUseIs(t: Table, dir: map<nat, seq<DirEnt>>, nlinks: map<nat, nat>)
    requires Shows(t, dir, nlinks)
    ensures forall k :: k in t.ino <==> k in dir || k in nlinks
  {
    hide Table.Valid, DirIs, FileIs;
  }

  lemma ShortDirs(dir: map<nat, seq<DirEnt>>, nlinks: map<nat, nat>, k: nat)
    requires Tidy(dir, nlinks) && k in dir
    ensures Short(dir[k])
  {
    hide Refs;
  }

  /** Entry r has a new file, number num, to be named s in the directory k of entry d. */
  ghost predicate NewIn(mem: seq<Mem>, d: nat, r: nat, s: CStr, k: nat, num: nat, dir: map<nat, seq<DirEnt>>,
                        nlinks: map<nat, nat>) {
    && AtDir(mem, d, dir, nlinks) && mem[d].num == k && num !in dir && num !in nlinks
    && r < NR_INODE && r != d && mem[r].num == num < NR_INODES && mem[r].dirt && mem[r].cnt == 1 && mem[r].dev != 0
    && s != [] && |s| != NAME_LEN && IndexOf(dir[k], Stored(s), 0) == |dir[k]|
  }

  ghost predicate Named(dir: map<nat, seq<DirEnt>>, nlinks: map<nat, nat>, k: nat, s: CStr, num: nat, ok: bool,
                        dir': map<nat, seq<DirEnt>>, nlinks': map<nat, nat>) {
    k in dir && dir' == WithName(dir, k, s, num, ok) && nlinks' == nlinks[num := if ok then 1 else 0]
  }

  ghost predicate FullDir(fs: FileSys, dir: map<nat, seq<DirEnt>>, k: nat)
    reads fs`zmap
  {
    k in dir && NoRoom(fs, dir[k])
  }

  /** No slot of the directory is unused, and it cannot grow. */
  lemma FullDirIs(fs: FileSys, dir: map<nat, seq<DirEnt>>, k: nat)
    requires FullDir(fs, dir, k)
    ensures k in dir && (fs.NoZone() || |dir[k]| == (7 + 512 + 512 * 512) * 64)
    ensures forall e :: 0 <= e < |dir[k]| ==> dir[k][e] != DirEnt(0, [])
  {
    hide FileSys.NoZone;
    forall e | 0 <= e < |dir[k]|
      ensures dir[k][e] != DirEnt(0, [])
    {
      assert !Unused(dir[k][e]);
    }
  }

  lemma Sizes(t: Table, dir: map<nat, seq<DirEnt>>, nlinks: map<nat, nat>)
    requires Shows(t, dir, nlinks)
    ensures |t.obj| == |t.mem| == NR_INODE
  {
    hide TreeIs;
    Entries64(t);
  }

  lemma Mirrored(t: Table, dir: map<nat, seq<DirEnt>>, nlinks: map<nat, nat>, r: nat)
    requires Shows(t, dir, nlinks) && r < NR_INODE
    ensures |t.obj| == |t.mem| == NR_INODE && NoAlias(t.obj) && Snap(t.obj[r]) == t.mem[r]
  {
    hide FileSys.Valid, Consistent, NoAlias, InUseOk;
  }

  lemma NewBesides(c: Inodes, im: seq<Block>, r: int, uid: nat, mode: nat, mtime: nat, c': Inodes, im': seq<Block>, d: nat, s: CStr, k: nat,
                   dir: map<nat, seq<DirEnt>>, nlinks: map<nat, nat>)
    requires MadeFrom(c, im, r, uid, mode, mtime, c', im') && AtDir(c.mem, d, dir, nlinks) && c.mem[d].num == k
    requires forall q :: q in dir || q in nlinks ==> q in c.ino
    requires s != [] && |s| != NAME_LEN && IndexOf(dir[k], Stored(s), 0) == |dir[k]|
    ensures 0 <= r < |c'.mem| && NewIn(c'.mem, d, r, s, k, c'.mem[r].num, dir, nlinks)
    ensures SameHold(c.mem, d, c'.mem)
    ensures uid == 0xEEEE && r == Victim(c.mem) ==> NewIno(c.mem, c'.mem, r, mode, mtime)
  {
    hide WithZBit, FirstZero, MovedIn, IndexOf;
    assert Cleaner(c.mem[d], c'.mem[d]);
  }

  lemma RootOnly(ino: map<nat, Inode>, v: View, zs: Zones, k: nat)
    requires ino.Keys == {k} && k in zs && zs[k] == ino[k].zone == NoZones() && IsDir(ino[k].mode)
    requires ino[k].nlinks > 0 && ino[k].size == 0
    ensures TreeIs(ino, v, zs, map[k := []], map[]) && Tidy(map[k := []], map[])
  {
    hide DirOK, DirOf, Ptr, DataSlot;
    EmptyRoot(v, zs, k);
  }

  lemma EmptyRoot(v: View, zs: Zones, k: nat)
    requires k in zs && zs[k] == NoZones()
    ensures DirOK(v, zs, k, 0) && DirOf(v, zs, k, 0) == []
  {
    hide Ptr, DataSlot;
    forall i | 0 <= i < MAX_BLKS
      ensures Ptr(v, zs, DataSlot(k, i)) == 0
    {
      NoZonesPtr(v, zs, k, DataSlot(k, i));
    }
  }

  lemma {:induction false} NoZonesPtr(v: View, zs: Zones, k: nat, s: FileTree.Slot)
    requires k in zs && zs[k] == NoZones() && IsSlot(s) && FileTree.InoOf(s) == k
    ensures Ptr(v, zs, s) == 0
  {
    if s.Child? {
      NoZonesPtr(v, zs, k, s.parent);
    }
  }
}