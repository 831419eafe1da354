/** Files that are opened, read, written and closed: file_rd and file_wr (fs/file_rw.c) on inodes
    from the table, within a tree of directories. */
module OpenFiles {
  import opened Basics
  import opened Blocks
  import opened CacheState
  import opened BufferCache
  import opened FileTree
  import opened FileBytes
  import opened FileSystem
  import opened FileRw
  import opened InodeTable
  import opened DirEntries
  import opened HardLinks
  import opened FileNames

  /** Entry i is a held file of the tree. */
  ghost predicate HeldFile(tree: Tree, i: nat)
    reads tree, tree.t`mem
  {
    i < |tree.t.mem| == NR_INODE && tree.t.mem[i].dev != 0 && tree.t.mem[i].cnt > 0 && tree.t.mem[i].num in tree.nlinks
  }

  /** file_wr on entry i, up to the record of what it did to the inode. */
  method WriteIn(t: Table, i: nat, f: OpenFile, buf: seq<Byte>, cnt: int) returns (w: nat)
    requires t.Valid() && i < NR_INODE && t.mem[i].dev != 0 && t.mem[i].cnt > 0
    requires |t.fs.cache.refs| + 2 < |t.fs.cache.h.key|
    requires cnt <= |buf| && f.pos + Max(cnt, 0) <= MAX_BYTES && t.mem[i].ino.size + Max(cnt, 0) < 0x1_0000_0000
    modifies t.obj[i], t.fs, t.fs.cache, f
    ensures t.fs.Valid() && t.Pending(i, old(t.fs.zones)) && t.fs.cache.refs == old(t.fs.cache.refs)
    ensures |t.fs.cache.h.key| == |old(t.fs.cache.h.key)|
    ensures GrownFrom(t.mem[i], Snap(t.obj[i])) && (Snap(t.obj[i]) == t.mem[i] || Snap(t.obj[i]).dirt)
    ensures OthersKept(old(t.fs.cache.view), old(t.fs.zones), t.fs.cache.view, t.fs.zones, t.mem[i].num)
    ensures w <= Max(cnt, 0) && w <= |buf| && f.pos == old(f.pos) + w
    ensures var pos := if f.append then t.mem[i].ino.size else old(f.pos);
      && Wrote(old(t.fs.cache.view), old(t.fs.zones), t.mem[i].num, buf, pos, old(f.pos), w, t.fs.cache.view, t.fs.zones)
      && Snap(t.obj[i]).ino.size == if w > 0 then Max(t.mem[i].ino.size, pos + w) else t.mem[i].ino.size
    ensures w < cnt ==> t.fs.NoZone()
  {
    hide FileSys.Valid, Consistent, InUseOk, NoAlias, OthersKept, FileSys.NoZone, Wrote, Inode.Fits;
    InTable(t, i);
    OthersThan(t.obj, i);
    w := FileWr(t.fs, t.obj[i], f, buf, cnt);
    ZonesFit(t.fs, t.obj[i]);
    GrownFits(t.mem[i].ino, Snap(t.obj[i]).ino);
  }

  lemma TreeFile(ino: map<nat, Inode>, v: View, zs: Zones, v': View, zs': Zones, dir: map<nat, seq<DirEnt>>,
                 nlinks: map<nat, nat>, q: nat, x: Inode)
    requires TreeIs(ino, v, zs, dir, nlinks) && q in nlinks && q !in dir && OthersKept(v, zs, v', zs', q)
    requires FileIs(x, nlinks[q])
    ensures TreeIs(ino[q := x], v', zs', dir, nlinks)
  {
    hide DirIs, OthersKept;
    forall k | k in dir
      ensures DirIs(ino[k], v', zs', k, dir[k])
    {
      DirOther(ino[k], v, zs, v', zs', q, k, dir[k]);
    }
  }

  /** file_wr on an open file: the bytes of buf are in the file, all else is as it was, and all
      stays in order. */
  method WriteFile(tree: Tree, i: nat, f: OpenFile, buf: seq<Byte>, cnt: int) returns (w: nat)
    requires tree.Valid() && HeldFile(tree, i) && |tree.t.fs.cache.refs| + 2 < |tree.t.fs.cache.h.key|
    requires cnt <= |buf| && f.pos + Max(cnt, 0) <= MAX_BYTES && tree.t.mem[i].ino.size + Max(cnt, 0) < 0x1_0000_0000
    modifies tree.t`mem, tree.t`ino, tree.t.obj[i], tree.t.fs, tree.t.fs.cache, f
    ensures tree.Valid() && HeldFile(tree, i) && tree.t.mem[i].num == old(tree.t.mem[i].num)
    ensures tree.t.fs.cache.refs == old(tree.t.fs.cache.refs) && |tree.t.fs.cache.h.key| == |old(tree.t.fs.cache.h.key)|
    ensures w <= Max(cnt, 0) && w <= |buf| && f.pos == old(f.pos) + w && (w < cnt ==> tree.t.fs.NoZone())
    ensures Wrote(old(tree.t.fs.cache.view), old(tree.t.fs.zones), tree.t.mem[i].num, buf,
      if f.append then old(tree.t.mem[i].ino.size) else old(f.pos), old(f.pos), w, tree.t.fs.cache.view, tree.t.fs.zones)
    ensures tree.t.mem[i].ino.size ==
      if w > 0 then Max(old(tree.t.mem[i].ino.size), (if f.append then old(tree.t.mem[i].ino.size) else old(f.pos)) + w)
      else old(tree.t.mem[i].ino.size)
    ensures |old(tree.t.mem)| == |tree.t.mem| && tree.t.mem == old(tree.t.mem)[i := tree.t.mem[i]]
    ensures tree.t.mem[i].cnt == old(tree.t.mem[i].cnt) && tree.t.mem[i].ino.nlinks == old(tree.t.mem[i].ino.nlinks)
    ensures OthersKept(old(tree.t.fs.cache.view), old(tree.t.fs.zones), tree.t.fs.cache.view, tree.t.fs.zones, tree.t.mem[i].num)
  {
    hide Table.Valid, Table.Pending, FileSys.Valid, Tidy, TreeIs, OthersKept, FileSys.NoZone, Wrote, Snap;
    ghost var t, k, ino, v, zs := tree.t, tree.t.mem[i].num, tree.t.ino, tree.t.fs.cache.view, tree.t.fs.zones;
    Mirrored(t, tree.dir, tree.nlinks, i);
    LinksIs(t, tree.dir, tree.nlinks, i);
    TidyApart(tree.dir, tree.nlinks, k);
    w := WriteIn(tree.t, i, f, buf, cnt);
    tree.t.Record(i, zs);
    TreeFile(ino, v, zs, t.fs.cache.view, t.fs.zones, tree.dir, tree.nlinks, k, t.mem[i].ino);
  }

  /** file_rd on an open file (fs/file_rw.c:12-47). */
  method ReadFile(tree: Tree, i: nat, f: OpenFile, buf: array<Byte>, count: int) returns (r: nat)
    requires tree.Valid() && HeldFile(tree, i) && |tree.t.fs.cache.refs| + 2 < |tree.t.fs.cache.h.key|
    requires count <= buf.Length && f.pos + Max(count, 0) <= MAX_BYTES
    modifies tree.t.obj[i], tree.t.fs, tree.t.fs.cache, f, buf
    ensures tree.Valid() && tree.t.fs.cache.view == old(tree.t.fs.cache.view) && tree.t.fs.zones == old(tree.t.fs.zones)
    ensures tree.t.fs.cache.refs == old(tree.t.fs.cache.refs) && |tree.t.fs.cache.h.key| == |old(tree.t.fs.cache.h.key)|
    ensures r == Max(count, 0) && f.pos == old(f.pos) + r
    ensures forall k :: 0 <= k < buf.Length ==>
      buf[k] == if k < r then ByteAt(tree.t.fs.cache.view, tree.t.fs.zones, tree.t.mem[i].num, old(f.pos) + k) else old(buf[k])
  {
    hide FileSys.Valid, Tidy, TreeIs, ByteAt, Consistent, InUseOk, NoAlias, Inode.Fits;
    InTable(tree.t, i);
    OthersThan(tree.t.obj, i);
    r := FileRd(tree.t.fs, tree.t.obj[i], f, buf, count);
  }

  /** iget of an inode that the tree has. */
  method Open(tree: Tree, num: nat) returns (i: nat)
    requires tree.Valid() && (num in tree.dir || num in tree.nlinks) && (num in tree.t.at || HasRoom(tree.t.mem))
    requires |tree.t.fs.cache.refs| < |tree.t.fs.cache.h.key|
    modifies tree.t`mem, tree.t`at, tree.t.obj, tree.t.fs.cache, tree.t.fs.area
    ensures tree.Valid() && i < NR_INODE == |tree.t.mem| && tree.t.mem[i].dev != 0 && tree.t.mem[i].num == num
    ensures tree.t.mem[i].cnt > 0
    ensures StillThere(old(tree.t.fs.cache.view), tree.t.fs.zones, tree.t.fs.cache.view, tree.t.fs.zones)
    ensures HoldsKept(old(tree.t.fs.cache.Now()), tree.t.fs.cache.Now())
    ensures num in old(tree.t.at) ==> i == old(tree.t.at)[num] && i < |old(tree.t.mem)|
    ensures num in old(tree.t.at) ==>
      tree.t.mem == old(tree.t.mem)[i := old(tree.t.mem)[i].(cnt := old(tree.t.mem)[i].cnt + 1)]
  {
    hide Table.Valid, TreeIs, Tidy, StillThere, HoldsKept, HasRoom, Victim, MovedIn;
    ghost var v := tree.t.fs.cache.view;
    InUseIs(tree.t, tree.dir, tree.nlinks);
    i := tree.t.Iget(num);
    TreeStill(tree.t.ino, v, tree.t.fs.zones, tree.t.fs.cache.view, tree.t.fs.zones, tree.dir, tree.nlinks);
  }

  /** iput of an inode of the tree. A file without links that nobody else holds is given back,
      block by block, and out of the tree, unless it was changed; no name stands for it. */
  method Close(tree: Tree, i: nat)
    requires tree.Valid() && i < NR_INODE == |tree.t.mem| && tree.t.mem[i].cnt > 0 && tree.t.mem[i].dev != 0
    requires |tree.t.fs.cache.refs| + 2 < |tree.t.fs.cache.h.key|
    requires var x := tree.t.mem[i]; x.cnt == 1 && !x.dirt && x.ino.nlinks == 0 ==>
      Unheld(tree.t.fs.cache.view, tree.t.fs.zones, tree.t.mem[i].num, tree.t.fs.cache.refs)
    modifies tree, tree.t, tree.t.obj, tree.t.fs, tree.t.fs.cache, tree.t.fs.area
    ensures tree.Valid() && tree.t.fs.cache.refs == old(tree.t.fs.cache.refs)
    ensures |tree.t.fs.cache.h.key| == |old(tree.t.fs.cache.h.key)|
    ensures tree.dir == old(tree.dir) && i < |old(tree.t.mem)|
    ensures var x := old(tree.t.mem)[i];
      if x.cnt > 1 || x.dirt || x.ino.nlinks != 0
      then tree.nlinks == old(tree.nlinks) && tree.t.mem == old(tree.t.mem)[i := x.(cnt := x.cnt - 1, dirt := false)]
      else tree.nlinks == old(tree.nlinks) - {x.num} && tree.t.mem == old(tree.t.mem)[i := Blank()] && x.num !in old(tree.dir)
    ensures OthersKept(old(tree.t.fs.cache.view), old(tree.t.fs.zones), tree.t.fs.cache.view, tree.t.fs.zones, old(tree.t.mem[i].num))
  {
    hide Shows, Tidy, StillThere, PinsKept, OthersKept, Unheld;
    ghost var dir, nlinks, k := tree.dir, tree.nlinks, tree.t.mem[i].num;
    UnlinkedGone(tree.t, dir, nlinks, i);
    ghost var gone := CloseIn(tree.t, i, dir, nlinks);
    tree.dir, tree.nlinks := dir, if gone then nlinks - {k} else nlinks;
  }

  /** An inode that iput reclaims is a file, and no name stands for it. */
  lemma UnlinkedGone(t: Table, dir: map<nat, seq<DirEnt>>, nlinks: map<nat, nat>, i: nat)
    requires Shows(t, dir, nlinks) && Tidy(dir, nlinks) && i < NR_INODE == |t.mem| && t.mem[i].dev != 0
    ensures Reclaims(t.mem[i]) ==> t.mem[i].num in nlinks && t.mem[i].num !in dir && Tidy(dir, nlinks - {t.mem[i].num})
  {
    hide Shows;
    Mirrored(t, dir, nlinks, i);
    IsDirIs(t, dir, nlinks, i);
    if Reclaims(t.mem[i]) {
      LinksIs(t, dir, nlinks, i);
      GoneTidy(dir, nlinks, t.mem[i].num);
    }
  }

  lemma GoneTidy(dir: map<nat, seq<DirEnt>>, nlinks: map<nat, nat>, k: nat)
    requires Tidy(dir, nlinks) && k in nlinks && nlinks[k] == 0
    ensures k !in dir && Tidy(dir, nlinks - {k})
  {
    hide UniqueNames, Short;
    assert |Refs(dir, k)| == 0;
    forall d: nat, e: nat | d in dir && e < |dir[d]| && dir[d][e].name != []
      ensures dir[d][e].ino != k
    {
      assert (d, e) !in Refs(dir, k);
    }
  }

  method CloseIn(t: Table, i: nat, ghost dir: map<nat, seq<DirEnt>>, ghost nlinks: map<nat, nat>)
    returns (ghost gone: bool)
    requires Shows(t, dir, nlinks) && i < NR_INODE == |t.mem| && t.mem[i].cnt > 0 && t.mem[i].dev != 0
    requires |t.fs.cache.refs| + 2 < |t.fs.cache.h.key|
    requires Reclaims(t.mem[i]) ==> Unheld(t.fs.cache.view, t.fs.zones, t.mem[i].num, t.fs.cache.refs)
    requires Reclaims(t.mem[i]) ==> t.mem[i].num in nlinks && t.mem[i].num !in dir
    modifies t, t.obj, t.fs, t.fs.cache, t.fs.area
    ensures gone == old(Reclaims(t.mem[i])) && i < |old(t.mem)|
    ensures t.mem == old(t.mem)[i := if gone then Blank() else old(t.mem)[i].(cnt := old(t.mem)[i].cnt - 1, dirt := false)]
    ensures Shows(t, dir, if gone then nlinks - {old(t.mem[i].num)} else nlinks)
    ensures t.fs.cache.refs == old(t.fs.cache.refs) && |t.fs.cache.h.key| == |old(t.fs.cache.h.key)|
    ensures OthersKept(old(t.fs.cache.view), old(t.fs.zones), t.fs.cache.view, t.fs.zones, old(t.mem[i].num))
  {
    hide Table.Valid, TreeIs, StillThere, HoldsKept, OthersKept, OutOfUse, Unheld;
    ghost var v, zs, ino, k := t.fs.cache.view, t.fs.zones, t.ino, t.mem[i].num;
    gone := Reclaims(t.mem[i]);
    Mirrored(t, dir, nlinks, i);
    t.Iput(i);
    if gone {
      TreeGone(ino, v, zs, t.fs.cache.view, t.fs.zones, dir, nlinks, k);
    } else {
      StillOthers(v, zs, t.fs.cache.view, t.fs.zones, k);
      TreeStill(ino, v, zs, t.fs.cache.view, t.fs.zones, dir, nlinks);
    }
  }
}
