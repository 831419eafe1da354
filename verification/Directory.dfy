/** Directories in files: find_entry and add_entry (fs/namei.c:11-109). */
module Directory {
  import opened Blocks
  import opened CacheState
  import opened BufferCache
  import opened FileTree
  import FileBytes
  import opened FileSystem
  import opened DirEntries

  /** Block i of directory ino. */
  function DirBlk(v: View, zs: Zones, ino: nat, i: nat): Block
    requires i < MAX_BLKS
  {
    At(v, Ptr(v, zs, DataSlot(ino, i)))
  }

  /** All slots of a directory of n blocks. */
  function DirOf(v: View, zs: Zones, ino: nat, n: nat): (d: seq<DirEnt>)
    requires n <= MAX_BLKS
    ensures |d| == ENTRIES_PER_BLK * n
  {
    if n == 0 then [] else DirOf(v, zs, ino, n - 1) + Ents(DirBlk(v, zs, ino, n - 1))
  }

  /** The layout of a directory of n blocks: these are there, names in them are closed by a NUL,
      and there are no blocks behind them. */
  ghost predicate DirOK(v: View, zs: Zones, ino: nat, n: nat) {
    && n <= MAX_BLKS
    && (forall i :: 0 <= i < n ==> Ptr(v, zs, DataSlot(ino, i)) != 0 && Terminated(DirBlk(v, zs, ino, i)))
    && (forall i :: n <= i < MAX_BLKS ==> Ptr(v, zs, DataSlot(ino, i)) == 0)
  }

  lemma {:induction false} DirAt(v: View, zs: Zones, ino: nat, n: nat, e: nat)
    requires n <= MAX_BLKS && e < ENTRIES_PER_BLK * n
    ensures e / ENTRIES_PER_BLK < n
    ensures DirOf(v, zs, ino, n)[e] == EntAt(DirBlk(v, zs, ino, e / ENTRIES_PER_BLK), e % ENTRIES_PER_BLK)
  {
    hide EntAt, DirBlk;
    if e < ENTRIES_PER_BLK * (n - 1) {
      DirAt(v, zs, ino, n - 1, e);
    } else {
      assert e / ENTRIES_PER_BLK == n - 1 && e % ENTRIES_PER_BLK == e - ENTRIES_PER_BLK * (n - 1);
    }
  }

  lemma {:induction false} DirSame(v: View, zs: Zones, v': View, zs': Zones, ino: nat, n: nat)
    requires n <= MAX_BLKS && forall i :: 0 <= i < n ==> DirBlk(v', zs', ino, i) == DirBlk(v, zs, ino, i)
    ensures DirOf(v', zs', ino, n) == DirOf(v, zs, ino, n)
  {
    if n > 0 {
      DirSame(v, zs, v', zs', ino, n - 1);
    }
  }

  /** A directory that is kept has the same slots. */
  lemma OthersDir(v: View, zs: Zones, v': View, zs': Zones, ino: nat, i: nat, n: nat)
    requires OthersKept(v, zs, v', zs', ino) && i != ino && DirOK(v, zs, i, n)
    ensures n <= MAX_BLKS && DirOK(v', zs', i, n) && DirOf(v', zs', i, n) == DirOf(v, zs, i, n)
  {
    hide Ptr, DataSlot, Terminated;
    forall k | 0 <= k < MAX_BLKS
      ensures SlotKept(v, zs, v', zs', DataSlot(i, k))
    {
    }
    DirSame(v, zs, v', zs', i, n);
  }

  /** The block size of a directory file. */
  function BlkNr(size: nat): nat {
    size / BLK_SIZE + if size % BLK_SIZE != 0 then 1 else 0
  }

  // ---------- find_entry ----------

  ghost predicate NoHits(dir: seq<DirEnt>, s: CStr, len: nat) {
    forall e :: 0 <= e < |dir| ==> !Hit(dir, e, s, len)
  }

  /** Slot e is the first of the directory of n blocks that is taken for the name. */
  ghost predicate FoundAt(v: View, zs: Zones, ino: nat, n: nat, e: nat, s: CStr, len: nat) {
    n <= MAX_BLKS && FirstHit(DirOf(v, zs, ino, n), e, s, len)
  }

  ghost predicate NotThere(v: View, zs: Zones, ino: nat, n: nat, s: CStr, len: nat) {
    n <= MAX_BLKS && NoHits(DirOf(v, zs, ino, n), s, len)
  }

  /** One block of find_entry (fs/namei.c:33-52): on a hit the buffer stays held. */
  method FindInBlk(fs: FileSys, nr: nat, s: CStr, len: nat) returns (found: bool, b: nat, j: nat, len': nat)
    requires fs.Valid() && |fs.cache.refs| < |fs.cache.h.key|
    modifies fs.cache
    ensures fs.Valid() && fs.cache.view == old(fs.cache.view) && |fs.cache.h.key| == |old(fs.cache.h.key)|
    ensures found ==> j < ENTRIES_PER_BLK && FirstHit(Ents(At(fs.cache.view, nr)), j, s, len)
    ensures found ==> HeldOnce(old(fs.cache.refs), b, BlkKey(nr), fs.cache.Now())
    ensures !found ==> fs.cache.refs == old(fs.cache.refs) && NoHits(Ents(At(fs.cache.view, nr)), s, len)
    ensures !found ==> len' == Longest(Ents(At(fs.cache.view, nr)), ENTRIES_PER_BLK, len)
  {
    hide Cache.Valid, Owned, PinsKept, State.Only, LowOk, Dropped, Raised, Cache.Room, FileSystem.UsedOf, EntAt,
      Ents, Hit, Longest;
    fs.cache.HoldDropped(BlkKey(nr));
    fs.cache.Roomy(BlkKey(nr));
    b := fs.cache.Bread(BlkKey(nr));
    fs.cache.Reads(b, BlkKey(nr));
    j, len' := ScanBlk(fs.cache.h.data[b], s, len);
    found := j < ENTRIES_PER_BLK;
    if !found {
      fs.cache.Brelse(b, BlkKey(nr));
    }
  }

  /** One round of find_entry: block i of the directory. */
  method FindRound(fs: FileSys, m: MemInode, i: nat, s: CStr, len: nat) returns (found: bool, b: nat, j: nat, len': nat)
    requires fs.Valid() && fs.Loaded(m) && m.cnt > 0 && |fs.cache.refs| + 2 < |fs.cache.h.key|
    requires i < MAX_BLKS && Ptr(fs.cache.view, fs.zones, DataSlot(m.num, i)) != 0
    modifies fs, m`zone, m`dirt, fs.cache
    ensures fs.Valid() && fs.Loaded(m) && fs.cache.view == old(fs.cache.view) && fs.zones == old(fs.zones)
    ensures m.zone == old(m.zone) && m.dirt == old(m.dirt)
    ensures |fs.cache.h.key| == |old(fs.cache.h.key)|
    ensures found ==> j < ENTRIES_PER_BLK && FirstHit(Ents(DirBlk(fs.cache.view, fs.zones, m.num, i)), j, s, len)
    ensures found ==>
      Holds(fs.cache.view, fs.zones, m.num, ENTRIES_PER_BLK * i + j, b, j, old(fs.cache.refs), fs.cache.Now())
    ensures !found ==> fs.cache.refs == old(fs.cache.refs)
    ensures !found ==> NoHits(Ents(DirBlk(fs.cache.view, fs.zones, m.num, i)), s, len)
    ensures !found ==> len' == Longest(Ents(DirBlk(fs.cache.view, fs.zones, m.num, i)), ENTRIES_PER_BLK, len)
  {
    hide FileSys.Valid, MapResult, PinsKept, Ptr, DataSlot, Hit, Longest, Ents, Holds, Raised, FirstHit, NoHits;
    ghost var v, zs, refs := fs.cache.view, fs.zones, fs.cache.refs;
    var nr, created := fs.BMap(m, i, false);
    MapPlain(v, zs, fs.cache.view, fs.zones, DataSlot(m.num, i), nr, created);
    found, b, j, len' := FindInBlk(fs, nr, s, len);
    if found {
      HoldsAt(v, zs, m.num, i, b, j, refs, fs.cache.Now(), ENTRIES_PER_BLK * i + j);
    }
  }

  /** find_entry (fs/namei.c:11-55): the first slot taken for the name, with the buffer it is in
      held, or none if there is none. */
  method FindEntry(fs: FileSys, m: MemInode, s: CStr, nameLen: nat) returns (found: bool, b: nat, j: nat, ghost e: nat)
    requires fs.Valid() && fs.Loaded(m) && m.cnt > 0 && |fs.cache.refs| + 2 < |fs.cache.h.key|
    requires nameLen <= |s| && DirOK(fs.cache.view, fs.zones, m.num, BlkNr(m.size))
    modifies fs, m`zone, m`dirt, fs.cache
    ensures fs.Valid() && fs.Loaded(m) && fs.cache.view == old(fs.cache.view) && fs.zones == old(fs.zones)
    ensures m.zone == old(m.zone) && m.dirt == old(m.dirt)
    ensures |fs.cache.h.key| == |old(fs.cache.h.key)|
    ensures found ==> nameLen > 0 && FoundAt(fs.cache.view, fs.zones, m.num, BlkNr(m.size), e, s, Cut(nameLen))
    ensures found ==> Holds(fs.cache.view, fs.zones, m.num, e, b, j, old(fs.cache.refs), fs.cache.Now())
    ensures !found ==> fs.cache.refs == old(fs.cache.refs)
    ensures !found && nameLen > 0 ==> NotThere(fs.cache.view, fs.zones, m.num, BlkNr(m.size), s, Cut(nameLen))
  {
    hide FileSys.Valid, Ptr, DataSlot, Hit, Longest, Ents, Holds, DirOf, FirstHit, NoHits, EntAt, DirBlk;
    if nameLen == 0 {
      return false, 0, 0, 0;
    }
    var len0 := Cut(nameLen);
    var i, blkNr, len := 0, BlkNr(m.size), len0;
    ghost var v, zs, n, refs, heads := fs.cache.view, fs.zones, BlkNr(m.size), fs.cache.refs, |fs.cache.h.key|;
    FindNone(v, zs, m.num, s, len0);
    while i < MAX_BLKS && blkNr > 0
      invariant 0 <= i <= MAX_BLKS && i + blkNr == n
      invariant fs.Valid() && fs.Loaded(m) && fs.cache.view == v && fs.zones == zs && fs.cache.refs == refs
      invariant |fs.cache.h.key| == heads
      invariant m.zone == old(m.zone) && m.dirt == old(m.dirt)
      invariant len == Longest(DirOf(v, zs, m.num, i), ENTRIES_PER_BLK * i, len0)
      invariant NoHits(DirOf(v, zs, m.num, i), s, len0)
    {
      ghost var len1 := len;
      found, b, j, len := FindRound(fs, m, i, s, len);
      blkNr := blkNr - 1;
      if found {
        e := ENTRIES_PER_BLK * i + j;
        FoundInBlk(v, zs, m.num, n, i, j, s, len0, len1);
        return;
      }
      NotInBlk(v, zs, m.num, i, s, len0, len1);
      i := i + 1;
    }
    return false, 0, 0, 0;
  }

  /** The truncation of long names (fs/namei.c:23-24, 70-71). */
  function Cut(nameLen: nat): (r: nat)
    ensures nameLen <= 14 ==> r == nameLen
    ensures nameLen > 14 ==> r == 13
  {
    if nameLen > NAME_LEN then NAME_LEN - 1 else nameLen
  }

  lemma MapPlain(v: View, zs: Zones, v': View, zs': Zones, s: Slot, r: nat, created: bool)
    requires IsData(s) && MapResult(v, zs, v', zs', s, false, r, created)
    ensures v' == v && zs' == zs && r == Ptr(v, zs, s)
  {
  }

  /** Buffer b holds the block of slot e of the directory, which is slot j there. */
  ghost predicate Holds(v: View, zs: Zones, ino: nat, e: nat, b: nat, j: nat, refs: map<Key, nat>, c: State) {
    && e / ENTRIES_PER_BLK < MAX_BLKS && j == e % ENTRIES_PER_BLK
    && var k := BlkKey(Ptr(v, zs, DataSlot(ino, e / ENTRIES_PER_BLK)));
      HeldOnce(refs, b, k, c)
  }

  /** Buffer b holds block k, once more than before. */
  ghost predicate HeldOnce(refs: map<Key, nat>, b: nat, k: Key, c: State) {
    c.Pin(b, k) && Dropped(c.refs, k) == refs && |c.refs| <= |refs| + 1
  }

  lemma HoldsAt(v: View, zs: Zones, ino: nat, i: nat, b: nat, j: nat, refs: map<Key, nat>, c: State, e: nat)
    requires i < MAX_BLKS && j < ENTRIES_PER_BLK && e == ENTRIES_PER_BLK * i + j
    requires HeldOnce(refs, b, BlkKey(Ptr(v, zs, DataSlot(ino, i))), c)
    ensures Holds(v, zs, ino, e, b, j, refs, c)
  {
    hide HeldOnce, Ptr, DataSlot;
    assert e / ENTRIES_PER_BLK == i && e % ENTRIES_PER_BLK == j;
  }

  lemma FindNone(v: View, zs: Zones, ino: nat, s: CStr, len: nat)
    ensures DirOf(v, zs, ino, 0) == [] && Longest([], 0, len) == len && NoHits([], s, len)
  {
  }

  lemma NotInBlk(v: View, zs: Zones, ino: nat, i: nat, s: CStr, len: nat, len1: nat)
    requires i < MAX_BLKS && len1 == Longest(DirOf(v, zs, ino, i), ENTRIES_PER_BLK * i, len)
    requires NoHits(DirOf(v, zs, ino, i), s, len) && NoHits(Ents(DirBlk(v, zs, ino, i)), s, len1)
    ensures NoHits(DirOf(v, zs, ino, i + 1), s, len)
    ensures Longest(DirOf(v, zs, ino, i + 1), ENTRIES_PER_BLK * (i + 1), len) == Longest(Ents(DirBlk(v, zs, ino, i)), ENTRIES_PER_BLK, len1)
  {
    hide Hit, Longest, DirBlk, Ents;
    var dir, ents := DirOf(v, zs, ino, i), Ents(DirBlk(v, zs, ino, i));
    NoHitOn(dir, ents, |ents|, s, len);
    LongestOn(dir, ents, |ents|, len);
  }

  lemma FoundInBlk(v: View, zs: Zones, ino: nat, n: nat, i: nat, j: nat, s: CStr, len: nat, len1: nat)
    requires i < n <= MAX_BLKS && len1 == Longest(DirOf(v, zs, ino, i), ENTRIES_PER_BLK * i, len)
    requires NoHits(DirOf(v, zs, ino, i), s, len) && FirstHit(Ents(DirBlk(v, zs, ino, i)), j, s, len1)
    ensures FirstHit(DirOf(v, zs, ino, n), ENTRIES_PER_BLK * i + j, s, len)
  {
    hide Hit, Longest, DirBlk, Ents;
    var dir, ents := DirOf(v, zs, ino, i), Ents(DirBlk(v, zs, ino, i));
    FirstHitOn(dir, ents, j, s, len);
    assert DirOf(v, zs, ino, i + 1) == dir + ents;
    DirPrefix(v, zs, ino, i + 1, n);
    FirstHitLonger(dir + ents, DirOf(v, zs, ino, n), |dir| + j, s, len);
  }

  lemma {:induction false} DirPrefix(v: View, zs: Zones, ino: nat, i: nat, n: nat)
    requires i <= n <= MAX_BLKS
    ensures DirOf(v, zs, ino, i) <= DirOf(v, zs, ino, n)
  {
    hide DirBlk, Ents;
    if i < n {
      DirPrefix(v, zs, ino, i, n - 1);
    }
  }

  lemma FirstHitLonger(dir: seq<DirEnt>, dir': seq<DirEnt>, e: nat, s: CStr, len: nat)
    requires dir <= dir' && FirstHit(dir, e, s, len)
    ensures FirstHit(dir', e, s, len)
  {
    hide Hit;
    var more := dir'[|dir|..];
    assert dir' == dir + more;
    forall k | 0 <= k <= e
      ensures Hit(dir', k, s, len) == Hit(dir, k, s, len)
    {
      HitOn(dir, more, k, s, len);
    }
  }

  /** The name under which a component is stored and looked up. */
  function Stored(s: CStr): (r: CStr)
    ensures r <= s && |r| == if |s| > 14 then 13 else |s|
  {
    if |s| > NAME_LEN then Prefix(s, NAME_LEN - 1) else s
  }

  /** A last component of any length is found exactly if a slot has the name, cut to 13
      characters if it is longer than 14; what is found has it, and if names are unique what
      has it is found. */
  lemma FindsByName(dir: seq<DirEnt>, s: CStr)
    requires s != [] && forall e :: 0 <= e < |dir| ==> |dir[e].name| < NAME_LEN
    ensures NoHits(dir, s, Cut(|s|)) <==> !Has(dir, Stored(s))
    ensures forall e: nat :: FirstHit(dir, e, s, Cut(|s|)) ==> dir[e].name == Stored(s)
    ensures UniqueNames(dir) ==> forall e :: 0 <= e < |dir| && dir[e].name == Stored(s) ==> FirstHit(dir, e, s, Cut(|s|))
  {
    hide Hit;
    forall e | 0 <= e < |dir|
      ensures Hit(dir, e, s, Cut(|s|)) <==> dir[e].name == Stored(s)
    {
      HitStored(dir, e, s);
    }
  }

  lemma HitStored(dir: seq<DirEnt>, e: nat, s: CStr)
    requires s != [] && e < |dir| && forall k :: 0 <= k < |dir| ==> |dir[k].name| < NAME_LEN
    ensures Hit(dir, e, s, Cut(|s|)) <==> dir[e].name == Stored(s)
  {
    hide Longest, Strncmp;
    if |s| <= NAME_LEN {
      HitLast(dir, e, s);
    } else {
      LongestBound(dir, e + 1, NAME_LEN - 1);
      MatchPart(dir[e].name, s, NAME_LEN - 1, NAME_LEN - 1);
    }
  }

  // ---------- add_entry ----------

  /** Storing a block of the directory in which only slot j changed changes that slot of the
      directory, and nothing outside it. */
  lemma StoredEnt(v: View, zs: Zones, used: set<nat>, owner: map<nat, Slot>, ino: nat, n: nat, i: nat, j: nat,
                  d: Block, x: DirEnt)
    requires Owned(v, zs, used, owner) && DirOK(v, zs, ino, n) && i < n && j < ENTRIES_PER_BLK && |x.name| < NAME_LEN
    requires forall k :: 0 <= k < ENTRIES_PER_BLK ==>
      EntAt(d, k) == if k == j then x else EntAt(DirBlk(v, zs, ino, i), k)
    ensures var v' := v[BlkKey(Ptr(v, zs, DataSlot(ino, i))) := d];
      && Owned(v', zs, used, owner) && DirOK(v', zs, ino, n) && OthersKept(v, zs, v', zs, ino)
      && DirOf(v', zs, ino, n) == DirOf(v, zs, ino, n)[ENTRIES_PER_BLK * i + j := x]
      && forall s :: IsData(s) ==> Ptr(v', zs, s) == Ptr(v, zs, s)
  {
    hide Owned, Ptr, DataSlot, EntAt, DirBlk, DirOf, Terminated, OthersKept;
    var v' := v[BlkKey(Ptr(v, zs, DataSlot(ino, i))) := d];
    FileBytes.StoredOwned(v, zs, used, owner, DataSlot(ino, i), d);
    forall k | 0 <= k < n
      ensures DirBlk(v', zs, ino, k) == if k == i then d else DirBlk(v, zs, ino, k)
    {
      StoredBlk(v, zs, used, owner, ino, n, i, d, k);
    }
    FileBytes.StoredOthers(v, zs, used, owner, ino, i, d);
    StoredTerminated(DirBlk(v, zs, ino, i), d, j, x);
    DirSet(v, v', zs, ino, n, i, j, d, x);
  }

  lemma StoredBlk(v: View, zs: Zones, used: set<nat>, owner: map<nat, Slot>, ino: nat, n: nat, i: nat, d: Block, k: nat)
    requires Owned(v, zs, used, owner) && DirOK(v, zs, ino, n) && i < n && k < n
    ensures DirBlk(v[BlkKey(Ptr(v, zs, DataSlot(ino, i))) := d], zs, ino, k) == if k == i then d else DirBlk(v, zs, ino, k)
  {
    FileBytes.StoredOwned(v, zs, used, owner, DataSlot(ino, i), d);
    hide Owned, Ptr, DataSlot, Terminated;
    if DataSlot(ino, k) == DataSlot(ino, i) {
      DataSlotInjective(ino, k, ino, i);
    }
  }

  lemma StoredTerminated(b: Block, d: Block, j: nat, x: DirEnt)
    requires Terminated(b) && |x.name| < NAME_LEN
    requires forall k :: 0 <= k < ENTRIES_PER_BLK ==> EntAt(d, k) == if k == j then x else EntAt(b, k)
    ensures Terminated(d)
  {
    hide EntAt;
  }

  lemma DirSet(v: View, v': View, zs: Zones, ino: nat, n: nat, i: nat, j: nat, d: Block, x: DirEnt)
    requires i < n <= MAX_BLKS && j < ENTRIES_PER_BLK
    requires forall k :: 0 <= k < n ==> DirBlk(v', zs, ino, k) == if k == i then d else DirBlk(v, zs, ino, k)
    requires forall k :: 0 <= k < ENTRIES_PER_BLK ==>
      EntAt(d, k) == if k == j then x else EntAt(DirBlk(v, zs, ino, i), k)
    ensures DirOf(v', zs, ino, n) == DirOf(v, zs, ino, n)[ENTRIES_PER_BLK * i + j := x]
  {
    hide DirOf, EntAt, DirBlk;
    var dir, dir' := DirOf(v, zs, ino, n), DirOf(v', zs, ino, n);
    forall e | 0 <= e < |dir|
      ensures dir'[e] == dir[ENTRIES_PER_BLK * i + j := x][e]
    {
      DirAt(v, zs, ino, n, e);
      DirAt(v', zs, ino, n, e);
    }
  }

  /** Asking for block i of a directory of n blocks, with creation: blocks that are there stay,
      and a block created behind them adds slots that are not in use. */
  lemma MapDir(v: View, zs: Zones, v': View, zs': Zones, ino: nat, n: nat, i: nat, r: nat, created: bool)
    requires DirOK(v, zs, ino, n) && i <= n && i < MAX_BLKS
    requires MapResult(v, zs, v', zs', DataSlot(ino, i), true, r, created)
    ensures created ==> i == n && r != 0
    ensures var n' := if created then n + 1 else n;
      DirOK(v', zs', ino, n') && (r != 0 ==> i < n') && (i < n ==> r != 0) && (i == n && r != 0 ==> created)
    ensures DirOf(v', zs', ino, n) == DirOf(v, zs, ino, n)
    ensures created ==> DirOf(v', zs', ino, n + 1) == DirOf(v, zs, ino, n) + Ents(ZeroBlock())
    ensures OthersKept(v, zs, v', zs', ino) && Ptr(v', zs', DataSlot(ino, i)) == r
  {
    hide EntAt, Ents, Ptr, DataSlot, OthersKept, Extended, Terminated;
    forall k | 0 <= k < MAX_BLKS
      ensures Ptr(v', zs', DataSlot(ino, k)) == if k == i then r else Ptr(v, zs, DataSlot(ino, k))
      ensures k < n ==> DirBlk(v', zs', ino, k) == DirBlk(v, zs, ino, k)
    {
      MapBlk(v, zs, v', zs', ino, n, i, r, created, k);
    }
    MapOthers(v, zs, v', zs', ino, i, true, r, created);
    ZeroTerminated();
    DirSame(v, zs, v', zs', ino, n);
  }

  lemma MapBlk(v: View, zs: Zones, v': View, zs': Zones, ino: nat, n: nat, i: nat, r: nat, created: bool, k: nat)
    requires DirOK(v, zs, ino, n) && i <= n && i < MAX_BLKS
    requires MapResult(v, zs, v', zs', DataSlot(ino, i), true, r, created) && k < MAX_BLKS
    ensures Ptr(v', zs', DataSlot(ino, k)) == if k == i then r else Ptr(v, zs, DataSlot(ino, k))
    ensures k < n ==> DirBlk(v', zs', ino, k) == DirBlk(v, zs, ino, k)
  {
    hide EntAt, Ents, Ptr, DataSlot, Terminated;
    if DataSlot(ino, k) == DataSlot(ino, i) {
      DataSlotInjective(ino, k, ino, i);
    }
  }

  lemma ZeroTerminated()
    ensures Terminated(ZeroBlock())
  {
    hide EntAt;
    forall j | 0 <= j < ENTRIES_PER_BLK
      ensures |EntAt(ZeroBlock(), j).name| < NAME_LEN
    {
      ZeroUnused(j);
    }
  }

  /** The first slot not in use from slot 64 i on, in block i, is e. */
  ghost predicate FirstUnused(dir: seq<DirEnt>, i: nat, e: nat) {
    && ENTRIES_PER_BLK * i <= e < ENTRIES_PER_BLK * i + ENTRIES_PER_BLK && e < |dir| && Unused(dir[e])
    && NoneUnused(dir, ENTRIES_PER_BLK * i, e)
  }

  ghost predicate NoneUnused(dir: seq<DirEnt>, from: nat, till: nat)
    requires till <= |dir|
  {
    forall k :: from <= k < till ==> !Unused(dir[k])
  }

  /** No slot of block i is free. */
  ghost predicate BlkFull(v: View, zs: Zones, ino: nat, n: nat, i: nat) {
    i < n <= MAX_BLKS && NoneUnused(DirOf(v, zs, ino, n), ENTRIES_PER_BLK * i, ENTRIES_PER_BLK * (i + 1))
  }

  /** The name went into slot e, the first of block i that was free. */
  ghost predicate NamedIn(v: View, zs: Zones, ino: nat, n: nat, i: nat, e: nat, name: CStr, v': View) {
    && n <= MAX_BLKS && FirstUnused(DirOf(v, zs, ino, n), i, e)
    && DirOf(v', zs, ino, n) == DirOf(v, zs, ino, n)[e := DirEnt(0, name)]
  }

  /** Block i of add_entry (fs/namei.c:89-106): the name goes into the first slot that is not in
      use, and the buffer stays held; or there is none. */
  method AddInBlk(fs: FileSys, ghost ino: nat, ghost n: nat, ghost i: nat, nr: nat, s: CStr, len: nat)
    returns (found: bool, b: nat, j: nat)
    requires fs.Valid() && |fs.cache.refs| < |fs.cache.h.key| && 0 < len <= |s| && len < NAME_LEN
    requires DirOK(fs.cache.view, fs.zones, ino, n) && i < n && nr == Ptr(fs.cache.view, fs.zones, DataSlot(ino, i))
    modifies fs.cache
    ensures fs.Valid() && |fs.cache.h.key| == |old(fs.cache.h.key)| && DirOK(fs.cache.view, fs.zones, ino, n)
    ensures OthersKept(old(fs.cache.view), fs.zones, fs.cache.view, fs.zones, ino)
    ensures !found ==> fs.cache.view == old(fs.cache.view) && fs.cache.refs == old(fs.cache.refs)
    ensures !found ==> BlkFull(fs.cache.view, fs.zones, ino, n, i)
    ensures found ==> j < ENTRIES_PER_BLK
    ensures found ==>
      NamedIn(old(fs.cache.view), fs.zones, ino, n, i, ENTRIES_PER_BLK * i + j, Prefix(s, len), fs.cache.view)
    ensures found ==>
      Holds(fs.cache.view, fs.zones, ino, ENTRIES_PER_BLK * i + j, b, j, old(fs.cache.refs), fs.cache.Now())
  {
    hide Cache.Valid, Owned, PinsKept, State.Only, LowOk, Dropped, Raised, Cache.Room, FileSystem.UsedOf, EntAt, DirOK, DirOf, OthersKept,
      Ptr, DataSlot, Holds, PutName, FirstUnused, NoneUnused;
    ghost var v, zs, u, refs := fs.cache.view, fs.zones, fs.Used(), fs.cache.refs;
    DirOKSize(v, zs, ino, n);
    OthersSelf(v, zs, ino);
    InUse(v, zs, u, fs.owner, DataSlot(ino, i));
    fs.UsedRange();
    fs.cache.HoldDropped(BlkKey(nr));
    fs.cache.Roomy(BlkKey(nr));
    b := fs.cache.Bread(BlkKey(nr));
    fs.cache.Reads(b, BlkKey(nr));
    var blk := fs.cache.h.data[b];
    fs.cache.Total();
    j := ScanUnused(blk);
    ScannedDir(v, zs, ino, n, i, j);
    found := j < ENTRIES_PER_BLK;
    if !found {
      fs.cache.Brelse(b, BlkKey(nr));
    } else {
      var d := PutName(blk, j, s, len);
      PutNameEnts(blk, j, s, len);
      StoredEnt(v, zs, u, fs.owner, ino, n, i, j, d, DirEnt(0, Prefix(s, len)));
      LowStored(v, fs.first, fs.area.blocks, nr, d);
      fs.cache.Store(b, BlkKey(nr), d);
      HoldsAt(fs.cache.view, zs, ino, i, b, j, refs, fs.cache.Now(), ENTRIES_PER_BLK * i + j);
    }
  }

  lemma PutNameEnts(b: Block, j: nat, s: CStr, len: nat)
    requires j < ENTRIES_PER_BLK && 0 < len <= |s| && len < NAME_LEN && Unused(EntAt(b, j))
    ensures forall k :: 0 <= k < ENTRIES_PER_BLK ==>
      EntAt(PutName(b, j, s, len), k) == if k == j then DirEnt(0, Prefix(s, len)) else EntAt(b, k)
  {
    hide EntAt, PutName;
    forall k | 0 <= k < ENTRIES_PER_BLK
      ensures EntAt(PutName(b, j, s, len), k) == if k == j then DirEnt(0, Prefix(s, len)) else EntAt(b, k)
    {
      PutNameEnt(b, j, s, len, k);
    }
  }

  lemma DirOKSize(v: View, zs: Zones, ino: nat, n: nat)
    requires DirOK(v, zs, ino, n)
    ensures n <= MAX_BLKS && forall i :: 0 <= i < n ==> Ptr(v, zs, DataSlot(ino, i)) != 0
  {
  }

  /** What the scan of block i means for the directory. */
  lemma ScannedDir(v: View, zs: Zones, ino: nat, n: nat, i: nat, j: nat)
    requires i < n <= MAX_BLKS && j <= ENTRIES_PER_BLK
    requires forall k :: 0 <= k < j ==> !Unused(EntAt(DirBlk(v, zs, ino, i), k))
    requires j < ENTRIES_PER_BLK ==> Unused(EntAt(DirBlk(v, zs, ino, i), j))
    ensures j < ENTRIES_PER_BLK ==> FirstUnused(DirOf(v, zs, ino, n), i, ENTRIES_PER_BLK * i + j)
    ensures j == ENTRIES_PER_BLK ==> NoneUnused(DirOf(v, zs, ino, n), ENTRIES_PER_BLK * i, ENTRIES_PER_BLK * (i + 1))
  {
    hide EntAt, DirBlk, DirOf, Unused;
    forall e | ENTRIES_PER_BLK * i <= e < ENTRIES_PER_BLK * i + ENTRIES_PER_BLK
      ensures DirOf(v, zs, ino, n)[e] == EntAt(DirBlk(v, zs, ino, i), e - ENTRIES_PER_BLK * i)
    {
      DirAt(v, zs, ino, n, e);
    }
  }

  /** The outcome of one round of add_entry: no block could be had, no slot is free in the
      block, or the name is in. */
  datatype Added = NoBlock | NoSlot | In(b: nat, j: nat)

  /** The directory with the slots of a new block if it grew by one. */
  function Grown(dir: seq<DirEnt>, grew: bool): seq<DirEnt> {
    if grew then dir + Ents(ZeroBlock()) else dir
  }

  /** The directory and its file before and after add_entry found slot e for the name. */
  ghost predicate AddedAt(v: View, zs: Zones, ino: nat, n: nat, v': View, zs': Zones, size': nat, i: nat, e: nat,
                          name: CStr) {
    var n' := size' / BLK_SIZE;
    && size' % BLK_SIZE == 0 && n <= MAX_BLKS && DirOK(v', zs', ino, n') && (n' == n || n' == n + 1)
    && var dir := Grown(DirOf(v, zs, ino, n), n' == n + 1);
      FirstUnused(dir, i, e) && DirOf(v', zs', ino, n') == dir[e := DirEnt(0, name)] && (n' == n + 1 ==> e >= ENTRIES_PER_BLK * n)
  }

  /** No slot of the directory is free. */
  ghost predicate DirFull(v: View, zs: Zones, ino: nat, n: nat) {
    n <= MAX_BLKS && NoneUnused(DirOf(v, zs, ino, n), 0, ENTRIES_PER_BLK * n)
  }

  ghost predicate DirKept(v: View, zs: Zones, ino: nat, n: nat, v': View, zs': Zones) {
    n <= MAX_BLKS && DirOK(v', zs', ino, n) && DirOf(v', zs', ino, n) == DirOf(v, zs, ino, n)
  }

  /** One round of add_entry (fs/namei.c:79-106). */
  method AddRound(fs: FileSys, m: MemInode, ghost n: nat, i: nat, s: CStr, len: nat) returns (r: Added)
    requires fs.Valid() && fs.Loaded(m) && m.cnt > 0 && |fs.cache.refs| + 2 < |fs.cache.h.key|
    requires m.size == BLK_SIZE * n && DirOK(fs.cache.view, fs.zones, m.num, n) && i <= n && i < MAX_BLKS
    requires 0 < len <= |s| && len < NAME_LEN
    modifies fs, m`zone, m`dirt, m`size, fs.cache
    ensures fs.Valid() && fs.Loaded(m) && |fs.cache.h.key| == |old(fs.cache.h.key)|
    ensures OthersKept(old(fs.cache.view), old(fs.zones), fs.cache.view, fs.zones, m.num)
    ensures fs.zones == old(fs.zones)[m.num := m.zone]
    ensures !r.In? ==> fs.cache.refs == old(fs.cache.refs) && m.size == old(m.size)
    ensures !r.In? ==> DirKept(old(fs.cache.view), old(fs.zones), m.num, n, fs.cache.view, fs.zones)
    ensures r.NoBlock? ==> fs.NoZone() && i == n
    ensures r.NoSlot? ==> BlkFull(fs.cache.view, fs.zones, m.num, n, i)
    ensures r.In? ==>
      AddedAt(old(fs.cache.view), old(fs.zones), m.num, n, fs.cache.view, fs.zones, m.size, i, ENTRIES_PER_BLK * i + r.j, Prefix(s, len))
    ensures r.In? ==> r.j < ENTRIES_PER_BLK
    ensures r.In? ==>
      Holds(fs.cache.view, fs.zones, m.num, ENTRIES_PER_BLK * i + r.j, r.b, r.j, old(fs.cache.refs), fs.cache.Now())
    ensures old(m.dirt) || m.zone != old(m.zone) || m.size != old(m.size) || r.In? ==> m.dirt
  {
    hide FileSys.Valid, FileSys.NoZone, MapResult, PinsKept, Ptr, DataSlot, Holds, Raised, DirOK, DirOf, OthersKept,
      FirstUnused, NoneUnused, DirBlk;
    ghost var v, zs := fs.cache.view, fs.zones;
    var nr, created := fs.CreateBlock(m, i);
    MapDir(v, zs, fs.cache.view, fs.zones, m.num, n, i, nr, created);
    DirOKSize(v, zs, m.num, n);
    if nr == 0 {
      return NoBlock;
    }
    ghost var n' := if created then n + 1 else n;
    DirOKSize(fs.cache.view, fs.zones, m.num, n');
    if created {
      m.size := m.size + BLK_SIZE;
      m.dirt := true;
    }
    ghost var v1, zs1 := fs.cache.view, fs.zones;
    var found, b, j := AddInBlk(fs, m.num, n', i, nr, s, len);
    OthersTwice(v, zs, v1, zs1, fs.cache.view, fs.zones, m.num);
    if !found {
      NewHasUnused(DirOf(v, zs, m.num, n), i, created);
      return NoSlot;
    }
    assert m.size / BLK_SIZE == n' && m.size % BLK_SIZE == 0;
    m.dirt := true;
    return In(b, j);
  }

  /** A block just created has a slot that is not in use. */
  lemma NewHasUnused(dir: seq<DirEnt>, i: nat, created: bool)
    requires |dir| == ENTRIES_PER_BLK * i || !created
    ensures created ==> !NoneUnused(dir + Ents(ZeroBlock()), ENTRIES_PER_BLK * i, ENTRIES_PER_BLK * (i + 1))
  {
    hide EntAt;
    ZeroUnused(0);
    assert created ==> (dir + Ents(ZeroBlock()))[ENTRIES_PER_BLK * i] == EntAt(ZeroBlock(), 0);
  }

  /** What add_entry makes of the directory: the name is in the first slot of all that is not in
      use, and the directory grew by a block if it had none. */
  ghost predicate Entered(v: View, zs: Zones, ino: nat, n: nat, v': View, zs': Zones, size': nat, e: nat, name: CStr) {
    var n' := size' / BLK_SIZE;
    && size' % BLK_SIZE == 0 && n <= MAX_BLKS && DirOK(v', zs', ino, n') && (n' == n || n' == n + 1)
    && var dir := Grown(DirOf(v, zs, ino, n), n' == n + 1);
      && e < |dir| && Unused(dir[e]) && NoneUnused(dir, 0, e) && (n' == n + 1 ==> e >= ENTRIES_PER_BLK * n)
      && DirOf(v', zs', ino, n') == dir[e := DirEnt(0, name)]
  }

  /** add_entry (fs/namei.c:57-109), for names it does not overrun a slot with (see
      DirEntries.FourteenSpills): on success the buffer of the slot stays held. */
  method AddEntry(fs: FileSys, m: MemInode, s: CStr, nameLen: nat) returns (found: bool, b: nat, j: nat, ghost e: nat)
    requires fs.Valid() && fs.Loaded(m) && m.cnt > 0 && |fs.cache.refs| + 2 < |fs.cache.h.key|
    requires nameLen <= |s| && nameLen != NAME_LEN
    requires m.size % BLK_SIZE == 0 && DirOK(fs.cache.view, fs.zones, m.num, m.size / BLK_SIZE)
    modifies fs, m`zone, m`dirt, m`size, fs.cache
    ensures fs.Valid() && fs.Loaded(m) && |fs.cache.h.key| == |old(fs.cache.h.key)|
    ensures OthersKept(old(fs.cache.view), old(fs.zones), fs.cache.view, fs.zones, m.num)
    ensures fs.zones == old(fs.zones)[m.num := m.zone]
    ensures !found ==> fs.cache.refs == old(fs.cache.refs) && m.size == old(m.size)
    ensures !found ==> DirKept(old(fs.cache.view), old(fs.zones), m.num, m.size / BLK_SIZE, fs.cache.view, fs.zones)
    ensures !found ==> nameLen == 0 || fs.NoZone() || m.size == MAX_BLKS * BLK_SIZE
    ensures !found && nameLen > 0 ==> DirFull(old(fs.cache.view), old(fs.zones), m.num, old(m.size) / BLK_SIZE)
    ensures found ==> 0 < Cut(nameLen) <= |s|
    ensures found ==>
      Entered(old(fs.cache.view), old(fs.zones), m.num, old(m.size) / BLK_SIZE, fs.cache.view, fs.zones, m.size, e, Prefix(s, Cut(nameLen)))
    ensures found ==> Holds(fs.cache.view, fs.zones, m.num, e, b, j, old(fs.cache.refs), fs.cache.Now())
    ensures old(m.dirt) || m.zone != old(m.zone) || m.size != old(m.size) || found ==> m.dirt
  {
    hide FileSys.Valid, FileSys.NoZone, Ptr, DataSlot, Holds, Raised, DirOK, DirOf, OthersKept, NoneUnused, AddedAt,
      Entered, EntAt, DirBlk, BlkFull;
    ghost var v, zs, n, refs, heads := fs.cache.view, fs.zones, m.size / BLK_SIZE, fs.cache.refs, |fs.cache.h.key|;
    OthersSelf(v, zs, m.num);
    DirOKSize(v, zs, m.num, n);
    if nameLen == 0 {
      return false, 0, 0, 0;
    }
    var len := Cut(nameLen);
    var i := 0;
    NoneYet(DirOf(v, zs, m.num, n));
    while i < MAX_BLKS
      invariant 0 <= i <= MAX_BLKS && i <= n && m.size == BLK_SIZE * n
      invariant fs.Valid() && fs.Loaded(m) && fs.cache.refs == refs && |fs.cache.h.key| == heads
      invariant OthersKept(v, zs, fs.cache.view, fs.zones, m.num)
      invariant fs.zones == zs[m.num := m.zone]
      invariant DirKept(v, zs, m.num, n, fs.cache.view, fs.zones)
      invariant NoneUnused(DirOf(v, zs, m.num, n), 0, ENTRIES_PER_BLK * i)
      invariant old(m.dirt) || m.zone != old(m.zone) ==> m.dirt
    {
      ghost var v1, zs1 := fs.cache.view, fs.zones;
      var r := AddRound(fs, m, n, i, s, len);
      OthersTwice(v, zs, v1, zs1, fs.cache.view, fs.zones, m.num);
      if r.NoBlock? {
        return false, 0, 0, 0;
      }
      if r.In? {
        e := ENTRIES_PER_BLK * i + r.j;
        FirstOfAll(v, zs, m.num, n, v1, zs1, fs.cache.view, fs.zones, m.size, i, e, Prefix(s, len));
        return true, r.b, r.j, e;
      }
      NoneMore(DirOf(v, zs, m.num, n), fs.cache.view, fs.zones, m.num, n, i);
      i := i + 1;
    }
    return false, 0, 0, 0;
  }

  lemma NoneYet(dir: seq<DirEnt>)
    ensures NoneUnused(dir, 0, 0)
  {
  }

  lemma NoneMore(dir: seq<DirEnt>, v: View, zs: Zones, ino: nat, n: nat, i: nat)
    requires n <= MAX_BLKS && dir == DirOf(v, zs, ino, n) && BlkFull(v, zs, ino, n, i)
    requires NoneUnused(dir, 0, ENTRIES_PER_BLK * i)
    ensures i < n && NoneUnused(dir, 0, ENTRIES_PER_BLK * (i + 1))
  {
    hide DirOf;
  }

  lemma FirstOfAll(v: View, zs: Zones, ino: nat, n: nat, v1: View, zs1: Zones, v': View, zs': Zones, size': nat,
                   i: nat, e: nat, name: CStr)
    requires n <= MAX_BLKS && DirOf(v1, zs1, ino, n) == DirOf(v, zs, ino, n) && i <= n
    requires NoneUnused(DirOf(v, zs, ino, n), 0, ENTRIES_PER_BLK * i)
    requires AddedAt(v1, zs1, ino, n, v', zs', size', i, e, name)
    ensures Entered(v, zs, ino, n, v', zs', size', e, name)
  {
    hide DirOf, DirOK, EntAt;
  }

  // ---------- filling and clearing a slot that was found ----------

  /** The holder of a slot writes its inode number and lets go (fs/namei.c:280-283, 626-628). */
  method SetIno(fs: FileSys, ghost ino: nat, ghost n: nat, ghost e: nat, b: nat, j: nat, num: nat,
                ghost refs: map<Key, nat>)
    requires fs.Valid() && num < 0x1_0000 && DirOK(fs.cache.view, fs.zones, ino, n) && e < ENTRIES_PER_BLK * n
    requires Holds(fs.cache.view, fs.zones, ino, e, b, j, refs, fs.cache.Now())
    modifies fs.cache
    ensures fs.Valid() && DirOK(fs.cache.view, fs.zones, ino, n) && |fs.cache.h.key| == |old(fs.cache.h.key)|
    ensures OthersKept(old(fs.cache.view), fs.zones, fs.cache.view, fs.zones, ino)
    ensures DirSetTo(old(fs.cache.view), fs.cache.view, fs.zones, ino, n, e, num, true)
    ensures fs.cache.refs == refs
  {
    hide Cache.Valid, Owned, PinsKept, State.Only, LowOk, Dropped, Raised, Cache.Room, FileSystem.UsedOf, EntAt, DirOK, DirOf, OthersKept,
      Ptr, DataSlot, PutIno;
    ghost var v, zs, k := fs.cache.view, fs.zones, HeldKey(fs.cache.view, fs.zones, ino, e);
    fs.cache.Reads(b, k);
    fs.cache.Total();
    var d := PutIno(fs.cache.h.data[b], j, num);
    PutInoEnts(fs.cache.h.data[b], j, num);
    SlotAt(v, zs, ino, n, e);
    StoredEnt(v, zs, fs.Used(), fs.owner, ino, n, e / ENTRIES_PER_BLK, j, d, DirEnt(num, DirOf(v, zs, ino, n)[e].name));
    InUse(v, zs, fs.Used(), fs.owner, DataSlot(ino, e / ENTRIES_PER_BLK));
    fs.UsedRange();
    LowStored(v, fs.first, fs.area.blocks, Ptr(v, zs, DataSlot(ino, e / ENTRIES_PER_BLK)), d);
    fs.cache.Store(b, k, d);
    fs.cache.Brelse(b, k);
  }

  /** The key of the block of slot e. */
  function HeldKey(v: View, zs: Zones, ino: nat, e: nat): Key
  {
    if e / ENTRIES_PER_BLK < MAX_BLKS then BlkKey(Ptr(v, zs, DataSlot(ino, e / ENTRIES_PER_BLK))) else BlkKey(0)
  }

  /** Slot e has inode number num now, and its name if that is kept; no other slot changed. */
  ghost predicate DirSetTo(v: View, v': View, zs: Zones, ino: nat, n: nat, e: nat, num: nat, keepName: bool) {
    n <= MAX_BLKS && e < ENTRIES_PER_BLK * n &&
    var dir := DirOf(v, zs, ino, n);
    DirOf(v', zs, ino, n) == dir[e := DirEnt(num, if keepName then dir[e].name else [])]
  }

  lemma PutInoEnts(b: Block, j: nat, num: nat)
    requires j < ENTRIES_PER_BLK && num < 0x1_0000
    ensures forall k :: 0 <= k < ENTRIES_PER_BLK ==>
      EntAt(PutIno(b, j, num), k) == if k == j then DirEnt(num, EntAt(b, j).name) else EntAt(b, k)
  {
    hide EntAt, PutIno;
    forall k | 0 <= k < ENTRIES_PER_BLK
      ensures EntAt(PutIno(b, j, num), k) == if k == j then DirEnt(num, EntAt(b, j).name) else EntAt(b, k)
    {
      PutInoEnt(b, j, num, k);
    }
  }

  lemma SlotAt(v: View, zs: Zones, ino: nat, n: nat, e: nat)
    requires DirOK(v, zs, ino, n) && e < ENTRIES_PER_BLK * n
    ensures n <= MAX_BLKS && e / ENTRIES_PER_BLK < n
    ensures e == ENTRIES_PER_BLK * (e / ENTRIES_PER_BLK) + e % ENTRIES_PER_BLK
    ensures DirOf(v, zs, ino, n)[e] == EntAt(DirBlk(v, zs, ino, e / ENTRIES_PER_BLK), e % ENTRIES_PER_BLK)
    ensures |DirOf(v, zs, ino, n)[e].name| < NAME_LEN && Ptr(v, zs, DataSlot(ino, e / ENTRIES_PER_BLK)) != 0
  {
    hide EntAt, DirBlk, Ptr, DataSlot;
    DirAt(v, zs, ino, n, e);
    assert Terminated(DirBlk(v, zs, ino, e / ENTRIES_PER_BLK));
  }

  /** What unlink does to the slot it found (fs/namei.c:690-693). */
  method ClearSlot(fs: FileSys, ghost ino: nat, ghost n: nat, ghost e: nat, b: nat, j: nat, ghost refs: map<Key, nat>)
    requires fs.Valid() && DirOK(fs.cache.view, fs.zones, ino, n) && e < ENTRIES_PER_BLK * n
    requires Holds(fs.cache.view, fs.zones, ino, e, b, j, refs, fs.cache.Now())
    modifies fs.cache
    ensures fs.Valid() && DirOK(fs.cache.view, fs.zones, ino, n) && |fs.cache.h.key| == |old(fs.cache.h.key)|
    ensures OthersKept(old(fs.cache.view), fs.zones, fs.cache.view, fs.zones, ino)
    ensures DirSetTo(old(fs.cache.view), fs.cache.view, fs.zones, ino, n, e, 0, false)
    ensures fs.cache.refs == refs
  {
    hide Cache.Valid, Owned, PinsKept, State.Only, LowOk, Dropped, Raised, Cache.Room, FileSystem.UsedOf, EntAt, DirOK, DirOf, OthersKept,
      Ptr, DataSlot, PutIno, ClearName;
    ghost var v, zs, k := fs.cache.view, fs.zones, HeldKey(fs.cache.view, fs.zones, ino, e);
    fs.cache.Reads(b, k);
    fs.cache.Total();
    var d1 := PutIno(fs.cache.h.data[b], j, 0);
    var d := ClearName(d1, j);
    ClearedEnts(fs.cache.h.data[b], j);
    SlotAt(v, zs, ino, n, e);
    StoredEnt(v, zs, fs.Used(), fs.owner, ino, n, e / ENTRIES_PER_BLK, j, d, DirEnt(0, []));
    InUse(v, zs, fs.Used(), fs.owner, DataSlot(ino, e / ENTRIES_PER_BLK));
    fs.UsedRange();
    LowStored(v, fs.first, fs.area.blocks, Ptr(v, zs, DataSlot(ino, e / ENTRIES_PER_BLK)), d);
    fs.cache.Store(b, k, d);
    fs.cache.Brelse(b, k);
  }

  lemma ClearedEnts(b: Block, j: nat)
    requires j < ENTRIES_PER_BLK
    ensures forall k :: 0 <= k < ENTRIES_PER_BLK ==>
      EntAt(ClearName(PutIno(b, j, 0), j), k) == if k == j then DirEnt(0, []) else EntAt(b, k)
  {
    hide EntAt, PutIno, ClearName;
    forall k | 0 <= k < ENTRIES_PER_BLK
      ensures EntAt(ClearName(PutIno(b, j, 0), j), k) == if k == j then DirEnt(0, []) else EntAt(b, k)
    {
      PutInoEnt(b, j, 0, k);
      PutInoEnt(b, j, 0, j);
      ClearNameEnt(PutIno(b, j, 0), j, k);
    }
  }
}
