/** Files over the buffer cache (fs/bitmap.c, fs/inode.c, fs/file_rw.c). */
module FileSystem {
  import opened Blocks
  import opened Bitmap
  import opened CacheState
  import opened BufferCache
  import opened FileTree

  const ZMAP_SLOTS := 8

  /** Bit k of the zone map. */
  predicate ZBit(z: seq<Block>, k: nat)
    requires |z| == ZMAP_SLOTS && k < ZMAP_SLOTS * BITS
  {
    Bit(z[k / BITS], k % BITS)
  }

  function WithZBit(z: seq<Block>, k: nat, v: bool): (z': seq<Block>)
    requires |z| == ZMAP_SLOTS && k < ZMAP_SLOTS * BITS
    ensures |z'| == ZMAP_SLOTS
  {
    z[k / BITS := SetBit(z[k / BITS], k % BITS, v)]
  }

  /** The data zones marked in the zone map. */
  ghost function UsedOf(z: seq<Block>, first: nat, nzones: nat): set<nat>
    requires |z| == ZMAP_SLOTS && nzones <= first + ZMAP_SLOTS * BITS
  {
    set n | first <= n < nzones && Marked(z, first, n)
  }

  predicate Marked(z: seq<Block>, first: nat, n: nat)
    requires |z| == ZMAP_SLOTS && first <= n < first + ZMAP_SLOTS * BITS
  {
    ZBit(z, n - first)
  }

  lemma WithZBitIs(z: seq<Block>, k: nat, v: bool, m: nat)
    requires |z| == ZMAP_SLOTS && k < ZMAP_SLOTS * BITS && m < ZMAP_SLOTS * BITS
    ensures ZBit(WithZBit(z, k, v), m) == if m == k then v else ZBit(z, m)
  {
    if m / BITS == k / BITS {
      SetBitIs(z[k / BITS], k % BITS, v, m % BITS);
    }
  }

  lemma UsedWith(z: seq<Block>, first: nat, nzones: nat, k: nat, v: bool)
    requires |z| == ZMAP_SLOTS && k < ZMAP_SLOTS * BITS && nzones <= first + ZMAP_SLOTS * BITS
    ensures var u, u' := UsedOf(z, first, nzones), UsedOf(WithZBit(z, k, v), first, nzones);
      && u' == (if !v then u - {first + k} else if first + k < nzones then u + {first + k} else u)
      && (first + k in u <==> first + k < nzones && ZBit(z, k))
  {
    hide ZBit, WithZBit;
    var u' := UsedOf(WithZBit(z, k, v), first, nzones);
    forall n
      ensures n in u' <==> first <= n < nzones && if n == first + k then v else Marked(z, first, n)
    {
      if first <= n < nzones {
        WithZBitIs(z, k, v, n - first);
      }
    }
  }

  /** Block i of the map has a byte that find_first_zero recognises. */
  predicate HasZero(z: seq<Block>, i: nat)
    requires i < |z|
  {
    exists k, j :: 0 <= k < BLK_SIZE && 0 <= j < 8 && Recognised(z[i], k, j)
  }

  /** Bit j is the one that find_first_zero yields for block b. */
  predicate FirstIn(b: Block, j: nat) {
    && j < BITS && Recognised(b, j / 8, j % 8)
    && forall k, l :: 0 <= k < j / 8 && 0 <= l < 8 ==> !Recognised(b, k, l)
  }

  /** Bit j of block i is the one that new_block takes: find_first_zero yields it, and yields
      nothing for the blocks before. */
  ghost predicate FirstZero(z: seq<Block>, i: nat, j: nat)
    requires |z| == ZMAP_SLOTS
  {
    i < ZMAP_SLOTS && (forall m :: 0 <= m < i ==> !HasZero(z, m)) && FirstIn(z[i], j)
  }

  /** A zone can be had: the bit that new_block takes belongs to a zone of the device. */
  ghost predicate ZoneFree(z: seq<Block>, first: nat, nzones: nat)
    requires |z| == ZMAP_SLOTS
  {
    exists i, j :: FirstZero(z, i, j) && first + BITS * i + j < nzones
  }

  /** There is only one such bit. */
  lemma OneFirstZero(z: seq<Block>, i: nat, j: nat, i': nat, j': nat)
    requires |z| == ZMAP_SLOTS && FirstZero(z, i, j) && FirstZero(z, i', j')
    ensures i == i' && j == j'
  {
    FirstHasZero(z, i, j);
    FirstHasZero(z, i', j');
    hide FirstIn, HasZero;
    OneFirstIn(z[i], j, j');
  }

  lemma FirstHasZero(z: seq<Block>, i: nat, j: nat)
    requires |z| == ZMAP_SLOTS && i < ZMAP_SLOTS && FirstIn(z[i], j)
    ensures HasZero(z, i)
  {
  }

  lemma OneFirstIn(b: Block, j: nat, j': nat)
    requires FirstIn(b, j) && FirstIn(b, j')
    ensures j == j'
  {
    assert j / 8 == j' / 8;
    RecognisedBits(b, j / 8, j % 8);
    RecognisedBits(b, j' / 8, j' % 8);
    hide Bit, Recognised;
    assert 8 * (j / 8) + j % 8 == j && 8 * (j' / 8) + j' % 8 == j';
  }

  /** When that bit is set, the next such bit lies behind it. */
  lemma NextZero(z: seq<Block>, i: nat, j: nat, i': nat, j': nat)
    requires |z| == ZMAP_SLOTS && FirstZero(z, i, j) && FirstZero(z[i := SetBit(z[i], j, true)], i', j')
    ensures BITS * i + j < BITS * i' + j'
  {
    if i' != i {
      FirstHasZero(z, i', j');
    }
    hide FirstIn, HasZero;
    if i' == i {
      NextIn(z[i], j, j');
    }
    InBlock(z[i], j);
  }

  lemma InBlock(b: Block, j: nat)
    requires FirstIn(b, j)
    ensures j < BITS
  {
  }

  lemma NextIn(b: Block, j: nat, j': nat)
    requires FirstIn(b, j) && FirstIn(SetBit(b, j, true), j')
    ensures j < j'
  {
    var b' := SetBit(b, j, true);
    SetBitBytes(b, j);
    assert j' / 8 != j / 8 ==> Recognised(b, j' / 8, j' % 8);
    assert j / 8 <= j' / 8;
    RecognisedBits(b, j / 8, j % 8);
    RecognisedBits(b', j' / 8, j' % 8);
    hide Bit, Recognised, SetBit;
    SetBitIs(b, j, true, j');
  }

  lemma SetBitBytes(b: Block, j: nat)
    requires j < BITS
    ensures forall k :: 0 <= k < BLK_SIZE && k != j / 8 ==> SetBit(b, j, true)[k] == b[k]
  {
  }

  lemma NoFirstZero(z: seq<Block>)
    requires |z| == ZMAP_SLOTS && forall m :: 0 <= m < ZMAP_SLOTS ==> !HasZero(z, m)
    ensures forall i: nat, j: nat :: !FirstZero(z, i, j)
  {
    forall i: nat, j: nat | i < ZMAP_SLOTS
      ensures !FirstZero(z, i, j)
    {
      assert !HasZero(z, i);
    }
  }

  /** So whether a zone can be had is decided at that bit, and if none can, also not after it is set. */
  lemma TheFirstZero(z: seq<Block>, first: nat, nzones: nat, i: nat, j: nat)
    requires |z| == ZMAP_SLOTS && FirstZero(z, i, j)
    ensures ZoneFree(z, first, nzones) <==> first + BITS * i + j < nzones
    ensures !ZoneFree(z, first, nzones) ==> !ZoneFree(z[i := SetBit(z[i], j, true)], first, nzones)
  {
    hide FirstZero;
    forall k: nat, l: nat | FirstZero(z, k, l)
      ensures k == i && l == j
    {
      OneFirstZero(z, i, j, k, l);
    }
    FirstZeroBounds(z, i, j);
    var z' := z[i := SetBit(z[i], j, true)];
    forall k: nat, l: nat | FirstZero(z', k, l)
      ensures BITS * i + j < BITS * k + l
    {
      NextZero(z, i, j, k, l);
    }
  }

  /** One bit was set: the one that new_block takes. */
  ghost predicate OneBitSet(z: seq<Block>, z': seq<Block>) {
    |z| == ZMAP_SLOTS && exists i: nat, j: nat :: FirstZero(z, i, j) && z' == z[i := SetBit(z[i], j, true)]
  }

  lemma FirstBitSet(z: seq<Block>, i: nat, j: nat)
    requires |z| == ZMAP_SLOTS && FirstZero(z, i, j)
    ensures HasZero(z, i) && z[i := SetBit(z[i], j, true)] != z && OneBitSet(z, z[i := SetBit(z[i], j, true)])
  {
    FirstHasZero(z, i, j);
    RecognisedBits(z[i], j / 8, j % 8);
    assert 8 * (j / 8) + j % 8 == j;
    SetBitIs(z[i], j, true, j);
    hide Bit, SetBit, FirstIn, HasZero;
    assert z[i := SetBit(z[i], j, true)][i] != z[i];
  }

  /** On a device without data zones, with a map of zeros, new_block finds no zone, and bit 0 of
      the map is set for good. */
  lemma BitBehindDevice(first: nat)
    ensures var z := seq(ZMAP_SLOTS, _ => ZeroBlock());
      && FirstZero(z, 0, 0) && !ZoneFree(z, first, first) && !ZBit(z, 0)
      && var z' := z[0 := SetBit(z[0], 0, true)]; OneBitSet(z, z') && ZBit(z', 0) && !ZoneFree(z', first, first)
  {
    var z := seq(ZMAP_SLOTS, _ => ZeroBlock());
    assert Recognised(z[0], 0, 0);
    RecognisedBits(z[0], 0, 0);
    SetBitIs(z[0], 0, true, 0);
    hide Bit, Recognised, SetBit;
    FirstBitSet(z, 0, 0);
    TheFirstZero(z, first, first, 0, 0);
  }

  lemma FirstZeroBounds(z: seq<Block>, i: nat, j: nat)
    requires |z| == ZMAP_SLOTS && FirstZero(z, i, j)
    ensures i < ZMAP_SLOTS && j < BITS
  {
  }

  /** The scan of new_block (fs/bitmap.c:86-91) over the blocks of the map. */
  method FindZero(z: seq<Block>) returns (i: nat, j: int)
    requires |z| == ZMAP_SLOTS
    ensures i <= ZMAP_SLOTS && forall m :: 0 <= m < i ==> !HasZero(z, m)
    ensures if i < ZMAP_SLOTS then 0 <= j < BITS && FirstZero(z, i, j) && !Bit(z[i], j) else j == -1
  {
    i, j := 0, -1;
    while i < ZMAP_SLOTS
      invariant 0 <= i <= ZMAP_SLOTS && j == -1
      invariant forall m :: 0 <= m < i ==> !HasZero(z, m)
    {
      j := FindFirstZero(z[i]);
      if j != -1 {
        assert Recognised(z[i], j / 8, j % 8);
        break;
      }
      i := i + 1;
    }
  }

  /** An inode in memory (MEM_INODE, fs/fs.h:40-62): the fields that are on disk too, and those
      that are not. A new one is all zeros, as init_inodes leaves it. */
  class MemInode {
    var mode: nat      // i_mode
    var uid: nat       // i_uid
    var size: nat      // i_size
    var mtime: nat     // i_mtime
    var gid: nat       // i_gid
    var nlinks: nat    // i_nlinks
    var zone: seq<nat> // i_zone
    var dev: nat       // i_dev
    var num: nat       // i_num
    var cnt: nat       // i_cnt
    var dirt: bool     // i_dirt
    var valid: bool    // i_valid

    constructor ()
      ensures mode == uid == size == mtime == gid == nlinks == dev == num == cnt == 0 && zone == seq(9, _ => 0)
      ensures !dirt && !valid
    {
      mode, uid, size, mtime, gid, nlinks, zone := 0, 0, 0, 0, 0, 0, seq(9, _ => 0);
      dev, num, cnt, dirt, valid := 0, 0, 0, false, false;
    }
  }

  /** What __bmap does to slot s: it reports the block there, and with fcrt it may put a new
      block of zeros there; every other block of every file stays as it is. */
  ghost predicate MapResult(v: View, zs: Zones, v': View, zs': Zones, s: Slot, fcrt: bool, r: nat, created: bool)
    requires IsData(s)
  {
    && Extended(v, zs, v', zs', s, r)
    && (created <==> fcrt && r != 0 && Ptr(v, zs, s) == 0)
    && (created ==> At(v', r) == ZeroBlock())
    && (!created ==> r == Ptr(v, zs, s))
    && (!fcrt ==> v' == v && zs' == zs)
  }

  /** Mapping or creating a block of a file leaves the other files as they are. */
  lemma MapOthers(v: View, zs: Zones, v': View, zs': Zones, ino: nat, i: nat, fcrt: bool, r: nat, created: bool)
    requires i < MAX_BLKS && MapResult(v, zs, v', zs', DataSlot(ino, i), fcrt, r, created)
    ensures OthersKept(v, zs, v', zs', ino)
  {
    hide Ptr, DataSlot;
  }

  /** The block map round trip: what create_block puts at block n of a file, bmap finds there;
      no other block of any file moves, and a call that fails moves none. */
  lemma CreatedThenMapped(v: View, zs: Zones, v': View, zs': Zones, ino: nat, n: nat, r: nat, created: bool, i: nat,
                          k: nat)
    requires n < MAX_BLKS && k < MAX_BLKS && MapResult(v, zs, v', zs', DataSlot(ino, n), true, r, created)
    ensures Ptr(v', zs', DataSlot(ino, n)) == r
    ensures i != ino || k != n || r == 0 ==> Ptr(v', zs', DataSlot(i, k)) == Ptr(v, zs, DataSlot(i, k))
    ensures r != 0 && Ptr(v, zs, DataSlot(ino, n)) != 0 ==> r == Ptr(v, zs, DataSlot(ino, n))
  {
    hide Ptr, DataSlot;
    if DataSlot(i, k) == DataSlot(ino, n) {
      DataSlotInjective(i, k, ino, n);
    }
  }

  /** S_ISREG (include/sys/stat.h). */
  predicate IsReg(mode: nat): (r: bool)
    ensures r <==> 0x8000 <= mode % 0x1_0000 < 0x9000
  {
    mode / 0x1000 % 16 == 8
  }

  /** The blocks of the device before the data zones. Only the table of inodes writes them. */
  class InodeArea {
    ghost var blocks: imap<nat, Block>

    constructor (ghost blocks: imap<nat, Block>)
      ensures this.blocks == blocks
    {
      this.blocks := blocks;
    }
  }

  /** The blocks before the data zones read as recorded. */
  ghost predicate LowOk(v: View, first: nat, blocks: imap<nat, Block>) {
    forall n: nat :: n < first ==> n in blocks && At(v, n) == blocks[n]
  }

  /** Data zones can be written without touching them. */
  lemma LowStored(v: View, first: nat, blocks: imap<nat, Block>, n: nat, d: Block)
    requires LowOk(v, first, blocks) && n >= first
    ensures LowOk(v[BlkKey(n) := d], first, blocks)
  {
  }

  lemma LowOthers(v: View, w: View, first: nat, blocks: imap<nat, Block>, n: nat)
    requires LowOk(v, first, blocks) && n >= first && Others(v, w, BlkKey(n)) && forall k: Key :: k in v
    ensures LowOk(w, first, blocks)
  {
  }

  class FileSys {
    const cache: Cache
    const first: nat     // sb_first_datazone
    const nzones: nat    // sb_nzones
    const area: InodeArea
    var zmap: seq<Block> // the buffers at sb_zmap_bh_ptr[]

    ghost var zones: Zones          // i_zone of every inode in use
    ghost var owner: map<nat, Slot> // the slot of every block number in a slot

    ghost function Used(): set<nat>
      requires |zmap| == ZMAP_SLOTS && nzones <= first + ZMAP_SLOTS * BITS
      reads this`zmap
    {
      UsedOf(zmap, first, nzones)
    }

    /** The cache is in order and serves the root device; zone numbers fit 16 bits. */
    ghost predicate Base()
      reads this`zmap, cache, area
    {
      && cache.Valid() && cache.Now().Only(ROOT_DEV)
      && |zmap| == ZMAP_SLOTS && 0 < first <= nzones < 0x1_0000 && nzones <= first + ZMAP_SLOTS * BITS
      && LowOk(cache.view, first, area.blocks)
    }

    /** A freshly formatted device (fs/super.c:82-128): no zone is marked, no file exists. */
    constructor (c: Cache, first: nat, nzones: nat)
      requires c.Valid() && c.Now().Only(ROOT_DEV)
      requires 0 < first <= nzones < 0x1_0000 && nzones <= first + ZMAP_SLOTS * BITS
      ensures cache == c && this.first == first && this.nzones == nzones && fresh(area)
      ensures Valid() && zones == map[] && forall s :: IsSlot(s) ==> Ptr(cache.view, zones, s) == 0
      ensures zmap == seq(8, _ => ZeroBlock())
    {
      cache, this.first, this.nzones := c, first, nzones;
      area := new InodeArea(imap n: nat | n < first :: At(c.view, n));
      zmap := seq(ZMAP_SLOTS, _ => ZeroBlock());
      zones, owner := map[], map[];
      new;
      hide Cache.Valid, State.Only, UsedOf;
      NoFiles(cache.view);
    }

    /** No zone can be had. */
    ghost predicate NoZone(): (r: bool)
      reads this`zmap
      ensures r ==> |zmap| == 8 && forall i: nat, j: nat :: FirstZero(zmap, i, j) ==> first + 8192 * i + j >= nzones
    {
      |zmap| == ZMAP_SLOTS && !ZoneFree(zmap, first, nzones)
    }

    /** The first half of new_block (fs/bitmap.c:86-100): the first bit that find_first_zero
        yields is set, if there is one. It stays set also when the zone lies beyond the device
        and 0 is returned (see BitBehindDevice). */
    method MarkZone() returns (r: nat)
      requires |zmap| == ZMAP_SLOTS && 0 < first <= nzones <= first + ZMAP_SLOTS * BITS
      modifies this`zmap
      ensures |zmap| == ZMAP_SLOTS
      ensures r == 0 ==> Used() == old(Used())
      ensures r != 0 ==> first <= r < nzones && r !in old(Used()) && Used() == old(Used()) + {r}
      ensures (r != 0 <==> old(ZoneFree(zmap, first, nzones))) && (r == 0 ==> !ZoneFree(zmap, first, nzones))
      ensures r != 0 ==> var k := r - first;
        && FirstZero(old(zmap), k / 8192, k % 8192)
        && zmap == old(zmap)[k / 8192 := SetBit(old(zmap)[k / 8192], k % 8192, true)]
      ensures zmap == old(zmap) <==> forall m :: 0 <= m < ZMAP_SLOTS ==> !HasZero(old(zmap), m)
      ensures zmap != old(zmap) ==> OneBitSet(old(zmap), zmap)
    {
      hide FirstZero, FirstIn, Bit, Recognised, UsedOf, HasZero;
      var i, j := FindZero(zmap);
      if i >= ZMAP_SLOTS || j == -1 {
        NoFirstZero(zmap);
        return 0;
      }
      TheFirstZero(zmap, first, nzones, i, j);
      FirstBitSet(zmap, i, j);
      ghost var k := i * BITS + j;
      assert k / BITS == i && k % BITS == j;
      UsedWith(zmap, first, nzones, k, true);
      zmap := zmap[i := SetBit(zmap[i], j, true)];
      j := j + i * BITS + first;
      if j >= nzones {
        return 0;
      }
      return j;
    }

    /** new_block (fs/bitmap.c:76-111): a zone that was not marked is, and reads as zeros. */
    method NewBlock() returns (r: nat)
      requires Base() && |cache.refs| < |cache.h.key|
      modifies this`zmap, cache
      ensures Base() && cache.refs == old(cache.refs) && |cache.h.key| == old(|cache.h.key|)
      ensures PinsKept(old(cache.Now()), cache.Now())
      ensures r == 0 ==> cache.view == old(cache.view) && Used() == old(Used())
      ensures r != 0 ==> first <= r < nzones && r !in old(Used()) && Used() == old(Used()) + {r}
      ensures r != 0 ==> cache.view == old(cache.view)[BlkKey(r) := ZeroBlock()]
      ensures r != 0 ==> var k := r - first;
        && FirstZero(old(zmap), k / 8192, k % 8192)
        && zmap == old(zmap)[k / 8192 := SetBit(old(zmap)[k / 8192], k % 8192, true)]
      ensures (r != 0 <==> old(ZoneFree(zmap, first, nzones))) && (r == 0 ==> NoZone())
    {
      hide Cache.Valid, PinsKept, State.Only, UsedOf, ZoneFree, LowOk, FirstZero, SetBit;
      PinsSelf(cache.Now());
      ghost var v := cache.view;
      r := MarkZone();
      if r != 0 {
        LowStored(v, first, area.blocks, r, ZeroBlock());
        ZeroBlk(r);
      }
    }

    /** The end of new_block (fs/bitmap.c:102-109): the new block reads as zeros. */
    method ZeroBlk(n: nat)
      requires cache.Valid() && cache.Now().Only(ROOT_DEV) && |cache.refs| < |cache.h.key|
      modifies cache
      ensures cache.Valid() && cache.Now().Only(ROOT_DEV)
      ensures cache.refs == old(cache.refs) && |cache.h.key| == old(|cache.h.key|)
      ensures PinsKept(old(cache.Now()), cache.Now())
      ensures cache.view == old(cache.view)[BlkKey(n) := ZeroBlock()]
    {
      hide Cache.Valid, PinsKept, State.Only, Cache.Room, Dropped, Raised;
      var k := BlkKey(n);
      ghost var was := cache.Now();
      cache.HoldDropped(k);
      cache.Roomy(k);
      var b := cache.GetBlk(k);
      ghost var s1 := cache.Now();
      cache.Fill(b, k, ZeroBlock());
      PinsTwice(was, s1, cache.Now());
      ghost var s2 := cache.Now();
      cache.Brelse(b, k);
      PinsTwice(was, s2, cache.Now());
    }

    /** free_block (fs/bitmap.c:45-74): a marked zone that nobody holds is unmarked; what it
        reads as afterwards is unspecified. The three ways to crash are the requirements. */
    method FreeBlock(n: nat)
      requires Base() && |cache.refs| < |cache.h.key|
      requires first <= n < nzones && n in Used() && BlkKey(n) !in cache.refs
      modifies this`zmap, cache
      ensures Base() && cache.refs == old(cache.refs) && |cache.h.key| == old(|cache.h.key|)
      ensures PinsKept(old(cache.Now()), cache.Now())
      ensures Used() == old(Used()) - {n} && Others(old(cache.view), cache.view, BlkKey(n))
      ensures var k := n - first; zmap == old(zmap)[k / 8192 := SetBit(old(zmap)[k / 8192], k % 8192, false)]
    {
      hide Cache.Valid, PinsKept, State.Only, UsedOf, LowOk;
      ghost var v := cache.view;
      cache.Total();
      DropBlk(n);
      LowOthers(v, cache.view, first, area.blocks, n);
      UsedWith(zmap, first, nzones, n - first, false);
      var k := n - first;
      zmap := zmap[k / BITS := SetBit(zmap[k / BITS], k % BITS, false)];
    }

    /** The buffer of a freed block is given up (fs/bitmap.c:55-64). */
    method DropBlk(n: nat)
      requires cache.Valid() && cache.Now().Only(ROOT_DEV) && |cache.refs| < |cache.h.key| && BlkKey(n) !in cache.refs
      modifies cache
      ensures cache.Valid() && cache.Now().Only(ROOT_DEV)
      ensures cache.refs == old(cache.refs) && |cache.h.key| == old(|cache.h.key|)
      ensures PinsKept(old(cache.Now()), cache.Now()) && Others(old(cache.view), cache.view, BlkKey(n))
    {
      hide Cache.Valid, PinsKept, State.Only, Cache.Room, Dropped, Raised, Others;
      var k := BlkKey(n);
      ghost var was := cache.Now();
      cache.HoldDropped(k);
      cache.Roomy(k);
      RaisedNew(was.refs, k);
      var b := cache.GetBlk(k);
      ghost var s1 := cache.Now();
      cache.Discard(b, k);
      ghost var s2 := cache.Now();
      PinsButOne(was, s1, s2, k);
      cache.Brelse(b, k);
      PinsTwice(was, s2, cache.Now());
    }

    /** Everything is in order: no block is in two places, and none in use is free. */
    ghost predicate Valid()
      reads this, cache, area
    {
      Base() && Owned(cache.view, zones, Used(), owner)
    }

    /** m is the inode in memory of its number. */
    ghost predicate Loaded(m: MemInode)
      reads this`zones, m
    {
      m.num in zones && zones[m.num] == m.zone && |m.zone| == 9
    }

    /** The allocation of a zone in __bmap (fs/inode.c:191-199, 206-213, 239-246). */
    method AllocZone(m: MemInode, z: nat)
      requires Valid() && Loaded(m) && z < 9 && m.zone[z] == 0 && |cache.refs| < |cache.h.key|
      modifies this, m`zone, m`dirt, cache
      ensures Valid() && Loaded(m) && cache.refs == old(cache.refs) && |cache.h.key| == old(|cache.h.key|)
      ensures PinsKept(old(cache.Now()), cache.Now())
      ensures zones == old(zones)[m.num := m.zone]
      ensures Used() == if m.zone[z] == 0 then old(Used()) else old(Used()) + {m.zone[z]}
      ensures FileGrown(old(cache.view), old(zones), old(Used()), cache.view, zones, Used(), m.num)
      ensures m.zone == old(m.zone)[z := m.zone[z]] && (m.dirt <==> old(m.dirt) || m.zone[z] != 0)
      ensures Moved(old(cache.view), old(zones), cache.view, zones, Root(m.num, z), m.zone[z])
      ensures m.zone[z] != 0 ==> At(cache.view, m.zone[z]) == ZeroBlock()
      ensures m.zone[z] == 0 ==> NoZone()
    {
      hide Cache.Valid, PinsKept, State.Only, UsedOf, LowOk, Owned, Moved, ZoneFree, FileGrown;
      ghost var v, zs, u, t := cache.view, zones, Used(), Root(m.num, z);
      assert Ptr(v, zs, t) == 0;
      MovedNot(v, zs, t);
      var r := NewBlock();
      m.zone := m.zone[z := r];
      if r != 0 {
        m.dirt := true;
        Allocate(v, zs, u, owner, r, t);
        zones := zones[m.num := m.zone];
        owner := owner[r := t];
      } else {
        assert m.zone == old(m.zone);
      }
      GrownMoved(v, zs, u, cache.view, zones, Used(), t, m.zone[z]);
    }

    /** Filling an empty entry of an indirect block (fs/inode.c:223-231, 254-261, 270-278):
        b is the buffer of block p, which slot ps names. */
    method FillEntry(b: nat, ghost ps: Slot, p: nat, i: nat) returns (r: nat)
      requires Valid() && |cache.refs| < |cache.h.key| && cache.Now().Pin(b, BlkKey(p))
      requires IsSlot(ps) && Table(ps) && i < 512 && p != 0 && p == Ptr(cache.view, zones, ps)
      requires Ptr(cache.view, zones, Child(ps, i)) == 0
      modifies this, cache
      ensures Valid() && zones == old(zones) && cache.refs == old(cache.refs) && |cache.h.key| == old(|cache.h.key|)
      ensures PinsKept(old(cache.Now()), cache.Now()) && Used() == if r == 0 then old(Used()) else old(Used()) + {r}
      ensures r == 0 ==> cache.view == old(cache.view)
      ensures r != 0 ==> r < 0x1_0000 && At(cache.view, p) == SetEntry(old(At(cache.view, p)), i, r)
      ensures Moved(old(cache.view), zones, cache.view, zones, Child(ps, i), r)
      ensures r != 0 ==> At(cache.view, r) == ZeroBlock()
      ensures r == 0 ==> NoZone()
    {
      hide Cache.Valid, PinsKept, State.Only, UsedOf, LowOk, Owned, Moved, ZoneFree;
      ghost var v, u, t, s0 := cache.view, Used(), Child(ps, i), cache.Now();
      MovedNot(v, zones, t);
      r := NewBlock();
      ghost var s1 := cache.Now();
      PinAcross(s0, s1, b, BlkKey(p));
      if r != 0 {
        cache.Reads(b, BlkKey(p));
        Allocate(v, zones, u, owner, r, t);
        InUse(v, zones, u, owner, ps);
        UsedRange();
        LowStored(cache.view, first, area.blocks, p, SetEntry(cache.h.data[b], i, r));
        cache.Store(b, BlkKey(p), SetEntry(cache.h.data[b], i, r));
        PinsTwice(s0, s1, cache.Now());
        owner := owner[r := t];
      }
    }

    /** One step of __bmap through an indirect block (fs/inode.c:216-234, 249-263, 265-279):
        block p, named by slot ps, is read, and with fcrt an empty entry is filled. */
    method MapEntry(ghost ps: Slot, p: nat, i: nat, fcrt: bool) returns (r: nat, made: bool)
      requires Valid() && |cache.refs| + 1 < |cache.h.key|
      requires IsSlot(ps) && Table(ps) && i < 512 && p != 0 && p == Ptr(cache.view, zones, ps)
      modifies this, cache
      ensures Valid() && zones == old(zones) && cache.refs == old(cache.refs) && |cache.h.key| == old(|cache.h.key|)
      ensures PinsKept(old(cache.Now()), cache.Now()) && Used() == if made then old(Used()) + {r} else old(Used())
      ensures FileGrown(old(cache.view), zones, old(Used()), cache.view, zones, Used(), InoOf(ps))
      ensures Moved(old(cache.view), zones, cache.view, zones, Child(ps, i), r)
      ensures made <==> fcrt && r != 0 && old(Ptr(cache.view, zones, Child(ps, i))) == 0
      ensures made ==> At(cache.view, r) == ZeroBlock()
      ensures !made ==> cache.view == old(cache.view) && r == old(Ptr(cache.view, zones, Child(ps, i)))
      ensures r == Entry(At(cache.view, p), i)
      ensures fcrt && r == 0 ==> NoZone()
    {
      hide Cache.Valid, PinsKept, State.Only, UsedOf, LowOk, Owned, Moved, Dropped, Raised, Cache.Room, ZoneFree, FileGrown;
      ghost var s0, v0, u0 := cache.Now(), cache.view, Used();
      MovedNot(cache.view, zones, Child(ps, i));
      made := false;
      cache.HoldDropped(BlkKey(p));
      cache.Roomy(BlkKey(p));
      var b := cache.Bread(BlkKey(p));
      ghost var s1 := cache.Now();
      cache.Reads(b, BlkKey(p));
      r := Entry(cache.h.data[b], i);
      if fcrt && r == 0 {
        r := FillEntry(b, ps, p, i);
        made := r != 0;
        PinsTwice(s0, s1, cache.Now());
        PinAcross(s1, cache.Now(), b, BlkKey(p));
      }
      ghost var s2 := cache.Now();
      cache.Brelse(b, BlkKey(p));
      PinsTwice(s0, s2, cache.Now());
      GrownMoved(v0, zones, u0, cache.view, zones, Used(), Child(ps, i), r);
    }

    /** The first part of __bmap (fs/inode.c:189-201): blocks named by the inode itself. */
    method MapDirect(m: MemInode, n: nat, fcrt: bool) returns (r: nat, created: bool)
      requires Valid() && Loaded(m) && n < 7 && |cache.refs| + 2 < |cache.h.key|
      modifies this, m`zone, m`dirt, cache
      ensures Valid() && Loaded(m) && cache.refs == old(cache.refs) && |cache.h.key| == old(|cache.h.key|)
      ensures PinsKept(old(cache.Now()), cache.Now()) && old(Used()) <= Used()
      ensures MapResult(old(cache.view), old(zones), cache.view, zones, DataSlot(m.num, n), fcrt, r, created)
      ensures r == m.zone[n]
      ensures FileGrown(old(cache.view), old(zones), old(Used()), cache.view, zones, Used(), m.num)
      ensures zones == old(zones)[m.num := m.zone]
      ensures (m.dirt <==> old(m.dirt) || m.zone != old(m.zone))
      ensures fcrt && r == 0 ==> NoZone()
    {
      hide Cache.Valid, PinsKept, State.Only, UsedOf, LowOk, Owned, Moved, Extended, ZoneFree, FileGrown;
      ghost var v, zs, s := cache.view, zones, DataSlot(m.num, n);
      PinsSelf(cache.Now());
      ExtendedNot(v, zs, s);
      GrownNot(v, zs, Used(), m.num);
      created := false;
      if fcrt && m.zone[n] == 0 {
        AllocZone(m, n);
        created := m.zone[n] != 0;
        ExtendData(v, zs, cache.view, zones, s, m.zone[n]);
      }
      r := m.zone[n];
    }

    /** Makes sure of zone 7 or 8, the indirect blocks (fs/inode.c:206-213, 239-246). */
    method MapTable(m: MemInode, z: nat, fcrt: bool, ghost s: Slot)
      requires Valid() && Loaded(m) && (z == 7 || z == 8) && |cache.refs| + 2 < |cache.h.key| && IsData(s)
      modifies this, m`zone, m`dirt, cache
      ensures Valid() && Loaded(m) && cache.refs == old(cache.refs) && |cache.h.key| == old(|cache.h.key|)
      ensures PinsKept(old(cache.Now()), cache.Now()) && old(Used()) <= Used()
      ensures Ptr(cache.view, zones, s) == old(Ptr(cache.view, zones, s))
      ensures Extended(old(cache.view), old(zones), cache.view, zones, s, old(Ptr(cache.view, zones, s)))
      ensures FileGrown(old(cache.view), old(zones), old(Used()), cache.view, zones, Used(), m.num)
      ensures zones == old(zones)[m.num := m.zone]
      ensures (m.dirt <==> old(m.dirt) || m.zone != old(m.zone))
      ensures !fcrt || old(m.zone[z]) != 0 ==> cache.view == old(cache.view) && zones == old(zones)
      ensures !fcrt || old(m.zone[z]) != 0 ==> m.zone == old(m.zone)
      ensures fcrt && m.zone[z] == 0 ==> NoZone()
    {
      hide Cache.Valid, PinsKept, State.Only, UsedOf, LowOk, Owned, Moved, Extended, ZoneFree, FileGrown;
      ghost var v, zs := cache.view, zones;
      PinsSelf(cache.Now());
      ExtendedNot(v, zs, s);
      GrownNot(v, zs, Used(), m.num);
      if fcrt && m.zone[z] == 0 {
        AllocZone(m, z);
        ExtendTable(v, zs, cache.view, zones, Root(m.num, z), m.zone[z], s);
      }
    }

    /** The second part of __bmap (fs/inode.c:203-235): blocks named by the indirect block. */
    method MapSingle(m: MemInode, n: nat, fcrt: bool) returns (r: nat, created: bool)
      requires Valid() && Loaded(m) && 7 <= n < 519 && |cache.refs| + 2 < |cache.h.key|
      modifies this, m`zone, m`dirt, cache
      ensures Valid() && Loaded(m) && cache.refs == old(cache.refs) && |cache.h.key| == old(|cache.h.key|)
      ensures PinsKept(old(cache.Now()), cache.Now()) && old(Used()) <= Used()
      ensures MapResult(old(cache.view), old(zones), cache.view, zones, DataSlot(m.num, n), fcrt, r, created)
      ensures r == if m.zone[7] == 0 then 0 else Entry(At(cache.view, m.zone[7]), n - 7)
      ensures FileGrown(old(cache.view), old(zones), old(Used()), cache.view, zones, Used(), m.num)
      ensures zones == old(zones)[m.num := m.zone]
      ensures (m.dirt <==> old(m.dirt) || m.zone != old(m.zone))
      ensures fcrt && r == 0 ==> NoZone()
    {
      hide Cache.Valid, PinsKept, State.Only, UsedOf, LowOk, Owned, Moved, Extended, ZoneFree, FileGrown;
      ghost var v, zs, s, s0, u := cache.view, zones, DataSlot(m.num, n), cache.Now(), Used();
      assert s == Child(Root(m.num, 7), n - 7);
      MapTable(m, 7, fcrt, s);
      ghost var v1, zs1, s1, u1 := cache.view, zones, cache.Now(), Used();
      if m.zone[7] == 0 {
        BlockIs(v1, zs1, m.num, n);
        return 0, false;
      }
      r, created := MapEntry(Root(m.num, 7), m.zone[7], n - 7, fcrt);
      ExtendData(v1, zs1, cache.view, zones, s, r);
      ExtendTwice(v, zs, v1, zs1, cache.view, zones, s, Ptr(v, zs, s), r);
      PinsTwice(s0, s1, cache.Now());
      GrownTwice(v, zs, u, v1, zs1, u1, cache.view, zones, Used(), m.num);
      BlockIs(cache.view, zones, m.num, n);
    }

    /** The last part of __bmap (fs/inode.c:237-280): blocks named through two tables. */
    method MapDouble(m: MemInode, n: nat, fcrt: bool) returns (r: nat, created: bool)
      requires Valid() && Loaded(m) && 519 <= n < MAX_BLKS && |cache.refs| + 2 < |cache.h.key|
      modifies this, m`zone, m`dirt, cache
      ensures Valid() && Loaded(m) && cache.refs == old(cache.refs) && |cache.h.key| == old(|cache.h.key|)
      ensures PinsKept(old(cache.Now()), cache.Now()) && old(Used()) <= Used()
      ensures MapResult(old(cache.view), old(zones), cache.view, zones, DataSlot(m.num, n), fcrt, r, created)
      ensures var t := if m.zone[8] == 0 then 0 else Entry(At(cache.view, m.zone[8]), (n - 519) / 512);
        r == if t == 0 then 0 else Entry(At(cache.view, t), (n - 519) % 512)
      ensures FileGrown(old(cache.view), old(zones), old(Used()), cache.view, zones, Used(), m.num)
      ensures zones == old(zones)[m.num := m.zone]
      ensures (m.dirt <==> old(m.dirt) || m.zone != old(m.zone))
      ensures fcrt && r == 0 ==> NoZone()
    {
      hide Cache.Valid, PinsKept, State.Only, UsedOf, LowOk, Owned, Moved, Extended, ZoneFree, FileGrown;
      var k := n - 519;
      ghost var v, zs, s, s0, u := cache.view, zones, DataSlot(m.num, n), cache.Now(), Used();
      ghost var mid := Child(Root(m.num, 8), k / 512);
      assert s == Child(mid, k % 512) && IsSlot(mid) && Table(mid);
      MapTable(m, 8, fcrt, s);
      ghost var v1, zs1, s1, u1 := cache.view, zones, cache.Now(), Used();
      if m.zone[8] == 0 {
        assert Ptr(v1, zs1, mid) == 0;
        BlockIs(v1, zs1, m.num, n);
        return 0, false;
      }
      var p, made := MapEntry(Root(m.num, 8), m.zone[8], k / 512, fcrt);
      ghost var v2, s2, u2 := cache.view, cache.Now(), Used();
      GrownTwice(v, zs, u, v1, zs1, u1, v2, zones, u2, m.num);
      PinsTwice(s0, s1, s2);
      ExtendTable(v1, zs1, v2, zones, mid, p, s);
      ExtendTwice(v, zs, v1, zs1, v2, zones, s, Ptr(v, zs, s), Ptr(v, zs, s));
      assert Ptr(v2, zones, s) == Ptr(v, zs, s);
      if p == 0 {
        assert Ptr(v2, zones, s) == 0;
        BlockIs(v2, zones, m.num, n);
        return 0, false;
      }
      r, created := MapEntry(mid, p, k % 512, fcrt);
      ExtendData(v2, zones, cache.view, zones, s, r);
      ExtendTwice(v, zs, v2, zones, cache.view, zones, s, Ptr(v, zs, s), r);
      PinsTwice(s0, s2, cache.Now());
      GrownTwice(v, zs, u, v2, zones, u2, cache.view, zones, Used(), m.num);
      BlockIs(cache.view, zones, m.num, n);
    }

    /** __bmap (fs/inode.c:171-281) with fcrt as in bmap and create_block: the block of the
        file's block n, and whether it was created. */
    method BMap(m: MemInode, n: nat, fcrt: bool) returns (r: nat, created: bool)
      requires Valid() && Loaded(m) && m.cnt > 0 && n < MAX_BLKS && |cache.refs| + 2 < |cache.h.key|
      modifies this, m`zone, m`dirt, cache
      ensures Valid() && Loaded(m) && cache.refs == old(cache.refs) && |cache.h.key| == old(|cache.h.key|)
      ensures PinsKept(old(cache.Now()), cache.Now()) && old(Used()) <= Used()
      ensures MapResult(old(cache.view), old(zones), cache.view, zones, DataSlot(m.num, n), fcrt, r, created)
      ensures n < 7 ==> r == m.zone[n]
      ensures 7 <= n < 519 ==> r == if m.zone[7] == 0 then 0 else Entry(At(cache.view, m.zone[7]), n - 7)
      ensures n >= 519 ==>
        var t := if m.zone[8] == 0 then 0 else Entry(At(cache.view, m.zone[8]), (n - 519) / 512);
        r == if t == 0 then 0 else Entry(At(cache.view, t), (n - 519) % 512)
      ensures !fcrt ==> cache.view == old(cache.view) && m.zone == old(m.zone)
      ensures created ==> fcrt && r != 0 && At(cache.view, r) == ZeroBlock()
      ensures FileGrown(old(cache.view), old(zones), old(Used()), cache.view, zones, Used(), m.num)
      ensures zones == old(zones)[m.num := m.zone]
      ensures (m.dirt <==> old(m.dirt) || m.zone != old(m.zone))
      ensures fcrt && r == 0 ==> NoZone()
    {
      hide Valid, Cache.Valid, PinsKept, State.Only, UsedOf, LowOk, Owned, Extended, Ptr, DataSlot, ZoneFree, Entry, At, FileGrown;
      if n < 7 {
        r, created := MapDirect(m, n, fcrt);
      } else if n < 519 {
        r, created := MapSingle(m, n, fcrt);
      } else {
        r, created := MapDouble(m, n, fcrt);
      }
    }

    /** create_block (fs/inode.c:289-292). */
    method CreateBlock(m: MemInode, n: nat) returns (r: nat, created: bool)
      requires Valid() && Loaded(m) && m.cnt > 0 && n < MAX_BLKS && |cache.refs| + 2 < |cache.h.key|
      modifies this, m`zone, m`dirt, cache
      ensures Valid() && Loaded(m) && cache.refs == old(cache.refs) && |cache.h.key| == old(|cache.h.key|)
      ensures PinsKept(old(cache.Now()), cache.Now())
      ensures MapResult(old(cache.view), old(zones), cache.view, zones, DataSlot(m.num, n), true, r, created)
      ensures FileGrown(old(cache.view), old(zones), old(Used()), cache.view, zones, Used(), m.num)
      ensures zones == old(zones)[m.num := m.zone]
      ensures (m.dirt <==> old(m.dirt) || m.zone != old(m.zone))
      ensures r == 0 ==> NoZone()
    {
      hide *;
      r, created := BMap(m, n, true);
    }

    /** Giving a direct block back (fs/inode.c:339-343, 368-374). */
    method FreeZone(m: MemInode, z: nat)
      requires Valid() && Loaded(m) && z < 7 && m.zone[z] != 0 && |cache.refs| < |cache.h.key|
      requires BlkKey(m.zone[z]) !in cache.refs
      modifies this, m`zone, cache
      ensures Valid() && Loaded(m) && cache.refs == old(cache.refs) && |cache.h.key| == old(|cache.h.key|)
      ensures m.zone == old(m.zone)[z := 0] && owner == old(owner) && Used() == old(Used()) - {old(m.zone[z])}
      ensures zones == old(zones)[m.num := m.zone]
      ensures Released(old(cache.view), old(zones), cache.view, zones, Root(m.num, z))
    {
      hide Cache.Valid, PinsKept, State.Only, UsedOf, LowOk, Owned, Released, Others;
      ghost var v, zs, u, t := cache.view, zones, Used(), Root(m.num, z);
      InUse(v, zs, u, owner, t);
      UsedRange();
      cache.Total();
      FreeBlock(m.zone[z]);
      Release(v, zs, u, owner, t, cache.view);
      m.zone := m.zone[z := 0];
      zones := zones[m.num := m.zone];
    }

    lemma MapSize()
      requires Valid()
      ensures |zmap| == ZMAP_SLOTS && nzones <= first + ZMAP_SLOTS * BITS
    {
    }

    lemma LoadedSame(m: MemInode)
      requires Loaded(m)
      ensures m.num in zones && zones[m.num] == m.zone
    {
    }

    lemma UsedRange()
      requires |zmap| == ZMAP_SLOTS && nzones <= first + ZMAP_SLOTS * BITS
      ensures forall n :: n in Used() ==> first <= n < nzones
    {
    }

    /** Giving back a block named by an indirect block p (fs/inode.c:381-388, 401-410). */
    method FreeEntry(ghost ps: Slot, p: nat, i: nat)
      requires Valid() && |cache.refs| + 1 < |cache.h.key|
      requires IsSlot(ps) && Table(ps) && i < 512 && p != 0 && p == Ptr(cache.view, zones, ps)
      requires IsData(Child(ps, i)) && Ptr(cache.view, zones, Child(ps, i)) != 0
      requires BlkKey(Ptr(cache.view, zones, Child(ps, i))) !in cache.refs
      modifies this, cache
      ensures Valid() && zones == old(zones) && cache.refs == old(cache.refs) && |cache.h.key| == old(|cache.h.key|)
      ensures Used() == old(Used()) - {old(Ptr(cache.view, zones, Child(ps, i)))}
      ensures Released(old(cache.view), zones, cache.view, zones, Child(ps, i))
      ensures At(cache.view, p) == SetEntry(old(At(cache.view, p)), i, 0)
    {
      hide Cache.Valid, PinsKept, State.Only, UsedOf, LowOk, Owned, Released, Others, Dropped, Cache.Room;
      ghost var v, u, t := cache.view, Used(), Child(ps, i);
      InUse(v, zones, u, owner, t);
      InUse(v, zones, u, owner, ps);
      Distinct(v, zones, u, owner, ps, t);
      UsedRange();
      cache.Total();
      cache.HoldDropped(BlkKey(p));
      cache.Roomy(BlkKey(p));
      var b := cache.Bread(BlkKey(p));
      ghost var s1 := cache.Now();
      FreeBlock(Entry(cache.h.data[b], i));
      PinAcross(s1, cache.Now(), b, BlkKey(p));
      cache.Reads(b, BlkKey(p));
      Release(v, zones, u, owner, t, cache.view);
      LowStored(cache.view, first, area.blocks, p, SetEntry(cache.h.data[b], i, 0));
      cache.Store(b, BlkKey(p), SetEntry(cache.h.data[b], i, 0));
      cache.Brelse(b, BlkKey(p));
    }

    /** Reading the number of the second table (fs/inode.c:395-399). */
    method ReadEntry(p: nat, i: nat) returns (r: nat)
      requires Base() && |cache.refs| < |cache.h.key| && i < 512
      modifies cache
      ensures Base() && cache.view == old(cache.view) && cache.refs == old(cache.refs)
      ensures |cache.h.key| == old(|cache.h.key|)
      ensures r == Entry(At(cache.view, p), i)
    {
      hide Cache.Valid, PinsKept, State.Only, Dropped, Cache.Room;
      cache.HoldDropped(BlkKey(p));
      cache.Roomy(BlkKey(p));
      var b := cache.Bread(BlkKey(p));
      cache.Reads(b, BlkKey(p));
      r := Entry(cache.h.data[b], i);
      cache.Brelse(b, BlkKey(p));
    }

    /** free_file_blk (fs/inode.c:353-411). Where the slot of block n exists it must not be
        empty, else free_block crashes on zone 0; and nobody may hold the block. */
    method FreeFileBlk(m: MemInode, n: nat)
      requires Valid() && Loaded(m) && m.cnt > 0 && n < MAX_BLKS && |cache.refs| + 1 < |cache.h.key|
      requires Present(cache.view, zones, DataSlot(m.num, n)) ==> Ptr(cache.view, zones, DataSlot(m.num, n)) != 0
      requires BlkKey(Ptr(cache.view, zones, DataSlot(m.num, n))) !in cache.refs
      modifies this, m`zone, m`dirt, cache
      ensures Valid() && Loaded(m) && cache.refs == old(cache.refs) && |cache.h.key| == old(|cache.h.key|)
      ensures Released(old(cache.view), old(zones), cache.view, zones, DataSlot(m.num, n))
      ensures m.zone == if n < 7 then old(m.zone)[n := 0] else old(m.zone)
      ensures n < 7 ==> Used() == old(Used()) - {old(m.zone[n])}
      ensures 7 <= n < 519 && m.zone[7] != 0 ==>
        && Used() == old(Used()) - {old(Entry(At(cache.view, m.zone[7]), n - 7))}
        && WordCleared(old(At(cache.view, m.zone[7])), At(cache.view, m.zone[7]), n - 7)
      ensures n >= 519 && m.zone[8] != 0 ==>
        var t := old(Entry(At(cache.view, m.zone[8]), (n - 519) / 512));
        t != 0 ==>
          && Used() == old(Used()) - {Entry(At(old(cache.view), t), (n - 519) % 512)}
          && WordCleared(At(old(cache.view), t), At(cache.view, t), (n - 519) % 512)
      ensures Used() == old(Used()) - {old(Ptr(cache.view, zones, DataSlot(m.num, n)))}
      ensures zones == old(zones)[m.num := m.zone]
      ensures m.dirt <==> old(m.dirt) || n < 7
    {
      hide Cache.Valid, PinsKept, State.Only, UsedOf, LowOk, Owned, Released;
      ghost var s := DataSlot(m.num, n);
      ReleasedNot(cache.view, zones, s);
      InUse(cache.view, zones, Used(), owner, s);
      UsedRange();
      if n < 7 {
        FreeZone(m, n);
        m.dirt := true;
        return;
      }
      if n < 519 {
        if m.zone[7] == 0 {
          return;
        }
        assert s == Child(Root(m.num, 7), n - 7);
        FreeEntry(Root(m.num, 7), m.zone[7], n - 7);
        return;
      }
      var k := n - 519;
      ghost var mid := Child(Root(m.num, 8), k / 512);
      assert s == Child(mid, k % 512) && IsSlot(mid) && Table(mid);
      if m.zone[8] == 0 {
        assert Ptr(cache.view, zones, mid) == 0;
        return;
      }
      var p := ReadEntry(m.zone[8], k / 512);
      assert p == Ptr(cache.view, zones, mid);
      if p == 0 {
        return;
      }
      FreeEntry(mid, p, k % 512);
    }

    /** Freeing one block of a branch whose top slot t has been emptied. */
    method FreeDetached(ghost vo: View, ghost zo: Zones, ghost uo: set<nat>, ghost t: Slot, ghost s: Slot, e: nat)
      requires Valid() && |cache.refs| < |cache.h.key| && Owned(vo, zo, uo, owner)
      requires IsSlot(t) && IsSlot(s) && Under(s, t) && Ptr(cache.view, zones, t) == 0 && e == Ptr(vo, zo, s) != 0
      requires e in Used() && BlkKey(e) !in cache.refs
      modifies this`zmap, cache
      ensures Valid() && cache.refs == old(cache.refs) && |cache.h.key| == old(|cache.h.key|)
      ensures PinsKept(old(cache.Now()), cache.Now())
      ensures Used() == old(Used()) - {e} && StillThere(old(cache.view), zones, cache.view, zones)
      ensures forall b :: b != e ==> At(cache.view, b) == At(old(cache.view), b)
    {
      hide Cache.Valid, PinsKept, State.Only, UsedOf, LowOk, Owned, StillThere;
      ghost var v, u := cache.view, Used();
      UsedRange();
      cache.Total();
      DetachedLoose(vo, zo, uo, owner, t, s, v, zones, u);
      FreeBlock(e);
      FreeLoose(v, zones, u, owner, e, cache.view);
    }

    /** The loop of free_ind (fs/inode.c:304-306): b is the buffer of table p. */
    method FreeEntries(ghost vo: View, ghost zo: Zones, ghost uo: set<nat>, ghost ps: Slot, b: nat, p: nat)
      returns (ghost done: set<nat>)
      requires Valid() && |cache.refs| < |cache.h.key| && cache.Now().Pin(b, BlkKey(p))
      requires Owned(vo, zo, uo, owner) && IsSlot(ps) && Table(ps) && p == Ptr(vo, zo, ps) != 0
      requires Ptr(cache.view, zones, ps) == 0
      requires At(cache.view, p) == At(vo, p)
      requires forall i :: 0 <= i < 512 ==> Ptr(vo, zo, Child(ps, i)) != 0 ==>
        var e := Ptr(vo, zo, Child(ps, i)); e in Used() && BlkKey(e) !in cache.refs
      modifies this`zmap, cache
      ensures Valid() && cache.refs == old(cache.refs) && |cache.h.key| == old(|cache.h.key|)
      ensures PinsKept(old(cache.Now()), cache.Now())
      ensures Done(vo, zo, owner, ps, 512, done) && Used() == old(Used()) - done && p !in done
      ensures forall n :: n !in done ==> At(cache.view, n) == At(old(cache.view), n)
      ensures StillThere(old(cache.view), zones, cache.view, zones)
    {
      hide Cache.Valid, PinsKept, State.Only, UsedOf, LowOk, Owned, StillThere, Done;
      ghost var v, u, s0, k := cache.view, Used(), cache.Now(), BlkKey(p);
      PinsSelf(s0);
      StillSelf(v, zones);
      DoneNone(vo, zo, owner, ps);
      done := {};
      var i := 0;
      while i < 512
        invariant 0 <= i <= 512 && Valid() && Ptr(cache.view, zones, ps) == 0
        invariant cache.refs == s0.refs && |cache.h.key| == |s0.key|
        invariant PinsKept(s0, cache.Now()) && cache.Now().Pin(b, k)
        invariant Done(vo, zo, owner, ps, i, done) && Used() == u - done && p !in done
        invariant forall n :: n !in done ==> At(cache.view, n) == At(v, n)
        invariant StillThere(v, zones, cache.view, zones)
      {
        cache.Reads(b, k);
        var e := Entry(cache.h.data[b], i);
        NotDone(vo, zo, uo, owner, ps, i, done);
        assert e == Ptr(vo, zo, Child(ps, i));
        if e != 0 {
          ghost var v1, s1 := cache.view, cache.Now();
          FreeDetached(vo, zo, uo, ps, Child(ps, i), e);
          StillTwice(v, zones, v1, zones, cache.view, zones);
          StillPtr(v1, zones, cache.view, zones, ps);
          PinAcross(s1, cache.Now(), b, k);
          PinsTwice(s0, s1, cache.Now());
          done := done + {e};
        }
        i := i + 1;
      }
    }

    /** free_ind (fs/inode.c:296-310): the blocks named by table p, then p itself. (vo, zo) is
        the tree in which slot ps names p; by now ps has been emptied. */
    method FreeInd(ghost vo: View, ghost zo: Zones, ghost uo: set<nat>, ghost ps: Slot, p: nat)
      returns (ghost freed: set<nat>)
      requires Valid() && |cache.refs| + 1 < |cache.h.key|
      requires Owned(vo, zo, uo, owner) && IsSlot(ps) && Table(ps) && p == Ptr(vo, zo, ps)
      requires Ptr(cache.view, zones, ps) == 0
      requires forall i :: 0 <= i < 512 ==> IsData(Child(ps, i))
      requires Intact(vo, zo, ps, cache.view, Used(), cache.refs)
      modifies this`zmap, cache
      ensures Valid() && cache.refs == old(cache.refs) && |cache.h.key| == old(|cache.h.key|)
      ensures PinsKept(old(cache.Now()), cache.Now())
      ensures Branch(vo, zo, owner, ps, freed) && Used() == old(Used()) - freed
      ensures forall b :: b !in freed ==> At(cache.view, b) == At(old(cache.view), b)
      ensures StillThere(old(cache.view), zones, cache.view, zones)
    {
      hide Cache.Valid, PinsKept, State.Only, UsedOf, LowOk, Owned, StillThere, Branch, Done, Dropped, Cache.Room,
        Intact;
      ghost var v, u, s0 := cache.view, Used(), cache.Now();
      PinsSelf(s0);
      if p == 0 {
        freed := {};
        NoBranch(vo, zo, owner, ps);
        StillSelf(v, zones);
        return;
      }
      var k := BlkKey(p);
      IntactAt(vo, zo, ps, v, u, cache.refs, ps);
      IntactEntries(vo, zo, uo, owner, ps, v, u, cache.refs);
      cache.HoldDropped(k);
      cache.Roomy(k);
      var b := cache.Bread(k);
      ghost var s1 := cache.Now();
      ghost var done := FreeEntries(vo, zo, uo, ps, b, p);
      ghost var s2 := cache.Now();
      PinsTwice(s0, s1, s2);
      PinAcross(s1, s2, b, k);
      cache.Brelse(b, k);
      ghost var v3, s3 := cache.view, cache.Now();
      PinsTwice(s0, s2, s3);
      StillPtr(v, zones, v3, zones, ps);
      FreeDetached(vo, zo, uo, ps, ps, p);
      PinsTwice(s0, s3, cache.Now());
      StillTwice(v, zones, v3, zones, cache.view, zones);
      freed := done + {p};
      DoneBranch(vo, zo, uo, owner, ps, done);
    }

    /** The loop of free_dind (fs/inode.c:322-323): b is the buffer of table p. */
    method FreeTables(ghost vo: View, ghost zo: Zones, ghost uo: set<nat>, ghost ps: Slot, b: nat, p: nat)
      returns (ghost done: set<nat>)
      requires Valid() && |cache.refs| + 1 < |cache.h.key| && cache.Now().Pin(b, BlkKey(p))
      requires Owned(vo, zo, uo, owner) && ps.Root? && ps.z == 8 && p == Ptr(vo, zo, ps) != 0
      requires Ptr(cache.view, zones, ps) == 0
      requires At(cache.view, p) == At(vo, p)
      requires Intact(vo, zo, ps, cache.view, Used(), cache.refs - {BlkKey(p)})
      modifies this`zmap, cache
      ensures Valid() && cache.refs == old(cache.refs) && |cache.h.key| == old(|cache.h.key|)
      ensures PinsKept(old(cache.Now()), cache.Now())
      ensures DoneBranches(vo, zo, owner, ps, 512, done) && Used() == old(Used()) - done
      ensures forall n :: n !in done ==> At(cache.view, n) == At(old(cache.view), n)
      ensures StillThere(old(cache.view), zones, cache.view, zones)
    {
      hide Cache.Valid, PinsKept, State.Only, UsedOf, LowOk, Owned, StillThere, DoneBranches, Intact, Branch;
      ghost var v, u, s0, k := cache.view, Used(), cache.Now(), BlkKey(p);
      PinsSelf(s0);
      StillSelf(v, zones);
      DoneNoBranches(vo, zo, owner, ps);
      done := {};
      var i := 0;
      while i < 512
        invariant 0 <= i <= 512 && Valid() && Ptr(cache.view, zones, ps) == 0
        invariant cache.refs == s0.refs && |cache.h.key| == |s0.key|
        invariant PinsKept(s0, cache.Now()) && cache.Now().Pin(b, k)
        invariant DoneBranches(vo, zo, owner, ps, i, done) && Used() == u - done
        invariant forall n :: n !in done ==> At(cache.view, n) == At(v, n)
        invariant StillThere(v, zones, cache.view, zones)
      {
        cache.Reads(b, k);
        IntactLater(vo, zo, uo, owner, ps, i, done, v, u, s0.refs - {k}, cache.view, cache.refs);
        var e := Entry(cache.h.data[b], i);
        assert e == Ptr(vo, zo, Child(ps, i)) && Ptr(cache.view, zones, Child(ps, i)) == 0;
        if e != 0 {
          ghost var v1, s1 := cache.view, cache.Now();
          ghost var freed := FreeInd(vo, zo, uo, Child(ps, i), e);
          StillTwice(v, zones, v1, zones, cache.view, zones);
          StillPtr(v1, zones, cache.view, zones, ps);
          PinAcross(s1, cache.Now(), b, k);
          PinsTwice(s0, s1, cache.Now());
          DoneOneMore(vo, zo, owner, ps, i, done, freed);
          done := done + freed;
        } else {
          NoBranch(vo, zo, owner, Child(ps, i));
          DoneOneMore(vo, zo, owner, ps, i, done, {});
          assert done + {} == done;
        }
        i := i + 1;
      }
    }

    /** free_dind (fs/inode.c:313-327): the branches of the second table, then the table. */
    method FreeDind(ghost vo: View, ghost zo: Zones, ghost uo: set<nat>, ghost ps: Slot, p: nat)
      returns (ghost freed: set<nat>)
      requires Valid() && |cache.refs| + 2 < |cache.h.key|
      requires Owned(vo, zo, uo, owner) && ps.Root? && ps.z == 8 && p == Ptr(vo, zo, ps)
      requires Ptr(cache.view, zones, ps) == 0
      requires Intact(vo, zo, ps, cache.view, Used(), cache.refs)
      modifies this`zmap, cache
      ensures Valid() && cache.refs == old(cache.refs) && |cache.h.key| == old(|cache.h.key|)
      ensures Branch(vo, zo, owner, ps, freed) && Used() == old(Used()) - freed
      ensures StillThere(old(cache.view), zones, cache.view, zones)
    {
      hide Cache.Valid, PinsKept, State.Only, UsedOf, LowOk, Owned, StillThere, Branch, DoneBranches, Dropped,
        Cache.Room, Intact;
      ghost var v, u, k := cache.view, Used(), BlkKey(p);
      if p == 0 {
        freed := {};
        NoBranch(vo, zo, owner, ps);
        StillSelf(v, zones);
        return;
      }
      IntactAt(vo, zo, ps, v, u, cache.refs, ps);
      cache.HoldDropped(BlkKey(p));
      cache.Roomy(BlkKey(p));
      assert Raised(cache.refs, k) - {k} == cache.refs;
      var b := cache.Bread(BlkKey(p));
      ghost var s1 := cache.Now();
      ghost var done := FreeTables(vo, zo, uo, ps, b, p);
      PinAcross(s1, cache.Now(), b, k);
      cache.Brelse(b, BlkKey(p));
      ghost var v3 := cache.view;
      StillPtr(v, zones, v3, zones, ps);
      DoneBranchesAll(vo, zo, uo, owner, ps, done);
      FreeDetached(vo, zo, uo, ps, ps, p);
      StillTwice(v, zones, v3, zones, cache.view, zones);
      freed := done + {p};
    }

    /** The loop of clear_iblks over the direct zones (fs/inode.c:337-344). */
    method ClearDirect(m: MemInode) returns (ghost d: set<nat>)
      requires Valid() && Loaded(m) && |cache.refs| < |cache.h.key| && Unheld(cache.view, zones, m.num, cache.refs)
      modifies this, m`zone, cache
      ensures Valid() && Loaded(m) && cache.refs == old(cache.refs) && |cache.h.key| == old(|cache.h.key|)
      ensures owner == old(owner) && Used() == old(Used()) - d
      ensures zones == old(zones)[m.num := m.zone]
      ensures DirectCleared(old(cache.view), old(zones), owner, cache.view, zones, m.num, 7, d)
    {
      hide Cache.Valid, State.Only, UsedOf, LowOk, Owned, DirectCleared, Released, Unheld;
      ghost var v, zs, u, own, refs, size := cache.view, zones, Used(), owner, cache.refs, |cache.h.key|;
      d := {};
      DirectNone(v, zs, own, m.num);
      var i := 0;
      while i < 7
        invariant 0 <= i <= 7 && Valid() && Loaded(m) && cache.refs == refs && |cache.h.key| == size
        invariant owner == own && Used() == u - d && zones == zs[m.num := m.zone]
        invariant DirectCleared(v, zs, own, cache.view, zones, m.num, i, d)
      {
        ghost var v1, zs1, s := cache.view, zones, Root(m.num, i);
        ReleasedNot(v1, zs1, s);
        InUse(v1, zs1, Used(), owner, s);
        UnheldAt(v, zs, own, v1, zs1, m.num, i, d, refs);
        if m.zone[i] != 0 {
          FreeZone(m, i);
        }
        DirectNext(v, zs, u, own, v1, zs1, cache.view, zones, m.num, i, d);
        d := if Ptr(v, zs, s) == 0 then d else d + {Ptr(v, zs, s)};
        i := i + 1;
      }
    }

    /** The indirect half of clear_iblks (fs/inode.c:345-348). */
    method ClearTables(m: MemInode) returns (ghost f7: set<nat>, ghost f8: set<nat>)
      requires Valid() && Loaded(m) && |cache.refs| + 2 < |cache.h.key| && Unheld(cache.view, zones, m.num, cache.refs)
      modifies this, cache
      ensures Valid() && cache.refs == old(cache.refs) && |cache.h.key| == old(|cache.h.key|)
      ensures owner == old(owner) && Used() == old(Used()) - f7 - f8
      ensures Branch(old(cache.view), old(zones), owner, Root(m.num, 7), f7)
      ensures Branch(old(cache.view), old(zones), owner, Root(m.num, 8), f8)
      ensures zones == Detached(old(zones), m.num) && StillThere(old(cache.view), zones, cache.view, zones)
    {
      hide Cache.Valid, State.Only, UsedOf, LowOk, Owned, Branch, Intact, StillThere, Detached, Unheld;
      ghost var v, zs, u, t7, t8 := cache.view, zones, Used(), Root(m.num, 7), Root(m.num, 8);
      IntactNow(v, zs, u, owner, m.num, 7, cache.refs);
      IntactNow(v, zs, u, owner, m.num, 8, cache.refs);
      DetachedOwned(v, zs, u, owner, m.num);
      zones := Detached(zs, m.num);
      f7 := FreeInd(v, zs, u, t7, m.zone[7]);
      ghost var v2 := cache.view;
      IntactBeside(v, zs, u, owner, t7, t8, f7, cache.refs, v2);
      StillPtr(v, zones, v2, zones, t8);
      f8 := FreeDind(v, zs, u, t8, m.zone[8]);
      StillTwice(v, zones, v2, zones, cache.view, zones);
    }

    /** clear_iblks (fs/inode.c:330-351) on a regular file frees exactly the file's blocks,
        each once; on any other inode it does nothing. i_dirt stays as it is. Nobody may hold
        one of the blocks. */
    method ClearIblks(m: MemInode) returns (ghost freed: set<nat>)
      requires Valid() && Loaded(m) && |cache.refs| + 2 < |cache.h.key| && Unheld(cache.view, zones, m.num, cache.refs)
      modifies this, m`zone, m`size, cache
      ensures Valid() && Loaded(m) && cache.refs == old(cache.refs) && |cache.h.key| == old(|cache.h.key|)
      ensures zones == old(zones)[m.num := m.zone]
      ensures Used() == old(Used()) - freed
      ensures if 0x8000 <= m.mode % 0x1_0000 < 0x9000 then
          && (forall b :: b in freed <==> FileBlk(old(cache.view), old(zones), m.num, b))
          && Cleared(old(cache.view), old(zones), cache.view, zones, m.num)
          && m.zone == seq(9, _ => 0) && m.size == 0
        else
          freed == {} && cache.view == old(cache.view) && zones == old(zones) && m.zone == old(m.zone) && m.size == old(m.size)
    {
      hide Cache.Valid, State.Only, UsedOf, LowOk, Owned, DirectCleared, Cleared, Branch, StillThere, FileBlk, Unheld;
      freed := {};
      if !IsReg(m.mode) {
        return;
      }
      ghost var v, zs, u := cache.view, zones, Used();
      ghost var d := ClearDirect(m);
      ghost var v1, zs1 := cache.view, zones;
      UnheldLater(v, zs, owner, v1, zs1, m.num, d, cache.refs);
      ghost var f7, f8 := ClearTables(m);
      AllFreed(v, zs, u, owner, v1, zs1, m.num, d, f7, f8);
      AllCleared(v, zs, owner, v1, zs1, m.num, d, cache.view);
      DirectZero(v, zs, owner, v1, zs1, m.num, d);
      DetachedOnly(zs1, m.num);
      m.zone := m.zone[7 := 0];
      m.zone := m.zone[8 := 0];
      m.size := 0;
      freed := d + f7 + f8;
    }
  }
}
