/** Reading and writing files (fs/file_rw.c). */
module FileRw {
  import opened Basics
  import Bitmap
  import opened Blocks
  import opened CacheState
  import opened BufferCache
  import opened FileTree
  import opened FileBytes
  import opened FileSystem

  /** The fields of FILE_STRUCT that file_rd and file_wr use. */
  class OpenFile {
    var pos: nat        // f_pos
    const append: bool  // f_flags & O_APPEND

    constructor (append: bool)
      ensures pos == 0 && this.append == append
    {
      pos, this.append := 0, append;
    }
  }

  /** The copy loop of file_rd out of a buffer (fs/file_rw.c:33-35). */
  method CopyOut(p: Block, off: nat, n: nat, buf: array<Byte>, at: nat)
    requires off + n <= BLK_SIZE && at + n <= buf.Length
    modifies buf
    ensures forall k :: 0 <= k < buf.Length ==> buf[k] == if at <= k < at + n then p[off + (k - at)] else old(buf[k])
  {
    var i := 0;
    while i < n
      invariant 0 <= i <= n
      invariant forall k :: 0 <= k < buf.Length ==>
        buf[k] == if at <= k < at + i then p[off + (k - at)] else old(buf[k])
    {
      buf[at + i] := p[off + i];
      i := i + 1;
    }
  }

  /** The copy loop of file_wr into a buffer (fs/file_rw.c:93-94). */
  method CopyIn(p: Block, off: nat, n: nat, src: seq<Byte>, at: nat) returns (q: Block)
    requires off + n <= BLK_SIZE && at + n <= |src|
    ensures forall k :: 0 <= k < BLK_SIZE ==> q[k] == if off <= k < off + n then src[at + (k - off)] else p[k]
  {
    q := p;
    var i := 0;
    while i < n
      invariant 0 <= i <= n
      invariant forall k :: 0 <= k < BLK_SIZE ==> q[k] == if off <= k < off + i then src[at + (k - off)] else p[k]
    {
      q := q[off + i := src[at + i]];
      i := i + 1;
    }
  }

  /** Reading part of a block through the cache (fs/file_rw.c:21, 31-36). */
  method ReadBlk(cache: Cache, nr: nat, off: nat, n: nat, buf: array<Byte>, at: nat)
    requires cache.Valid() && cache.Now().Only(ROOT_DEV) && |cache.refs| < |cache.h.key|
    requires off + n <= BLK_SIZE && at + n <= buf.Length
    modifies cache, buf
    ensures cache.Valid() && cache.Now().Only(ROOT_DEV) && cache.view == old(cache.view)
    ensures cache.refs == old(cache.refs) && |cache.h.key| == |old(cache.h.key)|
    ensures forall k :: 0 <= k < buf.Length ==>
      buf[k] == if at <= k < at + n then At(cache.view, nr)[off + (k - at)] else old(buf[k])
  {
    hide Cache.Valid, PinsKept, State.Only, Dropped, Raised, Cache.Room;
    cache.HoldDropped(BlkKey(nr));
    cache.Roomy(BlkKey(nr));
    var b := cache.Bread(BlkKey(nr));
    cache.Reads(b, BlkKey(nr));
    CopyOut(cache.h.data[b], off, n, buf, at);
    cache.Brelse(b, BlkKey(nr));
  }

  /** One round of file_rd (fs/file_rw.c:20-43): n bytes of one block, or zeros for a hole. */
  method ReadChunk(fs: FileSys, m: MemInode, pos: nat, n: nat, buf: array<Byte>, at: nat)
    requires fs.Valid() && fs.Loaded(m) && m.cnt > 0 && |fs.cache.refs| + 2 < |fs.cache.h.key|
    requires pos + n <= MAX_BYTES && pos % BLK_SIZE + n <= BLK_SIZE && n > 0 && at + n <= buf.Length
    modifies fs, m`zone, m`dirt, fs.cache, buf
    ensures fs.Valid() && fs.Loaded(m) && fs.cache.refs == old(fs.cache.refs)
    ensures |fs.cache.h.key| == |old(fs.cache.h.key)|
    ensures fs.cache.view == old(fs.cache.view) && fs.zones == old(fs.zones)
    ensures m.zone == old(m.zone) && m.dirt == old(m.dirt)
    ensures forall k :: 0 <= k < buf.Length ==>
      buf[k] == if at <= k < at + n then ByteAt(fs.cache.view, fs.zones, m.num, pos + (k - at)) else old(buf[k])
  {
    hide Cache.Valid, Owned, MapResult, PinsKept, State.Only, LowOk, FileSystem.UsedOf, ByteAt;
    ghost var v, zs, s := fs.cache.view, fs.zones, DataSlot(m.num, pos / BLK_SIZE);
    var nr, created := fs.BMap(m, pos / BLK_SIZE, false);
    MapPlain(v, zs, fs.cache.view, fs.zones, s, nr, created);
    var off := pos % BLK_SIZE;
    if nr != 0 {
      ReadBlk(fs.cache, nr, off, n, buf, at);
    } else {
      CopyOut(ZeroBlock(), off, n, buf, at);
    }
    forall k | at <= k < at + n
      ensures buf[k] == ByteAt(v, zs, m.num, pos + (k - at))
    {
      BytesOfChunk(v, zs, m.num, pos, k - at);
    }
  }

  lemma BytesOfChunk(v: View, zs: Zones, ino: nat, pos: nat, j: nat)
    requires pos + j < MAX_BYTES && pos % BLK_SIZE + j < BLK_SIZE
    ensures var nr := Ptr(v, zs, DataSlot(ino, pos / BLK_SIZE));
      ByteAt(v, zs, ino, pos + j) == if nr == 0 then 0 else At(v, nr)[pos % BLK_SIZE + j]
  {
    assert (pos + j) / BLK_SIZE == pos / BLK_SIZE && (pos + j) % BLK_SIZE == pos % BLK_SIZE + j;
  }

  lemma MapPlain(v: View, zs: Zones, v': View, zs': Zones, s: Slot, r: nat, created: bool)
    requires IsData(s) && MapResult(v, zs, v', zs', s, false, r, created)
    ensures v' == v && zs' == zs && r == Ptr(v, zs, s)
  {
  }

  /** file_rd (fs/file_rw.c:12-47): the bytes from the file position on, holes as zeros. */
  method FileRd(fs: FileSys, m: MemInode, f: OpenFile, buf: array<Byte>, count: int) returns (r: nat)
    requires fs.Valid() && fs.Loaded(m) && m.cnt > 0 && |fs.cache.refs| + 2 < |fs.cache.h.key|
    requires count <= buf.Length && f.pos + Max(count, 0) <= MAX_BYTES
    modifies fs, m`zone, m`dirt, fs.cache, f, buf
    ensures fs.Valid() && fs.Loaded(m) && fs.cache.refs == old(fs.cache.refs)
    ensures |fs.cache.h.key| == |old(fs.cache.h.key)|
    ensures fs.cache.view == old(fs.cache.view) && fs.zones == old(fs.zones)
    ensures m.zone == old(m.zone) && m.dirt == old(m.dirt)
    ensures r == Max(count, 0) && f.pos == old(f.pos) + r
    ensures forall k :: 0 <= k < buf.Length ==>
      buf[k] == if k < r then ByteAt(fs.cache.view, fs.zones, m.num, old(f.pos) + k) else old(buf[k])
  {
    hide FileSys.Valid, ByteAt;
    if count <= 0 {
      return 0;
    }
    ghost var v, zs, pos := fs.cache.view, fs.zones, f.pos;
    ghost var refs, size := fs.cache.refs, |fs.cache.h.key|;
    var left := count;
    while left > 0
      invariant 0 <= left <= count && f.pos == pos + (count - left)
      invariant fs.Valid() && fs.Loaded(m) && fs.cache.refs == refs && |fs.cache.h.key| == size
      invariant m.zone == old(m.zone) && m.dirt == old(m.dirt)
      invariant fs.cache.view == v && fs.zones == zs
      invariant forall k :: 0 <= k < buf.Length ==>
        buf[k] == if k < count - left then ByteAt(v, zs, m.num, pos + k) else old(buf[k])
    {
      var chars := if BLK_SIZE - f.pos % BLK_SIZE < left then BLK_SIZE - f.pos % BLK_SIZE else left;
      ReadChunk(fs, m, f.pos, chars, buf, count - left);
      f.pos := f.pos + chars;
      left := left - chars;
    }
    return count;
  }

  /** One round of file_wr after create_block (fs/file_rw.c:69-97): n bytes of src into
      block nr, which is block b of file ino. */
  method WriteBlk(fs: FileSys, ghost ino: nat, ghost b: nat, nr: nat, off: nat, n: nat, src: seq<Byte>, at: nat)
    requires fs.Valid() && |fs.cache.refs| < |fs.cache.h.key|
    requires b < MAX_BLKS && nr == Ptr(fs.cache.view, fs.zones, DataSlot(ino, b)) != 0
    requires off + n <= BLK_SIZE && at + n <= |src|
    modifies fs.cache
    ensures fs.Valid() && fs.cache.refs == old(fs.cache.refs) && |fs.cache.h.key| == |old(fs.cache.h.key)|
    ensures ChunkStored(old(fs.cache.view), fs.zones, fs.cache.view, ino, b, off, n, src, at)
    ensures OthersKept(old(fs.cache.view), fs.zones, fs.cache.view, fs.zones, ino)
    ensures FileGrown(old(fs.cache.view), fs.zones, fs.Used(), fs.cache.view, fs.zones, fs.Used(), ino)
  {
    hide OthersKept, Cache.Valid, Owned, PinsKept, State.Only, LowOk, Dropped, Raised, Cache.Room,
      FileSystem.UsedOf, ChunkStored, ByteAt, DataSlot, FileGrown;
    ghost var v, u := fs.cache.view, fs.Used();
    InUse(v, fs.zones, u, fs.owner, DataSlot(ino, b));
    fs.UsedRange();
    fs.cache.HoldDropped(BlkKey(nr));
    fs.cache.Roomy(BlkKey(nr));
    var bh := fs.cache.Bread(BlkKey(nr));
    fs.cache.Reads(bh, BlkKey(nr));
    var d := CopyIn(fs.cache.h.data[bh], off, n, src, at);
    LowStored(v, fs.first, fs.area.blocks, nr, d);
    fs.cache.Store(bh, BlkKey(nr), d);
    fs.cache.Brelse(bh, BlkKey(nr));
    StoredOwned(v, fs.zones, u, fs.owner, DataSlot(ino, b), d);
    GrownStored(v, fs.zones, u, fs.cache.view, ino);
    StoredChunk(v, fs.zones, u, fs.owner, ino, b, off, n, src, at, d);
    StoredOthers(v, fs.zones, u, fs.owner, ino, b, d);
  }

  lemma StoredChunk(v: View, zs: Zones, used: set<nat>, owner: map<nat, Slot>, ino: nat, b: nat, off: nat, n: nat,
                    src: seq<Byte>, at: nat, d: Block)
    requires Owned(v, zs, used, owner) && b < MAX_BLKS && Ptr(v, zs, DataSlot(ino, b)) != 0
    requires off + n <= BLK_SIZE && at + n <= |src|
    requires forall k :: 0 <= k < BLK_SIZE ==>
      d[k] == if off <= k < off + n then src[at + (k - off)] else At(v, Ptr(v, zs, DataSlot(ino, b)))[k]
    ensures ChunkStored(v, zs, v[BlkKey(Ptr(v, zs, DataSlot(ino, b))) := d], ino, b, off, n, src, at)
  {
    hide Owned;
    var v' := v[BlkKey(Ptr(v, zs, DataSlot(ino, b))) := d];
    forall i, o | 0 <= o < MAX_BYTES
      ensures ByteAt(v', zs, i, o) == if i == ino && o / BLK_SIZE == b && off <= o % BLK_SIZE < off + n then src[at + (o % BLK_SIZE - off)] else ByteAt(v, zs, i, o)
    {
      StoredBytes(v, zs, used, owner, ino, b, d, i, o);
    }
  }

  /** create_block in a round of file_wr (fs/file_rw.c:68-69): nothing is written by it. */
  method RoundBlock(fs: FileSys, m: MemInode, b: nat, buf: seq<Byte>, ghost w: nat,
                    ghost v: View, ghost zs: Zones, ghost u: set<nat>, ghost pos0: nat, ghost fpos: nat) returns (blk: nat)
    requires fs.Valid() && fs.Loaded(m) && m.cnt > 0 && |fs.cache.refs| + 2 < |fs.cache.h.key|
    requires b < MAX_BLKS && w <= |buf|
    requires Wrote(v, zs, m.num, buf, pos0, fpos, w, fs.cache.view, fs.zones)
    requires FileGrown(v, zs, u, fs.cache.view, fs.zones, fs.Used(), m.num)
    requires OnlyFile(v, zs, fs.cache.view, fs.zones, m.num, m.zone)
    modifies fs, m`zone, m`dirt, fs.cache
    ensures fs.Valid() && fs.Loaded(m) && fs.cache.refs == old(fs.cache.refs)
    ensures |fs.cache.h.key| == |old(fs.cache.h.key)|
    ensures OnlyFile(v, zs, fs.cache.view, fs.zones, m.num, m.zone)
    ensures Wrote(v, zs, m.num, buf, pos0, fpos, w, fs.cache.view, fs.zones)
    ensures FileGrown(v, zs, u, fs.cache.view, fs.zones, fs.Used(), m.num)
    ensures m.dirt <==> old(m.dirt) || m.zone != old(m.zone)
    ensures blk == Ptr(fs.cache.view, fs.zones, DataSlot(m.num, b)) && (blk == 0 ==> fs.NoZone())
  {
    hide FileSys.Valid, Wrote, MapResult, ChunkStored, PinsKept, Ptr, DataSlot, FileSys.NoZone, OthersKept, OnlyFile,
      At, Entry, FileGrown;
    fs.MapSize();
    ghost var v1, zs1, u1, s := fs.cache.view, fs.zones, fs.Used(), DataSlot(m.num, b);
    var created;
    blk, created := fs.CreateBlock(m, b);
    fs.MapSize();
    ghost var v2, zs2 := fs.cache.view, fs.zones;
    GrownTwice(v, zs, u, v1, zs1, u1, v2, zs2, fs.Used(), m.num);
    WroteMap(v, zs, m.num, buf, pos0, fpos, w, v1, zs1, v2, zs2, s, true, blk, created);
    MapOthers(v1, zs1, v2, zs2, m.num, b, true, blk, created);
    OnlyFileOn(v, zs, v1, zs1, v2, zs2, m.num, old(m.zone), m.zone);
  }

  /** One round of file_wr (fs/file_rw.c:67-97): up to the end of a block, n bytes of buf
      from w on; none if there is no block to be had. */
  method WriteRound(fs: FileSys, m: MemInode, fp: nat, pos: nat, left: nat, buf: seq<Byte>, w: nat,
                    ghost v: View, ghost zs: Zones, ghost u: set<nat>, ghost pos0: nat, ghost fpos: nat) returns (n: nat)
    requires fs.Valid() && fs.Loaded(m) && m.cnt > 0 && |fs.cache.refs| + 2 < |fs.cache.h.key|
    requires left > 0 && w + left <= |buf| && pos == pos0 + w && fp == fpos + w && fp + left <= MAX_BYTES
    requires w == 0 || pos % BLK_SIZE == 0
    requires Wrote(v, zs, m.num, buf, pos0, fpos, w, fs.cache.view, fs.zones)
    requires FileGrown(v, zs, u, fs.cache.view, fs.zones, fs.Used(), m.num)
    requires OnlyFile(v, zs, fs.cache.view, fs.zones, m.num, m.zone)
    modifies fs, m`zone, m`dirt, m`size, fs.cache
    ensures fs.Valid() && fs.Loaded(m) && fs.cache.refs == old(fs.cache.refs)
    ensures |fs.cache.h.key| == |old(fs.cache.h.key)|
    ensures OnlyFile(v, zs, fs.cache.view, fs.zones, m.num, m.zone)
    ensures n <= left && (n == 0 || n == left || (pos + n) % BLK_SIZE == 0)
    ensures Wrote(v, zs, m.num, buf, pos0, fpos, w + n, fs.cache.view, fs.zones)
    ensures m.size == if n > 0 then Max(old(m.size), pos + n) else old(m.size)
    ensures old(m.dirt) || m.zone != old(m.zone) || m.size != old(m.size) ==> m.dirt
    ensures n == 0 ==> Ptr(fs.cache.view, fs.zones, DataSlot(m.num, fp / BLK_SIZE)) == 0 && fs.NoZone()
    ensures FileGrown(v, zs, u, fs.cache.view, fs.zones, fs.Used(), m.num)
  {
    hide FileSys.Valid, Wrote, MapResult, ChunkStored, PinsKept, Ptr, DataSlot, FileSys.NoZone, OthersKept, OnlyFile,
      At, Entry, FileGrown;
    var blk := RoundBlock(fs, m, fp / BLK_SIZE, buf, w, v, zs, u, pos0, fpos);
    fs.MapSize();
    ghost var v2, zs2, u2 := fs.cache.view, fs.zones, fs.Used();
    if blk == 0 {
      return 0;
    }
    var offset := pos % BLK_SIZE;
    n := if BLK_SIZE - offset > left then left else BLK_SIZE - offset;
    if pos + n > m.size {
      m.size := pos + n;
      m.dirt := true;
    }
    WriteBlk(fs, m.num, fp / BLK_SIZE, blk, offset, n, buf, w);
    WroteChunk(v, zs, m.num, buf, pos0, fpos, w, n, v2, zs2, fs.cache.view);
    fs.MapSize();
    GrownTwice(v, zs, u, v2, zs2, u2, fs.cache.view, zs2, u2, m.num);
    OnlyFileStored(v, zs, v2, zs2, fs.cache.view, m.num, m.zone);
  }

  /** Only file ino changed, and its zones are these. */
  ghost predicate OnlyFile(v: View, zs: Zones, v': View, zs': Zones, ino: nat, zone: seq<nat>) {
    zs' == zs[ino := zone] && OthersKept(v, zs, v', zs', ino)
  }

  lemma OnlyFileOn(v: View, zs: Zones, v': View, zs': Zones, v'': View, zs'': Zones, ino: nat, zone: seq<nat>,
                   zone': seq<nat>)
    requires OnlyFile(v, zs, v', zs', ino, zone) && zs'' == zs'[ino := zone'] && OthersKept(v', zs', v'', zs'', ino)
    ensures OnlyFile(v, zs, v'', zs'', ino, zone')
  {
    OthersTwice(v, zs, v', zs', v'', zs'', ino);
  }

  lemma OnlyFileStored(v: View, zs: Zones, v': View, zs': Zones, v'': View, ino: nat, zone: seq<nat>)
    requires OnlyFile(v, zs, v', zs', ino, zone) && OthersKept(v', zs', v'', zs', ino)
    ensures OnlyFile(v, zs, v'', zs', ino, zone)
  {
    OthersTwice(v, zs, v', zs', v'', zs', ino);
  }

  lemma OnlyFileNot(v: View, zs: Zones, ino: nat)
    requires ino in zs
    ensures OnlyFile(v, zs, v, zs, ino, zs[ino])
  {
    OthersSelf(v, zs, ino);
  }

  /** file_wr (fs/file_rw.c:49-110), with and without O_APPEND: the first w bytes of buf are
      written, each at its landing place, and no byte of another file changes; w falls short
      of cnt only when no block could be had. */
  method FileWr(fs: FileSys, m: MemInode, f: OpenFile, buf: seq<Byte>, cnt: int) returns (w: nat)
    requires fs.Valid() && fs.Loaded(m) && m.cnt > 0 && |fs.cache.refs| + 2 < |fs.cache.h.key|
    requires cnt <= |buf| && f.pos + Max(cnt, 0) <= MAX_BYTES
    modifies fs, m`zone, m`dirt, m`size, fs.cache, f
    ensures fs.Valid() && fs.Loaded(m) && fs.cache.refs == old(fs.cache.refs)
    ensures |fs.cache.h.key| == |old(fs.cache.h.key)|
    ensures OnlyFile(old(fs.cache.view), old(fs.zones), fs.cache.view, fs.zones, m.num, m.zone)
    ensures w <= Max(cnt, 0) && w <= |buf| && f.pos == old(f.pos) + w
    ensures var pos := if f.append then old(m.size) else old(f.pos);
      && Wrote(old(fs.cache.view), old(fs.zones), m.num, buf, pos, old(f.pos), w, fs.cache.view, fs.zones)
      && m.size == if w > 0 then Max(old(m.size), pos + w) else old(m.size)
    ensures old(m.dirt) || m.zone != old(m.zone) || m.size != old(m.size) ==> m.dirt
    ensures FileGrown(old(fs.cache.view), old(fs.zones), old(fs.Used()), fs.cache.view, fs.zones, fs.Used(), m.num)
    ensures w < cnt ==> Ptr(fs.cache.view, fs.zones, DataSlot(m.num, f.pos / BLK_SIZE)) == 0 && fs.NoZone()
  {
    hide FileSys.Valid, FileSys.Loaded, Wrote, Ptr, DataSlot, FileSys.NoZone, OnlyFile, FileGrown, FileSystem.UsedOf;
    w := 0;
    var pos := if f.append then m.size else f.pos;
    ghost var v, zs, pos0, fpos, size := fs.cache.view, fs.zones, pos, f.pos, m.size;
    ghost var refs, heads := fs.cache.refs, |fs.cache.h.key|;
    WroteNone(v, zs, m.num, buf, pos0, fpos);
    fs.LoadedSame(m);
    OnlyFileNot(v, zs, m.num);
    fs.MapSize();
    ghost var u := fs.Used();
    GrownNot(v, zs, u, m.num);
    if cnt < 0 {
      return;
    }
    var left := cnt;
    while left > 0
      invariant 0 <= left <= cnt && w == cnt - left && pos == pos0 + w && f.pos == fpos + w
      invariant left > 0 ==> w == 0 || pos % BLK_SIZE == 0
      invariant fs.Valid() && fs.Loaded(m) && fs.cache.refs == refs && |fs.cache.h.key| == heads
      invariant OnlyFile(v, zs, fs.cache.view, fs.zones, m.num, m.zone)
      invariant Wrote(v, zs, m.num, buf, pos0, fpos, w, fs.cache.view, fs.zones)
      invariant |fs.zmap| == ZMAP_SLOTS && fs.nzones <= fs.first + ZMAP_SLOTS * Bitmap.BITS
      invariant FileGrown(v, zs, u, fs.cache.view, fs.zones, fs.Used(), m.num)
      invariant m.size == if w > 0 then Max(size, pos0 + w) else size
      invariant old(m.dirt) || m.zone != old(m.zone) || m.size != size ==> m.dirt
    {
      var chars := WriteRound(fs, m, f.pos, pos, left, buf, w, v, zs, u, pos0, fpos);
      fs.MapSize();
      if chars == 0 {
        break;
      }
      pos := pos + chars;
      left := left - chars;
      w := w + chars;
      f.pos := f.pos + chars;
    }
    if !f.append {
      f.pos := pos;
    }
  }

  lemma WroteMap(v: View, zs: Zones, ino: nat, buf: seq<Byte>, pos: nat, fpos: nat, k: nat, v': View, zs': Zones,
                 v'': View, zs'': Zones, s: Slot, fcrt: bool, r: nat, created: bool)
    requires k <= |buf| && Wrote(v, zs, ino, buf, pos, fpos, k, v', zs')
    requires IsData(s) && MapResult(v', zs', v'', zs'', s, fcrt, r, created)
    ensures Wrote(v, zs, ino, buf, pos, fpos, k, v'', zs'') && Ptr(v'', zs'', s) == r
  {
    WroteMapped(v, zs, ino, buf, pos, fpos, k, v', zs', v'', zs'', s, r);
  }
}
