/** The table of inodes in memory (fs/inode.c:9-168): a second write-back cache, over the
    blocks of the inode area, each of which holds 32 inodes of 32 bytes, and through the buffer
    cache. Inodes come into use by new_inode and go out of it by free_inode (fs/bitmap.c). */
module InodeTable {
  import opened Blocks
  import opened Bitmap
  import opened CacheState
  import opened BufferCache
  import opened FileTree
  import opened FileSystem

  const NR_INODE := 64
  const INODES_PER_BLK := 32
  const INODE_SIZE := 32
  const NR_INODES := ZMAP_SLOTS * BITS // the inode map has as many blocks as the zone map

  // Where the inode area begins and where format puts the data zones behind it
  // (fs/super.c:91-93): 1 + 1 + 8 + 8 blocks, and 2048 more.
  const INODE_AREA := 18
  const FIRST_DATAZONE := 18 + 8 * 8192 * 32 / 1024

  // ---------- inodes and their bytes ----------

  /** What is in a DEV_INODE (fs/fs.h:29-37). */
  datatype Inode = Inode(mode: nat, uid: nat, size: nat, mtime: nat, gid: nat, nlinks: nat, zone: seq<nat>)
  {
    /** Every field fits its bytes. */
    predicate Fits() {
      && mode < 0x1_0000 && uid < 0x1_0000 && size < 0x1_0000_0000 && mtime < 0x1_0000_0000
      && gid < 0x100 && nlinks < 0x100 && |zone| == 9 && forall z :: 0 <= z < 9 ==> zone[z] < 0x1_0000
    }
  }

  /** A DEV_INODE as it is on disk. */
  type Rec = s: seq<Byte> | |s| == INODE_SIZE witness seq(INODE_SIZE, _ => 0)

  function Word(r: Rec, o: nat): nat
    requires o + 2 <= INODE_SIZE
  {
    r[o] as int + 256 * (r[o + 1] as int)
  }

  function Long(r: Rec, o: nat): nat
    requires o + 4 <= INODE_SIZE
  {
    Word(r, o) + 0x1_0000 * Word(r, o + 2)
  }

  function Decoded(r: Rec): (x: Inode)
    ensures x.Fits()
  {
    Inode(Word(r, 0), Word(r, 2), Long(r, 4), Long(r, 8), r[12], r[13],
          seq(9, z requires 0 <= z < 9 => Word(r, 14 + 2 * z)))
  }

  /** Where the fields are in the 32 bytes, low bytes first. */
  lemma DecodedIs(r: Rec)
    ensures var b, x := seq(INODE_SIZE, k requires 0 <= k < INODE_SIZE => r[k] as int), Decoded(r);
      && x.mode == b[0] + 256 * b[1] && x.uid == b[2] + 256 * b[3]
      && x.size == b[4] + 256 * b[5] + 0x1_0000 * b[6] + 0x100_0000 * b[7]
      && x.mtime == b[8] + 256 * b[9] + 0x1_0000 * b[10] + 0x100_0000 * b[11]
      && x.gid == b[12] && x.nlinks == b[13]
      && |x.zone| == 9 && forall z :: 0 <= z < 9 ==> x.zone[z] == b[14 + 2 * z] + 256 * b[15 + 2 * z]
  {
  }

  /** Byte k of a number, least significant first. */
  function ByteOf(n: nat, k: nat): Byte {
    if k == 0 then n % 256 else ByteOf(n / 256, k - 1)
  }

  function Encoded(x: Inode): Rec
    requires x.Fits()
  {
    seq(INODE_SIZE, k requires 0 <= k < INODE_SIZE => FieldByte(x, k))
  }

  function FieldByte(x: Inode, k: nat): Byte
    requires x.Fits() && k < INODE_SIZE
  {
    if k < 2 then ByteOf(x.mode, k) else if k < 4 then ByteOf(x.uid, k - 2)
    else if k < 8 then ByteOf(x.size, k - 4) else if k < 12 then ByteOf(x.mtime, k - 8)
    else if k == 12 then x.gid else if k == 13 then x.nlinks
    else ByteOf(x.zone[(k - 14) / 2], (k - 14) % 2)
  }

  lemma WordOf(n: nat)
    requires n < 0x1_0000
    ensures ByteOf(n, 0) + 256 * ByteOf(n, 1) == n
  {
    assert ByteOf(n, 1) == ByteOf(n / 256, 0);
  }

  lemma LongOf(n: nat)
    requires n < 0x1_0000_0000
    ensures ByteOf(n, 0) + 256 * ByteOf(n, 1) + 0x1_0000 * (ByteOf(n, 2) + 256 * ByteOf(n, 3)) == n
  {
    var a := n / 256;
    var b := a / 256;
    assert ByteOf(n, 1) == ByteOf(a, 0);
    assert ByteOf(n, 2) == ByteOf(a, 1) == ByteOf(b, 0);
    assert ByteOf(n, 3) == ByteOf(a, 2) == ByteOf(b, 1);
    WordOf(b);
    hide ByteOf;
  }

  lemma EncodedWord(x: Inode, o: nat)
    requires x.Fits() && o + 2 <= INODE_SIZE
    ensures Word(Encoded(x), o) == FieldByte(x, o) + 256 * FieldByte(x, o + 1)
  {
    hide FieldByte;
  }

  lemma EncodedZone(x: Inode, z: nat)
    requires x.Fits() && z < 9
    ensures Word(Encoded(x), 14 + 2 * z) == x.zone[z]
  {
    EncodedWord(x, 14 + 2 * z);
    WordOf(x.zone[z]);
    hide ByteOf, Encoded;
    assert FieldByte(x, 14 + 2 * z) == ByteOf(x.zone[z], 0) && FieldByte(x, 15 + 2 * z) == ByteOf(x.zone[z], 1);
  }

  lemma EncodedHead(x: Inode)
    requires x.Fits()
    ensures Word(Encoded(x), 0) == x.mode && Word(Encoded(x), 2) == x.uid
    ensures Long(Encoded(x), 4) == x.size && Long(Encoded(x), 8) == x.mtime
    ensures Encoded(x)[12] == x.gid && Encoded(x)[13] == x.nlinks
  {
    EncodedWord(x, 0);
    EncodedWord(x, 2);
    EncodedWord(x, 4);
    EncodedWord(x, 6);
    EncodedWord(x, 8);
    EncodedWord(x, 10);
    WordOf(x.mode);
    WordOf(x.uid);
    LongOf(x.size);
    LongOf(x.mtime);
    hide ByteOf, Word;
  }

  /** What is written comes back. */
  lemma DecodedEncoded(x: Inode)
    requires x.Fits()
    ensures Decoded(Encoded(x)) == x
  {
    hide Encoded, Word, Long;
    EncodedHead(x);
    forall z | 0 <= z < 9
      ensures Decoded(Encoded(x)).zone[z] == x.zone[z]
    {
      EncodedZone(x, z);
    }
    assert Decoded(Encoded(x)).zone == x.zone;
  }

  // ---------- where an inode is on disk ----------

  function InoBlk(num: nat): nat {
    INODE_AREA + num / INODES_PER_BLK
  }

  function InoOff(num: nat): (o: nat)
    ensures o + INODE_SIZE <= BLK_SIZE
  {
    INODE_SIZE * (num % INODES_PER_BLK)
  }

  /** Two inodes have no byte in common, and all lie before the data zones. */
  lemma Apart(m: nat, n: nat, i: nat, j: nat)
    requires m < NR_INODES && n < NR_INODES && i < INODE_SIZE && j < INODE_SIZE
    ensures InoBlk(m) * BLK_SIZE + InoOff(m) + i == InoBlk(n) * BLK_SIZE + InoOff(n) + j ==> m == n && i == j
    ensures INODE_AREA <= InoBlk(m) < FIRST_DATAZONE
  {
    assert m == INODES_PER_BLK * (m / INODES_PER_BLK) + m % INODES_PER_BLK;
    assert n == INODES_PER_BLK * (n / INODES_PER_BLK) + n % INODES_PER_BLK;
  }

  /** Writing the bytes of one inode into its block. */
  function Spliced(b: Block, off: nat, r: Rec): Block
    requires off + INODE_SIZE <= BLK_SIZE
  {
    b[..off] + r + b[off + INODE_SIZE..]
  }

  /** The blocks before the data zones. */
  type Low = imap<nat, Block>

  function LowAt(low: Low, n: nat): Block {
    if n in low then low[n] else ZeroBlock()
  }

  /** The bytes of an inode on disk. */
  function OnDisk(low: Low, num: nat): Rec {
    LowAt(low, InoBlk(num))[InoOff(num)..InoOff(num) + INODE_SIZE]
  }

  /** The record of inode num is bytes 32 * (num % 32) to 32 * (num % 32) + 31 of block 18 + num / 32. */
  lemma OnDiskIs(v: View, first: nat, low: Low, num: nat, k: nat)
    requires LowOk(v, first, low) && FIRST_DATAZONE <= first && num < NR_INODES && k < INODE_SIZE
    ensures OnDisk(low, num)[k] == At(v, 18 + num / 32)[32 * (num % 32) + k]
  {
    hide At;
    Apart(num, num, 0, 0);
    LowIs(v, first, low, InoBlk(num));
  }

  function Written(low: Low, num: nat, r: Rec): Low {
    low[InoBlk(num) := Spliced(LowAt(low, InoBlk(num)), InoOff(num), r)]
  }

  /** Writing one inode back changes the bytes of that inode and of no other. */
  lemma WrittenIs(low: Low, k: nat, r: Rec, q: nat)
    ensures OnDisk(Written(low, k, r), q) == if q == k then r else OnDisk(low, q)
  {
    if InoBlk(k) == InoBlk(q) {
      SplicedAt(LowAt(low, InoBlk(k)), k % INODES_PER_BLK, q % INODES_PER_BLK, r);
      assert k == INODES_PER_BLK * (k / INODES_PER_BLK) + k % INODES_PER_BLK;
      assert q == INODES_PER_BLK * (q / INODES_PER_BLK) + q % INODES_PER_BLK;
    }
  }

  lemma SplicedAt(b: Block, i: nat, j: nat, r: Rec)
    requires i < INODES_PER_BLK && j < INODES_PER_BLK
    ensures Spliced(b, INODE_SIZE * i, r)[INODE_SIZE * j..INODE_SIZE * j + INODE_SIZE]
      == if i == j then r else b[INODE_SIZE * j..INODE_SIZE * j + INODE_SIZE]
  {
    var s, o := Spliced(b, INODE_SIZE * i, r), INODE_SIZE * j;
    assert INODE_SIZE * i + INODE_SIZE <= o || o + INODE_SIZE <= INODE_SIZE * i || i == j;
    assert s[o..o + INODE_SIZE] == if i == j then r else b[o..o + INODE_SIZE];
  }

  // ---------- the invariant ----------

  /** An entry of inode_table: what is on disk too, and what is not. */
  datatype Mem = Mem(ino: Inode, dev: nat, num: nat, cnt: nat, dirt: bool, valid: bool)

  function NoZones(): seq<nat> {
    seq(9, _ => 0)
  }

  function Blank(): Mem {
    Mem(Inode(0, 0, 0, 0, 0, 0, NoZones()), 0, 0, 0, false, false)
  }

  /** The table over the inode area; what every inode in use is; and where it is in the table. */
  datatype Inodes = Inodes(mem: seq<Mem>, low: Low, ino: map<nat, Inode>, at: map<nat, nat>)

  /** An entry of an inode is the only one, and if it is clean the disk has the same. An entry
      without one has no zones. */
  ghost predicate MemOk(c: Inodes, i: nat)
    requires i < |c.mem|
  {
    var s := c.mem[i];
    if s.dev == 0 then !s.dirt && s.ino.zone == NoZones() && s.ino.Fits()
    else
      && s.dev == ROOT_DEV && s.valid && s.num in c.at && c.at[s.num] == i
      && (!s.dirt ==> s.ino == Decoded(OnDisk(c.low, s.num)))
  }

  /** What an inode is: its entry if it has one, else what is on disk. */
  ghost function Logical(c: Inodes, k: nat): Inode {
    if k in c.at && c.at[k] < |c.mem| then c.mem[c.at[k]].ino else Decoded(OnDisk(c.low, k))
  }

  ghost predicate AtOk(c: Inodes, k: nat) {
    k in c.at && k in c.ino && c.at[k] < |c.mem| && c.mem[c.at[k]].dev != 0 && c.mem[c.at[k]].num == k
  }

  ghost predicate InoOk(c: Inodes, k: nat) {
    k in c.ino && 0 < k < NR_INODES && c.ino[k].Fits() && c.ino[k] == Logical(c, k)
  }

  ghost predicate Consistent(c: Inodes) {
    && |c.mem| == NR_INODE
    && (forall i :: 0 <= i < NR_INODE ==> MemOk(c, i))
    && (forall k :: k in c.at ==> AtOk(c, k))
    && (forall k :: k in c.ino ==> InoOk(c, k))
  }

  /** Entry j and inode q are in order. */
  ghost predicate Right(c: Inodes, j: nat, q: nat) {
    && |c.mem| == NR_INODE && (j < NR_INODE ==> MemOk(c, j))
    && (q in c.at ==> AtOk(c, q)) && (q in c.ino ==> InoOk(c, q))
  }

  lemma Together(c: Inodes)
    requires forall j: nat, q: nat :: Right(c, j, q)
    ensures Consistent(c)
  {
    assert Right(c, 0, 0);
    forall i | 0 <= i < NR_INODE
      ensures MemOk(c, i)
    {
      assert Right(c, i, 0);
    }
    forall k: nat | k in c.at || k in c.ino
      ensures (k in c.at ==> AtOk(c, k)) && (k in c.ino ==> InoOk(c, k))
    {
      assert Right(c, 0, k);
    }
  }

  lemma EntryIs(c: Inodes, i: nat)
    requires Consistent(c) && i < NR_INODE
    ensures |c.mem| == NR_INODE && MemOk(c, i)
    ensures c.mem[i].dev != 0 ==> c.mem[i].num in c.ino && c.mem[i].num in c.at && c.at[c.mem[i].num] == i
    ensures c.mem[i].dev != 0 ==> c.ino[c.mem[i].num] == c.mem[i].ino
    ensures c.mem[i].dev != 0 ==> c.mem[i].ino.Fits() && 0 < c.mem[i].num < NR_INODES && c.mem[i].dev == ROOT_DEV
    ensures c.mem[i].dev != 0 ==> c.mem[i].valid
  {
    assert MemOk(c, i);
  }

  /** write_dev_inode on entry i (fs/inode.c:57-78). */
  ghost function PutBack(c: Inodes, i: nat): Inodes
    requires i < |c.mem| && c.mem[i].ino.Fits()
  {
    var s := c.mem[i];
    c.(mem := c.mem[i := s.(dirt := false)], low := Written(c.low, s.num, Encoded(s.ino)))
  }

  lemma PutBackAt(c: Inodes, i: nat, j: nat, q: nat)
    requires Consistent(c) && |c.mem| == NR_INODE && i < NR_INODE && c.mem[i].dev != 0
    requires c.mem[i].ino.Fits()
    ensures Right(PutBack(c, i), j, q)
  {
    hide Written, OnDisk, Decoded, Encoded, Inode.Fits, NoZones;
    assert MemOk(c, i) && (j < NR_INODE ==> MemOk(c, j));
    assert q in c.at ==> AtOk(c, q);
    assert q in c.ino ==> InoOk(c, q);
    var s := c.mem[i];
    DecodedEncoded(s.ino);
    WrittenIs(c.low, s.num, Encoded(s.ino), q);
    if j < NR_INODE {
      WrittenIs(c.low, s.num, Encoded(s.ino), c.mem[j].num);
    }
  }

  lemma PutBackConsistent(c: Inodes, i: nat)
    requires Consistent(c) && |c.mem| == NR_INODE && i < NR_INODE && c.mem[i].dev != 0
    ensures c.mem[i].ino.Fits() && Consistent(PutBack(c, i))
  {
    hide *;
    EntryIs(c, i);
    forall j: nat, q: nat
      ensures Right(PutBack(c, i), j, q)
    {
      PutBackAt(c, i, j, q);
    }
    Together(PutBack(c, i));
  }

  /** Entry i takes in inode k, which is in no entry, from disk; entry i was clean. */
  ghost function Loaded(c: Inodes, i: nat, k: nat): Inodes
    requires i < |c.mem|
  {
    c.(mem := c.mem[i := Mem(Decoded(OnDisk(c.low, k)), ROOT_DEV, k, 1, false, true)],
       at := MovedIn(c.at, i, k))
  }

  /** Where inodes are after entry i was given to inode k. */
  function MovedIn(at: map<nat, nat>, i: nat, k: nat): map<nat, nat> {
    (map q | q in at && at[q] != i :: at[q])[k := i]
  }

  lemma MovedInIs(at: map<nat, nat>, i: nat, k: nat)
    ensures forall q :: q in MovedIn(at, i, k) <==> q == k || (q in at && at[q] != i)
    ensures forall q :: q in MovedIn(at, i, k) ==> MovedIn(at, i, k)[q] == if q == k then i else at[q]
  {
  }

  lemma LoadedIs(c: Inodes, k: nat)
    requires Consistent(c) && k in c.ino && k !in c.at
    ensures Decoded(OnDisk(c.low, k)) == c.ino[k]
  {
    hide OnDisk, Decoded;
    assert InoOk(c, k);
  }

  lemma LoadedAt(c: Inodes, i: nat, k: nat, j: nat, q: nat)
    requires Consistent(c) && |c.mem| == NR_INODE && i < NR_INODE && !c.mem[i].dirt && k in c.ino && k !in c.at
    ensures Right(Loaded(c, i, k), j, q)
  {
    hide OnDisk, Decoded, Inode.Fits, MovedIn, NoZones;
    assert MemOk(c, i) && (j < NR_INODE ==> MemOk(c, j));
    assert q in c.at ==> AtOk(c, q);
    assert q in c.ino ==> InoOk(c, q);
    MovedInIs(c.at, i, k);
    assert InoOk(c, k);
  }

  lemma LoadedConsistent(c: Inodes, i: nat, k: nat)
    requires Consistent(c) && |c.mem| == NR_INODE && i < NR_INODE && !c.mem[i].dirt && k in c.ino && k !in c.at
    ensures Consistent(Loaded(c, i, k)) && Decoded(OnDisk(c.low, k)) == c.ino[k]
  {
    hide *;
    LoadedIs(c, k);
    forall j: nat, q: nat
      ensures Right(Loaded(c, i, k), j, q)
    {
      LoadedAt(c, i, k, j, q);
    }
    Together(Loaded(c, i, k));
  }

  /** What is in entry i changes to x, and it is marked as changed, or not. */
  ghost function Changed(c: Inodes, i: nat, x: Inode, mark: bool): Inodes
    requires i < |c.mem|
  {
    c.(mem := c.mem[i := c.mem[i].(ino := x, dirt := c.mem[i].dirt || mark)], ino := c.ino[c.mem[i].num := x])
  }

  /** The table stays in order exactly if the change is marked, or the inode was already, or
      nothing changes. */
  lemma ChangedConsistent(c: Inodes, i: nat, x: Inode, mark: bool)
    requires Consistent(c) && |c.mem| == NR_INODE && i < NR_INODE && c.mem[i].dev != 0 && x.Fits()
    ensures Consistent(Changed(c, i, x, mark)) <==> mark || c.mem[i].dirt || x == c.mem[i].ino
  {
    hide *;
    if mark || c.mem[i].dirt || x == c.mem[i].ino {
      forall j: nat, q: nat
        ensures Right(Changed(c, i, x, mark), j, q)
      {
        ChangedAt(c, i, x, mark, j, q);
      }
      Together(Changed(c, i, x, mark));
    } else {
      ChangedNot(c, i, x);
    }
  }

  lemma ChangedAt(c: Inodes, i: nat, x: Inode, mark: bool, j: nat, q: nat)
    requires Consistent(c) && |c.mem| == NR_INODE && i < NR_INODE && c.mem[i].dev != 0 && x.Fits()
    requires mark || c.mem[i].dirt || x == c.mem[i].ino
    ensures Right(Changed(c, i, x, mark), j, q)
  {
    hide OnDisk, Decoded, Inode.Fits, NoZones;
    assert MemOk(c, i) && (j < NR_INODE ==> MemOk(c, j));
    assert AtOk(c, c.mem[i].num);
    assert q in c.at ==> AtOk(c, q);
    assert q in c.ino ==> InoOk(c, q);
    assert InoOk(c, c.mem[i].num);
  }

  lemma ChangedNot(c: Inodes, i: nat, x: Inode)
    requires Consistent(c) && |c.mem| == NR_INODE && i < NR_INODE && c.mem[i].dev != 0 && !c.mem[i].dirt
    requires x != c.mem[i].ino
    ensures !Consistent(Changed(c, i, x, false))
  {
    hide OnDisk, Decoded, Inode.Fits, NoZones, AtOk, InoOk;
    assert MemOk(c, i);
    assert !MemOk(Changed(c, i, x, false), i);
  }

  /** What iget yields for the inode of entry i after it was changed to x, marked or not, let go,
      and its entry reused for inode k: entry j takes it in again. */
  ghost function FetchedAgain(c: Inodes, i: nat, x: Inode, mark: bool, k: nat, j: nat): Inode
    requires i < |c.mem| && j < |c.mem| && x.Fits()
  {
    var c1 := Changed(c, i, x, mark);
    var c2 := if c1.mem[i].dirt then PutBack(c1, i) else c1; // iput or sync_dev_inodes
    Loaded(Loaded(c2, i, k), j, c.mem[i].num).mem[j].ino
  }

  /** That is x exactly if the change was marked, or the inode was already, or nothing changed. */
  lemma ChangeSurvives(c: Inodes, i: nat, x: Inode, mark: bool, k: nat, j: nat)
    requires Consistent(c) && |c.mem| == NR_INODE && i < NR_INODE && j < NR_INODE && c.mem[i].dev != 0 && x.Fits()
    ensures (FetchedAgain(c, i, x, mark, k, j) == x <==> mark || c.mem[i].dirt || x == c.mem[i].ino)
    ensures !mark && !c.mem[i].dirt ==> FetchedAgain(c, i, x, mark, k, j) == c.mem[i].ino
  {
    EntryIs(c, i);
    DecodedEncoded(x);
    hide OnDisk, Written, Decoded, Encoded, Consistent, Inode.Fits;
    WrittenIs(c.low, c.mem[i].num, Encoded(x), c.mem[i].num);
  }

  /** What clear_iblks leaves of an inode. */
  function EmptiedIno(x: Inode): Inode {
    if IsReg(x.mode) then x.(zone := NoZones(), size := 0) else x
  }

  lemma EmptiedFits(x: Inode)
    requires x.Fits()
    ensures EmptiedIno(x).Fits()
  {
  }

  /** clear_iblks empties an inode and leaves it unmarked: if it was clean, it is fetched again as
      it was before, with the blocks that were given back. */
  lemma EmptiedComesBack(c: Inodes, i: nat, k: nat, j: nat)
    requires Consistent(c) && |c.mem| == NR_INODE && i < NR_INODE && j < NR_INODE && c.mem[i].dev != 0 && !c.mem[i].dirt
    requires EmptiedIno(c.mem[i].ino).Fits()
    ensures FetchedAgain(c, i, EmptiedIno(c.mem[i].ino), false, k, j) == c.mem[i].ino
  {
    ChangeSurvives(c, i, EmptiedIno(c.mem[i].ino), false, k, j);
  }

  /** Only the count of entry i changes. */
  ghost function Counted(c: Inodes, i: nat, n: nat): Inodes
    requires i < |c.mem|
  {
    c.(mem := c.mem[i := c.mem[i].(cnt := n)])
  }

  lemma CountAt(c: Inodes, i: nat, n: nat, j: nat, q: nat)
    requires Consistent(c) && |c.mem| == NR_INODE && i < NR_INODE
    ensures Right(Counted(c, i, n), j, q)
  {
    hide OnDisk, Decoded, Inode.Fits, NoZones;
    assert MemOk(c, i) && (j < NR_INODE ==> MemOk(c, j));
    assert q in c.at ==> AtOk(c, q);
    assert q in c.ino ==> InoOk(c, q);
  }

  lemma CountConsistent(c: Inodes, i: nat, n: nat)
    requires Consistent(c) && |c.mem| == NR_INODE && i < NR_INODE
    ensures Consistent(Counted(c, i, n))
  {
    hide *;
    forall j: nat, q: nat
      ensures Right(Counted(c, i, n), j, q)
    {
      CountAt(c, i, n, j, q);
    }
    Together(Counted(c, i, n));
  }

  /** What new_inode and its callers put into an entry: size and zones are those that it had. */
  function Renewed(x: Inode, uid: nat, mode: nat, mtime: nat): Inode {
    x.(uid := uid, mode := mode, mtime := mtime, gid := 0, nlinks := 1)
  }

  /** Inode k, which was not in use, comes into use as x, in entry i, which was clean. */
  ghost function Made(c: Inodes, i: nat, k: nat, x: Inode): Inodes
    requires i < |c.mem|
  {
    c.(mem := c.mem[i := Mem(x, ROOT_DEV, k, 1, true, true)], ino := c.ino[k := x],
       at := MovedIn(c.at, i, k))
  }

  lemma MadeAt(c: Inodes, i: nat, k: nat, x: Inode, j: nat, q: nat)
    requires Consistent(c) && |c.mem| == NR_INODE && i < NR_INODE && !c.mem[i].dirt && k !in c.ino
    requires 0 < k < NR_INODES && x.Fits()
    ensures Right(Made(c, i, k, x), j, q)
  {
    hide OnDisk, Decoded, Inode.Fits, MovedIn, NoZones;
    assert MemOk(c, i) && (j < NR_INODE ==> MemOk(c, j));
    assert q in c.at ==> AtOk(c, q);
    assert q in c.ino ==> InoOk(c, q);
    MovedInIs(c.at, i, k);
  }

  lemma MadeConsistent(c: Inodes, i: nat, k: nat, x: Inode)
    requires Consistent(c) && |c.mem| == NR_INODE && i < NR_INODE && !c.mem[i].dirt && k !in c.ino
    requires 0 < k < NR_INODES && x.Fits()
    ensures Consistent(Made(c, i, k, x))
  {
    hide *;
    forall j: nat, q: nat
      ensures Right(Made(c, i, k, x), j, q)
    {
      MadeAt(c, i, k, x, j, q);
    }
    Together(Made(c, i, k, x));
  }

  /** The inode of entry i goes out of use and the entry is cleared. */
  ghost function Unmade(c: Inodes, i: nat): Inodes
    requires i < |c.mem|
  {
    var k := c.mem[i].num;
    c.(mem := c.mem[i := Blank()], ino := c.ino - {k}, at := c.at - {k})
  }

  lemma BlankFits()
    ensures Blank().ino.Fits()
  {
  }

  lemma UnmadeAt(c: Inodes, i: nat, j: nat, q: nat)
    requires Consistent(c) && |c.mem| == NR_INODE && i < NR_INODE && c.mem[i].dev != 0
    ensures Right(Unmade(c, i), j, q)
  {
    hide OnDisk, Decoded, Inode.Fits, NoZones;
    BlankFits();
    assert MemOk(c, i) && (j < NR_INODE ==> MemOk(c, j));
    assert q in c.at ==> AtOk(c, q);
    assert q in c.ino ==> InoOk(c, q);
  }

  lemma UnmadeConsistent(c: Inodes, i: nat)
    requires Consistent(c) && |c.mem| == NR_INODE && i < NR_INODE && c.mem[i].dev != 0
    ensures Consistent(Unmade(c, i))
  {
    hide *;
    forall j: nat, q: nat
      ensures Right(Unmade(c, i), j, q)
    {
      UnmadeAt(c, i, j, q);
    }
    Together(Unmade(c, i));
  }

  /** Entries have only become clean, and every inode is what and where it was. */
  ghost predicate Kept(c: Inodes, c': Inodes) {
    && c'.ino == c.ino && c'.at == c.at && |c'.mem| == |c.mem|
    && forall i :: 0 <= i < |c.mem| ==> Cleaner(c.mem[i], c'.mem[i])
  }

  predicate Cleaner(s: Mem, s': Mem): (r: bool)
    ensures r ==> s'.ino == s.ino && s'.dev == s.dev && s'.num == s.num && s'.cnt == s.cnt && s'.valid == s.valid
    ensures r ==> s'.dirt ==> s.dirt
  {
    s' == s || s' == s.(dirt := false)
  }

  lemma KeptSelf(c: Inodes)
    ensures Kept(c, c)
  {
  }

  lemma PutBackKept(c: Inodes, i: nat)
    requires i < |c.mem| && c.mem[i].ino.Fits()
    ensures Kept(c, PutBack(c, i))
  {
  }

  lemma KeptTwice(c: Inodes, c': Inodes, c'': Inodes)
    requires Kept(c, c') && Kept(c', c'')
    ensures Kept(c, c'')
  {
    forall i | 0 <= i < |c.mem|
      ensures Cleaner(c.mem[i], c''.mem[i])
    {
      assert Cleaner(c.mem[i], c'.mem[i]) && Cleaner(c'.mem[i], c''.mem[i]);
    }
  }

  lemma NoInodes(c: Inodes)
    requires c.mem == seq(NR_INODE, _ => Blank()) && c.ino == map[] && c.at == map[]
    ensures Consistent(c)
  {
    forall i | 0 <= i < NR_INODE
      ensures MemOk(c, i)
    {
    }
  }

  lemma AtIs(c: Inodes, k: nat)
    requires Consistent(c) && k in c.at
    ensures c.at[k] < |c.mem| == NR_INODE && c.mem[c.at[k]].num == k && c.mem[c.at[k]].dev != 0 && k in c.ino
  {
    assert AtOk(c, k);
  }

  lemma NotInTable(c: Inodes, k: nat)
    requires Consistent(c) && |c.mem| == NR_INODE
    requires forall q :: 0 <= q < NR_INODE ==> !(c.mem[q].dev == ROOT_DEV && c.mem[q].num == k)
    ensures k !in c.at
  {
    hide Consistent;
    if k in c.at {
      AtIs(c, k);
      EntryIs(c, c.at[k]);
    }
  }

  // ---------- which entry get_empty_inode takes ----------

  /** The k-th entry that the scan from both ends looks at: 0, 63, 1, 62, and so on. */
  function Looked(k: nat): (i: nat)
    requires k < NR_INODE
    ensures i < NR_INODE
  {
    if k % 2 == 0 then k / 2 else NR_INODE - 1 - k / 2
  }

  /** The first of them from the k-th on that nobody holds and, if asked for, that is clean. */
  function FreeFrom(mem: seq<Mem>, k: nat, clean: bool): (r: nat)
    requires |mem| == NR_INODE && k <= NR_INODE
    ensures k <= r <= NR_INODE
    ensures r < NR_INODE ==> mem[Looked(r)].cnt == 0 && (clean ==> !mem[Looked(r)].dirt)
    ensures forall q :: k <= q < r ==> mem[Looked(q)].cnt > 0 || (clean && mem[Looked(q)].dirt)
    decreases NR_INODE - k
  {
    if k == NR_INODE || (mem[Looked(k)].cnt == 0 && (clean ==> !mem[Looked(k)].dirt)) then k else FreeFrom(mem, k + 1, clean)
  }

  predicate Free(s: Mem) {
    s.cnt == 0 && !s.dirt
  }

  /** None of the first k entries looked at is free. */
  ghost predicate NoneFree(mem: seq<Mem>, k: nat) {
    |mem| == NR_INODE && k <= NR_INODE && forall q :: 0 <= q < k ==> !Free(mem[Looked(q)])
  }

  lemma NoneFreeNext(mem: seq<Mem>, k: nat)
    requires NoneFree(mem, k) && k < NR_INODE && !Free(mem[Looked(k)])
    ensures NoneFree(mem, k + 1)
  {
  }

  lemma FreeIs(mem: seq<Mem>, k: nat)
    requires NoneFree(mem, k) && (k < NR_INODE ==> Free(mem[Looked(k)]))
    ensures FreeFrom(mem, 0, true) == k
  {
    hide Looked;
  }

  lemma LookedPair(i: nat)
    requires i < 32
    ensures Looked(2 * i) == i && Looked(2 * i + 1) == NR_INODE - 1 - i
  {
  }

  /** Some entry is held by nobody. */
  ghost predicate HasRoom(mem: seq<Mem>) {
    |mem| == NR_INODE && exists i :: 0 <= i < NR_INODE && mem[i].cnt == 0
  }

  /** The entry that get_empty_inode yields: the first one clean and not held, or, if there is
      none, the first one not held. */
  function Victim(mem: seq<Mem>): (i: nat)
    requires |mem| == NR_INODE
    ensures i < NR_INODE
  {
    var a, b := FreeFrom(mem, 0, true), FreeFrom(mem, 0, false);
    if a < NR_INODE then Looked(a) else if b < NR_INODE then Looked(b) else 0
  }

  /** Every entry is looked at. */
  lemma LookedAll(i: nat) returns (k: nat)
    requires i < NR_INODE
    ensures k < NR_INODE && Looked(k) == i && k == if i < 32 then 2 * i else 127 - 2 * i
  {
    k := if i < 32 then 2 * i else 2 * (NR_INODE - 1 - i) + 1;
  }

  lemma VictimIs(mem: seq<Mem>)
    requires HasRoom(mem)
    ensures mem[Victim(mem)].cnt == 0
    ensures (exists i :: 0 <= i < NR_INODE && mem[i].cnt == 0 && !mem[i].dirt) <==> FreeFrom(mem, 0, true) < NR_INODE
    ensures FreeFrom(mem, 0, false) < NR_INODE
  {
    hide Looked, FreeFrom;
    forall i | 0 <= i < NR_INODE
      ensures mem[i].cnt == 0 ==> FreeFrom(mem, 0, false) < NR_INODE
      ensures mem[i].cnt == 0 && !mem[i].dirt ==> FreeFrom(mem, 0, true) < NR_INODE
    {
      var k := LookedAll(i);
    }
  }

  /** No other entry that is not held comes before it: clean entries come first, and among those
      that are alike entry i has turn 2 * i, and entry 63 - i turn 2 * i + 1. */
  lemma VictimFirst(mem: seq<Mem>, i: nat)
    requires |mem| == NR_INODE && i < NR_INODE && mem[i].cnt == 0
    ensures var r := Victim(mem); mem[r].cnt == 0 && (!mem[i].dirt ==> !mem[r].dirt)
    ensures var r := Victim(mem); mem[i].dirt == mem[r].dirt ==>
      (if r < 32 then 2 * r else 127 - 2 * r) <= if i < 32 then 2 * i else 127 - 2 * i
  {
    VictimIs(mem);
    var k := LookedAll(i);
    var a, b := FreeFrom(mem, 0, true), FreeFrom(mem, 0, false);
    hide FreeFrom;
    var f := if a < NR_INODE then a else b;
    assert Victim(mem) == Looked(f) && (f % 2 == 0 <==> Looked(f) < 32);
  }

  /** Once all entries are clean it is the first one not held. */
  lemma {:induction false} AllClean(mem: seq<Mem>, mem': seq<Mem>, k: nat)
    requires |mem| == |mem'| == NR_INODE && k <= NR_INODE
    requires forall i :: 0 <= i < NR_INODE ==> mem'[i].cnt == mem[i].cnt && !mem'[i].dirt
    ensures FreeFrom(mem', k, true) == FreeFrom(mem, k, false)
    decreases NR_INODE - k
  {
    hide Looked;
    if k < NR_INODE {
      AllClean(mem, mem', k + 1);
    }
  }

  // ---------- the code ----------

  /** The same blocks are held, in the same buffers. */
  ghost predicate HoldsKept(c: State, c': State) {
    c'.refs == c.refs && |c'.key| == |c.key| && PinsKept(c, c')
  }

  lemma HoldsTwice(c: State, c': State, c'': State)
    requires HoldsKept(c, c') && HoldsKept(c', c'')
    ensures HoldsKept(c, c'')
  {
    PinsTwice(c, c', c'');
  }

  lemma HoldsSizes(c: State, c': State)
    requires HoldsKept(c, c')
    ensures c'.refs == c.refs && |c'.key| == |c.key|
  {
  }

  lemma HoldsSelf(c: State)
    ensures HoldsKept(c, c)
  {
  }

  /** getbuf (fs/blk_rw.c:11-26), for an inode. */
  method GetBuf(fs: FileSys, nr: nat, off: nat) returns (r: Rec)
    requires fs.Base() && |fs.cache.refs| < |fs.cache.h.key| && off + INODE_SIZE <= BLK_SIZE
    modifies fs.cache
    ensures fs.Base() && fs.cache.view == old(fs.cache.view) && HoldsKept(old(fs.cache.Now()), fs.cache.Now())
    ensures r == At(fs.cache.view, nr)[off..off + INODE_SIZE]
  {
    hide Cache.Valid, PinsKept, State.Only, Dropped, Raised, Cache.Room;
    var k := BlkKey(nr);
    ghost var was := fs.cache.Now();
    fs.cache.HoldDropped(k);
    fs.cache.Roomy(k);
    var b := fs.cache.Bread(k);
    ghost var s1 := fs.cache.Now();
    fs.cache.Reads(b, k);
    r := fs.cache.h.data[b][off..off + INODE_SIZE];
    fs.cache.Brelse(b, k);
    PinsTwice(was, s1, fs.cache.Now());
  }

  /** setbuf (fs/blk_rw.c:29-43), for an inode: one block of the inode area changes, and no file. */
  method SetBuf(fs: FileSys, nr: nat, off: nat, r: Rec)
    requires fs.Valid() && 0 < nr < fs.first && |fs.cache.refs| < |fs.cache.h.key| && off + INODE_SIZE <= BLK_SIZE
    modifies fs.cache, fs.area
    ensures fs.Valid() && HoldsKept(old(fs.cache.Now()), fs.cache.Now())
    ensures fs.area.blocks == old(fs.area.blocks)[nr := Spliced(LowAt(old(fs.area.blocks), nr), off, r)]
    ensures StillThere(old(fs.cache.view), fs.zones, fs.cache.view, fs.zones)
  {
    hide Cache.Valid, PinsKept, State.Only, Dropped, Raised, Cache.Room, Owned, StillThere, UsedOf, LowOk, Spliced;
    var k := BlkKey(nr);
    ghost var was, v, low := fs.cache.Now(), fs.cache.view, fs.area.blocks;
    fs.UsedRange();
    fs.cache.Total();
    fs.cache.HoldDropped(k);
    fs.cache.Roomy(k);
    var b := fs.cache.Bread(k);
    ghost var s1 := fs.cache.Now();
    fs.cache.Reads(b, k);
    var d := Spliced(fs.cache.h.data[b], off, r);
    LowChanged(v, fs.first, low, nr, d);
    LowWrite(v, fs.zones, fs.Used(), fs.owner, fs.first, nr, d);
    fs.cache.Store(b, k, d);
    fs.area.blocks := low[nr := d];
    ghost var s2 := fs.cache.Now();
    PinsTwice(was, s1, s2);
    fs.cache.Brelse(b, k);
    PinsTwice(was, s2, fs.cache.Now());
  }

  lemma LowChanged(v: View, first: nat, low: Low, n: nat, d: Block)
    requires LowOk(v, first, low) && n < first
    ensures LowAt(low, n) == At(v, n) && LowOk(v[BlkKey(n) := d], first, low[n := d])
  {
  }

  lemma LowIs(v: View, first: nat, low: Low, n: nat)
    requires LowOk(v, first, low) && n < first
    ensures LowAt(low, n) == At(v, n)
  {
  }

  ghost function Snap(m: MemInode): Mem
    reads m
  {
    Mem(Inode(m.mode, m.uid, m.size, m.mtime, m.gid, m.nlinks, m.zone), m.dev, m.num, m.cnt, m.dirt, m.valid)
  }

  /** Each inode in use is marked in the inode map, and its zones are those of the file trees. */
  ghost predicate InUseOk(imaps: seq<Block>, ino: map<nat, Inode>, zs: Zones) {
    && |imaps| == ZMAP_SLOTS && ZBit(imaps, 0)
    && zs.Keys == ino.Keys && forall k :: k in ino ==> k < NR_INODES && ZBit(imaps, k) && zs[k] == ino[k].zone
  }

  predicate NoAlias(obj: seq<MemInode>) {
    forall j, k :: 0 <= j < k < |obj| ==> obj[j] != obj[k]
  }

  lemma OthersThan(obj: seq<MemInode>, i: nat)
    requires NoAlias(obj) && i < |obj|
    ensures forall j :: 0 <= j < |obj| && j != i ==> obj[j] != obj[i]
  {
  }

  /** The entries of inode_table, all zeros. */
  method Entries() returns (o: seq<MemInode>)
    ensures |o| == NR_INODE && NoAlias(o) && forall j :: 0 <= j < |o| ==> fresh(o[j]) && Snap(o[j]) == Blank()
  {
    o := [];
    while |o| < NR_INODE
      invariant |o| <= NR_INODE && forall j :: 0 <= j < |o| ==> fresh(o[j]) && Snap(o[j]) == Blank()
      invariant NoAlias(o)
    {
      var m := new MemInode();
      o := o + [m];
    }
  }

  class Table {
    const fs: FileSys
    const obj: seq<MemInode> // inode_table
    var imaps: seq<Block>    // the buffers at sb_imap_bh_ptr[]

    ghost var mem: seq<Mem>         // what is in the entries
    ghost var ino: map<nat, Inode>  // what every inode in use is
    ghost var at: map<nat, nat>     // which entry it is in, if it is in one

    ghost function Now(): Inodes
      reads this`mem, this`ino, this`at, fs.area
    {
      Inodes(mem, fs.area.blocks, ino, at)
    }

    /** The entries are those recorded, except perhaps entry i. */
    ghost predicate MirrorBut(i: int)
      reads this`mem, obj
    {
      && |obj| == |mem| == NR_INODE
      && NoAlias(obj)
      && forall j :: 0 <= j < NR_INODE && j != i ==> Snap(obj[j]) == mem[j]
    }

    /** The table and the inode map are in order. */
    ghost predicate Tables()
      reads this, obj, fs, fs.area
    {
      MirrorBut(-1) && FIRST_DATAZONE <= fs.first && Consistent(Now()) && InUseOk(imaps, ino, fs.zones)
    }

    /** Everything is in order but for the ownership of blocks. */
    ghost predicate Sound()
      reads this, obj, fs, fs.cache, fs.area
    {
      Tables() && fs.Base()
    }

    ghost predicate Valid()
      reads this, obj, fs, fs.cache, fs.area
    {
      Tables() && fs.Valid()
    }

    /** init_inodes (fs/inode.c:166-169), and the inode map as format leaves it, with inode 0
        marked (fs/super.c:105-131). */
    constructor (fs: FileSys)
      requires fs.Valid() && FIRST_DATAZONE <= fs.first && fs.zones == map[]
      ensures Valid() && this.fs == fs && forall j :: 0 <= j < |obj| ==> fresh(obj[j])
      ensures ino == map[] && mem == seq(NR_INODE, _ => Blank()) && at == map[] && |obj| == 64
      ensures imaps == seq(ZMAP_SLOTS, _ => ZeroBlock())[0 := SetBit(ZeroBlock(), 0, true)]
    {
      var o := Entries();
      this.fs, obj := fs, o;
      imaps := seq(ZMAP_SLOTS, _ => ZeroBlock())[0 := SetBit(ZeroBlock(), 0, true)];
      mem, ino, at := seq(NR_INODE, _ => Blank()), map[], map[];
      new;
      SetBitIs(ZeroBlock(), 0, true, 0);
      hide FileSys.Base, Owned, Bit, SetBit, NoAlias, Consistent;
      NoInodes(Now());
    }

    /** i_dirt of entry i is set. */
    method SetDirt(i: nat, d: bool)
      requires MirrorBut(-1) && i < NR_INODE
      modifies this`mem, obj[i]
      ensures MirrorBut(-1) && mem == old(mem)[i := old(mem)[i].(dirt := d)]
    {
      OthersThan(obj, i);
      hide NoAlias;
      obj[i].dirt := d;
      mem := mem[i := mem[i].(dirt := d)];
    }

    /** i_cnt of entry i is set. */
    method SetCnt(i: nat, n: nat)
      requires MirrorBut(-1) && i < NR_INODE
      modifies this`mem, obj[i]
      ensures MirrorBut(-1) && mem == old(mem)[i := old(mem)[i].(cnt := n)]
    {
      OthersThan(obj, i);
      hide NoAlias;
      obj[i].cnt := n;
      mem := mem[i := mem[i].(cnt := n)];
    }

    /** write_dev_inode (fs/inode.c:57-78). */
    method WriteDevInode(i: nat)
      requires Valid() && i < NR_INODE && |fs.cache.refs| < |fs.cache.h.key|
      modifies this`mem, obj[i], fs.cache, fs.area
      ensures Valid() && Kept(old(Now()), Now()) && mem == old(mem)[i := old(mem)[i].(dirt := false)]
      ensures StillThere(old(fs.cache.view), fs.zones, fs.cache.view, fs.zones)
      ensures HoldsKept(old(fs.cache.Now()), fs.cache.Now())
    {
      hide Consistent, Owned, LowOk, Cache.Valid, PinsKept, State.Only, StillThere, UsedOf, Written, Spliced, Encoded, InUseOk, Inode.Fits,
        InoBlk, InoOff, NoAlias, Kept;
      ghost var c := Now();
      EntryIs(c, i);
      StillSelf(fs.cache.view, fs.zones);
      HoldsSelf(fs.cache.Now());
      if obj[i].dev == 0 || !obj[i].dirt {
        assert mem[i].(dirt := false) == mem[i] && mem[i := mem[i]] == mem;
        KeptSelf(c);
        return;
      }
      PutBackConsistent(c, i);
      WriteOut(obj[i]);
      SetDirt(i, false);
      assert Now() == PutBack(c, i);
      PutBackKept(c, i);
    }

    /** The setbuf of write_dev_inode. */
    method WriteOut(m: MemInode)
      requires fs.Valid() && FIRST_DATAZONE <= fs.first && |fs.cache.refs| < |fs.cache.h.key|
      requires Snap(m).ino.Fits() && m.num < NR_INODES
      modifies fs.cache, fs.area
      ensures fs.Valid() && fs.area.blocks == Written(old(fs.area.blocks), m.num, Encoded(Snap(m).ino))
      ensures StillThere(old(fs.cache.view), fs.zones, fs.cache.view, fs.zones)
      ensures HoldsKept(old(fs.cache.Now()), fs.cache.Now())
    {
      hide FileSys.Valid, StillThere, PinsKept, Spliced, Encoded, Inode.Fits;
      Apart(m.num, m.num, 0, 0);
      var x := Inode(m.mode, m.uid, m.size, m.mtime, m.gid, m.nlinks, m.zone);
      SetBuf(fs, InoBlk(m.num), InoOff(m.num), Encoded(x));
    }

    /** One entry of sync_dev_inodes (fs/inode.c:87-90). */
    method SyncOne(i: nat)
      requires Valid() && i < NR_INODE && |fs.cache.refs| < |fs.cache.h.key|
      modifies this`mem, obj[i], fs.cache, fs.area
      ensures Valid() && Kept(old(Now()), Now()) && mem == old(mem)[i := old(mem)[i].(dirt := false)]
      ensures StillThere(old(fs.cache.view), fs.zones, fs.cache.view, fs.zones)
      ensures HoldsKept(old(fs.cache.Now()), fs.cache.Now())
    {
      hide Consistent, Owned, LowOk, FileSys.Base, StillThere, UsedOf, InUseOk, NoAlias, Kept, HoldsKept;
      EntryIs(Now(), i);
      StillSelf(fs.cache.view, fs.zones);
      HoldsSelf(fs.cache.Now());
      KeptSelf(Now());
      if obj[i].dirt && obj[i].valid {
        WriteDevInode(i);
      } else {
        assert mem[i].(dirt := false) == mem[i] && mem[i := mem[i]] == mem;
      }
    }

    /** The loop body of sync_dev_inodes. */
    method SyncTwo(i: nat, j: nat)
      requires Valid() && i < j < NR_INODE && |fs.cache.refs| < |fs.cache.h.key|
      modifies this`mem, obj, fs.cache, fs.area
      ensures Valid() && Kept(old(Now()), Now())
      ensures mem == old(mem)[i := old(mem)[i].(dirt := false)][j := old(mem)[j].(dirt := false)]
      ensures StillThere(old(fs.cache.view), fs.zones, fs.cache.view, fs.zones)
      ensures HoldsKept(old(fs.cache.Now()), fs.cache.Now())
    {
      hide Consistent, Owned, LowOk, FileSys.Base, StillThere, UsedOf, InUseOk, NoAlias, Kept, HoldsKept;
      ghost var c, v, zs, s0 := Now(), fs.cache.view, fs.zones, fs.cache.Now();
      EntryIs(c, i);
      SyncOne(i);
      ghost var c1, v1, s1 := Now(), fs.cache.view, fs.cache.Now();
      HoldsSizes(s0, s1);
      SyncOne(j);
      SyncTwice(c, v, zs, s0, c1, v1, s1, Now(), fs.cache.view, fs.cache.Now());
    }

    /** sync_dev_inodes (fs/inode.c:81-92): from both ends, everything is written back. */
    method SyncDevInodes()
      requires Valid() && |fs.cache.refs| < |fs.cache.h.key|
      modifies this`mem, obj, fs.cache, fs.area
      ensures Valid() && Kept(old(Now()), Now())
      ensures forall i :: 0 <= i < NR_INODE ==> mem[i] == old(mem)[i].(dirt := false)
      ensures StillThere(old(fs.cache.view), fs.zones, fs.cache.view, fs.zones)
      ensures HoldsKept(old(fs.cache.Now()), fs.cache.Now())
    {
      hide Consistent, Owned, LowOk, FileSys.Base, StillThere, UsedOf, InUseOk, NoAlias, Kept, HoldsKept,
        Table.MirrorBut;
      ghost var c, v, zs, s0 := Now(), fs.cache.view, fs.zones, fs.cache.Now();
      KeptSelf(c);
      StillSelf(v, zs);
      HoldsSelf(s0);
      EntryIs(c, 0);
      var i, j := 0, NR_INODE - 1;
      while i <= j
        invariant 0 <= i <= 32 && i + j == NR_INODE - 1 && Valid() && Kept(c, Now()) && |mem| == NR_INODE
        invariant forall k :: 0 <= k < NR_INODE ==>
          mem[k] == if k < i || j < k then c.mem[k].(dirt := false) else c.mem[k]
        invariant StillThere(v, zs, fs.cache.view, zs) && HoldsKept(s0, fs.cache.Now())
        invariant |fs.cache.refs| < |fs.cache.h.key|
      {
        ghost var c1, v1, s1 := Now(), fs.cache.view, fs.cache.Now();
        SyncTwo(i, j);
        SyncTwice(c, v, zs, s0, c1, v1, s1, Now(), fs.cache.view, fs.cache.Now());
        i, j := i + 1, j - 1;
      }
    }

    /** The scan of get_empty_inode (fs/inode.c:19-26) for an entry that is clean and not held. */
    method FindEmpty() returns (r: int)
      requires MirrorBut(-1)
      ensures if FreeFrom(mem, 0, true) == NR_INODE then r == -1 else r == Looked(FreeFrom(mem, 0, true))
    {
      hide NoAlias, FreeFrom, Looked;
      var i, j := 0, NR_INODE - 1;
      while i < j
        invariant 0 <= i <= 32 && i + j == NR_INODE - 1
        invariant NoneFree(mem, 2 * i)
      {
        LookedPair(i);
        if obj[i].cnt == 0 && !obj[i].dirt {
          FreeIs(mem, 2 * i);
          return i;
        }
        NoneFreeNext(mem, 2 * i);
        if obj[j].cnt == 0 && !obj[j].dirt {
          FreeIs(mem, 2 * i + 1);
          return j;
        }
        NoneFreeNext(mem, 2 * i + 1);
        i, j := i + 1, j - 1;
      }
      FreeIs(mem, NR_INODE);
      return -1;
    }

    /** get_empty_inode (fs/inode.c:12-30): it ends whenever some entry is held by nobody, and
        yields the one that Victim says. */
    method GetEmptyInode() returns (r: nat)
      requires Valid() && HasRoom(mem) && |fs.cache.refs| < |fs.cache.h.key|
      modifies this`mem, obj, fs.cache, fs.area
      ensures Valid() && Kept(old(Now()), Now())
      ensures |old(mem)| == NR_INODE && r == Victim(old(mem)) && mem[r].cnt == 0
      ensures mem[r] == old(mem)[r].(dirt := false)
      ensures StillThere(old(fs.cache.view), fs.zones, fs.cache.view, fs.zones)
      ensures HoldsKept(old(fs.cache.Now()), fs.cache.Now())
    {
      hide Consistent, Owned, LowOk, FileSys.Base, StillThere, UsedOf, InUseOk, NoAlias, Kept, HoldsKept, FreeFrom,
        Looked;
      ghost var c, v, zs, s0, synced := Now(), fs.cache.view, fs.zones, fs.cache.Now(), false;
      KeptSelf(c);
      StillSelf(v, zs);
      HoldsSelf(s0);
      VictimIs(mem);
      while true
        invariant Valid() && Kept(c, Now()) && |mem| == NR_INODE
        invariant if !synced then mem == c.mem
                  else FreeFrom(c.mem, 0, true) == NR_INODE && forall k :: 0 <= k < NR_INODE ==> mem[k] == c.mem[k].(dirt := false)
        invariant StillThere(v, zs, fs.cache.view, zs) && HoldsKept(s0, fs.cache.Now())
        invariant |fs.cache.refs| < |fs.cache.h.key|
        decreases !synced
      {
        var i := FindEmpty();
        if synced {
          AllClean(c.mem, mem, 0);
        }
        if i != -1 {
          return i;
        }
        ghost var c1, v1, s1 := Now(), fs.cache.view, fs.cache.Now();
        SyncDevInodes();
        SyncTwice(c, v, zs, s0, c1, v1, s1, Now(), fs.cache.view, fs.cache.Now());
        synced := true;
      }
    }

    /** The search of iget (fs/inode.c:104-117), from both ends. */
    method FindInode(k: nat) returns (r: int)
      requires Valid()
      ensures r == -1 <==> k !in at
      ensures r != -1 ==> 0 <= r < NR_INODE && k in at && at[k] == r
    {
      hide Consistent, Owned, LowOk, FileSys.Base, UsedOf, InUseOk, NoAlias;
      var i, j := 0, NR_INODE - 1;
      EntryIs(Now(), 0);
      while i <= j
        invariant 0 <= i <= 32 && i + j == NR_INODE - 1
        invariant forall q :: 0 <= q < i || j < q < NR_INODE ==> !(mem[q].dev == ROOT_DEV && mem[q].num == k)
      {
        if obj[i].dev == ROOT_DEV && obj[i].num == k {
          EntryIs(Now(), i);
          return i;
        }
        if obj[j].dev == ROOT_DEV && obj[j].num == k {
          EntryIs(Now(), j);
          return j;
        }
        i, j := i + 1, j - 1;
      }
      NotInTable(Now(), k);
      return -1;
    }

    /** read_dev_inode (fs/inode.c:33-51): an entry that is not valid is read from disk. */
    method ReadDevInode(m: MemInode)
      requires fs.Base() && FIRST_DATAZONE <= fs.first && |fs.cache.refs| < |fs.cache.h.key| && m.num < NR_INODES
      modifies m, fs.cache
      ensures fs.Base() && fs.cache.view == old(fs.cache.view) && HoldsKept(old(fs.cache.Now()), fs.cache.Now())
      ensures Snap(m) == if old(m.dev) == 0 || old(m.valid) then old(Snap(m))
                         else old(Snap(m)).(ino := Decoded(OnDisk(fs.area.blocks, old(m.num))), valid := true)
    {
      hide Cache.Valid, State.Only, PinsKept, HoldsKept, Decoded, Inode.Fits, InoBlk, InoOff;
      HoldsSelf(fs.cache.Now());
      if m.dev == 0 || m.valid {
        return;
      }
      Apart(m.num, m.num, 0, 0);
      var r := GetBuf(fs, InoBlk(m.num), InoOff(m.num));
      LowIs(fs.cache.view, fs.first, fs.area.blocks, InoBlk(m.num));
      Fill(m, Decoded(r));
    }

    /** The end of iget (fs/inode.c:121-128): the entry is cleared and filled from disk. */
    method Refill(r: nat, k: nat)
      requires MirrorBut(-1) && fs.Base() && FIRST_DATAZONE <= fs.first && |fs.cache.refs| < |fs.cache.h.key|
      requires r < NR_INODE && k < NR_INODES
      modifies this`mem, obj[r], fs.cache
      ensures MirrorBut(-1) && fs.Base() && fs.cache.view == old(fs.cache.view)
      ensures HoldsKept(old(fs.cache.Now()), fs.cache.Now())
      ensures mem == old(mem)[r := Mem(Decoded(OnDisk(fs.area.blocks, k)), ROOT_DEV, k, 1, false, true)]
    {
      hide FileSys.Base, HoldsKept, NoAlias, Decoded, OnDisk;
      OthersThan(obj, r);
      Clear(obj[r]);
      obj[r].cnt, obj[r].dev, obj[r].num := 1, ROOT_DEV, k;
      ReadDevInode(obj[r]);
      mem := mem[r := Mem(Decoded(OnDisk(fs.area.blocks, k)), ROOT_DEV, k, 1, false, true)];
    }

    /** So the inode is in the table. */
    method Load(r: nat, k: nat)
      requires Valid() && r < NR_INODE && !mem[r].dirt && k in ino && k !in at && |fs.cache.refs| < |fs.cache.h.key|
      modifies this`mem, this`at, obj[r], fs.cache
      ensures Valid() && fs.cache.view == old(fs.cache.view) && HoldsKept(old(fs.cache.Now()), fs.cache.Now())
      ensures r < |old(mem)| && Now() == Loaded(old(Now()), r, k)
    {
      hide Consistent, Owned, LowOk, Cache.Valid, State.Only, PinsKept, HoldsKept, UsedOf, NoAlias, Decoded, OnDisk,
        MovedIn, ZBit, Snap;
      LoadedConsistent(Now(), r, k);
      Refill(r, k);
      at := MovedIn(at, r, k);
    }

    /** The second half of iget (fs/inode.c:118-131), for an inode that is not in the table. */
    method Fetch(k: nat) returns (r: nat)
      requires Valid() && k in ino && k !in at && HasRoom(mem) && |fs.cache.refs| < |fs.cache.h.key|
      modifies this`mem, this`at, obj, fs.cache, fs.area
      ensures Valid() && ino == old(ino) && |old(mem)| == |mem| == NR_INODE && r == Victim(old(mem))
      ensures at == MovedIn(old(at), r, k) && old(mem)[r].cnt == 0 && mem[r] == Mem(ino[k], ROOT_DEV, k, 1, false, true)
      ensures forall q :: 0 <= q < NR_INODE && q != r ==> Cleaner(old(mem)[q], mem[q])
      ensures StillThere(old(fs.cache.view), fs.zones, fs.cache.view, fs.zones)
      ensures HoldsKept(old(fs.cache.Now()), fs.cache.Now())
    {
      hide Consistent, Owned, LowOk, FileSys.Base, StillThere, UsedOf, InUseOk, NoAlias, HoldsKept, Victim, HasRoom,
        MovedIn;
      ghost var s0 := fs.cache.Now();
      r := GetEmptyInode();
      HoldsSizes(s0, fs.cache.Now());
      ghost var s1 := fs.cache.Now();
      LoadedIs(Now(), k);
      Load(r, k);
      HoldsTwice(s0, s1, fs.cache.Now());
    }

    /** iget (fs/inode.c:95-133) of an inode in use: the entry of the inode, with what the inode
        is; every inode stays what it is, and every file has the blocks and bytes that it had. */
    method Iget(k: nat) returns (r: nat)
      requires Valid() && k in ino && (k in at || HasRoom(mem)) && |fs.cache.refs| < |fs.cache.h.key|
      modifies this`mem, this`at, obj, fs.cache, fs.area
      ensures Valid() && r < NR_INODE == |mem| && mem[r].dev != 0 && mem[r].num == k && mem[r].ino == ino[k]
      ensures mem[r].cnt > 0
      ensures |old(mem)| == NR_INODE && r == if k in old(at) then old(at)[k] else Victim(old(mem))
      ensures k in old(at) ==> mem == old(mem)[r := old(mem)[r].(cnt := old(mem)[r].cnt + 1)] && at == old(at)
      ensures k !in old(at) ==> at == MovedIn(old(at), r, k) && old(mem)[r].cnt == 0
      ensures k !in old(at) ==> mem[r] == Mem(ino[k], ROOT_DEV, k, 1, false, true)
      ensures k !in old(at) ==> forall q :: 0 <= q < NR_INODE && q != r ==> Cleaner(old(mem)[q], mem[q])
      ensures StillThere(old(fs.cache.view), fs.zones, fs.cache.view, fs.zones)
      ensures HoldsKept(old(fs.cache.Now()), fs.cache.Now())
    {
      hide Consistent, Owned, LowOk, FileSys.Base, StillThere, UsedOf, InUseOk, NoAlias, HoldsKept, Victim, HasRoom,
        MovedIn;
      ghost var c, v, zs, s0 := Now(), fs.cache.view, fs.zones, fs.cache.Now();
      StillSelf(v, zs);
      HoldsSelf(s0);
      var i := FindInode(k);
      if i != -1 {
        EntryIs(c, i);
        AtIs(c, k);
        CountConsistent(c, i, mem[i].cnt + 1);
        SetCnt(i, obj[i].cnt + 1);
        assert Now() == Counted(c, i, c.mem[i].cnt + 1);
        return i;
      }
      r := Fetch(k);
    }

    /** free_inode (fs/bitmap.c:159-184): the bit of the inode is cleared, and the entry. It crashes
        on an inode that is held, that has links, or whose bit is clear. */
    method FreeInode(i: nat)
      requires MirrorBut(i) && i < NR_INODE && |imaps| == ZMAP_SLOTS && obj[i].num < NR_INODES && obj[i].dev != 0
      requires obj[i].cnt == 0 && obj[i].nlinks == 0 && ZBit(imaps, obj[i].num)
      modifies this`mem, this`imaps, obj[i]
      ensures MirrorBut(-1) && mem == old(mem)[i := Blank()]
      ensures |imaps| == ZMAP_SLOTS && imaps == WithZBit(old(imaps), old(obj[i].num), false)
      ensures var k := old(obj[i].num); imaps == old(imaps)[k / 8192 := SetBit(old(imaps)[k / 8192], k % 8192, false)]
    {
      OthersThan(obj, i);
      hide NoAlias, SetBit;
      var k := obj[i].num;
      imaps := imaps[k / BITS := SetBit(imaps[k / BITS], k % BITS, false)];
      Clear(obj[i]);
      mem := mem[i := Blank()];
    }

    /** The clear_iblks of iput. */
    method Emptied(i: nat)
      requires Valid() && i < NR_INODE && mem[i].dev != 0 && |fs.cache.refs| + 2 < |fs.cache.h.key|
      requires Unheld(fs.cache.view, fs.zones, mem[i].num, fs.cache.refs)
      modifies obj[i], fs, fs.cache
      ensures MirrorBut(i) && Snap(obj[i]) == mem[i].(ino := EmptiedIno(mem[i].ino))
      ensures obj[i].dev == mem[i].dev && obj[i].num == mem[i].num && obj[i].cnt == mem[i].cnt
      ensures obj[i].nlinks == mem[i].ino.nlinks && obj[i].dirt == mem[i].dirt
      ensures fs.Valid() && fs.cache.refs == old(fs.cache.refs) && |fs.cache.h.key| == |old(fs.cache.h.key)|
      ensures mem[i].num in fs.zones && fs.zones == old(fs.zones)[mem[i].num := EmptiedIno(mem[i].ino).zone]
      ensures OthersKept(old(fs.cache.view), old(fs.zones), fs.cache.view, fs.zones, mem[i].num)
      ensures OutOfUse(old(fs.cache.view), old(fs.zones), mem[i].num, 0x8000 <= mem[i].ino.mode % 0x1_0000 < 0x9000,
                       old(fs.Used()), fs.Used())
    {
      hide Consistent, Owned, LowOk, Cache.Valid, State.Only, UsedOf, NoAlias, ZBit, Unheld, OthersKept, Cleared,
        OutOfUse, FileBlk;
      ghost var v, zs, u, k, reg := fs.cache.view, fs.zones, fs.Used(), mem[i].num, 0x8000 <= mem[i].ino.mode % 0x1_0000 < 0x9000;
      EntryIs(Now(), i);
      OthersThan(obj, i);
      ghost var freed := fs.ClearIblks(obj[i]);
      EmptiedFreed(v, zs, fs.cache.view, fs.zones, k, reg, u, freed);
    }

    /** The end of iput (fs/inode.c:154-162): an inode without links that nobody holds is emptied,
        if it is a regular file, and goes out of use. */
    method Reclaim(i: nat)
      requires Valid() && i < NR_INODE && mem[i].dev != 0 && |fs.cache.refs| + 2 < |fs.cache.h.key|
      requires mem[i].cnt == 0 && mem[i].ino.nlinks == 0
      requires Unheld(fs.cache.view, fs.zones, mem[i].num, fs.cache.refs)
      modifies this, obj[i], fs, fs.cache
      ensures Valid() && fs.cache.refs == old(fs.cache.refs) && |fs.cache.h.key| == |old(fs.cache.h.key)|
      ensures i < |old(mem)| && mem == old(mem)[i := Blank()]
      ensures var k := old(mem)[i].num; ino == old(ino) - {k} && at == old(at) - {k} && fs.zones == old(fs.zones) - {k}
      ensures OthersKept(old(fs.cache.view), old(fs.zones), fs.cache.view, fs.zones, old(mem)[i].num)
      ensures OutOfUse(old(fs.cache.view), old(fs.zones), old(mem)[i].num,
                       0x8000 <= old(mem)[i].ino.mode % 0x1_0000 < 0x9000, old(fs.Used()), fs.Used())
      ensures old(mem)[i].num < NR_INODES && |old(imaps)| == ZMAP_SLOTS
      ensures var k := old(mem)[i].num; imaps == old(imaps)[k / 8192 := SetBit(old(imaps)[k / 8192], k % 8192, false)]
    {
      hide Consistent, Owned, LowOk, Cache.Valid, State.Only, UsedOf, NoAlias, InUseOk, SetBit, Unheld, OthersKept, OutOfUse, Snap,
        MemOk, Inode.Fits, NoZones, Blank;
      EntryIs(Now(), i);
      ghost var v, zs := fs.cache.view, fs.zones;
      Emptied(i);
      OthersWithout(v, zs, fs.cache.view, fs.zones, mem[i].num);
      OutOfTable(i, zs);
    }

    /** The inode of entry i, emptied, goes out of use. */
    method OutOfTable(i: nat, ghost zs: Zones)
      requires MirrorBut(i) && i < NR_INODE && mem[i].dev != 0 && obj[i].num == mem[i].num
      requires obj[i].dev != 0 && obj[i].cnt == 0 && obj[i].nlinks == 0
      requires fs.Valid() && FIRST_DATAZONE <= fs.first && Consistent(Now()) && InUseOk(imaps, ino, zs)
      requires mem[i].num in fs.zones && fs.zones == zs[mem[i].num := fs.zones[mem[i].num]]
      modifies this, obj[i], fs`zones
      ensures Valid() && fs.zones == old(fs.zones) - {old(mem)[i].num} == zs - {old(mem)[i].num}
      ensures i < |old(mem)| && Now() == Unmade(old(Now()), i)
      ensures old(mem)[i].num < NR_INODES && |old(imaps)| == ZMAP_SLOTS
      ensures var k := old(mem)[i].num; imaps == old(imaps)[k / 8192 := SetBit(old(imaps)[k / 8192], k % 8192, false)]
    {
      hide Consistent, Owned, LowOk, Cache.Valid, State.Only, UsedOf, NoAlias, InUseOk, WithZBit, Snap, MemOk,
        Inode.Fits, NoZones, Blank;
      ghost var c, k := Now(), mem[i].num;
      EntryIs(c, i);
      UnmadeConsistent(c, i);
      WithoutOwned(fs.cache.view, fs.zones, fs.Used(), fs.owner, k);
      InUseSizes(imaps, ino, zs, k);
      WithoutInUse(imaps, ino, zs, fs.zones, k);
      InUseBit(imaps, ino, zs, k);
      FreeInode(i);
      ino, at := ino - {k}, at - {k};
      fs.zones := fs.zones - {k};
    }

    /** iput (fs/inode.c:136-163): a changed inode is written back; an unchanged one without links
        that nobody holds any more is reclaimed. */
    method Iput(i: nat)
      requires Valid() && i < NR_INODE && mem[i].cnt > 0 && |fs.cache.refs| + 2 < |fs.cache.h.key|
      requires mem[i].cnt == 1 && mem[i].dev != 0 && !mem[i].dirt && mem[i].ino.nlinks == 0 ==>
        Unheld(fs.cache.view, fs.zones, mem[i].num, fs.cache.refs)
      modifies this, obj[i], fs, fs.cache, fs.area
      ensures Valid() && fs.cache.refs == old(fs.cache.refs) && |fs.cache.h.key| == |old(fs.cache.h.key)|
      ensures i < |old(mem)| && var s := old(mem)[i];
        s.cnt > 1 || s.dev == 0 || s.dirt || s.ino.nlinks != 0 ==>
          && mem == old(mem)[i := s.(cnt := s.cnt - 1, dirt := false)] && ino == old(ino) && at == old(at)
          && fs.zones == old(fs.zones) && imaps == old(imaps) && fs.zmap == old(fs.zmap)
          && StillThere(old(fs.cache.view), fs.zones, fs.cache.view, fs.zones)
          && HoldsKept(old(fs.cache.Now()), fs.cache.Now())
      ensures i < |old(mem)| && var s := old(mem)[i];
        s.cnt == 1 && s.dev != 0 && !s.dirt && s.ino.nlinks == 0 ==>
          && mem == old(mem)[i := Blank()] && ino == old(ino) - {s.num} && at == old(at) - {s.num}
          && fs.zones == old(fs.zones) - {s.num} && s.num < NR_INODES && |old(imaps)| == ZMAP_SLOTS
          && imaps == old(imaps)[s.num / 8192 := SetBit(old(imaps)[s.num / 8192], s.num % 8192, false)]
          && OthersKept(old(fs.cache.view), old(fs.zones), fs.cache.view, fs.zones, s.num)
          && OutOfUse(old(fs.cache.view), old(fs.zones), s.num, 0x8000 <= s.ino.mode % 0x1_0000 < 0x9000, old(fs.Used()), fs.Used())
    {
      hide Consistent, Owned, LowOk, FileSys.Base, StillThere, UsedOf, InUseOk, NoAlias, HoldsKept, Unheld, OthersKept, OutOfUse, SetBit,
        Kept, MemOk, Inode.Fits, NoZones, Blank;
      ghost var c, v, zs, s0 := Now(), fs.cache.view, fs.zones, fs.cache.Now();
      EntryIs(c, i);
      StillSelf(v, zs);
      HoldsSelf(s0);
      CountConsistent(c, i, mem[i].cnt - 1);
      if obj[i].dev == 0 {
        SetCnt(i, obj[i].cnt - 1);
        return;
      }
      SetCnt(i, obj[i].cnt - 1);
      assert Now() == Counted(c, i, c.mem[i].cnt - 1);
      if obj[i].dirt {
        WriteDevInode(i);
        HoldsSizes(s0, fs.cache.Now());
        KeptIs(Counted(c, i, c.mem[i].cnt - 1), Now());
        return;
      }
      if obj[i].cnt == 0 {
        if obj[i].nlinks == 0 {
          Reclaim(i);
        }
      }
    }

    /** The first half of new_inode (fs/bitmap.c:128-139): the first bit of the inode map that
        find_first_zero yields is set; -1 if there is none. */
    method MarkInode() returns (num: int)
      requires |imaps| == ZMAP_SLOTS
      modifies this`imaps
      ensures |imaps| == ZMAP_SLOTS && (num == -1 <==> forall m :: 0 <= m < ZMAP_SLOTS ==> !HasZero(old(imaps), m))
      ensures num == -1 ==> imaps == old(imaps)
      ensures num != -1 ==> 0 <= num < NR_INODES && FirstZero(old(imaps), num / BITS, num % BITS)
      ensures num != -1 ==> !ZBit(old(imaps), num) && imaps == WithZBit(old(imaps), num, true)
      ensures num != -1 ==> imaps == old(imaps)[num / 8192 := SetBit(old(imaps)[num / 8192], num % 8192, true)]
    {
      hide FirstIn, Bit, Recognised, HasZero, SetBit;
      var i, j := FindZero(imaps);
      if i >= ZMAP_SLOTS || j == -1 {
        return -1;
      }
      FirstHasZero(imaps, i, j);
      num := i * BITS + j;
      assert num / BITS == i && num % BITS == j;
      imaps := imaps[i := SetBit(imaps[i], j, true)];
    }

    /** The second half of new_inode (fs/bitmap.c:144-155), and what its callers set at once
        (fs/namei.c:266-269): i_size and i_zone stay as they were. */
    method Renew(r: nat, num: nat, uid: nat, mode: nat, mtime: nat)
      requires MirrorBut(-1) && r < NR_INODE
      modifies this`mem, obj[r]
      ensures MirrorBut(-1)
      ensures mem == old(mem)[r := Mem(Renewed(old(mem)[r].ino, uid, mode, mtime), ROOT_DEV, num, 1, true, true)]
    {
      OthersThan(obj, r);
      hide NoAlias;
      SetNew(obj[r], num, uid, mode, mtime);
      mem := mem[r := Mem(Renewed(mem[r].ino, uid, mode, mtime), ROOT_DEV, num, 1, true, true)];
    }

    /** Inode num, which was not in use, comes into use in entry r, which is clean. */
    method MakeInode(r: nat, num: nat, uid: nat, mode: nat, mtime: nat)
      requires Valid() && r < NR_INODE && mem[r].cnt == 0 && !mem[r].dirt && 0 < num < NR_INODES && num !in ino
      requires ZBit(imaps, num)
      requires uid < 0x1_0000 && mode < 0x1_0000 && mtime < 0x1_0000_0000
      modifies this`mem, this`ino, this`at, obj[r], fs`zones
      ensures Sound() && Now() == Made(old(Now()), r, num, Renewed(old(mem)[r].ino, uid, mode, mtime))
      ensures fs.zones == old(fs.zones)[num := old(mem)[r].ino.zone] && num !in old(fs.zones)
      ensures Valid() <==> old(mem)[r].ino.zone == NoZones()
    {
      hide Consistent, Owned, LowOk, Cache.Valid, State.Only, UsedOf, NoAlias, MemOk, NoZones, Inode.Fits, MovedIn, ZBit,
        InUseOk;
      ghost var c, zs, x := Now(), fs.zones, Renewed(mem[r].ino, uid, mode, mtime);
      EntryIs(c, r);
      RenewedFits(c, r, uid, mode, mtime);
      MadeConsistent(c, r, num, x);
      NotIn(imaps, ino, zs, num, x);
      EnteredOwned(fs.cache.view, zs, fs.Used(), fs.owner, c, imaps, r, num);
      Renew(r, num, uid, mode, mtime);
      ino, at := ino[num := x], MovedIn(at, r, num);
      fs.zones := zs[num := x.zone];
    }

    /** new_inode (fs/bitmap.c:117-156) as the code that creates files uses it. The new inode is
        marked, has one link and is held once; it has the size and the zones that were in the
        entry which get_empty_inode yields, and all is in order afterwards exactly if that one
        had no zones. */
    method NewInode(uid: nat, mode: nat, mtime: nat) returns (r: int)
      requires Valid() && HasRoom(mem) && |fs.cache.refs| < |fs.cache.h.key|
      requires uid < 0x1_0000 && mode < 0x1_0000 && mtime < 0x1_0000_0000
      modifies this, obj, fs`zones, fs.cache, fs.area
      ensures Sound() && |old(mem)| == NR_INODE && |old(imaps)| == ZMAP_SLOTS
      ensures HoldsKept(old(fs.cache.Now()), fs.cache.Now())
      ensures r == -1 <==> forall m :: 0 <= m < ZMAP_SLOTS ==> !HasZero(old(imaps), m)
      ensures r == -1 ==> Valid() && Now() == old(Now()) && imaps == old(imaps) && fs.zones == old(fs.zones)
      ensures r == -1 ==> fs.cache.view == old(fs.cache.view)
      ensures r != -1 ==> r == Victim(old(mem)) && MadeFrom(old(Now()), old(imaps), r, uid, mode, mtime, Now(), imaps)
      ensures r != -1 ==> 0 <= r < |mem| == |old(mem)| && var s, x := old(mem)[r], mem[r];
        && x.ino == Inode(mode, uid, s.ino.size, mtime, 0, 1, s.ino.zone) && x.dev == 0x305 && x.cnt == 1 && x.dirt
        && 0 < x.num < NR_INODES && FirstZero(old(imaps), x.num / 8192, x.num % 8192)
        && imaps == old(imaps)[x.num / 8192 := SetBit(old(imaps)[x.num / 8192], x.num % 8192, true)]
        && ino == old(ino)[x.num := x.ino] && x.num !in old(ino)
      ensures r != -1 ==> fs.zones == old(fs.zones)[mem[r].num := mem[r].ino.zone]
      ensures r != -1 ==> StillThere(old(fs.cache.view), old(fs.zones), fs.cache.view, old(fs.zones))
      ensures r != -1 ==> (Valid() <==> old(mem)[r].ino.zone == NoZones())
      ensures r != -1 && Valid() ==> StillThere(old(fs.cache.view), old(fs.zones), fs.cache.view, fs.zones)
    {
      hide Consistent, Owned, LowOk, FileSys.Base, StillThere, UsedOf, InUseOk, NoAlias, HoldsKept, Victim, HasRoom, Kept, MemOk, NoZones,
        Inode.Fits, MovedIn, ZBit, WithZBit, HasZero, FirstZero;
      ghost var c, v, zs, s0, im := Now(), fs.cache.view, fs.zones, fs.cache.Now(), imaps;
      HoldsSelf(s0);
      EntryIs(c, 0);
      InUseMap(im, ino, zs);
      var num := MarkInode();
      if num == -1 {
        return -1;
      }
      NotInUse(im, ino, zs, num);
      assert Valid();
      var e := GetEmptyInode();
      ghost var c1, zs1 := Now(), fs.zones;
      KeptIs(c, c1);
      BitSet(im, num);
      MakeInode(e, num, uid, mode, mtime);
      MadeAfter(c, c1, im, imaps, e, num, uid, mode, mtime, Now());
      StillEntered(v, zs, fs.cache.view, num, fs.zones);
      return e;
    }

    /** Everything is in order but that the inode of entry i was changed by its holder, and with
        it, from zs, the zones of the file trees. */
    ghost predicate Pending(i: nat, zs: Zones)
      reads this, obj, fs, fs.area
    {
      && i < NR_INODE && MirrorBut(i) && FIRST_DATAZONE <= fs.first && Consistent(Now()) && InUseOk(imaps, ino, zs)
      && ChangedIn(mem[i], Snap(obj[i])) && fs.zones == zs[mem[i].num := Snap(obj[i]).ino.zone]
    }

    /** The change of a holder is recorded; it must be marked. */
    ghost method Record(i: nat, zs: Zones)
      requires Pending(i, zs) && fs.Valid() && (Snap(obj[i]) == mem[i] || Snap(obj[i]).dirt)
      modifies this`mem, this`ino
      ensures Valid() && mem == old(mem)[i := Snap(obj[i])] && ino == old(ino)[old(mem)[i].num := Snap(obj[i]).ino]
    {
      hide Consistent, FileSys.Valid, NoAlias, MemOk, NoZones, Inode.Fits, Snap, InUseOk;
      ghost var c, x := Now(), Snap(obj[i]);
      EntryIs(c, i);
      ChangedConsistent(c, i, x.ino, x.dirt);
      InUseSizes(imaps, ino, zs, mem[i].num);
      Replaced(imaps, ino, zs, mem[i].num, x.ino);
      mem, ino := mem[i := x], ino[mem[i].num := x.ino];
      assert Now() == Changed(c, i, x.ino, x.dirt);
    }

    /** i_nlinks and the mark of entry i are set. */
    method SetLinks(i: nat, n: nat)
      requires Valid() && i < NR_INODE && mem[i].dev != 0 && n < 0x100
      modifies this`mem, this`ino, obj[i]
      ensures Valid() && |old(mem)| == NR_INODE
      ensures mem == old(mem)[i := old(mem)[i].(ino := old(mem)[i].ino.(nlinks := n), dirt := true)]
      ensures ino == old(ino)[mem[i].num := mem[i].ino]
    {
      hide Consistent, FileSys.Valid, NoAlias, MemOk, NoZones, InUseOk;
      ghost var zs := fs.zones;
      EntryIs(Now(), i);
      OthersThan(obj, i);
      InUseSizes(imaps, ino, zs, mem[i].num);
      assert fs.zones == zs[mem[i].num := mem[i].ino.zone];
      obj[i].nlinks, obj[i].dirt := n, true;
      Record(i, zs);
    }

    /** clear_iblks on a held inode, as open does it with O_TRUNC (fs/namei.c:312-313): the blocks
        are given back, but the inode is not marked, so all is in order afterwards exactly if it
        was marked before or there was nothing to empty. */
    method Truncate(i: nat)
      requires Valid() && i < NR_INODE && mem[i].dev != 0 && mem[i].cnt > 0 && |fs.cache.refs| + 2 < |fs.cache.h.key|
      requires Unheld(fs.cache.view, fs.zones, mem[i].num, fs.cache.refs)
      modifies this`mem, this`ino, obj[i], fs, fs.cache
      ensures fs.Valid() && MirrorBut(-1) && i < |old(mem)|
      ensures Now() == Changed(old(Now()), i, EmptiedIno(old(mem)[i].ino), false)
      ensures Valid() <==> old(mem)[i].dirt || EmptiedIno(old(mem)[i].ino) == old(mem)[i].ino
      ensures mem[i].num in fs.zones && fs.zones == old(fs.zones)[mem[i].num := mem[i].ino.zone]
      ensures var s := old(mem)[i];
        mem == old(mem)[i := if 0x8000 <= s.ino.mode % 0x1_0000 < 0x9000
                             then s.(ino := s.ino.(zone := seq(9, _ => 0), size := 0)) else s]
      ensures OutOfUse(old(fs.cache.view), old(fs.zones), mem[i].num, 0x8000 <= old(mem)[i].ino.mode % 0x1_0000 < 0x9000,
                       old(fs.Used()), fs.Used())
      ensures OthersKept(old(fs.cache.view), old(fs.zones), fs.cache.view, fs.zones, mem[i].num)
    {
      hide Consistent, Owned, LowOk, Cache.Valid, State.Only, UsedOf, NoAlias, InUseOk, Unheld, OthersKept, OutOfUse, Snap, MemOk,
        Inode.Fits;
      ghost var c, zs, x := Now(), fs.zones, EmptiedIno(mem[i].ino);
      EntryIs(c, i);
      EmptiedFits(c.mem[i].ino);
      ChangedConsistent(c, i, x, false);
      Emptied(i);
      Replaced(imaps, ino, zs, mem[i].num, x);
      mem, ino := mem[i := mem[i].(ino := x)], ino[mem[i].num := x];
      assert Now() == Changed(c, i, x, false);
    }
  }

  /** A holder may change what is on disk too, and the mark. */
  predicate ChangedIn(s: Mem, s': Mem) {
    s.dev != 0 && s'.ino.Fits() && s' == s.(ino := s'.ino, dirt := s'.dirt) && (s.dirt ==> s'.dirt)
  }

  lemma Replaced(imaps: seq<Block>, ino: map<nat, Inode>, zs: Zones, k: nat, x: Inode)
    requires InUseOk(imaps, ino, zs) && k in ino
    ensures InUseOk(imaps, ino[k := x], zs[k := x.zone])
  {
    hide ZBit;
  }

  /** new_inode made an inode in entry r, with the first number that find_first_zero yields, out
      of what was in the entry; the other entries at most became clean. */
  ghost predicate MadeFrom(c: Inodes, im: seq<Block>, r: int, uid: nat, mode: nat, mtime: nat, c': Inodes,
                           im': seq<Block>) {
    && 0 <= r < |c.mem| == |c'.mem| && |im| == ZMAP_SLOTS
    && var num, x := c'.mem[r].num, Renewed(c.mem[r].ino, uid, mode, mtime);
      && 0 < num < NR_INODES && num !in c.ino && FirstZero(im, num / BITS, num % BITS)
      && im' == im[num / BITS := SetBit(im[num / BITS], num % BITS, true)]
      && c'.mem[r] == Mem(x, ROOT_DEV, num, 1, true, true) && c.mem[r].cnt == 0
      && c'.ino == c.ino[num := x] && c'.at == MovedIn(c.at, r, num)
      && forall q :: 0 <= q < |c.mem| && q != r ==> Cleaner(c.mem[q], c'.mem[q])
  }

  lemma MadeAfter(c: Inodes, c1: Inodes, im: seq<Block>, im': seq<Block>, r: nat, num: nat, uid: nat, mode: nat,
                  mtime: nat, c2: Inodes)
    requires Kept(c, c1) && r < |c.mem| && c1.mem[r] == c.mem[r].(dirt := false) && c.mem[r].cnt == 0
    requires |im| == ZMAP_SLOTS && 0 < num < NR_INODES && num !in c.ino && FirstZero(im, num / BITS, num % BITS)
    requires im' == im[num / BITS := SetBit(im[num / BITS], num % BITS, true)]
    requires c2 == Made(c1, r, num, Renewed(c1.mem[r].ino, uid, mode, mtime))
    ensures MadeFrom(c, im, r, uid, mode, mtime, c2, im')
  {
    hide FirstZero, SetBit, MovedIn;
  }

  /** iput takes the inode of such an entry out of use. */
  predicate Reclaims(s: Mem) {
    s.dev != 0 && !s.dirt && s.cnt == 1 && s.ino.nlinks == 0
  }

  /** One holder less, and the entry is clean. */
  ghost predicate LetGo(c: Inodes, i: nat, c': Inodes) {
    i < |c.mem| && c.mem[i].cnt > 0 && c'.ino == c.ino && c'.at == c.at && c'.mem == c.mem[i := c.mem[i].(cnt := c.mem[i].cnt - 1, dirt := false)]
  }

  lemma KeptIs(c: Inodes, c': Inodes)
    requires Kept(c, c')
    ensures c'.ino == c.ino && c'.at == c.at
  {
  }

  /** Whether the zones left in entry r can be those of a new inode. */
  lemma EnteredOwned(v: View, zs: Zones, used: set<nat>, owner: map<nat, Slot>, c: Inodes, imaps: seq<Block>, r: nat,
                     num: nat)
    requires Consistent(c) && |c.mem| == NR_INODE && r < NR_INODE && num !in zs && !c.mem[r].dirt
    requires InUseOk(imaps, c.ino, zs) && Owned(v, zs, used, owner)
    ensures Owned(v, zs[num := c.mem[r].ino.zone], used, owner) <==> c.mem[r].ino.zone == NoZones()
    ensures c.mem[r].ino.zone == NoZones() ==> forall s :: IsSlot(s) ==> Ptr(v, zs[num := c.mem[r].ino.zone], s) == Ptr(v, zs, s)
  {
    EntryIs(c, r);
    hide Consistent, Owned, Ptr, ZBit;
    EmptyOwned(v, zs, used, owner, num);
    if c.mem[r].ino.zone != NoZones() {
      EnteredTwice(v, zs, used, owner, num, c.mem[r].num);
    }
  }

  lemma RenewedFits(c: Inodes, r: nat, uid: nat, mode: nat, mtime: nat)
    requires Consistent(c) && |c.mem| == NR_INODE && r < NR_INODE && uid < 0x1_0000 && mode < 0x1_0000
    requires mtime < 0x1_0000_0000
    ensures Renewed(c.mem[r].ino, uid, mode, mtime).Fits()
  {
    EntryIs(c, r);
    hide Consistent;
  }

  lemma NotIn(imaps: seq<Block>, ino: map<nat, Inode>, zs: Zones, num: nat, x: Inode)
    requires InUseOk(imaps, ino, zs) && num !in ino && 0 < num < NR_INODES && ZBit(imaps, num)
    ensures num !in zs && InUseOk(imaps, ino[num := x], zs[num := x.zone])
  {
    hide ZBit;
  }

  lemma BitSet(im: seq<Block>, num: nat)
    requires |im| == ZMAP_SLOTS && num < NR_INODES
    ensures ZBit(WithZBit(im, num, true), num)
  {
    WithZBitIs(im, num, true, num);
  }

  /** A new inode without zones leaves every slot as it is. */
  lemma StillEntered(v: View, zs: Zones, v': View, num: nat, zs': Zones)
    requires StillThere(v, zs, v', zs) && num !in zs
    ensures zs' == zs[num := NoZones()] ==> StillThere(v, zs, v', zs')
  {
    if zs' == zs[num := NoZones()] {
      forall s | IsSlot(s)
        ensures Ptr(v', zs', s) == Ptr(v', zs, s)
      {
        EmptyZones(v', zs, num, s);
      }
    }
  }

  lemma InUseMap(imaps: seq<Block>, ino: map<nat, Inode>, zs: Zones)
    requires InUseOk(imaps, ino, zs)
    ensures |imaps| == ZMAP_SLOTS
  {
  }

  /** An inode whose bit was not set was not in use, and setting it changes nothing for the others. */
  lemma NotInUse(imaps: seq<Block>, ino: map<nat, Inode>, zs: Zones, num: nat)
    requires InUseOk(imaps, ino, zs) && num < NR_INODES && !ZBit(imaps, num)
    ensures num !in ino && num !in zs && num != 0 && InUseOk(WithZBit(imaps, num, true), ino, zs)
  {
    hide ZBit, WithZBit;
    forall q: nat | q < NR_INODES
      ensures ZBit(WithZBit(imaps, num, true), q) == if q == num then true else ZBit(imaps, q)
    {
      WithZBitIs(imaps, num, true, q);
    }
  }

  lemma InUseSizes(imaps: seq<Block>, ino: map<nat, Inode>, zs: Zones, k: nat)
    requires InUseOk(imaps, ino, zs) && k in ino
    ensures |imaps| == ZMAP_SLOTS && k < NR_INODES && k in zs && zs[k] == ino[k].zone
  {
  }

  lemma InUseBit(imaps: seq<Block>, ino: map<nat, Inode>, zs: Zones, k: nat)
    requires InUseOk(imaps, ino, zs) && k in ino
    ensures |imaps| == ZMAP_SLOTS && k < NR_INODES && ZBit(imaps, k)
  {
  }

  /** If the file is regular its blocks are out of use now, and no others; else all stay in use. */
  ghost predicate OutOfUse(v: View, zs: Zones, num: nat, reg: bool, used: set<nat>, used': set<nat>) {
    forall b :: b in used' <==> b in used && !(reg && FileBlk(v, zs, num, b))
  }

  lemma OutOfUseIs(v: View, zs: Zones, num: nat, reg: bool, used: set<nat>, used': set<nat>)
    requires OutOfUse(v, zs, num, reg, used, used')
    ensures !reg ==> used' == used
    ensures reg ==> forall b :: b in used' <==> b in used && !FileBlk(v, zs, num, b)
  {
    hide FileBlk;
  }

  lemma OthersWithout(v: View, zs: Zones, v': View, zs': Zones, k: nat)
    requires OthersKept(v, zs, v', zs', k)
    ensures OthersKept(v, zs, v', zs' - {k}, k)
  {
    hide Ptr;
    forall s | IsData(s) && InoOf(s) != k
      ensures SlotKept(v, zs, v', zs' - {k}, s)
    {
      assert SlotKept(v, zs, v', zs', s);
      WithoutPtr(v', zs', k, s);
    }
  }

  lemma EmptiedFreed(v: View, zs: Zones, v': View, zs': Zones, k: nat, reg: bool, used: set<nat>, freed: set<nat>)
    requires if reg then (forall b :: b in freed <==> FileBlk(v, zs, k, b)) && Cleared(v, zs, v', zs', k) else freed == {} && v' == v && zs' == zs
    ensures OutOfUse(v, zs, k, reg, used, used - freed) && OthersKept(v, zs, v', zs', k)
  {
    hide Ptr, FileBlk;
    OthersSelf(v, zs, k);
  }

  lemma WithoutInUse(imaps: seq<Block>, ino: map<nat, Inode>, zs: Zones, zs': Zones, k: nat)
    requires InUseOk(imaps, ino, zs) && k in ino && 0 < k && k in zs' && zs' == zs[k := zs'[k]]
    ensures k < NR_INODES && InUseOk(WithZBit(imaps, k, false), ino - {k}, zs' - {k}) && zs' - {k} == zs - {k}
  {
    hide ZBit, WithZBit;
    forall q: nat | q < NR_INODES
      ensures ZBit(WithZBit(imaps, k, false), q) == if q == k then false else ZBit(imaps, q)
    {
      WithZBitIs(imaps, k, false, q);
    }
  }

  /** The fields that are on disk are copied into an entry, and it is valid. */
  method Fill(m: MemInode, x: Inode)
    modifies m
    ensures Snap(m) == old(Snap(m)).(ino := x, valid := true)
    ensures m.mode == x.mode && m.uid == x.uid && m.size == x.size && m.mtime == x.mtime && m.gid == x.gid
    ensures m.nlinks == x.nlinks && m.zone == x.zone && m.valid && m.num == old(m.num) && m.dev == old(m.dev)
    ensures m.cnt == old(m.cnt) && m.dirt == old(m.dirt)
  {
    m.mode, m.uid, m.size, m.mtime, m.gid, m.nlinks, m.zone := x.mode, x.uid, x.size, x.mtime, x.gid, x.nlinks, x.zone;
    m.valid := true;
  }

  method SetNew(m: MemInode, num: nat, uid: nat, mode: nat, mtime: nat)
    modifies m
    ensures Snap(m) == Mem(Renewed(old(Snap(m)).ino, uid, mode, mtime), ROOT_DEV, num, 1, true, true)
    ensures m.mode == mode && m.uid == uid && m.mtime == mtime && m.gid == 0 && m.nlinks == 1
    ensures m.size == old(m.size) && m.zone == old(m.zone)
    ensures m.dev == 0x305 && m.num == num && m.cnt == 1 && m.dirt && m.valid
  {
    m.cnt, m.dirt, m.nlinks, m.dev := 1, true, 1, ROOT_DEV;
    m.gid, m.num, m.mtime := 0, num, mtime;
    m.uid, m.mode, m.valid := uid, mode, true;
  }

  /** memset of an entry to zeros. */
  method Clear(m: MemInode)
    modifies m
    ensures Snap(m) == Blank()
    ensures m.mode == m.uid == m.size == m.mtime == m.gid == m.nlinks == m.dev == m.num == m.cnt == 0
    ensures m.zone == seq(9, _ => 0) && !m.dirt && !m.valid
  {
    m.mode, m.uid, m.size, m.mtime, m.gid, m.nlinks, m.zone := 0, 0, 0, 0, 0, 0, seq(9, _ => 0);
    m.dev, m.num, m.cnt, m.dirt, m.valid := 0, 0, 0, false, false;
  }

  lemma SyncTwice(c: Inodes, v: View, zs: Zones, s: State, c1: Inodes, v1: View, s1: State, c2: Inodes, v2: View,
                  s2: State)
    requires Kept(c, c1) && Kept(c1, c2) && StillThere(v, zs, v1, zs) && StillThere(v1, zs, v2, zs)
    requires HoldsKept(s, s1) && HoldsKept(s1, s2)
    ensures Kept(c, c2) && StillThere(v, zs, v2, zs) && HoldsKept(s, s2)
    ensures s2.refs == s.refs && |s2.key| == |s.key|
  {
    hide StillThere, PinsKept, Kept;
    KeptTwice(c, c1, c2);
    StillTwice(v, zs, v1, zs, v2, zs);
    HoldsTwice(s, s1, s2);
  }

  // ---------- a file that is emptied, and the reuse of entries ----------

  /** An emptied file that is fetched again after its entry was reused names blocks that are
      free: ownership is broken. */
  lemma EmptiedReused(c: Inodes, i: nat, k: nat, j: nat, v: View, zs: Zones, used: set<nat>, v': View, zs': Zones, used': set<nat>,
                      owner: map<nat, FileTree.Slot>)
    requires Consistent(c) && |c.mem| == NR_INODE && i < NR_INODE && j < NR_INODE && c.mem[i].dev != 0
    requires !c.mem[i].dirt && c.mem[i].ino.Fits()
    requires IsReg(c.mem[i].ino.mode) && EmptiedIno(c.mem[i].ino).Fits()
    requires c.mem[i].num in zs && zs[c.mem[i].num] == c.mem[i].ino.zone
    requires OutOfUse(v, zs, c.mem[i].num, true, used, used')
    ensures var x := FetchedAgain(c, i, EmptiedIno(c.mem[i].ino), false, k, j);
      x.zone != NoZones() ==> !Owned(v', zs'[c.mem[i].num := x.zone], used', owner)
  {
    hide Consistent;
    EmptiedComesBack(c, i, k, j);
    var num, zone := c.mem[i].num, c.mem[i].ino.zone;
    if zone != NoZones() {
      var z :| 0 <= z < 9 && zone[z] != 0;
      assert IsSlot(Root(num, z)) && Ptr(v, zs, Root(num, z)) == zone[z];
      assert FileBlk(v, zs, num, zone[z]);
      hide Owned, FileBlk, OutOfUse;
      ComeBack(v', zs', used', owner, num, zone);
    }
  }

  /** A regular file of one block, inode 1, that is in entry 0 and clean, held by n holders. */
  function OneFile(): Inode {
    Inode(0x8000, 0, 1024, 0, 0, 1, NoZones()[0 := FIRST_DATAZONE])
  }

  ghost function OneFileTable(n: nat): Inodes {
    Inodes(seq(NR_INODE, _ => Blank())[0 := Mem(OneFile(), ROOT_DEV, 1, n, false, true)], Written(imap[], 1, Encoded(OneFile())),
           map[1 := OneFile()], map[1 := 0])
  }

  lemma OneFileOk(n: nat)
    ensures Consistent(OneFileTable(n))
  {
    DecodedEncoded(OneFile());
    WrittenIs(imap[], 1, Encoded(OneFile()), 1);
    hide OnDisk, Written, Encoded, Decoded;
    var c := OneFileTable(n);
    forall i: nat, k: nat
      ensures Right(c, i, k)
    {
    }
    Together(c);
  }

  /** Held by nobody, it is the entry that new_inode takes: the new inode has its zone, and is
      not the only one that has it. */
  lemma NotEmpty(uid: nat, mode: nat, mtime: nat)
    ensures Consistent(OneFileTable(0)) && HasRoom(OneFileTable(0).mem)
    ensures var mem := OneFileTable(0).mem; Victim(mem) == 0 && Renewed(mem[Victim(mem)].ino, uid, mode, mtime).zone[0] == FIRST_DATAZONE
    ensures forall v: View, used, owner :: !Owned(v, map[1 := OneFile().zone, 2 := Renewed(OneFile(), uid, mode, mtime).zone], used, owner)
  {
    OneFileOk(0);
    var mem := OneFileTable(0).mem;
    assert mem[0].cnt == 0 && Looked(0) == 0;
    assert FreeFrom(mem, 0, true) == 0;
    forall v: View, used, owner
      ensures !Owned(v, map[1 := OneFile().zone, 2 := Renewed(OneFile(), uid, mode, mtime).zone], used, owner)
    {
      var zs: Zones := map[1 := OneFile().zone];
      assert zs[1][0] == FIRST_DATAZONE;
      EnteredTwice(v, zs, used, owner, 2, 1);
      assert zs[2 := zs[1]] == map[1 := OneFile().zone, 2 := Renewed(OneFile(), uid, mode, mtime).zone];
    }
  }

  /** Emptied while it is held, its zone is free; let go and fetched again it has it as before. */
  lemma EmptiedNamesFree(v: View)
    ensures Consistent(OneFileTable(1)) && EmptiedIno(OneFile()).Fits()
    ensures Owned(v, map[1 := OneFile().zone], {FIRST_DATAZONE}, map[FIRST_DATAZONE := Root(1, 0)])
    ensures Owned(v, map[1 := EmptiedIno(OneFile()).zone], {}, map[])
    ensures var x := FetchedAgain(OneFileTable(1), 0, EmptiedIno(OneFile()), false, 2, 0);
      x == OneFile() && forall owner :: !Owned(v, map[1 := x.zone], {}, owner)
  {
    hide *;
    OneFileOk(1);
    OneFileAgain();
    OneZoneOwned(v);
    forall owner
      ensures !Owned(v, map[1 := OneFile().zone], {}, owner)
    {
      OneZoneFree(v, owner);
    }
  }

  lemma OneFileAgain()
    ensures |OneFileTable(1).mem| == NR_INODE && EmptiedIno(OneFile()).Fits()
    ensures FetchedAgain(OneFileTable(1), 0, EmptiedIno(OneFile()), false, 2, 0) == OneFile()
  {
    hide Consistent, FetchedAgain, OneFileTable, EmptiedIno, OneFile, Inode.Fits;
    OneFileOk(1);
    OneFileEntry();
    EmptiedComesBack(OneFileTable(1), 0, 2, 0);
  }

  lemma OneFileEntry()
    ensures var mem := OneFileTable(1).mem; |mem| == NR_INODE && mem[0].ino == OneFile() && mem[0].dev != 0 && !mem[0].dirt
    ensures EmptiedIno(OneFile()).Fits()
  {
    hide Written, Encoded;
  }

  lemma OneZoneFree(v: View, owner: map<nat, FileTree.Slot>)
    ensures !Owned(v, map[1 := OneFile().zone], {}, owner)
  {
    var zone := OneFile().zone;
    assert zone[0] == FIRST_DATAZONE != 0;
    ComeBack(v, map[], {}, owner, 1, zone);
    assert map[][1 := zone] == map[1 := zone];
  }

  lemma OneZoneOwned(v: View)
    ensures Owned(v, map[1 := OneFile().zone], {FIRST_DATAZONE}, map[FIRST_DATAZONE := Root(1, 0)])
    ensures Owned(v, map[1 := EmptiedIno(OneFile()).zone], {}, map[])
  {
    var zs1: Zones, zs2: Zones := map[1 := OneFile().zone], map[1 := EmptiedIno(OneFile()).zone];
    forall s | IsSlot(s)
      ensures Ptr(v, zs1, s) == if s == Root(1, 0) then FIRST_DATAZONE else 0
      ensures Ptr(v, zs2, s) == 0
    {
      OneZonePtr(v, s);
    }
  }

  lemma {:induction false} OneZonePtr(v: View, s: FileTree.Slot)
    requires IsSlot(s)
    ensures Ptr(v, map[1 := OneFile().zone], s) == if s == Root(1, 0) then FIRST_DATAZONE else 0
    ensures Ptr(v, map[1 := EmptiedIno(OneFile()).zone], s) == 0
  {
    if s.Child? {
      OneZonePtr(v, s.parent);
    }
  }
}
