/** Blocks, 16-bit words inside blocks, and the addresses of blocks (fs/fs.h). */
module Blocks {

  const BLK_SIZE := 1024

  type Byte = x: int | 0 <= x < 256

  type Block = s: seq<Byte> | |s| == BLK_SIZE witness seq(BLK_SIZE, _ => 0)

  function ZeroBlock(): (b: Block)
    ensures forall i :: 0 <= i < BLK_SIZE ==> b[i] == 0
  {
    seq(BLK_SIZE, _ => 0)
  }

  /** A block of a device. Device number 0 means "no device". */
  datatype Key = Key(dev: nat, blk: nat)

  /** The contents of every block of every device. */
  type Disk = map<Key, Block>

  /** A disk read is total: a block never written reads as zeros. */
  function DiskAt(disk: Disk, k: Key): Block {
    if k in disk then disk[k] else ZeroBlock()
  }

  /** The k-th unsigned short of a block, low byte first. */
  function Entry(b: Block, k: nat): (r: nat)
    requires k < 512
    ensures r < 0x1_0000
  {
    b[2 * k] as int + 256 * (b[2 * k + 1] as int)
  }

  function SetEntry(b: Block, k: nat, v: nat): Block
    requires k < 512 && v < 0x1_0000
  {
    b[2 * k := v % 256][2 * k + 1 := v / 256]
  }

  /** The low byte comes first, and writing a word changes its two bytes only. */
  lemma LowByteFirst(b: Block, k: nat, v: nat)
    requires k < 512 && v < 0x1_0000
    ensures Entry(b, k) % 256 == b[2 * k] && Entry(b, k) / 256 == b[2 * k + 1]
    ensures forall j :: 0 <= j < BLK_SIZE ==>
      SetEntry(b, k, v)[j] == if j == 2 * k then v % 256 else if j == 2 * k + 1 then v / 256 else b[j]
  {
  }

  lemma EntryOfSetEntry(b: Block, k: nat, v: nat, m: nat)
    requires k < 512 && m < 512 && v < 0x1_0000
    ensures Entry(SetEntry(b, k, v), m) == if m == k then v else Entry(b, m)
  {
    if m == k {
      assert 2 * m != 2 * k + 1;
    } else {
      assert 2 * m != 2 * k + 1 && 2 * m + 1 != 2 * k;
    }
  }
}
