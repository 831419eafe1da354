/** Bits of a block (fs/bitmap.c): setb, clrb and find_first_zero. */
module Bitmap {
  import opened Blocks

  const BITS := 8 * BLK_SIZE

  predicate BitOf(x: nat, j: nat) {
    if j == 0 then x % 2 == 1 else BitOf(x / 2, j - 1)
  }

  /** x with bit j made equal to v. */
  function WithBit(x: nat, j: nat, v: bool): nat {
    if j == 0 then x / 2 * 2 + (if v then 1 else 0) else x % 2 + 2 * WithBit(x / 2, j - 1, v)
  }

  function Pow2(j: nat): (r: nat)
    ensures r > 0
  {
    if j == 0 then 1 else 2 * Pow2(j - 1)
  }

  lemma {:induction false} WithBitIs(x: nat, j: nat, v: bool, k: nat)
    ensures BitOf(WithBit(x, j, v), k) == if k == j then v else BitOf(x, k)
  {
    if j > 0 && k > 0 {
      WithBitIs(x / 2, j - 1, v, k - 1);
    }
  }

  lemma {:induction false} WithBitFits(x: nat, j: nat, v: bool, n: nat)
    requires j < n && x < Pow2(n)
    ensures WithBit(x, j, v) < Pow2(n)
  {
    if j > 0 {
      WithBitFits(x / 2, j - 1, v, n - 1);
    }
  }

  /** code[j] of find_first_zero: the byte with just its j low bits set. */
  function LowMask(j: nat): (r: nat)
  {
    if j == 0 then 0 else 1 + 2 * LowMask(j - 1)
  }

  lemma {:induction false} LowMaskBits(j: nat, k: nat)
    ensures BitOf(LowMask(j), k) <==> k < j
  {
    if j > 0 && k > 0 {
      LowMaskBits(j - 1, k - 1);
    }
    if j == 0 && k > 0 {
      LowMaskBits(0, k - 1);
    }
  }

  predicate Bit(b: Block, k: nat)
    requires k < BITS
  {
    BitOf(b[k / 8], k % 8)
  }

  /** setb and clrb: the block with bit k made equal to v. */
  function SetBit(b: Block, k: nat, v: bool): Block
    requires k < BITS
  {
    assert Pow2(8) == 256 by { assert Pow2(4) == 16; }
    WithBitFits(b[k / 8], k % 8, v, 8);
    b[k / 8 := WithBit(b[k / 8], k % 8, v)]
  }

  lemma SetBitIs(b: Block, k: nat, v: bool, m: nat)
    requires k < BITS && m < BITS
    ensures Bit(SetBit(b, k, v), m) == if m == k then v else Bit(b, m)
  {
    if m / 8 == k / 8 {
      WithBitIs(b[k / 8], k % 8, v, m % 8);
    }
  }

  /** What the bits of a byte count, as btsl and btrl number them. */
  const WEIGHTS := [1, 2, 4, 8, 16, 32, 64, 128]

  /** Bit k of a block is bit k % 8 of byte k / 8; setting it where it is clear, or clearing it
      where it is set, adds its weight to that byte or takes it away. */
  lemma BitIs(b: Block, k: nat, v: bool)
    requires k < BITS
    ensures Bit(b, k) <==> b[k / 8] as int / WEIGHTS[k % 8] % 2 == 1
    ensures Bit(b, k) == v ==> SetBit(b, k, v) == b
    ensures Bit(b, k) != v ==>
      SetBit(b, k, v)[k / 8] == if v then b[k / 8] + WEIGHTS[k % 8] else b[k / 8] - WEIGHTS[k % 8]
    ensures forall i :: 0 <= i < BLK_SIZE && i != k / 8 ==> SetBit(b, k, v)[i] == b[i]
  {
    Weight(k % 8);
    BitOfByte(b[k / 8], k % 8);
    WithBitSum(b[k / 8], k % 8, v);
    hide BitOf, WithBit;
    if Bit(b, k) == v {
      assert SetBit(b, k, v)[k / 8] == b[k / 8];
    }
  }

  lemma Weight(j: nat)
    requires j < 8
    ensures Pow2(j) == WEIGHTS[j]
  {
    assert Pow2(2) == 4 && Pow2(4) == 16 && Pow2(6) == 64;
  }

  lemma BitOfByte(x: nat, j: nat)
    requires j < 8
    ensures BitOf(x, j) <==> x / WEIGHTS[j] % 2 == 1
  {
    if j > 0 {
      BitOfByte(x / 2, j - 1);
      assert x / 2 / WEIGHTS[j - 1] == x / WEIGHTS[j];
    }
  }

  lemma {:induction false} WithBitSum(x: nat, j: nat, v: bool)
    ensures WithBit(x, j, v) == if BitOf(x, j) == v then x else if v then x + Pow2(j) else x - Pow2(j)
  {
    if j > 0 {
      WithBitSum(x / 2, j - 1, v);
    }
  }

  /** Byte i of the block is one that find_first_zero recognises. */
  predicate Recognised(b: Block, i: nat, j: nat)
    requires i < BLK_SIZE && j < 8
  {
    b[i] == LowMask(j)
  }

  lemma RecognisedBits(b: Block, i: nat, j: nat)
    requires i < BLK_SIZE && j < 8 && Recognised(b, i, j)
    ensures !Bit(b, 8 * i + j) && forall k :: 8 * i <= k < 8 * i + j ==> Bit(b, k)
  {
    LowMaskBits(j, j);
    forall k | 8 * i <= k < 8 * i + j
      ensures Bit(b, k)
    {
      LowMaskBits(j, k - 8 * i);
    }
  }

  /** find_first_zero (fs/bitmap.c:28-42): the first zero bit of the first byte that is a
      row of ones from bit 0 up followed by zeros; -1 if there is no such byte. */
  method FindFirstZero(b: Block) returns (r: int)
    ensures r == -1 <==> forall i, j :: 0 <= i < BLK_SIZE && 0 <= j < 8 ==> !Recognised(b, i, j)
    ensures r != -1 ==> 0 <= r < BITS && !Bit(b, r) && Recognised(b, r / 8, r % 8)
    ensures r != -1 ==> b[r / 8] as int == [0x00, 0x01, 0x03, 0x07, 0x0F, 0x1F, 0x3F, 0x7F][r % 8]
    ensures r != -1 ==> forall k :: r / 8 * 8 <= k < r ==> Bit(b, k)
    ensures r != -1 ==> forall i, j :: 0 <= i < r / 8 && 0 <= j < 8 ==> !Recognised(b, i, j)
  {
    var code := [0x00, 0x01, 0x03, 0x07, 0x0F, 0x1F, 0x3F, 0x7F];
    assert forall j :: 0 <= j < 8 ==> code[j] == LowMask(j) by {
      assert LowMask(2) == 3 && LowMask(4) == 15 && LowMask(6) == 63;
    }
    hide BitOf, Bit, LowMask;
    var i := 0;
    while i < BLK_SIZE
      invariant 0 <= i <= BLK_SIZE
      invariant forall i', j :: 0 <= i' < i && 0 <= j < 8 ==> !Recognised(b, i', j)
    {
      var j := 0;
      while j < 8
        invariant 0 <= j <= 8
        invariant forall j' :: 0 <= j' < j ==> !Recognised(b, i, j')
      {
        if code[j] == b[i] {
          r := 8 * i + j;
          assert r / 8 == i && r % 8 == j && Recognised(b, i, j);
          RecognisedBits(b, i, j);
          return r;
        }
        j := j + 1;
      }
      i := i + 1;
    }
    return -1;
  }

  /** The search is not complete: a block whose bytes are all 0x02 has zero bits, but
      none of its bytes is recognised. */
  lemma ZeroBitMissed() returns (b: Block)
    ensures !Bit(b, 0)
    ensures forall i, j :: 0 <= i < BLK_SIZE && 0 <= j < 8 ==> !Recognised(b, i, j)
  {
    b := seq(BLK_SIZE, _ => 2);
    forall i, j | 0 <= i < BLK_SIZE && 0 <= j < 8
      ensures !Recognised(b, i, j)
    {
      assert LowMask(1) == 1;
      if j > 1 {
        assert LowMask(j) == 1 + 2 * LowMask(j - 1);
      }
    }
  }
}
