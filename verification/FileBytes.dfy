/** Files as byte arrays: what the blocks of a file tree mean to a reader. */
module FileBytes {
  import opened Basics
  import opened Blocks
  import opened CacheState
  import opened FileTree

  const MAX_BYTES := MAX_BLKS * BLK_SIZE

  /** Byte o of file ino. A block that is not there reads as zeros. */
  function ByteAt(v: View, zs: Zones, ino: nat, o: nat): Byte
    requires o < MAX_BYTES
  {
    var b := Ptr(v, zs, DataSlot(ino, o / BLK_SIZE));
    if b == 0 then 0 else At(v, b)[o % BLK_SIZE]
  }

  /** Where byte o of a file is: in the block that zone o / 1024 names, or that a word of a table
      names, at offset o % 1024. */
  lemma ByteIs(v: View, zs: Zones, ino: nat, o: nat)
    requires o < MAX_BYTES && ino in zs && |zs[ino]| == 9
    ensures o < 7 * 1024 ==>
      var b := zs[ino][o / 1024];
      ByteAt(v, zs, ino, o) == if b == 0 then 0 else At(v, b)[o % 1024]
    ensures 7 * 1024 <= o < 519 * 1024 ==>
      var b := if zs[ino][7] == 0 then 0 else Entry(At(v, zs[ino][7]), o / 1024 - 7);
      ByteAt(v, zs, ino, o) == if b == 0 then 0 else At(v, b)[o % 1024]
    ensures o >= 519 * 1024 ==>
      var t := if zs[ino][8] == 0 then 0 else Entry(At(v, zs[ino][8]), (o / 1024 - 519) / 512);
      var b := if t == 0 then 0 else Entry(At(v, t), (o / 1024 - 519) % 512);
      ByteAt(v, zs, ino, o) == if b == 0 then 0 else At(v, b)[o % 1024]
  {
    BlockIs(v, zs, ino, o / BLK_SIZE);
    hide Ptr, DataSlot, At, Entry;
  }

  /** Mapping or creating a block changes no byte of any file. */
  lemma ExtendedBytes(v: View, zs: Zones, v': View, zs': Zones, s: Slot, r: nat, ino: nat, o: nat)
    requires IsData(s) && Extended(v, zs, v', zs', s, r) && o < MAX_BYTES
    requires r == Ptr(v, zs, s) || (Ptr(v, zs, s) == 0 && At(v', r) == ZeroBlock())
    ensures ByteAt(v', zs', ino, o) == ByteAt(v, zs, ino, o)
  {
  }

  /** Writing the block of a data slot moves no block and keeps ownership. */
  lemma StoredOwned(v: View, zs: Zones, used: set<nat>, owner: map<nat, Slot>, s: Slot, d: Block)
    requires Owned(v, zs, used, owner) && IsData(s) && Ptr(v, zs, s) != 0
    ensures var v' := v[BlkKey(Ptr(v, zs, s)) := d];
      && Owned(v', zs, used, owner)
      && (forall t :: IsSlot(t) ==> Ptr(v', zs, t) == Ptr(v, zs, t))
      && (forall t :: IsSlot(t) && t != s && Ptr(v, zs, t) != 0 ==> At(v', Ptr(v, zs, t)) == At(v, Ptr(v, zs, t)))
      && At(v', Ptr(v, zs, s)) == d
  {
    var v' := v[BlkKey(Ptr(v, zs, s)) := d];
    forall t | IsSlot(t) && t != s && Ptr(v, zs, t) != 0
      ensures At(v', Ptr(v, zs, t)) == At(v, Ptr(v, zs, t))
    {
      Distinct(v, zs, used, owner, t, s);
    }
    forall t | IsSlot(t)
      ensures Ptr(v', zs, t) == Ptr(v, zs, t)
    {
      PtrFrame(v, v', zs, t);
    }
  }

  /** ... and changes the bytes of that block of that file only. */
  lemma StoredBytes(v: View, zs: Zones, used: set<nat>, owner: map<nat, Slot>, ino: nat, n: nat, d: Block, ino': nat,
                    o: nat)
    requires Owned(v, zs, used, owner) && n < MAX_BLKS && Ptr(v, zs, DataSlot(ino, n)) != 0 && o < MAX_BYTES
    ensures var v' := v[BlkKey(Ptr(v, zs, DataSlot(ino, n))) := d];
      ByteAt(v', zs, ino', o) == if ino' == ino && o / BLK_SIZE == n then d[o % BLK_SIZE] else ByteAt(v, zs, ino', o)
  {
    StoredOwned(v, zs, used, owner, DataSlot(ino, n), d);
    if DataSlot(ino', o / BLK_SIZE) == DataSlot(ino, n) {
      DataSlotInjective(ino', o / BLK_SIZE, ino, n);
    }
  }

  /** A file that is kept has the same bytes. */
  lemma OthersBytes(v: View, zs: Zones, v': View, zs': Zones, ino: nat, i: nat, o: nat)
    requires OthersKept(v, zs, v', zs', ino) && i != ino && o < MAX_BYTES
    ensures ByteAt(v', zs', i, o) == ByteAt(v, zs, i, o)
  {
    hide Ptr, DataSlot;
    assert SlotKept(v, zs, v', zs', DataSlot(i, o / BLK_SIZE));
  }

  /** If all slots are kept so is every byte of every file. */
  lemma StillBytes(v: View, zs: Zones, v': View, zs': Zones, i: nat, o: nat)
    requires StillThere(v, zs, v', zs') && o < MAX_BYTES
    ensures ByteAt(v', zs', i, o) == ByteAt(v, zs, i, o)
  {
    hide Ptr, DataSlot;
  }

  /** Storing a block of a file leaves the other files as they are. */
  lemma StoredOthers(v: View, zs: Zones, used: set<nat>, owner: map<nat, Slot>, ino: nat, i: nat, d: Block)
    requires Owned(v, zs, used, owner) && i < MAX_BLKS && Ptr(v, zs, DataSlot(ino, i)) != 0
    ensures OthersKept(v, zs, v[BlkKey(Ptr(v, zs, DataSlot(ino, i))) := d], zs, ino)
  {
    StoredOwned(v, zs, used, owner, DataSlot(ino, i), d);
    hide Owned, Ptr, DataSlot;
  }

  // ---------- where file_wr puts bytes ----------

  /** The file offset at which file_wr puts byte k of its buffer, when it starts with the
      position pos and the file position fpos (they differ only under O_APPEND): the block
      comes from the file position at the start of the chunk, the offset in it from pos. */
  function Landing(pos: nat, fpos: nat, k: nat): nat {
    var start := Max(pos, (pos + k) / BLK_SIZE * BLK_SIZE);
    (fpos + start - pos) / BLK_SIZE * BLK_SIZE + (pos + k) % BLK_SIZE
  }

  /** Without O_APPEND every byte lands where it should. */
  lemma LandingPlain(pos: nat, k: nat)
    ensures Landing(pos, pos, k) == pos + k
  {
    var start := Max(pos, (pos + k) / BLK_SIZE * BLK_SIZE);
    assert start / BLK_SIZE == (pos + k) / BLK_SIZE;
  }

  /** With O_APPEND, where pos is the end of the file, all n bytes land behind one another
      from pos on if and only if the first block is the right one and, when the bytes reach
      into another block, the file position is not before the end of the file. */
  lemma LandingAppend(pos: nat, fpos: nat, n: nat)
    requires n > 0
    ensures (forall k :: 0 <= k < n ==> Landing(pos, fpos, k) == pos + k) <==>
      fpos / BLK_SIZE == pos / BLK_SIZE && (pos % BLK_SIZE + n <= BLK_SIZE || fpos >= pos)
  {
    var first := BLK_SIZE - pos % BLK_SIZE;
    LandingFirst(pos, fpos, 0);
    if n > first && fpos / BLK_SIZE == pos / BLK_SIZE {
      LandingLater(pos, fpos, first);
    }
    if fpos / BLK_SIZE == pos / BLK_SIZE && (n <= first || fpos >= pos) {
      forall k | 0 <= k < n
        ensures Landing(pos, fpos, k) == pos + k
      {
        if k < first {
          LandingFirst(pos, fpos, k);
        } else {
          LandingLater(pos, fpos, k);
        }
      }
    }
  }

  lemma LandingFirst(pos: nat, fpos: nat, k: nat)
    requires k < BLK_SIZE - pos % BLK_SIZE
    ensures Landing(pos, fpos, k) == fpos / BLK_SIZE * BLK_SIZE + pos % BLK_SIZE + k
    ensures Landing(pos, fpos, k) == pos + k <==> fpos / BLK_SIZE == pos / BLK_SIZE
  {
    assert (pos + k) / BLK_SIZE == pos / BLK_SIZE && (pos + k) % BLK_SIZE == pos % BLK_SIZE + k;
  }

  lemma LandingLater(pos: nat, fpos: nat, k: nat)
    requires k >= BLK_SIZE - pos % BLK_SIZE && fpos / BLK_SIZE == pos / BLK_SIZE
    ensures Landing(pos, fpos, k) == pos + k <==> fpos >= pos
  {
    var start := (pos + k) / BLK_SIZE * BLK_SIZE;
    assert start >= pos && Max(pos, start) == start;
    assert (fpos + start - pos) / BLK_SIZE == (start + fpos - pos) / BLK_SIZE;
  }

  /** Byte o of file ino after the first k bytes of buf were written. */
  function After(v: View, zs: Zones, ino: nat, buf: seq<Byte>, pos: nat, fpos: nat, k: nat, o: nat): Byte
    requires k <= |buf| && o < MAX_BYTES
  {
    if k == 0 then ByteAt(v, zs, ino, o)
    else if Landing(pos, fpos, k - 1) == o then buf[k - 1]
    else After(v, zs, ino, buf, pos, fpos, k - 1, o)
  }

  /** Without O_APPEND exactly the bytes from pos on are replaced. */
  lemma {:induction false} AfterPlain(v: View, zs: Zones, ino: nat, buf: seq<Byte>, pos: nat, k: nat, o: nat)
    requires k <= |buf| && o < MAX_BYTES
    ensures After(v, zs, ino, buf, pos, pos, k, o) == if pos <= o < pos + k then buf[o - pos] else ByteAt(v, zs, ino, o)
  {
    hide ByteAt, Landing;
    if k > 0 {
      LandingPlain(pos, k - 1);
      AfterPlain(v, zs, ino, buf, pos, k - 1, o);
    }
  }

  /** One chunk: n bytes into one block. */
  lemma {:induction false} AfterChunk(v: View, zs: Zones, ino: nat, buf: seq<Byte>, pos: nat, fpos: nat, k: nat,
                                      n: nat, o: nat)
    requires k + n <= |buf| && o < MAX_BYTES
    requires k == 0 || (pos + k) % BLK_SIZE == 0
    requires (pos + k) % BLK_SIZE + n <= BLK_SIZE
    ensures var off := (pos + k) % BLK_SIZE;
      After(v, zs, ino, buf, pos, fpos, k + n, o) ==
      if o / BLK_SIZE == (fpos + k) / BLK_SIZE && off <= o % BLK_SIZE < off + n then buf[k + (o % BLK_SIZE - off)]
      else After(v, zs, ino, buf, pos, fpos, k, o)
  {
    hide ByteAt, Landing;
    if n > 0 {
      AfterChunk(v, zs, ino, buf, pos, fpos, k, n - 1, o);
      LandingInChunk(pos, fpos, k, n - 1);
    }
  }

  lemma LandingInChunk(pos: nat, fpos: nat, k: nat, j: nat)
    requires k == 0 || (pos + k) % BLK_SIZE == 0
    requires (pos + k) % BLK_SIZE + j < BLK_SIZE
    ensures Landing(pos, fpos, k + j) == (fpos + k) / BLK_SIZE * BLK_SIZE + (pos + k) % BLK_SIZE + j
  {
    assert (pos + k + j) / BLK_SIZE == (pos + k) / BLK_SIZE && (pos + k + j) % BLK_SIZE == (pos + k) % BLK_SIZE + j;
    if k != 0 {
      assert (pos + k) / BLK_SIZE * BLK_SIZE == pos + k;
    }
  }

  /** The state (v', zs') is (v, zs) with the first k bytes of buf written to file ino. */
  ghost predicate Wrote(v: View, zs: Zones, ino: nat, buf: seq<Byte>, pos: nat, fpos: nat, k: nat, v': View, zs': Zones)
    requires k <= |buf|
  {
    forall i, o :: 0 <= o < MAX_BYTES ==>
      ByteAt(v', zs', i, o) == if i == ino then After(v, zs, ino, buf, pos, fpos, k, o) else ByteAt(v, zs, i, o)
  }

  lemma WroteNone(v: View, zs: Zones, ino: nat, buf: seq<Byte>, pos: nat, fpos: nat)
    ensures Wrote(v, zs, ino, buf, pos, fpos, 0, v, zs)
  {
  }

  /** Mapping a block in between writes nothing. */
  lemma WroteMapped(v: View, zs: Zones, ino: nat, buf: seq<Byte>, pos: nat, fpos: nat, k: nat, v': View, zs': Zones,
                    v'': View, zs'': Zones, s: Slot, r: nat)
    requires k <= |buf| && Wrote(v, zs, ino, buf, pos, fpos, k, v', zs')
    requires IsData(s) && Extended(v', zs', v'', zs'', s, r)
    requires r == Ptr(v', zs', s) || (Ptr(v', zs', s) == 0 && At(v'', r) == ZeroBlock())
    ensures Wrote(v, zs, ino, buf, pos, fpos, k, v'', zs'')
  {
    forall i, o | 0 <= o < MAX_BYTES
      ensures ByteAt(v'', zs'', i, o) == ByteAt(v', zs', i, o)
    {
      ExtendedBytes(v', zs', v'', zs'', s, r, i, o);
    }
  }

  /** The next n bytes go into block b of the file at offset off. */
  ghost predicate ChunkStored(v: View, zs: Zones, v': View, ino: nat, b: nat, off: nat, n: nat, buf: seq<Byte>, at: nat)
    requires at + n <= |buf|
  {
    forall i, o :: 0 <= o < MAX_BYTES ==>
      ByteAt(v', zs, i, o) == if i == ino && o / BLK_SIZE == b && off <= o % BLK_SIZE < off + n then buf[at + (o % BLK_SIZE - off)] else ByteAt(v, zs, i, o)
  }

  lemma WroteChunk(v: View, zs: Zones, ino: nat, buf: seq<Byte>, pos: nat, fpos: nat, k: nat, n: nat, v': View,
                   zs': Zones, v'': View)
    requires k + n <= |buf| && Wrote(v, zs, ino, buf, pos, fpos, k, v', zs')
    requires k == 0 || (pos + k) % BLK_SIZE == 0
    requires (pos + k) % BLK_SIZE + n <= BLK_SIZE
    requires ChunkStored(v', zs', v'', ino, (fpos + k) / BLK_SIZE, (pos + k) % BLK_SIZE, n, buf, k)
    ensures Wrote(v, zs, ino, buf, pos, fpos, k + n, v'', zs')
  {
    hide ByteAt, After;
    forall i, o | 0 <= o < MAX_BYTES
      ensures ByteAt(v'', zs', i, o) == if i == ino then After(v, zs, ino, buf, pos, fpos, k + n, o) else ByteAt(v, zs, i, o)
    {
      AfterChunk(v, zs, ino, buf, pos, fpos, k, n, o);
    }
  }

  /** File refinement: without O_APPEND, file_wr replaces exactly the bytes [pos, pos + k) of
      the file by those of buf, holes included, and no byte of any other file. */
  lemma WrotePlain(v: View, zs: Zones, ino: nat, buf: seq<Byte>, pos: nat, k: nat, v': View, zs': Zones, i: nat, o: nat)
    requires k <= |buf| && Wrote(v, zs, ino, buf, pos, pos, k, v', zs') && o < MAX_BYTES
    ensures ByteAt(v', zs', i, o) == if i == ino && pos <= o < pos + k then buf[o - pos] else ByteAt(v, zs, i, o)
  {
    AfterPlain(v, zs, ino, buf, pos, k, o);
  }

  /** So a read from the same position gets back what was written. */
  lemma ReadBack(v: View, zs: Zones, ino: nat, buf: seq<Byte>, pos: nat, k: nat, v': View, zs': Zones, got: seq<Byte>)
    requires k <= |buf| && Wrote(v, zs, ino, buf, pos, pos, k, v', zs') && pos + k <= MAX_BYTES && |got| == k
    requires forall j :: 0 <= j < k ==> got[j] == ByteAt(v', zs', ino, pos + j)
    ensures got == buf[..k]
  {
    hide ByteAt, Wrote;
    forall j | 0 <= j < k
      ensures got[j] == buf[j]
    {
      WrotePlain(v, zs, ino, buf, pos, k, v', zs', ino, pos + j);
    }
  }

  /** With O_APPEND the same holds of the bytes behind the old end exactly when they all
      land there (see LandingAppend). */
  lemma WroteAppend(v: View, zs: Zones, ino: nat, buf: seq<Byte>, pos: nat, fpos: nat, k: nat, v': View, zs': Zones,
                    i: nat, o: nat)
    requires k <= |buf| && Wrote(v, zs, ino, buf, pos, fpos, k, v', zs') && o < MAX_BYTES
    requires fpos / BLK_SIZE == pos / BLK_SIZE && (pos % BLK_SIZE + k <= BLK_SIZE || fpos >= pos)
    ensures ByteAt(v', zs', i, o) == if i == ino then Appended(v, zs, ino, buf, pos, k, o) else ByteAt(v, zs, i, o)
  {
    if k > 0 {
      LandingAppend(pos, fpos, k);
    }
    AfterLanded(v, zs, ino, buf, pos, fpos, k, o);
  }

  /** The file as an append of the first k bytes of buf should leave it. */
  function Appended(v: View, zs: Zones, ino: nat, buf: seq<Byte>, pos: nat, k: nat, o: nat): Byte
    requires k <= |buf| && o < MAX_BYTES
  {
    if pos <= o < pos + k then buf[o - pos] else ByteAt(v, zs, ino, o)
  }

  /** When they do not all land there, some buffer of that length leaves some byte of the file
      other than an append should. */
  lemma AppendMisses(v: View, zs: Zones, ino: nat, pos: nat, fpos: nat, k: nat) returns (buf: seq<Byte>, o: nat)
    requires k > 0 && pos + k <= MAX_BYTES && fpos + k <= MAX_BYTES
    requires !(fpos / BLK_SIZE == pos / BLK_SIZE && (pos % BLK_SIZE + k <= BLK_SIZE || fpos >= pos))
    ensures |buf| == k && o < MAX_BYTES
    ensures forall v', zs' :: Wrote(v, zs, ino, buf, pos, fpos, k, v', zs') ==>
      ByteAt(v', zs', ino, o) != Appended(v, zs, ino, buf, pos, k, o)
  {
    o := WrongPlace(pos, fpos, k);
    hide Landing, ByteAt;
    var c: Byte := if ByteAt(v, zs, ino, o) == 0 then 1 else 0;
    buf := seq(k, _ => c);
    AfterConst(v, zs, ino, buf, c, pos, fpos, k, o);
  }

  /** A place where something lands and nothing should, or the other way round. */
  lemma WrongPlace(pos: nat, fpos: nat, k: nat) returns (o: nat)
    requires k > 0 && pos + k <= MAX_BYTES && fpos + k <= MAX_BYTES
    requires !(fpos / BLK_SIZE == pos / BLK_SIZE && (pos % BLK_SIZE + k <= BLK_SIZE || fpos >= pos))
    ensures o < MAX_BYTES && ((exists j :: 0 <= j < k && Landing(pos, fpos, j) == o) <==> !(pos <= o < pos + k))
  {
    LandingFirst(pos, fpos, 0);
    var first := BLK_SIZE - pos % BLK_SIZE;
    if fpos / BLK_SIZE == pos / BLK_SIZE {
      LandingSecond(pos, fpos);
      o := pos / BLK_SIZE * BLK_SIZE;
      assert Landing(pos, fpos, first) == o;
    } else if pos <= Landing(pos, fpos, 0) < pos + k {
      o := pos;
      forall j | 0 <= j < k
        ensures Landing(pos, fpos, j) > pos
      {
        LandingFrom(pos, fpos, j);
      }
    } else {
      o := Landing(pos, fpos, 0);
      LandingBelow(pos, fpos);
    }
  }

  lemma LandingBelow(pos: nat, fpos: nat)
    requires fpos < MAX_BYTES
    ensures Landing(pos, fpos, 0) < MAX_BYTES
  {
    LandingFirst(pos, fpos, 0);
    assert fpos / BLK_SIZE < MAX_BLKS;
  }

  /** The first byte of the second block lands in the first again. */
  lemma LandingSecond(pos: nat, fpos: nat)
    requires fpos / BLK_SIZE == pos / BLK_SIZE && fpos < pos
    ensures Landing(pos, fpos, BLK_SIZE - pos % BLK_SIZE) == pos / BLK_SIZE * BLK_SIZE < pos
  {
    var k := BLK_SIZE - pos % BLK_SIZE;
    assert (pos + k) / BLK_SIZE * BLK_SIZE == pos + k && (pos + k) % BLK_SIZE == 0;
    assert (fpos + k) / BLK_SIZE == pos / BLK_SIZE;
  }

  lemma LandingFrom(pos: nat, fpos: nat, k: nat)
    ensures Landing(pos, fpos, k) >= fpos / BLK_SIZE * BLK_SIZE
  {
    var start := Max(pos, (pos + k) / BLK_SIZE * BLK_SIZE);
    assert (fpos + start - pos) / BLK_SIZE >= fpos / BLK_SIZE;
  }

  lemma {:induction false} AfterConst(v: View, zs: Zones, ino: nat, buf: seq<Byte>, c: Byte, pos: nat, fpos: nat,
                                      k: nat, o: nat)
    requires k <= |buf| && o < MAX_BYTES && forall j :: 0 <= j < |buf| ==> buf[j] == c
    ensures After(v, zs, ino, buf, pos, fpos, k, o) == if exists j :: 0 <= j < k && Landing(pos, fpos, j) == o then c else ByteAt(v, zs, ino, o)
  {
    hide ByteAt, Landing;
    if k > 0 {
      AfterConst(v, zs, ino, buf, c, pos, fpos, k - 1, o);
    }
  }

  /** A file of one block, opened with O_APPEND and the position at its start: the byte written
      goes over the first byte of the file and not behind the last. */
  lemma AppendedAtStart(v: View, zs: Zones, ino: nat, c: Byte, v': View, zs': Zones)
    requires Wrote(v, zs, ino, [c], BLK_SIZE, 0, 1, v', zs')
    ensures ByteAt(v', zs', ino, 0) == c && ByteAt(v', zs', ino, BLK_SIZE) == ByteAt(v, zs, ino, BLK_SIZE)
  {
    hide ByteAt;
    LandingFirst(BLK_SIZE, 0, 0);
    assert After(v, zs, ino, [c], BLK_SIZE, 0, 1, 0) == c;
    assert After(v, zs, ino, [c], BLK_SIZE, 0, 1, BLK_SIZE) == After(v, zs, ino, [c], BLK_SIZE, 0, 0, BLK_SIZE);
  }

  lemma {:induction false} AfterLanded(v: View, zs: Zones, ino: nat, buf: seq<Byte>, pos: nat, fpos: nat, k: nat,
                                       o: nat)
    requires k <= |buf| && o < MAX_BYTES && forall j :: 0 <= j < k ==> Landing(pos, fpos, j) == pos + j
    ensures After(v, zs, ino, buf, pos, fpos, k, o) == if pos <= o < pos + k then buf[o - pos] else ByteAt(v, zs, ino, o)
  {
    hide ByteAt, Landing;
    if k > 0 {
      AfterLanded(v, zs, ino, buf, pos, fpos, k - 1, o);
    }
  }
}
