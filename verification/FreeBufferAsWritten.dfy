/** free_buffer as it is written (fs/buffer.c:117-118). It clears a hash row whenever the
    buffer freed is the first of the row, not only when it is the last one left, and so
    loses the other buffers of the row. The cache elsewhere in this project uses
    HashTable.Unhash, which moves the head of the row on instead. */
module FreeBufferAsWritten {
  import opened Blocks
  import opened Rings
  import opened HashTable
  import opened CacheState

  function UnhashAsWritten(key: seq<Key>, l: Links, p: nat): Links
    requires p < |key| == |l.hashNext| == |l.hashPrev| && |l.hash| == NR_HASH
    requires 0 <= l.hashNext[p] < |key| && 0 <= l.hashPrev[p] < |key|
  {
    var r := Irow(key[p]);
    if l.hash[r] == p then
      l.(hash := l.hash[r := NIL])
    else
      l.(hashNext := l.hashNext[l.hashPrev[p] := l.hashNext[p]],
         hashPrev := l.hashPrev[l.hashNext[p] := l.hashPrev[p]])
  }

  /** p is not the first of its row, or there is no other. */
  predicate Harmless(key: seq<Key>, l: Links, p: nat)
    requires p < |key| == |l.hashNext| && |l.hash| == NR_HASH
  {
    l.hash[Irow(key[p])] != p || l.hashNext[p] == p
  }

  /** The rows that are left. */
  function RowsLeft(key: seq<Key>, l: Links, rows: seq<seq<nat>>, p: nat, k: nat): (left: seq<seq<nat>>)
    requires p < |key| && |rows| == |l.hash| == NR_HASH && k < |rows[Irow(key[p])]|
    ensures |left| == NR_HASH
  {
    var r := Irow(key[p]);
    rows[r := if l.hash[r] == p then [] else Without(rows[r], k)]
  }

  /** The hash table stays well formed: its rows are those that are left. */
  lemma AsWrittenRows(key: seq<Key>, l: Links, rows: seq<seq<nat>>, p: nat, k: nat)
    requires RowsOK(key, l, rows) && p < |key| && key[p].dev != 0
    requires k < |rows[Irow(key[p])]| && rows[Irow(key[p])][k] == p
    ensures |l.hash| == NR_HASH && |l.hashNext| == |l.hashPrev| == |key|
    ensures 0 <= l.hashNext[p] < |key| && 0 <= l.hashPrev[p] < |key|
    ensures RowsOK(key, UnhashAsWritten(key, l, p), RowsLeft(key, l, rows, p, k))
    ensures Harmless(key, l, p) <==> RowsLeft(key, l, rows, p, k) == rows[Irow(key[p]) := Without(rows[Irow(key[p])], k)]
  {
    hide Ring;
    var r := Irow(key[p]);
    UnhashRows(key, l, rows, p, k);
    var s, l' := rows[r], UnhashAsWritten(key, l, p);
    assert RowOK(key, l, r, s);
    RingSizes(l.hashNext, l.hashPrev, s);
    RingSingle(l.hashNext, l.hashPrev, s, k);
    if l.hash[r] == p {
      RingEmpty(l'.hashNext, l'.hashPrev);
      assert RowOK(key, l', r, []);
      OtherRowsKept(key, l, l', rows, r, p, []);
      assert k == 0;
      assert |Without(s, k)| == |s| - 1;
    } else {
      assert |s| > 1;
      assert l' == Unhash(key, l, p);
    }
    assert rows[r := []][r] == [] && rows[r := Without(s, k)][r] == Without(s, k);
  }

  /** What find_buffer goes by: some head on the row of block q is of block q. */
  ghost predicate Cached(key: seq<Key>, rows: seq<seq<nat>>, q: Key)
    requires |rows| == NR_HASH
  {
    exists b :: b in rows[Irow(q)] && b < |key| && key[b] == q
  }

  /** The blocks of the other heads of the row, if they are lost. */
  ghost function Lost(key: seq<Key>, l: Links, rows: seq<seq<nat>>, p: nat): set<Key>
    requires p < |key| && |rows| == |l.hash| == NR_HASH
    requires forall b :: b in rows[Irow(key[p])] ==> b < |key|
  {
    var r := Irow(key[p]);
    if l.hash[r] == p then set b | b in rows[r] && b != p :: key[b] else {}
  }

  /** The cache after free_buffer(p) as written. */
  ghost function FreedAsWritten(c: State, l: Links, rows: seq<seq<nat>>, p: nat): State
    requires p < |c.key| == |c.valid| == |c.dirt| && |rows| == |l.hash| == NR_HASH
    requires forall b :: b in rows[Irow(c.key[p])] ==> b < |c.key|
  {
    Freed(c, p).(at := Freed(c, p).at - Lost(c.key, l, rows, p))
  }

  lemma RowHeads(key: seq<Key>, l: Links, rows: seq<seq<nat>>, r: nat)
    requires RowsOK(key, l, rows) && r < NR_HASH
    ensures |rows| == |l.hash| == NR_HASH && |l.hashNext| == |key|
    ensures NoDup(rows[r]) && forall b :: b in rows[r] ==> b < |key| && key[b].dev != 0 && Irow(key[b]) == r
    ensures l.hash[r] == HeadOf(rows[r])
  {
    assert RowOK(key, l, r, rows[r]);
  }

  /** Every head on a row is the one cached for its block. */
  lemma RowAt(c: State, x: int, l: Links, rows: seq<seq<nat>>, free: seq<nat>, r: nat)
    requires Coherent(c, x) && Linked(c.key, l, rows, free) && r < NR_HASH
    ensures |rows| == NR_HASH
    ensures forall b :: b in rows[r] ==> b < |c.key| && c.key[b] in c.at && c.at[c.key[b]] == b && Irow(c.key[b]) == r
    ensures forall q :: q in c.at && Irow(q) == r ==> c.at[q] in rows[r] && c.key[c.at[q]] == q
  {
    RowHeads(c.key, l, rows, r);
    forall b | b in rows[r]
      ensures c.key[b] in c.at && c.at[c.key[b]] == b
    {
      assert c.HeadOK(b, x);
    }
    forall q | q in c.at && Irow(q) == r
      ensures c.at[q] in rows[r] && c.key[c.at[q]] == q
    {
      assert c.key[c.at[q]] == q;
    }
  }

  lemma InWithout(s: seq<nat>, k: nat, b: nat)
    requires NoDup(s) && k < |s|
    ensures b in Without(s, k) <==> b in s && b != s[k]
  {
    if b in s && b != s[k] {
      var j :| 0 <= j < |s| && s[j] == b;
      assert Without(s, k)[if j < k then j else j - 1] == b;
    }
    if b in Without(s, k) {
      var j :| 0 <= j < |s| - 1 && Without(s, k)[j] == b;
      assert s[if j < k then j else j + 1] == b;
    }
  }

  /** What is left of a row. */
  lemma LeftOnRow(key: seq<Key>, l: Links, rows: seq<seq<nat>>, p: nat, k: nat, r: nat, b: nat)
    requires RowsOK(key, l, rows) && p < |key| && key[p].dev != 0 && r < NR_HASH && |rows| == |l.hash| == NR_HASH
    requires k < |rows[Irow(key[p])]| && rows[Irow(key[p])][k] == p
    ensures b in RowsLeft(key, l, rows, p, k)[r] <==> b in rows[r] && b != p && (r == Irow(key[p]) ==> l.hash[r] != p)
  {
    RowHeads(key, l, rows, r);
    if r == Irow(key[p]) {
      InWithout(rows[r], k, b);
    }
  }

  /** After free_buffer the blocks still found are those that were found before, but for the
      block of the buffer freed and the lost ones. */
  lemma FoundAfter(c: State, l: Links, rows: seq<seq<nat>>, free: seq<nat>, p: nat, k: nat, q: Key)
    requires Coherent(c, p) && Linked(c.key, l, rows, free) && p < |c.key| && c.key[p].dev != 0 && q.dev != 0
    requires |rows| == NR_HASH && k < |rows[Irow(c.key[p])]| && rows[Irow(c.key[p])][k] == p
    requires |l.hash| == NR_HASH && forall b :: b in rows[Irow(c.key[p])] ==> b < |c.key|
    ensures Cached(c.key[p := Key(0, 0)], RowsLeft(c.key, l, rows, p, k), q) <==> q in FreedAsWritten(c, l, rows, p).at
  {
    hide Coherent, Linked, RowsOK, Irow, Without, RowsLeft;
    var r := Irow(c.key[p]);
    LostIs(c, l, rows, free, p, q);
    forall b: nat | true
      ensures b in RowsLeft(c.key, l, rows, p, k)[Irow(q)] <==> b in rows[Irow(q)] && b != p && (Irow(q) == r ==> l.hash[r] != p)
    {
      LinkedRows(c.key, l, rows, free);
      LeftOnRow(c.key, l, rows, p, k, Irow(q), b);
    }
    hide Lost;
    FoundCore(c.key, c.at, rows[Irow(q)], RowsLeft(c.key, l, rows, p, k)[Irow(q)], p, q,
              Irow(q) == r && l.hash[r] == p, Lost(c.key, l, rows, p));
  }

  lemma LinkedRows(key: seq<Key>, l: Links, rows: seq<seq<nat>>, free: seq<nat>)
    requires Linked(key, l, rows, free)
    ensures RowsOK(key, l, rows)
  {
  }

  lemma FoundCore(key: seq<Key>, at: map<Key, nat>, row: seq<nat>, row': seq<nat>, p: nat, q: Key, gone: bool,
                  lost: set<Key>)
    requires p < |key| && q.dev != 0
    requires forall b :: b in row ==> b < |key| && key[b] in at && at[key[b]] == b
    requires q in at ==> at[q] in row && key[at[q]] == q && (at[q] == p <==> q == key[p])
    requires forall b: nat :: b in row' <==> b in row && b != p && !gone
    requires q in lost <==> gone && q in at && at[q] != p
    ensures (exists b :: b in row' && b < |key| && key[p := Key(0, 0)][b] == q) <==> q in at && q != key[p] && q !in lost
  {
    if q in at && at[q] in row' {
      assert key[p := Key(0, 0)][at[q]] == q;
    }
  }

  /** A block is lost if it has another head on the row that is cleared. */
  lemma LostIs(c: State, l: Links, rows: seq<seq<nat>>, free: seq<nat>, p: nat, q: Key)
    requires Coherent(c, p) && Linked(c.key, l, rows, free) && p < |c.key| && c.key[p].dev != 0
    requires |rows| == |l.hash| == NR_HASH && forall b :: b in rows[Irow(c.key[p])] ==> b < |c.key|
    ensures q in Lost(c.key, l, rows, p) <==> Irow(q) == Irow(c.key[p]) && l.hash[Irow(q)] == p && q in c.at && c.at[q] != p
    ensures forall b :: b in rows[Irow(q)] ==> b < |c.key| && c.key[b] in c.at && c.at[c.key[b]] == b
    ensures q in c.at ==> c.at[q] in rows[Irow(q)] && c.key[c.at[q]] == q && (c.at[q] == p <==> q == c.key[p])
  {
    hide Linked, Irow;
    RowAt(c, p, l, rows, free, Irow(c.key[p]));
    RowAt(c, p, l, rows, free, Irow(q));
    assert c.HeadOK(p, p);
  }

  /** Losing the buffers of some blocks loses exactly what the disk did not have of them. */
  lemma LostLogical(c: State, p: nat, lost: set<Key>)
    requires Coherent(c, p) && p < |c.key| && c.key[p].dev != 0 && c.cnt[p] == 0
    requires c.valid[p] ==> c.data[p] == DiskAt(c.disk, c.key[p])
    requires forall q :: q in lost ==> q in Freed(c, p).at
    ensures var c' := Freed(c, p).(at := Freed(c, p).at - lost);
      c'.Sized() && ((forall q: Key :: c'.Logical(q) == c.Logical(q)) <==> forall q :: q in lost ==> c.Logical(q) == DiskAt(c.disk, q))
  {
    hide Coherent;
    FreedLogical(c, p);
    var c' := Freed(c, p).(at := Freed(c, p).at - lost);
    assert forall q: Key :: c'.Logical(q) == if q in lost then DiskAt(c.disk, q) else Freed(c, p).Logical(q);
  }

  lemma FreedLogical(c: State, p: nat)
    requires Coherent(c, p) && p < |c.key| && c.key[p].dev != 0 && c.cnt[p] == 0
    requires c.valid[p] ==> c.data[p] == DiskAt(c.disk, c.key[p])
    ensures c.Sized() && Freed(c, p).Sized()
    ensures forall q: Key :: Freed(c, p).Logical(q) == c.Logical(q)
  {
    FreedCoherent(c, p);
    forall q: Key | true
      ensures Freed(c, p).Logical(q) == c.Logical(q)
    {
      assert Freed(c, p).Logical(q) == Freed(c, p).view[q] && c.view[q] == c.Logical(q);
    }
  }

  /** The logical disk survives exactly if the buffer freed was not the first of several, or if
      the disk has what is in all other buffers of the row: otherwise changes are lost. */
  lemma LogicalKept(c: State, l: Links, rows: seq<seq<nat>>, free: seq<nat>, p: nat)
    requires Coherent(c, p) && Linked(c.key, l, rows, free) && p < |c.key| && c.key[p].dev != 0 && c.cnt[p] == 0
    requires c.valid[p] ==> c.data[p] == DiskAt(c.disk, c.key[p])
    requires |rows| == |l.hash| == NR_HASH && |l.hashNext| == |c.key| && c.Sized()
    requires forall b :: b in rows[Irow(c.key[p])] ==> b < |c.key|
    ensures FreedAsWritten(c, l, rows, p).Sized()
    ensures (forall q: Key :: FreedAsWritten(c, l, rows, p).Logical(q) == c.Logical(q)) <==>
      Harmless(c.key, l, p) ||
      forall b :: b in rows[Irow(c.key[p])] && c.valid[b] ==> c.data[b] == DiskAt(c.disk, c.key[b])
  {
    hide *;
    LostFacts(c, l, rows, free, p);
    LostLogical(c, p, Lost(c.key, l, rows, p));
    LostReads(c, Lost(c.key, l, rows, p), rows[Irow(c.key[p])], p);
    FreedIs(c, l, rows, p);
  }

  lemma FreedIs(c: State, l: Links, rows: seq<seq<nat>>, p: nat)
    requires c.Sized() && p < |c.key| && |rows| == |l.hash| == NR_HASH
    requires forall b :: b in rows[Irow(c.key[p])] ==> b < |c.key|
    ensures FreedAsWritten(c, l, rows, p) == Freed(c, p).(at := Freed(c, p).at - Lost(c.key, l, rows, p))
  {
  }

  /** The lost blocks: none if the buffer freed is harmless, and else all others of the row. */
  lemma LostFacts(c: State, l: Links, rows: seq<seq<nat>>, free: seq<nat>, p: nat)
    requires Coherent(c, p) && Linked(c.key, l, rows, free) && p < |c.key| && c.key[p].dev != 0
    requires |rows| == |l.hash| == NR_HASH && |l.hashNext| == |c.key| && c.Sized()
    requires forall b :: b in rows[Irow(c.key[p])] ==> b < |c.key|
    ensures var lost, row := Lost(c.key, l, rows, p), rows[Irow(c.key[p])];
      && (Harmless(c.key, l, p) ==> lost == {})
      && (!Harmless(c.key, l, p) ==> lost == set b | b in row && b != p :: c.key[b])
      && (forall q :: q in lost ==> q in Freed(c, p).at)
      && (forall b :: b in row ==> c.key[b] in c.at && c.at[c.key[b]] == b)
  {
    hide Irow;
    var r := Irow(c.key[p]);
    RowAt(c, p, l, rows, free, r);
    var k := PlaceOf(c.key, l, rows, free, p);
    RowOne(c.key, l, rows, r, p, k);
    RowHeads(c.key, l, rows, r);
    hide Linked, Coherent;
    if |rows[r]| == 1 {
      assert forall b :: b in rows[r] ==> b == p;
    }
  }

  /** What the buffers of a row, p apart, have that the disk does not. */
  lemma LostReads(c: State, lost: set<Key>, row: seq<nat>, p: nat)
    requires c.Sized() && p < |c.key| && (c.valid[p] ==> c.data[p] == DiskAt(c.disk, c.key[p]))
    requires forall b :: b in row ==> b < |c.key| && c.key[b] in c.at && c.at[c.key[b]] == b
    ensures lost == (set b | b in row && b != p :: c.key[b]) ==>
      ((forall q :: q in lost ==> c.Logical(q) == DiskAt(c.disk, q)) <==>
       forall b :: b in row && c.valid[b] ==> c.data[b] == DiskAt(c.disk, c.key[b]))
  {
    assert forall b :: b in row ==> c.Logical(c.key[b]) == if c.valid[b] then c.data[b] else DiskAt(c.disk, c.key[b]);
    if lost == set b | b in row && b != p :: c.key[b] {
      assert forall b :: b in row && b != p ==> c.key[b] in lost;
    }
  }

  /** The only head of a row is linked to itself. */
  lemma RowOne(key: seq<Key>, l: Links, rows: seq<seq<nat>>, r: nat, p: nat, k: nat)
    requires RowsOK(key, l, rows) && r < NR_HASH && k < |rows[r]| && rows[r][k] == p < |key|
    ensures |l.hashNext| == |key| && (l.hashNext[p] == p <==> |rows[r]| == 1)
  {
    assert RowOK(key, l, r, rows[r]);
    RingSingle(l.hashNext, l.hashPrev, rows[r], k);
  }

  /** Two blocks of one device on the same row. */
  lemma Collide()
    ensures Irow(Key(0x305, 0)) == Irow(Key(0x305, 1511)) == 773
  {
    hide Xor;
    XorZero(0x305);
    XorLow();
    XorStep(96, 188, 48, 94);
    XorStep(193, 377, 96, 188);
    XorStep(386, 755, 193, 377);
    XorStep(773, 1511, 386, 755);
  }

  lemma XorLow()
    ensures Xor(48, 94) == 110
  {
    hide Xor;
    XorZero(1);
    XorStep(1, 2, 0, 1);
    XorStep(3, 5, 1, 2);
    XorStep(6, 11, 3, 5);
    XorStep(12, 23, 6, 11);
    XorStep(24, 47, 12, 23);
    XorStep(48, 94, 24, 47);
  }

  // ---------- a change that is lost ----------

  const CLEAN := Key(0x305, 0)
  const CHANGED := Key(0x305, 1511)

  /** Two buffers: a clean one, and a changed one that waits to be written. */
  ghost function TwoBuffers(): State {
    var data := [ZeroBlock(), ZeroBlock()[0 := 1]];
    State([CLEAN, CHANGED], data, [true, true], [false, true], [0, 0], map[],
          imap k: Key :: TwoBlocks(k), map[], map[CLEAN := 0, CHANGED := 1])
  }

  function TwoBlocks(k: Key): Block {
    if k == CHANGED then ZeroBlock()[0 := 1] else ZeroBlock()
  }

  /** Both are on one row, the clean one first. */
  function OneRow(): Links {
    Links(seq(NR_HASH, r => if r == 773 then 0 else NIL), [1, 0], [1, 0], NIL, [NIL, NIL], [NIL, NIL])
  }

  function OneRowRows(): seq<seq<nat>> {
    seq(NR_HASH, r => if r == 773 then [0, 1] else [])
  }

  lemma TwoBuffersOk()
    ensures Coherent(TwoBuffers(), 0) && Linked(TwoBuffers().key, OneRow(), OneRowRows(), [])
  {
    TwoBuffersCoherent();
    OneRowLinked();
  }

  lemma TwoBuffersCoherent()
    ensures Coherent(TwoBuffers(), 0)
  {
    hide Irow, Xor;
  }

  lemma OneRowLinked()
    ensures Linked([CLEAN, CHANGED], OneRow(), OneRowRows(), [])
  {
    hide Irow, Xor;
    Collide();
    var key, l := [CLEAN, CHANGED], OneRow();
    RingEmpty(l.hashNext, l.hashPrev);
    RingEmpty(l.freeNext, l.freePrev);
    PairRing();
    hide Ring;
    forall r | 0 <= r < NR_HASH
      ensures RowOK(key, l, r, OneRowRows()[r])
    {
      assert OneRowRows()[r] == if r == 773 then [0, 1] else [];
    }
    assert OneRowRows()[773] == [0, 1] && 0 in [0, 1] && 1 in [0, 1];
  }

  lemma PairRing()
    ensures Ring([1, 0], [1, 0], [0, 1])
  {
  }

  /** Freeing the clean one as written loses the change of the other. */
  lemma ChangeLost()
    ensures Coherent(TwoBuffers(), 0) && Linked(TwoBuffers().key, OneRow(), OneRowRows(), [])
    ensures (forall b :: b in OneRowRows()[Irow(CLEAN)] ==> b < 2)
    ensures var c := FreedAsWritten(TwoBuffers(), OneRow(), OneRowRows(), 0);
      c.Sized() && TwoBuffers().Logical(CHANGED) == ZeroBlock()[0 := 1] && c.Logical(CHANGED) == ZeroBlock()
  {
    TwoBuffersOk();
    hide Xor, Irow, Coherent, Linked;
    Collide();
    assert 1 in OneRowRows()[773];
    assert CHANGED in Lost(TwoBuffers().key, OneRow(), OneRowRows(), 0);
  }

  // ---------- runs ----------

  /** The two forms make the same links exactly if the buffer freed is not the first of several. */
  lemma SameExactlyIfHarmless(key: seq<Key>, l: Links, rows: seq<seq<nat>>, free: seq<nat>, p: nat)
    requires Linked(key, l, rows, free) && p < |key| && key[p].dev != 0
    ensures |key| == |l.hashNext| == |l.hashPrev| && |l.hash| == NR_HASH && 0 <= l.hashNext[p] < |key|
    ensures 0 <= l.hashPrev[p] < |key|
    ensures UnhashAsWritten(key, l, p) == Unhash(key, l, p) <==> Harmless(key, l, p)
  {
    hide Ring;
    var r := Irow(key[p]);
    var k := PlaceOf(key, l, rows, free, p);
    UnhashRows(key, l, rows, p, k);
    assert RowOK(key, l, r, rows[r]);
    RingSingle(l.hashNext, l.hashPrev, rows[r], k);
    assert l.hashNext[p] == p ==> k == 0 && l.hash[r] == p;
    if !Harmless(key, l, p) {
      assert UnhashAsWritten(key, l, p).hash[r] == NIL && Unhash(key, l, p).hash[r] == l.hashNext[p];
    }
  }

  /** free_buffer(p), and get_buffer with add_hash for a block that is not cached. */
  datatype Step = Free(p: nat) | Take(k: Key)

  /** The heads' blocks and their links. */
  datatype Tab = Tab(key: seq<Key>, l: Links)
  {
    ghost predicate Ok() {
      exists rows, free :: Linked(key, l, rows, free)
    }

    /** The step is one that the cache takes here. */
    predicate Allows(s: Step) {
      match s
      case Free(p) => p < |key| && key[p].dev != 0
      case Take(k) => k.dev != 0 && l.freeList != NIL
    }

    /** The table after the step; free_buffer in the one form or in the other. */
    ghost function After(s: Step, written: bool): Tab
      requires Ok() && Allows(s)
    {
      StepDefined(this, s);
      match s
      case Free(p) =>
        Tab(key[p := Key(0, 0)], if written then FreeLinksAsWritten(key, l, p) else FreeLinks(key, l, p))
      case Take(k) =>
        var p, key' := l.freeList, key[l.freeList := k];
        Tab(key', AddHash(key', TakeFree(l), p))
    }
  }

  /** The links after free_buffer(p) as written. */
  function FreeLinksAsWritten(key: seq<Key>, l: Links, p: nat): Links
    requires p < |key| == |l.hashNext| == |l.hashPrev| == |l.freeNext| == |l.freePrev| && |l.hash| == NR_HASH
    requires 0 <= l.hashNext[p] < |key| && 0 <= l.hashPrev[p] < |key|
    requires l.freeList != NIL ==> 0 <= l.freeList < |key| && 0 <= l.freePrev[l.freeList] < |key|
  {
    var l' := PutFree(UnhashAsWritten(key, l, p), p);
    l'.(hashNext := l'.hashNext[p := NIL], hashPrev := l'.hashPrev[p := NIL])
  }

  lemma StepDefined(t: Tab, s: Step)
    requires t.Ok() && t.Allows(s)
    ensures var (key, l) := (t.key, t.l);
      && |key| == |l.hashNext| == |l.hashPrev| == |l.freeNext| == |l.freePrev| && |l.hash| == NR_HASH
      && (l.freeList != NIL ==> 0 <= l.freeList < |key| && 0 <= l.freePrev[l.freeList] < |key| && 0 <= l.freeNext[l.freeList] < |key|)
      && (s.Free? ==> 0 <= l.hashNext[s.p] < |key| && 0 <= l.hashPrev[s.p] < |key|)
      && (s.Take? ==> var (q, l') := (TakeFree(l).hash[Irow(s.k)], TakeFree(l));
            |l'.hashNext| == |l'.hashPrev| == |key| && |l'.hash| == NR_HASH && (q != NIL ==> 0 <= q < |key| && 0 <= l'.hashPrev[q] < |key|))
  {
    hide Linked, Irow;
    var rows, free :| Linked(t.key, t.l, rows, free);
    StepLinks(t.key, t.l, rows, free);
    match s
    case Free(p) =>
      var rows' := FreeLinked(t.key, t.l, rows, free, p);
    case Take(k) =>
      var rows' := TakenLinked(t.key, t.l, rows, free, k);
  }

  lemma StepLinks(key: seq<Key>, l: Links, rows: seq<seq<nat>>, free: seq<nat>)
    requires Linked(key, l, rows, free)
    ensures |key| == |l.hashNext| == |l.hashPrev| == |l.freeNext| == |l.freePrev| && |l.hash| == NR_HASH
    ensures l.freeList == NIL <==> free == []
    ensures l.freeList != NIL ==> 0 <= l.freeList < |key| && 0 <= l.freePrev[l.freeList] < |key|
    ensures l.freeList != NIL ==> 0 <= l.freeNext[l.freeList] < |key|
  {
    FreeHead(key, l, free);
    if free != [] {
      TakeFreeRing(key, l, free);
    }
  }

  /** The cache can take the steps, and each free is harmless where it happens. */
  ghost predicate AllHarmless(t: Tab, run: seq<Step>)
    decreases |run|
  {
    run == [] ||
    (t.Ok() && t.Allows(run[0]) && (run[0].Free? ==> HarmlessAt(t, run[0].p)) && AllHarmless(t.After(run[0], false), run[1..]))
  }

  predicate HarmlessAt(t: Tab, p: nat) {
    p < |t.key| == |t.l.hashNext| && |t.l.hash| == NR_HASH && Harmless(t.key, t.l, p)
  }

  /** The table after a run, if the run can be taken. */
  ghost function Ran(t: Tab, run: seq<Step>, written: bool): Tab
    decreases |run|
  {
    if run == [] || !t.Ok() || !t.Allows(run[0]) then t else Ran(t.After(run[0], written), run[1..], written)
  }

  lemma StepSame(t: Tab, s: Step)
    requires t.Ok() && t.Allows(s)
    ensures t.After(s, true) == t.After(s, false) <==> s.Take? || HarmlessAt(t, s.p)
    ensures t.After(s, false).Ok()
  {
    hide Linked, Irow;
    var rows, free :| Linked(t.key, t.l, rows, free);
    StepLinks(t.key, t.l, rows, free);
    match s
    case Free(p) =>
      SameExactlyIfHarmless(t.key, t.l, rows, free, p);
      var rows' := FreeLinked(t.key, t.l, rows, free, p);
      FreesDiffer(t.key, t.l, p);
    case Take(k) =>
      var rows' := TakenLinked(t.key, t.l, rows, free, k);
  }

  /** What the two forms do to the heads of the rows is not undone by the rest of free_buffer. */
  lemma FreesDiffer(key: seq<Key>, l: Links, p: nat)
    requires p < |key| == |l.hashNext| == |l.hashPrev| == |l.freeNext| == |l.freePrev| && |l.hash| == NR_HASH
    requires 0 <= l.hashNext[p] < |key| && 0 <= l.hashPrev[p] < |key|
    requires l.freeList != NIL ==> 0 <= l.freeList < |key| && 0 <= l.freePrev[l.freeList] < |key|
    ensures !Harmless(key, l, p) ==> FreeLinksAsWritten(key, l, p) != FreeLinks(key, l, p)
  {
    hide Irow;
    if !Harmless(key, l, p) {
      var r := Irow(key[p]);
      assert FreeLinksAsWritten(key, l, p).hash[r] == NIL != FreeLinks(key, l, p).hash[r];
    }
  }

  /** So over any run of harmless frees the cache as written is the repaired one, and it parts
      from it at the first free that is not harmless. */
  lemma {:induction false} RunsAgree(t: Tab, run: seq<Step>, s: Step)
    requires AllHarmless(t, run) && t.Ok()
    ensures Ran(t, run, true) == Ran(t, run, false) && Ran(t, run, false).Ok()
    ensures var t' := Ran(t, run, false);
      t'.Allows(s) ==> (t'.After(s, true) == t'.After(s, false) <==> s.Take? || HarmlessAt(t', s.p))
    decreases |run|
  {
    hide Tab.Ok;
    if run == [] {
      if t.Allows(s) {
        StepSame(t, s);
      }
    } else {
      StepSame(t, run[0]);
      RunsAgree(t.After(run[0], false), run[1..], s);
    }
  }
}
