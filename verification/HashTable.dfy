/** The links of the buffer heads (fs/buffer.c): one ring per hash row and a free ring.
    The buffer heads lie one after the other from BUF_START, so a pointer to one is its
    index; the links are kept as one table per field. */
module HashTable {
  import opened Blocks
  import opened Bitmap
  import opened Rings

  const NR_HASH := 989

  /** Bitwise exclusive or of two non-negative numbers. */
  function Xor(a: nat, b: nat): nat
    decreases a + b
  {
    if a == 0 then b else if b == 0 then a
    else (a % 2 + b % 2) % 2 + 2 * Xor(a / 2, b / 2)
  }

  /** Bit i of it is 1 if bit i of one number is, but not of both. */
  lemma {:induction false} XorBits(a: nat, b: nat, i: nat)
    ensures BitOf(Xor(a, b), i) <==> BitOf(a, i) != BitOf(b, i)
    decreases i
  {
    hide Xor;
    ZeroBits(i);
    XorHalf(a, b);
    if i > 0 {
      XorBits(a / 2, b / 2, i - 1);
    }
  }

  lemma {:induction false} XorHalf(a: nat, b: nat)
    ensures Xor(a, b) % 2 == (a % 2 + b % 2) % 2 && Xor(a, b) / 2 == Xor(a / 2, b / 2)
  {
    hide Xor;
    if a == 0 || b == 0 {
      XorZero(a);
      XorZero(b);
      XorZero(a / 2);
      XorZero(b / 2);
      return;
    }
    XorStep(a, b, a / 2, b / 2);
    var x, r := Xor(a / 2, b / 2), (a % 2 + b % 2) % 2;
    assert (r + 2 * x) % 2 == r && (r + 2 * x) / 2 == x;
  }

  lemma XorZero(a: nat)
    ensures Xor(a, 0) == a == Xor(0, a)
  {
  }

  lemma XorStep(a: nat, b: nat, a': nat, b': nat)
    requires a > 0 && b > 0 && a' == a / 2 && b' == b / 2
    ensures Xor(a, b) == (a % 2 + b % 2) % 2 + 2 * Xor(a', b')
  {
  }

  lemma {:induction false} ZeroBits(i: nat)
    ensures !BitOf(0, i)
  {
    if i > 0 {
      ZeroBits(i - 1);
    }
  }

  /** get_irow: the hash row of a block. */
  function Irow(k: Key): (r: nat)
    ensures r < NR_HASH
  {
    Xor(k.dev, k.blk) % NR_HASH
  }

  lemma IrowIs(k: Key)
    ensures Irow(k) == Xor(k.dev, k.blk) % 989
  {
  }

  /** hash[], free_list, and the link fields of the heads. */
  datatype Links = Links(
    hash: seq<int>, hashNext: seq<int>, hashPrev: seq<int>,
    freeList: int, freeNext: seq<int>, freePrev: seq<int>)

  /** s is row r: a ring headed by hash[r] of heads that hash there. */
  ghost predicate RowOK(key: seq<Key>, l: Links, r: nat, s: seq<nat>) {
    && Ring(l.hashNext, l.hashPrev, s) && |l.hashNext| == |key|
    && r < |l.hash| && l.hash[r] == HeadOf(s)
    && forall i :: 0 <= i < |s| ==> key[s[i]].dev != 0 && Irow(key[s[i]]) == r
  }

  ghost predicate RowsOK(key: seq<Key>, l: Links, rows: seq<seq<nat>>) {
    && |l.hash| == |rows| == NR_HASH && |l.hashNext| == |l.hashPrev| == |key|
    && forall r :: 0 <= r < NR_HASH ==> RowOK(key, l, r, rows[r])
  }

  ghost predicate FreeOK(key: seq<Key>, l: Links, free: seq<nat>) {
    && Ring(l.freeNext, l.freePrev, free) && |l.freeNext| == |key| && l.freeList == HeadOf(free)
    && forall i :: 0 <= i < |free| ==> key[free[i]].dev == 0
  }

  /** Every head is on the free ring, if it has no device, or else on its own row. */
  ghost predicate Placed(key: seq<Key>, rows: seq<seq<nat>>, free: seq<nat>) {
    && |rows| == NR_HASH
    && forall b :: 0 <= b < |key| ==> if key[b].dev == 0 then b in free else b in rows[Irow(key[b])]
  }

  ghost predicate Linked(key: seq<Key>, l: Links, rows: seq<seq<nat>>, free: seq<nat>) {
    |key| > 0 && RowsOK(key, l, rows) && FreeOK(key, l, free) && Placed(key, rows, free)
  }

  // ---------- rows do not disturb each other ----------

  lemma RowsApart(key: seq<Key>, l: Links, r: nat, s: seq<nat>, r': nat, t: seq<nat>)
    requires RowOK(key, l, r, s) && RowOK(key, l, r', t) && r != r'
    ensures forall i :: 0 <= i < |t| ==> t[i] !in s
  {
    forall i, j | 0 <= i < |t| && 0 <= j < |s|
      ensures t[i] != s[j]
    {
      assert Irow(key[t[i]]) == r' && Irow(key[s[j]]) == r;
    }
  }

  /** Relinking inside row r, and at p, leaves the other rows alone. */
  lemma OtherRowsKept(key: seq<Key>, l: Links, l': Links, rows: seq<seq<nat>>, r: nat, p: nat, s: seq<nat>)
    requires RowsOK(key, l, rows) && r < NR_HASH && p < |key| && key[p].dev != 0 && Irow(key[p]) == r
    requires |l'.hash| == |l.hash| && |l'.hashNext| == |l'.hashPrev| == |l.hashNext|
    requires forall r' :: 0 <= r' < NR_HASH && r' != r ==> l'.hash[r'] == l.hash[r']
    requires forall x :: 0 <= x < |key| && x !in rows[r] && x != p ==>
      l'.hashNext[x] == l.hashNext[x] && l'.hashPrev[x] == l.hashPrev[x]
    requires RowOK(key, l', r, s)
    ensures RowsOK(key, l', rows[r := s])
  {
    forall r' | 0 <= r' < NR_HASH && r' != r
      ensures RowOK(key, l', r', rows[r'])
    {
      assert RowOK(key, l, r', rows[r']);
      RowsApart(key, l, r, rows[r], r', rows[r']);
      assert forall i :: 0 <= i < |rows[r']| ==> rows[r'][i] != p;
      RingKept(l.hashNext, l.hashPrev, l'.hashNext, l'.hashPrev, rows[r']);
    }
  }

  /** A head is on its own row only. */
  lemma OnOneRow(key: seq<Key>, l: Links, rows: seq<seq<nat>>, p: nat)
    requires RowsOK(key, l, rows) && p < |key|
    ensures |rows| == NR_HASH
    ensures forall r :: 0 <= r < NR_HASH && p in rows[r] ==> key[p].dev != 0 && r == Irow(key[p])
  {
    forall r | 0 <= r < NR_HASH && p in rows[r]
      ensures key[p].dev != 0 && r == Irow(key[p])
    {
      assert RowOK(key, l, r, rows[r]);
    }
  }

  /** Changing the key of a head that is on no row keeps all rows. */
  lemma RowsRekeyed(key: seq<Key>, l: Links, rows: seq<seq<nat>>, p: nat, k: Key)
    requires RowsOK(key, l, rows) && p < |key|
    requires forall r :: 0 <= r < NR_HASH ==> p !in rows[r]
    ensures RowsOK(key[p := k], l, rows)
  {
    forall r | 0 <= r < NR_HASH
      ensures RowOK(key[p := k], l, r, rows[r])
    {
      assert RowOK(key, l, r, rows[r]);
    }
  }

  /** Changing links of a head that is on no row keeps all rows. */
  lemma UnlinkedKept(key: seq<Key>, l: Links, rows: seq<seq<nat>>, p: nat)
    requires RowsOK(key, l, rows) && p < |key| && key[p].dev == 0
    ensures |l.hashNext| == |l.hashPrev| == |key|
    ensures RowsOK(key, l.(hashNext := l.hashNext[p := NIL], hashPrev := l.hashPrev[p := NIL]), rows)
  {
    var l' := l.(hashNext := l.hashNext[p := NIL], hashPrev := l.hashPrev[p := NIL]);
    forall r | 0 <= r < NR_HASH
      ensures RowOK(key, l', r, rows[r])
    {
      assert RowOK(key, l, r, rows[r]);
      assert forall i :: 0 <= i < |rows[r]| ==> rows[r][i] != p;
      RingKept(l.hashNext, l.hashPrev, l'.hashNext, l'.hashPrev, rows[r]);
    }
  }

  /** The free links do not matter to the rows, nor the hash links to the free ring. */
  lemma RowsOnly(key: seq<Key>, l: Links, l': Links, rows: seq<seq<nat>>)
    requires RowsOK(key, l, rows) && l'.hash == l.hash && l'.hashNext == l.hashNext && l'.hashPrev == l.hashPrev
    ensures RowsOK(key, l', rows)
  {
    forall r | 0 <= r < NR_HASH
      ensures RowOK(key, l', r, rows[r])
    {
      assert RowOK(key, l, r, rows[r]);
    }
  }

  lemma FreeOnly(key: seq<Key>, l: Links, l': Links, free: seq<nat>)
    requires FreeOK(key, l, free) && l'.freeList == l.freeList && l'.freeNext == l.freeNext && l'.freePrev == l.freePrev
    ensures FreeOK(key, l', free)
  {
  }

  // ---------- the four pointer surgeries ----------

  /** add_hash (fs/buffer.c:22-46): p goes to the tail of its row. */
  function AddHash(key: seq<Key>, l: Links, p: nat): Links
    requires p < |key| == |l.hashNext| == |l.hashPrev| && |l.hash| == NR_HASH
    requires var q := l.hash[Irow(key[p])]; q != NIL ==> 0 <= q < |key| && 0 <= l.hashPrev[q] < |key|
  {
    var r := Irow(key[p]);
    var q := l.hash[r];
    if q == NIL then
      l.(hashNext := l.hashNext[p := p], hashPrev := l.hashPrev[p := p], hash := l.hash[r := p])
    else
      var t := l.hashPrev[q];
      l.(hashNext := l.hashNext[t := p][p := q], hashPrev := l.hashPrev[p := t][q := p])
  }

  lemma AddHashRows(key: seq<Key>, l: Links, rows: seq<seq<nat>>, p: nat)
    requires RowsOK(key, l, rows) && p < |key| && key[p].dev != 0 && p !in rows[Irow(key[p])]
    ensures |l.hash| == NR_HASH && |l.hashNext| == |l.hashPrev| == |key|
    ensures var q := l.hash[Irow(key[p])]; q != NIL ==> 0 <= q < |key| && 0 <= l.hashPrev[q] < |key|
    ensures var r := Irow(key[p]); RowsOK(key, AddHash(key, l, p), rows[r := rows[r] + [p]])
  {
    hide Ring;
    var r := Irow(key[p]);
    var s := rows[r];
    assert RowOK(key, l, r, s);
    RingSizes(l.hashNext, l.hashPrev, s);
    if s == [] {
      RingAlone(l.hashNext[p := p], l.hashPrev[p := p], p);
      assert s + [p] == [p];
    } else {
      RingAppend(l.hashNext, l.hashPrev, s, p);
    }
    assert RowOK(key, AddHash(key, l, p), r, s + [p]);
    OtherRowsKept(key, l, AddHash(key, l, p), rows, r, p, s + [p]);
  }

  /** The hash half of free_buffer (fs/buffer.c:117-123). The original clears the whole
      row whenever p is its first node (see UnhashAsWritten); here the row is cleared only
      when p is alone in it, as the comment there says, and otherwise its head moves on. */
  function Unhash(key: seq<Key>, l: Links, p: nat): Links
    requires p < |key| == |l.hashNext| == |l.hashPrev| && |l.hash| == NR_HASH
    requires 0 <= l.hashNext[p] < |key| && 0 <= l.hashPrev[p] < |key|
  {
    var r := Irow(key[p]);
    if l.hashNext[p] == p then
      l.(hash := l.hash[r := NIL])
    else
      l.(hash := if l.hash[r] == p then l.hash[r := l.hashNext[p]] else l.hash,
         hashNext := l.hashNext[l.hashPrev[p] := l.hashNext[p]],
         hashPrev := l.hashPrev[l.hashNext[p] := l.hashPrev[p]])
  }

  lemma UnhashRows(key: seq<Key>, l: Links, rows: seq<seq<nat>>, p: nat, k: nat)
    requires RowsOK(key, l, rows) && p < |key| && key[p].dev != 0
    requires k < |rows[Irow(key[p])]| && rows[Irow(key[p])][k] == p
    ensures |l.hash| == NR_HASH && |l.hashNext| == |l.hashPrev| == |key|
    ensures 0 <= l.hashNext[p] < |key| && 0 <= l.hashPrev[p] < |key|
    ensures var rows' := rows[Irow(key[p]) := Without(rows[Irow(key[p])], k)];
      RowsOK(key, Unhash(key, l, p), rows') && forall r :: 0 <= r < NR_HASH ==> p !in rows'[r]
  {
    hide Ring;
    var r := Irow(key[p]);
    var s := rows[r];
    assert RowOK(key, l, r, s);
    OnOneRow(key, l, rows, p);
    RingSizes(l.hashNext, l.hashPrev, s);
    RingSingle(l.hashNext, l.hashPrev, s, k);
    if |s| == 1 {
      RingEmpty(l.hashNext, l.hashPrev);
      assert Without(s, k) == [];
    } else {
      RingRemove(l.hashNext, l.hashPrev, s, k);
    }
    assert RowOK(key, Unhash(key, l, p), r, Without(s, k));
    OtherRowsKept(key, l, Unhash(key, l, p), rows, r, p, Without(s, k));
  }

  /** The free-list half of free_buffer (fs/buffer.c:125-135): p goes to the tail. */
  function PutFree(l: Links, p: nat): Links
    requires p < |l.freeNext| == |l.freePrev|
    requires l.freeList != NIL ==> 0 <= l.freeList < |l.freeNext| && 0 <= l.freePrev[l.freeList] < |l.freeNext|
  {
    var q := l.freeList;
    if q == NIL then
      l.(freeNext := l.freeNext[p := p], freePrev := l.freePrev[p := p], freeList := p)
    else
      var t := l.freePrev[q];
      l.(freeNext := l.freeNext[t := p][p := q], freePrev := l.freePrev[p := t][q := p])
  }

  lemma PutFreeRing(key: seq<Key>, l: Links, free: seq<nat>, p: nat)
    requires FreeOK(key, l, free) && p < |key| && p !in free && key[p].dev == 0
    ensures |l.freeNext| == |l.freePrev| == |key|
    ensures l.freeList != NIL ==> 0 <= l.freeList < |key| && 0 <= l.freePrev[l.freeList] < |key|
    ensures FreeOK(key, PutFree(l, p), free + [p])
  {
    hide Ring;
    RingSizes(l.freeNext, l.freePrev, free);
    if free == [] {
      RingAlone(l.freeNext[p := p], l.freePrev[p := p], p);
      assert free + [p] == [p];
    } else {
      RingAppend(l.freeNext, l.freePrev, free, p);
    }
  }

  /** get_buffer (fs/buffer.c:57-69): the first node of the free list leaves it. */
  function TakeFree(l: Links): Links
    requires 0 <= l.freeList < |l.freeNext| == |l.freePrev|
    requires var p := l.freeList; 0 <= l.freeNext[p] < |l.freeNext| && 0 <= l.freePrev[p] < |l.freeNext|
  {
    var p := l.freeList;
    if l.freeNext[p] == p then
      l.(freeList := NIL, freeNext := l.freeNext[p := NIL], freePrev := l.freePrev[p := NIL])
    else
      var next, prev := l.freeNext[p], l.freePrev[p];
      l.(freeList := next, freeNext := l.freeNext[prev := next][p := NIL], freePrev := l.freePrev[next := prev][p := NIL])
  }

  lemma TakeFreeRing(key: seq<Key>, l: Links, free: seq<nat>)
    requires FreeOK(key, l, free) && free != []
    ensures |l.freeNext| == |l.freePrev| == |key| && 0 <= l.freeList < |key| && l.freeList == free[0]
    ensures free[0] !in free[1..]
    ensures var p := l.freeList; 0 <= l.freeNext[p] < |key| && 0 <= l.freePrev[p] < |key|
    ensures FreeOK(key, TakeFree(l), free[1..])
  {
    hide Ring;
    var p := free[0];
    RingSizes(l.freeNext, l.freePrev, free);
    RingSingle(l.freeNext, l.freePrev, free, 0);
    if |free| == 1 {
      assert free[1..] == [];
      RingEmpty(TakeFree(l).freeNext, TakeFree(l).freePrev);
    } else {
      RingTail(l.freeNext, l.freePrev, free, NIL);
    }
  }

  // ---------- a head changes places ----------

  /** The links after free_buffer(p). */
  function FreeLinks(key: seq<Key>, l: Links, p: nat): Links
    requires p < |key| == |l.hashNext| == |l.hashPrev| == |l.freeNext| == |l.freePrev| && |l.hash| == NR_HASH
    requires 0 <= l.hashNext[p] < |key| && 0 <= l.hashPrev[p] < |key|
    requires l.freeList != NIL ==> 0 <= l.freeList < |key| && 0 <= l.freePrev[l.freeList] < |key|
  {
    var l' := PutFree(Unhash(key, l, p), p);
    l'.(hashNext := l'.hashNext[p := NIL], hashPrev := l'.hashPrev[p := NIL])
  }

  lemma PlaceOf(key: seq<Key>, l: Links, rows: seq<seq<nat>>, free: seq<nat>, p: nat) returns (k: nat)
    requires RowsOK(key, l, rows) && Placed(key, rows, free) && p < |key| && key[p].dev != 0
    ensures |rows| == NR_HASH && k < |rows[Irow(key[p])]| && rows[Irow(key[p])][k] == p && NoDup(rows[Irow(key[p])])
  {
    assert RowOK(key, l, Irow(key[p]), rows[Irow(key[p])]);
    k :| 0 <= k < |rows[Irow(key[p])]| && rows[Irow(key[p])][k] == p;
  }

  /** The row of block k holds every head of k. */
  lemma RowOf(key: seq<Key>, l: Links, rows: seq<seq<nat>>, free: seq<nat>, k: Key)
    requires Linked(key, l, rows, free) && k.dev != 0
    ensures |rows| == NR_HASH == |l.hash| && |l.hashNext| == |l.hashPrev| == |key|
    ensures var s := rows[Irow(k)];
      && Ring(l.hashNext, l.hashPrev, s) && l.hash[Irow(k)] == HeadOf(s)
      && (forall j :: 0 <= j < |s| ==> s[j] < |key|)
      && ((forall j :: 0 <= j < |s| ==> key[s[j]] != k) ==> k !in key)
  {
    var s := rows[Irow(k)];
    assert RowOK(key, l, Irow(k), s);
    if k in key {
      var b :| 0 <= b < |key| && key[b] == k;
      assert b in s;
    }
  }

  lemma PlacedWithout(key: seq<Key>, rows: seq<seq<nat>>, free: seq<nat>, p: nat, k: nat)
    requires Placed(key, rows, free) && p < |key|
    requires k < |rows[Irow(key[p])]| && rows[Irow(key[p])][k] == p
    ensures var r := Irow(key[p]);
      Placed(key[p := Key(0, 0)], rows[r := Without(rows[r], k)], free + [p])
  {
    var r := Irow(key[p]);
    var s := rows[r];
    forall b | 0 <= b < |key| && b != p && key[b].dev != 0 && Irow(key[b]) == r
      ensures b in Without(s, k)
    {
      var i :| 0 <= i < |s| && s[i] == b;
      assert i < k ==> Without(s, k)[i] == b;
      assert i > k ==> Without(s, k)[i - 1] == b;
    }
    assert forall b :: b in free ==> b in free + [p];
  }

  lemma FreeRekeyed(key: seq<Key>, l: Links, free: seq<nat>, p: nat, k: Key)
    requires FreeOK(key, l, free) && p !in free && p < |key|
    ensures FreeOK(key[p := k], l, free)
  {
  }

  lemma NotFree(key: seq<Key>, l: Links, free: seq<nat>, p: nat)
    requires FreeOK(key, l, free) && p < |key| && key[p].dev != 0
    ensures p !in free
  {
  }

  /** A hashed head can be freed: it leaves its row for the tail of the free list. */
  lemma FreeLinked(key: seq<Key>, l: Links, rows: seq<seq<nat>>, free: seq<nat>, p: nat) returns (rows': seq<seq<nat>>)
    requires Linked(key, l, rows, free) && p < |key| && key[p].dev != 0
    ensures |key| == |l.hashNext| == |l.hashPrev| == |l.freeNext| == |l.freePrev| && |l.hash| == NR_HASH
    ensures 0 <= l.hashNext[p] < |key| && 0 <= l.hashPrev[p] < |key|
    ensures l.freeList != NIL ==> 0 <= l.freeList < |key| && 0 <= l.freePrev[l.freeList] < |key|
    ensures Linked(key[p := Key(0, 0)], FreeLinks(key, l, p), rows', free + [p])
  {
    hide RowsOK, FreeOK, Placed;
    var k := PlaceOf(key, l, rows, free, p);
    var r := Irow(key[p]);
    rows' := rows[r := Without(rows[r], k)];
    PlacedWithout(key, rows, free, p, k);
    UnhashRows(key, l, rows, p, k);
    var l1, key' := Unhash(key, l, p), key[p := Key(0, 0)];
    RowsRekeyed(key, l1, rows', p, Key(0, 0));
    NotFree(key, l, free, p);
    FreeOnly(key, l, l1, free);
    FreeRekeyed(key, l1, free, p, Key(0, 0));
    PutFreeRing(key', l1, free, p);
    var l2 := PutFree(l1, p);
    RowsOnly(key', l1, l2, rows');
    UnlinkedKept(key', l2, rows', p);
    FreeOnly(key', l2, FreeLinks(key, l, p), free + [p]);
  }

  lemma PlacedWith(key: seq<Key>, rows: seq<seq<nat>>, free: seq<nat>, p: nat, k: Key)
    requires Placed(key, rows, free) && free != [] && p == free[0] && p < |key| && key[p].dev == 0 && k.dev != 0
    ensures Placed(key[p := k], rows[Irow(k) := rows[Irow(k)] + [p]], free[1..])
  {
    var rows' := rows[Irow(k) := rows[Irow(k)] + [p]];
    assert rows'[Irow(k)][|rows[Irow(k)]|] == p;
    forall b | 0 <= b < |key| && b != p
      ensures if key[b].dev == 0 then b in free[1..] else b in rows'[Irow(key[b])]
    {
      assert if key[b].dev == 0 then b in free else b in rows[Irow(key[b])];
    }
  }

  lemma FreeHead(key: seq<Key>, l: Links, free: seq<nat>)
    requires FreeOK(key, l, free)
    ensures l.freeList == NIL <==> free == []
    ensures free != [] ==> l.freeList == free[0] && free[0] < |key| && key[free[0]].dev == 0
  {
  }

  /** The first free head can be taken for block k. */
  lemma TakenLinked(key: seq<Key>, l: Links, rows: seq<seq<nat>>, free: seq<nat>, k: Key) returns (rows': seq<seq<nat>>)
    requires Linked(key, l, rows, free) && free != [] && k.dev != 0
    ensures var p := l.freeList; 0 <= p < |key| && key[p].dev == 0
    ensures |l.freeNext| == |l.freePrev| == |key|
    ensures var p := l.freeList; 0 <= l.freeNext[p] < |key| && 0 <= l.freePrev[p] < |key|
    ensures var p, key', l' := l.freeList, key[l.freeList := k], TakeFree(l);
      && |key| == |l'.hashNext| == |l'.hashPrev| && |l'.hash| == NR_HASH
      && (l'.hash[Irow(k)] != NIL ==> 0 <= l'.hash[Irow(k)] < |key| && 0 <= l'.hashPrev[l'.hash[Irow(k)]] < |key|)
      && Linked(key', AddHash(key', l', p), rows', free[1..])
  {
    hide RowsOK, FreeOK, Placed;
    FreeHead(key, l, free);
    TakeFreeRing(key, l, free);
    var p, key', l' := l.freeList, key[l.freeList := k], TakeFree(l);
    RowsOnly(key, l, l', rows);
    OnOneRow(key, l', rows, p);
    rows' := rows[Irow(k) := rows[Irow(k)] + [p]];
    RowsRekeyed(key, l', rows, p, k);
    FreeRekeyed(key, l', free[1..], p, k);
    AddHashRows(key', l', rows, p);
    FreeOnly(key', l', AddHash(key', l', p), free[1..]);
    PlacedWith(key, rows, free, p, k);
  }

  /** init_buffer makes one free ring of all heads. */
  lemma InitLinked(n: nat, next: seq<int>, prev: seq<int>, s: seq<nat>)
    requires n > 0 && |next| == |prev| == |s| == n && forall i :: 0 <= i < n ==> s[i] == i
    requires forall i :: 0 <= i < n ==>
      next[i] == (if i + 1 < n then i + 1 else 0) && prev[i] == if i > 0 then i - 1 else n - 1
    ensures Linked(seq(n, _ => Key(0, 0)),
                   Links(seq(NR_HASH, _ => NIL), seq(n, _ => NIL), seq(n, _ => NIL), 0, next, prev),
                   seq(NR_HASH, _ => []), s)
  {
    var key, l := seq(n, _ => Key(0, 0)), Links(seq(NR_HASH, _ => NIL), seq(n, _ => NIL), seq(n, _ => NIL), 0, next, prev);
    forall b | 0 <= b < n
      ensures b in s
    {
      assert s[b] == b;
    }
    assert Ring(next, prev, s);
    assert forall r :: 0 <= r < NR_HASH ==> RowOK(key, l, r, []);
  }
}
