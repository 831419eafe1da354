/** What a buffer cache holds (fs/buffer.c, fs/blk_drv.c), apart from its links: cached
    blocks over a disk, and the logical disk that the two make up. */
module CacheState {
  import opened Blocks
  import opened Rings

  /** The logical disk: what every block reads as through the cache. */
  type View = imap<Key, Block>

  /** The fields of the buffer heads, one table per field, and the disk. */
  datatype Heads = Heads(key: seq<Key>, data: seq<Block>, valid: seq<bool>, dirt: seq<bool>, cnt: seq<nat>, disk: Disk)

  /** The contents of the cache: the head table without its links, the disk under it, the
      logical disk, how often each block is held, and where each hashed block is. */
  datatype State = State(
    key: seq<Key>, data: seq<Block>, valid: seq<bool>, dirt: seq<bool>, cnt: seq<nat>,
    disk: Disk, view: View, refs: map<Key, nat>, at: map<Key, nat>)
  {
    ghost predicate Sized() {
      && |key| == |data| == |valid| == |dirt| == |cnt|
      && (forall k: Key :: k in view)
      && (forall k :: k in at ==> at[k] < |key|)
    }

    /** A block reads as its valid buffer if it has one, and else as the disk block. */
    ghost function Logical(k: Key): Block
      requires Sized()
    {
      if k in at && valid[at[k]] then data[at[k]] else DiskAt(disk, k)
    }

    /** A free head is blank. A hashed head is the only one of its block; if it is valid and
        clean the disk has the same contents; its count is the number of holders; and if
        nobody holds it, it waits to be written (x may be an exception). */
    ghost predicate HeadOK(b: nat, x: int)
      requires Sized() && b < |key|
    {
      if key[b].dev == 0 then
        cnt[b] == 0 && !valid[b] && !dirt[b]
      else
        && key[b] in at && at[key[b]] == b
        && (valid[b] && !dirt[b] ==> data[b] == DiskAt(disk, key[b]))
        && (if cnt[b] > 0 then key[b] in refs && refs[key[b]] == cnt[b] else key[b] !in refs)
        && (cnt[b] == 0 && b != x ==> dirt[b] && valid[b])
    }

    /** The heads that sync_blks has to write for device dev. */
    ghost function Dirty(dev: nat): set<nat>
      requires Sized()
    {
      set b | 0 <= b < |key| && dirt[b] && valid[b] && key[b].dev == dev
    }

    /** The disk alone has what every block of device d reads as. */
    ghost predicate OnDisk(d: nat)
      requires Sized()
    {
      forall k: Key :: k.dev == d ==> view[k] == DiskAt(disk, k)
    }

    /** The cache holds blocks of no other device than d. */
    ghost predicate Only(d: nat) {
      forall b :: 0 <= b < |key| ==> key[b].dev == 0 || key[b].dev == d
    }

    /** Somebody holds head b as the buffer of block k. */
    ghost predicate Held(b: nat, k: Key) {
      b < |key| && key[b] == k && k in refs
    }

    /** Somebody holds head b as the valid buffer of block k. */
    ghost predicate Pin(b: nat, k: Key) {
      |key| == |valid| && Held(b, k) && valid[b]
    }

    /** Some head of device d waits to be written and is held by nobody. */
    ghost predicate Waiting(d: nat) {
      exists b :: 0 <= b < |key| == |cnt| && key[b].dev == d && cnt[b] == 0
    }
  }

  /** Everything held in c, and still held in c', is where it was. */
  ghost predicate PinsKept(c: State, c': State) {
    && |c'.key| == |c.key|
    && forall b, k :: c.Pin(b, k) && k in c'.refs ==> c'.Pin(b, k)
  }

  ghost predicate Coherent(c: State, x: int) {
    && c.Sized()
    && (forall b :: 0 <= b < |c.key| ==> c.HeadOK(b, x))
    && (forall k :: k in c.at ==> k.dev != 0 && c.key[c.at[k]] == k)
    && (forall k: Key :: c.view[k] == c.Logical(k))
    && (forall k :: k in c.refs ==> k in c.at)
  }

  ghost function Freed(c: State, p: nat): State
    requires p < |c.key| == |c.valid| == |c.dirt|
  {
    c.(key := c.key[p := Key(0, 0)], valid := c.valid[p := false], dirt := c.dirt[p := false], at := c.at - {c.key[p]})
  }

  /** Freeing a head whose block the disk has does not change the logical disk. */
  lemma FreedCoherent(c: State, p: nat)
    requires Coherent(c, p) && p < |c.key| && c.key[p].dev != 0 && c.cnt[p] == 0
    requires c.valid[p] ==> c.data[p] == DiskAt(c.disk, c.key[p])
    ensures c.Sized() && Coherent(Freed(c, p), NIL)
  {
    assert c.HeadOK(p, p);
    forall b | 0 <= b < |c.key|
      ensures Freed(c, p).HeadOK(b, NIL)
    {
      assert c.HeadOK(b, p);
    }
    forall k: Key
      ensures c.view[k] == Freed(c, p).Logical(k)
    {
      assert c.view[k] == c.Logical(k);
      assert k in c.at && k != c.key[p] ==> c.at[k] != p;
    }
  }

  lemma WrittenCoherent(c: State, b: nat, x: int)
    requires Coherent(c, NIL) && b < |c.key| && c.key[b].dev != 0 && c.valid[b]
    ensures Coherent(c.(disk := c.disk[c.key[b] := c.data[b]]), x)
  {
    var w := c.(disk := c.disk[c.key[b] := c.data[b]]);
    assert c.HeadOK(b, NIL);
    forall a | 0 <= a < |c.key|
      ensures w.HeadOK(a, x)
    {
      assert c.HeadOK(a, NIL);
    }
    forall k: Key
      ensures w.view[k] == w.Logical(k)
    {
      assert c.view[k] == c.Logical(k);
    }
  }

  lemma CleanedCoherent(c: State, b: nat)
    requires Coherent(c, NIL) && b < |c.key| && c.cnt[b] > 0 && c.valid[b]
    requires c.data[b] == DiskAt(c.disk, c.key[b])
    ensures Coherent(c.(dirt := c.dirt[b := false]), NIL)
  {
    var w := c.(dirt := c.dirt[b := false]);
    forall a | 0 <= a < |c.key|
      ensures w.HeadOK(a, NIL)
    {
      assert c.HeadOK(a, NIL);
    }
    forall k: Key
      ensures w.view[k] == w.Logical(k)
    {
      assert c.view[k] == c.Logical(k);
    }
  }

  /** One head of sync_blks: written out, then freed if nobody holds it, else cleaned
      unless the pass stops here. */
  ghost function Synced(c: State, b: nat, clean: bool): State
    requires c.Sized() && b < |c.key|
  {
    var w := c.(disk := c.disk[c.key[b] := c.data[b]]);
    if c.cnt[b] == 0 then Freed(w, b)
    else if clean then w.(dirt := c.dirt[b := false])
    else w
  }

  lemma SyncedCoherent(c: State, b: nat, clean: bool)
    requires Coherent(c, NIL) && b < |c.key| && c.key[b].dev != 0 && c.valid[b]
    ensures c.Sized() && Coherent(Synced(c, b, clean), NIL)
  {
    var w := c.(disk := c.disk[c.key[b] := c.data[b]]);
    WrittenCoherent(c, b, b);
    WrittenCoherent(c, b, NIL);
    if c.cnt[b] == 0 {
      FreedCoherent(w, b);
    } else if clean {
      CleanedCoherent(w, b);
    }
  }

  /** A free head taken for block k, which is not cached; nobody holds it yet. */
  lemma TakenCoherent(c: State, p: nat, k: Key)
    requires Coherent(c, NIL) && p < |c.key| && c.key[p].dev == 0 && k.dev != 0 && k !in c.key
    ensures c.Sized() && k !in c.at && k !in c.refs && c.cnt[p] == 0 && !c.valid[p] && !c.dirt[p]
    ensures Coherent(c.(key := c.key[p := k], at := c.at[k := p]), p)
  {
    var c' := c.(key := c.key[p := k], at := c.at[k := p]);
    assert c.HeadOK(p, NIL);
    forall b | 0 <= b < |c.key|
      ensures c'.HeadOK(b, p)
    {
      assert c.HeadOK(b, NIL);
    }
    forall k': Key
      ensures c.view[k'] == c'.Logical(k')
    {
      assert c.view[k'] == c.Logical(k');
      assert k' in c.at ==> c.at[k'] != p;
    }
  }

  /** One more holder. */
  lemma HeldCoherent(c: State, p: nat)
    requires Coherent(c, p) && p < |c.key| && c.key[p].dev != 0
    ensures c.Sized()
    ensures Coherent(c.(cnt := c.cnt[p := c.cnt[p] + 1], refs := c.refs[c.key[p] := c.cnt[p] + 1]), NIL)
  {
    var c' := c.(cnt := c.cnt[p := c.cnt[p] + 1], refs := c.refs[c.key[p] := c.cnt[p] + 1]);
    assert c.HeadOK(p, p);
    forall b | 0 <= b < |c.key|
      ensures c'.HeadOK(b, NIL)
    {
      assert c.HeadOK(b, p);
    }
    forall k: Key
      ensures c.view[k] == c'.Logical(k)
    {
      assert c.view[k] == c.Logical(k);
    }
  }

  /** The count of a held block after one holder lets go. */
  function Dropped(refs: map<Key, nat>, k: Key): map<Key, nat>
    requires k in refs
  {
    if refs[k] <= 1 then refs - {k} else refs[k := refs[k] - 1]
  }

  lemma DroppedCoherent(c: State, p: nat)
    requires Coherent(c, NIL) && p < |c.key| && c.cnt[p] > 0
    ensures c.Sized() && c.key[p].dev != 0 && c.key[p] in c.refs && c.refs[c.key[p]] == c.cnt[p]
    ensures var c' := c.(cnt := c.cnt[p := c.cnt[p] - 1], refs := Dropped(c.refs, c.key[p]));
      && Coherent(c', p) && (c.cnt[p] > 1 || (c.dirt[p] && c.valid[p]) ==> Coherent(c', NIL))
      && (c.valid[p] && !c.dirt[p] ==> c.data[p] == DiskAt(c.disk, c.key[p]))
  {
    assert c.HeadOK(p, NIL);
    var c' := c.(cnt := c.cnt[p := c.cnt[p] - 1], refs := Dropped(c.refs, c.key[p]));
    forall b | 0 <= b < |c.key|
      ensures c'.HeadOK(b, p) && (c.cnt[p] > 1 || (c.dirt[p] && c.valid[p]) ==> c'.HeadOK(b, NIL))
    {
      assert c.HeadOK(b, NIL);
    }
    forall k: Key
      ensures c.view[k] == c'.Logical(k)
    {
      assert c.view[k] == c.Logical(k);
    }
  }

  /** Reading the disk block into an invalid buffer. */
  lemma ReadCoherent(c: State, p: nat)
    requires Coherent(c, NIL) && p < |c.key| && c.key[p].dev != 0 && !c.valid[p]
    ensures c.Sized() && c.view[c.key[p]] == DiskAt(c.disk, c.key[p])
    ensures Coherent(c.(data := c.data[p := DiskAt(c.disk, c.key[p])], valid := c.valid[p := true]), NIL)
  {
    var c' := c.(data := c.data[p := DiskAt(c.disk, c.key[p])], valid := c.valid[p := true]);
    assert c.HeadOK(p, NIL);
    assert c.view[c.key[p]] == c.Logical(c.key[p]);
    forall b | 0 <= b < |c.key|
      ensures c'.HeadOK(b, NIL)
    {
      assert c.HeadOK(b, NIL);
    }
    forall k: Key
      ensures c.view[k] == c'.Logical(k)
    {
      assert c.view[k] == c.Logical(k);
    }
  }

  /** A holder writes its buffer and marks it dirty: the logical block changes, no other. */
  lemma StoredCoherent(c: State, p: nat, d: Block)
    requires Coherent(c, NIL) && p < |c.key| && c.cnt[p] > 0
    ensures c.Sized() && c.key[p].dev != 0
    ensures Coherent(c.(data := c.data[p := d], valid := c.valid[p := true], dirt := c.dirt[p := true], view := c.view[c.key[p] := d]), NIL)
  {
    var c' := c.(data := c.data[p := d], valid := c.valid[p := true], dirt := c.dirt[p := true], view := c.view[c.key[p] := d]);
    assert c.HeadOK(p, NIL);
    forall b | 0 <= b < |c.key|
      ensures c'.HeadOK(b, NIL)
    {
      assert c.HeadOK(b, NIL);
    }
    forall k: Key
      ensures c'.view[k] == c'.Logical(k)
    {
      assert c.view[k] == c.Logical(k);
    }
  }

  /** A holder gives its buffer's contents up: the block reads as on the disk again. */
  lemma DiscardedCoherent(c: State, p: nat)
    requires Coherent(c, NIL) && p < |c.key| && c.cnt[p] > 0
    ensures c.Sized() && c.key[p].dev != 0
    ensures Coherent(c.(valid := c.valid[p := false], dirt := c.dirt[p := false], view := c.view[c.key[p] := DiskAt(c.disk, c.key[p])]), NIL)
  {
    var c' := c.(valid := c.valid[p := false], dirt := c.dirt[p := false], view := c.view[c.key[p] := DiskAt(c.disk, c.key[p])]);
    assert c.HeadOK(p, NIL);
    forall b | 0 <= b < |c.key|
      ensures c'.HeadOK(b, NIL)
    {
      assert c.HeadOK(b, NIL);
    }
    forall k: Key
      ensures c'.view[k] == c'.Logical(k)
    {
      assert c.view[k] == c.Logical(k);
    }
  }

  /** What a pass of sync_blks may do: write, clean, and free heads that nobody holds. */
  ghost predicate Flushed(c: State, c': State) {
    && c.Sized() && c'.Sized() && |c'.key| == |c.key|
    && c'.cnt == c.cnt && c'.data == c.data && c'.view == c.view && c'.refs == c.refs
    && forall b :: 0 <= b < |c.key| ==>
         (c'.key[b] == c.key[b] && c'.valid[b] == c.valid[b]) || (c'.key[b].dev == 0 && c.cnt[b] == 0)
  }

  /** Writing head b takes it, and no other, off the heads to write. */
  lemma SyncedDirty(c: State, b: nat, clean: bool, dev: nat)
    requires c.Sized() && b in c.Dirty(dev) && dev != 0
    ensures Synced(c, b, clean).Dirty(dev) == if c.cnt[b] == 0 || clean then c.Dirty(dev) - {b} else c.Dirty(dev)
    ensures |c.Dirty(dev) - {b}| == |c.Dirty(dev)| - 1
  {
  }

  lemma SyncedFlushes(c: State, b: nat, clean: bool)
    requires c.Sized() && b < |c.key| && c.key[b].dev != 0
    ensures Flushed(c, Synced(c, b, clean))
  {
  }

  /** Flushing keeps what is held, brings in no other device, and leaves a waiting head
      waiting unless it was freed. */
  lemma FlushedKeeps(c: State, c': State, d: nat)
    requires Coherent(c, NIL) && Flushed(c, c')
    ensures PinsKept(c, c') && c'.view == c.view && c'.refs == c.refs && |c'.key| == |c.key|
    ensures c.Only(d) ==> c'.Only(d)
    ensures c.Waiting(d) && c'.key == c.key ==> c'.Waiting(d)
  {
    forall b, k | c.Pin(b, k)
      ensures c'.Pin(b, k)
    {
      assert c.HeadOK(c.at[k], NIL) && c.HeadOK(b, NIL);
    }
  }

  lemma WaitingDirty(c: State, d: nat)
    requires Coherent(c, NIL) && c.Waiting(d) && d != 0
    ensures c.Sized() && c.Dirty(d) != {}
  {
    var b :| 0 <= b < |c.key| && c.key[b].dev == d && c.cnt[b] == 0;
    assert c.HeadOK(b, NIL);
    assert b in c.Dirty(d);
  }

  lemma PinsTwice(c: State, c': State, c'': State)
    requires PinsKept(c, c') && PinsKept(c', c'') && c.refs.Keys <= c'.refs.Keys
    ensures PinsKept(c, c'')
  {
  }

  lemma HeldCounts(c: State, b: nat, k: Key)
    requires Coherent(c, NIL) && c.Held(b, k)
    ensures c.Sized() && c.cnt[b] > 0 && k.dev != 0 && c.refs[k] == c.cnt[b]
  {
    assert c.HeadOK(b, NIL);
  }

  lemma PinAcross(c: State, c': State, b: nat, k: Key)
    requires PinsKept(c, c') && c.Pin(b, k) && k in c'.refs
    ensures c'.Pin(b, k)
  {
  }

  /** As PinsKept, but for block k. */
  ghost predicate PinsKeptBut(c: State, c': State, k: Key) {
    |c'.key| == |c.key| && forall a, k' :: c.Pin(a, k') && k' != k && k' in c'.refs ==> c'.Pin(a, k')
  }

  lemma PinsButOne(c: State, c': State, c'': State, k: Key)
    requires PinsKept(c, c') && PinsKeptBut(c', c'', k) && c.refs.Keys <= c'.refs.Keys && k !in c.refs
    ensures PinsKept(c, c'')
  {
  }

  lemma RaisedNew(refs: map<Key, nat>, k: Key)
    requires k !in refs
    ensures k in Raised(refs, k) && Raised(refs, k)[k] == 1
  {
  }

  lemma PinsSelf(c: State)
    ensures PinsKept(c, c)
  {
  }

  lemma HeldKeeps(c: State, c': State, b: nat)
    requires PinsKept(c, c') && Coherent(c', b) && b < |c'.key| && c'.key[b].dev != 0 && c'.refs == c.refs
    ensures c'.Sized()
    ensures var c'' := c'.(cnt := c'.cnt[b := c'.cnt[b] + 1], refs := c'.refs[c'.key[b] := c'.cnt[b] + 1]);
      && PinsKept(c, c'') && c''.refs == Raised(c.refs, c'.key[b])
      && forall d :: c'.Only(d) ==> c''.Only(d)
  {
    assert c'.HeadOK(b, b);
  }

  lemma ReadKeeps(c: State, c': State, b: nat)
    requires PinsKept(c, c') && c'.Sized() && b < |c'.key|
    ensures var c'' := c'.(data := c'.data[b := DiskAt(c'.disk, c'.key[b])], valid := c'.valid[b := true]);
      PinsKept(c, c'') && forall d :: c'.Only(d) ==> c''.Only(d)
  {
  }

  lemma DroppedKeeps(c: State, b: nat)
    requires Coherent(c, NIL) && b < |c.key| && c.cnt[b] > 0 && c.key[b] in c.refs
    ensures c.Sized()
    ensures var c' := c.(cnt := c.cnt[b := c.cnt[b] - 1], refs := Dropped(c.refs, c.key[b]));
      && PinsKept(c, c') && (forall d :: c.Only(d) ==> c'.Only(d))
      && (c.cnt[b] == 1 ==> PinsKept(c, Freed(c', b)) && forall d :: c.Only(d) ==> Freed(c', b).Only(d))
  {
    var c' := c.(cnt := c.cnt[b := c.cnt[b] - 1], refs := Dropped(c.refs, c.key[b]));
    assert c.HeadOK(b, NIL);
    forall a, k | c.Pin(a, k) && k in c'.refs
      ensures c'.Pin(a, k) && (c.cnt[b] == 1 ==> Freed(c', b).Pin(a, k))
    {
    }
  }

  lemma StoredKeeps(c: State, b: nat, d: Block)
    requires c.Sized() && b < |c.key|
    ensures PinsKept(c, c.(data := c.data[b := d], valid := c.valid[b := true], dirt := c.dirt[b := true], view := c.view[c.key[b] := d]))
  {
  }

  lemma CoherentBut(c: State, x: int)
    requires Coherent(c, NIL)
    ensures c.Sized() && Coherent(c, x) && PinsKept(c, c)
  {
    forall b | 0 <= b < |c.key|
      ensures c.HeadOK(b, x)
    {
      assert c.HeadOK(b, NIL);
    }
  }

  lemma FlushedKeys(c: State, c': State, k: Key)
    requires Flushed(c, c') && k.dev != 0 && k !in c.key
    ensures k !in c'.key
  {
  }

  lemma TakenKeeps(c: State, p: nat, k: Key)
    requires Coherent(c, NIL) && p < |c.key| && c.key[p].dev == 0
    ensures PinsKept(c, c.(key := c.key[p := k], at := c.at[k := p]))
    ensures c.Only(k.dev) ==> c.(key := c.key[p := k], at := c.at[k := p]).Only(k.dev)
  {
    assert c.HeadOK(p, NIL);
  }

  lemma DirtyRange(c: State, dev: nat)
    requires c.Sized()
    ensures forall b :: b in c.Dirty(dev) ==> b < |c.key|
  {
  }

  lemma FlushedSelf(c: State)
    requires c.Sized()
    ensures Flushed(c, c)
  {
  }

  lemma FlushedTwice(c: State, c': State, c'': State)
    requires Flushed(c, c') && Flushed(c', c'')
    ensures c''.Sized() && |c.key| == |c'.key| == |c''.key| && Flushed(c, c'')
  {
  }

  /** The two views agree on every block but k. */
  ghost predicate Others(v: View, w: View, k: Key) {
    forall k' :: k' in v && k' != k ==> k' in w && w[k'] == v[k']
  }

  /** The counts after one more holder of k. */
  function Raised(refs: map<Key, nat>, k: Key): map<Key, nat> {
    refs[k := if k in refs then refs[k] + 1 else 1]
  }

  lemma PinnedData(c: State, b: nat, k: Key)
    requires Coherent(c, NIL) && c.Pin(b, k)
    ensures c.Sized() && c.cnt[b] > 0 && c.data[b] == c.view[k]
  {
    assert c.HeadOK(b, NIL) && c.HeadOK(c.at[k], NIL) && c.view[k] == c.Logical(k);
  }

  lemma Sizes(c: State)
    requires Coherent(c, NIL)
    ensures c.Sized()
  {
  }

  lemma InitCoherent(n: nat, d: Disk)
    ensures Coherent(State(seq(n, _ => Key(0, 0)), seq(n, _ => ZeroBlock()), seq(n, _ => false), seq(n, _ => false), seq(n, _ => 0),
                           d, (imap k: Key :: DiskAt(d, k)), map[], map[]), NIL)
  {
  }

  /** When no head of a device has to be written, its disk is the logical disk. */
  lemma NothingToWrite(c: State, d: nat)
    requires Coherent(c, NIL)
    ensures c.Sized() && (c.Dirty(d) == {} ==> c.OnDisk(d))
  {
    forall k: Key | c.Dirty(d) == {} && k.dev == d
      ensures c.view[k] == DiskAt(c.disk, k)
    {
      assert c.view[k] == c.Logical(k);
      if k in c.at && c.valid[c.at[k]] {
        assert c.HeadOK(c.at[k], NIL) && c.at[k] !in c.Dirty(d);
      }
    }
  }

  lemma RangeSize(s: set<nat>, n: nat)
    requires forall b :: b in s ==> b < n
    ensures |s| <= n
  {
    if n > 0 {
      assert |s - {n - 1}| >= |s| - 1;
      RangeSize(s - {n - 1}, n - 1);
    } else {
      assert s == {};
    }
  }

  lemma KeysSize(key: seq<Key>, at: map<Key, nat>, refs: map<Key, nat>, n: nat)
    requires n <= |key| && forall b :: 0 <= b < n ==> key[b] in at && at[key[b]] == b && key[b] in refs
    ensures |refs.Keys| >= n
  {
    if n > 0 {
      var rest := refs - {key[n - 1]};
      assert rest.Keys == refs.Keys - {key[n - 1]};
      KeysSize(key, at, rest, n - 1);
    }
  }

  /** Holding a block once more and letting go again changes no count. */
  lemma HoldDrop(c: State, k: Key)
    requires Coherent(c, NIL)
    ensures Dropped(Raised(c.refs, k), k) == c.refs
    ensures |Raised(c.refs, k)| <= |c.refs| + 1
  {
    if k in c.refs {
      assert c.HeadOK(c.at[k], NIL);
      assert Raised(c.refs, k).Keys == c.refs.Keys;
    } else {
      assert Raised(c.refs, k).Keys == c.refs.Keys + {k};
    }
  }

  /** With fewer blocks held than there are heads, some head is held by nobody. */
  lemma NotAllHeld(c: State, d: nat)
    requires Coherent(c, NIL) && c.Only(d) && |c.refs| < |c.key|
    ensures c.Waiting(d) || exists b :: 0 <= b < |c.key| && c.key[b].dev == 0
  {
    if !c.Waiting(d) && forall b :: 0 <= b < |c.key| ==> c.key[b].dev != 0 {
      forall b | 0 <= b < |c.key|
        ensures c.key[b] in c.at && c.at[c.key[b]] == b && c.key[b] in c.refs
      {
        assert c.HeadOK(b, NIL);
      }
      KeysSize(c.key, c.at, c.refs, |c.key|);
    }
  }
}
