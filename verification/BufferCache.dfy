/** The buffer cache as the rest of the file system uses it (fs/buffer.c, fs/blk_drv.c). */
module BufferCache {
  import opened Blocks
  import opened Rings
  import opened HashTable
  import opened CacheState

  /** The heads after head p was blanked. */
  function FreedHeads(h: Heads, p: nat): Heads
    requires p < |h.key| == |h.valid| == |h.dirt|
  {
    h.(key := h.key[p := Key(0, 0)], valid := h.valid[p := false], dirt := h.dirt[p := false])
  }

  class Cache {
    var h: Heads
    var l: Links

    ghost var rows: seq<seq<nat>>
    ghost var free: seq<nat>
    ghost var view: View           // what each block reads as
    ghost var refs: map<Key, nat>  // how often each block is held
    ghost var at: map<Key, nat>    // where each hashed block is

    ghost function Now(): State
      reads this`h, this`view, this`refs, this`at
    {
      State(h.key, h.data, h.valid, h.dirt, h.cnt, h.disk, view, refs, at)
    }

    ghost predicate Valid()
      reads this
    {
      Linked(h.key, l, rows, free) && Coherent(Now(), NIL)
    }

    /** A head can be had for a block of device d. */
    ghost predicate Room(k: Key)
      reads this
    {
      k in h.key || free != [] || Now().Waiting(k.dev)
    }

    /** With fewer blocks held than there are heads, there is room for any block. */
    lemma Roomy(k: Key)
      requires Valid() && Now().Only(k.dev) && |refs| < |h.key|
      ensures Room(k)
    {
      NotAllHeld(Now(), k.dev);
    }

    /** A held valid buffer holds the logical block. */
    lemma Reads(b: nat, k: Key)
      requires Valid() && Now().Pin(b, k)
      ensures b < |h.data| && k in view && h.data[b] == view[k]
    {
      PinnedData(Now(), b, k);
    }

    lemma Total()
      requires Valid()
      ensures forall k: Key :: k in view
    {
    }

    lemma HoldDropped(k: Key)
      requires Valid()
      ensures Dropped(Raised(refs, k), k) == refs && refs.Keys <= Raised(refs, k).Keys
      ensures |Raised(refs, k)| <= |refs| + 1
    {
      HoldDrop(Now(), k);
    }

    /** init_buffer (fs/buffer.c:145-177): n heads, all free. */
    constructor (n: nat, d: Disk)
      requires n > 0
      ensures Valid() && |h.key| == n && refs == map[] && h.disk == d
      ensures forall k: Key :: k in view && view[k] == DiskAt(d, k)
      ensures forall dev :: Now().Only(dev)
    {
      var prev, next, i := [], [], 0;
      while i < n
        invariant i <= n && |prev| == |next| == i
        invariant forall j :: 0 <= j < i ==> prev[j] == j - 1 && next[j] == j + 1
      {
        prev, next, i := prev + [i - 1], next + [i + 1], i + 1;
      }
      prev := prev[0 := n - 1];
      next := next[n - 1 := 0];
      hide Linked, Coherent;
      ghost var s := seq(n, i requires 0 <= i => i);
      InitLinked(n, next, prev, s);
      InitCoherent(n, d);
      h := Heads(seq(n, _ => Key(0, 0)), seq(n, _ => ZeroBlock()), seq(n, _ => false), seq(n, _ => false), seq(n, _ => 0), d);
      l := Links(seq(NR_HASH, _ => NIL), seq(n, _ => NIL), seq(n, _ => NIL), 0, next, prev);
      rows, free := seq(NR_HASH, _ => []), s;
      view, refs, at := (imap k: Key :: DiskAt(d, k)), map[], map[];
    }

    /** find_buffer (fs/buffer.c:81-105): the scan runs from both ends of the row. */
    method FindBuffer(k: Key) returns (r: int)
      requires Linked(h.key, l, rows, free) && k.dev != 0
      ensures r == NIL || 0 <= r < |h.key|
      ensures if r == NIL then k !in h.key else h.key[r] == k
    {
      hide Ring, Linked, Irow;
      var i := Irow(k);
      RowOf(h.key, l, rows, free, k);
      ghost var s := rows[i];
      if l.hash[i] == NIL {
        return NIL;
      }
      ghost var n, m := |s|, 0;
      RingEnds(l.hashNext, l.hashPrev, s, 0);
      var q := l.hashPrev[l.hash[i]];
      var p := l.hash[i];
      while true
        invariant 0 <= m <= n - 1 - m && p == s[m] && q == s[n - 1 - m]
        invariant forall j :: 0 <= j < m || n - 1 - m < j < n ==> h.key[s[j]] != k
        decreases n - m
      {
        RingEnds(l.hashNext, l.hashPrev, s, m);
        if h.key[p] == k {
          return p;
        }
        if h.key[q] == k {
          return q;
        }
        if l.hashNext[p] == q {
          break;
        }
        if p == q {
          break;
        }
        p := l.hashNext[p];
        q := l.hashPrev[q];
        m := m + 1;
      }
      return NIL;
    }

    /** free_buffer (fs/buffer.c:108-142): a head that nobody holds becomes free. */
    method FreeBuffer(p: nat)
      requires Linked(h.key, l, rows, free) && Coherent(Now(), p)
      requires p < |h.key| && h.key[p].dev != 0 && h.cnt[p] == 0
      requires h.valid[p] ==> h.data[p] == DiskAt(h.disk, h.key[p])
      modifies this
      ensures Valid() && Now() == Freed(old(Now()), p) && free == old(free) + [p]
      ensures h == FreedHeads(old(h), p)
    {
      hide Linked, Coherent;
      FreedCoherent(Now(), p);
      ghost var rows' := FreeLinked(h.key, l, rows, free, p);
      l := FreeLinks(h.key, l, p);
      rows, free, at := rows', free + [p], at - {h.key[p]};
      h := h.(dirt := h.dirt[p := false], valid := h.valid[p := false], key := h.key[p := Key(0, 0)]);
    }

    /** The loop body of sync_blks (fs/buffer.c:216-224) for head b; c counts the writes. */
    method SyncOne(b: nat, dev: nat, n: nat, c: nat) returns (c': nat, stop: bool)
      requires Valid() && b < |h.key| && dev != 0
      modifies this
      ensures Valid() && Flushed(old(Now()), Now())
      ensures old(free) <= free && (|free| == |old(free)| ==> h.key == old(h.key))
      ensures b !in old(Now()).Dirty(dev) ==> Now().Dirty(dev) == old(Now()).Dirty(dev) && c' == c && !stop
      ensures b in old(Now()).Dirty(dev) ==> c' == c + 1 && stop == (c >= n)
      ensures b !in old(Now()).Dirty(dev) ==> h == old(h)
      ensures b in old(Now()).Dirty(dev) ==>
        var w := old(h).(disk := old(h).disk[old(h).key[b] := old(h).data[b]]);
        |w.key| == |w.valid| == |w.dirt| == |w.cnt| &&
        h == if w.cnt[b] == 0 then FreedHeads(w, b) else if stop then w else w.(dirt := w.dirt[b := false])
      ensures b in old(Now()).Dirty(dev) && !stop ==> Now().Dirty(dev) == old(Now()).Dirty(dev) - {b}
      ensures Now().Dirty(dev) <= old(Now()).Dirty(dev)
      ensures |Now().Dirty(dev)| + (if c' > c && !stop then 1 else 0) <= |old(Now()).Dirty(dev)|
    {
      hide Linked, Coherent, Flushed;
      Sizes(Now());
      FlushedSelf(Now());
      c', stop := c, false;
      if h.dirt[b] && h.valid[b] && h.key[b].dev == dev {
        ghost var was := Now();
        SyncedCoherent(was, b, c < n);
        SyncedFlushes(was, b, c < n);
        SyncedDirty(was, b, c < n, dev);
        WrittenCoherent(was, b, b);
        h := h.(disk := h.disk[h.key[b] := h.data[b]]);
        if h.cnt[b] == 0 {
          FreeBuffer(b);
        }
        c' := c + 1;
        if c >= n {
          assert Now() == Synced(was, b, false);
          return c', true;
        }
        assert was.cnt[b] == 0 ==> h.dirt[b := false] == h.dirt;
        h := h.(dirt := h.dirt[b := false]);
        assert Now() == Synced(was, b, true);
      }
    }

    /** sync_blks (fs/buffer.c:208-236): one pass over all heads from both ends, stopping
        after the write that makes the count exceed n. It leaves no head of the device to
        write, or at least n fewer than before. */
    method SyncBlks(dev: nat, n: nat)
      requires Valid() && dev != 0
      modifies this
      ensures Valid() && Flushed(old(Now()), Now())
      ensures old(free) <= free && (|free| == |old(free)| ==> h.key == old(h.key))
      ensures Now().Dirty(dev) == {} || |Now().Dirty(dev)| + n <= |old(Now()).Dirty(dev)|
      ensures n >= |h.key| ==> Now().OnDisk(dev)
    {
      hide Linked, Coherent, Flushed, State.Sized, State.Dirty;
      Sizes(Now());
      FlushedSelf(Now());
      DirtyRange(Now(), dev);
      RangeSize(Now().Dirty(dev), |h.key|);
      var i, j, c, stop := 0, |h.key| - 1, 0, false;
      ghost var was, todo := Now(), Now().Dirty(dev);
      while i <= j
        invariant Valid() && Now().Sized() && Flushed(was, Now()) && |h.key| == |was.key| && 0 <= i <= j + 2
        invariant j < |h.key|
        invariant old(free) <= free && (|free| == |old(free)| ==> h.key == old(h.key))
        invariant Now().Dirty(dev) <= todo && |Now().Dirty(dev)| + c <= |todo|
        invariant forall b :: b in Now().Dirty(dev) ==> i <= b <= j
      {
        ghost var s0 := Now();
        c, stop := SyncOne(i, dev, n, c);
        ghost var s1 := Now();
        FlushedTwice(was, s0, s1);
        if stop {
          break;
        }
        c, stop := SyncOne(j, dev, n, c);
        FlushedTwice(was, s1, Now());
        if stop {
          break;
        }
        i, j := i + 1, j - 1;
      }
      NothingToWrite(Now(), dev);
    }

    /** get_buffer (fs/buffer.c:49-78): the loop ends when a head is free, or nobody holds
        some head of the device, for such a head waits to be written and each pass of
        sync_blks leaves fewer of them. */
    method GetBuffer(k: Key) returns (ret: nat)
      requires Valid() && k.dev != 0 && k !in h.key
      requires free != [] || Now().Waiting(k.dev)
      modifies this
      ensures Linked(h.key, l, rows, free) && Coherent(Now(), ret)
      ensures ret < |h.key| == |old(h.key)| == |h.cnt| == |h.valid| == |h.dirt|
      ensures h.key[ret] == k && h.cnt[ret] == 0 && !h.valid[ret] && !h.dirt[ret] && k !in refs
      ensures view == old(view) && refs == old(refs) && PinsKept(old(Now()), Now())
      ensures old(Now()).Only(k.dev) ==> Now().Only(k.dev)
      ensures old(free) != [] ==> ret == old(free)[0] && free == old(free)[1..]
      ensures old(free) != [] ==> h == old(h).(key := old(h).key[ret := k])
    {
      hide RowsOK, Placed, FreeOK, Coherent, Flushed, PinsKept, State.Dirty, State.Only, State.Waiting;
      ghost var was := Now();
      Sizes(was);
      FlushedSelf(was);
      while true
        invariant Valid() && was.Sized() && Now().Sized() && Flushed(was, Now()) && k !in h.key
        invariant free != [] || Now().Waiting(k.dev)
        invariant old(free) != [] ==> free == old(free) && h == old(h)
        decreases |Now().Dirty(k.dev)|
      {
        FreeHead(h.key, l, free);
        if l.freeList != NIL {
          break;
        }
        ghost var s0 := Now();
        WaitingDirty(s0, k.dev);
        SyncBlks(k.dev, 100);
        Sizes(Now());
        FlushedKeeps(s0, Now(), k.dev);
        FlushedTwice(was, s0, Now());
        FlushedKeys(s0, Now(), k);
      }
      hide Linked;
      ghost var c := Now();
      FlushedKeeps(was, c, k.dev);
      ret := l.freeList;
      ghost var rows' := TakenLinked(h.key, l, rows, free, k);
      TakenCoherent(c, ret, k);
      TakenKeeps(c, ret, k);
      l := TakeFree(l);
      h := h.(key := h.key[ret := k]);
      l := AddHash(h.key, l, ret);
      rows, free, at := rows', free[1..], at[k := ret];
      PinsTwice(was, c, Now());
    }

    /** get_blk (fs/blk_drv.c:186-207): the caller holds the buffer of k once more. */
    method GetBlk(k: Key) returns (b: nat)
      requires Valid() && k.dev != 0 && Room(k)
      modifies this
      ensures Valid() && view == old(view) && refs == Raised(old(refs), k)
      ensures Now().Held(b, k) && |h.valid| == |h.key| == |old(h.key)| && (h.valid[b] ==> Now().Pin(b, k))
      ensures PinsKept(old(Now()), Now())
      ensures old(Now()).Only(k.dev) ==> Now().Only(k.dev)
      ensures k in old(h).key ==> b < |old(h).key| && old(h).key[b] == k
      ensures k !in old(h).key && old(free) != [] ==> b == old(free)[0]
      ensures k in old(h).key || old(free) != [] ==> b < |old(h).cnt| == |old(h).key|
      ensures k in old(h).key || old(free) != [] ==>
        h == old(h).(key := old(h).key[b := k], cnt := old(h).cnt[b := old(h).cnt[b] + 1])
    {
      hide Linked, Coherent, PinsKept, State.Only, State.Waiting, Raised;
      ghost var was := Now();
      Sizes(was);
      var r := FindBuffer(k);
      if r == NIL {
        b := GetBuffer(k);
      } else {
        b := r;
        CoherentBut(was, b);
        assert h.key[b := k] == h.key;
      }
      ghost var c := Now();
      HeldCoherent(c, b);
      HeldKeeps(was, c, b);
      h := h.(cnt := h.cnt[b := h.cnt[b] + 1]);
      refs := refs[k := h.cnt[b]];
    }

    /** bread (fs/blk_drv.c:210-221): the buffer returned holds the logical block. */
    method Bread(k: Key) returns (b: nat)
      requires Valid() && k.dev != 0 && Room(k)
      modifies this
      ensures Valid() && view == old(view) && refs == Raised(old(refs), k) && |h.key| == |old(h.key)|
      ensures Now().Pin(b, k) && b < |h.data| && h.data[b] == view[k]
      ensures k in old(h).key || old(free) != [] ==> h.disk == old(h).disk
      ensures PinsKept(old(Now()), Now())
      ensures old(Now()).Only(k.dev) ==> Now().Only(k.dev)
    {
      hide Linked, Coherent, PinsKept, State.Only, Room;
      ghost var was := Now();
      b := GetBlk(k);
      ghost var c := Now();
      if h.valid[b] {
        PinnedData(c, b, k);
        return;
      }
      ReadCoherent(c, b);
      ReadKeeps(was, c, b);
      h := h.(data := h.data[b := DiskAt(h.disk, k)]);
      h := h.(valid := h.valid[b := true]);
    }

    /** brelse (fs/blk_drv.c:173-183): one holder lets go; a buffer that then nobody holds
        and that need not be written becomes free. */
    method Brelse(b: nat, ghost k: Key)
      requires Valid() && Now().Held(b, k)
      modifies this
      ensures Valid() && view == old(view) && refs == Dropped(old(refs), k) && |h.key| == |old(h.key)|
      ensures PinsKept(old(Now()), Now())
      ensures forall d :: old(Now()).Only(d) ==> Now().Only(d)
      ensures |old(h).key| == |old(h).cnt| == |old(h).dirt| == |old(h).valid| && b < |old(h).key| && old(h).cnt[b] > 0
      ensures var u := old(h).(cnt := old(h).cnt[b := old(h).cnt[b] - 1]);
        if u.cnt[b] == 0 && !(u.dirt[b] && u.valid[b]) then h == FreedHeads(u, b) && free == old(free) + [b]
        else h == u && free == old(free)
    {
      hide Linked, Coherent, PinsKept, State.Only;
      ghost var c := Now();
      HeldCounts(c, b, k);
      DroppedCoherent(c, b);
      DroppedKeeps(c, b);
      refs := Dropped(refs, h.key[b]);
      h := h.(cnt := h.cnt[b := h.cnt[b] - 1]);
      if h.cnt[b] == 0 {
        if !h.dirt[b] || !h.valid[b] {
          FreeBuffer(b);
        }
      }
    }

    /** A holder writes into its buffer and sets bh_dirt, as every writer in fs/ does. */
    method Store(b: nat, ghost k: Key, d: Block)
      requires Valid() && Now().Pin(b, k)
      modifies this`h, this`view
      ensures Valid() && view == old(view)[k := d] && Now().Pin(b, k) && |h.key| == |old(h.key)|
      ensures PinsKept(old(Now()), Now())
      ensures forall d :: old(Now()).Only(d) ==> Now().Only(d)
    {
      hide Linked, Coherent, PinsKept;
      PinnedData(Now(), b, k);
      StoredCoherent(Now(), b, d);
      StoredKeeps(Now(), b, d);
      h := h.(data := h.data[b := d], dirt := h.dirt[b := true]);
      assert h.valid[b := true] == h.valid;
      view := view[k := d];
    }

    /** A holder fills a buffer that need not be valid and sets bh_dirt and bh_valid. */
    method Fill(b: nat, k: Key, d: Block)
      requires Valid() && Now().Held(b, k)
      modifies this`h, this`view
      ensures Valid() && view == old(view)[k := d] && Now().Pin(b, k) && |h.key| == |old(h.key)|
      ensures PinsKept(old(Now()), Now())
      ensures forall d :: old(Now()).Only(d) ==> Now().Only(d)
    {
      hide Linked, Coherent, PinsKept;
      HeldCounts(Now(), b, k);
      StoredCoherent(Now(), b, d);
      StoredKeeps(Now(), b, d);
      h := h.(data := h.data[b := d], dirt := h.dirt[b := true], valid := h.valid[b := true]);
      view := view[k := d];
    }

    /** The only holder gives the contents up: bh_dirt and bh_valid are cleared. */
    method Discard(b: nat, k: Key)
      requires Valid() && Now().Held(b, k) && refs[k] == 1
      modifies this`h, this`view
      ensures Valid() && Others(old(view), view, k) && Now().Held(b, k) && h.key == old(h.key)
      ensures PinsKeptBut(old(Now()), Now(), k)
      ensures forall d :: old(Now()).Only(d) ==> Now().Only(d)
    {
      hide Linked, Coherent;
      HeldCounts(Now(), b, k);
      DiscardedCoherent(Now(), b);
      h := h.(dirt := h.dirt[b := false], valid := h.valid[b := false]);
      view := view[k := DiskAt(h.disk, k)];
    }
  }
}
