/** The block trees of files (fs/inode.c). A slot is a place that can hold a block number:
    one of the nine zones of an inode, or one of the 512 entries of an indirect block. */
module FileTree {
  import opened Blocks
  import opened CacheState

  /** The only mounted device. */
  const ROOT_DEV := 0x305

  const MAX_BLKS := 7 + 512 + 512 * 512

  function BlkKey(n: nat): Key {
    Key(ROOT_DEV, n)
  }

  /** The contents of block n of the root device. */
  function At(v: View, n: nat): Block {
    if BlkKey(n) in v then v[BlkKey(n)] else ZeroBlock()
  }

  datatype Slot = Root(ino: nat, z: nat) | Child(parent: Slot, idx: nat)

  /** The slot names a block of 512 block numbers. */
  predicate Table(s: Slot) {
    match s
    case Root(_, z) => z == 7 || z == 8
    case Child(p, _) => p.Root? && p.z == 8
  }

  predicate IsSlot(s: Slot) {
    match s
    case Root(_, z) => z < 9
    case Child(p, i) => IsSlot(p) && Table(p) && i < 512
  }

  /** A slot of a block with file contents. */
  predicate IsData(s: Slot) {
    IsSlot(s) && !Table(s)
  }

  function InoOf(s: Slot): nat {
    match s
    case Root(ino, _) => ino
    case Child(p, _) => InoOf(p)
  }

  /** i_zone of every inode of the device. */
  type Zones = map<nat, seq<nat>>

  /** The block number in a slot; 0 if there is none. */
  function Ptr(v: View, zs: Zones, s: Slot): nat
    requires IsSlot(s)
  {
    match s
    case Root(ino, z) => if ino in zs && |zs[ino]| == 9 then zs[ino][z] else 0
    case Child(p, i) => if Ptr(v, zs, p) == 0 then 0 else Entry(At(v, Ptr(v, zs, p)), i)
  }

  /** The slot of block n of a file. */
  function DataSlot(ino: nat, n: nat): (s: Slot)
    requires n < MAX_BLKS
    ensures IsData(s) && InoOf(s) == ino
  {
    if n < 7 then Root(ino, n)
    else if n < 519 then Child(Root(ino, 7), n - 7)
    else
      var mid := Child(Root(ino, 8), (n - 519) / 512);
      assert IsSlot(mid) && Table(mid) && InoOf(mid) == ino;
      Child(mid, (n - 519) % 512)
  }

  /** Every data slot is the slot of exactly one block of one file. */
  lemma DataSlotInverse(s: Slot) returns (n: nat)
    requires IsData(s)
    ensures n < MAX_BLKS && DataSlot(InoOf(s), n) == s
    ensures forall m :: 0 <= m < MAX_BLKS && DataSlot(InoOf(s), m) == s ==> m == n
  {
    match s
    case Root(_, z) =>
      n := z;
    case Child(Root(ino, z), i) =>
      assert IsSlot(s.parent);
      n := 7 + i;
    case Child(Child(r, j), i) =>
      assert IsSlot(s.parent) && Table(s.parent) && s.parent == Child(r, j);
      assert r.Root? && r.z == 8 && InoOf(s) == InoOf(s.parent) == InoOf(r) == r.ino;
      n := 519 + 512 * j + i;
      assert (n - 519) / 512 == j && (n - 519) % 512 == i;
  }

  lemma DataSlotInjective(ino: nat, n: nat, ino': nat, m: nat)
    requires n < MAX_BLKS && m < MAX_BLKS && DataSlot(ino, n) == DataSlot(ino', m)
    ensures ino == ino' && n == m
  {
    var k := DataSlotInverse(DataSlot(ino, n));
  }

  /** What block n of a file is, in terms of the zones of the inode: zone n; else word n - 7 of the
      table in zone 7; else word (n - 519) % 512 of the table that word (n - 519) / 512 of the table
      in zone 8 names. A table that is not there names no block. */
  lemma BlockIs(v: View, zs: Zones, ino: nat, n: nat)
    requires n < 7 + 512 + 512 * 512 && ino in zs && |zs[ino]| == 9
    ensures n < 7 ==> Ptr(v, zs, DataSlot(ino, n)) == zs[ino][n]
    ensures 7 <= n < 519 ==>
      Ptr(v, zs, DataSlot(ino, n)) == if zs[ino][7] == 0 then 0 else Entry(At(v, zs[ino][7]), n - 7)
    ensures n >= 519 ==>
      var t := if zs[ino][8] == 0 then 0 else Entry(At(v, zs[ino][8]), (n - 519) / 512);
      Ptr(v, zs, DataSlot(ino, n)) == if t == 0 then 0 else Entry(At(v, t), (n - 519) % 512)
  {
    hide Entry, At;
    var root := Root(ino, if n < 7 then n else if n < 519 then 7 else 8);
    assert Ptr(v, zs, root) == zs[ino][root.z];
    if n >= 519 {
      assert Ptr(v, zs, Child(root, (n - 519) / 512)) == if zs[ino][8] == 0 then 0 else Entry(At(v, zs[ino][8]), (n - 519) / 512);
    }
  }

  /** Block ownership: every block number in a slot is allocated, and is in no other slot
      (owner is the inverse of Ptr). */
  ghost predicate Owned(v: View, zs: Zones, used: set<nat>, owner: map<nat, Slot>) {
    forall s :: IsSlot(s) && Ptr(v, zs, s) != 0 ==>
      Ptr(v, zs, s) in used && Ptr(v, zs, s) in owner && owner[Ptr(v, zs, s)] == s
  }

  lemma Distinct(v: View, zs: Zones, used: set<nat>, owner: map<nat, Slot>, s: Slot, t: Slot)
    requires Owned(v, zs, used, owner) && IsSlot(s) && IsSlot(t)
    ensures Ptr(v, zs, s) == Ptr(v, zs, t) != 0 ==> s == t
  {
  }

  lemma InUse(v: View, zs: Zones, used: set<nat>, owner: map<nat, Slot>, s: Slot)
    requires Owned(v, zs, used, owner) && IsSlot(s)
    ensures Ptr(v, zs, s) != 0 ==> Ptr(v, zs, s) in used
  {
  }

  /** Blocks that hold no block numbers of a file can change without moving any file. */
  lemma PtrFrame(v: View, v': View, zs: Zones, s: Slot)
    requires IsSlot(s)
    requires forall p :: IsSlot(p) && Table(p) && Ptr(v, zs, p) != 0 ==> At(v', Ptr(v, zs, p)) == At(v, Ptr(v, zs, p))
    ensures Ptr(v', zs, s) == Ptr(v, zs, s)
  {
    if s.Child? {
      PtrFrame(v, v', zs, s.parent);
    }
  }

  function ZoneSet(zone: seq<nat>, z: nat, b: nat): seq<nat>
    requires z < |zone|
  {
    zone[z := b]
  }

  /** The tables after block number b is written into slot t. */
  function Pointed(v: View, zs: Zones, t: Slot, b: nat): (View, Zones)
    requires IsSlot(t) && b < 0x1_0000
  {
    match t
    case Root(ino, z) => (v, if ino in zs && |zs[ino]| == 9 then zs[ino := ZoneSet(zs[ino], z, b)] else zs)
    case Child(p, i) =>
      if Ptr(v, zs, p) == 0 then (v, zs)
      else (v[BlkKey(Ptr(v, zs, p)) := SetEntry(At(v, Ptr(v, zs, p)), i, b)], zs)
  }

  /** The slot exists: its inode, or its indirect block, is there. */
  predicate Present(v: View, zs: Zones, t: Slot)
    requires IsSlot(t)
  {
    match t
    case Root(ino, z) => ino in zs && |zs[ino]| == 9
    case Child(p, i) => Ptr(v, zs, p) != 0
  }

  /** b can be put in slot t: it is in no slot, and if t names a table then the slot is
      empty and the table holds no block numbers yet. */
  ghost predicate Fits(v: View, zs: Zones, t: Slot, b: nat)
    requires IsSlot(t)
  {
    && b < 0x1_0000
    && (Table(t) ==> Ptr(v, zs, t) == 0 && b != 0 && forall i :: 0 <= i < 512 ==> Entry(At(v, b), i) == 0)
    && (b != 0 ==> forall s :: IsSlot(s) ==> Ptr(v, zs, s) != b)
  }

  /** Writing one slot changes that slot and no other. */
  lemma PointedPtr(v: View, zs: Zones, used: set<nat>, owner: map<nat, Slot>, t: Slot, b: nat, s: Slot)
    requires Owned(v, zs, used, owner) && IsSlot(t) && IsSlot(s) && Present(v, zs, t) && Fits(v, zs, t, b)
    ensures var (v', zs') := Pointed(v, zs, t, b); Ptr(v', zs', s) == if s == t then b else Ptr(v, zs, s)
  {
    match s
    case Root(ino, z) =>
    case Child(p, i) =>
      PointedPtr(v, zs, used, owner, t, b, p);
      var (v', zs') := Pointed(v, zs, t, b);
      if p == t {
        assert t.Child? ==> Ptr(v, zs, t.parent) != b;
        assert At(v', b) == At(v, b);
      } else if t.Child? && Ptr(v, zs, p) == Ptr(v, zs, t.parent) != 0 {
        Distinct(v, zs, used, owner, p, t.parent);
        EntryOfSetEntry(At(v, Ptr(v, zs, p)), t.idx, b, i);
      }
  }

  /** Only slot t changed, to b, and what the files hold did not change. */
  ghost predicate Moved(v: View, zs: Zones, v': View, zs': Zones, t: Slot, b: nat) {
    && (forall s :: IsSlot(s) ==> Ptr(v', zs', s) == if s == t then b else Ptr(v, zs, s))
    && (forall s :: IsData(s) && Ptr(v, zs, s) != 0 ==> At(v', Ptr(v, zs, s)) == At(v, Ptr(v, zs, s)))
  }

  lemma MovedNot(v: View, zs: Zones, t: Slot)
    requires IsSlot(t)
    ensures Moved(v, zs, v, zs, t, Ptr(v, zs, t))
  {
  }

  lemma MovedOwned(v: View, zs: Zones, used: set<nat>, owner: map<nat, Slot>, v': View, zs': Zones, t: Slot, b: nat)
    requires Owned(v, zs, used, owner) && IsSlot(t) && Moved(v, zs, v', zs', t, b)
    requires b != 0 ==> b in used && forall s :: IsSlot(s) ==> Ptr(v, zs, s) != b
    ensures Owned(v', zs', used, owner[b := t])
  {
  }

  /** Putting a fitting block number into a slot. */
  lemma Grow(v: View, zs: Zones, used: set<nat>, owner: map<nat, Slot>, t: Slot, b: nat)
    requires Owned(v, zs, used, owner) && IsSlot(t) && Present(v, zs, t) && Fits(v, zs, t, b) && (b != 0 ==> b in used)
    ensures var (v', zs') := Pointed(v, zs, t, b); Moved(v, zs, v', zs', t, b) && Owned(v', zs', used, owner[b := t])
  {
    var (v', zs') := Pointed(v, zs, t, b);
    forall s | IsSlot(s)
      ensures Ptr(v', zs', s) == if s == t then b else Ptr(v, zs, s)
    {
      PointedPtr(v, zs, used, owner, t, b, s);
    }
    forall s | IsData(s) && Ptr(v, zs, s) != 0
      ensures At(v', Ptr(v, zs, s)) == At(v, Ptr(v, zs, s))
    {
      if t.Child? {
        Distinct(v, zs, used, owner, s, t.parent);
      }
    }
    MovedOwned(v, zs, used, owner, v', zs', t, b);
  }

  /** A block that was not allocated is in no slot, so it can be written freely. */
  lemma Fresh(v: View, zs: Zones, used: set<nat>, owner: map<nat, Slot>, b: nat, t: Slot)
    requires Owned(v, zs, used, owner) && b !in used && b != 0 && b < 0x1_0000 && IsSlot(t) && Ptr(v, zs, t) == 0
    ensures var v' := v[BlkKey(b) := ZeroBlock()];
      && (forall s :: IsSlot(s) ==> Ptr(v', zs, s) == Ptr(v, zs, s) != b)
      && (forall s :: IsSlot(s) && Ptr(v, zs, s) != 0 ==> At(v', Ptr(v, zs, s)) == At(v, Ptr(v, zs, s)))
      && Owned(v', zs, used + {b}, owner) && Fits(v', zs, t, b) && At(v', b) == ZeroBlock()
  {
    var v' := v[BlkKey(b) := ZeroBlock()];
    forall s | IsSlot(s)
      ensures Ptr(v', zs, s) == Ptr(v, zs, s) != b
    {
      PtrFrame(v, v', zs, s);
    }
  }

  /** A newly allocated block put into an empty slot. */
  lemma Allocate(v: View, zs: Zones, used: set<nat>, owner: map<nat, Slot>, b: nat, t: Slot)
    requires Owned(v, zs, used, owner) && b !in used && b != 0 && b < 0x1_0000 && IsSlot(t)
    requires Present(v, zs, t) && Ptr(v, zs, t) == 0
    ensures var (v', zs') := Pointed(v[BlkKey(b) := ZeroBlock()], zs, t, b);
      && Moved(v, zs, v', zs', t, b) && Owned(v', zs', used + {b}, owner[b := t]) && At(v', b) == ZeroBlock()
    ensures t.Child? ==>
      var v1, p := v[BlkKey(b) := ZeroBlock()], Ptr(v, zs, t.parent);
      Pointed(v1, zs, t, b) == (v1[BlkKey(p) := SetEntry(At(v1, p), t.idx, b)], zs)
  {
    var v1 := v[BlkKey(b) := ZeroBlock()];
    Fresh(v, zs, used, owner, b, t);
    if t.Child? {
      assert Ptr(v1, zs, t.parent) == Ptr(v, zs, t.parent);
    }
    Grow(v1, zs, used + {b}, owner, t, b);
  }

  /** Slot s of a file now names block r; no other block of any file moved, and no block
      of a file changed. Tables may have been allocated. */
  ghost predicate Extended(v: View, zs: Zones, v': View, zs': Zones, s: Slot, r: nat) {
    && (forall d :: IsData(d) ==> Ptr(v', zs', d) == if d == s then r else Ptr(v, zs, d))
    && (forall d :: IsData(d) && Ptr(v, zs, d) != 0 ==> At(v', Ptr(v, zs, d)) == At(v, Ptr(v, zs, d)))
  }

  lemma ExtendedNot(v: View, zs: Zones, s: Slot)
    requires IsData(s)
    ensures Extended(v, zs, v, zs, s, Ptr(v, zs, s))
  {
  }

  lemma ExtendData(v: View, zs: Zones, v': View, zs': Zones, s: Slot, r: nat)
    requires IsData(s) && Moved(v, zs, v', zs', s, r)
    ensures Extended(v, zs, v', zs', s, r) && Ptr(v', zs', s) == r
  {
  }

  /** Changing a table's slot moves no block of a file. */
  lemma ExtendTable(v: View, zs: Zones, v': View, zs': Zones, t: Slot, b: nat, s: Slot)
    requires IsSlot(t) && Table(t) && Moved(v, zs, v', zs', t, b) && IsData(s)
    ensures Extended(v, zs, v', zs', s, Ptr(v, zs, s)) && Ptr(v', zs', t) == b && Ptr(v', zs', s) == Ptr(v, zs, s)
  {
  }

  lemma ExtendTwice(v: View, zs: Zones, v': View, zs': Zones, v'': View, zs'': Zones, s: Slot, r: nat, r': nat)
    requires Extended(v, zs, v', zs', s, r) && Extended(v', zs', v'', zs'', s, r') && IsData(s) && r == Ptr(v, zs, s)
    ensures Extended(v, zs, v'', zs'', s, r')
  {
  }

  /** An inode that comes in with no blocks changes no slot. */
  lemma {:induction false} EmptyZones(v: View, zs: Zones, ino: nat, s: Slot)
    requires ino !in zs && IsSlot(s)
    ensures Ptr(v, zs[ino := seq(9, _ => 0)], s) == Ptr(v, zs, s)
  {
    if s.Child? {
      EmptyZones(v, zs, ino, s.parent);
    }
  }

  /** Without inodes all slots are empty. */
  lemma NoFiles(v: View)
    ensures forall s :: IsSlot(s) ==> Ptr(v, map[], s) == 0
  {
    forall s | IsSlot(s)
      ensures Ptr(v, map[], s) == 0
    {
      NoFile(v, s);
    }
  }

  lemma {:induction false} NoFile(v: View, s: Slot)
    requires IsSlot(s)
    ensures Ptr(v, map[], s) == 0
  {
    if s.Child? {
      NoFile(v, s.parent);
    }
  }

  lemma EmptyOwned(v: View, zs: Zones, used: set<nat>, owner: map<nat, Slot>, ino: nat)
    requires ino !in zs && Owned(v, zs, used, owner)
    ensures Owned(v, zs[ino := seq(9, _ => 0)], used, owner)
    ensures forall s :: IsSlot(s) ==> Ptr(v, zs[ino := seq(9, _ => 0)], s) == Ptr(v, zs, s)
  {
    forall s | IsSlot(s)
      ensures Ptr(v, zs[ino := seq(9, _ => 0)], s) == Ptr(v, zs, s)
    {
      EmptyZones(v, zs, ino, s);
    }
  }

  // ---------- giving blocks back ----------

  /** b is in no slot. */
  ghost predicate Loose(v: View, zs: Zones, b: nat) {
    forall s :: IsSlot(s) ==> Ptr(v, zs, s) != b
  }

  /** Everything that is still in a slot is there in both states, with the same contents. */
  ghost predicate StillThere(v: View, zs: Zones, v': View, zs': Zones) {
    && (forall s :: IsSlot(s) ==> Ptr(v', zs', s) == Ptr(v, zs, s))
    && (forall s :: IsSlot(s) && Ptr(v, zs, s) != 0 ==> At(v', Ptr(v, zs, s)) == At(v, Ptr(v, zs, s)))
  }

  /** Freeing a block that is in no slot disturbs nothing. */
  lemma FreeLoose(v: View, zs: Zones, used: set<nat>, owner: map<nat, Slot>, b: nat, v': View)
    requires Owned(v, zs, used, owner) && Loose(v, zs, b) && Others(v, v', BlkKey(b)) && BlkKey(b) in v
    requires forall k: Key :: k in v
    ensures StillThere(v, zs, v', zs) && Owned(v', zs, used - {b}, owner)
  {
    forall s | IsSlot(s) && Ptr(v, zs, s) != 0
      ensures At(v', Ptr(v, zs, s)) == At(v, Ptr(v, zs, s))
    {
    }
    forall s | IsSlot(s)
      ensures Ptr(v', zs, s) == Ptr(v, zs, s)
    {
      PtrFrame(v, v', zs, s);
    }
  }

  /** Slot t was emptied; no other slot changed, and no other block of a file. */
  ghost predicate Released(v: View, zs: Zones, v': View, zs': Zones, t: Slot) {
    && (forall s :: IsSlot(s) ==> Ptr(v', zs', s) == if s == t then 0 else Ptr(v, zs, s))
    && (forall s :: IsData(s) && s != t && Ptr(v, zs, s) != 0 ==> At(v', Ptr(v, zs, s)) == At(v, Ptr(v, zs, s)))
  }

  /** Word k of the block is 0 now; the others are as before. */
  predicate WordCleared(b: Block, b': Block, k: nat) {
    forall i :: 0 <= i < 512 ==> Entry(b', i) == if i == k then 0 else Entry(b, i)
  }

  /** No other place of any file changed, and no other block that a file has. */
  lemma ReleasedKeeps(v: View, zs: Zones, v': View, zs': Zones, t: Slot, s: Slot)
    requires Released(v, zs, v', zs', t) && IsSlot(s) && s != t
    ensures Ptr(v', zs', s) == Ptr(v, zs, s)
    ensures IsData(s) && Ptr(v, zs, s) != 0 ==> At(v', Ptr(v, zs, s)) == At(v, Ptr(v, zs, s))
  {
  }

  lemma ReleasedNot(v: View, zs: Zones, t: Slot)
    requires IsSlot(t)
    ensures Ptr(v, zs, t) == 0 ==> Released(v, zs, v, zs, t)
  {
  }

  /** Freeing the block of a data slot moves nothing ... */
  lemma FreedData(v: View, zs: Zones, used: set<nat>, owner: map<nat, Slot>, t: Slot, v': View)
    requires Owned(v, zs, used, owner) && IsData(t) && Ptr(v, zs, t) != 0
    requires Others(v, v', BlkKey(Ptr(v, zs, t))) && forall k: Key :: k in v
    ensures Owned(v', zs, used, owner)
    ensures forall s :: IsSlot(s) ==> Ptr(v', zs, s) == Ptr(v, zs, s)
    ensures forall s :: IsSlot(s) && s != t && Ptr(v, zs, s) != 0 ==> At(v', Ptr(v, zs, s)) == At(v, Ptr(v, zs, s))
  {
    forall s | IsSlot(s) && s != t && Ptr(v, zs, s) != 0
      ensures At(v', Ptr(v, zs, s)) == At(v, Ptr(v, zs, s))
    {
      Distinct(v, zs, used, owner, s, t);
    }
    forall s | IsSlot(s)
      ensures Ptr(v', zs, s) == Ptr(v, zs, s)
    {
      PtrFrame(v, v', zs, s);
    }
  }

  /** ... and clearing the slot afterwards takes the block out of the tree. */
  lemma Release(v: View, zs: Zones, used: set<nat>, owner: map<nat, Slot>, t: Slot, v': View)
    requires Owned(v, zs, used, owner) && IsData(t) && Ptr(v, zs, t) != 0
    requires Others(v, v', BlkKey(Ptr(v, zs, t))) && forall k: Key :: k in v
    ensures t.Child? ==>
      var p := t.parent; Ptr(v', zs, p) == Ptr(v, zs, p) && At(v', Ptr(v, zs, p)) == At(v, Ptr(v, zs, p))
    ensures var (v'', zs'') := Pointed(v', zs, t, 0);
      Released(v, zs, v'', zs'', t) && Owned(v'', zs'', used - {Ptr(v, zs, t)}, owner)
  {
    FreedData(v, zs, used, owner, t, v');
    Grow(v', zs, used, owner, t, 0);
    var (v'', zs'') := Pointed(v', zs, t, 0);
    forall s | IsSlot(s) && Ptr(v'', zs'', s) != 0
      ensures Ptr(v'', zs'', s) in used - {Ptr(v, zs, t)} && Ptr(v'', zs'', s) in owner && owner[Ptr(v'', zs'', s)] == s
    {
      InUse(v, zs, used, owner, s);
      Distinct(v, zs, used, owner, s, t);
    }
  }

  // ---------- whole branches ----------

  /** s is t or below it. */
  predicate Under(s: Slot, t: Slot) {
    s == t || (s.Child? && Under(s.parent, t))
  }

  function Depth(s: Slot): nat {
    match s
    case Root(_, _) => 0
    case Child(p, _) => 1 + Depth(p)
  }

  lemma {:induction false} UnderDeeper(s: Slot, t: Slot)
    requires Under(s, t)
    ensures Depth(s) >= Depth(t) && (Depth(s) == Depth(t) ==> s == t) && InoOf(s) == InoOf(t)
  {
    if s != t {
      UnderDeeper(s.parent, t);
    }
  }

  /** Two branches at the same depth have no slot in common. */
  lemma {:induction false} BranchesApart(s: Slot, t: Slot, t': Slot)
    requires Under(s, t) && Under(s, t') && Depth(t) == Depth(t')
    ensures t == t'
  {
    if s == t {
      UnderDeeper(s, t');
    } else if s == t' {
      UnderDeeper(s, t);
    } else {
      BranchesApart(s.parent, t, t');
    }
  }

  /** Nothing hangs below an empty slot. */
  lemma {:induction false} NothingUnder(v: View, zs: Zones, s: Slot, t: Slot)
    requires IsSlot(s) && IsSlot(t) && Under(s, t) && Ptr(v, zs, t) == 0
    ensures Ptr(v, zs, s) == 0
  {
    if s != t {
      NothingUnder(v, zs, s.parent, t);
    }
  }

  /** freed is the set of the blocks of the branch at t, as the tree (v, zs) has it. */
  ghost predicate Branch(v: View, zs: Zones, owner: map<nat, Slot>, t: Slot, freed: set<nat>) {
    && (forall s :: IsSlot(s) && Under(s, t) && Ptr(v, zs, s) != 0 ==> Ptr(v, zs, s) in freed)
    && (forall b :: b in freed ==> b != 0 && b in owner && IsSlot(owner[b]) && Under(owner[b], t) && Ptr(v, zs, owner[b]) == b)
  }

  /** The blocks of the branch at t of the tree (v, zs) are still allocated and as they were,
      and nobody holds them. */
  ghost predicate Intact(v: View, zs: Zones, t: Slot, v': View, used: set<nat>, refs: map<Key, nat>) {
    forall s :: IsSlot(s) && Under(s, t) && Ptr(v, zs, s) != 0 ==>
      var b := Ptr(v, zs, s); b in used && At(v', b) == At(v, b) && BlkKey(b) !in refs
  }

  /** A block of a branch whose top slot has been emptied is in no slot any more. */
  lemma DetachedLoose(v: View, zs: Zones, used: set<nat>, owner: map<nat, Slot>, t: Slot, s: Slot, v': View,
                      zs': Zones, used': set<nat>)
    requires Owned(v, zs, used, owner) && Owned(v', zs', used', owner)
    requires IsSlot(t) && IsSlot(s) && Under(s, t) && Ptr(v', zs', t) == 0 && Ptr(v, zs, s) != 0
    ensures Loose(v', zs', Ptr(v, zs, s))
  {
    var b := Ptr(v, zs, s);
    forall s' | IsSlot(s')
      ensures Ptr(v', zs', s') != b
    {
      if Ptr(v', zs', s') == b {
        assert owner[b] == s == s';
        NothingUnder(v', zs', s, t);
      }
    }
  }

  /** done is the set of the blocks named by the first i entries of the table at t. */
  ghost predicate Done(v: View, zs: Zones, owner: map<nat, Slot>, t: Slot, i: nat, done: set<nat>)
    requires IsSlot(t) && Table(t) && i <= 512
  {
    && (forall k :: 0 <= k < i && Ptr(v, zs, Child(t, k)) != 0 ==> Ptr(v, zs, Child(t, k)) in done)
    && (forall b :: b in done ==> b in owner && owner[b].Child? && owner[b].parent == t && owner[b].idx < i && Ptr(v, zs, owner[b]) == b != 0)
  }

  lemma StillTwice(v: View, zs: Zones, v': View, zs': Zones, v'': View, zs'': Zones)
    requires StillThere(v, zs, v', zs') && StillThere(v', zs', v'', zs'')
    ensures StillThere(v, zs, v'', zs'')
  {
  }

  /** The entries of a table of data blocks, and the table: the whole branch. */
  lemma DoneBranch(v: View, zs: Zones, used: set<nat>, owner: map<nat, Slot>, t: Slot, done: set<nat>)
    requires IsSlot(t) && Table(t) && Owned(v, zs, used, owner) && Ptr(v, zs, t) != 0
    requires forall i :: 0 <= i < 512 ==> IsData(Child(t, i))
    requires Done(v, zs, owner, t, 512, done)
    ensures Branch(v, zs, owner, t, done + {Ptr(v, zs, t)})
  {
    forall s | IsSlot(s) && Under(s, t) && Ptr(v, zs, s) != 0
      ensures Ptr(v, zs, s) in done + {Ptr(v, zs, t)}
    {
      if s != t && s.parent != t {
        assert Under(s.parent, t) && IsSlot(s.parent);
        UnderTable(s.parent, t);
      }
    }
  }

  /** Below a table of data blocks there are only data slots. */
  lemma {:induction false} UnderTable(s: Slot, t: Slot)
    requires IsSlot(s) && Under(s, t) && IsSlot(t) && Table(t) && s != t
    requires forall i :: 0 <= i < 512 ==> IsData(Child(t, i))
    ensures s.Child? && s.parent == t && !Table(s)
  {
    if s.parent != t {
      UnderTable(s.parent, t);
    }
    assert IsData(Child(t, s.idx));
  }

  /** The next entry was not freed yet; its block and the table are not the same. */
  lemma NotDone(v: View, zs: Zones, used: set<nat>, owner: map<nat, Slot>, t: Slot, i: nat, done: set<nat>)
    requires IsSlot(t) && Table(t) && Owned(v, zs, used, owner) && i < 512 && Done(v, zs, owner, t, i, done)
    ensures var e := Ptr(v, zs, Child(t, i));
      && e !in done && Ptr(v, zs, t) !in done
      && (e != 0 ==> e != Ptr(v, zs, t) && Done(v, zs, owner, t, i + 1, done + {e}))
      && (e == 0 ==> Done(v, zs, owner, t, i + 1, done))
  {
    Distinct(v, zs, used, owner, t, Child(t, i));
    if Ptr(v, zs, t) != 0 {
      assert owner[Ptr(v, zs, t)] == t;
    }
  }

  lemma NoBranch(v: View, zs: Zones, owner: map<nat, Slot>, t: Slot)
    requires IsSlot(t) && Ptr(v, zs, t) == 0
    ensures Branch(v, zs, owner, t, {})
  {
    forall s | IsSlot(s) && Under(s, t)
      ensures Ptr(v, zs, s) == 0
    {
      NothingUnder(v, zs, s, t);
    }
  }

  lemma StillSelf(v: View, zs: Zones)
    ensures StillThere(v, zs, v, zs)
  {
  }

  lemma IntactAt(v: View, zs: Zones, t: Slot, v': View, used: set<nat>, refs: map<Key, nat>, s: Slot)
    requires Intact(v, zs, t, v', used, refs) && IsSlot(s) && Under(s, t)
    ensures Ptr(v, zs, s) != 0 ==> var b := Ptr(v, zs, s); b in used && At(v', b) == At(v, b) && BlkKey(b) !in refs
  {
  }

  lemma StillPtr(v: View, zs: Zones, v': View, zs': Zones, s: Slot)
    requires StillThere(v, zs, v', zs') && IsSlot(s)
    ensures Ptr(v', zs', s) == Ptr(v, zs, s)
  {
  }

  lemma DoneNone(v: View, zs: Zones, owner: map<nat, Slot>, t: Slot)
    requires IsSlot(t) && Table(t)
    ensures Done(v, zs, owner, t, 0, {})
  {
  }

  lemma IntactEntries(v: View, zs: Zones, used: set<nat>, owner: map<nat, Slot>, t: Slot, v': View, used': set<nat>,
                      refs: map<Key, nat>)
    requires Owned(v, zs, used, owner) && IsSlot(t) && Table(t) && Intact(v, zs, t, v', used', refs)
    ensures forall i :: 0 <= i < 512 && Ptr(v, zs, Child(t, i)) != 0 ==>
      var e := Ptr(v, zs, Child(t, i)); e in used' && BlkKey(e) !in refs && e != Ptr(v, zs, t)
  {
    forall i | 0 <= i < 512 && Ptr(v, zs, Child(t, i)) != 0
      ensures var e := Ptr(v, zs, Child(t, i)); e in used' && BlkKey(e) !in refs && e != Ptr(v, zs, t)
    {
      assert Under(Child(t, i), t);
      Distinct(v, zs, used, owner, t, Child(t, i));
    }
  }

  // ---------- branches of two levels ----------

  /** The entry of the table at t that leads down to s. */
  function Anchor(s: Slot, t: Slot): nat
    requires Under(s, t) && s != t
  {
    if s.parent == t then s.idx else Anchor(s.parent, t)
  }

  lemma {:induction false} AnchorUnder(s: Slot, t: Slot)
    requires Under(s, t) && s != t
    ensures Under(s, Child(t, Anchor(s, t)))
  {
    if s.parent != t {
      AnchorUnder(s.parent, t);
    }
  }

  lemma {:induction false} UnderAnchor(s: Slot, t: Slot, i: nat)
    requires Under(s, Child(t, i))
    ensures Under(s, t) && s != t && Anchor(s, t) == i
  {
    UnderDeeper(s, Child(t, i));
    if s != Child(t, i) {
      UnderAnchor(s.parent, t, i);
    }
  }

  /** done is the set of the blocks of the branches at the first i entries of the table at t. */
  ghost predicate DoneBranches(v: View, zs: Zones, owner: map<nat, Slot>, t: Slot, i: nat, done: set<nat>) {
    if i == 0 then done == {} else
      && (forall s :: IsSlot(s) && Under(s, t) && s != t && Anchor(s, t) < i && Ptr(v, zs, s) != 0 ==> Ptr(v, zs, s) in done)
      && (forall b :: b in done ==> b in owner && IsSlot(owner[b]) && Under(owner[b], t) && owner[b] != t && Anchor(owner[b], t) < i && Ptr(v, zs, owner[b]) == b != 0)
  }

  lemma DoneNoBranches(v: View, zs: Zones, owner: map<nat, Slot>, t: Slot)
    ensures DoneBranches(v, zs, owner, t, 0, {})
  {
  }

  lemma DoneOneMore(v: View, zs: Zones, owner: map<nat, Slot>, t: Slot, i: nat, done: set<nat>, freed: set<nat>)
    requires DoneBranches(v, zs, owner, t, i, done) && IsSlot(t) && Table(t) && i < 512
    requires Branch(v, zs, owner, Child(t, i), freed)
    ensures DoneBranches(v, zs, owner, t, i + 1, done + freed)
  {
    hide Ptr;
    forall s | IsSlot(s) && Under(s, t) && s != t && Anchor(s, t) < i + 1 && Ptr(v, zs, s) != 0
      ensures Ptr(v, zs, s) in done + freed
    {
      if Anchor(s, t) == i {
        AnchorUnder(s, t);
        assert Ptr(v, zs, s) in freed;
      } else {
        assert Ptr(v, zs, s) in done;
      }
    }
    forall b | b in done + freed
      ensures b in owner && IsSlot(owner[b]) && Under(owner[b], t) && owner[b] != t && Anchor(owner[b], t) < i + 1
      ensures Ptr(v, zs, owner[b]) == b != 0
    {
      if b in freed {
        UnderAnchor(owner[b], t, i);
      }
    }
  }

  lemma {:induction false} AnchorBound(s: Slot, t: Slot)
    requires IsSlot(s) && Under(s, t) && s != t
    ensures Anchor(s, t) < 512
  {
    if s.parent != t {
      AnchorBound(s.parent, t);
    }
  }

  lemma DoneBranchesAll(v: View, zs: Zones, used: set<nat>, owner: map<nat, Slot>, t: Slot, done: set<nat>)
    requires IsSlot(t) && Owned(v, zs, used, owner) && Ptr(v, zs, t) != 0 && DoneBranches(v, zs, owner, t, 512, done)
    ensures Branch(v, zs, owner, t, done + {Ptr(v, zs, t)}) && Ptr(v, zs, t) !in done
  {
    forall s | IsSlot(s) && Under(s, t) && Ptr(v, zs, s) != 0
      ensures Ptr(v, zs, s) in done + {Ptr(v, zs, t)}
    {
      if s != t {
        AnchorBound(s, t);
      }
    }
  }

  /** The branches not reached yet are intact, also while table t is held. */
  lemma IntactLater(v: View, zs: Zones, used: set<nat>, owner: map<nat, Slot>, t: Slot, i: nat, done: set<nat>,
                    v1: View, used1: set<nat>, refs1: map<Key, nat>, v2: View, refs2: map<Key, nat>)
    requires Owned(v, zs, used, owner) && IsSlot(t) && Table(t) && i < 512 && DoneBranches(v, zs, owner, t, i, done)
    requires Intact(v, zs, t, v1, used1, refs1)
    requires forall n :: n !in done ==> At(v2, n) == At(v1, n)
    requires forall k :: k in refs2 ==> k in refs1 || k == BlkKey(Ptr(v, zs, t))
    ensures Intact(v, zs, Child(t, i), v2, used1 - done, refs2)
    ensures Ptr(v, zs, t) !in done
  {
    forall s | IsSlot(s) && Under(s, Child(t, i)) && Ptr(v, zs, s) != 0
      ensures var b := Ptr(v, zs, s); b in used1 - done && At(v2, b) == At(v, b) && BlkKey(b) !in refs2
    {
      UnderAnchor(s, t, i);
      Distinct(v, zs, used, owner, s, t);
      assert owner[Ptr(v, zs, s)] == s;
    }
  }

  // ---------- whole files ----------

  /** b is a block of file ino: one with contents or one with block numbers. */
  ghost predicate FileBlk(v: View, zs: Zones, ino: nat, b: nat) {
    b != 0 && exists s :: IsSlot(s) && InoOf(s) == ino && Ptr(v, zs, s) == b
  }

  /** The blocks of a file are those its inode names, those named by the tables in zones 7 and 8,
      and those named by the tables which the latter names. */
  lemma FileBlkIs(v: View, zs: Zones, ino: nat, b: nat)
    requires ino in zs && |zs[ino]| == 9
    ensures FileBlk(v, zs, ino, b) <==>
      b != 0 && (b in zs[ino] || NamedIn(v, zs[ino][7], b) || NamedIn(v, zs[ino][8], b) || NamedUnder(v, zs[ino][8], b))
  {
    hide Entry, At, Ptr, IsSlot, InoOf, Table;
    if FileBlk(v, zs, ino, b) {
      var s :| IsSlot(s) && InoOf(s) == ino && Ptr(v, zs, s) == b;
      FileSlotIs(v, zs, s, b);
    }
    forall z | 0 <= z < 9 && b != 0 && zs[ino][z] == b
      ensures FileBlk(v, zs, ino, b)
    {
      ZoneIs(v, zs, ino, z);
    }
    forall z, i | 7 <= z < 9 && 0 <= i < 512 && b != 0 && zs[ino][z] != 0 && Entry(At(v, zs[ino][z]), i) == b
      ensures FileBlk(v, zs, ino, b)
    {
      ZoneIs(v, zs, ino, z);
      WordIs(v, zs, Root(ino, z), i);
    }
    if b != 0 && NamedUnder(v, zs[ino][8], b) {
      var i :| 0 <= i < 512 && NamedIn(v, Entry(At(v, zs[ino][8]), i), b);
      var j :| 0 <= j < 512 && Entry(At(v, Entry(At(v, zs[ino][8]), i)), j) == b;
      ZoneIs(v, zs, ino, 8);
      WordIs(v, zs, Root(ino, 8), i);
      WordIs(v, zs, Child(Root(ino, 8), i), j);
    }
  }

  lemma ZoneIs(v: View, zs: Zones, ino: nat, z: nat)
    requires ino in zs && |zs[ino]| == 9 && z < 9
    ensures var s := Root(ino, z);
      IsSlot(s) && InoOf(s) == ino && Ptr(v, zs, s) == zs[ino][z] && (z >= 7 ==> Table(s))
  {
  }

  lemma WordIs(v: View, zs: Zones, p: Slot, i: nat)
    requires IsSlot(p) && Table(p) && i < 512
    ensures var s := Child(p, i);
      && IsSlot(s) && InoOf(s) == InoOf(p) && (p.Root? && p.z == 8 ==> Table(s))
      && Ptr(v, zs, s) == if Ptr(v, zs, p) == 0 then 0 else Entry(At(v, Ptr(v, zs, p)), i)
  {
  }

  lemma FileSlotIs(v: View, zs: Zones, s: Slot, b: nat)
    requires IsSlot(s) && b != 0 && Ptr(v, zs, s) == b
    ensures InoOf(s) in zs && |zs[InoOf(s)]| == 9
    ensures var z := zs[InoOf(s)]; b in z || NamedIn(v, z[7], b) || NamedIn(v, z[8], b) || NamedUnder(v, z[8], b)
  {
    hide Entry, At;
    if s.Child? {
      assert b == Entry(At(v, Ptr(v, zs, s.parent)), s.idx) && NamedIn(v, Ptr(v, zs, s.parent), b);
      if s.parent.Child? {
        var top := s.parent.parent;
        assert top.Root? && top.z == 8 && Ptr(v, zs, s.parent) == Entry(At(v, Ptr(v, zs, top)), s.parent.idx);
        assert InoOf(s) == InoOf(s.parent) == top.ino && Ptr(v, zs, top) != 0;
      }
    }
  }

  /** Some word of table t is b. */
  predicate NamedIn(v: View, t: nat, b: nat) {
    t != 0 && exists i :: 0 <= i < 512 && Entry(At(v, t), i) == b
  }

  /** Some word of a table that table t names is b. */
  predicate NamedUnder(v: View, t: nat, b: nat) {
    t != 0 && exists i :: 0 <= i < 512 && NamedIn(v, Entry(At(v, t), i), b)
  }

  /** Every slot of file ino is empty; the other files are as they were. */
  ghost predicate Cleared(v: View, zs: Zones, v': View, zs': Zones, ino: nat) {
    && (forall s :: IsSlot(s) ==> Ptr(v', zs', s) == if InoOf(s) == ino then 0 else Ptr(v, zs, s))
    && (forall s :: IsData(s) && InoOf(s) != ino && Ptr(v, zs, s) != 0 ==> At(v', Ptr(v, zs, s)) == At(v, Ptr(v, zs, s)))
  }

  /** File ino kept its blocks, and a zone that came into use is one of them. */
  ghost predicate FileGrown(v: View, zs: Zones, used: set<nat>, v': View, zs': Zones, used': set<nat>, ino: nat) {
    && (forall b :: FileBlk(v, zs, ino, b) ==> FileBlk(v', zs', ino, b))
    && (forall b :: b in used' && b !in used ==> FileBlk(v', zs', ino, b))
  }

  lemma GrownIs(v: View, zs: Zones, used: set<nat>, v': View, zs': Zones, used': set<nat>, ino: nat, b: nat)
    requires FileGrown(v, zs, used, v', zs', used', ino)
    ensures FileBlk(v, zs, ino, b) || (b in used' && b !in used) ==> FileBlk(v', zs', ino, b)
  {
    hide FileBlk;
  }

  lemma GrownNot(v: View, zs: Zones, used: set<nat>, ino: nat)
    ensures FileGrown(v, zs, used, v, zs, used, ino)
  {
  }

  lemma GrownTwice(v: View, zs: Zones, u: set<nat>, v': View, zs': Zones, u': set<nat>, v'': View, zs'': Zones,
                   u'': set<nat>, ino: nat)
    requires FileGrown(v, zs, u, v', zs', u', ino) && FileGrown(v', zs', u', v'', zs'', u'', ino)
    ensures FileGrown(v, zs, u, v'', zs'', u'', ino)
  {
    hide FileBlk;
  }

  /** A place of the file that was empty names block b, which alone came into use; or nothing changed. */
  lemma GrownMoved(v: View, zs: Zones, used: set<nat>, v': View, zs': Zones, used': set<nat>, t: Slot, b: nat)
    requires IsSlot(t) && Moved(v, zs, v', zs', t, b) && (Ptr(v, zs, t) == 0 || b == Ptr(v, zs, t))
    requires used' == used || (b != 0 && used' == used + {b})
    ensures FileGrown(v, zs, used, v', zs', used', InoOf(t))
  {
    var ino := InoOf(t);
    forall c | FileBlk(v, zs, ino, c)
      ensures FileBlk(v', zs', ino, c)
    {
      var s :| IsSlot(s) && InoOf(s) == ino && Ptr(v, zs, s) == c;
      assert Ptr(v', zs', s) == c;
    }
    if b != 0 {
      assert Ptr(v', zs', t) == b && FileBlk(v', zs', ino, b);
    }
  }

  /** Changing what is in blocks with contents moves nothing. */
  lemma GrownStored(v: View, zs: Zones, used: set<nat>, v': View, ino: nat)
    requires forall s :: IsSlot(s) ==> Ptr(v', zs, s) == Ptr(v, zs, s)
    ensures FileGrown(v, zs, used, v', zs, used, ino)
  {
    forall c | FileBlk(v, zs, ino, c)
      ensures FileBlk(v', zs, ino, c)
    {
      var s :| IsSlot(s) && InoOf(s) == ino && Ptr(v, zs, s) == c;
      assert Ptr(v', zs, s) == c;
    }
  }

  predicate DirectBelow(s: Slot, ino: nat, i: nat) {
    s.Root? && s.ino == ino && s.z < i && s.z < 7
  }

  /** The first i direct blocks of file ino were given back; they are d. */
  ghost predicate DirectCleared(v: View, zs: Zones, owner: map<nat, Slot>, v': View, zs': Zones, ino: nat, i: nat,
                                d: set<nat>) {
    && (forall s :: IsSlot(s) ==> Ptr(v', zs', s) == if DirectBelow(s, ino, i) then 0 else Ptr(v, zs, s))
    && (forall s :: IsData(s) && !DirectBelow(s, ino, i) && Ptr(v, zs, s) != 0 ==> At(v', Ptr(v, zs, s)) == At(v, Ptr(v, zs, s)))
    && (forall s :: IsSlot(s) && DirectBelow(s, ino, i) && Ptr(v, zs, s) != 0 ==> Ptr(v, zs, s) in d)
    && (forall b :: b in d ==> b in owner && IsSlot(owner[b]) && DirectBelow(owner[b], ino, i) && Ptr(v, zs, owner[b]) == b != 0)
  }

  lemma DirectNone(v: View, zs: Zones, owner: map<nat, Slot>, ino: nat)
    ensures DirectCleared(v, zs, owner, v, zs, ino, 0, {})
  {
  }

  lemma DirectNext(v: View, zs: Zones, used: set<nat>, owner: map<nat, Slot>, v': View, zs': Zones, v'': View,
                   zs'': Zones, ino: nat, i: nat, d: set<nat>)
    requires Owned(v, zs, used, owner) && DirectCleared(v, zs, owner, v', zs', ino, i, d) && i < 7
    requires Released(v', zs', v'', zs'', Root(ino, i))
    ensures var b := Ptr(v, zs, Root(ino, i));
      Ptr(v', zs', Root(ino, i)) == b && DirectCleared(v, zs, owner, v'', zs'', ino, i + 1, if b == 0 then d else d + {b})
  {
    var b := Ptr(v, zs, Root(ino, i));
    forall s | IsSlot(s)
      ensures DirectBelow(s, ino, i + 1) <==> DirectBelow(s, ino, i) || s == Root(ino, i)
    {
    }
    assert b != 0 ==> owner[b] == Root(ino, i);
  }

  /** i_zone[7] and i_zone[8] of ino set to 0. */
  function Detached(zs: Zones, ino: nat): Zones
    requires ino in zs && |zs[ino]| == 9
  {
    zs[ino := ZoneSet(ZoneSet(zs[ino], 7, 0), 8, 0)]
  }

  lemma DetachedOnly(zs: Zones, ino: nat)
    requires ino in zs && |zs[ino]| == 9
    ensures ino in Detached(zs, ino) && Detached(zs, ino) == zs[ino := Detached(zs, ino)[ino]]
  {
  }

  predicate InTables(s: Slot, ino: nat) {
    Under(s, Root(ino, 7)) || Under(s, Root(ino, 8))
  }

  lemma {:induction false} DetachedPtr(v: View, zs: Zones, ino: nat, s: Slot)
    requires ino in zs && |zs[ino]| == 9 && IsSlot(s)
    ensures Ptr(v, Detached(zs, ino), s) == if InTables(s, ino) then 0 else Ptr(v, zs, s)
  {
    if s.Child? {
      DetachedPtr(v, zs, ino, s.parent);
    }
  }

  lemma DetachedOwned(v: View, zs: Zones, used: set<nat>, owner: map<nat, Slot>, ino: nat)
    requires ino in zs && |zs[ino]| == 9 && Owned(v, zs, used, owner)
    ensures Owned(v, Detached(zs, ino), used, owner)
    ensures Ptr(v, Detached(zs, ino), Root(ino, 7)) == 0 && Ptr(v, Detached(zs, ino), Root(ino, 8)) == 0
    ensures forall s :: IsSlot(s) ==> Ptr(v, Detached(zs, ino), s) == if InTables(s, ino) then 0 else Ptr(v, zs, s)
  {
    forall s | IsSlot(s)
      ensures Ptr(v, Detached(zs, ino), s) == if InTables(s, ino) then 0 else Ptr(v, zs, s)
    {
      DetachedPtr(v, zs, ino, s);
    }
  }

  /** Nobody holds a block of file ino. */
  ghost predicate Unheld(v: View, zs: Zones, ino: nat, refs: map<Key, nat>) {
    forall s :: IsSlot(s) && InoOf(s) == ino && Ptr(v, zs, s) != 0 ==> BlkKey(Ptr(v, zs, s)) !in refs
  }

  lemma IntactNow(v: View, zs: Zones, used: set<nat>, owner: map<nat, Slot>, ino: nat, z: nat, refs: map<Key, nat>)
    requires Owned(v, zs, used, owner) && Unheld(v, zs, ino, refs)
    ensures Intact(v, zs, Root(ino, z), v, used, refs)
  {
    forall s | IsSlot(s) && Under(s, Root(ino, z)) && Ptr(v, zs, s) != 0
      ensures var b := Ptr(v, zs, s); b in used && BlkKey(b) !in refs
    {
      UnderDeeper(s, Root(ino, z));
    }
  }

  /** While the direct blocks are given back, those left are still held by nobody. */
  lemma UnheldAt(v: View, zs: Zones, owner: map<nat, Slot>, v': View, zs': Zones, ino: nat, i: nat, d: set<nat>,
                 refs: map<Key, nat>)
    requires Unheld(v, zs, ino, refs) && DirectCleared(v, zs, owner, v', zs', ino, i, d) && i < 7
    ensures Ptr(v', zs', Root(ino, i)) != 0 ==> BlkKey(Ptr(v', zs', Root(ino, i))) !in refs
  {
    assert InoOf(Root(ino, i)) == ino;
  }

  lemma UnheldLater(v: View, zs: Zones, owner: map<nat, Slot>, v': View, zs': Zones, ino: nat, d: set<nat>,
                    refs: map<Key, nat>)
    requires Unheld(v, zs, ino, refs) && DirectCleared(v, zs, owner, v', zs', ino, 7, d)
    ensures Unheld(v', zs', ino, refs)
  {
  }

  /** Freeing one branch leaves another branch at the same depth intact. */
  lemma IntactBeside(v: View, zs: Zones, used: set<nat>, owner: map<nat, Slot>, t: Slot, t': Slot, freed: set<nat>,
                     refs: map<Key, nat>, v': View)
    requires Owned(v, zs, used, owner) && Intact(v, zs, t', v, used, refs) && Branch(v, zs, owner, t, freed)
    requires Depth(t) == Depth(t') && t != t' && forall n :: n !in freed ==> At(v', n) == At(v, n)
    ensures Intact(v, zs, t', v', used - freed, refs)
  {
    forall s | IsSlot(s) && Under(s, t') && Ptr(v, zs, s) != 0
      ensures Ptr(v, zs, s) !in freed
    {
      if Ptr(v, zs, s) in freed {
        assert owner[Ptr(v, zs, s)] == s;
        BranchesApart(s, t, t');
      }
    }
  }

  /** Every slot of a file is a direct zone or hangs below zone 7 or 8. */
  lemma {:induction false} SlotsOfFile(s: Slot)
    requires IsSlot(s)
    ensures DirectBelow(s, InoOf(s), 7) != InTables(s, InoOf(s))
  {
    if s.Child? {
      SlotsOfFile(s.parent);
    }
  }

  lemma InTablesOf(s: Slot, ino: nat)
    requires InTables(s, ino)
    ensures InoOf(s) == ino
  {
    if Under(s, Root(ino, 7)) {
      UnderDeeper(s, Root(ino, 7));
    } else {
      UnderDeeper(s, Root(ino, 8));
    }
  }

  /** The three groups of blocks that clear_iblks frees are the blocks of the file. */
  lemma AllFreed(v: View, zs: Zones, used: set<nat>, owner: map<nat, Slot>, v': View, zs': Zones, ino: nat,
                 d: set<nat>, f7: set<nat>, f8: set<nat>)
    requires Owned(v, zs, used, owner) && DirectCleared(v, zs, owner, v', zs', ino, 7, d)
    requires Branch(v', zs', owner, Root(ino, 7), f7) && Branch(v', zs', owner, Root(ino, 8), f8)
    ensures forall b :: b in d + f7 + f8 <==> FileBlk(v, zs, ino, b)
  {
    forall b | b in d + f7 + f8
      ensures FileBlk(v, zs, ino, b)
    {
      var s := owner[b];
      if b !in d {
        InTablesOf(s, ino);
        SlotsOfFile(s);
      }
      assert IsSlot(s) && InoOf(s) == ino && Ptr(v, zs, s) == b;
    }
    forall b | FileBlk(v, zs, ino, b)
      ensures b in d + f7 + f8
    {
      var s :| IsSlot(s) && InoOf(s) == ino && Ptr(v, zs, s) == b;
      SlotsOfFile(s);
    }
  }

  lemma AllCleared(v: View, zs: Zones, owner: map<nat, Slot>, v1: View, zs1: Zones, ino: nat, d: set<nat>, v2: View)
    requires DirectCleared(v, zs, owner, v1, zs1, ino, 7, d) && ino in zs1 && |zs1[ino]| == 9
    requires StillThere(v1, Detached(zs1, ino), v2, Detached(zs1, ino))
    ensures Cleared(v, zs, v2, Detached(zs1, ino), ino)
  {
    forall s | IsSlot(s)
      ensures Ptr(v2, Detached(zs1, ino), s) == if InoOf(s) == ino then 0 else Ptr(v, zs, s)
      ensures Ptr(v1, Detached(zs1, ino), s) == if InoOf(s) == ino then 0 else Ptr(v, zs, s)
    {
      DetachedPtr(v1, zs1, ino, s);
      SlotsOfFile(s);
      if InTables(s, ino) {
        InTablesOf(s, ino);
      }
    }
  }

  lemma DirectZero(v: View, zs: Zones, owner: map<nat, Slot>, v': View, zs': Zones, ino: nat, d: set<nat>)
    requires DirectCleared(v, zs, owner, v', zs', ino, 7, d) && ino in zs' && |zs'[ino]| == 9
    ensures forall z :: 0 <= z < 7 ==> zs'[ino][z] == 0
  {
    forall z | 0 <= z < 7
      ensures zs'[ino][z] == 0
    {
      assert Ptr(v', zs', Root(ino, z)) == 0;
    }
  }

  // ---------- the other files ----------

  /** Every file but ino has the same blocks with the same contents. */
  ghost predicate OthersKept(v: View, zs: Zones, v': View, zs': Zones, ino: nat) {
    forall s :: IsData(s) && InoOf(s) != ino ==> SlotKept(v, zs, v', zs', s)
  }

  predicate SlotKept(v: View, zs: Zones, v': View, zs': Zones, s: Slot)
    requires IsSlot(s)
  {
    Ptr(v', zs', s) == Ptr(v, zs, s) && (Ptr(v, zs, s) != 0 ==> At(v', Ptr(v, zs, s)) == At(v, Ptr(v, zs, s)))
  }

  lemma OthersTwice(v: View, zs: Zones, v': View, zs': Zones, v'': View, zs'': Zones, ino: nat)
    requires OthersKept(v, zs, v', zs', ino) && OthersKept(v', zs', v'', zs'', ino)
    ensures OthersKept(v, zs, v'', zs'', ino)
  {
    hide Ptr;
    forall s | IsData(s) && InoOf(s) != ino
      ensures SlotKept(v, zs, v'', zs'', s)
    {
      assert SlotKept(v, zs, v', zs', s) && SlotKept(v', zs', v'', zs'', s);
    }
  }

  lemma OthersSelf(v: View, zs: Zones, ino: nat)
    ensures OthersKept(v, zs, v, zs, ino)
  {
  }

  lemma StillOthers(v: View, zs: Zones, v': View, zs': Zones, ino: nat)
    requires StillThere(v, zs, v', zs')
    ensures OthersKept(v, zs, v', zs', ino)
  {
    hide Ptr;
  }

  // ---------- inodes that come and go ----------

  /** Writing a block before the data zones changes no file. */
  lemma LowWrite(v: View, zs: Zones, used: set<nat>, owner: map<nat, Slot>, first: nat, n: nat, d: Block)
    requires Owned(v, zs, used, owner) && 0 < n < first && forall b :: b in used ==> first <= b
    ensures StillThere(v, zs, v[BlkKey(n) := d], zs) && Owned(v[BlkKey(n) := d], zs, used, owner)
  {
    var v' := v[BlkKey(n) := d];
    forall s | IsSlot(s)
      ensures Ptr(v', zs, s) == Ptr(v, zs, s)
    {
      PtrFrame(v, v', zs, s);
    }
  }

  /** An inode that goes out of use takes its slots with it. */
  lemma {:induction false} WithoutPtr(v: View, zs: Zones, ino: nat, s: Slot)
    requires IsSlot(s)
    ensures Ptr(v, zs - {ino}, s) == if InoOf(s) == ino then 0 else Ptr(v, zs, s)
  {
    if s.Child? {
      WithoutPtr(v, zs, ino, s.parent);
    }
  }

  lemma WithoutOwned(v: View, zs: Zones, used: set<nat>, owner: map<nat, Slot>, ino: nat)
    requires Owned(v, zs, used, owner)
    ensures Owned(v, zs - {ino}, used, owner)
    ensures forall s :: IsSlot(s) ==> Ptr(v, zs - {ino}, s) == if InoOf(s) == ino then 0 else Ptr(v, zs, s)
  {
    forall s | IsSlot(s)
      ensures Ptr(v, zs - {ino}, s) == if InoOf(s) == ino then 0 else Ptr(v, zs, s)
    {
      WithoutPtr(v, zs, ino, s);
    }
  }

  /** An inode that comes into use with the zones of another one breaks ownership, unless there
      are none. */
  lemma EnteredTwice(v: View, zs: Zones, used: set<nat>, owner: map<nat, Slot>, ino: nat, k: nat)
    requires ino !in zs && k in zs && |zs[k]| == 9
    requires zs[k] != seq(9, _ => 0)
    ensures !Owned(v, zs[ino := zs[k]], used, owner)
  {
    var zs' := zs[ino := zs[k]];
    var z :| 0 <= z < 9 && zs[k][z] != 0;
    assert Ptr(v, zs', Root(ino, z)) == Ptr(v, zs', Root(k, z)) == zs[k][z];
  }

  /** Zones of an inode whose blocks were given back, when they come back: they are not in use. */
  lemma ComeBack(v: View, zs: Zones, used: set<nat>, owner: map<nat, Slot>, ino: nat, zone: seq<nat>)
    requires |zone| == 9 && exists z :: 0 <= z < 9 && zone[z] != 0 && zone[z] !in used
    ensures !Owned(v, zs[ino := zone], used, owner)
  {
    var z :| 0 <= z < 9 && zone[z] != 0 && zone[z] !in used;
    assert Ptr(v, zs[ino := zone], Root(ino, z)) == zone[z];
  }
}
