/** Directories as Directory shows them to be, sequences of slots that find_entry and add_entry
    search and fill, and the link counts of the inodes that they name (fs/namei.c:218-287,
    565-701). A link count is one byte. What creates, links and unlinks files is in FileNames. */
module HardLinks {
  import opened Blocks
  import opened DirEntries
  import opened Directory

  /** The first slot from slot k on with a name, or the length if there is none. */
  function IndexOf(dir: seq<DirEnt>, name: CStr, k: nat): (e: nat)
    requires k <= |dir|
    ensures k <= e <= |dir| && (e < |dir| ==> dir[e].name == name)
    ensures forall i :: k <= i < e ==> dir[i].name != name
    decreases |dir| - k
  {
    if k == |dir| || dir[k].name == name then k else IndexOf(dir, name, k + 1)
  }

  /** The first slot from slot k on that is not in use, or the length if there is none. */
  function UnusedFrom(dir: seq<DirEnt>, k: nat): (e: nat)
    requires k <= |dir|
    ensures k <= e <= |dir| && (e < |dir| ==> Unused(dir[e]))
    ensures forall i :: k <= i < e ==> !Unused(dir[i])
    decreases |dir| - k
  {
    if k == |dir| || Unused(dir[k]) then k else UnusedFrom(dir, k + 1)
  }

  /** find_entry finds this slot. */
  lemma FindIs(dir: seq<DirEnt>, s: CStr)
    requires s != [] && forall e :: 0 <= e < |dir| ==> |dir[e].name| < NAME_LEN
    ensures NoHits(dir, s, Cut(|s|)) <==> IndexOf(dir, Stored(s), 0) == |dir|
    ensures forall e: nat :: FirstHit(dir, e, s, Cut(|s|)) ==> e == IndexOf(dir, Stored(s), 0)
  {
    FindsByName(dir, s);
    forall e | 0 <= e < |dir|
      ensures Hit(dir, e, s, Cut(|s|)) <==> dir[e].name == Stored(s)
    {
      HitStored(dir, e, s);
    }
  }

  /** The directory after add_entry and the writing of the inode number. */
  function Put(dir: seq<DirEnt>, x: DirEnt): seq<DirEnt> {
    var e := UnusedFrom(dir, 0);
    if e < |dir| then dir[e := x] else dir + Ents(ZeroBlock())[0 := x]
  }

  /** add_entry and the writing of the inode number make this of it. */
  lemma PutIs(dir: seq<DirEnt>, grew: bool, e: nat, name: CStr, num: nat)
    requires var d := Grown(dir, grew); e < |d| && Unused(d[e]) && NoneUnused(d, 0, e)
    requires grew ==> NoneUnused(dir, 0, |dir|)
    ensures Grown(dir, grew)[e := DirEnt(0, name)][e := DirEnt(num, name)] == Put(dir, DirEnt(num, name))
  {
    hide EntAt;
    ZeroUnused(0);
    var d := Grown(dir, grew);
    if grew {
      assert d[|dir|] == EntAt(ZeroBlock(), 0);
      assert e == |dir| && UnusedFrom(dir, 0) == |dir|;
      assert (dir + Ents(ZeroBlock()))[|dir| := DirEnt(num, name)] == dir + Ents(ZeroBlock())[0 := DirEnt(num, name)];
    }
  }

  /** The slots that name inode i, as pairs of directory and slot. */
  ghost function Refs(dir: map<nat, seq<DirEnt>>, i: nat): set<(nat, nat)> {
    set d, e | d in dir && 0 <= e < |dir[d]| && Names(dir[d][e], i) :: (d, e)
  }

  predicate Names(x: DirEnt, i: nat) {
    x.name != [] && x.ino == i
  }

  /** Adding a mapping adds one reference to its inode and none to another. */
  lemma PutRefs(dir: map<nat, seq<DirEnt>>, d: nat, x: DirEnt, i: nat)
    requires d in dir && x.name != []
    ensures |Refs(dir[d := Put(dir[d], x)], i)| == |Refs(dir, i)| + if i == x.ino then 1 else 0
  {
    hide Put, UnusedFrom, Refs;
    var e, dir' := UnusedFrom(dir[d], 0), dir[d := Put(dir[d], x)];
    forall p: (nat, nat) | true
      ensures p in Refs(dir', i) <==> p in Refs(dir, i) || (i == x.ino && p == (d, e))
    {
      PutRef(dir, d, x, i, p.0, p.1);
      assert p == (p.0, p.1);
    }
    PutRef(dir, d, x, i, d, e);
    assert Refs(dir', i) == if i == x.ino then Refs(dir, i) + {(d, e)} else Refs(dir, i);
  }

  lemma PutRef(dir: map<nat, seq<DirEnt>>, d: nat, x: DirEnt, i: nat, c: nat, k: nat)
    requires d in dir && x.name != []
    ensures (c, k) in Refs(dir[d := Put(dir[d], x)], i) <==> (c, k) in Refs(dir, i) || (i == x.ino && (c, k) == (d, UnusedFrom(dir[d], 0)))
    ensures (d, UnusedFrom(dir[d], 0)) !in Refs(dir, i)
  {
    hide Put, EntAt;
    PutAt(dir[d], x, k);
  }

  lemma EmptyEnts()
    ensures forall k :: 0 <= k < ENTRIES_PER_BLK ==> Unused(Ents(ZeroBlock())[k])
  {
    hide EntAt;
    forall k | 0 <= k < ENTRIES_PER_BLK
      ensures Unused(Ents(ZeroBlock())[k])
    {
      ZeroUnused(k);
    }
  }

  lemma PutAt(dir: seq<DirEnt>, x: DirEnt, k: nat)
    ensures var e, dir' := UnusedFrom(dir, 0), Put(dir, x);
      && e < |dir'| && |dir| <= |dir'|
      && (k < |dir'| ==> if k == e then dir'[k] == x else if k < |dir| then dir'[k] == dir[k] else Unused(dir'[k]))
  {
    EmptyEnts();
  }

  /** Clearing a slot takes one reference from its inode and none from another. */
  lemma ClearRefs(dir: map<nat, seq<DirEnt>>, d: nat, e: nat, i: nat)
    requires d in dir && e < |dir[d]| && dir[d][e].name != []
    ensures |Refs(dir, i)| == |Refs(dir[d := dir[d][e := DirEnt(0, [])]], i)| + if i == dir[d][e].ino then 1 else 0
  {
    hide Refs;
    var dir' := dir[d := dir[d][e := DirEnt(0, [])]];
    forall p: (nat, nat) | true
      ensures p in Refs(dir, i) <==> p in Refs(dir', i) || (i == dir[d][e].ino && p == (d, e))
    {
      ClearRef(dir, d, e, i, p.0, p.1);
      assert p == (p.0, p.1);
    }
    ClearRef(dir, d, e, i, d, e);
    assert Refs(dir, i) == if i == dir[d][e].ino then Refs(dir', i) + {(d, e)} else Refs(dir', i);
  }

  lemma ClearRef(dir: map<nat, seq<DirEnt>>, d: nat, e: nat, i: nat, c: nat, k: nat)
    requires d in dir && e < |dir[d]| && dir[d][e].name != []
    ensures var dir' := dir[d := dir[d][e := DirEnt(0, [])]];
      && ((c, k) in Refs(dir, i) <==> (c, k) in Refs(dir', i) || (i == dir[d][e].ino && (c, k) == (d, e)))
      && (d, e) !in Refs(dir', i)
  {
  }

  /** Names stay unique and short when an absent one is put in. */
  lemma PutUnique(dir: seq<DirEnt>, x: DirEnt)
    requires UniqueNames(dir) && Short(dir) && x.name != [] && |x.name| < NAME_LEN && !Has(dir, x.name)
    ensures UniqueNames(Put(dir, x)) && Short(Put(dir, x))
  {
    hide Put, UnusedFrom;
    var dir', e := Put(dir, x), UnusedFrom(dir, 0);
    forall k: nat | k < |dir'|
      ensures if k == e then dir'[k] == x else if k < |dir| then dir'[k] == dir[k] else Unused(dir'[k])
    {
      PutAt(dir, x, k);
    }
    assert forall k :: 0 <= k < |dir| ==> dir[k].name != x.name;
  }

  ghost predicate Short(dir: seq<DirEnt>) {
    forall e :: 0 <= e < |dir| ==> |dir[e].name| < NAME_LEN
  }

  ghost predicate DirsOk(dir: map<nat, seq<DirEnt>>) {
    forall d :: d in dir ==> UniqueNames(dir[d]) && Short(dir[d])
  }

  /** All slots in use name inodes with a link count, or directories. */
  ghost predicate Known(dir: map<nat, seq<DirEnt>>, nlinks: map<nat, nat>) {
    forall d: nat, e: nat :: d in dir && e < |dir[d]| && dir[d][e].name != [] ==> dir[d][e].ino in nlinks || dir[d][e].ino in dir
  }

  lemma PutKnown(dir: map<nat, seq<DirEnt>>, d: nat, x: DirEnt, nlinks: map<nat, nat>, nlinks': map<nat, nat>)
    requires Known(dir, nlinks) && d in dir && x.ino in nlinks' && nlinks.Keys <= nlinks'.Keys
    ensures Known(dir[d := Put(dir[d], x)], nlinks')
  {
    hide Put, UnusedFrom;
    var dir': map<nat, seq<DirEnt>> := dir[d := Put(dir[d], x)];
    forall c: nat, e: nat | c in dir' && e < |dir'[c]| && dir'[c][e].name != []
      ensures dir'[c][e].ino in nlinks' || dir'[c][e].ino in dir'
    {
      PutAt(dir[d], x, e);
    }
  }

  lemma ClearKnown(dir: map<nat, seq<DirEnt>>, d: nat, e: nat, nlinks: map<nat, nat>, nlinks': map<nat, nat>)
    requires Known(dir, nlinks) && d in dir && e < |dir[d]| && nlinks.Keys <= nlinks'.Keys
    ensures Known(dir[d := dir[d][e := DirEnt(0, [])]], nlinks')
    ensures dir[d][e].name != [] ==> dir[d][e].ino in nlinks || dir[d][e].ino in dir
  {
  }

  lemma MoreKnown(dir: map<nat, seq<DirEnt>>, nlinks: map<nat, nat>, nlinks': map<nat, nat>)
    requires Known(dir, nlinks) && nlinks.Keys <= nlinks'.Keys
    ensures Known(dir, nlinks')
  {
  }

  /** Each regular inode is named by as many slots as its link count says. */
  ghost predicate Conserved(dir: map<nat, seq<DirEnt>>, nlinks: map<nat, nat>) {
    forall i :: i in nlinks ==> nlinks[i] == |Refs(dir, i)|
  }

  /** What holds of directories and link counts together. */
  ghost predicate Tidy(dir: map<nat, seq<DirEnt>>, nlinks: map<nat, nat>) {
    && DirsOk(dir) && Conserved(dir, nlinks) && Known(dir, nlinks)
    && forall i :: i in nlinks ==> nlinks[i] < 0x100 && i !in dir
  }

  predicate OneLess(nlinks: map<nat, nat>, i: nat, nlinks': map<nat, nat>) {
    i in nlinks && nlinks[i] > 0 && nlinks' == nlinks[i := nlinks[i] - 1]
  }

  lemma PutKeeps(dir: map<nat, seq<DirEnt>>, nlinks: map<nat, nat>, d: nat, x: DirEnt)
    requires DirsOk(dir) && Conserved(dir, nlinks) && d in dir && x.name != [] && |x.name| < NAME_LEN
    requires !Has(dir[d], x.name)
    requires x.ino in nlinks
    ensures var dir' := dir[d := Put(dir[d], x)];
      && DirsOk(dir') && Conserved(dir', nlinks[x.ino := nlinks[x.ino] + 1])
  {
    hide Put, UnusedFrom, UniqueNames, Short, Refs;
    var dir' := dir[d := Put(dir[d], x)];
    PutUnique(dir[d], x);
    forall i | i in nlinks
      ensures |Refs(dir', i)| == |Refs(dir, i)| + if i == x.ino then 1 else 0
    {
      PutRefs(dir, d, x, i);
    }
  }

  /** Counting one more in a byte is right exactly if it does not wrap. */
  lemma LinkCount(dir: map<nat, seq<DirEnt>>, nlinks: map<nat, nat>, i: nat)
    requires i in nlinks && nlinks[i] < 0x100 && Conserved(dir, nlinks[i := nlinks[i] + 1])
    ensures Conserved(dir, nlinks[i := (nlinks[i] + 1) % 0x100]) <==> nlinks[i] < 0xFF
  {
    hide Refs;
    var n1, n2 := nlinks[i := nlinks[i] + 1], nlinks[i := (nlinks[i] + 1) % 0x100];
    assert n1[i] == |Refs(dir, i)|;
    if nlinks[i] < 0xFF {
      assert n2 == n1;
    }
  }

  lemma ClearKeeps(dir: map<nat, seq<DirEnt>>, nlinks: map<nat, nat>, d: nat, e: nat)
    requires DirsOk(dir) && Conserved(dir, nlinks) && d in dir && e < |dir[d]| && dir[d][e].name != []
    requires dir[d][e].ino in nlinks
    ensures nlinks[dir[d][e].ino] > 0
    ensures var dir' := dir[d := dir[d][e := DirEnt(0, [])]];
      DirsOk(dir') && Conserved(dir', nlinks[dir[d][e].ino := nlinks[dir[d][e].ino] - 1])
  {
    var i0, dir' := dir[d][e].ino, dir[d := dir[d][e := DirEnt(0, [])]];
    assert (d, e) in Refs(dir, i0);
    forall i | i in nlinks
      ensures |Refs(dir, i)| == |Refs(dir', i)| + if i == i0 then 1 else 0
    {
      ClearRefs(dir, d, e, i);
    }
    RemovedMaps(dir[d], e);
  }

  // ---------- a count that wraps ----------

  /** A directory in which 255 names stand for inode 2. */
  function ManyNames(): map<nat, seq<DirEnt>> {
    map[1 := seq(255, k requires 0 <= k < 255 => DirEnt(2, OneChar(k + 1)))]
  }

  function OneChar(c: nat): (s: CStr)
    requires 0 < c < 256
    ensures |s| == 1 && s[0] == c
  {
    [c]
  }

  /** Slots 0 .. n - 1 of directory 1. */
  ghost function Places(n: nat): set<(nat, nat)> {
    set k | 0 <= k < n :: (1, k)
  }

  lemma {:induction false} PlacesSize(n: nat)
    ensures |Places(n)| == n
  {
    if n > 0 {
      PlacesSize(n - 1);
      assert Places(n) == Places(n - 1) + {(1, n - 1)};
    }
  }

  lemma ManyNamesRefs()
    ensures |Refs(ManyNames(), 2)| == 255
  {
    PlacesSize(255);
    var dir := ManyNames();
    forall p: (nat, nat) | true
      ensures p in Refs(dir, 2) <==> p in Places(255)
    {
      assert p == (p.0, p.1);
    }
    assert Refs(dir, 2) == Places(255);
  }

  /** All is in order with 255 links; one more makes the count 0 while 256 names are there. */
  lemma LinkWraps()
    ensures Tidy(ManyNames(), map[2 := 255])
    ensures var x := DirEnt(2, [1, 1]); !Has(ManyNames()[1], x.name) && !Conserved(ManyNames()[1 := Put(ManyNames()[1], x)], map[2 := (255 + 1) % 0x100])
  {
    ManyNamesRefs();
    ManyNamesTidy();
    hide ManyNames, Tidy, Put, Refs;
    PutRefs(ManyNames(), 1, DirEnt(2, [1, 1]), 2);
  }

  lemma ManyNamesTidy()
    ensures Tidy(ManyNames(), map[2 := 255]) && 1 in ManyNames() && !Has(ManyNames()[1], [1, 1])
  {
    ManyNamesRefs();
    hide Refs;
  }
}
