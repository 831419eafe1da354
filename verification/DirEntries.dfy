/** Directory entries in a block, and how names are compared (fs/fs.h:114-119, lib/string.c,
    fs/namei.c). A C string is modelled without its closing NUL. */
module DirEntries {
  import opened Basics
  import opened Blocks

  const NAME_LEN := 14
  const ENTRIES_PER_BLK := 64
  const SLASH: Byte := 0x2F

  type CStr = s: seq<Byte> | forall k :: 0 <= k < |s| ==> s[k] != 0

  /** The first n characters. */
  function Prefix(s: CStr, n: nat): (p: CStr)
    requires n <= |s|
    ensures p == s[..n]
  {
    s[..n]
  }

  /** A slot of a directory: an inode number and a name; no name means the slot is not in use. */
  datatype DirEnt = DirEnt(ino: nat, name: CStr)

  // ---------- decoding ----------

  /** Byte k of the name in slot j of a block. */
  function NameByte(b: Block, j: nat, k: nat): Byte
    requires j < ENTRIES_PER_BLK && k < NAME_LEN
  {
    b[16 * j + 2 + k]
  }

  /** The length of the name in slot j, as far as there are bytes for one. */
  function StrLenFrom(b: Block, j: nat, k: nat): (n: nat)
    requires j < ENTRIES_PER_BLK && k <= NAME_LEN
    ensures k <= n <= NAME_LEN
    ensures n < NAME_LEN ==> NameByte(b, j, n) == 0
    ensures forall i :: k <= i < n ==> NameByte(b, j, i) != 0
    decreases NAME_LEN - k
  {
    if k == NAME_LEN || NameByte(b, j, k) == 0 then k else StrLenFrom(b, j, k + 1)
  }

  function NameOf(b: Block, j: nat): (s: CStr)
    requires j < ENTRIES_PER_BLK
    ensures |s| == StrLenFrom(b, j, 0)
  {
    var n := StrLenFrom(b, j, 0);
    var name := b[16 * j + 2..16 * j + 2 + n];
    assert forall k :: 0 <= k < n ==> name[k] == NameByte(b, j, k);
    name
  }

  function EntAt(b: Block, j: nat): (e: DirEnt)
    requires j < ENTRIES_PER_BLK
    ensures |e.name| <= NAME_LEN
  {
    DirEnt(b[16 * j] as int + 256 * (b[16 * j + 1] as int), NameOf(b, j))
  }

  /** Slot j is bytes 16 * j to 16 * j + 15 of the block: a number of two bytes, low byte first, and
      the name up to the first NUL, 14 characters at most. */
  lemma EntIs(b: Block, j: nat)
    requires j < ENTRIES_PER_BLK
    ensures var x := EntAt(b, j);
      && x.ino % 256 == b[16 * j] && x.ino / 256 == b[16 * j + 1]
      && |x.name| <= 14 && (|x.name| < 14 ==> b[16 * j + 2 + |x.name|] == 0)
      && forall k :: 0 <= k < |x.name| ==> x.name[k] == b[16 * j + 2 + k] != 0
  {
  }

  /** Every name in the block is closed by a NUL. */
  predicate Terminated(b: Block) {
    forall j :: 0 <= j < ENTRIES_PER_BLK ==> |EntAt(b, j).name| < NAME_LEN
  }

  function Ents(b: Block): (s: seq<DirEnt>)
    ensures |s| == ENTRIES_PER_BLK
  {
    seq(ENTRIES_PER_BLK, j requires 0 <= j < ENTRIES_PER_BLK => EntAt(b, j))
  }

  // ---------- strncmp ----------

  function Ch(s: seq<Byte>, k: nat): Byte {
    if k < |s| then s[k] else 0
  }

  /** The loop of strncmp for len > 0 (lib/string.c:45-47). */
  function Cmp(a: seq<Byte>, b: seq<Byte>, len: nat): int
    requires len > 0
  {
    if len == 1 || Ch(a, 0) != Ch(b, 0) || Ch(a, 0) == 0 then Ch(a, 0) - Ch(b, 0)
    else Cmp(a[1..], b[1..], len - 1)
  }

  function Strncmp(a: seq<Byte>, b: seq<Byte>, len: nat): int {
    if len == 0 then -1 else Cmp(a, b, len)
  }

  /** Strings compare as equal if they agree on the first len characters, NULs included. */
  lemma {:induction false} CmpZero(a: CStr, b: CStr, len: nat)
    requires len > 0
    ensures Cmp(a, b, len) == 0 <==> forall k :: 0 <= k < len ==> Ch(a, k) == Ch(b, k)
    ensures Strncmp(a, b, len) == Cmp(a, b, len) && Strncmp(a, b, 0) == -1
  {
    assert Ch(a, 0) == 0 <==> a == [];
    assert Ch(b, 0) == 0 <==> b == [];
    if len > 1 && Ch(a, 0) == Ch(b, 0) && Ch(a, 0) != 0 {
      CmpZero(a[1..], b[1..], len - 1);
      forall k | 0 <= k < len - 1
        ensures Ch(a[1..], k) == Ch(a, k + 1) && Ch(b[1..], k) == Ch(b, k + 1)
      {
      }
      forall k | 1 <= k < len
        ensures Ch(a, k) == Ch(a[1..], k - 1) && Ch(b, k) == Ch(b[1..], k - 1)
      {
      }
    }
  }

  lemma Ends(a: CStr, s: CStr, len: nat)
    requires |a| <= len && forall k :: 0 <= k < len ==> Ch(a, k) == Ch(s, k)
    ensures |a| < len ==> |s| <= |a|
    ensures |s| >= |a|
  {
    assert Ch(a, |a|) == 0 && Ch(s, |s|) == 0;
    assert |a| < len ==> Ch(s, |a|) == Ch(a, |a|);
  }

  /** A name no longer than the length compared, against a string that ends within it. */
  lemma MatchWhole(a: CStr, s: CStr, len: nat)
    requires |a| <= len && |s| <= len && len > 0
    ensures Strncmp(a, s, len) == 0 <==> a == s
  {
    CmpZero(a, s, len);
    if forall k :: 0 <= k < len ==> Ch(a, k) == Ch(s, k) {
      Ends(a, s, len);
      Ends(s, a, len);
      assert forall k :: 0 <= k < |a| ==> a[k] == Ch(a, k) == Ch(s, k) == s[k];
    }
  }

  /** Against a string that goes on after n characters with something the name does not have
      there: they match exactly if the first n are the name and no more are compared. */
  lemma MatchPart(a: CStr, s: CStr, n: nat, len: nat)
    requires |a| <= len && n <= len && 0 < n < |s| && Ch(a, n) != s[n]
    ensures Strncmp(a, s, len) == 0 <==> a == s[..n] && len == n
  {
    CmpZero(a, s, len);
    if len == n {
      if forall k :: 0 <= k < len ==> Ch(a, k) == Ch(s, k) {
        Ends(a, s, len);
        assert forall k :: 0 <= k < |a| ==> a[k] == Ch(a, k) == Ch(s, k) == s[k];
      }
    } else {
      assert Ch(s, n) == s[n];
    }
  }

  // ---------- looking a name up ----------

  /** name_len after the first n slots: it grows to the longest name met (fs/namei.c:45). */
  function Longest(dir: seq<DirEnt>, n: nat, len: nat): nat
    requires n <= |dir|
  {
    if n == 0 then len else Max(Longest(dir, n - 1, len), |dir[n - 1].name|)
  }

  /** Slot e is taken for the name asked for. */
  predicate Hit(dir: seq<DirEnt>, e: nat, s: CStr, len: nat)
    requires e < |dir|
  {
    dir[e].name != [] && Strncmp(dir[e].name, s, Longest(dir, e + 1, len)) == 0
  }

  predicate FirstHit(dir: seq<DirEnt>, e: nat, s: CStr, len: nat) {
    e < |dir| && Hit(dir, e, s, len) && forall k :: 0 <= k < e ==> !Hit(dir, k, s, len)
  }

  lemma {:induction false} LongestBound(dir: seq<DirEnt>, n: nat, len: nat)
    requires n <= |dir|
    ensures Longest(dir, n, len) >= len
    ensures forall k :: 0 <= k < n ==> |dir[k].name| <= Longest(dir, n, len)
    ensures Longest(dir, n, len) == len <==> forall k :: 0 <= k < n ==> |dir[k].name| <= len
  {
    if n > 0 {
      LongestBound(dir, n - 1, len);
    }
  }

  /** Looked up as a last component, which a NUL closes, a slot is taken exactly if it has the
      name, however long other names are. */
  lemma HitLast(dir: seq<DirEnt>, e: nat, s: CStr)
    requires e < |dir| && s != []
    ensures Hit(dir, e, s, |s|) <==> dir[e].name == s
  {
    LongestBound(dir, e + 1, |s|);
    MatchWhole(dir[e].name, s, Longest(dir, e + 1, |s|));
  }

  /** Looked up as another component, which a slash closes, it is taken exactly if it has the
      name and no slot before it has a longer one. */
  lemma HitInner(dir: seq<DirEnt>, e: nat, s: CStr, n: nat)
    requires e < |dir| && 0 < n < |s| && s[n] == SLASH && SLASH !in dir[e].name
    ensures Hit(dir, e, s, n) <==> dir[e].name == s[..n] && forall k :: 0 <= k < e ==> |dir[k].name| <= n
  {
    var len := Longest(dir, e + 1, n);
    LongestBound(dir, e + 1, n);
    assert Ch(dir[e].name, n) != SLASH by {
      if n < |dir[e].name| {
        assert dir[e].name[n] in dir[e].name;
      }
    }
    MatchPart(dir[e].name, s, n, len);
    if dir[e].name == s[..n] {
      assert |dir[e].name| == n;
    }
  }

  /** So an inner component is found exactly if the first slot with its name comes before any
      slot with a longer one; a component that is there can be missed. */
  lemma FoundInner(dir: seq<DirEnt>, s: CStr, n: nat)
    requires 0 < n < |s| && s[n] == SLASH && forall e :: 0 <= e < |dir| ==> SLASH !in dir[e].name
    ensures (exists e :: 0 <= e < |dir| && Hit(dir, e, s, n)) <==>
      exists e :: 0 <= e < |dir| && dir[e].name == s[..n] && NoneLonger(dir, e, n)
  {
    forall e | 0 <= e < |dir|
      ensures Hit(dir, e, s, n) <==> dir[e].name == s[..n] && NoneLonger(dir, e, n)
    {
      HitInner(dir, e, s, n);
    }
  }

  predicate NoneLonger(dir: seq<DirEnt>, e: nat, n: nat)
    requires e <= |dir|
  {
    forall k :: 0 <= k < e ==> |dir[k].name| <= n
  }

  /** A directory a in a directory after one named bb is not found on the way to a/x. */
  lemma InnerMissed()
    ensures var dir := [DirEnt(3, [0x62, 0x62]), DirEnt(4, [0x61])];
      dir[1].name == [0x61] && forall e :: 0 <= e < |dir| ==> !Hit(dir, e, [0x61, SLASH, 0x78], 1)
  {
    var dir := [DirEnt(3, [0x62, 0x62]), DirEnt(4, [0x61])];
    HitInner(dir, 0, [0x61, SLASH, 0x78], 1);
    HitInner(dir, 1, [0x61, SLASH, 0x78], 1);
  }

  // ---------- the directory as a map ----------

  /** No name is in two slots. */
  ghost predicate UniqueNames(dir: seq<DirEnt>) {
    forall d, e :: 0 <= d < e < |dir| && dir[d].name != [] ==> dir[d].name != dir[e].name
  }

  predicate Has(dir: seq<DirEnt>, name: CStr) {
    exists e :: 0 <= e < |dir| && dir[e].name == name
  }

  /** What a directory is for: names to inode numbers. */
  ghost predicate Maps(dir: seq<DirEnt>, name: CStr, ino: nat) {
    exists e :: 0 <= e < |dir| && dir[e] == DirEnt(ino, name)
  }

  /** Putting an absent name into an unused slot adds one mapping and changes no other. */
  lemma AddedMaps(dir: seq<DirEnt>, e: nat, s: CStr, ino: nat)
    requires e < |dir| && dir[e].name == [] && s != [] && UniqueNames(dir) && !Has(dir, s)
    ensures var dir' := dir[e := DirEnt(ino, s)];
      && UniqueNames(dir') && Maps(dir', s, ino)
      && (forall t: CStr, n :: t != [] && t != s ==> (Maps(dir', t, n) <==> Maps(dir, t, n)))
      && (forall n :: Maps(dir', s, n) ==> n == ino)
  {
    var dir' := dir[e := DirEnt(ino, s)];
    assert dir'[e] == DirEnt(ino, s);
    forall t: CStr, n | t != [] && t != s
      ensures Maps(dir', t, n) <==> Maps(dir, t, n)
    {
      if Maps(dir, t, n) {
        var k :| 0 <= k < |dir| && dir[k] == DirEnt(n, t);
        assert dir'[k] == DirEnt(n, t);
      }
    }
  }

  /** Clearing the slot of a name takes away that mapping and no other. */
  lemma RemovedMaps(dir: seq<DirEnt>, e: nat)
    requires e < |dir| && dir[e].name != [] && UniqueNames(dir)
    ensures var dir' := dir[e := DirEnt(0, [])];
      && UniqueNames(dir') && !Has(dir', dir[e].name)
      && forall t: CStr, n :: t != [] && t != dir[e].name ==> (Maps(dir', t, n) <==> Maps(dir, t, n))
  {
    var dir' := dir[e := DirEnt(0, [])];
    forall t: CStr, n | t != [] && t != dir[e].name
      ensures Maps(dir', t, n) <==> Maps(dir, t, n)
    {
      if Maps(dir, t, n) {
        var k :| 0 <= k < |dir| && dir[k] == DirEnt(n, t);
        assert dir'[k] == DirEnt(n, t);
      }
    }
  }

  // ---------- writing a slot ----------

  /** strncpy of len characters of s into slot j, and a NUL after them (fs/namei.c:99-100). */
  function PutName(b: Block, j: nat, s: CStr, len: nat): Block
    requires j < ENTRIES_PER_BLK && 0 < len <= |s| && 16 * j + 2 + len < BLK_SIZE
  {
    (b[..16 * j + 2] + s[..len] + b[16 * j + 2 + len..])[16 * j + 2 + len := 0]
  }

  lemma PutNameBytes(b: Block, j: nat, s: CStr, len: nat, k: nat)
    requires j < ENTRIES_PER_BLK && 0 < len <= |s| && 16 * j + 2 + len < BLK_SIZE && k < BLK_SIZE
    ensures PutName(b, j, s, len)[k] ==
      if 16 * j + 2 <= k < 16 * j + 2 + len then s[k - (16 * j + 2)] else if k == 16 * j + 2 + len then 0 else b[k]
  {
  }

  lemma SameName(b: Block, b': Block, i: nat)
    requires i < ENTRIES_PER_BLK && forall k :: 16 * i + 2 <= k < 16 * i + 16 ==> b'[k] == b[k]
    ensures NameOf(b', i) == NameOf(b, i)
  {
    var n := StrLenFrom(b, i, 0);
    assert forall k :: 0 <= k < NAME_LEN ==> NameByte(b', i, k) == NameByte(b, i, k);
    if n < NAME_LEN {
      StrLenIs(b', i, n);
    }
    assert b'[16 * i + 2..16 * i + 2 + n] == b[16 * i + 2..16 * i + 2 + n];
  }

  lemma SameEnt(b: Block, b': Block, i: nat)
    requires i < ENTRIES_PER_BLK && forall k :: 16 * i <= k < 16 * i + 16 ==> b'[k] == b[k]
    ensures EntAt(b', i) == EntAt(b, i)
  {
    SameName(b, b', i);
  }

  /** For a name of up to 13 characters, slot j gets it and no other slot changes. */
  lemma PutNameEnt(b: Block, j: nat, s: CStr, len: nat, i: nat)
    requires j < ENTRIES_PER_BLK && 0 < len <= |s| && len < NAME_LEN && i < ENTRIES_PER_BLK
    ensures EntAt(PutName(b, j, s, len), i) == if i == j then DirEnt(EntAt(b, j).ino, Prefix(s, len)) else EntAt(b, i)
  {
    var b' := PutName(b, j, s, len);
    forall k | 0 <= k < BLK_SIZE
      ensures b'[k] == if 16 * j + 2 <= k < 16 * j + 2 + len then s[k - (16 * j + 2)] else if k == 16 * j + 2 + len then 0 else b[k]
    {
      PutNameBytes(b, j, s, len, k);
    }
    hide PutName;
    if i == j {
      StrLenIs(b', j, len);
      assert b'[16 * j + 2..16 * j + 2 + len] == s[..len];
    } else {
      SameEnt(b, b', i);
    }
  }

  lemma StrLenIs(b: Block, j: nat, n: nat)
    requires j < ENTRIES_PER_BLK && n < NAME_LEN && NameByte(b, j, n) == 0 && forall k :: 0 <= k < n ==>
      NameByte(b, j, k) != 0
    ensures StrLenFrom(b, j, 0) == n
  {
  }

  /** The inode number of slot j is written (fs/namei.c:280, 626, 690). */
  function PutIno(b: Block, j: nat, n: nat): Block
    requires j < ENTRIES_PER_BLK && n < 0x1_0000
  {
    b[16 * j := n % 256][16 * j + 1 := n / 256]
  }

  lemma PutInoEnt(b: Block, j: nat, n: nat, i: nat)
    requires j < ENTRIES_PER_BLK && n < 0x1_0000 && i < ENTRIES_PER_BLK
    ensures EntAt(PutIno(b, j, n), i) == if i == j then DirEnt(n, EntAt(b, j).name) else EntAt(b, i)
  {
    var b' := PutIno(b, j, n);
    if i == j {
      SameName(b, b', i);
    } else {
      SameEnt(b, b', i);
    }
  }

  /** The name of slot j is filled with zeros (fs/namei.c:691). */
  function ClearName(b: Block, j: nat): Block
    requires j < ENTRIES_PER_BLK
  {
    b[..16 * j + 2] + seq(NAME_LEN, _ => 0) + b[16 * j + 16..]
  }

  lemma ClearNameEnt(b: Block, j: nat, i: nat)
    requires j < ENTRIES_PER_BLK && i < ENTRIES_PER_BLK
    ensures EntAt(ClearName(b, j), i) == if i == j then DirEnt(EntAt(b, j).ino, []) else EntAt(b, i)
  {
    var b' := ClearName(b, j);
    if i == j {
      StrLenIs(b', j, 0);
    } else {
      SameEnt(b, b', i);
    }
  }

  /** A name of 14 characters overruns its slot: it is not closed there, and the NUL falls into
      the inode number of the next slot. */
  lemma FourteenSpills(b: Block, j: nat, s: CStr)
    requires j + 1 < ENTRIES_PER_BLK && |s| >= NAME_LEN
    ensures EntAt(PutName(b, j, s, NAME_LEN), j + 1).ino % 256 == 0
    ensures !Terminated(PutName(b, j, s, NAME_LEN))
  {
    hide PutName;
    PutNameBytes(b, j, s, NAME_LEN, 16 * j + 16);
    PutNameBytes(b, j, s, NAME_LEN, 16 * j + 17);
    FourteenOpen(b, j, s);
  }

  /** The same write as memory sees it, for a slot whose name begins at address a. */
  function NameInMemory(mem: seq<Byte>, a: nat, s: CStr, len: nat): seq<Byte>
    requires 0 < len <= |s| && a + len < |mem|
  {
    (mem[..a] + s[..len] + mem[a + len..])[a + len := 0]
  }

  /** For the last slot of a block the NUL falls behind the block, into the data of the buffer
      that lies there (fs/buffer.c:159-167). */
  lemma LastSlotSpills(mem: seq<Byte>, a: nat, s: CStr)
    requires |s| >= NAME_LEN && a + BLK_SIZE < |mem|
    ensures var last := a + 16 * (ENTRIES_PER_BLK - 1) + 2;
      && last + NAME_LEN == a + BLK_SIZE
      && NameInMemory(mem, last, s, NAME_LEN)[a + BLK_SIZE] == 0
      && (forall k :: 0 <= k < NAME_LEN ==> NameInMemory(mem, last, s, NAME_LEN)[last + k] == s[k] != 0)
      && forall k :: 0 <= k < |mem| && (k < last || k > a + BLK_SIZE) ==> NameInMemory(mem, last, s, NAME_LEN)[k] == mem[k]
  {
  }

  /** In all other slots, and for shorter names in all slots, it is the write to the block. */
  lemma NameInBlock(mem: seq<Byte>, a: nat, j: nat, s: CStr, len: nat)
    requires j < ENTRIES_PER_BLK && 0 < len <= |s| && 16 * j + 2 + len < BLK_SIZE && a + BLK_SIZE < |mem|
    ensures NameInMemory(mem, a + 16 * j + 2, s, len)[a..a + BLK_SIZE] == PutName(mem[a..a + BLK_SIZE], j, s, len)
    ensures NameInMemory(mem, a + 16 * j + 2, s, len)[a + BLK_SIZE..] == mem[a + BLK_SIZE..]
  {
    var m, b := NameInMemory(mem, a + 16 * j + 2, s, len), mem[a..a + BLK_SIZE];
    forall k | 0 <= k < BLK_SIZE
      ensures m[a..a + BLK_SIZE][k] == PutName(b, j, s, len)[k]
    {
      PutNameBytes(b, j, s, len, k);
    }
  }

  lemma FourteenOpen(b: Block, j: nat, s: CStr)
    requires j + 1 < ENTRIES_PER_BLK && |s| >= NAME_LEN
    ensures |EntAt(PutName(b, j, s, NAME_LEN), j).name| == NAME_LEN
  {
    hide PutName;
    var b' := PutName(b, j, s, NAME_LEN);
    forall k | 0 <= k < NAME_LEN
      ensures NameByte(b', j, k) != 0
    {
      PutNameBytes(b, j, s, NAME_LEN, 16 * j + 2 + k);
    }
  }

  // ---------- directories of several blocks ----------

  /** Going on with the slots of another block. */
  lemma {:induction false} LongestOn(dir: seq<DirEnt>, more: seq<DirEnt>, n: nat, len: nat)
    requires n <= |more|
    ensures Longest(dir + more, |dir| + n, len) == Longest(more, n, Longest(dir, |dir|, len))
  {
    if n == 0 {
      LongestSame(dir, dir + more, |dir|, len);
    } else {
      LongestOn(dir, more, n - 1, len);
    }
  }

  lemma {:induction false} LongestSame(dir: seq<DirEnt>, dir': seq<DirEnt>, n: nat, len: nat)
    requires n <= |dir| && dir <= dir'
    ensures Longest(dir', n, len) == Longest(dir, n, len)
  {
    if n > 0 {
      LongestSame(dir, dir', n - 1, len);
    }
  }

  lemma HitOn(dir: seq<DirEnt>, more: seq<DirEnt>, e: nat, s: CStr, len: nat)
    requires e < |dir| + |more|
    ensures Hit(dir + more, e, s, len) <==>
      if e < |dir| then Hit(dir, e, s, len) else Hit(more, e - |dir|, s, Longest(dir, |dir|, len))
  {
    hide Strncmp;
    if e < |dir| {
      LongestSame(dir, dir + more, e + 1, len);
    } else {
      LongestOn(dir, more, e - |dir| + 1, len);
    }
  }

  lemma NoHitOn(dir: seq<DirEnt>, more: seq<DirEnt>, n: nat, s: CStr, len: nat)
    requires n <= |more|
    requires forall e :: 0 <= e < |dir| ==> !Hit(dir, e, s, len)
    requires forall e :: 0 <= e < n ==> !Hit(more, e, s, Longest(dir, |dir|, len))
    ensures forall e :: 0 <= e < |dir| + n ==> !Hit(dir + more, e, s, len)
  {
    hide Hit;
    forall e | 0 <= e < |dir| + n
      ensures !Hit(dir + more, e, s, len)
    {
      HitOn(dir, more, e, s, len);
    }
  }

  lemma FirstHitOn(dir: seq<DirEnt>, more: seq<DirEnt>, j: nat, s: CStr, len: nat)
    requires FirstHit(more, j, s, Longest(dir, |dir|, len))
    requires forall e :: 0 <= e < |dir| ==> !Hit(dir, e, s, len)
    ensures FirstHit(dir + more, |dir| + j, s, len)
  {
    hide Hit;
    NoHitOn(dir, more, j, s, len);
    HitOn(dir, more, |dir| + j, s, len);
  }

  // ---------- the scans of a block ----------

  /** The inner loop of find_entry (fs/namei.c:41-51), from a name_len of len. */
  method ScanBlk(b: Block, s: CStr, len: nat) returns (j: nat, len': nat)
    ensures j <= ENTRIES_PER_BLK
    ensures j < ENTRIES_PER_BLK ==> FirstHit(Ents(b), j, s, len)
    ensures j == ENTRIES_PER_BLK ==> len' == Longest(Ents(b), j, len) && forall e :: 0 <= e < j ==> !Hit(Ents(b), e, s, len)
  {
    hide Strncmp, EntAt;
    j, len' := 0, len;
    while j < ENTRIES_PER_BLK
      invariant 0 <= j <= ENTRIES_PER_BLK && len' == Longest(Ents(b), j, len)
      invariant forall e :: 0 <= e < j ==> !Hit(Ents(b), e, s, len)
    {
      var de := EntAt(b, j);
      assert de == Ents(b)[j];
      if de.name != [] {
        var srcLen := |de.name|;
        len' := if srcLen > len' then srcLen else len';
        if Strncmp(de.name, s, len') == 0 {
          return;
        }
      }
      j := j + 1;
    }
  }

  predicate Unused(e: DirEnt) {
    e.ino == 0 && e.name == []
  }

  /** The inner loop of add_entry (fs/namei.c:93-105) up to the first slot that is not in use. */
  method ScanUnused(b: Block) returns (j: nat)
    ensures j <= ENTRIES_PER_BLK && (forall k :: 0 <= k < j ==> !Unused(EntAt(b, k)))
    ensures j < ENTRIES_PER_BLK ==> Unused(EntAt(b, j))
  {
    hide EntAt;
    j := 0;
    while j < ENTRIES_PER_BLK
      invariant 0 <= j <= ENTRIES_PER_BLK && forall k :: 0 <= k < j ==> !Unused(EntAt(b, k))
    {
      var de := EntAt(b, j);
      if de.ino == 0 && de.name == [] {
        return;
      }
      j := j + 1;
    }
  }

  lemma ZeroUnused(j: nat)
    requires j < ENTRIES_PER_BLK
    ensures Unused(EntAt(ZeroBlock(), j))
  {
  }
}
