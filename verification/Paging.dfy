/** Page frames and page tables (kernel/page/page_map.c): a next-fit frame allocator with a
    count per frame, and the one page directory with its tables, which live in frames too. */
module Paging {
  import opened Basics

  const LOW_MEM := 0x400000  // memory below is not handed out
  const PAGE := 4096
  const WORDS := 1024        // words in a page
  const KERNEL_DIRS := 16    // directory entries of task 0, which map all memory to itself (boot/loader.asm:393-428)

  /** A word of the directory or of a table: bit 0 says present, the upper 20 bits are an address. */
  predicate Present(w: nat) {
    w % 2 == 1
  }

  function Address(w: nat): nat {
    w / PAGE * PAGE
  }

  function Or7(w: nat): nat {
    w / 8 * 8 + 7
  }

  /** The directory, the words of the pages that can hold tables, by address, and the counts of
      the frames from LOW_MEM on. */
  datatype Mem = Mem(dir: seq<nat>, page: map<nat, seq<nat>>, cnt: seq<nat>)

  /** A place that can refer to a page: a directory entry, or an entry of a table. */
  datatype Ref = Dir(d: nat) | Page(d: nat, j: nat)

  predicate IsRef(r: Ref) {
    r.d < WORDS && (r.Page? ==> r.j < WORDS)
  }

  predicate Shaped(m: Mem) {
    && |m.dir| == WORDS
    && (forall a :: a in m.page ==> |m.page[a]| == WORDS)
    && (forall d :: 0 <= d < WORDS && Present(m.dir[d]) ==> Address(m.dir[d]) in m.page)
    && (forall f {:trigger FrameAt(f)} :: 0 <= f < |m.cnt| ==> FrameAt(f) in m.page)
  }

  /** The address of frame f. */
  function FrameAt(f: nat): nat {
    LOW_MEM + PAGE * f
  }

  /** The frame at address a. */
  function FrameNr(a: nat): nat
    requires a >= LOW_MEM
  {
    (a - LOW_MEM) / PAGE
  }

  predicate Managed(m: Mem, a: nat) {
    a >= LOW_MEM && FrameNr(a) < |m.cnt| && a == FrameAt(FrameNr(a))
  }

  function Table(m: Mem, d: nat): seq<nat>
    requires Shaped(m) && d < WORDS && Present(m.dir[d])
  {
    m.page[Address(m.dir[d])]
  }

  /** The address of the page a place refers to, if any. */
  function Target(m: Mem, r: Ref): Option<nat>
    requires Shaped(m) && IsRef(r)
  {
    if !Present(m.dir[r.d]) then None
    else if r.Dir? then Some(Address(m.dir[r.d]))
    else if Present(Table(m, r.d)[r.j]) then Some(Address(Table(m, r.d)[r.j]))
    else None
  }

  /** What the hardware makes of virtual page v: the address of its page, or a page fault
      (section 4.3 of the Intel SDM, volume 3A). */
  function Translate(m: Mem, v: nat): Option<nat>
    requires Shaped(m) && v < WORDS * WORDS
  {
    Target(m, Page(v / WORDS, v % WORDS))
  }

  /** Bits 22 to 31 of an address choose the directory entry and bits 12 to 21 the entry of its table;
      in both bit 0 says that there is one and the upper 20 bits are an address. */
  lemma TranslateIs(m: Mem, v: nat)
    requires Shaped(m) && v < 1024 * 1024
    ensures m.dir[v / 1024] % 2 == 0 ==> Translate(m, v) == None
    ensures m.dir[v / 1024] % 2 == 1 ==>
      var t := m.dir[v / 1024] / 4096 * 4096;
      && t in m.page && |m.page[t]| == 1024
      && var w := m.page[t][v % 1024];
        Translate(m, v) == if w % 2 == 0 then None else Some(w / 4096 * 4096)
  {
  }

  /** The places whose frames are counted: all but the entries of task 0's tables. */
  predicate Counted(r: Ref, a: nat) {
    a >= LOW_MEM && (r.Dir? || r.d >= KERNEL_DIRS)
  }

  /** Tables are distinct, no frame is referred to from two counted places, and every frame
      referred to from a counted place is counted. owner says from where. */
  ghost predicate Sound(m: Mem, owner: map<nat, Ref>) {
    && Shaped(m)
    && (forall f :: 0 <= f < |m.cnt| ==> m.cnt[f] <= 1)
    && (forall r :: IsRef(r) && Target(m, r).Some? ==> RefOk(m, owner, r, Target(m, r).value))
    && (forall a :: a in owner ==> IsRef(owner[a]) && Target(m, owner[a]) == Some(a) && (owner[a].Dir? || Counted(owner[a], a)))
  }

  /** The page at a, referred to from r. */
  ghost predicate RefOk(m: Mem, owner: map<nat, Ref>, r: Ref, a: nat) {
    && (Counted(r, a) ==> Managed(m, a) && m.cnt[FrameNr(a)] == 1)
    && (r.Dir? ==> a != 0)
    && (r.Dir? || Counted(r, a) ==> a in owner && owner[a] == r)
  }

  // ---------- changing one place ----------

  /** The counts after free_page of address a. */
  function Lowered(cnt: seq<nat>, a: nat): seq<nat>
    requires a >= LOW_MEM ==> FrameNr(a) < |cnt| && cnt[FrameNr(a)] > 0
  {
    if a < LOW_MEM then cnt else cnt[FrameNr(a) := cnt[FrameNr(a)] - 1]
  }

  /** What the owners are once r refers to nothing. */
  ghost function Without(owner: map<nat, Ref>, r: Ref): map<nat, Ref> {
    map b | b in owner && owner[b] != r :: owner[b]
  }

  /** r no longer refers to anything, and the count of what it referred to, a, is one lower. */
  ghost predicate Dropped(m: Mem, owner: map<nat, Ref>, r: Ref, a: nat, m': Mem, owner': map<nat, Ref>)
    requires Shaped(m) && Shaped(m') && IsRef(r)
  {
    && (a >= LOW_MEM ==> FrameNr(a) < |m.cnt| && m.cnt[FrameNr(a)] > 0)
    && m'.cnt == Lowered(m.cnt, a)
    && (forall s :: IsRef(s) ==> Target(m', s) == if s == r then None else Target(m, s))
    && owner' == Without(owner, r)
  }

  lemma DroppedSound(m: Mem, owner: map<nat, Ref>, r: Ref, a: nat, m': Mem, owner': map<nat, Ref>)
    requires Sound(m, owner) && Shaped(m') && IsRef(r) && r.d >= KERNEL_DIRS && Target(m, r) == Some(a)
    requires Dropped(m, owner, r, a, m', owner')
    ensures Sound(m', owner')
  {
    hide Target, Shaped, FrameNr, FrameAt;
    assert RefOk(m, owner, r, a);
    forall s | IsRef(s) && Target(m', s).Some?
      ensures RefOk(m', owner', s, Target(m', s).value)
    {
      assert RefOk(m, owner, s, Target(m, s).value);
      StillManaged(m, m', Target(m, s).value, a);
    }
  }

  lemma StillManaged(m: Mem, m': Mem, b: nat, a: nat)
    requires |m'.cnt| == |m.cnt|
    ensures Managed(m', b) == Managed(m, b)
    ensures Managed(m, b) && Managed(m, a) && FrameNr(a) == FrameNr(b) ==> a == b
  {
  }

  /** Clearing an entry of a table changes no other place. */
  lemma ClearEntry(m: Mem, owner: map<nat, Ref>, d: nat, j: nat, s: Ref)
    requires Sound(m, owner) && d < WORDS && j < WORDS && Present(m.dir[d]) && IsRef(s)
    ensures var m' := WithEntry(m, d, j, 0);
      Shaped(m') && Target(m', s) == if s == Page(d, j) then None else Target(m, s)
  {
    assert RefOk(m, owner, Dir(d), Target(m, Dir(d)).value);
    if Present(m.dir[s.d]) {
      assert RefOk(m, owner, Dir(s.d), Target(m, Dir(s.d)).value);
    }
  }

  /** Clearing a directory entry whose table is empty changes no other place. */
  lemma ClearDir(m: Mem, owner: map<nat, Ref>, d: nat, s: Ref)
    requires Sound(m, owner) && d < WORDS && Present(m.dir[d]) && IsRef(s)
    requires forall j :: 0 <= j < WORDS ==> Target(m, Page(d, j)).None?
    ensures var m' := m.(dir := m.dir[d := 0]);
      Shaped(m') && Target(m', s) == if s == Dir(d) then None else Target(m, s)
  {
    if s.Page? && s.d == d {
      assert Target(m, Page(d, s.j)).None?;
    }
  }

  /** Taking a free frame and filling it with zeros changes no place: nothing refers to it. */
  lemma TakeFrame(m: Mem, owner: map<nat, Ref>, f: nat)
    requires Sound(m, owner) && f < |m.cnt| && m.cnt[f] == 0
    ensures FrameAt(f) !in owner
    ensures Sound(Taken(m, f), owner) && forall s :: IsRef(s) ==> Target(Taken(m, f), s) == Target(m, s)
  {
    var m' := Taken(m, f);
    assert FrameAt(f) in owner ==> RefOk(m, owner, owner[FrameAt(f)], FrameAt(f));
    forall s | IsRef(s)
      ensures Target(m', s) == Target(m, s)
      ensures Target(m', s).Some? ==> RefOk(m', owner, s, Target(m', s).value)
    {
      TakenTarget(m, owner, f, s);
    }
  }

  function Taken(m: Mem, f: nat): Mem
    requires f < |m.cnt|
  {
    m.(cnt := m.cnt[f := 1], page := m.page[FrameAt(f) := seq(WORDS, i => 0)])
  }

  lemma TakenTarget(m: Mem, owner: map<nat, Ref>, f: nat, s: Ref)
    requires Sound(m, owner) && f < |m.cnt| && m.cnt[f] == 0 && IsRef(s)
    ensures Shaped(Taken(m, f)) && Target(Taken(m, f), s) == Target(m, s)
    ensures Target(m, s).Some? ==> RefOk(Taken(m, f), owner, s, Target(m, s).value)
  {
    if Present(m.dir[s.d]) {
      assert RefOk(m, owner, Dir(s.d), Target(m, Dir(s.d)).value);
      if Target(m, s).Some? {
        assert RefOk(m, owner, s, Target(m, s).value);
      }
    }
  }

  lemma Or7Is(a: nat)
    ensures Present(Or7(a)) && Address(Or7(a)) == Address(a)
  {
    var p, q := a / PAGE, a % PAGE / 8;
    assert a / 8 == 512 * p + q && Or7(a) == PAGE * p + (8 * q + 7);
    assert 8 * q + 7 < PAGE && Or7(a) == 2 * (4 * (512 * p + q) + 3) + 1;
    Quotient(p, 8 * q + 7);
  }

  lemma Quotient(p: nat, r: nat)
    requires r < PAGE
    ensures (PAGE * p + r) / PAGE == p
  {
  }

  /** A taken frame of zeros can become the table of an absent directory entry. */
  lemma NewTable(m: Mem, owner: map<nat, Ref>, d: nat, f: nat)
    requires Sound(m, owner) && d < WORDS && !Present(m.dir[d]) && f < |m.cnt| && m.cnt[f] == 1 && FrameAt(f) !in owner
    requires forall j :: 0 <= j < WORDS ==> m.page[FrameAt(f)][j] == 0
    ensures var m' := m.(dir := m.dir[d := Or7(FrameAt(f))]);
      && Sound(m', owner[FrameAt(f) := Dir(d)])
      && forall s :: IsRef(s) ==> Target(m', s) == if s == Dir(d) then Some(FrameAt(f)) else Target(m, s)
  {
    var m', owner' := m.(dir := m.dir[d := Or7(FrameAt(f))]), owner[FrameAt(f) := Dir(d)];
    Or7Is(FrameAt(f));
    forall s | IsRef(s)
      ensures Target(m', s) == if s == Dir(d) then Some(FrameAt(f)) else Target(m, s)
    {
    }
    NewTableSound(m, owner, d, f, m');
  }

  lemma NewTableSound(m: Mem, owner: map<nat, Ref>, d: nat, f: nat, m': Mem)
    requires Sound(m, owner) && d < WORDS && f < |m.cnt| && m.cnt[f] == 1 && FrameAt(f) !in owner
    requires Target(m, Dir(d)).None?
    requires Shaped(m') && m'.cnt == m.cnt
    requires forall s :: IsRef(s) ==> Target(m', s) == if s == Dir(d) then Some(FrameAt(f)) else Target(m, s)
    ensures Sound(m', owner[FrameAt(f) := Dir(d)])
  {
    hide Target, Shaped;
    var owner' := owner[FrameAt(f) := Dir(d)];
    forall s | IsRef(s) && Target(m', s).Some?
      ensures RefOk(m', owner', s, Target(m', s).value)
    {
      if s == Dir(d) {
        FrameAtNr(f, 0);
      } else {
        assert RefOk(m, owner, s, Target(m, s).value);
      }
    }
  }

  function WithEntry(m: Mem, d: nat, j: nat, w: nat): Mem
    requires Shaped(m) && d < WORDS && j < WORDS && Present(m.dir[d])
  {
    m.(page := m.page[Address(m.dir[d]) := Table(m, d)[j := w]])
  }

  /** The owners after entry j of table d was made to refer to a. */
  ghost function Rehomed(owner: map<nat, Ref>, r: Ref, a: nat): map<nat, Ref> {
    if a >= LOW_MEM then Without(owner, r)[a := r] else Without(owner, r)
  }

  /** A frame that can be mapped: one below LOW_MEM, or one that is counted and not referred to yet. */
  ghost predicate Mappable(m: Mem, owner: map<nat, Ref>, a: nat) {
    a >= LOW_MEM ==> Managed(m, a) && m.cnt[FrameNr(a)] == 1 && a !in owner
  }

  lemma EntryTarget(m: Mem, owner: map<nat, Ref>, d: nat, j: nat, w: nat, s: Ref)
    requires Sound(m, owner) && d < WORDS && j < WORDS && Present(m.dir[d]) && Present(w) && IsRef(s)
    ensures var m' := WithEntry(m, d, j, w);
      Shaped(m') && Target(m', s) == if s == Page(d, j) then Some(Address(w)) else Target(m, s)
  {
    assert RefOk(m, owner, Dir(d), Target(m, Dir(d)).value);
    if Present(m.dir[s.d]) {
      assert RefOk(m, owner, Dir(s.d), Target(m, Dir(s.d)).value);
    }
  }

  /** Writing an entry of a table changes what that place refers to, and nothing else. */
  lemma SetEntry(m: Mem, owner: map<nat, Ref>, d: nat, j: nat, w: nat)
    requires Sound(m, owner) && KERNEL_DIRS <= d < WORDS && j < WORDS && Present(m.dir[d]) && Present(w)
    requires Mappable(m, owner, Address(w))
    ensures var m' := WithEntry(m, d, j, w);
      && Sound(m', Rehomed(owner, Page(d, j), Address(w)))
      && forall s :: IsRef(s) ==> Target(m', s) == if s == Page(d, j) then Some(Address(w)) else Target(m, s)
  {
    var m', owner' := WithEntry(m, d, j, w), Rehomed(owner, Page(d, j), Address(w));
    forall s | IsRef(s)
      ensures Shaped(m') && Target(m', s) == if s == Page(d, j) then Some(Address(w)) else Target(m, s)
    {
      EntryTarget(m, owner, d, j, w, s);
    }
    SetEntrySound(m, owner, Page(d, j), Address(w), m', owner');
  }

  lemma SetEntrySound(m: Mem, owner: map<nat, Ref>, r: Ref, a: nat, m': Mem, owner': map<nat, Ref>)
    requires Sound(m, owner) && IsRef(r) && r.Page? && r.d >= KERNEL_DIRS && Mappable(m, owner, a) && Shaped(m')
    requires m'.cnt == m.cnt
    requires owner' == Rehomed(owner, r, a)
    requires forall s :: IsRef(s) ==> Target(m', s) == if s == r then Some(a) else Target(m, s)
    ensures Sound(m', owner')
  {
    hide Target, Shaped, FrameNr, FrameAt;
    forall s | IsRef(s) && Target(m', s).Some?
      ensures RefOk(m', owner', s, Target(m', s).value)
    {
      assert s != r ==> RefOk(m, owner, s, Target(m, s).value);
    }
  }

  // ---------- tearing down ----------

  /** The places of the directory entries from lo on that were cleared when entry j of table d is next. */
  predicate Done(s: Ref, lo: nat, d: nat, j: nat) {
    lo <= s.d < d || (s.d == d && s.Page? && s.j < j)
  }

  /** The state in the middle of a teardown that started from m0. */
  ghost predicate Swept(m0: Mem, o0: map<nat, Ref>, m: Mem, o: map<nat, Ref>, lo: nat, d: nat, j: nat)
    requires Shaped(m0) && Shaped(m)
  {
    && (forall s :: IsRef(s) ==> Target(m, s) == if Done(s, lo, d, j) then None else Target(m0, s))
    && o == (map b | b in o0 && !Done(o0[b], lo, d, j) :: o0[b])
    && |m.cnt| == |m0.cnt|
    && (forall f :: 0 <= f < |m.cnt| ==> m.cnt[f] + (if Gone(o0, f, lo, d, j) then 1 else 0) == m0.cnt[f])
  }

  /** Frame f was referred to from a place that was cleared. */
  predicate Gone(o0: map<nat, Ref>, f: nat, lo: nat, d: nat, j: nat) {
    FrameAt(f) in o0 && Done(o0[FrameAt(f)], lo, d, j)
  }

  lemma SweptDrop(m0: Mem, o0: map<nat, Ref>, m: Mem, o: map<nat, Ref>, lo: nat, d: nat, j: nat,
      r: Ref, a: nat, m': Mem, o': map<nat, Ref>, d': nat, j': nat)
    requires Sound(m0, o0) && Sound(m, o) && Swept(m0, o0, m, o, lo, d, j) && KERNEL_DIRS <= lo <= d < WORDS
    requires j <= WORDS
    requires IsRef(r) && Target(m, r) == Some(a) && Shaped(m') && Dropped(m, o, r, a, m', o')
    requires if j < WORDS then r == Page(d, j) && d' == d && j' == j + 1 else r == Dir(d) && d' == d + 1 && j' == 0
    ensures Swept(m0, o0, m', o', lo, d', j')
  {
    hide Target, Shaped, FrameNr, FrameAt;
    assert forall s :: IsRef(s) ==> (Done(s, lo, d', j') <==> s == r || Done(s, lo, d, j));
    assert RefOk(m, o, r, a);
    forall f | 0 <= f < |m'.cnt|
      ensures m'.cnt[f] + (if Gone(o0, f, lo, d', j') then 1 else 0) == m0.cnt[f]
    {
      FrameAtNr(f, a);
    }
  }

  lemma FrameAtNr(f: nat, a: nat)
    ensures FrameAt(f) >= LOW_MEM && FrameNr(FrameAt(f)) == f
  {
  }

  lemma SweptSkip(m0: Mem, o0: map<nat, Ref>, m: Mem, o: map<nat, Ref>, lo: nat, d: nat, j: nat)
    requires Sound(m0, o0) && Shaped(m) && Swept(m0, o0, m, o, lo, d, j) && KERNEL_DIRS <= lo <= d < WORDS && j < WORDS
    requires Target(m, Page(d, j)).None?
    ensures Swept(m0, o0, m, o, lo, d, j + 1)
  {
    hide Target, Shaped, FrameNr, FrameAt;
    assert forall s :: IsRef(s) ==> (Done(s, lo, d, j + 1) <==> s == Page(d, j) || Done(s, lo, d, j));
  }

  lemma SweptAbsent(m0: Mem, o0: map<nat, Ref>, m: Mem, o: map<nat, Ref>, lo: nat, d: nat)
    requires Sound(m0, o0) && Shaped(m) && Swept(m0, o0, m, o, lo, d, 0) && KERNEL_DIRS <= lo <= d < WORDS
    requires !Present(m.dir[d])
    ensures Swept(m0, o0, m, o, lo, d + 1, 0)
  {
    assert forall s :: IsRef(s) && s.d == d ==> Target(m, s).None?;
    hide Target, Shaped, FrameNr, FrameAt;
    assert forall s :: IsRef(s) ==> (Done(s, lo, d + 1, 0) <==> s.d == d || Done(s, lo, d, 0));
  }

  lemma SweptNone(m0: Mem, o0: map<nat, Ref>, lo: nat)
    requires Sound(m0, o0)
    ensures Swept(m0, o0, m0, o0, lo, lo, 0)
  {
    assert o0 == map b | b in o0 && !Done(o0[b], lo, lo, 0) :: o0[b];
  }

  lemma SweptEntry(m0: Mem, o0: map<nat, Ref>, m: Mem, o: map<nat, Ref>, lo: nat, d: nat, j: nat, m': Mem,
                   o': map<nat, Ref>)
    requires Sound(m0, o0) && Sound(m, o) && Swept(m0, o0, m, o, lo, d, j) && KERNEL_DIRS <= lo <= d < WORDS
    requires j < WORDS && Shaped(m')
    requires if Target(m, Page(d, j)).Some? then Dropped(m, o, Page(d, j), Target(m, Page(d, j)).value, m', o') else m' == m && o' == o
    ensures Swept(m0, o0, m', o', lo, d, j + 1)
  {
    hide Swept, Target, Dropped;
    if Target(m, Page(d, j)).Some? {
      SweptDrop(m0, o0, m, o, lo, d, j, Page(d, j), Target(m, Page(d, j)).value, m', o', d, j + 1);
    } else {
      SweptSkip(m0, o0, m, o, lo, d, j);
    }
  }

  lemma SweptEmpty(m0: Mem, o0: map<nat, Ref>, m: Mem, o: map<nat, Ref>, lo: nat, d: nat)
    requires Shaped(m0) && Shaped(m) && Swept(m0, o0, m, o, lo, d, WORDS) && KERNEL_DIRS <= lo <= d < WORDS
    ensures forall j :: 0 <= j < WORDS ==> Target(m, Page(d, j)).None?
  {
    hide Target;
    forall j | 0 <= j < WORDS
      ensures Target(m, Page(d, j)).None?
    {
      assert IsRef(Page(d, j)) && Done(Page(d, j), lo, d, WORDS);
    }
  }

  lemma SoundShaped(m: Mem, o: map<nat, Ref>)
    requires Sound(m, o)
    ensures Shaped(m)
  {
  }

  lemma SizeOfDir(m: Mem)
    requires Shaped(m)
    ensures |m.dir| == WORDS
  {
  }

  lemma SweptDir(m0: Mem, o0: map<nat, Ref>, m: Mem, o: map<nat, Ref>, lo: nat, d: nat, a: nat, m': Mem)
    requires Sound(m0, o0) && Sound(m, o) && Swept(m0, o0, m, o, lo, d, WORDS) && KERNEL_DIRS <= lo <= d < WORDS
    requires Target(m, Dir(d)) == Some(a)
    requires a >= LOW_MEM ==> FrameNr(a) < |m.cnt| && m.cnt[FrameNr(a)] > 0
    requires m' == m.(dir := m.dir[d := 0], cnt := Lowered(m.cnt, a))
    ensures Sound(m', Without(o, Dir(d))) && Swept(m0, o0, m', Without(o, Dir(d)), lo, d + 1, 0)
  {
    hide Target, Dropped, Swept, RefOk, Shaped;
    SweptEmpty(m0, o0, m, o, lo, d);
    DropTable(m, o, d, a, m');
    SweptDrop(m0, o0, m, o, lo, d, WORDS, Dir(d), a, m', Without(o, Dir(d)), d + 1, 0);
  }

  lemma DirTarget(m: Mem, d: nat)
    requires Shaped(m) && d < WORDS && Present(m.dir[d])
    ensures Target(m, Dir(d)) == Some(Address(m.dir[d]))
  {
  }

  lemma DirIndex(addr: nat)
    requires addr < PAGE * WORDS * WORDS
    ensures addr / PAGE / WORDS == addr / (PAGE * WORDS) < WORDS
  {
  }

  /** What the words are in the middle of a teardown: of the directory entries from lo on those
      before d that were present are 0, and of the words of their tables those that were present;
      of the table at d, the first j words. No other word has changed. */
  ghost predicate Wiped(m0: Mem, m: Mem, lo: nat, d: nat, j: nat) {
    && m.page.Keys == m0.page.Keys && |m.dir| == |m0.dir|
    && (forall k :: 0 <= k < |m.dir| ==> m.dir[k] == if lo <= k < d && Present(m0.dir[k]) then 0 else m0.dir[k])
    && (forall b :: b in m.page ==> |m.page[b]| == |m0.page[b]|)
    && (forall b, k :: b in m.page && 0 <= k < |m.page[b]| ==>
        m.page[b][k] == if WipedWord(m0, lo, d, j, b, k) && Present(m0.page[b][k]) then 0 else m0.page[b][k])
  }

  /** The page at b is a table of a directory entry before d, or that of entry d, and k is below j. */
  ghost predicate WipedWord(m0: Mem, lo: nat, d: nat, j: nat, b: nat, k: nat) {
    || WasTable(m0, lo, d, b)
    || (d < |m0.dir| && Present(m0.dir[d]) && b == Address(m0.dir[d]) && k < j)
  }

  ghost predicate WasTable(m0: Mem, lo: nat, d: nat, b: nat) {
    exists e :: lo <= e < d && e < |m0.dir| && Present(m0.dir[e]) && Address(m0.dir[e]) == b
  }

  lemma WipedNone(m0: Mem, lo: nat)
    ensures Wiped(m0, m0, lo, lo, 0)
  {
    hide Present, Address;
  }

  lemma WipedEntry(m0: Mem, m: Mem, lo: nat, d: nat, j: nat, m': Mem)
    requires Wiped(m0, m, lo, d, j) && Shaped(m0) && Shaped(m) && lo <= d < WORDS && j < WORDS && Present(m.dir[d])
    requires m'.dir == m.dir
    requires var t := Address(m.dir[d]);
      m'.page == m.page[t := m.page[t][j := if Present(m.page[t][j]) then 0 else m.page[t][j]]]
    ensures Wiped(m0, m', lo, d, j + 1)
  {
    hide Address, WasTable;
    assert m.dir[d] == m0.dir[d];
  }

  lemma WipedDir(m0: Mem, m: Mem, lo: nat, d: nat, m': Mem)
    requires Shaped(m0) && lo <= d < WORDS && Wiped(m0, m, lo, d, if Present(m0.dir[d]) then WORDS else 0)
    requires m'.page == m.page && m'.dir == if Present(m0.dir[d]) then m.dir[d := 0] else m.dir
    ensures Wiped(m0, m', lo, d + 1, 0)
  {
    hide Present, Address;
    var d', j := d + 1, if Present(m0.dir[d]) then WORDS else 0;
    forall b
      ensures WasTable(m0, lo, d', b) <==> WasTable(m0, lo, d, b) || (Present(m0.dir[d]) && Address(m0.dir[d]) == b)
    {
      assert lo <= d < d';
    }
    forall b, k | b in m.page && 0 <= k < |m.page[b]|
      ensures WipedWord(m0, lo, d', 0, b, k) <==> WipedWord(m0, lo, d, j, b, k)
    {
    }
  }

  lemma WipedAt(m0: Mem, m: Mem, lo: nat, d: nat, j: nat)
    requires Wiped(m0, m, lo, d, j) && d < |m0.dir|
    ensures |m.dir| == |m0.dir| && m.dir[d] == m0.dir[d]
  {
  }

  lemma WipedAll(m0: Mem, m: Mem, lo: nat, n: nat)
    requires Shaped(m0) && Wiped(m0, m, lo, lo + n, 0) && lo + n <= WORDS
    ensures |m.dir| == |m0.dir| == 1024 && m.page.Keys == m0.page.Keys
    ensures forall k :: 0 <= k < 1024 ==> m.dir[k] == if lo <= k < lo + n && m0.dir[k] % 2 == 1 then 0 else m0.dir[k]
    ensures forall b :: b in m.page ==> |m.page[b]| == |m0.page[b]| == 1024
    ensures forall b | b in m.page ::
      (forall e :: lo <= e < lo + n && m0.dir[e] % 2 == 1 ==> m0.dir[e] / 4096 * 4096 != b) ==> m.page[b] == m0.page[b]
    ensures forall e | lo <= e < lo + n && m0.dir[e] % 2 == 1 :: Cleaned(m0.page, m.page, m0.dir[e] / 4096 * 4096)
  {
    forall e | lo <= e < lo + n && m0.dir[e] % 2 == 1
      ensures Cleaned(m0.page, m.page, m0.dir[e] / 4096 * 4096)
    {
      assert Present(m0.dir[e]) && WasTable(m0, lo, lo + n, Address(m0.dir[e]));
    }
  }

  /** In the page at b the words that were present are 0 now, and the others are as before. */
  ghost predicate Cleaned(page: map<nat, seq<nat>>, page': map<nat, seq<nat>>, b: nat) {
    && b in page && b in page' && |page'[b]| == |page[b]|
    && forall k :: 0 <= k < |page[b]| ==> page'[b][k] == if page[b][k] % 2 == 1 then 0 else page[b][k]
  }

  // ---------- what a teardown and a mapping come to ----------

  /** The places in directory entries lo .. lo + n - 1 and their tables that refer to frame f. */
  ghost function RefsIn(m: Mem, lo: nat, n: nat, f: nat): set<Ref>
    requires Shaped(m) && KERNEL_DIRS <= lo && lo + n <= WORDS
  {
    (set d | lo <= d < lo + n && Target(m, Dir(d)) == Some(FrameAt(f)) :: Dir(d))
    + (set d, j | lo <= d < lo + n && 0 <= j < WORDS && Target(m, Page(d, j)) == Some(FrameAt(f)) :: Page(d, j))
  }

  lemma RefsInAre(m: Mem, lo: nat, n: nat, f: nat, s: Ref)
    requires Shaped(m) && KERNEL_DIRS <= lo && lo + n <= WORDS
    ensures s in RefsIn(m, lo, n, f) <==> IsRef(s) && lo <= s.d < lo + n && Target(m, s) == Some(0x40_0000 + 4096 * f)
  {
  }

  lemma RefsInIs(m: Mem, owner: map<nat, Ref>, lo: nat, n: nat, f: nat)
    requires Sound(m, owner) && KERNEL_DIRS <= lo && lo + n <= WORDS && f < |m.cnt|
    ensures RefsIn(m, lo, n, f) == if Gone(owner, f, lo, lo + n, 0) then {owner[FrameAt(f)]} else {}
  {
    forall s | s in RefsIn(m, lo, n, f)
      ensures FrameAt(f) in owner && s == owner[FrameAt(f)] && Done(s, lo, lo + n, 0)
    {
      assert IsRef(s) && Target(m, s) == Some(FrameAt(f));
      assert RefOk(m, owner, s, FrameAt(f));
    }
    if Gone(owner, f, lo, lo + n, 0) {
      var s := owner[FrameAt(f)];
      assert IsRef(s) && Target(m, s) == Some(FrameAt(f));
      if s.Dir? {
        assert s == Dir(s.d);
      } else {
        assert s == Page(s.d, s.j);
      }
      assert s in RefsIn(m, lo, n, f);
    }
  }

  /** The state after the teardown of n directory entries from lo: their 4 MB each are unmapped
      and everything else is mapped as before; each frame's count is lower by exactly the number
      of places in them that referred to it. */
  ghost predicate TornDown(m0: Mem, m: Mem, lo: nat, n: nat)
    requires Shaped(m0) && Shaped(m) && KERNEL_DIRS <= lo && lo + n <= WORDS
  {
    && (forall v :: 0 <= v < WORDS * WORDS ==>
        Translate(m, v) == if lo <= v / WORDS < lo + n then None else Translate(m0, v))
    && |m.cnt| == |m0.cnt|
    && (forall f :: 0 <= f < |m.cnt| ==> m.cnt[f] == m0.cnt[f] - |RefsIn(m0, lo, n, f)|)
  }

  lemma TornDownIs(m0: Mem, m: Mem, lo: nat, n: nat)
    requires Shaped(m0) && Shaped(m) && KERNEL_DIRS <= lo && lo + n <= WORDS && TornDown(m0, m, lo, n)
    ensures forall v :: 0 <= v < 0x10_0000 ==>
      Translate(m, v) == if lo <= v / 1024 < lo + n then None else Translate(m0, v)
    ensures |m.cnt| == |m0.cnt| && forall f :: 0 <= f < |m.cnt| ==> m.cnt[f] == m0.cnt[f] - |RefsIn(m0, lo, n, f)|
  {
    hide RefsIn, Target, Shaped;
  }

  lemma SweptAll(m0: Mem, o0: map<nat, Ref>, m: Mem, o: map<nat, Ref>, lo: nat, n: nat)
    requires Sound(m0, o0) && Shaped(m) && KERNEL_DIRS <= lo && lo + n <= WORDS && Swept(m0, o0, m, o, lo, lo + n, 0)
    ensures TornDown(m0, m, lo, n)
  {
    hide Target, Shaped, RefsIn;
    forall f | 0 <= f < |m.cnt|
      ensures m.cnt[f] == m0.cnt[f] - |RefsIn(m0, lo, n, f)|
    {
      RefsInIs(m0, o0, lo, n, f);
    }
    forall v | 0 <= v < WORDS * WORDS
      ensures Translate(m, v) == if lo <= v / WORDS < lo + n then None else Translate(m0, v)
    {
      assert IsRef(Page(v / WORDS, v % WORDS));
    }
  }

  /** The first free frame in cyclic order from frame i0 is i1. */
  ghost predicate NextFit(cnt: seq<nat>, i0: nat, i1: nat) {
    && i0 < |cnt| && i1 < |cnt| && cnt[i1] == 0
    && (forall k :: 0 <= k < |cnt| && cnt[k] == 0 ==> Distance(|cnt|, i0, i1) <= Distance(|cnt|, i0, k))
  }

  function Distance(n: nat, i: nat, k: nat): nat
    requires i < n && k < n
  {
    if k >= i then k - i else n - i + k
  }

  /** No free frame is nearer to i0 than i is. */
  ghost predicate Nearest(cnt: seq<nat>, i0: nat, i: nat)
    requires i0 < |cnt| && i < |cnt|
  {
    forall k :: 0 <= k < |cnt| && cnt[k] == 0 ==> Distance(|cnt|, i0, i) <= Distance(|cnt|, i0, k)
  }

  lemma DistanceHere(n: nat, i: nat, k: nat)
    requires i < n && k < n
    ensures Distance(n, i, i) == 0 <= Distance(n, i, k)
  {
  }

  /** Past a frame in use, the next frame is one further from i0 and one nearer to any free frame. */
  lemma Passing(cnt: seq<nat>, i0: nat, i: nat, k: nat)
    requires i0 < |cnt| && i < |cnt| && k < |cnt| && cnt[i] != 0 && cnt[k] == 0 && Nearest(cnt, i0, i)
    ensures var j := (i + 1) % |cnt|;
      j < |cnt| && Nearest(cnt, i0, j) && Distance(|cnt|, j, k) < Distance(|cnt|, i, k)
  {
    Wrap(|cnt|, i);
    forall f | 0 <= f < |cnt| && cnt[f] == 0
      ensures Distance(|cnt|, i0, (i + 1) % |cnt|) <= Distance(|cnt|, i0, f)
    {
      Nearer(|cnt|, i0, i, f);
    }
    Nearer(|cnt|, i0, i, k);
  }

  lemma Wrap(n: nat, i: nat)
    requires i < n
    ensures (i + 1) % n == if i + 1 == n then 0 else i + 1
  {
    if i + 1 == n {
      assert n % n == 0;
    }
  }

  lemma Nearer(n: nat, i0: nat, i: nat, f: nat)
    requires i0 < n && i < n && f < n && i != f && Distance(n, i0, i) <= Distance(n, i0, f)
    ensures var j := if i + 1 == n then 0 else i + 1; Distance(n, i0, j) <= Distance(n, i0, f) && Distance(n, j, f) < Distance(n, i, f)
  {
  }

  lemma NextFitFree(cnt: seq<nat>, i0: nat, i1: nat)
    requires NextFit(cnt, i0, i1)
    ensures i1 < |cnt| && cnt[i1] == 0
  {
  }

  /** Going up from i0, and from the last frame on to frame 0, it comes before any other free frame k. */
  lemma NextFitIs(cnt: seq<nat>, i0: nat, i1: nat, k: nat)
    requires NextFit(cnt, i0, i1) && k < |cnt| && cnt[k] == 0 && k != i1
    ensures cnt[i1] == 0 && (i0 <= i1 < k || k < i0 <= i1 || i1 < k < i0)
  {
  }

  /** The frame that the cursor is at after n steps from frame i0. */
  function After(frames: nat, i0: nat, n: nat): (i: nat)
    requires i0 < frames
    ensures i < frames
  {
    if n == 0 then i0 else (After(frames, i0, n - 1) + 1) % frames
  }

  /** The cyclic search comes to a free frame exactly if there is one. */
  lemma SearchEnds(cnt: seq<nat>, i0: nat)
    requires i0 < |cnt|
    ensures (exists n: nat :: cnt[After(|cnt|, i0, n)] == 0) <==> FreeFrame(cnt)
  {
    if FreeFrame(cnt) {
      var f := AFree(cnt);
      AfterIs(|cnt|, i0, Distance(|cnt|, i0, f));
      assert cnt[After(|cnt|, i0, Distance(|cnt|, i0, f))] == 0;
    }
  }

  lemma {:induction false} AfterIs(frames: nat, i0: nat, n: nat)
    requires i0 < frames && n < frames
    ensures After(frames, i0, n) == if i0 + n < frames then i0 + n else i0 + n - frames
  {
    if n > 0 {
      AfterIs(frames, i0, n - 1);
      Wrap(frames, After(frames, i0, n - 1));
    }
  }

  ghost predicate FreeFrame(cnt: seq<nat>) {
    exists f :: 0 <= f < |cnt| && cnt[f] == 0
  }

  /** Virtual page v is mapped to the page at a, and everything else as before. */
  ghost predicate Mapped(m: Mem, m': Mem, v: nat, a: nat)
    requires Shaped(m) && Shaped(m') && v < WORDS * WORDS
  {
    forall u :: 0 <= u < WORDS * WORDS ==> Translate(m', u) == if u == v then Some(a) else Translate(m, u)
  }

  lemma MappedIs(m: Mem, m': Mem, v: nat, a: nat)
    requires Shaped(m) && Shaped(m') && v < WORDS * WORDS && Mapped(m, m', v, a)
    ensures forall u :: 0 <= u < WORDS * WORDS ==> Translate(m', u) == if u == v then Some(a) else Translate(m, u)
  {
    hide Shaped, Translate;
  }

  lemma TableOf(f: nat)
    ensures Address(0x40_0000 + 4096 * f + 7) == 0x40_0000 + 4096 * f
  {
  }

  lemma MappedOne(m: Mem, m1: Mem, m': Mem, v: nat, a: nat)
    requires Shaped(m) && Shaped(m1) && Shaped(m') && v < WORDS * WORDS
    requires forall s :: IsRef(s) && s.Page? ==> Target(m1, s) == Target(m, s)
    requires forall s :: IsRef(s) ==>
      Target(m', s) == if s == Page(v / WORDS, v % WORDS) then Some(a) else Target(m1, s)
    ensures Mapped(m, m', v, a)
  {
    hide Target, Shaped;
    forall u | 0 <= u < WORDS * WORDS
      ensures Translate(m', u) == if u == v then Some(a) else Translate(m, u)
    {
      assert IsRef(Page(u / WORDS, u % WORDS));
      assert u == u / WORDS * WORDS + u % WORDS && v == v / WORDS * WORDS + v % WORDS;
    }
  }

  /** A frame that no counted place refers to is mapped only by task 0's map of all memory. */
  lemma NowhereMapped(m: Mem, owner: map<nat, Ref>, a: nat)
    requires Sound(m, owner) && a >= LOW_MEM && a !in owner
    ensures forall v :: KERNEL_DIRS * WORDS <= v < WORDS * WORDS ==> Translate(m, v) != Some(a)
  {
    hide Target, Shaped;
    forall v | KERNEL_DIRS * WORDS <= v < WORDS * WORDS
      ensures Translate(m, v) != Some(a)
    {
      if Target(m, Page(v / WORDS, v % WORDS)) == Some(a) {
        Owned(m, owner, Page(v / WORDS, v % WORDS), a);
      }
    }
  }

  lemma Owned(m: Mem, owner: map<nat, Ref>, r: Ref, a: nat)
    requires Sound(m, owner) && IsRef(r) && Target(m, r) == Some(a) && Counted(r, a)
    ensures a in owner && owner[a] == r && Managed(m, a)
  {
    assert RefOk(m, owner, r, a);
  }

  /** What places refer to does not depend on the counts. */
  lemma SameCounts(m: Mem, m': Mem)
    requires Shaped(m) && m' == m.(cnt := m'.cnt) && |m'.cnt| == |m.cnt|
    ensures Shaped(m') && forall s :: IsRef(s) ==> Target(m', s) == Target(m, s)
  {
  }

  /** free_page never comes to a frame that is free or out of range. */
  lemma CanFree(m: Mem, owner: map<nat, Ref>, r: Ref, a: nat)
    requires Sound(m, owner) && IsRef(r) && r.d >= KERNEL_DIRS && Target(m, r) == Some(a)
    ensures a >= LOW_MEM ==> FrameNr(a) < |m.cnt| && m.cnt[FrameNr(a)] > 0
  {
    assert RefOk(m, owner, r, a);
  }

  /** Freeing what an entry of a table refers to and clearing the entry. */
  lemma DropEntry(m: Mem, owner: map<nat, Ref>, d: nat, j: nat, a: nat, m': Mem)
    requires Sound(m, owner) && KERNEL_DIRS <= d < WORDS && j < WORDS && Target(m, Page(d, j)) == Some(a)
    requires a >= LOW_MEM ==> FrameNr(a) < |m.cnt| && m.cnt[FrameNr(a)] > 0
    requires m' == WithEntry(m, d, j, 0).(cnt := Lowered(m.cnt, a))
    ensures Sound(m', Without(owner, Page(d, j))) && Dropped(m, owner, Page(d, j), a, m', Without(owner, Page(d, j)))
  {
    forall s | IsRef(s)
      ensures Shaped(WithEntry(m, d, j, 0)) && Target(WithEntry(m, d, j, 0), s) == if s == Page(d, j) then None else Target(m, s)
    {
      ClearEntry(m, owner, d, j, s);
    }
    hide Target, Shaped, WithEntry, FrameNr, FrameAt;
    SameCounts(WithEntry(m, d, j, 0), m');
    DroppedSound(m, owner, Page(d, j), a, m', Without(owner, Page(d, j)));
  }

  /** Freeing an empty table and clearing its directory entry. */
  lemma DropTable(m: Mem, owner: map<nat, Ref>, d: nat, a: nat, m': Mem)
    requires Sound(m, owner) && KERNEL_DIRS <= d < WORDS && Target(m, Dir(d)) == Some(a)
    requires a >= LOW_MEM ==> FrameNr(a) < |m.cnt| && m.cnt[FrameNr(a)] > 0
    requires forall j :: 0 <= j < WORDS ==> Target(m, Page(d, j)).None?
    requires m' == m.(dir := m.dir[d := 0], cnt := Lowered(m.cnt, a))
    ensures Sound(m', Without(owner, Dir(d))) && Dropped(m, owner, Dir(d), a, m', Without(owner, Dir(d)))
  {
    var m1 := m.(dir := m.dir[d := 0]);
    forall s | IsRef(s)
      ensures Shaped(m1) && Target(m1, s) == if s == Dir(d) then None else Target(m, s)
    {
      ClearDir(m, owner, d, s);
    }
    hide Target, Shaped, FrameNr, FrameAt;
    SameCounts(m1, m');
    DroppedSound(m, owner, Dir(d), a, m', Without(owner, Dir(d)));
  }

  // ---------- the start ----------

  const TABLES := 0x101000

  ghost predicate FreeCounts(cnt: seq<nat>) {
    forall f :: 0 <= f < |cnt| ==> cnt[f] == 0
  }

  /** Where the table for directory entry d is. */
  function TableAt(d: nat): nat {
    TABLES + PAGE * d
  }

  /** The directory for a memory of so many pages. */
  function BootDir(pages: nat): seq<nat> {
    seq(WORDS, d => if 0 <= d && d * WORDS < pages then TableAt(d) + 7 else 0)
  }

  function BootTable(pages: nat, d: nat): seq<nat> {
    seq(WORDS, j => if 0 <= j && d * WORDS + j < pages then (d * WORDS + j) * PAGE + 7 else 0)
  }

  function BootTables(pages: nat): set<nat> {
    set d | 0 <= d < KERNEL_DIRS && d * WORDS < pages :: TableAt(d)
  }

  /** The tables, and the frames above LOW_MEM. */
  function BootPages(pages: nat): map<nat, seq<nat>> {
    (map a | a in BootTables(pages) :: BootTable(pages, (a - TABLES) / PAGE))
    + map f | 0 <= f < pages - WORDS :: FrameAt(f) := seq(WORDS, j => 0)
  }

  lemma BootEntry(pages: nat, d: nat)
    requires d < KERNEL_DIRS && d * WORDS < pages <= WORDS * KERNEL_DIRS
    ensures TableAt(d) in BootPages(pages) && BootPages(pages)[TableAt(d)] == BootTable(pages, d)
    ensures TableAt(d) in BootTables(pages) && (TableAt(d) - TABLES) / PAGE == d
    ensures Present(BootDir(pages)[d]) && Address(BootDir(pages)[d]) == TableAt(d) < LOW_MEM
  {
    hide BootTable;
    assert TableAt(d) in BootTables(pages);
    assert forall f: nat :: FrameAt(f) >= LOW_MEM;
    BootWord(TableAt(d), d);
  }

  lemma BootWord(a: nat, d: nat)
    requires a == TableAt(d)
    ensures (a - TABLES) / PAGE == d && Present(a + 7) && Address(a + 7) == a
  {
  }

  lemma BootShaped(pages: nat, m: Mem)
    requires WORDS <= pages <= WORDS * KERNEL_DIRS
    requires m == Mem(BootDir(pages), BootPages(pages), seq(pages - WORDS, i => 0))
    ensures Shaped(m) && FreeCounts(m.cnt)
    ensures forall d: nat :: d < WORDS ==> (Present(m.dir[d]) <==> d * WORDS < pages)
  {
    hide BootPages, BootTables, TableAt, FrameAt, Address, Present;
    forall d: nat | d < WORDS
      ensures Present(m.dir[d]) <==> d * WORDS < pages
      ensures Present(m.dir[d]) ==> Address(m.dir[d]) in m.page
    {
      BootDirAt(pages, d);
    }
    BootSizes(pages);
  }

  lemma BootDirAt(pages: nat, d: nat)
    requires d < WORDS && WORDS <= pages <= WORDS * KERNEL_DIRS
    ensures Present(BootDir(pages)[d]) <==> d * WORDS < pages
    ensures Present(BootDir(pages)[d]) ==> Address(BootDir(pages)[d]) in BootPages(pages)
  {
    if d * WORDS < pages {
      BootEntry(pages, d);
    }
  }

  lemma BootSizes(pages: nat)
    requires WORDS <= pages <= WORDS * KERNEL_DIRS
    ensures forall a :: a in BootPages(pages) ==> |BootPages(pages)[a]| == WORDS
    ensures forall f {:trigger FrameAt(f)} :: 0 <= f < pages - WORDS ==> FrameAt(f) in BootPages(pages)
  {
  }

  lemma BootTarget(pages: nat, m: Mem, s: Ref)
    requires WORDS <= pages <= WORDS * KERNEL_DIRS
    requires m == Mem(BootDir(pages), BootPages(pages), seq(pages - WORDS, i => 0))
    requires Shaped(m) && IsRef(s) && (Present(m.dir[s.d]) <==> s.d * WORDS < pages)
    ensures Target(m, s) == if s.d * WORDS >= pages then None else if s.Dir? then Some(TableAt(s.d))
      else if s.d * WORDS + s.j < pages then Some((s.d * WORDS + s.j) * PAGE) else None
  {
    hide Shaped, BootPages, BootDir, BootTables;
    if s.d * WORDS < pages {
      BootEntry(pages, s.d);
    }
  }

  lemma BootSound(pages: nat, m: Mem, owner: map<nat, Ref>)
    requires WORDS <= pages <= WORDS * KERNEL_DIRS
    requires m == Mem(BootDir(pages), BootPages(pages), seq(pages - WORDS, i => 0))
    requires owner == map a | a in BootTables(pages) :: Dir((a - TABLES) / PAGE)
    ensures Sound(m, owner) && FreeCounts(m.cnt)
    ensures forall v :: 0 <= v < WORDS * WORDS ==> Translate(m, v) == if v < pages then Some(PAGE * v) else None
  {
    hide Shaped, BootPages, BootDir, Target;
    BootShaped(pages, m);
    forall v | 0 <= v < WORDS * WORDS
      ensures Translate(m, v) == if v < pages then Some(PAGE * v) else None
    {
      BootTarget(pages, m, Page(v / WORDS, v % WORDS));
      assert v == v / WORDS * WORDS + v % WORDS;
    }
    forall s | IsRef(s) && Target(m, s).Some?
      ensures RefOk(m, owner, s, Target(m, s).value)
    {
      BootTarget(pages, m, s);
      BootEntry(pages, s.d);
    }
    forall a | a in owner
      ensures IsRef(owner[a]) && Target(m, owner[a]) == Some(a) && owner[a].Dir?
    {
      var d :| 0 <= d < KERNEL_DIRS && d * WORDS < pages && a == TableAt(d);
      BootEntry(pages, d);
      BootTarget(pages, m, Dir(d));
    }
  }

  /** In the page at t word j is for page 1024 * d + j of memory, if there is so much. */
  predicate MapsItself(page: map<nat, seq<nat>>, t: nat, d: nat, pages: nat) {
    && t in page && |page[t]| == 1024
    && forall j :: 0 <= j < 1024 ==> page[t][j] == if 1024 * d + j < pages then 4096 * (1024 * d + j) + 7 else 0
  }

  lemma BootItself(pages: nat)
    requires WORDS <= pages <= WORDS * KERNEL_DIRS
    ensures forall d :: 0 <= d < 1024 && 1024 * d < pages ==>
      MapsItself(BootPages(pages), 0x10_1000 + 4096 * d, d, pages)
  {
    hide BootPages;
    forall d | 0 <= d < 1024 && 1024 * d < pages
      ensures MapsItself(BootPages(pages), 0x10_1000 + 4096 * d, d, pages)
    {
      BootEntry(pages, d);
    }
  }

  // ---------- the code ----------

  class Pager {
    var dir: seq<nat>            // the page directory, at 0x100000
    var page: map<nat, seq<nat>> // the pages that can hold tables, by address
    var cnt: seq<nat>            // page_cnt
    var i: nat                   // the static cursor of find_empty_page
    ghost var owner: map<nat, Ref>

    ghost function Now(): Mem
      reads this
    {
      Mem(dir, page, cnt)
    }

    ghost predicate Valid()
      reads this
    {
      Sound(Now(), owner) && (|cnt| == 0 || i < |cnt|)
    }

    /** The page tables at the start (boot/loader.asm:393-428): task 0's directory entries map all
        memory, LOW_MEM and the given number of frames, to itself; no frame is in use
        (kernel/page/page_map.c:113-122). */
    constructor (frames: nat)
      requires LOW_MEM + PAGE * frames <= PAGE * WORDS * KERNEL_DIRS
      ensures Valid() && |cnt| == frames && i == 0 && FreeCounts(cnt)
      ensures |dir| == 1024 && forall d :: 0 <= d < 1024 ==>
        dir[d] == if 1024 * d < 1024 + frames then 0x10_1000 + 4096 * d + 7 else 0
      ensures forall d :: 0 <= d < 1024 && 1024 * d < 1024 + frames ==>
        MapsItself(page, 0x10_1000 + 4096 * d, d, 1024 + frames)
      ensures forall v :: 0 <= v < WORDS * WORDS ==>
        Translate(Now(), v) == if v < WORDS + frames then Some(PAGE * v) else None
    {
      var pages: nat := WORDS + frames;
      dir := BootDir(pages);
      page := BootPages(pages);
      cnt := seq(frames, i => 0);
      i := 0;
      owner := map a | a in BootTables(pages) :: Dir((a - TABLES) / PAGE);
      new;
      BootSound(pages, Now(), owner);
      BootItself(pages);
    }

    /** find_empty_page (kernel/page/page_map.c:18-31): the next free frame, filled with zeros
        and counted. With frames but no free one its loop would not end. */
    method FindEmptyPage() returns (a: nat)
      requires Valid() && (|cnt| == 0 || FreeFrame(cnt))
      modifies this`page, this`cnt, this`i
      ensures Valid()
      ensures |old(cnt)| == 0 ==> a == 0 && Now() == old(Now()) && i == old(i)
      ensures |old(cnt)| > 0 ==> NextFit(old(cnt), old(i), i) && a == FrameAt(i) && Now() == Taken(old(Now()), i)
      ensures |old(cnt)| > 0 ==>
        && a == 0x40_0000 + 4096 * i && dir == old(dir) && cnt == old(cnt)[i := 1]
        && a in page && page == old(page)[a := page[a]] && |page[a]| == 1024 && forall j :: 0 <= j < 1024 ==> page[a][j] == 0
    {
      hide Shaped, Sound, RefOk, Target, NextFit, Distance;
      Advance();
      if |cnt| > 0 {
        NextFitFree(cnt, old(i), i);
      }
      if i < |cnt| {
        TakeFrame(Now(), owner, i);
        cnt := cnt[i := 1];
        a := LOW_MEM + PAGE * i;
        page := page[a := seq(WORDS, i => 0)];
        assert Now() == Taken(old(Now()), i);
        return;
      }
      return 0;
    }

    /** The loop of find_empty_page: the cursor moves on, cyclically, to a free frame. */
    method Advance()
      requires (|cnt| == 0 || i < |cnt|) && (|cnt| == 0 || FreeFrame(cnt))
      modifies this`i
      ensures |cnt| == 0 ==> i == old(i)
      ensures |cnt| > 0 ==> NextFit(cnt, old(i), i)
    {
      hide Distance;
      ghost var i0 := i;
      ghost var k := if |cnt| == 0 then 0 else AFree(cnt);
      if |cnt| > 0 {
        DistanceHere(|cnt|, i0, k);
      }
      while i < |cnt|
        invariant (|cnt| > 0 ==> i < |cnt|) && (|cnt| == 0 ==> i == i0)
        invariant |cnt| > 0 ==> Nearest(cnt, i0, i)
        decreases if i < |cnt| then Distance(|cnt|, i, k) else 0
      {
        if cnt[i] == 0 {
          return;
        }
        Passing(cnt, i0, i, k);
        i := (i + 1) % |cnt|;
      }
    }

    /** free_page (kernel/page/page_map.c:34-43). */
    method FreePage(a: nat)
      requires a >= LOW_MEM ==> FrameNr(a) < |cnt| && cnt[FrameNr(a)] > 0
      modifies this`cnt
      ensures cnt == Lowered(old(cnt), a)
      ensures cnt == if a < 0x40_0000 then old(cnt)
                     else old(cnt)[(a - 0x40_0000) / 4096 := old(cnt)[(a - 0x40_0000) / 4096] - 1]
    {
      if a < LOW_MEM {
        return;
      }
      var f := (a - LOW_MEM) / PAGE;
      cnt := cnt[f := cnt[f] - 1];
    }

    /** One entry of a table in free_page_dir_tables (kernel/page/page_map.c:62-66). */
    method FreeEntry(d: nat, j: nat)
      requires Valid() && KERNEL_DIRS <= d < WORDS && j < WORDS && Present(dir[d])
      modifies this`page, this`cnt, this`owner
      ensures Valid() && i == old(i) && dir == old(dir) && |cnt| == |old(cnt)|
      ensures var r := Page(d, j); var was := Target(old(Now()), r);
        if was.Some? then Dropped(old(Now()), old(owner), r, was.value, Now(), owner)
        else Now() == old(Now()) && owner == old(owner)
      ensures Address(dir[d]) in old(page) && |old(page)[Address(dir[d])]| == WORDS
      ensures var t := Address(dir[d]);
        page == old(page)[t := old(page)[t][j := if Present(old(page)[t][j]) then 0 else old(page)[t][j]]]
    {
      var t := Address(dir[d]);
      if Present(page[t][j]) {
        ghost var m := Now();
        var a := Address(page[t][j]);
        CanFree(m, owner, Page(d, j), a);
        FreePage(a);
        page := page[t := page[t][j := 0]];
        DropEntry(m, owner, d, j, a, Now());
        owner := Without(owner, Page(d, j));
      } else {
        assert page[t][j := page[t][j]] == page[t] && page[t := page[t]] == page;
      }
    }

    /** The inner loop of free_page_dir_tables (kernel/page/page_map.c:60-67). */
    method FreeTable(ghost m0: Mem, ghost o0: map<nat, Ref>, ghost lo: nat, d: nat)
      requires Valid() && KERNEL_DIRS <= lo <= d < WORDS && Present(dir[d])
      requires Sound(m0, o0) && Swept(m0, o0, Now(), owner, lo, d, 0) && Wiped(m0, Now(), lo, d, 0)
      modifies this`page, this`cnt, this`owner
      ensures Valid() && i == old(i) && dir == old(dir)
      ensures Swept(m0, o0, Now(), owner, lo, d, WORDS) && Wiped(m0, Now(), lo, d, WORDS)
    {
      SoundShaped(m0, o0);
      SoundShaped(Now(), owner);
      hide Sound, Target, Dropped, Swept, Shaped, Wiped;
      var j := 0;
      while j < WORDS
        invariant 0 <= j <= WORDS && Valid() && i == old(i) && dir == old(dir) && Shaped(Now())
        invariant Swept(m0, o0, Now(), owner, lo, d, j) && Wiped(m0, Now(), lo, d, j)
      {
        ghost var m, o := Now(), owner;
        FreeEntry(d, j);
        SoundShaped(Now(), owner);
        WipedEntry(m0, m, lo, d, j, Now());
        SweptEntry(m0, o0, m, o, lo, d, j, Now(), owner);
        j := j + 1;
      }
    }

    /** free_page_dir_tables (kernel/page/page_map.c:48-72). */
    method FreePageDirTables(addr: nat, n: nat)
      requires Valid() && addr % (PAGE * WORDS) == 0 && KERNEL_DIRS <= addr / (PAGE * WORDS)
      requires addr / (PAGE * WORDS) + n <= WORDS
      modifies this`dir, this`page, this`cnt, this`owner
      ensures Valid() && i == old(i)
      ensures TornDown(old(Now()), Now(), addr / (PAGE * WORDS), n)
      ensures var lo := addr / 0x40_0000;
        forall v :: 0 <= v < 0x10_0000 ==> Translate(Now(), v) == if lo <= v / 1024 < lo + n then None else Translate(old(Now()), v)
      ensures |cnt| == |old(cnt)| &&
        forall f :: 0 <= f < |cnt| ==> cnt[f] == old(cnt)[f] - |RefsIn(old(Now()), addr / 0x40_0000, n, f)|
      ensures |dir| == |old(dir)| == 1024 && page.Keys == old(page).Keys
      ensures var lo := addr / 0x40_0000;
        forall k :: 0 <= k < 1024 ==> dir[k] == if lo <= k < lo + n && old(dir)[k] % 2 == 1 then 0 else old(dir)[k]
      ensures var lo := addr / 0x40_0000;
        forall b | b in page ::
          (forall e :: lo <= e < lo + n && old(dir)[e] % 2 == 1 ==> old(dir)[e] / 4096 * 4096 != b) ==> page[b] == old(page)[b]
      ensures var lo := addr / 0x40_0000;
        forall e | lo <= e < lo + n && old(dir)[e] % 2 == 1 :: Cleaned(old(page), page, old(dir)[e] / 4096 * 4096)
    {
      hide Target, Dropped, Swept, TornDown, RefOk, Shaped, Wiped, Translate, RefsIn;
      ghost var m0, o0 := Now(), owner;
      SoundShaped(m0, o0);
      var lo := addr / (PAGE * WORDS);
      SweptNone(m0, o0, lo);
      WipedNone(m0, lo);
      var d := lo;
      while d < lo + n
        invariant lo <= d <= lo + n && Valid() && i == old(i)
        invariant Swept(m0, o0, Now(), owner, lo, d, 0) && Wiped(m0, Now(), lo, d, 0)
      {
        FreeBlock(m0, o0, lo, d);
        d := d + 1;
      }
      SoundShaped(Now(), owner);
      SweptAll(m0, o0, Now(), owner, lo, n);
      TornDownIs(m0, Now(), lo, n);
      WipedAll(m0, Now(), lo, n);
    }

    /** One directory entry of free_page_dir_tables (kernel/page/page_map.c:56-69). */
    method FreeBlock(ghost m0: Mem, ghost o0: map<nat, Ref>, ghost lo: nat, d: nat)
      requires Valid() && KERNEL_DIRS <= lo <= d < WORDS && Sound(m0, o0) && Swept(m0, o0, Now(), owner, lo, d, 0)
      requires Wiped(m0, Now(), lo, d, 0)
      modifies this`dir, this`page, this`cnt, this`owner
      ensures Valid() && i == old(i)
      ensures Swept(m0, o0, Now(), owner, lo, d + 1, 0) && Wiped(m0, Now(), lo, d + 1, 0)
    {
      hide Target, Dropped, Swept, RefOk, Shaped, Wiped;
      SizeOfDir(Now());
      SizeOfDir(m0);
      WipedAt(m0, Now(), lo, d, 0);
      if Present(dir[d]) {
        FreeTable(m0, o0, lo, d);
        FreeDir(m0, o0, lo, d);
      } else {
        SweptAbsent(m0, o0, Now(), owner, lo, d);
        WipedDir(m0, Now(), lo, d, Now());
      }
    }

    /** The table itself and the directory entry (kernel/page/page_map.c:68-69). */
    method FreeDir(ghost m0: Mem, ghost o0: map<nat, Ref>, ghost lo: nat, d: nat)
      requires Valid() && KERNEL_DIRS <= lo <= d < WORDS && Present(dir[d])
      requires Sound(m0, o0) && Swept(m0, o0, Now(), owner, lo, d, WORDS) && Wiped(m0, Now(), lo, d, WORDS)
      modifies this`dir, this`cnt, this`owner
      ensures Valid() && i == old(i)
      ensures Swept(m0, o0, Now(), owner, lo, d + 1, 0) && Wiped(m0, Now(), lo, d + 1, 0)
    {
      hide Target, Dropped, Swept, TornDown, RefOk, Shaped, Wiped;
      ghost var m := Now();
      SizeOfDir(m);
      DirTarget(m, d);
      var a := Address(dir[d]);
      CanFree(m, owner, Dir(d), a);
      FreePage(a);
      dir := dir[d := 0];
      SizeOfDir(m0);
      WipedAt(m0, m, lo, d, WORDS);
      WipedDir(m0, m, lo, d, Now());
      SweptDir(m0, o0, m, owner, lo, d, a, Now());
      owner := Without(owner, Dir(d));
    }

    /** map_page_to_phys (kernel/page/page_map.c:75-105), called by a task or with a frame that is
        counted. A frame must not be mapped yet; if there is no table, a frame must be free for it. */
    method MapPageToPhys(task: bool, phys: nat, addr: nat) returns (r: nat)
      requires Valid() && KERNEL_DIRS <= addr / (PAGE * WORDS) && addr < PAGE * WORDS * WORDS
      requires Mappable(Now(), owner, Address(phys))
      requires !task ==> phys >= LOW_MEM && FrameNr(phys) < |cnt| && cnt[FrameNr(phys)] != 0
      requires Present(dir[addr / (PAGE * WORDS)]) || FreeFrame(cnt)
      modifies this
      ensures Valid() && r == phys
      ensures Mapped(old(Now()), Now(), addr / PAGE, Address(phys))
      ensures forall u :: 0 <= u < 0x10_0000 ==>
        Translate(Now(), u) == if u == addr / 4096 then Some(phys / 4096 * 4096) else Translate(old(Now()), u)
      ensures if Present(old(dir)[addr / (PAGE * WORDS)]) then cnt == old(cnt) && i == old(i)
        else NextFit(old(cnt), old(i), i) && cnt == old(cnt)[i := 1]
      ensures |dir| == |old(dir)| == 1024
      ensures var d := addr / 0x40_0000;
        dir == if old(dir)[d] % 2 == 1 then old(dir) else old(dir)[d := 0x40_0000 + 4096 * i + 7]
      ensures var d := addr / 0x40_0000; var t := dir[d] / 4096 * 4096;
        && t in page && page == old(page)[t := page[t]] && t in old(page) && |page[t]| == |old(page)[t]| == 1024
        && forall k :: 0 <= k < 1024 ==>
             page[t][k] == if k == addr / 0x1000 % 0x400 then phys / 8 * 8 + 7 else if old(dir)[d] % 2 == 1 then old(page)[t][k] else 0
    {
      hide Sound, Shaped, Target, Translate, RefOk, NextFit, FreeFrame, Mappable;
      ghost var m := Now();
      SoundShaped(m, owner);
      SizeOfDir(m);
      var d, j := addr / (PAGE * WORDS), addr / PAGE % WORDS;
      DirIndex(addr);
      if !Present(dir[d]) {
        NewDirTable(d, Address(phys));
        TableOf(i);
      }
      ghost var m1 := Now();
      SoundShaped(m1, owner);
      EnterPage(d, j, phys);
      SoundShaped(Now(), owner);
      MappedOne(m, m1, Now(), addr / PAGE, Address(phys));
      MappedIs(m, Now(), addr / PAGE, Address(phys));
      return phys;
    }

    /** The entry of the table (kernel/page/page_map.c:102). */
    method EnterPage(d: nat, j: nat, phys: nat)
      requires Valid() && KERNEL_DIRS <= d < WORDS && j < WORDS && Present(dir[d])
      requires Mappable(Now(), owner, Address(phys))
      modifies this`page, this`owner
      ensures Valid()
      ensures forall s :: IsRef(s) ==> Target(Now(), s) == if s == Page(d, j) then Some(Address(phys)) else Target(old(Now()), s)
      ensures var t := Address(dir[d]);
        && t in page && page == old(page)[t := page[t]] && t in old(page) && |page[t]| == |old(page)[t]| == 1024
        && forall k :: 0 <= k < 1024 ==> page[t][k] == if k == j then phys / 8 * 8 + 7 else old(page)[t][k]
    {
      ghost var m, o := Now(), owner;
      Or7Is(phys);
      var t := Address(dir[d]);
      var w: nat := Or7(phys);
      var table: seq<nat> := page[t][j := w];
      page := page[t := table];
      SetEntry(m, o, d, j, w);
      assert Now() == WithEntry(m, d, j, Or7(phys));
      owner := Rehomed(o, Page(d, j), Address(phys));
    }

    /** A table for an absent directory entry (kernel/page/page_map.c:96-100); a stays mappable. */
    method NewDirTable(d: nat, ghost a: nat)
      requires Valid() && d < WORDS && !Present(dir[d]) && FreeFrame(cnt) && Mappable(Now(), owner, a)
      modifies this
      ensures Valid() && Present(dir[d]) && Mappable(Now(), owner, a)
      ensures NextFit(old(cnt), old(i), i) && cnt == old(cnt)[i := 1]
      ensures forall s :: IsRef(s) && s.Page? ==> Target(Now(), s) == Target(old(Now()), s)
      ensures dir == old(dir)[d := 0x40_0000 + 4096 * i + 7]
      ensures var t := 0x40_0000 + 4096 * i;
        && t in old(page) && t in page && page == old(page)[t := page[t]] && |page[t]| == |old(page)[t]| == WORDS
        && forall k :: 0 <= k < WORDS ==> page[t][k] == 0
    {
      hide NextFit, FreeFrame, RefOk, Target;
      ghost var _ := AFree(cnt);
      var t := FindEmptyPage();
      ghost var m := Now();
      NextFitFree(old(cnt), old(i), i);
      TakeFrame(old(Now()), owner, i);
      NewTable(m, owner, d, i);
      Or7Is(t);
      dir := dir[d := Or7(t)];
      owner := owner[t := Dir(d)];
    }

    /** __do_no_page (kernel/page/page_map.c:107-110): the page that faulted is mapped to frame f, a
        frame of zeros that no other page is mapped to. But for its table, no other page changes. */
    method DoNoPage(task: bool, addr: nat) returns (ghost f: nat)
      requires Valid() && KERNEL_DIRS <= addr / (PAGE * WORDS) && addr < PAGE * WORDS * WORDS && FreeFrame(cnt)
      requires Present(dir[addr / (PAGE * WORDS)]) || TwoFree(cnt)
      modifies this
      ensures Valid()
      ensures NextFit(old(cnt), old(i), f) && Mapped(old(Now()), Now(), addr / PAGE, FrameAt(f))
      ensures OnlyAt(Now(), addr / PAGE, f)
      ensures forall u :: 0 <= u < 0x10_0000 ==>
        Translate(Now(), u) == if u == addr / 4096 then Some(0x40_0000 + 4096 * f) else Translate(old(Now()), u)
      ensures forall u :: 16 * 1024 <= u < 0x10_0000 && u != addr / 4096 ==>
        Translate(Now(), u) != Some(0x40_0000 + 4096 * f)
      ensures var a := 0x40_0000 + 4096 * f; a in page && |page[a]| == 1024 && forall j :: 0 <= j < 1024 ==>
        page[a][j] == 0
      ensures |dir| == 1024 && page.Keys == old(page).Keys
      ensures forall b :: b in page && b != 0x40_0000 + 4096 * f && b != dir[addr / 0x40_0000] / 4096 * 4096 ==>
        page[b] == old(page)[b]
    {
      hide Target, RefOk, Sound, Shaped, NextFit, Mapped, OnlyAt, FreeFrame, TwoFree, Taken;
      ghost var m := Now();
      SoundShaped(m, owner);
      ghost var _ := AFree(cnt);
      var a := FindEmptyPage();
      f := i;
      ghost var m1 := Now();
      NextFitFree(m.cnt, old(i), f);
      TakenMappable(m, owner, f);
      StillFree(m.cnt, f);
      NoTable(m1, owner, addr / (PAGE * WORDS), f);
      var _ := MapPageToPhys(task, a, addr);
      SoundShaped(Now(), owner);
      NotNext(m1.cnt, f, i);
      TakenMapped(m, m1, Now(), addr / PAGE, f);
    }
  }

  lemma TakenMappable(m: Mem, owner: map<nat, Ref>, f: nat)
    requires Sound(m, owner) && f < |m.cnt| && m.cnt[f] == 0
    ensures FrameAt(f) !in owner && Shaped(Taken(m, f)) && Mappable(Taken(m, f), owner, Address(FrameAt(f)))
    ensures Address(FrameAt(f)) == FrameAt(f) && FrameNr(FrameAt(f)) == f
    ensures forall s :: IsRef(s) ==> Target(Taken(m, f), s) == Target(m, s)
    ensures forall v :: KERNEL_DIRS * WORDS <= v < WORDS * WORDS ==> Translate(Taken(m, f), v) != Some(FrameAt(f))
  {
    TakeFrame(m, owner, f);
    NowhereMapped(Taken(m, f), owner, FrameAt(f));
    FrameAtNr(f, 0);
  }

  /** A frame that no place refers to is no table. */
  lemma NoTable(m: Mem, owner: map<nat, Ref>, d: nat, f: nat)
    requires Sound(m, owner) && d < WORDS && FrameAt(f) !in owner
    ensures Present(m.dir[d]) ==> Address(m.dir[d]) != FrameAt(f)
  {
    if Present(m.dir[d]) {
      assert RefOk(m, owner, Dir(d), Target(m, Dir(d)).value);
    }
  }

  lemma NotNext(cnt: seq<nat>, f: nat, i: nat)
    requires f < |cnt| && cnt[f] == 1
    ensures forall i0: nat :: NextFit(cnt, i0, i) ==> i != f
  {
  }

  lemma TakenMapped(m: Mem, m1: Mem, m': Mem, v: nat, f: nat)
    requires Shaped(m) && Shaped(m1) && Shaped(m') && v < WORDS * WORDS && Mapped(m1, m', v, FrameAt(f))
    requires forall s :: IsRef(s) ==> Target(m1, s) == Target(m, s)
    requires forall u :: KERNEL_DIRS * WORDS <= u < WORDS * WORDS ==> Translate(m1, u) != Some(FrameAt(f))
    ensures Mapped(m, m', v, FrameAt(f)) && OnlyAt(m', v, f)
  {
    hide Target, Shaped;
    forall u | 0 <= u < WORDS * WORDS
      ensures Translate(m1, u) == Translate(m, u)
    {
      assert IsRef(Page(u / WORDS, u % WORDS));
    }
  }

  ghost function AFree(cnt: seq<nat>): (f: nat)
    requires FreeFrame(cnt)
    ensures f < |cnt| && cnt[f] == 0
  {
    var f: nat :| f < |cnt| && cnt[f] == 0; f
  }

  /** Frame f is mapped at no other virtual page than v, but for task 0's map of all memory. */
  ghost predicate OnlyAt(m: Mem, v: nat, f: nat)
    requires Shaped(m)
  {
    forall u :: KERNEL_DIRS * WORDS <= u < WORDS * WORDS && u != v ==> Translate(m, u) != Some(FrameAt(f))
  }

  ghost predicate TwoFree(cnt: seq<nat>) {
    exists f, g :: 0 <= f < g < |cnt| && cnt[f] == 0 && cnt[g] == 0
  }

  lemma StillFree(cnt: seq<nat>, f: nat)
    requires f < |cnt|
    ensures TwoFree(cnt) ==> FreeFrame(cnt[f := 1])
  {
    if g, h :| 0 <= g < h < |cnt| && cnt[g] == 0 && cnt[h] == 0 {
      assert cnt[f := 1][if g == f then h else g] == 0;
    }
  }
}
