/** Posting and picking mail (ipc/post.c, ipc/pick.c, ipc/msgcall.c). Every process but task 0
    has a mailbox with slots for system and for user mail; each kind has a count of its mails,
    which lets a search end early. */
module Mail {
  import opened Basics

  const NR_SYS_MAILS := 31
  const NR_USR_MAILS := 64
  const MPL_SYS := 0
  const M_WAY_POST := 0
  const TTY := 3

  const MSG_ANY: bv8 := 1
  const MSG_PST: bv8 := 4

  /** What a mail carries, but for the time it is stamped with. */
  datatype Letter = Letter(msg: nat, level: nat, fparam: nat, lparam: nat, src: Pos, dest: Pos, kind: nat, retType: nat)

  /** A slot (MAIL). */
  datatype Slot = Slot(locked: bool, validate: bool, letter: Letter, atime: nat)

  /** MAILBOX: the two counts and the two slot arrays. */
  datatype Box = Box(sysCnt: int, usrCnt: int, sys: seq<Slot>, usr: seq<Slot>)

  predicate Used(m: Slot) {
    m.locked && m.validate
  }

  predicate Open(m: Slot) {
    !m.locked && !m.validate
  }

  // ---------- the mails in a slot array ----------

  ghost function Letters(s: seq<Slot>): multiset<Letter> {
    if s == [] then multiset{}
    else Letters(s[..|s| - 1]) + One(s[|s| - 1])
  }

  ghost function One(m: Slot): multiset<Letter> {
    if Used(m) then multiset{m.letter} else multiset{}
  }

  lemma {:induction false} LettersAre(s: seq<Slot>, l: Letter)
    ensures l in Letters(s) <==> exists i :: 0 <= i < |s| && Used(s[i]) && s[i].letter == l
  {
    if s != [] {
      var s' := s[..|s| - 1];
      LettersAre(s', l);
      assert forall i :: 0 <= i < |s'| ==> s[i] == s'[i];
      if l in Letters(s') {
        var i :| 0 <= i < |s'| && Used(s'[i]) && s'[i].letter == l;
        assert Used(s[i]);
      }
    }
  }

  /** Changing one slot changes what it holds and nothing else. */
  lemma {:induction false} LettersSet(s: seq<Slot>, i: nat, m: Slot)
    requires i < |s|
    ensures Letters(s[i := m]) + One(s[i]) == Letters(s) + One(m)
  {
    hide One;
    var s', t, last := s[..|s| - 1], s[i := m], s[|s| - 1];
    if i == |s| - 1 {
      assert t[..|t| - 1] == s';
      assert (Letters(s') + One(m)) + One(last) == (Letters(s') + One(last)) + One(m);
    } else {
      LettersSet(s', i, m);
      assert t[..|t| - 1] == s'[i := m];
      assert (Letters(s'[i := m]) + One(last)) + One(s[i]) == (Letters(s'[i := m]) + One(s[i])) + One(last);
      assert (Letters(s') + One(m)) + One(last) == (Letters(s') + One(last)) + One(m);
    }
  }

  lemma LettersLast(s: seq<Slot>)
    requires s != []
    ensures |Letters(s)| == |Letters(s[..|s| - 1])| + if Used(s[|s| - 1]) then 1 else 0
  {
    var m := One(s[|s| - 1]);
    assert |Letters(s[..|s| - 1]) + m| == |Letters(s[..|s| - 1])| + |m|;
  }

  lemma LettersNext(s: seq<Slot>, i: nat)
    requires i < |s|
    ensures |Letters(s[..i + 1])| == |Letters(s[..i])| + if Used(s[i]) then 1 else 0
  {
    assert s[..i + 1][..i] == s[..i] && s[..i + 1][i] == s[i];
    LettersLast(s[..i + 1]);
  }

  /** A prefix that holds as many mails as the whole array holds them all. */
  lemma {:induction false} LettersRest(s: seq<Slot>, i: nat)
    requires i <= |s| && |Letters(s[..i])| >= |Letters(s)|
    ensures |Letters(s[..i])| == |Letters(s)|
    ensures forall k :: i <= k < |s| ==> !Used(s[k])
    decreases |s| - i
  {
    if i < |s| {
      LettersNext(s, i);
      LettersMost(s, i + 1);
      LettersRest(s, i + 1);
    } else {
      assert s[..i] == s;
    }
  }

  lemma {:induction false} LettersMost(s: seq<Slot>, i: nat)
    requires i <= |s|
    ensures |Letters(s[..i])| <= |Letters(s)| && |Letters(s[..i])| <= i
    decreases |s| - i
  {
    LettersSize(s[..i]);
    if i == |s| {
      assert s[..i] == s;
    } else {
      LettersNext(s, i);
      LettersMost(s, i + 1);
    }
  }

  lemma {:induction false} LettersSize(s: seq<Slot>)
    ensures |Letters(s)| <= |s|
  {
    if s != [] {
      LettersSize(s[..|s| - 1]);
      LettersLast(s);
    }
  }

  lemma {:induction false} NoLetters(s: seq<Slot>)
    requires forall i :: 0 <= i < |s| ==> !Used(s[i])
    ensures Letters(s) == multiset{}
  {
    if s != [] {
      NoLetters(s[..|s| - 1]);
    }
  }

  // ---------- mailboxes ----------

  /** All mails in a mailbox. */
  ghost function Held(b: Box): multiset<Letter> {
    Letters(b.sys) + Letters(b.usr)
  }

  /** Each count is the number of mails in its array; a slot is either used or open, and what
      is used was posted. */
  ghost predicate BoxOk(b: Box) {
    && |b.sys| == NR_SYS_MAILS && |b.usr| == NR_USR_MAILS
    && b.sysCnt == |Letters(b.sys)| && b.usrCnt == |Letters(b.usr)|
    && (forall i :: 0 <= i < |b.sys| ==> SlotOk(b.sys[i]))
    && (forall i :: 0 <= i < |b.usr| ==> SlotOk(b.usr[i]))
  }

  predicate SlotOk(m: Slot) {
    m.locked == m.validate && (Used(m) ==> m.letter.kind == M_WAY_POST)
  }

  /** The slots of one level. */
  function Slots(b: Box, sys: bool): seq<Slot> {
    if sys then b.sys else b.usr
  }

  /** The mailbox with slot i of a level, and the level's count, changed. */
  function Set(b: Box, sys: bool, i: nat, m: Slot, d: int): Box
    requires i < |Slots(b, sys)|
  {
    if sys then b.(sys := b.sys[i := m], sysCnt := b.sysCnt + d) else b.(usr := b.usr[i := m], usrCnt := b.usrCnt + d)
  }

  lemma BoxBounds(b: Box)
    requires BoxOk(b)
    ensures 0 <= b.sysCnt <= NR_SYS_MAILS && 0 <= b.usrCnt <= NR_USR_MAILS
  {
    LettersSize(b.sys);
    LettersSize(b.usr);
  }

  lemma HeldAre(b: Box, l: Letter)
    ensures l in Held(b) <==> exists sys, i :: 0 <= i < |Slots(b, sys)| && Used(Slots(b, sys)[i]) && Slots(b, sys)[i].letter == l
  {
    LettersAre(b.sys, l);
    LettersAre(b.usr, l);
    if i :| 0 <= i < |b.sys| && Used(b.sys[i]) && b.sys[i].letter == l {
      assert Used(Slots(b, true)[i]);
    }
    if i :| 0 <= i < |b.usr| && Used(b.usr[i]) && b.usr[i].letter == l {
      assert Used(Slots(b, false)[i]);
    }
  }

  lemma SetLevel(s: seq<Slot>, i: nat, m: Slot)
    requires i < |s|
    ensures Used(s[i]) && !Used(m) ==>
      Letters(s) == Letters(s[i := m]) + multiset{s[i].letter} && |Letters(s)| == |Letters(s[i := m])| + 1
    ensures !Used(s[i]) && Used(m) ==>
      Letters(s[i := m]) == Letters(s) + multiset{m.letter} && |Letters(s[i := m])| == |Letters(s)| + 1
  {
    LettersSet(s, i, m);
    hide Letters;
    if Used(s[i]) && !Used(m) {
      assert |Letters(s[i := m]) + multiset{s[i].letter}| == |Letters(s[i := m])| + 1;
    } else if !Used(s[i]) && Used(m) {
      assert |Letters(s) + multiset{m.letter}| == |Letters(s)| + 1;
    }
  }

  /** Filling an open slot adds its mail to the mailbox. */
  lemma FillBox(b: Box, sys: bool, i: nat, m: Slot)
    requires BoxOk(b) && i < |Slots(b, sys)| && Open(Slots(b, sys)[i]) && Used(m) && SlotOk(m)
    ensures BoxOk(Set(b, sys, i, m, 1)) && Held(Set(b, sys, i, m, 1)) == Held(b) + multiset{m.letter}
  {
    hide Letters;
    SetLevel(Slots(b, sys), i, m);
  }

  /** Opening a used slot takes its mail, and only that, out of the mailbox. */
  lemma EmptyBox(b: Box, sys: bool, i: nat, m: Slot)
    requires BoxOk(b) && i < |Slots(b, sys)| && Used(Slots(b, sys)[i]) && Open(m)
    ensures BoxOk(Set(b, sys, i, m, -1))
    ensures Held(b) == Held(Set(b, sys, i, m, -1)) + multiset{Slots(b, sys)[i].letter}
  {
    hide Letters;
    SetLevel(Slots(b, sys), i, m);
  }

  // ---------- what a thread asks for ----------

  /** The flags and the message of a pick. */
  datatype Filter = Filter(flags: bv8, msg: nat)

  predicate LooksAtPosts(flags: bv8) {
    MSG_PST == (MSG_PST & flags) || flags == MSG_ANY
  }

  predicate TakesAny(flags: bv8) {
    (flags & MSG_ANY) == MSG_ANY
  }

  /** The mails that answer a pick by thread t. */
  predicate Answers(l: Letter, t: Pos, f: Filter) {
    LooksAtPosts(f.flags) && l.dest == t && (TakesAny(f.flags) || l.msg == f.msg)
  }

  /** Slot m holds a mail that answers. */
  predicate Hit(m: Slot, t: Pos, f: Filter) {
    Used(m) && Answers(m.letter, t, f)
  }

  predicate NoHit(s: seq<Slot>, n: nat, t: Pos, f: Filter)
    requires n <= |s|
  {
    forall k :: 0 <= k < n ==> !Hit(s[k], t, f)
  }

  /** No mail in the mailbox answers. */
  ghost predicate NoneFor(b: Box, t: Pos, f: Filter) {
    forall l :: l in Held(b) ==> !Answers(l, t, f)
  }

  lemma NoHitsNone(b: Box, t: Pos, f: Filter)
    ensures NoneFor(b, t, f) <==> NoHit(b.sys, |b.sys|, t, f) && NoHit(b.usr, |b.usr|, t, f)
  {
    forall l | l in Held(b)
      ensures exists sys, i :: 0 <= i < |Slots(b, sys)| && Used(Slots(b, sys)[i]) && Slots(b, sys)[i].letter == l
    {
      HeldAre(b, l);
    }
    forall sys, i | 0 <= i < |Slots(b, sys)| && Used(Slots(b, sys)[i])
      ensures Slots(b, sys)[i].letter in Held(b)
    {
      HeldAre(b, Slots(b, sys)[i].letter);
    }
    if NoneFor(b, t, f) {
      forall k | 0 <= k < |b.sys|
        ensures !Hit(b.sys[k], t, f)
      {
        assert Slots(b, true)[k] == b.sys[k];
      }
      forall k | 0 <= k < |b.usr|
        ensures !Hit(b.usr[k], t, f)
      {
        assert Slots(b, false)[k] == b.usr[k];
      }
    }
  }

  /** After a search of a level, the mail found: the first that answers, system mail first. */
  ghost predicate Found(b: Box, sys: bool, i: nat, t: Pos, f: Filter) {
    && i < |Slots(b, sys)| && Hit(Slots(b, sys)[i], t, f) && NoHit(Slots(b, sys), i, t, f)
    && (!sys ==> NoHit(b.sys, |b.sys|, t, f))
  }

  /** The inner loop of find_mb_mail (ipc/msgcall.c:89-104): counting the mails seen, it stops
      when there can be no more, and still finds the first that answers. */
  method FindInLevel(s: seq<Slot>, count: int, t: Pos, f: Filter) returns (r: int)
    requires count == |Letters(s)| && LooksAtPosts(f.flags)
    requires forall k :: 0 <= k < |s| ==> s[k].locked == s[k].validate
    ensures r == -1 ==> NoHit(s, |s|, t, f)
    ensures r != -1 ==> 0 <= r < |s| && Hit(s[r], t, f) && NoHit(s, r, t, f)
    ensures r != -1 ==> s[r].locked && s[r].validate && s[r].letter.dest == t
    ensures r != -1 ==> (f.flags & 1 == 1 || s[r].letter.msg == f.msg)
    ensures forall k :: 0 <= k < (if r == -1 then |s| else r) && s[k].locked && s[k].validate && s[k].letter.dest == t ==>
      f.flags & 1 == 0 && s[k].letter.msg != f.msg
  {
    hide Letters;
    var i, cnt := 0, count;
    LettersMost(s, 0);
    while i < |s| && cnt > 0
      invariant 0 <= i <= |s| && cnt + |Letters(s[..i])| == count
      invariant NoHit(s, i, t, f)
    {
      LettersNext(s, i);
      if s[i].locked && s[i].validate {
        cnt := cnt - 1;
        if s[i].letter.dest.p == t.p && s[i].letter.dest.t == t.t {
          if (f.flags & MSG_ANY) == MSG_ANY {
            return i;
          } else if s[i].letter.msg == f.msg {
            return i;
          }
        }
      }
      i := i + 1;
    }
    LettersMost(s, i);
    if i < |s| {
      LettersRest(s, i);
    }
    return -1;
  }

  /** find_mb_mail (ipc/msgcall.c:58-108) in a mailbox: system mail first. */
  method FindMail(b: Box, t: Pos, f: Filter) returns (sys: bool, i: int)
    requires BoxOk(b)
    ensures i == -1 <==> NoneFor(b, t, f)
    ensures i != -1 ==> i >= 0 && Found(b, sys, i, t, f)
    ensures i != -1 ==> f.flags & 4 == 4 || f.flags == 1
    ensures i != -1 ==> var l := Slots(b, sys)[i].letter; l.dest == t && (f.flags & 1 == 1 || l.msg == f.msg)
  {
    hide Letters, Held;
    NoHitsNone(b, t, f);
    sys, i := true, -1;
    if MSG_PST == (MSG_PST & f.flags) || f.flags == MSG_ANY {
      i := FindInLevel(b.sys, b.sysCnt, t, f);
      if i == -1 {
        sys := false;
        i := FindInLevel(b.usr, b.usrCnt, t, f);
      }
    }
  }

  predicate Full(s: seq<Slot>) {
    forall k :: 0 <= k < |s| ==> !Open(s[k])
  }

  predicate FirstOpen(s: seq<Slot>, i: nat) {
    i < |s| && Open(s[i]) && forall k :: 0 <= k < i ==> !Open(s[k])
  }

  /** find_empty_mail_slot for a post (ipc/msgcall.c:41-44): the first open slot. */
  method FindEmpty(s: seq<Slot>) returns (r: int)
    ensures r == -1 <==> Full(s)
    ensures r != -1 ==> r >= 0 && FirstOpen(s, r)
  {
    var i := 0;
    while i < |s|
      invariant 0 <= i <= |s| && forall k :: 0 <= k < i ==> !Open(s[k])
    {
      if !s[i].locked && !s[i].validate {
        return i;
      }
      i := i + 1;
    }
    return -1;
  }

  // ---------- the state, and what every step keeps ----------

  /** Mailboxes, thread counts and thread states; and for the proof, the last pick of every
      thread, and per mailbox all mails ever posted to it and picked from it. */
  datatype Office = Office(box: map<nat, Box>, threadNr: map<nat, nat>, state: map<Pos, nat>,
    wants: map<Pos, Filter>, posted: map<nat, multiset<Letter>>, picked: map<nat, multiset<Letter>>)

  /** Mailbox p: its counts are right; every mail posted to it was picked once or is still in it,
      and no mail came from anywhere else; its mails are addressed to its process. */
  ghost predicate BoxKept(o: Office, p: nat) {
    && p in o.box && BoxOk(o.box[p])
    && p in o.posted && p in o.picked && o.posted[p] == o.picked[p] + Held(o.box[p])
    && (forall l :: l in Held(o.box[p]) ==> l.dest.p == p && l.src in o.state)
  }

  /** Thread t does not wait while a mail that answers its last pick is in its mailbox. */
  ghost predicate Awake(o: Office, t: Pos) {
    t in o.state && o.state[t] == TS_RECVING && t.p in o.box ==>
      t in o.wants && NoneFor(o.box[t.p], t, o.wants[t])
  }

  ghost predicate Ok(o: Office) {
    && (forall p :: p in o.threadNr && p != 0 ==> p in o.box)
    && (forall p :: p in o.box ==> BoxKept(o, p))
    && (forall t: Pos :: t.p in o.threadNr && t.t < o.threadNr[t.p] ==> t in o.state)
    && (forall t :: Awake(o, t))
  }

  /** The office after letter m.letter was put into slot i, its receiver woken. */
  ghost function PostedAt(o: Office, sys: bool, i: nat, m: Slot): Office
    requires m.letter.dest.p in o.box && i < |Slots(o.box[m.letter.dest.p], sys)| && m.letter.dest.p in o.posted
  {
    var d := m.letter.dest;
    o.(box := o.box[d.p := Set(o.box[d.p], sys, i, m, 1)],
       state := if d in o.state && o.state[d] == TS_RECVING then o.state[d := TS_RUNNING] else o.state,
       posted := o.posted[d.p := o.posted[d.p] + multiset{m.letter}])
  }

  /** The office after the mail in slot i of mailbox p was picked, its sender woken. */
  ghost function PickedAt(o: Office, p: nat, sys: bool, i: nat): Office
    requires p in o.box && i < |Slots(o.box[p], sys)| && p in o.picked
  {
    var m := Slots(o.box[p], sys)[i];
    var src := m.letter.src;
    o.(box := o.box[p := Set(o.box[p], sys, i, m.(locked := false, validate := false), -1)],
       state := if src in o.state && o.state[src] == TS_SENDING then o.state[src := TS_RUNNING] else o.state,
       picked := o.picked[p := o.picked[p] + multiset{m.letter}])
  }

  lemma PostedOk(o: Office, sys: bool, i: nat, m: Slot)
    requires Ok(o) && m.letter.dest.p in o.box && m.letter.dest in o.state && m.letter.src in o.state
    requires i < |Slots(o.box[m.letter.dest.p], sys)| && Open(Slots(o.box[m.letter.dest.p], sys)[i]) && Used(m)
    requires SlotOk(m)
    requires BoxKept(o, m.letter.dest.p)
    ensures Ok(PostedAt(o, sys, i, m))
  {
    hide Held, BoxOk, Slots, Set, Used, Open, SlotOk, Answers, Awake, BoxKept;
    PickedIn(o, m.letter.dest.p);
    var d, o' := m.letter.dest, PostedAt(o, sys, i, m);
    var b, b' := o.box[d.p], Set(o.box[d.p], sys, i, m, 1);
    FillBox(b, sys, i, m);
    forall p | p in o'.box
      ensures BoxKept(o', p)
    {
      PostedBox(o, m.letter, b', p, o');
    }
    forall t | true
      ensures Awake(o', t)
    {
      PostedAwake(o, m.letter, b', t, o');
    }
  }

  /** A mail for another thread answers no pick by t. */
  lemma NoneForMore(b: Box, b': Box, l: Letter, t: Pos, f: Filter)
    requires NoneFor(b, t, f) && Held(b') == Held(b) + multiset{l} && l.dest != t
    ensures NoneFor(b', t, f)
  {
    hide Held;
  }

  lemma PostedBox(o: Office, l: Letter, b': Box, p: nat, o': Office)
    requires p in o.box && BoxKept(o, p) && l.src in o.state
    requires l.dest.p in o.box && BoxKept(o, l.dest.p) && BoxOk(b') && Held(b') == Held(o.box[l.dest.p]) + multiset{l}
    requires o'.box == o.box[l.dest.p := b'] && o'.picked == o.picked && o'.state.Keys == o.state.Keys
    requires o'.posted == o.posted[l.dest.p := o.posted[l.dest.p] + multiset{l}]
    ensures BoxKept(o', p)
  {
    hide Held, BoxOk;
  }

  /** A mail for d wakes d, and answers no other thread. */
  lemma PostedAwake(o: Office, l: Letter, b': Box, t: Pos, o': Office)
    requires Awake(o, t) && l.dest in o.state && l.dest.p in o.box && Held(b') == Held(o.box[l.dest.p]) + multiset{l}
    requires o'.box == o.box[l.dest.p := b'] && o'.wants == o.wants
    requires o'.state == if o.state[l.dest] == TS_RECVING then o.state[l.dest := TS_RUNNING] else o.state
    ensures Awake(o', t)
  {
    hide Held, Answers, NoneFor;
    if t in o'.state && o'.state[t] == TS_RECVING && t.p == l.dest.p {
      NoneForMore(o.box[t.p], b', l, t, o.wants[t]);
    }
  }

  lemma PickedOk(o: Office, p: nat, sys: bool, i: nat)
    requires Ok(o) && p in o.box && i < |Slots(o.box[p], sys)| && Used(Slots(o.box[p], sys)[i]) && BoxKept(o, p)
    ensures Ok(PickedAt(o, p, sys, i))
  {
    var m := Slots(o.box[p], sys)[i];
    var m' := m.(locked := false, validate := false);
    assert Open(m');
    EmptyBox(o.box[p], sys, i, m');
    PickedKeeps(o, p, sys, i);
  }

  lemma PickedKeeps(o: Office, p: nat, sys: bool, i: nat)
    requires Ok(o) && p in o.box && i < |Slots(o.box[p], sys)| && BoxKept(o, p)
    requires var m := Slots(o.box[p], sys)[i]; var b := Set(o.box[p], sys, i, m.(locked := false, validate := false), -1);
      BoxOk(b) && Held(o.box[p]) == Held(b) + multiset{m.letter}
    ensures Ok(PickedAt(o, p, sys, i))
  {
    hide Held, BoxOk, Slots, Set, Used, Open, SlotOk, Answers, Awake, BoxKept;
    PickedIn(o, p);
    var m := Slots(o.box[p], sys)[i];
    var b' := Set(o.box[p], sys, i, m.(locked := false, validate := false), -1);
    var o' := PickedAt(o, p, sys, i);
    forall q | q in o'.box
      ensures BoxKept(o', q)
    {
      PickedBox(o, p, m.letter, b', q, o');
    }
    forall t | true
      ensures Awake(o', t)
    {
      PickedAwake(o, p, m.letter, b', t, o');
    }
  }

  lemma PickedIn(o: Office, p: nat)
    requires BoxKept(o, p)
    ensures p in o.box && p in o.picked && p in o.posted && BoxOk(o.box[p])
  {
  }

  lemma PickedBox(o: Office, p: nat, l: Letter, b': Box, q: nat, o': Office)
    requires q in o.box && BoxKept(o, q) && BoxKept(o, p) && BoxOk(b') && Held(o.box[p]) == Held(b') + multiset{l}
    requires o'.box == o.box[p := b'] && o'.posted == o.posted && o'.state.Keys == o.state.Keys
    requires o'.picked == o.picked[p := o.picked[p] + multiset{l}]
    ensures BoxKept(o', q)
  {
    hide Held, BoxOk;
  }

  /** With a mail gone, nothing answers that did not before. */
  lemma PickedAwake(o: Office, p: nat, l: Letter, b': Box, t: Pos, o': Office)
    requires Awake(o, t) && p in o.box && Held(o.box[p]) == Held(b') + multiset{l}
    requires o'.box == o.box[p := b'] && o'.wants == o.wants && o'.state.Keys == o.state.Keys
    requires o'.state == o.state || (l.src in o.state && o'.state == o.state[l.src := TS_RUNNING])
    ensures Awake(o', t)
  {
    hide Held, Answers, NoneFor;
    if t in o'.state && o'.state[t] == TS_RECVING && t.p == p {
      NoneForLess(o.box[p], b', l, t, o.wants[t]);
    }
  }

  lemma NoneForLess(b: Box, b': Box, l: Letter, t: Pos, f: Filter)
    requires NoneFor(b, t, f) && Held(b) == Held(b') + multiset{l}
    ensures NoneFor(b', t, f)
  {
    hide Held;
  }

  /** Thread t goes to sleep on a pick that nothing in its mailbox answers. */
  lemma WaitOk(o: Office, t: Pos, f: Filter)
    requires Ok(o) && t in o.state && t.p in o.box && NoneFor(o.box[t.p], t, f)
    ensures Ok(o.(state := o.state[t := TS_RECVING], wants := o.wants[t := f]))
  {
    hide Held, BoxOk, Answers, NoneFor;
    var o' := o.(state := o.state[t := TS_RECVING], wants := o.wants[t := f]);
    KeptBoxes(o, o');
    forall u | true
      ensures Awake(o', u)
    {
      assert Awake(o, u);
    }
  }

  /** Any other change of a thread's state. */
  lemma StateOk(o: Office, t: Pos, st: nat)
    requires Ok(o) && t in o.state && st != TS_RECVING
    ensures Ok(o.(state := o.state[t := st]))
  {
    hide Held, BoxOk, Answers, NoneFor;
    var o' := o.(state := o.state[t := st]);
    KeptBoxes(o, o');
    forall u | true
      ensures Awake(o', u)
    {
      assert Awake(o, u);
    }
  }

  lemma KeptBoxes(o: Office, o': Office)
    requires Ok(o) && o'.box == o.box && o'.posted == o.posted && o'.picked == o.picked && o'.state.Keys == o.state.Keys
    ensures forall p :: p in o'.box ==> BoxKept(o', p)
  {
    forall p | p in o'.box
      ensures BoxKept(o', p)
    {
      assert BoxKept(o, p);
    }
  }

  /** With MSG_ANY and MSG_PST a thread takes any mail addressed to it, so a thread that waits
      after such a pick has no mail at all in its mailbox. */
  lemma NoLostWakeUp(o: Office, t: Pos, l: Letter)
    requires Ok(o) && t in o.state && o.state[t] == TS_RECVING && t.p in o.box
    requires t in o.wants ==> o.wants[t].flags == MSG_ANY | MSG_PST
    requires l in Held(o.box[t.p])
    ensures l.dest != t
  {
    assert Awake(o, t);
    assert LooksAtPosts(MSG_ANY | MSG_PST) && TakesAny(MSG_ANY | MSG_PST);
  }

  // ---------- posting and picking ----------

  /** The posts by thread t that are refused (ipc/post.c:16-47). */
  predicate Refused(o: Office, t: Pos, pmail: Option<Letter>) {
    pmail.None? ||
    var d := pmail.value.dest;
    d.p == 0 || d.p !in o.threadNr || d.t >= o.threadNr[d.p] || d == t || d == Pos(TTY, 1)
  }

  /** The slots a mail can go to. */
  function SlotsFor(o: Office, l: Letter): seq<Slot>
    requires l.dest.p in o.box
  {
    Slots(o.box[l.dest.p], l.level == MPL_SYS)
  }

  /** What thread t's post of l, not refused, makes of the office: with all slots of the level
      in use nothing is deposited and t stops; else the first open slot is filled with the mail
      as given, from t, and the receiver is woken if it waits for mail. */
  ghost predicate Posted(o: Office, t: Pos, now: nat, l: Letter, r: int, o': Office) {
    && l.dest.p in o.box && l.dest.p in o.posted
    && if Full(SlotsFor(o, l)) then r == -1 && o' == o.(state := o.state[t := TS_FULL_WAIT])
      else r == 0 && exists i: nat :: (FirstOpen(SlotsFor(o, l), i) &&
        o' == PostedAt(o, l.level == MPL_SYS, i, Slot(true, true, l.(src := t, kind := M_WAY_POST), now)))
  }

  /** What thread t's pick makes of the office: if a mail answers, the first that does, system
      mail before user mail, is handed out as it was posted, and its sender is woken if it waits
      for that; if none does, t goes to sleep until mail is posted to it. */
  ghost predicate Picked(o: Office, t: Pos, f: Filter, r: int, out: Option<Letter>, o': Office) {
    && t.p in o.box && t.p in o.picked
    && if NoneFor(o.box[t.p], t, f)
      then r == -1 && out == None && o' == o.(state := o.state[t := TS_RECVING], wants := o.wants[t := f])
      else r == 0 && exists sys, i: nat :: (Found(o.box[t.p], sys, i, t, f) &&
        out == Some(Slots(o.box[t.p], sys)[i].letter) && o' == PickedAt(o, t.p, sys, i))
  }

  /** So a post fails exactly if no slot of its level is open, and then the sender waits; else slot i,
      the first open one of the level, has the mail, stamped with the sender and the time. */
  lemma PostedMeans(o: Office, t: Pos, now: nat, l: Letter, r: int, o': Office) returns (i: nat)
    requires Posted(o, t, now, l, r, o') && o.box[l.dest.p].sys != [] && o.box[l.dest.p].usr != []
    ensures r == 0 || r == -1
    ensures var s := if l.level == 0 then o.box[l.dest.p].sys else o.box[l.dest.p].usr;
      && i < |s|
      && (r == -1 <==> forall k :: 0 <= k < |s| ==> s[k].locked || s[k].validate)
      && (r == 0 ==> !s[i].locked && !s[i].validate && forall k :: 0 <= k < i ==> s[k].locked || s[k].validate)
    ensures r == -1 ==> o' == o.(state := o.state[t := TS_FULL_WAIT])
    ensures r == 0 ==>
      var b, m := o.box[l.dest.p], Slot(true, true, l.(src := t, kind := 0), now);
      o'.box == o.box[l.dest.p :=
        if l.level == 0 then b.(sys := b.sys[i := m], sysCnt := b.sysCnt + 1) else b.(usr := b.usr[i := m], usrCnt := b.usrCnt + 1)]
    ensures r == 0 && l.dest in o.state ==>
      o'.state == if o.state[l.dest] == TS_RECVING then o.state[l.dest := TS_RUNNING] else o.state
  {
    i := 0;
    if r == 0 {
      i :| FirstOpen(SlotsFor(o, l), i) &&
        o' == PostedAt(o, l.level == MPL_SYS, i, Slot(true, true, l.(src := t, kind := M_WAY_POST), now));
    }
  }

  /** And a pick fails exactly if no mail in the mailbox is for the thread and, unless it takes any,
      has the message asked for; else slot i, the first such of the system slots or, without one
      there, of the user slots, is opened and its mail handed out. */
  lemma PickedMeans(o: Office, t: Pos, f: Filter, r: int, out: Option<Letter>, o': Office) returns (sys: bool, i: nat)
    requires Picked(o, t, f, r, out, o')
    ensures r == 0 || r == -1
    ensures r == 0 ==> f.flags & 4 == 4 || f.flags == 1
    ensures r == -1 && (f.flags & 4 == 4 || f.flags == 1) ==>
      forall l :: l in Held(o.box[t.p]) && l.dest == t ==> f.flags & 1 == 0 && l.msg != f.msg
    ensures r == -1 ==> out == None && o'.box == o.box && o'.state == o.state[t := TS_RECVING]
    ensures r == 0 ==> (sys ==> i < |o.box[t.p].sys|) && (!sys ==> i < |o.box[t.p].usr|)
    ensures r == 0 ==>
      var b := o.box[t.p];
      var m := if sys then b.sys[i] else b.usr[i];
      && m.locked && m.validate && m.letter.dest == t && (f.flags & 1 == 1 || m.letter.msg == f.msg) && out == Some(m.letter)
      && o'.box == o.box[t.p := if sys then b.(sys := b.sys[i := m.(locked := false, validate := false)], sysCnt := b.sysCnt - 1)
                                else b.(usr := b.usr[i := m.(locked := false, validate := false)], usrCnt := b.usrCnt - 1)]
      && (m.letter.src in o.state ==>
          o'.state == if o.state[m.letter.src] == TS_SENDING then o.state[m.letter.src := TS_RUNNING] else o.state)
    ensures r == 0 && !sys ==> forall k :: 0 <= k < |o.box[t.p].sys| ==> !Hit(o.box[t.p].sys[k], t, f)
  {
    sys, i := true, 0;
    AnswersIs(f);
    if r == 0 {
      hide NoneFor, Held;
      sys, i :| Found(o.box[t.p], sys, i, t, f) &&
        out == Some(Slots(o.box[t.p], sys)[i].letter) && o' == PickedAt(o, t.p, sys, i);
    }
  }

  lemma AnswersIs(f: Filter)
    ensures forall l, t :: Answers(l, t, f) <==>
      (f.flags & 4 == 4 || f.flags == 1) && l.dest == t && (f.flags & 1 == 1 || l.msg == f.msg)
  {
  }

  // ---------- runs ----------

  /** What happens: thread t posts l, picks, or has its state set by the rest of the kernel. */
  datatype Event = Post(t: Pos, now: nat, l: Option<Letter>) | Pick(t: Pos, f: Filter) | SetTo(t: Pos, st: nat)

  ghost predicate Step(o: Office, e: Event, o': Office) {
    e.t in o.state &&
    match e
    case Post(t, now, l) => if Refused(o, t, l) then o' == o else exists r :: Posted(o, t, now, l.value, r, o')
    case Pick(t, f) => exists r, out :: Picked(o, t, f, r, out, o')
    case SetTo(t, st) => st != TS_RECVING && o' == o.(state := o.state[t := st])
  }

  /** os are the states of a run of the given events. */
  ghost predicate Run(os: seq<Office>, es: seq<Event>) {
    |os| == |es| + 1 && Ok(os[0]) && forall k :: 0 <= k < |es| ==> Step(os[k], es[k], os[k + 1])
  }

  /** Every step keeps the office in order. */
  lemma StepOk(o: Office, e: Event, o': Office)
    requires Ok(o) && Step(o, e, o')
    ensures Ok(o') && o'.state.Keys == o.state.Keys && o'.box.Keys == o.box.Keys && o'.threadNr == o.threadNr
  {
    match e
    case Post(t, now, l) =>
      if !Refused(o, t, l) {
        PostOk(o, t, now, l.value, o');
      }
    case Pick(t, f) =>
      PickOk(o, t, f, o');
    case SetTo(t, st) =>
      hide Ok;
      StateOk(o, t, st);
  }

  lemma PostOk(o: Office, t: Pos, now: nat, l: Letter, o': Office)
    requires Ok(o) && t in o.state && !Refused(o, t, Some(l)) && exists r :: Posted(o, t, now, l, r, o')
    ensures Ok(o') && o'.state.Keys == o.state.Keys && o'.box.Keys == o.box.Keys && o'.threadNr == o.threadNr
  {
    hide Held, BoxOk, Slots, Set, Answers, Awake, Ok, BoxKept, Full, Refused, Open, Used, SlotOk;
    var r :| Posted(o, t, now, l, r, o');
    PostDest(o, t, l);
    if Full(SlotsFor(o, l)) {
      StateOk(o, t, TS_FULL_WAIT);
    } else {
      var i, m := PostedSlot(o, t, now, l, r, o');
      PostedOk(o, l.level == MPL_SYS, i, m);
    }
  }

  lemma PostDest(o: Office, t: Pos, l: Letter)
    requires Ok(o) && !Refused(o, t, Some(l))
    ensures l.dest in o.state && l.dest.p in o.box && BoxKept(o, l.dest.p) && l.dest.p in o.posted
  {
    hide Held, BoxOk, Awake;
  }

  lemma PostedSlot(o: Office, t: Pos, now: nat, l: Letter, r: int, o': Office) returns (i: nat, m: Slot)
    requires Posted(o, t, now, l, r, o') && !Full(SlotsFor(o, l))
    ensures m == Slot(true, true, l.(src := t, kind := M_WAY_POST), now) && Used(m) && SlotOk(m)
    ensures i < |SlotsFor(o, l)| && Open(SlotsFor(o, l)[i]) && o' == PostedAt(o, l.level == MPL_SYS, i, m)
  {
    m := Slot(true, true, l.(src := t, kind := M_WAY_POST), now);
    i :| FirstOpen(SlotsFor(o, l), i) && o' == PostedAt(o, l.level == MPL_SYS, i, m);
  }

  lemma PickOk(o: Office, t: Pos, f: Filter, o': Office)
    requires Ok(o) && t in o.state && exists r, out :: Picked(o, t, f, r, out, o')
    ensures Ok(o') && o'.state.Keys == o.state.Keys && o'.box.Keys == o.box.Keys && o'.threadNr == o.threadNr
  {
    hide Held, BoxOk, Slots, Set, Answers, Awake, NoneFor, Found, Hit, Ok, BoxKept;
    var r, out :| Picked(o, t, f, r, out, o');
    BoxesKept(o, t.p);
    PickedIn(o, t.p);
    if NoneFor(o.box[t.p], t, f) {
      WaitOk(o, t, f);
    } else {
      var sys, i := PickedSlot(o, t, f, r, out, o');
      PickedOk(o, t.p, sys, i);
    }
  }

  lemma PickedSlot(o: Office, t: Pos, f: Filter, r: int, out: Option<Letter>, o': Office) returns (sys: bool, i: nat)
    requires Picked(o, t, f, r, out, o') && !NoneFor(o.box[t.p], t, f)
    ensures i < |Slots(o.box[t.p], sys)| && Used(Slots(o.box[t.p], sys)[i])
    ensures Slots(o.box[t.p], sys)[i].letter.dest == t
    ensures o' == PickedAt(o, t.p, sys, i)
  {
    hide NoneFor;
    sys, i :| Found(o.box[t.p], sys, i, t, f) &&
      out == Some(Slots(o.box[t.p], sys)[i].letter) && o' == PickedAt(o, t.p, sys, i);
  }

  lemma BoxesKept(o: Office, p: nat)
    requires Ok(o) && p in o.box
    ensures BoxKept(o, p)
  {
  }

  /** A thread that runs goes on running, and mail for it stays in its mailbox, while it does
      nothing itself and nobody sets its state. */
  lemma StepKeeps(o: Office, e: Event, o': Office, d: Pos, x: Letter)
    requires Ok(o) && Step(o, e, o') && e.t != d && d in o.state && x.dest == d
    ensures d in o'.state && (o.state[d] == TS_RUNNING ==> o'.state[d] == TS_RUNNING)
    ensures d.p in o.box && x in Held(o.box[d.p]) ==> d.p in o'.box && x in Held(o'.box[d.p])
  {
    match e
    case Post(t, now, l) =>
      if !Refused(o, t, l) {
        PostKeeps(o, t, now, l.value, o', d, x);
      }
    case Pick(t, f) =>
      PickKeeps(o, t, f, o', d, x);
    case SetTo(t, st) =>
  }

  lemma PostKeeps(o: Office, t: Pos, now: nat, l: Letter, o': Office, d: Pos, x: Letter)
    requires Ok(o) && t in o.state && t != d && d in o.state && x.dest == d
    requires !Refused(o, t, Some(l)) && exists r :: Posted(o, t, now, l, r, o')
    ensures d in o'.state && (o.state[d] == TS_RUNNING ==> o'.state[d] == TS_RUNNING)
    ensures d.p in o.box && x in Held(o.box[d.p]) ==> d.p in o'.box && x in Held(o'.box[d.p])
  {
    hide Held, BoxOk, Slots, Set, Answers, Awake, Ok, BoxKept, Full, Refused, Open, Used, SlotOk;
    var r :| Posted(o, t, now, l, r, o');
    PostDest(o, t, l);
    if !Full(SlotsFor(o, l)) {
      var i, m := PostedSlot(o, t, now, l, r, o');
      PickedIn(o, l.dest.p);
      FillBox(o.box[l.dest.p], l.level == MPL_SYS, i, m);
    }
  }

  lemma PickKeeps(o: Office, t: Pos, f: Filter, o': Office, d: Pos, x: Letter)
    requires Ok(o) && t in o.state && t != d && d in o.state && x.dest == d
    requires exists r, out :: Picked(o, t, f, r, out, o')
    ensures d in o'.state && (o.state[d] == TS_RUNNING ==> o'.state[d] == TS_RUNNING)
    ensures d.p in o.box && x in Held(o.box[d.p]) ==> d.p in o'.box && x in Held(o'.box[d.p])
  {
    hide Held, BoxOk, Slots, Set, Awake, NoneFor, Found, Hit, Used, Answers, Ok;
    var r, out :| Picked(o, t, f, r, out, o');
    BoxesKept(o, t.p);
    PickedIn(o, t.p);
    if !NoneFor(o.box[t.p], t, f) {
      var sys, i := PickedSlot(o, t, f, r, out, o');
      var m := Slots(o.box[t.p], sys)[i];
      EmptyBox(o.box[t.p], sys, i, m.(locked := false, validate := false));
    }
  }

  /** Thread d does nothing from event k to event n, and nobody sets its state. */
  predicate Quiet(es: seq<Event>, k: nat, n: nat, d: Pos) {
    forall j :: k <= j < n && j < |es| ==> es[j].t != d
  }

  lemma {:induction false} RunOk(os: seq<Office>, es: seq<Event>, n: nat)
    requires Run(os, es) && n <= |es|
    ensures Ok(os[n]) && os[n].state.Keys == os[0].state.Keys
  {
    hide Ok, Step;
    if n > 0 {
      RunOk(os, es, n - 1);
      assert Step(os[n - 1], es[n - 1], os[n - 1 + 1]);
      StepOk(os[n - 1], es[n - 1], os[n]);
    }
  }

  lemma {:induction false} QuietKeeps(os: seq<Office>, es: seq<Event>, k: nat, n: nat, d: Pos, x: Letter)
    requires Run(os, es) && k <= n <= |es| && Quiet(es, k, n, d) && d in os[k].state && x.dest == d
    ensures d in os[n].state && (os[k].state[d] == TS_RUNNING ==> os[n].state[d] == TS_RUNNING)
    ensures d.p in os[k].box && x in Held(os[k].box[d.p]) ==> d.p in os[n].box && x in Held(os[n].box[d.p])
    decreases n
  {
    hide Ok, Step, Held;
    if k < n {
      QuietKeeps(os, es, k, n - 1, d, x);
      RunOk(os, es, n - 1);
      assert Step(os[n - 1], es[n - 1], os[n - 1 + 1]);
      StepKeeps(os[n - 1], es[n - 1], os[n], d, x);
    }
  }

  /** No mail is lost, and no wake-up, in any run: a letter that was deposited stays in the mailbox
      until its receiver does something or has its state set; a receiver that waited runs from then
      on; and its next pick, of any posted mail or of that message, succeeds. */
  lemma DeliveredInRuns(os: seq<Office>, es: seq<Event>, k: nat, n: nat, t: Pos, now: nat, l: Letter)
    requires Run(os, es) && k < n <= |es| && es[k] == Post(t, now, Some(l))
    requires !Refused(os[k], t, Some(l)) && l.dest.p in os[k].box && !Full(SlotsFor(os[k], l))
    requires Quiet(es, k + 1, n, l.dest)
    ensures l.dest in os[k].state && l.dest in os[n].state
    ensures os[k].state[l.dest] == TS_RECVING || os[k].state[l.dest] == TS_RUNNING ==> os[n].state[l.dest] == TS_RUNNING
    ensures l.dest.p in os[n].box && l.(src := t, kind := M_WAY_POST) in Held(os[n].box[l.dest.p])
    ensures n < |es| && es[n].Pick? && es[n].t == l.dest ==>
      var f := es[n].f; (f.flags & 4 == 4 || f.flags == 1) && (f.flags & 1 == 1 || f.msg == l.msg) ==>
        PickGets(os[n], l.dest, f, os[n + 1])
  {
    hide Ok, PickGets, Held, Posted, Picked, Step, Full, Refused, SlotsFor;
    RunOk(os, es, k);
    RunOk(os, es, n);
    var x := l.(src := t, kind := M_WAY_POST);
    assert Step(os[k], es[k], os[k + 1]);
    StepPost(os[k], t, now, l, os[k + 1]);
    Deposited(os[k], t, now, l, os[k + 1]);
    QuietKeeps(os, es, k + 1, n, l.dest, x);
    if n < |es| && es[n].Pick? && es[n].t == l.dest {
      PickSucceeds(os[n], l.dest, es[n].f, x, os[n + 1]);
    }
  }

  lemma Deposited(o: Office, t: Pos, now: nat, l: Letter, o': Office)
    requires Ok(o) && t in o.state && !Refused(o, t, Some(l)) && l.dest.p in o.box && !Full(SlotsFor(o, l))
    requires exists r :: Posted(o, t, now, l, r, o')
    ensures l.dest in o.state && l.dest in o'.state
    ensures o'.state[l.dest] == if o.state[l.dest] == TS_RECVING then TS_RUNNING else o.state[l.dest]
    ensures l.dest.p in o'.box && l.(src := t, kind := M_WAY_POST) in Held(o'.box[l.dest.p])
  {
    hide Held, BoxOk, Slots, Set, Answers, Awake, Ok, BoxKept, Full, Refused, Open, Used, SlotOk;
    var r :| Posted(o, t, now, l, r, o');
    PostDest(o, t, l);
    var i, m := PostedSlot(o, t, now, l, r, o');
    PickedIn(o, l.dest.p);
    FillBox(o.box[l.dest.p], l.level == MPL_SYS, i, m);
  }

  lemma StepPost(o: Office, t: Pos, now: nat, l: Letter, o': Office)
    requires Step(o, Post(t, now, Some(l)), o') && !Refused(o, t, Some(l))
    ensures t in o.state && exists r :: Posted(o, t, now, l, r, o')
  {
    hide Posted;
  }

  lemma PickSucceeds(o: Office, t: Pos, f: Filter, x: Letter, o': Office)
    requires t.p in o.box && x in Held(o.box[t.p]) && x.dest == t
    ensures (f.flags & 4 == 4 || f.flags == 1) && (f.flags & 1 == 1 || f.msg == x.msg) ==>
      PickGets(o, t, f, o')
  {
    hide Held;
    AnswersIs(f);
  }

  /** The pick that leads to o' does not fail. */
  ghost predicate PickGets(o: Office, t: Pos, f: Filter, o': Office) {
    forall r, out :: Picked(o, t, f, r, out, o') ==> r == 0
  }

  /** The same of a sender that a pick wakes. */
  lemma SenderRuns(os: seq<Office>, es: seq<Event>, k: nat, n: nat, t: Pos, f: Filter, l: Letter)
    requires Run(os, es) && k < n <= |es| && es[k] == Pick(t, f) && Picked(os[k], t, f, 0, Some(l), os[k + 1])
    requires l.src in os[k].state && os[k].state[l.src] == TS_SENDING && Quiet(es, k + 1, n, l.src)
    ensures l.src in os[n].state && os[n].state[l.src] == TS_RUNNING
  {
    var sys, i := PickedMeans(os[k], t, f, 0, Some(l), os[k + 1]);
    QuietKeeps(os, es, k + 1, n, l.src, l.(dest := l.src));
  }

  class PostOffice {
    var box: map<nat, Box>
    var threadNr: map<nat, nat>
    var state: map<Pos, nat>
    var cur: Pos
    var ticks: nat
    ghost var wants: map<Pos, Filter>
    ghost var posted: map<nat, multiset<Letter>>
    ghost var picked: map<nat, multiset<Letter>>

    ghost function Now(): Office
      reads this
    {
      Office(box, threadNr, state, wants, posted, picked)
    }

    ghost predicate Valid()
      reads this
    {
      Ok(Now()) && cur in state
    }

    /** Mailboxes before any mail: their pages hold zeros. */
    constructor (threadNr: map<nat, nat>, state: map<Pos, nat>, cur: Pos)
      requires cur in state && forall t: Pos :: t.p in threadNr && t.t < threadNr[t.p] ==> t in state
      requires forall t :: t in state ==> state[t] != TS_RECVING
      ensures Valid() && this.threadNr == threadNr && this.state == state && this.cur == cur
      ensures forall p :: p in box ==> Held(box[p]) == multiset{} && |box[p].sys| == 31 && |box[p].usr| == 64
    {
      var open := Slot(false, false, Letter(0, 0, 0, 0, Pos(0, 0), Pos(0, 0), 0, 0), 0);
      var empty := Box(0, 0, seq(NR_SYS_MAILS, i => open), seq(NR_USR_MAILS, i => open));
      this.threadNr, this.state, this.cur, this.ticks := threadNr, state, cur, 0;
      box := map p | p in threadNr && p != 0 :: empty;
      wants := map[];
      posted := map p | p in threadNr :: multiset{};
      picked := map p | p in threadNr :: multiset{};
      new;
      NoLetters(empty.sys);
      NoLetters(empty.usr);
    }

    /** sys_postmail (ipc/post.c:13-88). */
    method Post(pmail: Option<Letter>) returns (r: int)
      requires Valid()
      modifies this
      ensures Valid() && cur == old(cur) && ticks == old(ticks)
      ensures old(Refused(Now(), cur, pmail)) ==> r == -1 && Now() == old(Now())
      ensures !old(Refused(Now(), cur, pmail)) ==> Posted(old(Now()), cur, ticks, pmail.value, r, Now())
      ensures r == 0 || r == -1
      ensures r == 0 ==> pmail.Some? && pmail.value.dest in old(state) && pmail.value.dest != cur
      ensures r == 0 ==> var d := pmail.value.dest;
        state == if old(state)[d] == TS_RECVING then old(state)[d := TS_RUNNING] else old(state)
      ensures r == -1 ==> state == old(state) || state == old(state)[cur := TS_FULL_WAIT]
      ensures r == -1 && pmail.Some? ==> var d := pmail.value.dest;
        d.p != 0 && d.p in threadNr && d.t < threadNr[d.p] && d != cur && d != Pos(3, 1) ==> state == old(state)[cur := TS_FULL_WAIT]
      ensures threadNr == old(threadNr)
    {
      hide Letters, Held, BoxOk, Slots, Set, Open, Answers, Awake, NoneFor;
      if pmail.None? {
        return -1;
      }
      var l := pmail.value;
      var d := l.dest;
      if d.p == 0 || d.p !in threadNr || d.t >= threadNr[d.p] {
        return -1;
      }
      if d.p == cur.p && d.t == cur.t {
        return -1;
      }
      if d.p == TTY && d.t == 1 {
        return -1;
      }
      assert BoxKept(Now(), d.p);
      var sys := l.level == MPL_SYS;
      var i := FindEmpty(Slots(box[d.p], sys));
      if i == -1 {
        StateOk(Now(), cur, TS_FULL_WAIT);
        state := state[cur := TS_FULL_WAIT];
        return -1;
      }
      Fill(sys, i, Slot(true, true, l.(src := cur, kind := M_WAY_POST), ticks));
      return 0;
    }

    /** The deposit (ipc/post.c:68-85). */
    method Fill(sys: bool, i: nat, m: Slot)
      requires Valid() && m.letter.dest.p in box && m.letter.dest in state && m.letter.src in state
      requires BoxKept(Now(), m.letter.dest.p) && Used(m) && SlotOk(m)
      requires FirstOpen(Slots(box[m.letter.dest.p], sys), i)
      modifies this
      ensures Valid() && cur == old(cur) && ticks == old(ticks)
      ensures Now() == PostedAt(old(Now()), sys, i, m)
      ensures var d := m.letter.dest;
        state == if old(state)[d] == TS_RECVING then old(state)[d := TS_RUNNING] else old(state)
    {
      hide Letters, Held, BoxOk, Slots, Set, Open, Used, SlotOk, Ok;
      ghost var o := Now();
      var d := m.letter.dest;
      assert FirstOpen(Slots(box[d.p], sys), i) ==> i < |Slots(box[d.p], sys)| && Open(Slots(box[d.p], sys)[i]);
      PostedOk(o, sys, i, m);
      box := box[d.p := Set(box[d.p], sys, i, m, 1)];
      posted := posted[d.p := posted[d.p] + multiset{m.letter}];
      if state[d] == TS_RECVING {
        state := state[d := TS_RUNNING];
      }
    }

    /** sys_pickmail (ipc/pick.c:12-89). */
    method Pick(pmail: Option<nat>, flags: bv8) returns (r: int, out: Option<Letter>)
      requires Valid() && cur.p in box
      modifies this
      ensures Valid() && cur == old(cur) && ticks == old(ticks)
      ensures pmail.None? ==> r == -1 && out.None? && Now() == old(Now())
      ensures pmail.Some? ==> Picked(old(Now()), cur, Filter(flags, pmail.value), r, out, Now())
      ensures r == 0 || r == -1
      ensures r == -1 ==> out.None? && state == if pmail.None? then old(state) else old(state)[cur := TS_RECVING]
      ensures r == 0 ==> pmail.Some? && out.Some? && out.value.src in old(state) && out.value.dest == cur
      ensures r == 0 ==> flags & 1 == 1 || out.value.msg == pmail.value
      ensures r == 0 ==> var src := out.value.src;
        state == if old(state)[src] == TS_SENDING then old(state)[src := TS_RUNNING] else old(state)
      ensures threadNr == old(threadNr)
    {
      hide Letters, Held, BoxOk, Slots, Set, Open, Answers, Awake, NoneFor, Hit, NoHit;
      if pmail.None? {
        return -1, None;
      }
      var f := Filter(flags, pmail.value);
      assert BoxKept(Now(), cur.p);
      var sys, i := FindMail(box[cur.p], cur, f);
      if i == -1 {
        WaitOk(Now(), cur, f);
        state := state[cur := TS_RECVING];
        wants := wants[cur := f];
        return -1, None;
      }
      FoundUsed(box[cur.p], sys, i, cur, f);
      assert i < |Slots(box[cur.p], sys)|;
      var l := TakeOut(sys, i);
      return 0, Some(l);
    }

    /** The hand-out (ipc/pick.c:44-45, 52-83). */
    method TakeOut(sys: bool, i: nat) returns (l: Letter)
      requires Valid() && cur.p in box && BoxKept(Now(), cur.p)
      requires i < |Slots(box[cur.p], sys)| && Used(Slots(box[cur.p], sys)[i])
      requires Slots(box[cur.p], sys)[i].letter in Held(box[cur.p])
      modifies this
      ensures Valid() && cur == old(cur) && ticks == old(ticks)
      ensures l == Slots(old(box)[cur.p], sys)[i].letter && Now() == PickedAt(old(Now()), cur.p, sys, i)
      ensures l.src in old(state) && state == if old(state)[l.src] == TS_SENDING then old(state)[l.src := TS_RUNNING] else old(state)
    {
      hide Letters, Held, BoxOk, Slots, Set, Open, Used, SlotOk, Ok;
      ghost var o := Now();
      var m := Slots(box[cur.p], sys)[i];
      PickedOk(o, cur.p, sys, i);
      box := box[cur.p := Set(box[cur.p], sys, i, m.(locked := false, validate := false), -1)];
      picked := picked[cur.p := picked[cur.p] + multiset{m.letter}];
      if state[m.letter.src] == TS_SENDING {
        state := state[m.letter.src := TS_RUNNING];
      }
      l := m.letter;
    }

    /** The rest of the kernel between two mail calls: another thread runs, time passes. */
    method Dispatch(t: Pos)
      requires Valid() && t in state
      modifies this`cur, this`ticks
      ensures Valid() && cur == t && ticks == old(ticks) + 1
    {
      cur := t;
      ticks := ticks + 1;
    }

    /** The rest of the kernel sets a thread's state; to wait for mail only a pick does. */
    method SetState(t: Pos, st: nat)
      requires Valid() && t in state && st != TS_RECVING
      modifies this`state
      ensures Valid() && state == old(state)[t := st]
    {
      StateOk(Now(), t, st);
      state := state[t := st];
    }
  }

  lemma FoundUsed(b: Box, sys: bool, i: nat, t: Pos, f: Filter)
    requires Found(b, sys, i, t, f)
    ensures i < |Slots(b, sys)| && Used(Slots(b, sys)[i]) && Slots(b, sys)[i].letter in Held(b)
  {
    HeldAre(b, Slots(b, sys)[i].letter);
  }
}
