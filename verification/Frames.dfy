/** Switching between threads and delivering the results of system calls (kernel/sched.c,
    kernel/kernel.asm). All threads of a process share one register frame and one interrupt
    flag; a thread that is not running keeps its registers, its flag and a pending result in
    its own slot. A kernel entry is one step: save, the handler's switches, ret_prc. */
module Frames {
  import opened Basics

  type u32 = x: int | 0 <= x < 0x1_0000_0000

  /** THREAD_REGS: the part of a register frame that is saved per thread. */
  datatype Regs = Regs(edi: u32, esi: u32, ebp: u32, kernelEsp: u32, ebx: u32, edx: u32, ecx: u32, eax: u32,
    retAddr: u32, eip: u32, cs: u32, eflags: u32, esp: u32)

  /** The source of an interrupt (soft_intr): none, hardware, system call. */
  const NO_INTR := 0
  const HARD_INTR := 1
  const SYS_INTR := 2

  /** A thread's slot. */
  datatype Thread = Thread(regs: Regs, softIntr: nat, retVal: u32)

  /** What the threads of a process share: the frame it runs from, and the flag. */
  datatype Proc = Proc(regs: Regs, softIntrFlag: nat)

  datatype State = State(proc: map<nat, Proc>, thread: map<Pos, Thread>, cur: Pos, prev: Pos, switched: bool)

  predicate Valid(s: State) {
    && s.cur in s.thread && s.prev in s.thread
    && (forall t :: t in s.thread ==> t.p in s.proc)
  }

  // ---------- what the kernel's operations do ----------

  /** The registers of thread t: the frame of its process if it is the one running, its slot if not. */
  function RegsOf(s: State, t: Pos): Regs
    requires Valid(s) && t in s.thread
  {
    if t == s.cur then s.proc[t.p].regs else s.thread[t].regs
  }

  /** Where thread t was interrupted from: the flag of its process if it is the one running, its slot if not. */
  function SoftOf(s: State, t: Pos): nat
    requires Valid(s) && t in s.thread
  {
    if t == s.cur then s.proc[t.p].softIntrFlag else s.thread[t].softIntr
  }

  /** save, with the flag that SAVE sets: the thread running was interrupted with registers r. */
  function Saved(s: State, kind: nat, r: Regs): (s': State)
    requires Valid(s)
    ensures Valid(s')
  {
    s.(proc := s.proc[s.cur.p := Proc(r, kind)], switched := false)
  }

  function Switched(s: State, to: Pos): (s': State)
    requires Valid(s) && to in s.thread
    ensures Valid(s')
  {
    if to == s.cur then s
    else
      var from := s.proc[s.cur.p];
      var thread := s.thread[s.cur := s.thread[s.cur].(regs := from.regs, softIntr := from.softIntrFlag)];
      State(s.proc[to.p := Proc(thread[to].regs, thread[to].softIntr)], thread, to, s.cur, true)
  }

  /** ret_prc with the result of the interrupted call. */
  function Returned(s: State, v: u32): (s': State)
    requires Valid(s)
    ensures Valid(s')
  {
    var frame := s.proc[s.cur.p];
    if !s.switched then
      if frame.softIntrFlag == SYS_INTR then s.(proc := s.proc[s.cur.p := frame.(regs := frame.regs.(eax := v))]) else s
    else
      var s1 := if s.thread[s.prev].softIntr == SYS_INTR
        then s.(thread := s.thread[s.prev := s.thread[s.prev].(retVal := v)]) else s;
      if frame.softIntrFlag == SYS_INTR
        then s1.(proc := s1.proc[s.cur.p := frame.(regs := frame.regs.(eax := s1.thread[s.cur].retVal))]) else s1
  }

  function SwitchedAll(s: State, dests: seq<Pos>): (s': State)
    requires Valid(s) && forall d :: d in dests ==> d in s.thread
    ensures Valid(s') && s'.thread.Keys == s.thread.Keys
  {
    if dests == [] then s else Switched(SwitchedAll(s, dests[..|dests| - 1]), dests[|dests| - 1])
  }

  /** One entry into the kernel: the thread running is interrupted with registers r, the handler
      switches to dests one after the other and returns v. */
  datatype Entry = Entry(kind: nat, r: Regs, dests: seq<Pos>, v: u32)

  predicate Possible(s: State, e: Entry) {
    Valid(s) && forall d :: d in e.dests ==> d in s.thread
  }

  /** The state in which ret_prc is called. */
  function Handled(s: State, e: Entry): (h: State)
    requires Possible(s, e)
    ensures Valid(h) && h.thread.Keys == s.thread.Keys
  {
    SwitchedAll(Saved(s, e.kind, e.r), e.dests)
  }

  function Entered(s: State, e: Entry): (s': State)
    requires Possible(s, e)
    ensures Valid(s') && s'.thread.Keys == s.thread.Keys
  {
    Returned(Handled(s, e), e.v)
  }

  // ---------- what it means: every thread has its own registers ----------

  /** With no thread in the kernel: the registers with which thread t goes on when it runs next. */
  function Resumes(s: State, t: Pos): Regs
    requires Valid(s) && t in s.thread
  {
    if t == s.cur then s.proc[t.p].regs
    else if s.thread[t].softIntr == SYS_INTR then s.thread[t].regs.(eax := s.thread[t].retVal)
    else s.thread[t].regs
  }

  /** The registers of all threads. */
  function View(s: State): map<Pos, Regs>
    requires Valid(s)
  {
    map t | t in s.thread :: Resumes(s, t)
  }

  /** What the interrupted thread is to find: the result of its call in eax after a system call,
      its registers as they were after an interrupt. */
  function Due(e: Entry): Regs {
    if e.kind == SYS_INTR then e.r.(eax := e.v) else e.r
  }

  /** switch_to changes no thread's registers and no thread's flag; it only moves them. */
  lemma SwitchKeeps(s: State, to: Pos, t: Pos)
    requires Valid(s) && to in s.thread && t in s.thread
    ensures RegsOf(Switched(s, to), t) == RegsOf(s, t)
    ensures SoftOf(Switched(s, to), t) == SoftOf(s, t)
    ensures Switched(s, to).cur == to
    ensures t in Switched(s, to).thread && Switched(s, to).thread[t].retVal == s.thread[t].retVal
  {
  }

  lemma {:induction false} SwitchesKeep(s: State, dests: seq<Pos>, t: Pos)
    requires Valid(s) && (forall d :: d in dests ==> d in s.thread) && t in s.thread
    ensures var s' := SwitchedAll(s, dests);
      && RegsOf(s', t) == RegsOf(s, t) && SoftOf(s', t) == SoftOf(s, t) && s'.thread[t].retVal == s.thread[t].retVal
  {
    if dests != [] {
      SwitchesKeep(s, dests[..|dests| - 1], t);
      SwitchKeeps(SwitchedAll(s, dests[..|dests| - 1]), dests[|dests| - 1], t);
    }
  }

  /** Whether the handler switched, and the thread it switched away from last. */
  lemma {:induction false} SwitchesEnd(s: State, dests: seq<Pos>)
    requires Valid(s) && (forall d :: d in dests ==> d in s.thread) && !s.switched
    ensures var s' := SwitchedAll(s, dests);
      && s'.cur == (if dests == [] then s.cur else dests[|dests| - 1])
      && (!s'.switched ==> s'.cur == s.cur)
      && (s'.switched ==> s'.prev != s'.cur)
  {
    if dests != [] {
      var before := dests[..|dests| - 1];
      SwitchesEnd(s, before);
    }
  }

  /** What the entry leaves of a thread, whatever the handler switched to. */
  lemma EnteredAt(s: State, e: Entry, t: Pos)
    requires Possible(s, e) && t in s.thread
    ensures var h, s' := Handled(s, e), Entered(s, e);
      && s'.cur == h.cur
      && SoftOf(h, t) == (if t == s.cur then e.kind else s.thread[t].softIntr)
      && RegsOf(h, t) == (if t == s.cur then e.r else s.thread[t].regs)
      && h.thread[t].retVal == s.thread[t].retVal
      && (h.switched ==> h.prev != h.cur && h.prev in s.thread) && (!h.switched ==> h.cur == s.cur)
  {
    hide Switched, Returned;
    var s1 := Saved(s, e.kind, e.r);
    SwitchesKeep(s1, e.dests, t);
    SwitchesEnd(s1, e.dests);
    EnteredCur(Handled(s, e), e.v);
  }

  lemma EnteredCur(h: State, v: u32)
    requires Valid(h)
    ensures Returned(h, v).cur == h.cur
  {
  }

  /** ret_prc delivers: with a switch, v goes to the thread switched away from last if that one
      is in a system call, and the thread switched to gets what is pending for it. */
  lemma ReturnedAt(h: State, v: u32, t: Pos)
    requires Valid(h) && t in h.thread && (h.switched ==> h.prev != h.cur)
    ensures Resumes(Returned(h, v), t) ==
      if SoftOf(h, t) != SYS_INTR then RegsOf(h, t)
      else if t == (if h.switched then h.prev else h.cur) then RegsOf(h, t).(eax := v)
      else RegsOf(h, t).(eax := h.thread[t].retVal)
  {
  }

  /** When the result goes to the thread it belongs to: if the handler did not switch, or
      switched away from the interrupted thread last, or there is no result to deliver and no
      other thread that would take it for its own. */
  predicate Delivers(s: State, e: Entry)
    requires Possible(s, e)
  {
    var h := Handled(s, e);
    || !h.switched || h.prev == s.cur
    || (e.kind != SYS_INTR && SoftOf(h, h.prev) != SYS_INTR)
  }

  /** Every entry that delivers changes the registers of the interrupted thread to what is due to
      it, and those of no other thread. */
  lemma EntryRefines(s: State, e: Entry)
    requires Possible(s, e) && Delivers(s, e)
    ensures View(Entered(s, e)) == View(s)[s.cur := Due(e)]
    ensures Due(e) == if e.kind == 2 then e.r.(eax := e.v) else e.r
  {
    hide Switched, SwitchedAll, Returned, Saved;
    forall t | t in s.thread
      ensures Resumes(Entered(s, e), t) == if t == s.cur then Due(e) else Resumes(s, t)
    {
      EnteredAt(s, e, t);
      ReturnedAt(Handled(s, e), e.v, t);
    }
  }

  /** And only those do: an entry that does not deliver goes wrong for some result. None of the
      kernel's handlers is such an entry, for each of them switches at most once. */
  lemma OnlyDeliveries(s: State, e: Entry)
    requires Possible(s, e)
    ensures Delivers(s, e) <==> forall v: u32 :: View(Entered(s, e.(v := v))) == View(s)[s.cur := Due(e.(v := v))]
  {
    hide Switched, SwitchedAll, Returned, Saved;
    forall v: u32 | Delivers(s, e)
      ensures View(Entered(s, e.(v := v))) == View(s)[s.cur := Due(e.(v := v))]
    {
      assert Handled(s, e.(v := v)) == Handled(s, e);
      EntryRefines(s, e.(v := v));
    }
    if !Delivers(s, e) {
      var h := Handled(s, e);
      var t := if e.kind == SYS_INTR then s.cur else h.prev;
      EnteredAt(s, e, t);
      EnteredAt(s, e, s.cur);
      var v: u32 := if h.thread[t].retVal == 0 then 1 else 0;
      assert Handled(s, e.(v := v)) == h;
      ReturnedAt(h, v, t);
      assert Resumes(Entered(s, e.(v := v)), t) != (if t == s.cur then Due(e.(v := v)) else Resumes(s, t));
      assert View(Entered(s, e.(v := v)))[t] != View(s)[s.cur := Due(e.(v := v))][t];
    }
  }

  /** At most one switch is enough. */
  lemma OneSwitchDelivers(s: State, e: Entry)
    requires Possible(s, e) && |e.dests| <= 1
    ensures Delivers(s, e)
  {
    if |e.dests| == 1 {
      var s1 := Saved(s, e.kind, e.r);
      assert e.dests[..0] == [];
      assert SwitchedAll(s1, e.dests[..0]) == s1;
    }
  }

  lemma OneSwitch(s: State, e: Entry, t: Pos)
    requires Possible(s, e) && |e.dests| <= 1 && t in s.thread
    ensures Resumes(Entered(s, e), t) == if t == s.cur then Due(e) else Resumes(s, t)
  {
    hide Resumes, Entered, Delivers, Due;
    OneSwitchDelivers(s, e);
    EntryRefines(s, e);
    assert View(Entered(s, e))[t] == View(s)[s.cur := Due(e)][t];
  }

  // ---------- runs ----------

  /** Entries that each switch at most once, to existing threads. */
  ghost predicate Runs(s: State, es: seq<Entry>) {
    forall e :: e in es ==> |e.dests| <= 1 && forall d :: d in e.dests ==> d in s.thread
  }

  function After(s: State, es: seq<Entry>): (s': State)
    requires Valid(s) && Runs(s, es)
    ensures Valid(s') && s'.thread.Keys == s.thread.Keys
    decreases |es|
  {
    if es == [] then s else After(Entered(s, es[0]), es[1..])
  }

  /** Thread t is not the one interrupted by any of the entries. */
  predicate Away(s: State, es: seq<Entry>, t: Pos)
    requires Valid(s) && Runs(s, es)
    decreases |es|
  {
    es != [] ==> s.cur != t && Away(Entered(s, es[0]), es[1..], t)
  }

  /** A thread that does not run keeps its registers over any run. */
  lemma {:induction false} AwayKeeps(s: State, es: seq<Entry>, t: Pos)
    requires Valid(s) && Runs(s, es) && t in s.thread && Away(s, es, t)
    ensures Resumes(After(s, es), t) == Resumes(s, t)
    decreases |es|
  {
    hide Resumes, Entered, Due;
    if es != [] {
      OneSwitch(s, es[0], t);
      AwayKeeps(Entered(s, es[0]), es[1..], t);
    }
  }

  /** A thread that is interrupted and does not run during the next entries, however many and
      of whatever kind, then goes on with what was due to it: the result of its own call in
      eax if it made one, its registers unchanged if it was interrupted. */
  lemma DeliveredLater(s: State, e: Entry, es: seq<Entry>)
    requires Valid(s) && Runs(s, [e]) && Runs(s, es) && Possible(s, e) && Away(Entered(s, e), es, s.cur)
    ensures Resumes(After(Entered(s, e), es), s.cur) == Due(e)
    ensures var s' := After(Entered(s, e), es);
      s'.cur == s.cur ==> s'.proc[s.cur.p].regs == if e.kind == 2 then e.r.(eax := e.v) else e.r
  {
    hide Entered, After, Away;
    assert e in [e];
    OneSwitch(s, e, s.cur);
    AwayKeeps(Entered(s, e), es, s.cur);
  }

  // ---------- the code ----------

  class Kernel {
    var proc: map<nat, Proc>
    var thread: map<Pos, Thread>
    var cur: Pos
    var prev: Pos
    var switched: bool

    ghost function Now(): State
      reads this
    {
      State(proc, thread, cur, prev, switched)
    }

    /** The kernel starts with task 0 alone (kernel/task0/setup.c:26-59). */
    constructor (r: Regs)
      ensures Valid(Now()) && cur == Pos(0, 0) && !switched
      ensures forall t :: t in thread <==> t == Pos(0, 0)
    {
      proc, thread := map[0 := Proc(r, NO_INTR)], map[Pos(0, 0) := Thread(r, NO_INTR, 0)];
      cur, prev, switched := Pos(0, 0), Pos(0, 0), false;
    }

    /** save and the flag set by SAVE (kernel/kernel.asm:44-66, 90-93). */
    method Save(kind: nat, r: Regs)
      requires Valid(Now())
      modifies this
      ensures Now() == Saved(old(Now()), kind, r)
      ensures !switched && cur == old(cur) && prev == old(prev) && thread == old(thread)
      ensures proc == old(proc)[cur.p := Proc(r, kind)]
    {
      switched := false;
      proc := proc[cur.p := Proc(r, kind)];
    }

    /** switch_to (kernel/sched.c:61-98). */
    method SwitchTo(p: nat, tid: nat)
      requires Valid(Now()) && Pos(p, tid) in thread
      modifies this
      ensures Now() == Switched(old(Now()), Pos(p, tid))
      ensures cur == Pos(p, tid)
      ensures if old(cur) == Pos(p, tid) then Now() == old(Now())
        else
          var c, frame := old(cur), old(proc[cur.p]);
          && switched && prev == c
          && thread == old(thread)[c := Thread(frame.regs, frame.softIntrFlag, old(thread[cur].retVal))]
          && cur in thread && proc == old(proc)[p := Proc(thread[cur].regs, thread[cur].softIntr)]
    {
      if cur.p == p && tid == cur.t {
        return;
      }
      thread := thread[cur := thread[cur].(regs := proc[cur.p].regs)];
      thread := thread[cur := thread[cur].(softIntr := proc[cur.p].softIntrFlag)];
      switched := true;
      prev := cur;
      cur := Pos(p, tid);
      proc := proc[cur.p := proc[cur.p].(regs := thread[cur].regs)];
      proc := proc[cur.p := proc[cur.p].(softIntrFlag := thread[cur].softIntr)];
    }

    /** ret_prc (kernel/sched.c:199-220). */
    method RetPrc(prevTidRetVal: u32)
      requires Valid(Now())
      modifies this
      ensures Now() == Returned(old(Now()), prevTidRetVal)
      ensures cur == old(cur) && prev == old(prev) && switched == old(switched) && cur in thread
      ensures thread == if switched && old(thread[prev].softIntr) == 2
        then old(thread)[prev := old(thread[prev]).(retVal := prevTidRetVal)] else old(thread)
      ensures var frame := old(proc[cur.p]);
        proc == if frame.softIntrFlag != 2 then old(proc)
          else old(proc)[cur.p := frame.(regs := frame.regs.(eax := if switched then thread[cur].retVal else prevTidRetVal))]
    {
      if !switched {
        if proc[cur.p].softIntrFlag == SYS_INTR {
          proc := proc[cur.p := proc[cur.p].(regs := proc[cur.p].regs.(eax := prevTidRetVal))];
        }
      } else {
        if thread[prev].softIntr == SYS_INTR {
          thread := thread[prev := thread[prev].(retVal := prevTidRetVal)];
        }
        if proc[cur.p].softIntrFlag == SYS_INTR {
          proc := proc[cur.p := proc[cur.p].(regs := proc[cur.p].regs.(eax := thread[cur].retVal))];
        }
      }
    }
  }
}
