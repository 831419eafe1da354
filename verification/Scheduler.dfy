/** The scheduler (kernel/sched.c): tick accounting, the choice of the next thread, and
    the reloading of ticks. */
module Scheduler {
  import opened Basics

  const MAX_ENTER_TIMES := 8

  datatype Thread = Thread(state: nat, curtks: int, pl: int)

  /** procs_ptr[i]: an empty entry, or a process with its first thread_nr threads. */
  datatype Proc = NoProc | Proc(thread: seq<Thread>)

  predicate Live(procs: seq<Proc>, c: Pos) {
    c.p < |procs| && procs[c.p].Proc? && c.t < |procs[c.p].thread|
  }

  function Th(procs: seq<Proc>, c: Pos): Thread
    requires Live(procs, c)
  {
    procs[c.p].thread[c.t]
  }

  function Tks(procs: seq<Proc>, c: Pos): int
    requires Live(procs, c)
  {
    Th(procs, c).curtks
  }

  const TASK0 := Pos(0, 0)

  /** Runnable threads. */
  predicate Runs(procs: seq<Proc>, c: Pos) {
    Live(procs, c) && Th(procs, c).state == TS_RUNNING
  }

  /** The threads that can be chosen: the runnable ones, and task 0 thread 0 in any state. */
  predicate Cand(procs: seq<Proc>, c: Pos) {
    Live(procs, c) && (c == TASK0 || Th(procs, c).state == TS_RUNNING)
  }

  /** Task 0 exists and has a thread. */
  predicate HasTask0(procs: seq<Proc>) {
    Live(procs, TASK0)
  }

  function WithTh(procs: seq<Proc>, c: Pos, th: Thread): seq<Proc>
    requires Live(procs, c)
  {
    procs[c.p := Proc(procs[c.p].thread[c.t := th])]
  }

  predicate Before(c: Pos, d: Pos) {
    c.p < d.p || (c.p == d.p && c.t < d.t)
  }

  /** m is what one pass over all threads makes of the running maximum m0: m0 itself unless
      some runnable thread has more ticks, and then the first of those with the most. */
  ghost predicate Best(procs: seq<Proc>, m0: Pos, m: Pos) {
    && Live(procs, m0) && Live(procs, m)
    && (forall c :: Runs(procs, c) ==> Tks(procs, c) <= Tks(procs, m))
    && (m != m0 ==> Runs(procs, m) && Tks(procs, m) > Tks(procs, m0)
                    && forall c :: Runs(procs, c) && Before(c, m) ==> Tks(procs, c) < Tks(procs, m))
  }

  /** In the fields of the threads: no runnable thread has more ticks than m; and if m is not m0 it is
      runnable and has more than m0 and than every runnable thread before it. */
  lemma BestIs(procs: seq<Proc>, m0: Pos, m: Pos, c: Pos)
    requires Best(procs, m0, m) && Live(procs, c) && Th(procs, c).state == TS_RUNNING
    ensures Live(procs, m) && Live(procs, m0) && Th(procs, c).curtks <= Th(procs, m).curtks
    ensures m != m0 ==> Th(procs, m).state == TS_RUNNING && Th(procs, m).curtks > Th(procs, m0).curtks
    ensures m != m0 && (c.p < m.p || (c.p == m.p && c.t < m.t)) ==> Th(procs, c).curtks < Th(procs, m).curtks
  {
    assert Runs(procs, c);
  }

  /** Every thread gets its priority as ticks, whatever its state. */
  function Reloaded(procs: seq<Proc>): (r: seq<Proc>)
    ensures |r| == |procs|
  {
    seq(|procs|, i requires 0 <= i < |procs| =>
      if procs[i].NoProc? then NoProc
      else Proc(seq(|procs[i].thread|, j requires 0 <= j < |procs[i].thread| =>
             procs[i].thread[j].(curtks := procs[i].thread[j].pl))))
  }

  lemma ReloadedTh(procs: seq<Proc>, c: Pos)
    ensures Live(Reloaded(procs), c) <==> Live(procs, c)
    ensures Live(procs, c) ==> Th(Reloaded(procs), c) == Th(procs, c).(curtks := Th(procs, c).pl)
  {
  }

  /** The running maximum after the threads before position e. */
  ghost predicate ScanInv(procs: seq<Proc>, m0: Pos, m: Pos, e: Pos) {
    && Live(procs, m0) && Live(procs, m)
    && (forall c :: Runs(procs, c) && Before(c, e) ==> Tks(procs, c) <= Tks(procs, m))
    && (m != m0 ==> Runs(procs, m) && Before(m, e) && Tks(procs, m) > Tks(procs, m0)
                    && forall c :: Runs(procs, c) && Before(c, m) ==> Tks(procs, c) < Tks(procs, m))
  }

  /** What choose_max does: the best thread by one pass from task 0; if it has no ticks
      left, all ticks are reloaded and a second pass starts from it. */
  ghost predicate Chosen(procs: seq<Proc>, procs': seq<Proc>, m: Pos, reload: bool) {
    exists m1 :: Best(procs, TASK0, m1) &&
      (reload <==> Tks(procs, m1) <= 0) &&
      if reload then procs' == Reloaded(procs) && Best(procs', m1, m) else procs' == procs && m == m1
  }

  /** procs' is procs with every thread's ticks reloaded, or procs itself. */
  ghost predicate Reloads(procs: seq<Proc>, procs': seq<Proc>, reload: bool) {
    |procs'| == |procs| &&
    forall c :: (Live(procs', c) <==> Live(procs, c)) &&
      (Live(procs, c) ==> Th(procs', c) == if reload then Th(procs, c).(curtks := Th(procs, c).pl) else Th(procs, c))
  }

  lemma ReloadedAll(procs: seq<Proc>)
    ensures Reloads(procs, Reloaded(procs), true)
  {
    forall c | true
      ensures (Live(Reloaded(procs), c) <==> Live(procs, c)) &&
        (Live(procs, c) ==> Th(Reloaded(procs), c) == Th(procs, c).(curtks := Th(procs, c).pl))
    {
      ReloadedTh(procs, c);
    }
  }

  /** m has the most ticks among the candidates. */
  ghost predicate Top(procs: seq<Proc>, m: Pos) {
    Cand(procs, m) && forall c :: Cand(procs, c) ==> Tks(procs, c) <= Tks(procs, m)
  }

  lemma BestIsTop(procs: seq<Proc>, m0: Pos, m: Pos)
    requires HasTask0(procs) && Best(procs, m0, m) && Cand(procs, m0)
    requires Tks(procs, TASK0) <= Tks(procs, m)
    ensures Top(procs, m)
  {
  }

  lemma ReloadsCand(procs: seq<Proc>, procs': seq<Proc>, reload: bool)
    requires Reloads(procs, procs', reload)
    ensures forall c :: Cand(procs', c) <==> Cand(procs, c)
  {
    forall c | true
      ensures Cand(procs', c) <==> Cand(procs, c)
    {
      assert Live(procs', c) <==> Live(procs, c);
    }
  }

  /** What a caller can check for a reload to choose among all candidates: task 0 may be left
      out of the second pass only if it is not runnable, a runnable thread was ahead of it, and
      no runnable thread has its priority. */
  ghost predicate Fair(procs: seq<Proc>)
    requires HasTask0(procs)
  {
    || Runs(procs, TASK0)
    || (forall c :: Runs(procs, c) ==> Tks(procs, c) <= Tks(procs, TASK0))
    || (exists c :: Runs(procs, c) && Th(procs, c).pl >= Th(procs, TASK0).pl)
  }

  /** choose_max yields a candidate and reloads exactly when no candidate has a tick left.
      Without a reload it yields one with the most ticks; with a reload it does so exactly if
      Fair held. */
  lemma ChosenIsBest(procs: seq<Proc>, procs': seq<Proc>, m: Pos, reload: bool)
    requires HasTask0(procs) && Chosen(procs, procs', m, reload)
    ensures Reloads(procs, procs', reload)
    ensures Cand(procs', m)
    ensures reload <==> forall c :: Cand(procs, c) ==> Tks(procs, c) <= 0
    ensures Top(procs', m) <==> !reload || Fair(procs)
  {
    hide Reloaded;
    var m1 :| Best(procs, TASK0, m1) && (reload <==> Tks(procs, m1) <= 0) &&
      if reload then procs' == Reloaded(procs) && Best(procs', m1, m) else procs' == procs && m == m1;
    BestIsTop(procs, TASK0, m1);
    ReloadedAll(procs);
    ReloadsCand(procs, procs', reload);
    if reload {
      ReloadIsTop(procs, procs', m1, m);
    }
  }

  /** Task 0 has the least priority: its thread has 1 (kernel/task0/setup.c:48), a process has 4
      (kernel/creatp.c:80, 248), and a thread added to one 4 or 3 (kernel/syscall.c:73). */
  ghost predicate Task0Least(procs: seq<Proc>) {
    HasTask0(procs) && forall c :: Live(procs, c) ==> Th(procs, c).pl >= Th(procs, TASK0).pl
  }

  /** With such priorities choose_max always yields a candidate with the most ticks. */
  lemma ChosenIsTop(procs: seq<Proc>, procs': seq<Proc>, m: Pos, reload: bool)
    requires Task0Least(procs) && Chosen(procs, procs', m, reload)
    ensures Top(procs', m) && Task0Least(procs')
  {
    hide Chosen, Top;
    ChosenIsBest(procs, procs', m, reload);
    hide Reloads;
    ReloadsPl(procs, procs', reload);
  }

  lemma ReloadsPl(procs: seq<Proc>, procs': seq<Proc>, reload: bool)
    requires Reloads(procs, procs', reload)
    ensures forall c :: Live(procs', c) <==> Live(procs, c)
    ensures forall c :: Live(procs, c) ==> Th(procs', c).pl == Th(procs, c).pl
  {
  }

  lemma ReloadIsTop(procs: seq<Proc>, procs': seq<Proc>, m1: Pos, m: Pos)
    requires HasTask0(procs) && Reloads(procs, procs', true) && Best(procs, TASK0, m1) && Best(procs', m1, m)
    ensures Top(procs', m) <==> Fair(procs)
  {
    assert Live(procs', TASK0) && Live(procs', m1) && Live(procs', m);
    ReloadsCand(procs, procs', true);
    if Fair(procs) {
      if !Runs(procs, TASK0) && m1 != TASK0 {
        var c :| Runs(procs, c) && Th(procs, c).pl >= Th(procs, TASK0).pl;
        assert Live(procs', c) && Runs(procs', c);
      }
      assert Tks(procs', TASK0) <= Tks(procs', m) by {
        if Runs(procs, TASK0) {
          assert Runs(procs', TASK0);
        }
      }
      BestIsTop(procs', m1, m);
    } else {
      assert Runs(procs, m1) && Runs(procs', m1) && Runs(procs', m) && Runs(procs, m);
      assert Cand(procs', TASK0);
    }
  }

  /** One clock interrupt: the thread running is marked runnable; unless the kernel was
      entered too deep, it is charged a tick and the next thread is chosen. */
  ghost predicate Tick(procs: seq<Proc>, cur: Pos, procs': seq<Proc>, cur': Pos, charged: bool, reload: bool) {
    Live(procs, cur) &&
    var p1 := WithTh(procs, cur, Th(procs, cur).(state := TS_RUNNING));
    if charged then
      Chosen(Charged(p1, cur), procs', cur', reload)
    else
      procs' == p1 && cur' == cur && !reload
  }

  function Charged(procs: seq<Proc>, c: Pos): seq<Proc>
    requires Live(procs, c)
  {
    var th := Th(procs, c);
    if th.curtks >= 0 then WithTh(procs, c, th.(curtks := th.curtks - 1)) else procs
  }

  lemma WithThIs(procs: seq<Proc>, c: Pos, th: Thread, d: Pos)
    requires Live(procs, c)
    ensures var r := WithTh(procs, c, th);
      (Live(r, d) <==> Live(procs, d)) && (Live(procs, d) ==> Th(r, d) == if d == c then th else Th(procs, d))
  {
  }

  /** A thread after a clock interrupt: the one that was running is runnable and, if it is charged
      and has not gone below 0, has one tick less; a reload gives every thread its priority. */
  function Ticked(th: Thread, running: bool, charged: bool, reload: bool): (r: Thread)
    ensures r.pl == th.pl && r.state == if running then TS_RUNNING else th.state
    ensures reload ==> r.curtks == th.pl
    ensures !reload && running && charged && th.curtks >= 0 ==> r.curtks == th.curtks - 1
    ensures !reload && (!running || !charged || th.curtks < 0) ==> r.curtks == th.curtks
  {
    var state := if running then TS_RUNNING else th.state;
    var left := if running && charged && th.curtks >= 0 then th.curtks - 1 else th.curtks;
    Thread(state, if reload then th.pl else left, th.pl)
  }

  lemma TickThreads(procs: seq<Proc>, cur: Pos, procs': seq<Proc>, cur': Pos, charged: bool, reload: bool)
    requires HasTask0(procs) && Tick(procs, cur, procs', cur', charged, reload)
    ensures forall c :: Live(procs', c) <==> Live(procs, c)
    ensures forall c :: Live(procs, c) ==> Th(procs', c) == Ticked(Th(procs, c), c == cur, charged, reload)
  {
    hide Chosen;
    var th := Th(procs, cur).(state := TS_RUNNING);
    var p1 := WithTh(procs, cur, th);
    var th2 := if charged && th.curtks >= 0 then th.(curtks := th.curtks - 1) else th;
    WithThIs(procs, cur, th, cur);
    var p2 := if charged then Charged(p1, cur) else p1;
    forall d | true
      ensures (Live(p2, d) <==> Live(procs, d))
      ensures (Live(procs, d) ==> Th(p2, d) == if d == cur then th2 else Th(procs, d))
    {
      WithThIs(procs, cur, th, d);
      WithThIs(p1, cur, th2, d);
    }
    hide WithTh, Charged, Live, Th;
    if charged {
      ChosenIsBest(p2, procs', cur', reload);
    }
  }

  class Sched {
    var procs: seq<Proc> // procs_ptr[0 .. NR_TASKS + NR_USR_PROCS)
    var cur: Pos         // __curprocs, cur_tid
    var ticks: nat       // __ticks

    /** The kernel starts with task 0 alone (kernel/task0/setup.c:26-59). */
    constructor ()
      ensures Task0Least(procs) && Cand(procs, cur) && cur == TASK0 && ticks == 0
    {
      procs, cur, ticks := [Proc([Thread(TS_RUNNING, 1, 1)])], TASK0, 0;
    }

    /** One pass of choose_max (kernel/sched.c:111-125, 139-152). */
    method Scan(m0: Pos) returns (m: Pos)
      requires Live(procs, m0)
      ensures Best(procs, m0, m)
    {
      m := m0;
      var i := 0;
      while i < |procs|
        invariant 0 <= i <= |procs| && Live(procs, m) && (m == m0 || Before(m, Pos(i, 0)))
        invariant ScanInv(procs, m0, m, Pos(i, 0))
      {
        if procs[i].Proc? {
          var j := 0;
          while j < |procs[i].thread|
            invariant 0 <= j <= |procs[i].thread| && Live(procs, m)
            invariant ScanInv(procs, m0, m, Pos(i, j))
          {
            if procs[i].thread[j].state == TS_RUNNING {
              if procs[i].thread[j].curtks > procs[m.p].thread[m.t].curtks {
                m := Pos(i, j);
              }
            }
            j := j + 1;
          }
        }
        i := i + 1;
      }
    }

    /** choose_max (kernel/sched.c:102-157). */
    method ChooseMax() returns (m: Pos, ghost reload: bool)
      requires HasTask0(procs)
      modifies this`procs
      ensures Chosen(old(procs), procs, m, reload)
    {
      m := Scan(TASK0);
      ghost var m1 := m;
      reload := false;
      if procs[m.p].thread[m.t].curtks <= 0 {
        reload := true;
        ghost var was := procs;
        Reload();
        m := Scan(m);
      }
      assert Best(old(procs), TASK0, m1);
    }

    /** The reload loop of choose_max (kernel/sched.c:133-138). */
    method Reload()
      modifies this`procs
      ensures procs == Reloaded(old(procs))
    {
      ghost var was := procs;
      var i := 0;
      while i < |procs|
        invariant 0 <= i <= |procs| == |was|
        invariant forall k :: 0 <= k < |procs| ==> procs[k] == if k < i then Reloaded(was)[k] else was[k]
      {
        if procs[i].Proc? {
          var j, th := 0, procs[i].thread;
          while j < |th|
            invariant 0 <= j <= |th| == |was[i].thread|
            invariant forall k :: 0 <= k < |th| ==>
              th[k] == if k < j then was[i].thread[k].(curtks := was[i].thread[k].pl) else was[i].thread[k]
          {
            th := th[j := th[j].(curtks := th[j].pl)];
            j := j + 1;
          }
          procs := procs[i := Proc(th)];
          assert procs[i] == Reloaded(was)[i];
        }
        i := i + 1;
      }
      assert procs == Reloaded(was);
    }

    /** schedule (kernel/sched.c:159-167); what switch_to does to the registers is in Frames. */
    method Schedule() returns (ghost reload: bool)
      requires HasTask0(procs)
      modifies this`procs, this`cur
      ensures Chosen(old(procs), procs, cur, reload)
    {
      var m;
      m, reload := ChooseMax();
      cur := m;
    }

    /** clock (kernel/sched.c:20-38). */
    method Clock(reenter: nat) returns (ghost reload: bool)
      requires HasTask0(procs) && Live(procs, cur)
      modifies this
      ensures Tick(old(procs), old(cur), procs, cur, reenter <= MAX_ENTER_TIMES, reload)
      ensures ticks == old(ticks) + 1
      ensures forall c :: Live(procs, c) <==> Live(old(procs), c)
      ensures forall c :: Live(old(procs), c) ==>
        Th(procs, c) == Ticked(Th(old(procs), c), c == old(cur), reenter <= 8, reload)
      ensures reenter > 8 ==> cur == old(cur) && !reload
    {
      ghost var procs0, cur0 := procs, cur;
      hide Chosen, Best, Reloaded;
      reload := false;
      WithThIs(procs, cur, Th(procs, cur).(state := TS_RUNNING), cur);
      WithThIs(procs, cur, Th(procs, cur).(state := TS_RUNNING), TASK0);
      procs := WithTh(procs, cur, Th(procs, cur).(state := TS_RUNNING));
      ticks := ticks + 1;
      if reenter > MAX_ENTER_TIMES {
        TickThreads(procs0, cur0, procs, cur, false, false);
        return;
      }
      if procs[cur.p].thread[cur.t].curtks >= 0 {
        WithThIs(procs, cur, Th(procs, cur).(curtks := Tks(procs, cur) - 1), TASK0);
        procs := WithTh(procs, cur, Th(procs, cur).(curtks := Tks(procs, cur) - 1));
      }
      reload := Schedule();
      TickThreads(procs0, cur0, procs, cur, true, reload);
    }

    /** sleep_on (kernel/sched.c:171-177). */
    method SleepOn(c: Pos)
      requires HasTask0(procs) && Live(procs, c) && Live(procs, cur)
      modifies this`procs, this`cur
      ensures if old(Th(procs, c).state) == TS_STUCK then procs == old(procs) && cur == old(cur)
        else exists reload :: Chosen(WithTh(old(procs), c, old(Th(procs, c)).(state := TS_STUCK)), procs, cur, reload)
      ensures Live(procs, c) && Th(procs, c).state == TS_STUCK
      ensures old(Th(procs, c)).state != TS_STUCK ==> Cand(procs, cur) && (c != TASK0 ==> cur != c)
    {
      hide Chosen;
      if procs[c.p].thread[c.t].state == TS_STUCK {
        return;
      }
      WithThIs(procs, c, Th(procs, c).(state := TS_STUCK), TASK0);
      WithThIs(procs, c, Th(procs, c).(state := TS_STUCK), c);
      procs := WithTh(procs, c, Th(procs, c).(state := TS_STUCK));
      ghost var was := procs;
      ghost var reload := Schedule();
      ChosenIsBest(was, procs, cur, reload);
    }

    /** wake_up (kernel/sched.c:181-187): the thread woken runs at once. */
    method WakeUp(c: Pos)
      requires Live(procs, c)
      modifies this`procs, this`cur
      ensures if old(Th(procs, c).state) == TS_RUNNING then procs == old(procs) && cur == old(cur)
        else procs == WithTh(old(procs), c, old(Th(procs, c)).(state := TS_RUNNING)) && cur == c
      ensures Live(procs, c) && Th(procs, c) == old(Th(procs, c)).(state := TS_RUNNING)
      ensures forall d :: Live(old(procs), d) && d != c ==> Live(procs, d) && Th(procs, d) == Th(old(procs), d)
    {
      if procs[c.p].thread[c.t].state == TS_RUNNING {
        return;
      }
      procs := WithTh(procs, c, Th(procs, c).(state := TS_RUNNING));
      cur := c;
    }
  }
  // ---------- runs of clock interrupts ----------

  /** The threads and the thread running, between two interrupts. */
  datatype Moment = Moment(procs: seq<Proc>, cur: Pos)

  /** The moments of a run; whether interrupt i charged a tick (it came in at most
      MAX_ENTER_TIMES deep), and whether it reloaded. */
  datatype Run = Run(at: seq<Moment>, charged: seq<bool>, reload: seq<bool>)
  {
    predicate Sized() {
      |at| == |charged| + 1 == |reload| + 1
    }

    ghost predicate Step(i: nat)
      requires Sized() && i < |charged|
    {
      Tick(at[i].procs, at[i].cur, at[i + 1].procs, at[i + 1].cur, charged[i], reload[i])
    }

    /** Every step is a clock interrupt, from a candidate running and priorities of at least 1. */
    ghost predicate Ok() {
      && Sized()
      && HasTask0(at[0].procs) && Cand(at[0].procs, at[0].cur)
      && (forall c :: Live(at[0].procs, c) ==> Th(at[0].procs, c).pl >= 1)
      && (forall i :: 0 <= i < |charged| ==> Step(i))
    }

    /** How many of the interrupts from .. till - 1 charged c. */
    function Charges(c: Pos, from: nat, till: nat): nat
      requires Sized() && from <= till <= |charged|
    {
      if from == till then 0 else Charges(c, from, till - 1) + if charged[till - 1] && at[till - 1].cur == c then 1 else 0
    }

    /** How many of the interrupts from .. till - 1 charged some thread. */
    function ChargedAny(from: nat, till: nat): nat
      requires Sized() && from <= till <= |charged|
    {
      if from == till then 0 else ChargedAny(from, till - 1) + if charged[till - 1] then 1 else 0
    }
  }

  /** What stays the same at every interrupt: the candidates and all priorities. */
  ghost predicate SameCands(procs: seq<Proc>, procs': seq<Proc>) {
    && (forall c :: Live(procs', c) <==> Live(procs, c))
    && (forall c :: Cand(procs', c) <==> Cand(procs, c))
    && (forall c :: Live(procs, c) ==> Th(procs', c).pl == Th(procs, c).pl)
  }

  /** The ticks of c once cur has been charged. */
  function Left(procs: seq<Proc>, cur: Pos, charged: bool, c: Pos): int
    requires Live(procs, c)
  {
    if charged && c == cur && Tks(procs, c) >= 0 then Tks(procs, c) - 1 else Tks(procs, c)
  }

  lemma ChargedIs(procs: seq<Proc>, cur: Pos, charged: bool)
    requires Cand(procs, cur) && HasTask0(procs)
    ensures var p1 := WithTh(procs, cur, Th(procs, cur).(state := TS_RUNNING));
      Live(p1, cur) &&
      var p2 := if charged then Charged(p1, cur) else p1;
      && SameCands(procs, p2) && HasTask0(p2)
      && (forall c :: Live(procs, c) ==> Tks(p2, c) == Left(procs, cur, charged, c))
  {
    var th := Th(procs, cur).(state := TS_RUNNING);
    var p1 := WithTh(procs, cur, th);
    forall d | true
      ensures (Live(p1, d) <==> Live(procs, d))
      ensures (Live(procs, d) ==> Th(p1, d) == if d == cur then th else Th(procs, d))
    {
      WithThIs(procs, cur, th, d);
    }
    var th2 := if charged && th.curtks >= 0 then th.(curtks := th.curtks - 1) else th;
    var p2 := if charged then Charged(p1, cur) else p1;
    forall d | true
      ensures (Live(p2, d) <==> Live(p1, d)) && (Live(p1, d) ==> Th(p2, d) == if d == cur then th2 else Th(p1, d))
    {
      WithThIs(p1, cur, th2, d);
    }
  }

  /** One clock interrupt on a candidate, thread by thread: it charges the thread running and
      nobody else, reloads exactly if no candidate has a tick left after that, and if it
      charged, the next thread is a candidate with the most ticks. */
  lemma TickIs(procs: seq<Proc>, cur: Pos, procs': seq<Proc>, cur': Pos, charged: bool, reload: bool)
    requires HasTask0(procs) && Cand(procs, cur) && Tick(procs, cur, procs', cur', charged, reload)
    ensures SameCands(procs, procs') && Cand(procs', cur')
    ensures forall c :: Live(procs, c) ==>
      Tks(procs', c) == if reload then Th(procs, c).pl else Left(procs, cur, charged, c)
    ensures reload <==> charged && forall c :: Cand(procs, c) ==> Left(procs, cur, charged, c) <= 0
    ensures charged && !reload ==> Top(procs', cur')
    ensures !charged ==> cur' == cur
    ensures reload && (forall c :: Cand(procs, c) ==> Left(procs, cur, charged, c) == 0) ==> Top(procs', cur')
  {
    hide Chosen;
    ChargedIs(procs, cur, charged);
    if charged {
      var p2 := Charged(WithTh(procs, cur, Th(procs, cur).(state := TS_RUNNING)), cur);
      hide WithTh, Charged;
      ChosenIsBest(p2, procs', cur', reload);
      ReloadsCand(p2, procs', reload);
    }
  }

  /** The candidates and priorities never change in a run, and a candidate is always running. */
  lemma {:induction false} RunKeeps(r: Run, k: nat)
    requires r.Ok() && k <= |r.charged|
    ensures HasTask0(r.at[k].procs) && Cand(r.at[k].procs, r.at[k].cur) && SameCands(r.at[0].procs, r.at[k].procs)
  {
    if k > 0 {
      RunKeeps(r, k - 1);
      assert r.Step(k - 1);
      hide Tick;
      TickIs(r.at[k - 1].procs, r.at[k - 1].cur, r.at[k].procs, r.at[k].cur, r.charged[k - 1], r.reload[k - 1]);
    }
  }

  /** An epoch from j to k: all ticks were reloaded at j, and not again before k. */
  ghost predicate Epoch(r: Run, j: nat, k: nat) {
    && r.Ok() && 0 < j <= k <= |r.charged| && r.reload[j - 1]
    && (forall i :: j <= i < k ==> !r.reload[i])
  }

  /** What is left of a candidate's priority is what it has not been charged yet, and the
      thread running has a tick left. */
  ghost predicate Accounted(r: Run, j: nat, k: nat)
    requires r.Sized() && j <= k <= |r.charged|
  {
    var now := r.at[k];
    && Cand(now.procs, now.cur) && Tks(now.procs, now.cur) > 0
    && (forall c :: Cand(now.procs, c) ==> 0 <= Tks(now.procs, c) == Th(now.procs, c).pl - r.Charges(c, j, k))
  }

  lemma {:induction false} EpochAccounts(r: Run, j: nat, k: nat)
    requires Epoch(r, j, k)
    ensures Accounted(r, j, k)
    decreases k
  {
    if j < k {
      EpochAccounts(r, j, k - 1);
      AccountedStep(r, j, k);
    } else {
      AccountedReload(r, j);
    }
  }

  lemma AccountedReload(r: Run, j: nat)
    requires Epoch(r, j, j)
    ensures Accounted(r, j, j)
  {
    RunKeeps(r, j - 1);
    var was, now := r.at[j - 1], r.at[j];
    assert r.Step(j - 1);
    hide Tick, Run.Step;
    TickIs(was.procs, was.cur, now.procs, now.cur, r.charged[j - 1], r.reload[j - 1]);
  }

  lemma AccountedStep(r: Run, j: nat, k: nat)
    requires Epoch(r, j, k) && j < k && Accounted(r, j, k - 1)
    ensures Accounted(r, j, k)
  {
    RunKeeps(r, k - 1);
    var was, now := r.at[k - 1], r.at[k];
    assert r.Step(k - 1);
    hide Tick, Run.Step;
    TickIs(was.procs, was.cur, now.procs, now.cur, r.charged[k - 1], r.reload[k - 1]);
  }

  /** Between two reloads every candidate is charged exactly its priority. */
  lemma ExactQuota(r: Run, j: nat, k: nat, c: Pos)
    requires Epoch(r, j, k) && k < |r.charged| && r.reload[k] && Cand(r.at[j].procs, c)
    ensures r.Charges(c, j, k + 1) == Th(r.at[j].procs, c).pl
  {
    EpochAccounts(r, j, k);
    RunKeeps(r, j);
    RunKeeps(r, k);
    var was, now := r.at[k], r.at[k + 1];
    assert r.Step(k);
    hide Tick, Run.Step;
    TickIs(was.procs, was.cur, now.procs, now.cur, r.charged[k], r.reload[k]);
  }

  /** With task 0's priority the least, every interrupt of a run that is not in too deep leaves
      a candidate with the most ticks running. */
  lemma AlwaysTop(r: Run, k: nat)
    requires r.Ok() && Task0Least(r.at[0].procs) && k < |r.charged| && r.charged[k]
    ensures Top(r.at[k + 1].procs, r.at[k + 1].cur)
  {
    hide Chosen, Top;
    var was, now := r.at[k], r.at[k + 1];
    RunKeeps(r, k);
    assert r.Step(k);
    ChargedIs(was.procs, was.cur, true);
    var p2 := Charged(WithTh(was.procs, was.cur, Th(was.procs, was.cur).(state := TS_RUNNING)), was.cur);
    hide WithTh, Charged;
    assert Task0Least(p2);
    ChosenIsTop(p2, now.procs, now.cur, r.reload[k]);
  }

  // ---------- the length of an epoch ----------

  ghost function Cands(procs: seq<Proc>): (s: set<Pos>)
    ensures forall c :: c in s <==> Cand(procs, c)
  {
    set p, t | 0 <= p < |procs| && procs[p].Proc? && 0 <= t < |procs[p].thread| && Cand(procs, Pos(p, t)) :: Pos(p, t)
  }

  ghost function Pick(s: set<Pos>): (c: Pos)
    requires s != {}
    ensures c in s
  {
    var c :| c in s; c
  }

  /** The sum of the priorities of the threads in s. */
  ghost function Priorities(procs: seq<Proc>, s: set<Pos>): int
    requires forall c :: c in s ==> Live(procs, c)
  {
    if s == {} then 0 else Th(procs, Pick(s)).pl + Priorities(procs, s - {Pick(s)})
  }

  /** The ticks charged to the threads in s. */
  ghost function ChargesOf(r: Run, s: set<Pos>, from: nat, till: nat): nat
    requires r.Sized() && from <= till <= |r.charged|
    decreases s
  {
    if s == {} then 0 else r.Charges(Pick(s), from, till) + ChargesOf(r, s - {Pick(s)}, from, till)
  }

  lemma {:induction false} ChargesOfStep(r: Run, s: set<Pos>, from: nat, till: nat)
    requires r.Sized() && from < till <= |r.charged|
    ensures ChargesOf(r, s, from, till) == ChargesOf(r, s, from, till - 1) + if r.charged[till - 1] && r.at[till - 1].cur in s then 1 else 0
    decreases s
  {
    if s != {} {
      ChargesOfStep(r, s - {Pick(s)}, from, till);
    }
  }

  lemma {:induction false} ChargesOfNone(r: Run, s: set<Pos>, from: nat)
    requires r.Sized() && from <= |r.charged|
    ensures ChargesOf(r, s, from, from) == 0
    decreases s
  {
    if s != {} {
      ChargesOfNone(r, s - {Pick(s)}, from);
    }
  }

  /** Every tick charged is charged to a candidate. */
  lemma {:induction false} ChargesOfCands(r: Run, from: nat, till: nat)
    requires r.Ok() && from <= till <= |r.charged|
    ensures ChargesOf(r, Cands(r.at[0].procs), from, till) == r.ChargedAny(from, till)
    decreases till
  {
    if from == till {
      ChargesOfNone(r, Cands(r.at[0].procs), from);
    } else {
      ChargesOfStep(r, Cands(r.at[0].procs), from, till);
      ChargesOfCands(r, from, till - 1);
      RunKeeps(r, till - 1);
    }
  }

  /** If each thread of s was charged its priority, all were charged the sum. */
  lemma {:induction false} ChargesOfSum(r: Run, s: set<Pos>, procs: seq<Proc>, from: nat, till: nat)
    requires r.Sized() && from <= till <= |r.charged|
    requires forall c :: c in s ==> Live(procs, c) && r.Charges(c, from, till) <= Th(procs, c).pl
    ensures ChargesOf(r, s, from, till) <= Priorities(procs, s)
    ensures (exists c :: c in s && r.Charges(c, from, till) < Th(procs, c).pl) <==> ChargesOf(r, s, from, till) < Priorities(procs, s)
    decreases s
  {
    if s != {} {
      ChargesOfSum(r, s - {Pick(s)}, procs, from, till);
    }
  }

  lemma EpochSpends(r: Run, j: nat, k: nat)
    requires Epoch(r, j, k)
    ensures Cands(r.at[j].procs) == Cands(r.at[0].procs)
    ensures forall c :: Cand(r.at[j].procs, c) ==> r.Charges(c, j, k) <= Th(r.at[j].procs, c).pl
    ensures Cand(r.at[j].procs, r.at[k].cur) && r.Charges(r.at[k].cur, j, k) < Th(r.at[j].procs, r.at[k].cur).pl
  {
    hide Tick, Run.Step;
    RunKeeps(r, j);
    RunKeeps(r, k);
    EpochAccounts(r, j, k);
  }

  lemma EpochOk(r: Run, j: nat, k: nat)
    requires Epoch(r, j, k)
    ensures r.Ok() && r.Sized() && 0 < j <= k <= |r.charged|
    ensures forall c :: Cand(r.at[j].procs, c) ==> Live(r.at[j].procs, c)
  {
  }

  /** An epoch lasts exactly as many charged ticks as the candidates have priority between
      them: fewer have been charged while it goes on, and when it ends, that many. */
  lemma EpochLength(r: Run, j: nat, k: nat)
    requires Epoch(r, j, k)
    ensures r.ChargedAny(j, k) < Priorities(r.at[j].procs, Cands(r.at[j].procs))
    ensures k < |r.charged| && r.reload[k] ==> r.ChargedAny(j, k + 1) == Priorities(r.at[j].procs, Cands(r.at[j].procs))
  {
    hide *;
    EpochOk(r, j, k);
    EpochSpends(r, j, k);
    var procs, s := r.at[j].procs, Cands(r.at[j].procs);
    ChargesOfCands(r, j, k);
    ChargesOfSum(r, s, procs, j, k);
    if k < |r.charged| && r.reload[k] {
      ChargesOfCands(r, j, k + 1);
      ExactQuotas(r, j, k);
      ChargesOfSum(r, s, procs, j, k + 1);
    }
  }

  lemma ExactQuotas(r: Run, j: nat, k: nat)
    requires Epoch(r, j, k) && k < |r.charged| && r.reload[k]
    ensures forall c :: Cand(r.at[j].procs, c) ==> r.Charges(c, j, k + 1) == Th(r.at[j].procs, c).pl
  {
    assert r.Sized();
    hide Tick, Run.Step, Run.Ok, Tks;
    forall c | Cand(r.at[j].procs, c)
      ensures r.Charges(c, j, k + 1) == Th(r.at[j].procs, c).pl
    {
      ExactQuota(r, j, k, c);
    }
  }

  /** The condition of ChosenIsBest is needed for priorities in general, though no state of this
      kernel is like this: with a stuck task 0 and a runnable thread of lower priority that had
      more ticks, the thread chosen after a reload is not the candidate with the most ticks. */
  lemma UnfairReload()
    ensures exists procs, procs', m :: HasTask0(procs) && Chosen(procs, procs', m, true) && !Top(procs', m)
  {
    var procs := [Proc([Thread(TS_STUCK, -1, 9)]), Proc([Thread(TS_RUNNING, 0, 1)])];
    var procs' := Reloaded(procs);
    var m := Pos(1, 0);
    assert Best(procs, TASK0, m);
    assert Best(procs', m, m);
    assert Chosen(procs, procs', m, true);
    assert Cand(procs', TASK0) && Tks(procs', TASK0) == 9;
  }
}
