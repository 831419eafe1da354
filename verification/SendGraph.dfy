/** The graph of who waits to send to whom (ipc/send.c). Every thread has at most one
    recorded receiver; try_to_send follows these from the receiver to find out whether
    another send would make the threads wait in a circle. */
module SendGraph {
  import opened Basics

  const MAX_PROCS := 64
  const MAX_THREAD := 32

  /** A thread by its pid and tid as they are recorded, -1 for nobody. */
  datatype Link = Link(pid: int, tid: int)

  const NOBODY := Link(-1, -1)

  predicate InRange(t: Link) {
    0 <= t.pid < MAX_PROCS && 0 <= t.tid < MAX_THREAD
  }

  // ---------- chains ----------

  /** The thread n receivers down the chain from t. */
  function Hop(e: map<Link, Link>, t: Link, n: nat): Option<Link> {
    if n == 0 then Some(t)
    else
      var u := Hop(e, t, n - 1);
      if u.Some? && u.value in e then Some(e[u.value]) else None
  }

  /** No thread waits for itself, however long the chain. */
  ghost predicate Acyclic(e: map<Link, Link>) {
    forall t, n: nat :: n > 0 ==> Hop(e, t, n) != Some(t)
  }

  ghost predicate Reaches(e: map<Link, Link>, t: Link, u: Link) {
    exists n: nat :: Hop(e, t, n) == Some(u)
  }

  lemma {:induction false} HopAdd(e: map<Link, Link>, t: Link, i: nat, j: nat)
    requires Hop(e, t, i).Some?
    ensures Hop(e, t, i + j) == Hop(e, Hop(e, t, i).value, j)
  {
    if j > 0 {
      HopAdd(e, t, i, j - 1);
    }
  }

  /** As long as a chain does not pass src, changing src's receiver does not change it. */
  lemma {:induction false} HopSame(e: map<Link, Link>, e': map<Link, Link>, src: Link, t: Link, n: nat)
    requires forall u :: u != src ==> (u in e' <==> u in e) && (u in e ==> e'[u] == e[u])
    requires forall i: nat :: i < n ==> Hop(e', t, i) != Some(src)
    ensures Hop(e', t, n) == Hop(e, t, n)
  {
    if n > 0 {
      HopSame(e, e', src, t, n - 1);
      assert Hop(e', t, n - 1) != Some(src);
    }
  }

  /** The first time a chain gets to u. */
  lemma {:induction false} FirstHop(e: map<Link, Link>, t: Link, u: Link, n: nat) returns (m: nat)
    requires Hop(e, t, n) == Some(u)
    ensures m <= n && Hop(e, t, m) == Some(u) && forall i: nat :: i < m ==> Hop(e, t, i) != Some(u)
  {
    if k: nat :| k < n && Hop(e, t, k) == Some(u) {
      m := FirstHop(e, t, u, k);
    } else {
      m := n;
    }
  }

  /** Recording a receiver from which the sender cannot be reached keeps the graph acyclic. */
  lemma RecordAcyclic(e: map<Link, Link>, src: Link, dest: Link)
    requires Acyclic(e) && !Reaches(e, dest, src)
    ensures Acyclic(e[src := dest])
  {
    var e' := e[src := dest];
    forall t, n: nat | n > 0 && Hop(e', t, n) == Some(t)
      ensures false
    {
      if i: nat :| i < n && Hop(e', t, i) == Some(src) {
        HopAdd(e', t, i, n - i);
        HopAdd(e', t, n, i);
        assert Hop(e', src, n - i) == Some(t) && Hop(e', t, n + i) == Some(src);
        HopAdd(e', t, i, n);
        assert Hop(e', src, n) == Some(src);
        assert Hop(e', src, 0) == Some(src);
        assert Hop(e', src, 1) == Some(dest);
        HopAdd(e', src, 1, n - 1);
        var m := FirstHop(e', dest, src, n - 1);
        HopSame(e, e', src, dest, m);
      } else {
        HopSame(e, e', src, t, n);
      }
    }
  }

  /** Taking edges away keeps the graph acyclic. */
  lemma SubgraphAcyclic(e: map<Link, Link>, e': map<Link, Link>)
    requires Acyclic(e) && forall t :: t in e' ==> t in e && e'[t] == e[t]
    ensures Acyclic(e')
  {
    forall t, n: nat | n > 0
      ensures Hop(e', t, n) != Some(t)
    {
      SubgraphHop(e, e', t, n);
    }
  }

  lemma {:induction false} SubgraphHop(e: map<Link, Link>, e': map<Link, Link>, t: Link, n: nat)
    requires forall t :: t in e' ==> t in e && e'[t] == e[t]
    ensures Hop(e', t, n).Some? ==> Hop(e', t, n) == Hop(e, t, n)
  {
    if n > 0 {
      SubgraphHop(e, e', t, n - 1);
    }
  }

  /** In an acyclic graph a chain never comes to the same thread twice. */
  lemma NoReturn(e: map<Link, Link>, t: Link, i: nat, j: nat)
    requires Acyclic(e) && i < j && Hop(e, t, i).Some?
    ensures Hop(e, t, i) != Hop(e, t, j)
  {
    HopAdd(e, t, i, j - i);
  }

  /** A chain that ended goes no further. */
  lemma {:induction false} HopEnd(e: map<Link, Link>, t: Link, n: nat, k: nat)
    requires Hop(e, t, n).Some? && Hop(e, t, n).value !in e && n < k
    ensures Hop(e, t, k).None?
  {
    if k > n + 1 {
      HopEnd(e, t, n, k - 1);
    }
  }

  // ---------- the code ----------

  /** The thread slots of process pid on a page of zeros, with the first one set up. */
  function Paged<T>(m: map<Link, T>, pid: int, first: T, zero: T): (r: map<Link, T>)
    ensures forall t: Link :: t.pid != pid ==> (t in r <==> t in m) && (t in m ==> r[t] == m[t])
    ensures forall t: Link :: InRange(t) && t.pid == pid ==> t in r && r[t] == if t.tid == 0 then first else zero
  {
    m + map t | 0 <= t < MAX_THREAD :: Link(pid, t) := if t == 0 then first else zero
  }

  /** How a walk down a chain ends. */
  datatype Outcome = Gone | Nobody | Loops

  lemma NotSeen(e: map<Link, Link>, t: Link, n: nat, seen: set<Link>)
    requires Acyclic(e) && Hop(e, t, n).Some?
    requires forall u :: u in seen ==> exists i: nat :: i < n && Hop(e, t, i) == Some(u)
    ensures Hop(e, t, n).value !in seen
  {
    if Hop(e, t, n).value in seen {
      var i: nat :| i < n && Hop(e, t, i) == Hop(e, t, n);
      NoReturn(e, t, i, n);
    }
  }

  /** Every slot of the thread tables has its fields, and the recorded receivers are slots. */
  ghost predicate SlotsOk(procs: set<int>, taken: set<Link>, tId: map<Link, int>, sendTo: map<Link, Link>) {
    && (forall t :: InRange(t) ==> t in tId && t in sendTo)
    && (forall t :: t in taken ==> InRange(t) && t.pid in procs && (sendTo[t] == NOBODY || InRange(sendTo[t])))
  }

  ghost function EdgesOf(taken: set<Link>, sendTo: map<Link, Link>): map<Link, Link>
    requires forall t :: t in taken ==> t in sendTo
  {
    map t | t in taken && sendTo[t] != NOBODY :: sendTo[t]
  }

  /** A chain of threads that are taken, each with the next one as its recorded receiver. */
  predicate Chain(taken: set<Link>, sendTo: map<Link, Link>, path: seq<Link>) {
    path != [] && forall i, j :: 0 <= i < |path| && 0 <= j < |path| && j == i + 1 ==> Waits(taken, sendTo, path[i], path[j])
  }

  predicate Waits(taken: set<Link>, sendTo: map<Link, Link>, t: Link, u: Link) {
    t in taken && t in sendTo && sendTo[t] == u && u != Link(-1, -1)
  }

  /** A thread can be reached from another exactly if such a chain leads to it. */
  lemma ReachesIs(taken: set<Link>, sendTo: map<Link, Link>, t: Link, u: Link)
    requires forall t :: t in taken ==> t in sendTo
    ensures Reaches(EdgesOf(taken, sendTo), t, u) <==>
      exists path :: Chain(taken, sendTo, path) && path[0] == t && path[|path| - 1] == u
  {
    var e := EdgesOf(taken, sendTo);
    if n: nat :| Hop(e, t, n) == Some(u) {
      var path := PathOf(taken, sendTo, t, u, n);
    }
    if path :| Chain(taken, sendTo, path) && path[0] == t && path[|path| - 1] == u {
      PathHop(taken, sendTo, path);
    }
  }

  lemma {:induction false} PathOf(taken: set<Link>, sendTo: map<Link, Link>, t: Link, u: Link, n: nat)
    returns (path: seq<Link>)
    requires (forall t :: t in taken ==> t in sendTo) && Hop(EdgesOf(taken, sendTo), t, n) == Some(u)
    ensures Chain(taken, sendTo, path) && |path| == n + 1 && path[0] == t && path[n] == u
    decreases n
  {
    if n == 0 {
      path := [t];
    } else {
      var v := Hop(EdgesOf(taken, sendTo), t, n - 1).value;
      path := PathOf(taken, sendTo, t, v, n - 1);
      path := path + [u];
    }
  }

  lemma {:induction false} PathHop(taken: set<Link>, sendTo: map<Link, Link>, path: seq<Link>)
    requires (forall t :: t in taken ==> t in sendTo) && Chain(taken, sendTo, path)
    ensures Hop(EdgesOf(taken, sendTo), path[0], |path| - 1) == Some(path[|path| - 1])
  {
    if |path| > 1 {
      PathHop(taken, sendTo, path[..|path| - 1]);
      assert Waits(taken, sendTo, path[|path| - 2], path[|path| - 1]);
    }
  }

  /** And the graph is acyclic exactly if no chain of two or more comes back to where it began. */
  lemma AcyclicIs(taken: set<Link>, sendTo: map<Link, Link>)
    requires forall t :: t in taken ==> t in sendTo
    ensures Acyclic(EdgesOf(taken, sendTo)) <==>
      forall path :: Chain(taken, sendTo, path) && |path| > 1 ==> path[0] != path[|path| - 1]
  {
    var e := EdgesOf(taken, sendTo);
    if Acyclic(e) {
      forall path | Chain(taken, sendTo, path) && |path| > 1
        ensures path[0] != path[|path| - 1]
      {
        PathHop(taken, sendTo, path);
      }
    } else {
      var t, n: nat :| n > 0 && Hop(e, t, n) == Some(t);
      var path := PathOf(taken, sendTo, t, t, n);
    }
  }

  /** A new process adds slots but no thread that is taken, and so no edge. */
  lemma NewProcSlots(procs: set<int>, taken: set<Link>, tId: map<Link, int>, sendTo: map<Link, Link>, pid: int)
    requires SlotsOk(procs, taken, tId, sendTo) && 0 <= pid < MAX_PROCS && pid !in procs
    ensures forall t :: t in taken ==> t in sendTo
    ensures var sendTo' := Paged(sendTo, pid, NOBODY, Link(0, 0));
      && SlotsOk(procs + {pid}, taken, Paged(tId, pid, 0, 0), sendTo') && EdgesOf(taken, sendTo') == EdgesOf(taken, sendTo)
  {
    hide Paged;
    assert forall t :: t in taken ==> t.pid != pid;
  }

  lemma InRangeSlots(procs: set<int>, taken: set<Link>, tId: map<Link, int>, sendTo: map<Link, Link>)
    requires SlotsOk(procs, taken, tId, sendTo)
    ensures forall t :: InRange(t) ==> t in tId && t in sendTo
    ensures forall t :: t in taken ==> t in sendTo
  {
  }

  class Threads {
    var procs: set<int>        // the pids with procs_ptr[pid] != 0
    var taken: set<Link>        // thread[tid].taken
    var tId: map<Link, int>     // thread[tid].t_id
    var sendTo: map<Link, Link>  // thread[tid].send_q.send_to_pid, send_to_tid
    var from: map<Link, Link>    // thread[tid].send_q.from_pid, from_tid

    predicate Taken(t: Link)
      reads this
    {
      t.pid in procs && t in taken
    }

    ghost predicate Valid()
      reads this
    {
      SlotsOk(procs, taken, tId, sendTo)
    }

    /** The graph: each taken thread with its recorded receiver. */
    ghost function Edges(): (e: map<Link, Link>)
      requires Valid()
      reads this
    {
      EdgesOf(taken, sendTo)
    }

    /** The chain from dest ends at a taken thread, not at a slot without one. */
    ghost predicate EndsAtThread(dest: Link)
      requires Valid()
      reads this
    {
      exists n: nat :: Hop(Edges(), dest, n).Some? && Taken(Hop(Edges(), dest, n).value) && Hop(Edges(), dest, n).value !in Edges()
    }

    /** Task 0 with its first thread (kernel/task0/setup.c:45-61); no other slot is in use. */
    constructor ()
      ensures Valid() && Acyclic(Edges())
      ensures procs == {0} && taken == {Link(0, 0)} && Edges() == map[]
    {
      procs := {0};
      taken := {Link(0, 0)};
      tId := map p, t | 0 <= p < MAX_PROCS && 0 <= t < MAX_THREAD :: Link(p, t) := 0;
      sendTo := (map p, t | 0 <= p < MAX_PROCS && 0 <= t < MAX_THREAD :: Link(p, t) := Link(0, 0))[Link(0, 0) := NOBODY];
      from := map[Link(0, 0) := NOBODY];
      new;
      forall t | InRange(t)
        ensures t in tId && t in sendTo
      {
        assert t == Link(t.pid, t.tid);
      }
      assert Edges() == map[];
    }

    /** The thread tables of a new process (kernel/creatp.c:45-88), its page taken to hold zeros:
        its first thread sends to nobody, and no thread of it is marked taken. */
    method NewProc(pid: int)
      requires Valid() && Acyclic(Edges()) && 0 <= pid < MAX_PROCS && pid !in procs
      modifies this`procs, this`tId, this`sendTo, this`from
      ensures Valid() && Acyclic(Edges()) && Edges() == old(Edges())
      ensures procs == old(procs) + {pid} && taken == old(taken)
      ensures sendTo[Link(pid, 0)] == NOBODY && tId[Link(pid, 0)] == 0
      ensures forall t :: InRange(t) && t.pid != pid ==> sendTo[t] == old(sendTo)[t] && tId[t] == old(tId)[t]
    {
      hide Paged, Acyclic, Hop, SlotsOk, EdgesOf;
      NewProcSlots(procs, taken, tId, sendTo, pid);
      InRangeSlots(procs, taken, tId, sendTo);
      procs := procs + {pid};
      tId, sendTo, from := Paged(tId, pid, 0, 0), Paged(sendTo, pid, NOBODY, Link(0, 0)), Paged(from, pid, NOBODY, Link(0, 0));
    }

    /** sys_add_thread (kernel/syscall.c:61-80): the first slot after thread 0 with no id. */
    method AddThread(pid: int) returns (r: int)
      requires Valid() && Acyclic(Edges()) && pid in procs && 0 <= pid < MAX_PROCS
      modifies this`taken, this`tId, this`sendTo, this`from
      ensures Valid() && Acyclic(Edges())
      ensures r == -1 || (1 <= r < 32 && old(tId)[Link(pid, r)] == 0)
      ensures forall i :: 1 <= i < (if r == -1 then 32 else r) ==> old(tId)[Link(pid, i)] != 0
      ensures r == -1 ==> taken == old(taken) && tId == old(tId) && sendTo == old(sendTo) && from == old(from)
      ensures r != -1 ==> taken == old(taken) + {Link(pid, r)} && tId == old(tId)[Link(pid, r) := r]
      ensures r != -1 ==> sendTo == old(sendTo)[Link(pid, r) := NOBODY] && from == old(from)[Link(pid, r) := NOBODY]
    {
      var i := 1;
      while i < MAX_THREAD
        invariant 1 <= i <= MAX_THREAD
        invariant forall k :: 1 <= k < i ==> tId[Link(pid, k)] != 0
      {
        assert InRange(Link(pid, i));
        if tId[Link(pid, i)] == 0 {
          ghost var e := Edges();
          tId := tId[Link(pid, i) := i];
          sendTo := sendTo[Link(pid, i) := NOBODY];
          from := from[Link(pid, i) := NOBODY];
          taken := taken + {Link(pid, i)};
          SubgraphAcyclic(e, Edges());
          return i;
        }
        i := i + 1;
      }
      return -1;
    }

    /** What sys_end_thread does to the slot of the thread it ends (kernel/syscall.c:110-111). */
    method EndThread(t: Link)
      requires Valid() && Acyclic(Edges()) && InRange(t)
      modifies this`taken, this`tId
      ensures Valid() && Acyclic(Edges())
      ensures taken == old(taken) - {t} && tId == old(tId)[t := 0]
    {
      ghost var e := Edges();
      tId := tId[t := 0];
      taken := taken - {t};
      SubgraphAcyclic(e, Edges());
    }

    /** The sender's record (ipc/send.c:34-38). */
    method Record(src: Link, dest: Link)
      requires Valid() && InRange(src) && InRange(dest) && Acyclic(Edges()) && !Reaches(Edges(), dest, src)
      modifies this`sendTo, this`from
      ensures Valid() && Acyclic(Edges())
      ensures sendTo == old(sendTo)[src := dest] && from == old(from)[src := src]
    {
      ghost var e := Edges();
      RecordAcyclic(e, src, dest);
      from := from[src := src];
      sendTo := sendTo[src := dest];
      assert Edges() == if Taken(src) then e[src := dest] else e;
    }

    /** The walk of try_to_send (ipc/send.c:23-43) down the chain from dest, until it comes to a
        slot without a thread, to a thread that sends to nobody, or to src. */
    method Walk(src: Link, dest: Link) returns (w: Outcome)
      requires Valid() && InRange(dest) && src != dest && Acyclic(Edges())
      ensures w.Loops? <==> Reaches(Edges(), dest, src)
      ensures w.Nobody? <==> !Reaches(Edges(), dest, src) && EndsAtThread(dest)
    {
      ghost var e := Edges();
      var next := dest;
      ghost var n, seen: set<Link> := 0, {};
      while true
        invariant InRange(next) && Hop(e, dest, n) == Some(next)
        invariant forall i: nat :: i <= n ==> Hop(e, dest, i) != Some(src)
        invariant seen <= e.Keys && forall t :: t in seen ==> exists i: nat :: i < n && Hop(e, dest, i) == Some(t)
        decreases e.Keys - seen
      {
        var temp := next;
        if temp.pid !in procs || temp !in taken {
          Unreached(e, dest, src, n);
          OneEnd(e, dest, n);
          return Gone;
        }
        next := sendTo[temp];
        if next.pid == -1 && next.tid == -1 {
          Unreached(e, dest, src, n);
          return Nobody;
        }
        assert Hop(e, dest, n + 1) == Some(next);
        if src == next {
          return Loops;
        }
        NotSeen(e, dest, n, seen);
        seen := seen + {temp};
        n := n + 1;
      }
    }

    /** try_to_send (ipc/send.c:14-44): the walk ends, tells exactly whether dest is already
        waiting for src, and a send that is recorded keeps the graph acyclic. */
    method TryToSend(src: Link, dest: Link) returns (loops: bool)
      requires Valid() && InRange(src) && InRange(dest) && src != dest && Acyclic(Edges())
      modifies this`sendTo, this`from
      ensures Valid() && Acyclic(Edges())
      ensures loops <==> Reaches(old(Edges()), dest, src)
      ensures if !loops && old(EndsAtThread(dest))
        then sendTo == old(sendTo)[src := dest] && from == old(from)[src := src]
        else sendTo == old(sendTo) && from == old(from)
    {
      hide Acyclic, Hop, InRange;
      var w := Walk(src, dest);
      if w.Nobody? {
        Record(src, dest);
      }
      return w.Loops?;
    }
  }

  /** A thread that is let send to itself waits for itself: sys_sendmail has to refuse it. */
  lemma SelfSendWaits(e: map<Link, Link>, src: Link)
    ensures !Acyclic(e[src := src])
  {
    assert Hop(e[src := src], src, 0) == Some(src);
    assert Hop(e[src := src], src, 1) == Some(src);
  }

  /** A chain ends in one place. */
  lemma OneEnd(e: map<Link, Link>, dest: Link, n: nat)
    requires Hop(e, dest, n).Some? && Hop(e, dest, n).value !in e
    ensures forall k: nat :: Hop(e, dest, k).Some? && Hop(e, dest, k).value !in e ==> k == n
  {
    forall k: nat | Hop(e, dest, k).Some? && Hop(e, dest, k).value !in e
      ensures k == n
    {
      if k > n {
        HopEnd(e, dest, n, k);
      } else if k < n {
        HopEnd(e, dest, k, n);
      }
    }
  }

  lemma Unreached(e: map<Link, Link>, dest: Link, src: Link, n: nat)
    requires Hop(e, dest, n).Some? && Hop(e, dest, n).value !in e
    requires forall i: nat :: i <= n ==> Hop(e, dest, i) != Some(src)
    ensures !Reaches(e, dest, src)
  {
    forall k: nat | k > n
      ensures Hop(e, dest, k).None?
    {
      HopEnd(e, dest, n, k);
    }
  }
}
