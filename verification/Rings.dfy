/** Circular doubly linked lists whose links are kept in two tables (fs/buffer.c).
    A pointer to a buffer head is its index in the head table. */
module Rings {

  const NIL := -1

  ghost predicate NoDup<T>(s: seq<T>) {
    forall i, j :: 0 <= i < j < |s| ==> s[i] != s[j]
  }

  function HeadOf(s: seq<nat>): int {
    if s == [] then NIL else s[0]
  }

  /** s without its k-th element. */
  function Without<T>(s: seq<T>, k: nat): seq<T>
    requires k < |s|
  {
    s[..k] + s[k + 1..]
  }

  ghost predicate Within(s: seq<nat>, n: nat) {
    forall i :: 0 <= i < |s| ==> s[i] < n
  }

  /** s, in this order, is a ring through next and, backwards, through prev. */
  ghost predicate Ring(next: seq<int>, prev: seq<int>, s: seq<nat>) {
    && |next| == |prev| && Within(s, |next|) && NoDup(s)
    && (forall i {:trigger next[s[i]]} :: 0 <= i < |s| ==> next[s[i]] == if i + 1 < |s| then s[i + 1] else s[0])
    && (forall i {:trigger prev[s[i]]} :: 0 <= i < |s| ==> prev[s[i]] == if i > 0 then s[i - 1] else s[|s| - 1])
  }

  /** Linking p in before the head of a non-empty ring makes it the last node. */
  lemma RingAppend(next: seq<int>, prev: seq<int>, s: seq<nat>, p: nat)
    requires Ring(next, prev, s) && s != [] && p < |next| && p !in s
    ensures prev[s[0]] == s[|s| - 1]
    ensures Ring(next[s[|s| - 1] := p][p := s[0]], prev[p := s[|s| - 1]][s[0] := p], s + [p])
  {
    var n, u := |s|, s + [p];
    assert prev[s[0]] == s[n - 1];
    var next', prev' := next[s[n - 1] := p][p := s[0]], prev[p := s[n - 1]][s[0] := p];
    assert NoDup(u) && Within(u, |next|);
    forall i | 0 <= i < |u|
      ensures next'[u[i]] == if i + 1 < |u| then u[i + 1] else u[0]
    {
      assert i < n ==> u[i] == s[i] && next[s[i]] == if i + 1 < n then s[i + 1] else s[0];
    }
    forall i | 0 <= i < |u|
      ensures prev'[u[i]] == if i > 0 then u[i - 1] else u[|u| - 1]
    {
      assert i < n ==> u[i] == s[i] && prev[s[i]] == if i > 0 then s[i - 1] else s[n - 1];
    }
  }

  /** Unlinking the k-th node of a ring of at least two leaves the ring of the others. */
  lemma RingRemove(next: seq<int>, prev: seq<int>, s: seq<nat>, k: nat)
    requires Ring(next, prev, s) && k < |s| && |s| > 1
    ensures var p := s[k];
      && p < |next| == |prev| && 0 <= prev[p] < |next| && 0 <= next[p] < |next|
      && prev[p] in s && next[p] in s && prev[p] != p && next[p] != p
      && next[p] == s[if k + 1 < |s| then k + 1 else 0]
      && Ring(next[prev[p] := next[p]], prev[next[p] := prev[p]], Without(s, k))
  {
    var n, u, p := |s|, Without(s, k), s[k];
    var l, r := if k > 0 then k - 1 else n - 1, if k + 1 < n then k + 1 else 0;
    assert prev[p] == s[l] && next[p] == s[r];
    var next', prev' := next[s[l] := s[r]], prev[s[r] := s[l]];
    forall i | 0 <= i < |u|
      ensures next'[u[i]] == if i + 1 < |u| then u[i + 1] else u[0]
      ensures prev'[u[i]] == if i > 0 then u[i - 1] else u[|u| - 1]
    {
      RemovedAt(next, prev, s, k, i);
    }
    assert NoDup(u) && Within(u, |next|);
  }

  lemma RemovedAt(next: seq<int>, prev: seq<int>, s: seq<nat>, k: nat, i: nat)
    requires Ring(next, prev, s) && k < |s| && i < |s| - 1
    ensures var n, u := |s|, Without(s, k);
      var l, r := if k > 0 then k - 1 else n - 1, if k + 1 < n then k + 1 else 0;
      && next[s[l] := s[r]][u[i]] == (if i + 1 < |u| then u[i + 1] else u[0])
      && prev[s[r] := s[l]][u[i]] == if i > 0 then u[i - 1] else u[|u| - 1]
  {
    var n, u := |s|, Without(s, k);
    var l, r := if k > 0 then k - 1 else n - 1, if k + 1 < n then k + 1 else 0;
    var j := if i < k then i else i + 1;
    assert u[i] == s[j];
    assert next[s[j]] == if j + 1 < n then s[j + 1] else s[0];
    assert prev[s[j]] == if j > 0 then s[j - 1] else s[n - 1];
    assert s[j] == s[l] <==> j == l;
    assert s[j] == s[r] <==> j == r;
  }

  /** Taking the head off: what is left is the ring of the others, and a link of the head
      may then be cleared. */
  lemma RingTail(next: seq<int>, prev: seq<int>, s: seq<nat>, z: int)
    requires Ring(next, prev, s) && |s| > 1
    ensures var p := s[0];
      && p < |next| == |prev| && 0 <= prev[p] < |next| && 0 <= next[p] < |next| && next[p] == s[1] && p !in s[1..]
      && Ring(next[prev[p] := next[p]][p := z], prev[next[p] := prev[p]][p := z], s[1..])
  {
    var p := s[0];
    RingRemove(next, prev, s, 0);
    assert s[1..] == Without(s, 0);
    assert p !in s[1..];
    RingKept(next[prev[p] := next[p]], prev[next[p] := prev[p]],
             next[prev[p] := next[p]][p := z], prev[next[p] := prev[p]][p := z], s[1..]);
  }

  /** A node linked to itself is a ring of its own. */
  lemma RingAlone(next: seq<int>, prev: seq<int>, p: nat)
    requires |next| == |prev| && p < |next| && next[p] == prev[p] == p
    ensures Ring(next, prev, [p])
  {
  }

  /** Walking a ring from both ends: the two pointers are at places m and |s| - 1 - m. */
  lemma RingEnds(next: seq<int>, prev: seq<int>, s: seq<nat>, m: nat)
    requires Ring(next, prev, s) && m <= |s| - 1 - m
    ensures var n, p, q := |s|, s[m], s[|s| - 1 - m];
      && p < |next| == |prev| && q < |next|
      && (next[p] == q <==> n == 1 || m + 1 == n - 1 - m) && (p == q <==> m == n - 1 - m)
      && (m + 1 < n ==> next[p] == s[m + 1] && prev[q] == s[n - 2 - m])
      && (m == 0 ==> prev[p] == q)
  {
    var n, p, q := |s|, s[m], s[|s| - 1 - m];
    assert next[s[m]] == if m + 1 < n then s[m + 1] else s[0];
    assert prev[s[n - 1 - m]] == if n - 1 - m > 0 then s[n - 2 - m] else s[n - 1];
    assert prev[s[m]] == if m > 0 then s[m - 1] else s[n - 1];
  }

  lemma RingEmpty(next: seq<int>, prev: seq<int>)
    requires |next| == |prev|
    ensures Ring(next, prev, [])
  {
  }

  lemma RingSingle(next: seq<int>, prev: seq<int>, s: seq<nat>, k: nat)
    requires Ring(next, prev, s) && k < |s|
    ensures s[k] < |next| == |prev| && 0 <= next[s[k]] < |next| && 0 <= prev[s[k]] < |next|
    ensures next[s[k]] == s[k] <==> |s| == 1
  {
    assert next[s[k]] == if k + 1 < |s| then s[k + 1] else s[0];
    assert prev[s[k]] == if k > 0 then s[k - 1] else s[|s| - 1];
  }

  lemma RingSizes(next: seq<int>, prev: seq<int>, s: seq<nat>)
    requires Ring(next, prev, s)
    ensures |next| == |prev| && Within(s, |next|) && NoDup(s)
  {
  }

  /** A ring does not notice links that change outside it. */
  lemma RingKept(next: seq<int>, prev: seq<int>, next': seq<int>, prev': seq<int>, s: seq<nat>)
    requires Ring(next, prev, s) && |next'| == |prev'| == |next|
    requires forall i :: 0 <= i < |s| ==> next'[s[i]] == next[s[i]] && prev'[s[i]] == prev[s[i]]
    ensures Ring(next', prev', s)
  {
  }
}
