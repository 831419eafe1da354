/** What several parts of the kernel share. */
module Basics {

  datatype Option<T> = None | Some(value: T)

  function Max(a: int, b: int): int {
    if a >= b then a else b
  }

  /** Thread t of process p. */
  datatype Pos = Pos(p: nat, t: nat)

  // The states of a thread (include/casey/sched.h:17-25).
  const TS_RUNNING := 0
  const TS_STUCK := 1
  const TS_SENDING := 2
  const TS_RECVING := 3
  const TS_FULL_WAIT := 6
}
