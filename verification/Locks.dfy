/** The region locks of src/gqf.c: qf_lock takes up to three neighbouring locks in ascending order,
    qf_unlock releases the same ones. */
module Locks {
  import opened Numbers

  const NUM_SLOTS_TO_LOCK: nat := 65536
  const CLUSTER_SIZE: nat := 16384

  /** The locks of a call, in the order in which they are taken. */
  function LockList(index: nat, small: bool): (l: seq<nat>)
    ensures 1 <= |l| <= 3
  {
    var b, offset := index / NUM_SLOTS_TO_LOCK, index % NUM_SLOTS_TO_LOCK;
    if small then [b] + if NUM_SLOTS_TO_LOCK - offset <= CLUSTER_SIZE then [b + 1] else []
    else (if index >= NUM_SLOTS_TO_LOCK && offset <= CLUSTER_SIZE then [b - 1] else []) + [b, b + 1]
  }

  lemma LockListAscends(index: nat, small: bool)
    ensures forall i, j | 0 <= i < j < |LockList(index, small)| :: LockList(index, small)[i] < LockList(index, small)[j]
  {
  }

  /** Slots within a cluster of the home slot, which the operation may touch: ahead of it for an insert,
      on both sides for a deletion or an extension. */
  ghost predicate InWindow(index: nat, small: bool, slot: nat) {
    (if small then index <= slot else index <= slot + 16384) && slot <= index + 16384
  }

  /** Every slot of the window lies in a locked region, and the region's lock exists. */
  lemma WindowIsLocked(index: nat, small: bool, slot: nat, xnslots: nat)
    requires InWindow(index, small, slot)
    ensures slot / 65536 in LockList(index, small)
    ensures index < xnslots ==> forall l | l in LockList(index, small) :: l < xnslots / NUM_SLOTS_TO_LOCK + 2
  {
    var b, offset := index / NUM_SLOTS_TO_LOCK, index % NUM_SLOTS_TO_LOCK;
    var s := slot / NUM_SLOTS_TO_LOCK;
    assert s == b || s == b + 1 || (b > 0 && s == b - 1);
    if index < xnslots {
      DivMonotone(index, xnslots);
    }
    var l := LockList(index, small);
    if s == b {
      assert l[0] == b || l[1] == b;
    } else if s == b + 1 {
      assert l[|l| - 1] == b + 1;
    } else {
      assert l[0] == b - 1;
    }
  }

  /** A small call locks no more regions than its window reaches. */
  lemma SmallLocksExact(index: nat, l: nat)
    ensures l in LockList(index, true) <==> exists slot: nat :: InWindow(index, true, slot) && slot / 65536 == l
  {
    var b, offset := index / 65536, index % 65536;
    assert index == 65536 * b + offset;
    if l == b {
      assert InWindow(index, true, index);
    } else if l == b + 1 && 65536 - offset <= 16384 {
      var slot: nat := 65536 * (b + 1);
      DivModUnique(slot, 65536, b + 1, 0);
      assert InWindow(index, true, slot);
    }
  }

  lemma DivMonotone(a: nat, b: nat)
    requires a <= b
    ensures a / NUM_SLOTS_TO_LOCK <= b / NUM_SLOTS_TO_LOCK
  {
  }

  // ---- one call, alone ------------------------------------------------------------------------

  lemma LocksAround(index: nat)
    ensures var b := index / NUM_SLOTS_TO_LOCK;
            var back := index >= NUM_SLOTS_TO_LOCK && index % NUM_SLOTS_TO_LOCK <= CLUSTER_SIZE;
            forall l: nat :: l in LockList(index, false) <==> l == b || l == b + 1 || (back && l == b - 1)
  {
    var b := index / NUM_SLOTS_TO_LOCK;
    var list := LockList(index, false);
    if |list| == 3 {
      assert list == [b - 1, b, b + 1];
    } else {
      assert list == [b, b + 1];
    }
  }

  /** The lock words after the locks in `l` were set to v. */
  ghost function SetAll(locks: seq<bool>, l: seq<nat>, v: bool): (r: seq<bool>)
    ensures |r| == |locks|
    ensures forall i | 0 <= i < |locks| :: r[i] == if i in l then v else locks[i]
  {
    seq(|locks|, i requires 0 <= i < |locks| => if i in l then v else locks[i])
  }

  class RuntimeData {
    const locks: array<bool>

    constructor (xnslots: nat)
      ensures locks.Length == xnslots / NUM_SLOTS_TO_LOCK + 2 && fresh(locks) && forall i | 0 <= i < locks.Length ::
              !locks[i]
    {
      locks := new bool[xnslots / NUM_SLOTS_TO_LOCK + 2](_ => false);
    }

    /** qf_spin_lock with one attempt: test and set. */
    method SpinLock(l: nat) returns (ok: bool)
      requires l < locks.Length
      modifies locks
      ensures ok == !old(locks[l]) && locks[..] == old(locks[..])[l := true]
    {
      ok := !locks[l];
      locks[l] := true;
    }

    method SpinUnlock(l: nat)
      requires l < locks.Length
      modifies locks
      ensures locks[..] == old(locks[..])[l := false]
    {
      locks[l] := false;
    }

    /** qf_lock (src/gqf.c:144-225) without waiting: all locks of the call, or none. */
    method Lock(index: nat, small: bool) returns (ok: bool)
      requires forall l | l in LockList(index, small) :: l < locks.Length
      modifies locks
      ensures ok <==> forall l | l in LockList(index, small) :: !old(locks[..])[l]
      ensures locks[..] == if ok then SetAll(old(locks[..]), LockList(index, small), true) else old(locks[..])
    {
      ghost var list := LockList(index, small);
      var b, offset := index / NUM_SLOTS_TO_LOCK, index % NUM_SLOTS_TO_LOCK;
      if small {
        assert list == (if NUM_SLOTS_TO_LOCK - offset <= CLUSTER_SIZE then [b, b + 1] else [b]);
        assert b in list && (NUM_SLOTS_TO_LOCK - offset <= CLUSTER_SIZE ==> b + 1 in list);
        ok := SpinLock(b);
        if !ok {
          return;
        }
        if NUM_SLOTS_TO_LOCK - offset <= CLUSTER_SIZE {
          ok := SpinLock(b + 1);
          if !ok {
            SpinUnlock(b);
            return;
          }
        }
      } else {
        ok := LockAround(index);
      }
    }

    /** The branch of qf_lock for operations that may also move slots behind them. */
    method LockAround(index: nat) returns (ok: bool)
      requires forall l | l in LockList(index, false) :: l < locks.Length
      modifies locks
      ensures ok <==> forall l | l in LockList(index, false) :: !old(locks[..])[l]
      ensures locks[..] == if ok then SetAll(old(locks[..]), LockList(index, false), true) else old(locks[..])
    {
      hide LockList;
      LocksAround(index);
      var b, offset := index / NUM_SLOTS_TO_LOCK, index % NUM_SLOTS_TO_LOCK;
      var back := index >= NUM_SLOTS_TO_LOCK && offset <= CLUSTER_SIZE;
      assert b in LockList(index, false) && b + 1 in LockList(index, false)
          && (back ==> b - 1 in LockList(index, false));
      if back {
        ok := SpinLock(b - 1);
        if !ok {
          return;
        }
      }
      ok := SpinLock(b);
      if !ok {
        if back {
          SpinUnlock(b - 1);
        }
        return;
      }
      ok := SpinLock(b + 1);
      if !ok {
        SpinUnlock(b);
        if back {
          SpinUnlock(b - 1);
        }
        return;
      }
    }

    /** qf_unlock (src/gqf.c:227-242) */
    method Unlock(index: nat, small: bool)
      requires forall l | l in LockList(index, small) :: l < locks.Length
      modifies locks
      ensures locks[..] == SetAll(old(locks[..]), LockList(index, small), false)
    {
      ghost var list := LockList(index, small);
      var b, offset := index / NUM_SLOTS_TO_LOCK, index % NUM_SLOTS_TO_LOCK;
      if small {
        assert list == (if NUM_SLOTS_TO_LOCK - offset <= CLUSTER_SIZE then [b, b + 1] else [b]);
        assert b in list && (NUM_SLOTS_TO_LOCK - offset <= CLUSTER_SIZE ==> b + 1 in list);
        if NUM_SLOTS_TO_LOCK - offset <= CLUSTER_SIZE {
          SpinUnlock(b + 1);
        }
        SpinUnlock(b);
      } else {
        var back := index >= NUM_SLOTS_TO_LOCK && offset <= CLUSTER_SIZE;
        LocksAround(index);
        assert b in list && b + 1 in list && (back ==> b - 1 in list);
        SpinUnlock(b + 1);
        SpinUnlock(b);
        if back {
          SpinUnlock(b - 1);
        }
      }
    }
  }

  /** Unlocking with the same arguments undoes a successful lock. */
  lemma UnlockUndoesLock(locks: seq<bool>, index: nat, small: bool)
    requires forall l | l in LockList(index, small) :: l < |locks| && !locks[l]
    ensures SetAll(SetAll(locks, LockList(index, small), true), LockList(index, small), false) == locks
  {
  }

  // ---- many threads ---------------------------------------------------------------------------

  /** A thread holds the first `taken` locks of its list. It is between calls, taking locks, inside the
      protected section, or giving locks back; a call that does not wait gives up at the first lock
      that is taken. */
  datatype Thread =
    | Idle
    | Taking(list: seq<nat>, taken: nat, wait: bool)
    | Inside(list: seq<nat>)
    | Releasing(list: seq<nat>, taken: nat)

  datatype Owner = Free | By(thread: nat)

  datatype State = State(owners: seq<Owner>, threads: seq<Thread>)

  function Held(t: Thread): (h: seq<nat>)
  {
    match t
    case Idle => []
    case Taking(list, taken, _) => if taken <= |list| then list[..taken] else []
    case Inside(list) => list
    case Releasing(list, taken) => if taken <= |list| then list[..taken] else []
  }

  ghost predicate IsCall(list: seq<nat>, n: nat) {
    exists index: nat, small: bool :: list == LockList(index, small) && forall l | l in list :: l < n
  }

  ghost predicate ThreadOk(t: Thread, n: nat) {
    match t
    case Idle => true
    case Taking(list, taken, _) => IsCall(list, n) && taken < |list|
    case Inside(list) => IsCall(list, n)
    case Releasing(list, taken) => IsCall(list, n) && 0 < taken <= |list|
  }

  /** Each lock is owned by exactly the thread that holds it. */
  ghost predicate Inv(s: State) {
    && (forall t {:trigger s.threads[t]} | 0 <= t < |s.threads| :: ThreadOk(s.threads[t], |s.owners|))
    && (forall l: nat, t: nat {:trigger s.owners[l], s.threads[t]} | l < |s.owners| && t < |s.threads| ::
          l in Held(s.threads[t]) <==> s.owners[l] == By(t))
  }

  /** An atomic test and set, or an atomic release, or the start of a call. */
  ghost predicate ThreadSteps(s: State, s': State, t: nat)
    requires t < |s.threads|
  {
    match s.threads[t]
    case Idle =>
      exists list, wait :: IsCall(list, |s.owners|) && s' == s.(threads := s.threads[t := Taking(list, 0, wait)])
    case Taking(list, taken, wait) =>
      && taken < |list| && list[taken] < |s.owners|
      && if s.owners[list[taken]] == Free then
           s' == State(s.owners[list[taken] := By(t)],
                       s.threads[t := if taken + 1 == |list| then Inside(list) else Taking(list, taken + 1, wait)])
         else !wait && s' == s.(threads := s.threads[t := if taken == 0 then Idle else Releasing(list, taken)])
    case Inside(list) => s' == s.(threads := s.threads[t := Releasing(list, |list|)])
    case Releasing(list, taken) =>
      0 < taken <= |list| && list[taken - 1] < |s.owners| &&
      s' == State(s.owners[list[taken - 1] := Free], s.threads[t := if taken == 1 then Idle else Releasing(list,
          taken - 1)])
  }

  ghost predicate Init(s: State) {
    (forall l | 0 <= l < |s.owners| :: s.owners[l] == Free) && (forall t | 0 <= t < |s.threads| :: s.threads[t] == Idle)
  }

  lemma CallAscends(list: seq<nat>, n: nat)
    requires IsCall(list, n)
    ensures list != [] && (forall i, j | 0 <= i < j < |list| :: list[i] < list[j])
    ensures forall i {:trigger list[i]} | 0 <= i < |list| :: list[i] < n
  {
    var index: nat, small: bool :| list == LockList(index, small) && forall l | l in list :: l < n;
    LockListAscends(index, small);
    forall i | 0 <= i < |list|
      ensures list[i] < n
    {
      assert list[i] in list;
    }
  }

  /** One thread moved; the locks it holds changed as the owners did, and no other owner changed. */
  lemma ThreadMoved(s: State, s': State, t: nat, v: Thread)
    requires Inv(s) && t < |s.threads| && s'.threads == s.threads[t := v] && |s'.owners| == |s.owners|
             && ThreadOk(v, |s.owners|)
    requires forall l | 0 <= l < |s.owners| :: l in Held(v) <==> s'.owners[l] == By(t)
    requires forall l | 0 <= l < |s.owners| :: s'.owners[l] != s.owners[l] ==>
             s.owners[l] in {Free, By(t)} && s'.owners[l] in {Free, By(t)}
    ensures Inv(s')
  {
    hide Held, ThreadOk;
    forall l: nat, u: nat | l < |s'.owners| && u < |s'.threads|
      ensures l in Held(s'.threads[u]) <==> s'.owners[l] == By(u)
    {
      if u != t {
        assert l in Held(s.threads[u]) <==> s.owners[l] == By(u);
      }
    }
  }

  lemma Holding(s: State, t: nat)
    requires Inv(s) && t < |s.threads|
    ensures ThreadOk(s.threads[t], |s.owners|)
    ensures forall l | 0 <= l < |s.owners| :: l in Held(s.threads[t]) <==> s.owners[l] == By(t)
  {
  }

  lemma Prefix(list: seq<nat>, k: nat)
    requires k < |list|
    ensures list[..k + 1] == list[..k] + [list[k]] && list[..|list|] == list && list[..0] == []
  {
  }

  lemma TakingKeepsInv(s: State, s': State, t: nat)
    requires Inv(s) && t < |s.threads| && s.threads[t].Taking? && ThreadSteps(s, s', t)
    ensures Inv(s')
  {
    hide IsCall, Inv;
    Holding(s, t);
    CallAscends(s.threads[t].list, |s.owners|);
    Prefix(s.threads[t].list, s.threads[t].taken);
    ThreadMoved(s, s', t, s'.threads[t]);
  }

  lemma ReleasingKeepsInv(s: State, s': State, t: nat)
    requires Inv(s) && t < |s.threads| && s.threads[t].Releasing? && ThreadSteps(s, s', t)
    ensures Inv(s')
  {
    hide IsCall, Inv;
    Holding(s, t);
    CallAscends(s.threads[t].list, |s.owners|);
    Prefix(s.threads[t].list, s.threads[t].taken - 1);
    ThreadMoved(s, s', t, s'.threads[t]);
  }

  /** Every step of every thread keeps locks and owners in step. */
  lemma StepKeepsInv(s: State, s': State, t: nat)
    requires Inv(s) && t < |s.threads| && ThreadSteps(s, s', t)
    ensures Inv(s')
  {
    hide IsCall, Inv;
    Holding(s, t);
    match s.threads[t] {
      case Idle =>
        var list, wait :| IsCall(list, |s.owners|) && s' == s.(threads := s.threads[t := Taking(list, 0, wait)]);
        CallAscends(list, |s.owners|);
        ThreadMoved(s, s', t, s'.threads[t]);
      case Taking(_, _, _) => TakingKeepsInv(s, s', t);
      case Inside(list) =>
        CallAscends(list, |s.owners|);
        Prefix(list, 0);
        ThreadMoved(s, s', t, s'.threads[t]);
      case Releasing(_, _) => ReleasingKeepsInv(s, s', t);
    }
  }

  ghost predicate Next(s: State, s': State) {
    exists t: nat {:trigger s.threads[t]} :: t < |s.threads| && ThreadSteps(s, s', t)
  }

  ghost predicate IsRun(run: seq<State>) {
    && run != [] && Init(run[0])
    && forall i {:trigger run[i]} | 0 <= i < |run| - 1 :: Next(run[i], run[i + 1])
  }

  lemma {:induction false} RunKeepsInv(run: seq<State>, n: nat)
    requires IsRun(run) && n < |run|
    ensures Inv(run[n])
  {
    if n == 0 {
    } else {
      RunKeepsInv(run, n - 1);
      assert Next(run[n - 1], run[n - 1 + 1]);
      var t: nat :| t < |run[n - 1].threads| && ThreadSteps(run[n - 1], run[n], t);
      StepKeepsInv(run[n - 1], run[n], t);
    }
  }

  /** If two operations are inside their protected sections at the same time and both may touch some
      slot, they are the same: operations on a common slot exclude each other. */
  lemma WindowsAreExclusive(run: seq<State>, n: nat, t: nat, u: nat, i: nat, si: bool, j: nat, sj: bool, slot: nat)
    requires IsRun(run) && n < |run| && t < |run[n].threads| && u < |run[n].threads|
    requires run[n].threads[t] == Inside(LockList(i, si)) && run[n].threads[u] == Inside(LockList(j, sj))
    ensures InWindow(i, si, slot) && InWindow(j, sj, slot) ==> t == u
  {
    hide LockList, IsCall, Inv, InWindow;
    RunKeepsInv(run, n);
    var s := run[n];
    if InWindow(i, si, slot) && InWindow(j, sj, slot) {
      WindowIsLocked(i, si, slot, 0);
      WindowIsLocked(j, sj, slot, 0);
      Holding(s, t);
      Holding(s, u);
      CallAscends(LockList(i, si), |s.owners|);
      var l := slot / NUM_SLOTS_TO_LOCK;
      var k :| 0 <= k < |LockList(i, si)| && LockList(i, si)[k] == l;
      assert l in Held(s.threads[t]) && l in Held(s.threads[u]);
    }
  }

  /** A successful call holds exactly the locks of its list; between calls, so also after a failed one
      or an unlock, a thread holds none. */
  lemma HoldsExactly(run: seq<State>, n: nat, t: nat, l: nat)
    requires IsRun(run) && n < |run| && t < |run[n].threads| && l < |run[n].owners|
    ensures run[n].threads[t].Inside? ==> (run[n].owners[l] == By(t) <==> l in run[n].threads[t].list)
    ensures run[n].threads[t].Idle? ==> run[n].owners[l] != By(t)
  {
    RunKeepsInv(run, n);
    Holding(run[n], t);
  }

  // ---- progress -------------------------------------------------------------------------------

  /** The thread spins on a lock that another one has. */
  ghost predicate Waiting(s: State, t: nat)
    requires t < |s.threads|
  {
    && s.threads[t].Taking? && s.threads[t].wait && s.threads[t].taken < |s.threads[t].list|
    && s.threads[t].list[s.threads[t].taken] < |s.owners|
    && s.owners[s.threads[t].list[s.threads[t].taken]] != Free
  }

  ghost predicate CanStep(s: State, t: nat)
    requires t < |s.threads|
  {
    exists s' :: ThreadSteps(s, s', t)
  }

  /** A thread inside a call that does not spin can take a step. */
  lemma NotWaitingSteps(s: State, t: nat)
    requires Inv(s) && t < |s.threads| && s.threads[t] != Idle && !Waiting(s, t)
    ensures CanStep(s, t)
  {
    hide IsCall;
    assert ThreadOk(s.threads[t], |s.owners|);
    match s.threads[t] {
      case Taking(list, taken, wait) =>
        CallAscends(list, |s.owners|);
        if s.owners[list[taken]] == Free {
          var s' := State(s.owners[list[taken] := By(t)],
                          s.threads[t := if taken + 1 == |list| then Inside(list) else Taking(list, taken + 1, wait)]);
          assert ThreadSteps(s, s', t);
        } else {
          var s' := s.(threads := s.threads[t := if taken == 0 then Idle else Releasing(list, taken)]);
          assert ThreadSteps(s, s', t);
        }
      case Inside(list) =>
        assert ThreadSteps(s, s.(threads := s.threads[t := Releasing(list, |list|)]), t);
      case Releasing(list, taken) =>
        CallAscends(list, |s.owners|);
        var s' := State(s.owners[list[taken - 1] := Free], s.threads[t := if taken == 1 then Idle else Releasing(list,
            taken - 1)]);
        assert ThreadSteps(s, s', t);
    }
  }

  /** No lock is owned by a thread that does not exist. */
  ghost predicate OwnersExist(s: State) {
    forall l {:trigger s.owners[l]} | 0 <= l < |s.owners| && s.owners[l] != Free :: s.owners[l].thread < |s.threads|
  }

  lemma StepKeepsOwners(s: State, s': State, t: nat)
    requires OwnersExist(s) && t < |s.threads| && ThreadSteps(s, s', t)
    ensures OwnersExist(s')
  {
  }

  lemma {:induction false} RunKeepsOwners(run: seq<State>, n: nat)
    requires IsRun(run) && n < |run|
    ensures OwnersExist(run[n])
  {
    if n == 0 {
    } else {
      RunKeepsOwners(run, n - 1);
      assert Next(run[n - 1], run[n - 1 + 1]);
      var t: nat :| t < |run[n - 1].threads| && ThreadSteps(run[n - 1], run[n], t);
      StepKeepsOwners(run[n - 1], run[n], t);
    }
  }

  /** Following the owners of the locks waited for leads to ever higher locks, hence to a thread that
      can step. */
  lemma {:induction false} SomeoneCanStep(s: State, t: nat)
    requires Inv(s) && OwnersExist(s) && t < |s.threads| && Waiting(s, t)
    ensures exists u: nat :: u < |s.threads| && s.threads[u] != Idle && CanStep(s, u)
    decreases |s.owners| - s.threads[t].list[s.threads[t].taken]
  {
    hide IsCall, CanStep;
    var l := s.threads[t].list[s.threads[t].taken];
    var u := s.owners[l].thread;
    assert l in Held(s.threads[u]);
    if Waiting(s, u) {
      assert ThreadOk(s.threads[u], |s.owners|);
      CallAscends(s.threads[u].list, |s.owners|);
      SomeoneCanStep(s, u);
    } else {
      NotWaitingSteps(s, u);
    }
  }

  /** No deadlock: in every reachable state with a waiting thread, some call in progress can go on. */
  lemma NoDeadlock(run: seq<State>, n: nat, t: nat)
    requires IsRun(run) && n < |run| && t < |run[n].threads| && Waiting(run[n], t)
    ensures exists u: nat :: u < |run[n].threads| && run[n].threads[u] != Idle && CanStep(run[n], u)
  {
    RunKeepsInv(run, n);
    RunKeepsOwners(run, n);
    SomeoneCanStep(run[n], t);
  }
}
