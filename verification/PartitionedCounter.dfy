/** The partitioned counter of src/partitioned_counter.c as interleaved atomic steps: threads add to
    local counters, move a local counter that exceeds the threshold to the global one, or sync all
    local counters. Counters are unbounded integers. */
module PartitionedCounter {

  /** Where a thread is: between calls, in pc_add behind its atomic add with a counter to move, with
      an amount in hand, or in pc_sync at a counter, or there with an amount in hand. */
  datatype Thread = Idle | Flush(id: nat) | Deposit(amount: int) | Sync(next: nat) | SyncDeposit(at: nat, taken: int)

  datatype State = State(global: int, locals: seq<int>, threads: seq<Thread>, threshold: nat, added: int)

  function Exceeds(c: int, threshold: nat): bool {
    c > threshold || c < 0 - threshold
  }

  // ---- atomic steps ---------------------------------------------------------------------------

  /** pc_add up to and including its __atomic_add_fetch, and the test of the result. */
  function Add(s: State, t: nat, id: nat, count: int): State
    requires t < |s.threads| && id < |s.locals| && s.threads[t] == Idle
  {
    var cur_count := s.locals[id] + count;
    s.(locals := s.locals[id := cur_count], added := s.added + count,
       threads := s.threads[t := if Exceeds(cur_count, s.threshold) then Flush(id) else Idle])
  }

  /** The __atomic_exchange_n of pc_add. */
  function Exchange(s: State, t: nat): State
    requires t < |s.threads| && s.threads[t].Flush? && s.threads[t].id < |s.locals|
  {
    var id := s.threads[t].id;
    s.(locals := s.locals[id := 0], threads := s.threads[t := Deposit(s.locals[id])])
  }

  /** The __atomic_fetch_add of pc_add on the global counter. */
  function PutGlobal(s: State, t: nat): State
    requires t < |s.threads| && s.threads[t].Deposit?
  {
    s.(global := s.global + s.threads[t].amount, threads := s.threads[t := Idle])
  }

  /** A call of pc_sync. */
  function StartSync(s: State, t: nat): State
    requires t < |s.threads| && s.threads[t] == Idle
  {
    s.(threads := s.threads[t := if |s.locals| == 0 then Idle else Sync(0)])
  }

  /** The __atomic_exchange_n of one turn of pc_sync. */
  function SyncExchange(s: State, t: nat): State
    requires t < |s.threads| && s.threads[t].Sync? && s.threads[t].next < |s.locals|
  {
    var i := s.threads[t].next;
    s.(locals := s.locals[i := 0], threads := s.threads[t := SyncDeposit(i, s.locals[i])])
  }

  /** The __atomic_fetch_add of one turn of pc_sync. */
  function SyncPut(s: State, t: nat): State
    requires t < |s.threads| && s.threads[t].SyncDeposit?
  {
    var i := s.threads[t].at;
    s.(global := s.global + s.threads[t].taken, threads := s.threads[t := if i
        + 1 == |s.locals| then Idle else Sync(i + 1)])
  }

  ghost predicate ThreadSteps(s: State, s': State, t: nat)
    requires t < |s.threads|
  {
    match s.threads[t]
    case Idle => s' == StartSync(s, t) || exists id: nat, count: int :: id < |s.locals| && s' == Add(s, t, id, count)
    case Flush(id) => id < |s.locals| && s' == Exchange(s, t)
    case Deposit(_) => s' == PutGlobal(s, t)
    case Sync(i) => i < |s.locals| && s' == SyncExchange(s, t)
    case SyncDeposit(_, _) => s' == SyncPut(s, t)
  }

  ghost predicate Next(s: State, s': State) {
    exists t: nat :: t < |s.threads| && ThreadSteps(s, s', t)
  }

  ghost predicate Init(s: State) {
    && s.global == s.added
    && (forall i | 0 <= i < |s.locals| :: s.locals[i] == 0)
    && (forall t | 0 <= t < |s.threads| :: s.threads[t] == Idle)
  }

  // ---- conservation ---------------------------------------------------------------------------

  ghost function Sum(a: seq<int>): int {
    if a == [] then 0 else Sum(a[..|a| - 1]) + a[|a| - 1]
  }

  ghost function InHand(t: Thread): int {
    match t
    case Deposit(v) => v
    case SyncDeposit(_, v) => v
    case _ => 0
  }

  ghost function InFlight(ts: seq<Thread>): int {
    if ts == [] then 0 else InFlight(ts[..|ts| - 1]) + InHand(ts[|ts| - 1])
  }

  lemma {:induction false} SumUpdate(a: seq<int>, i: nat, v: int)
    requires i < |a|
    ensures Sum(a[i := v]) == Sum(a) - a[i] + v
    decreases |a|
  {
    var n := |a| - 1;
    if i < n {
      assert a[i := v][..n] == a[..n][i := v];
      SumUpdate(a[..n], i, v);
    } else {
      assert a[i := v][..n] == a[..n];
    }
  }

  lemma {:induction false} InFlightUpdate(ts: seq<Thread>, t: nat, v: Thread)
    requires t < |ts|
    ensures InFlight(ts[t := v]) == InFlight(ts) - InHand(ts[t]) + InHand(v)
    decreases |ts|
  {
    var n := |ts| - 1;
    if t < n {
      assert ts[t := v][..n] == ts[..n][t := v];
      InFlightUpdate(ts[..n], t, v);
    } else {
      assert ts[t := v][..n] == ts[..n];
    }
  }

  /** A counter beyond the threshold has a thread on its way to flush it. */
  ghost predicate Watched(s: State, i: nat)
    requires i < |s.locals|
  {
    Exceeds(s.locals[i], s.threshold) ==> Flush(i) in s.threads
  }

  ghost predicate Inv(s: State) {
    && s.global + Sum(s.locals) + InFlight(s.threads) == s.added
    && (forall i {:trigger s.locals[i]} | 0 <= i < |s.locals| :: Watched(s, i))
    && (forall t {:trigger s.threads[t]} | 0 <= t < |s.threads| ::
          (s.threads[t].Flush? ==> s.threads[t].id < |s.locals|)
              && (s.threads[t].Sync? ==> s.threads[t].next < |s.locals|) &&
          (s.threads[t].SyncDeposit? ==> s.threads[t].at < |s.locals|))
  }

  lemma {:induction false} ZeroSum(a: seq<int>)
    requires forall i | 0 <= i < |a| :: a[i] == 0
    ensures Sum(a) == 0
  {
    if a == [] {
    } else {
      ZeroSum(a[..|a| - 1]);
    }
  }

  lemma {:induction false} NothingInFlight(ts: seq<Thread>)
    requires forall t | 0 <= t < |ts| :: ts[t] == Idle
    ensures InFlight(ts) == 0
  {
    if ts == [] {
    } else {
      NothingInFlight(ts[..|ts| - 1]);
    }
  }

  lemma InitInv(s: State)
    requires Init(s)
    ensures Inv(s)
  {
    ZeroSum(s.locals);
    NothingInFlight(s.threads);
    forall i | 0 <= i < |s.locals|
      ensures Watched(s, i)
    {
      assert s.locals[i] == 0;
    }
  }

  /** Flushers other than thread t are still there after t moved. */
  lemma OthersWatch(s: State, t: nat, v: Thread, i: nat)
    requires t < |s.threads| && i < |s.locals| && Watched(s, i) && s.threads[t] != Flush(i)
    ensures Exceeds(s.locals[i], s.threshold) ==> Flush(i) in s.threads[t := v]
  {
    if Exceeds(s.locals[i], s.threshold) {
      var u :| 0 <= u < |s.threads| && s.threads[u] == Flush(i);
      assert s.threads[t := v][u] == Flush(i);
    }
  }

  /** Every atomic step of every thread keeps global + locals + amounts in flight = sum of all adds. */
  lemma StepKeepsInv(s: State, s': State, t: nat)
    requires Inv(s) && t < |s.threads| && ThreadSteps(s, s', t)
    ensures Inv(s')
  {
    hide Sum, InFlight, Exceeds;
    var v := s'.threads[t];
    assert s'.threads == s.threads[t := v];
    InFlightUpdate(s.threads, t, v);
    match s.threads[t] {
      case Idle =>
        if s' != StartSync(s, t) {
          var id: nat, count: int :| id < |s.locals| && s' == Add(s, t, id, count);
          SumUpdate(s.locals, id, s.locals[id] + count);
        }
      case Flush(id) => SumUpdate(s.locals, id, 0);
      case Deposit(_) =>
      case Sync(i) => SumUpdate(s.locals, i, 0);
      case SyncDeposit(_, _) =>
    }
    ZeroIsWithin(s.threshold);
    forall i | 0 <= i < |s'.locals|
      ensures Watched(s', i)
    {
      if s'.locals[i] == s.locals[i] && s.threads[t] != Flush(i) {
        OthersWatch(s, t, v, i);
      } else if s.threads[t] == Idle {
        assert s'.threads[t] == Flush(i) || !Exceeds(s'.locals[i], s.threshold);
      }
    }
  }

  lemma ZeroIsWithin(threshold: nat)
    ensures !Exceeds(0, threshold)
  {
  }

  // ---- whole runs -----------------------------------------------------------------------------

  ghost predicate IsRun(run: seq<State>) {
    run != [] && Init(run[0]) && forall i {:trigger run[i]} | 0 <= i < |run| - 1 :: Next(run[i], run[i + 1])
  }

  lemma {:induction false} RunKeepsInv(run: seq<State>, n: nat)
    requires IsRun(run) && n < |run|
    ensures Inv(run[n])
  {
    if n == 0 {
      InitInv(run[0]);
    } else {
      RunKeepsInv(run, n - 1);
      assert Next(run[n - 1], run[n - 1 + 1]);
      var t: nat :| t < |run[n - 1].threads| && ThreadSteps(run[n - 1], run[n], t);
      StepKeepsInv(run[n - 1], run[n], t);
    }
  }

  ghost predicate Quiet(s: State) {
    forall t | 0 <= t < |s.threads| :: s.threads[t] == Idle
  }

  function Product(a: nat, b: nat): nat {
    assert a * b >= 0;
    a * b
  }

  lemma {:induction false} SumWithin(a: seq<int>, threshold: nat)
    requires forall i | 0 <= i < |a| :: !Exceeds(a[i], threshold)
    ensures 0 - Product(|a|, threshold) <= Sum(a) <= Product(|a|, threshold)
  {
    if a == [] {
    } else {
      SumWithin(a[..|a| - 1], threshold);
      assert Product(|a|, threshold) == Product(|a| - 1, threshold) + threshold;
    }
  }

  /** With no call in progress the global counter is off by at most counters times threshold. */
  lemma QuietIsClose(run: seq<State>, n: nat)
    requires IsRun(run) && n < |run| && Quiet(run[n])
    ensures var s := run[n];
            s.added - Product(|s.locals|, s.threshold) <= s.global <= s.added + Product(|s.locals|, s.threshold)
  {
    var s := run[n];
    RunKeepsInv(run, n);
    NothingInFlight(s.threads);
    assert forall i | 0 <= i < |s.locals| :: Watched(s, i) && Flush(i) !in s.threads;
    SumWithin(s.locals, s.threshold);
  }

  /** The steps of one pc_sync from counter i on, with no other thread moving. */
  ghost function SyncAlone(s: State, t: nat): (s': State)
    requires t < |s.threads| && s.threads[t].Sync? && s.threads[t].next < |s.locals|
    ensures |s'.locals| == |s.locals| && s'.threads == s.threads[t := Idle] && s'.added == s.added
    decreases |s.locals| - s.threads[t].next
  {
    var s2 := SyncPut(SyncExchange(s, t), t);
    if s2.threads[t] == Idle then s2 else SyncAlone(s2, t)
  }

  lemma {:induction false} SyncAloneEmpties(s: State, t: nat)
    requires t < |s.threads| && s.threads[t].Sync? && s.threads[t].next < |s.locals|
    requires forall i | 0 <= i < s.threads[t].next :: s.locals[i] == 0
    ensures var s' := SyncAlone(s, t);
            s'.global == s.global + Sum(s.locals) && forall i | 0 <= i < |s'.locals| :: s'.locals[i] == 0
    decreases |s.locals| - s.threads[t].next
  {
    var i := s.threads[t].next;
    var s2 := SyncPut(SyncExchange(s, t), t);
    assert s2.locals == s.locals[i := 0];
    SumUpdate(s.locals, i, 0);
    if s2.threads[t] == Idle {
      ZeroSum(s2.locals);
    } else {
      SyncAloneEmpties(s2, t);
    }
  }

  /** A sync that runs alone makes the global counter exact. */
  lemma SyncIsExact(run: seq<State>, n: nat, t: nat)
    requires IsRun(run) && n < |run| && Quiet(run[n]) && t < |run[n].threads| && run[n].locals != []
    ensures SyncAlone(StartSync(run[n], t), t).global == run[n].added
  {
    var s := run[n];
    RunKeepsInv(run, n);
    NothingInFlight(s.threads);
    SyncAloneEmpties(StartSync(s, t), t);
  }

  /** One call of pc_add with no other thread moving. */
  ghost function AddAlone(s: State, t: nat, id: nat, count: int): State
    requires t < |s.threads| && id < |s.locals| && s.threads[t] == Idle
  {
    var a := Add(s, t, id, count);
    if a.threads[t] == Idle then a else PutGlobal(Exchange(a, t), t)
  }

  /** As long as the local counter stays within the threshold the global one is left alone; beyond it, all
      of the local counter moves to the global one. */
  lemma AddAloneIs(s: State, t: nat, id: nat, count: int)
    requires t < |s.threads| && id < |s.locals| && s.threads[t] == Idle
    ensures var s', c := AddAlone(s, t, id, count), s.locals[id] + count;
            && s'.threads == s.threads && s'.added == s.added + count
            && (if -(s.threshold as int) <= c <= s.threshold then s'.global == s.global && s'.locals == s.locals[id := c]
                else s'.global == s.global + c && s'.locals == s.locals[id := 0])
  {
    var a := Add(s, t, id, count);
    assert s.threads[t := Idle] == s.threads;
    if a.threads[t] != Idle {
      assert a.locals[id := 0] == s.locals[id := 0];
      assert a.threads[t := Deposit(a.locals[id])][t := Idle] == s.threads;
    }
  }
}
