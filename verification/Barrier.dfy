/** Condition-variable barriers (src/vtc_barrier.c), shared by exactly as many threads
    as they expect.  Every section run under the mutex is one atomic step; the steps of
    the threads interleave freely.  A waiting thread resumes because of a broadcast or
    because its 100 ms are over. */
module Barrier {
  /** Where a thread is in barrier_cond_sync.  `w` and `c` are its local variables. */
  datatype Pc =
    | Idle                        // not in a sync
    | Between(w: nat, c: nat)     // between the two sections
    | Waiting(c: nat)             // in pthread_cond_timedwait
    | Signalled                   // returned 0 and not yet back in the mutex
    | Expired(c: nat)             // returned ETIMEDOUT and not yet back in the mutex

  /** `begun` and `done` count the syncs the thread has begun and finished. */
  datatype Thread = Thread(pc: Pc, begun: nat, done: nat)

  datatype Move = Begin(i: nat) | Second(i: nat) | Expire(i: nat) | Resume(i: nat) | CheckCyclic | SetCyclic

  // ------------------------------------------------ what every step keeps

  /** The threads that have begun the sync of the current cycle. */
  ghost function Inside(threads: seq<Thread>, cycle: nat): set<nat> {
    set i | 0 <= i < |threads| && threads[i].begun == cycle + 1
  }

  ghost function Everyone(n: nat): (r: set<nat>)
    ensures |r| == n && forall i :: i in r <==> 0 <= i < n
  {
    if n == 0 then {} else Everyone(n - 1) + {n - 1}
  }

  /** A thread in a sync is in that of the current cycle, or on its way out of the one before. */
  ghost predicate InSync(t: Thread, cycle: nat) {
    t.begun == t.done + 1 && (t.done == cycle || t.done + 1 == cycle)
  }

  ghost predicate ThreadOk(t: Thread, n: nat, waiters: nat, cycle: nat) {
    match t.pc
    case Idle => t.begun == t.done == cycle
    case Between(w, c) => c == t.done && InSync(t, cycle) && (w == n ==> t.done == cycle && waiters == n)
    case Waiting(c) => c == t.done && InSync(t, cycle)
    case Expired(c) => c == t.done && InSync(t, cycle)
    case Signalled => InSync(t, cycle) && t.done + 1 == cycle
  }

  /** `t` is the thread whose second section will release the others. */
  predicate Last(t: Thread, n: nat) {
    t.pc.Between? && t.pc.w == n
  }

  ghost predicate OneLast(threads: seq<Thread>, n: nat) {
    forall i, j :: 0 <= i < |threads| && 0 <= j < |threads| && Last(threads[i], n) && Last(threads[j], n) ==> i == j
  }

  /** `frozen`: a round was completed while the barrier was not cyclic. */
  ghost predicate Inv(threads: seq<Thread>, n: nat, waiters: nat, cycle: nat, frozen: bool) {
    && |threads| == n >= 2
    && (forall i :: 0 <= i < n ==> ThreadOk(threads[i], n, waiters, cycle))
    && waiters == (if frozen then n else |Inside(threads, cycle)|)
    && (frozen ==> Inside(threads, cycle) == {})
    && (!frozen && waiters == n ==> exists i :: 0 <= i < n && Last(threads[i], n))
    && OneLast(threads, n)
  }

  lemma {:induction false} SubsetSize(a: set<nat>, b: set<nat>)
    requires a <= b
    ensures |a| <= |b| && (|a| == |b| ==> a == b)
  {
    if a != {} {
      var x :| x in a;
      SubsetSize(a - {x}, b - {x});
    }
  }

  /** As many threads inside as there are threads: all of them. */
  lemma InsideSize(threads: seq<Thread>, cycle: nat)
    ensures |Inside(threads, cycle)| <= |threads|
    ensures |Inside(threads, cycle)| == |threads| ==> forall i :: 0 <= i < |threads| ==> threads[i].begun == cycle + 1
  {
    SubsetSize(Inside(threads, cycle), Everyone(|threads|));
    if |Inside(threads, cycle)| == |threads| {
      forall i | 0 <= i < |threads| ensures threads[i].begun == cycle + 1 {
        assert i in Everyone(|threads|);
      }
    }
  }

  /** No thread has finished its k-th sync unless every thread has begun its k-th. */
  lemma Synchronised(threads: seq<Thread>, n: nat, waiters: nat, cycle: nat, frozen: bool)
    requires Inv(threads, n, waiters, cycle, frozen)
    ensures forall i, j :: 0 <= i < n && 0 <= j < n ==> threads[i].done <= threads[j].begun
    ensures waiters <= n
  {
    hide OneLast, Inside;
    InsideSize(threads, cycle);
    forall i, j | 0 <= i < n && 0 <= j < n ensures threads[i].done <= threads[j].begun {
      assert ThreadOk(threads[i], n, waiters, cycle) && ThreadOk(threads[j], n, waiters, cycle);
    }
  }

  // ------------------------------------------------ the steps

  function Begun(t: Thread, w: nat, c: nat): Thread {
    Thread(Between(w, c), t.begun + 1, t.done)
  }

  function Finished(t: Thread): Thread {
    Thread(Idle, t.begun, t.done + 1)
  }

  /** After the broadcast of thread `i`. */
  function Released(threads: seq<Thread>, i: nat): (r: seq<Thread>)
    requires i < |threads|
    ensures |r| == |threads|
  {
    seq(|threads|, j requires 0 <= j < |threads| =>
      if j == i then Finished(threads[j])
      else if threads[j].pc.Waiting? then threads[j].(pc := Signalled)
      else threads[j])
  }

  lemma BeginKeeps(threads: seq<Thread>, n: nat, waiters: nat, cycle: nat, i: nat)
    requires Inv(threads, n, waiters, cycle, false) && i < n && threads[i].pc.Idle?
    ensures waiters < n
    ensures Inv(threads[i := Begun(threads[i], waiters + 1, cycle)], n, waiters + 1, cycle, false)
  {
    hide OneLast, Inside;
    InsideSize(threads, cycle);
    assert ThreadOk(threads[i], n, waiters, cycle);
    var after := threads[i := Begun(threads[i], waiters + 1, cycle)];
    assert Inside(after, cycle) == Inside(threads, cycle) + {i} && i !in Inside(threads, cycle) by {
      InsideGrows(threads, cycle, i, after[i]);
    }
    NoneLast(threads, n, waiters, cycle);
    forall j | 0 <= j < n ensures ThreadOk(after[j], n, waiters + 1, cycle) {
      assert ThreadOk(threads[j], n, waiters, cycle);
    }
    assert OneLast(after, n) by { OneMore(threads, n, i, after[i]); }
    assert waiters + 1 == n ==> Last(after[i], n);
  }

  lemma InsideGrows(threads: seq<Thread>, cycle: nat, i: nat, t: Thread)
    requires i < |threads| && threads[i].begun == cycle && t.begun == cycle + 1
    ensures i !in Inside(threads, cycle) && Inside(threads[i := t], cycle) == Inside(threads, cycle) + {i}
  {}

  lemma InsideSame(threads: seq<Thread>, cycle: nat, i: nat, t: Thread)
    requires i < |threads| && (threads[i].begun == cycle + 1 <==> t.begun == cycle + 1)
    ensures Inside(threads[i := t], cycle) == Inside(threads, cycle)
  {}

  lemma NoneLast(threads: seq<Thread>, n: nat, waiters: nat, cycle: nat)
    requires |threads| == n && waiters < n
    requires forall i :: 0 <= i < n ==> ThreadOk(threads[i], n, waiters, cycle)
    ensures forall i :: 0 <= i < n ==> !Last(threads[i], n)
  {
    forall i | 0 <= i < n ensures !Last(threads[i], n) {
      assert ThreadOk(threads[i], n, waiters, cycle);
    }
  }

  lemma OneMore(threads: seq<Thread>, n: nat, i: nat, t: Thread)
    requires i < |threads| && forall j :: 0 <= j < |threads| ==> !Last(threads[j], n)
    ensures OneLast(threads[i := t], n)
  {}

  /** A step of one thread that neither begins a sync nor releases the others. */
  lemma MoveKeeps(threads: seq<Thread>, n: nat, waiters: nat, cycle: nat, frozen: bool, i: nat, t: Thread)
    requires Inv(threads, n, waiters, cycle, frozen) && i < n && ThreadOk(t, n, waiters, cycle)
    requires t.begun == threads[i].begun && !Last(t, n) && !Last(threads[i], n)
    ensures Inv(threads[i := t], n, waiters, cycle, frozen)
  {
    hide Inside, ThreadOk;
    InsideSame(threads, cycle, i, t);
    var after := threads[i := t];
    if !frozen && waiters == n {
      var j :| 0 <= j < n && Last(threads[j], n);
      assert Last(after[j], n);
    }
  }

  /** When the last one releases the others, all are inside, and a new cycle starts. */
  lemma ReleaseKeeps(threads: seq<Thread>, n: nat, waiters: nat, cycle: nat, frozen: bool, i: nat, cyclic: bool)
    requires Inv(threads, n, waiters, cycle, frozen) && i < n && Last(threads[i], n)
    ensures !frozen && waiters == n
    ensures forall j :: 0 <= j < n ==> threads[j].begun == cycle + 1
    ensures Inv(Released(threads, i), n, if cyclic then 0 else waiters, cycle + 1, !cyclic)
  {
    hide Inside;
    assert ThreadOk(threads[i], n, waiters, cycle);
    assert i in Inside(threads, cycle) by { InsideHas(threads, cycle, i); }
    InsideSize(threads, cycle);
    var after := Released(threads, i);
    var w: nat := if cyclic then 0 else waiters;
    forall j | 0 <= j < n
      ensures ThreadOk(after[j], n, w, cycle + 1) && !Last(after[j], n) && after[j].begun == cycle + 1
    {
      assert ThreadOk(threads[j], n, waiters, cycle);
      assert threads[j].begun == cycle + 1;
      assert j != i ==> !Last(threads[j], n);
    }
    InsideNone(after, cycle + 1);
  }

  lemma InsideHas(threads: seq<Thread>, cycle: nat, i: nat)
    requires i < |threads| && threads[i].begun == cycle + 1
    ensures i in Inside(threads, cycle)
  {}

  lemma InsideNone(threads: seq<Thread>, cycle: nat)
    requires forall j :: 0 <= j < |threads| ==> threads[j].begun == cycle
    ensures Inside(threads, cycle) == {}
  {}

  /** A thread that sees its time run out finds the cycle changed exactly when its own round is over:
      it never leaves early and never sleeps through two rounds. */
  lemma TimeoutTells(threads: seq<Thread>, n: nat, waiters: nat, cycle: nat, frozen: bool, i: nat)
    requires Inv(threads, n, waiters, cycle, frozen) && i < n && (threads[i].pc.Waiting? || threads[i].pc.Expired?)
    ensures threads[i].pc.c != cycle <==> threads[i].done < cycle
    ensures threads[i].pc.c != cycle ==> threads[i].done + 1 == cycle
  {
    assert ThreadOk(threads[i], n, waiters, cycle);
  }

  /** A thread held up in its sync waits for a thread that has yet to come, for one still on
      its way out of the round before, or for the last one's second section. */
  lemma HeldUpBy(threads: seq<Thread>, n: nat, waiters: nat, cycle: nat, frozen: bool, i: nat) returns (j: nat)
    requires Inv(threads, n, waiters, cycle, frozen) && i < n && !threads[i].pc.Idle? && threads[i].done == cycle
    ensures j < n && (threads[j].pc.Idle? || threads[j].done < cycle || Last(threads[j], n))
  {
    hide OneLast, Inside;
    assert ThreadOk(threads[i], n, waiters, cycle);
    InsideHas(threads, cycle, i);
    if waiters == n {
      j :| 0 <= j < n && Last(threads[j], n);
    } else {
      InsideSize(threads, cycle);
      j := OneOutside(threads, cycle);
      assert ThreadOk(threads[j], n, waiters, cycle);
    }
  }

  lemma OneOutside(threads: seq<Thread>, cycle: nat) returns (j: nat)
    requires |Inside(threads, cycle)| < |threads|
    ensures j < |threads| && threads[j].begun != cycle + 1
  {
    SubsetSize(Inside(threads, cycle), Everyone(|threads|));
    assert exists k :: k in Everyone(|threads|) && k !in Inside(threads, cycle) by {
      if forall k :: k in Everyone(|threads|) ==> k in Inside(threads, cycle) {
        SubsetSize(Everyone(|threads|), Inside(threads, cycle));
      }
    }
    j :| 0 <= j < |threads| && threads[j].begun != cycle + 1;
  }

  // ------------------------------------------------ the barrier and its threads

  class System {
    var waiters: nat
    const expected: nat
    var cyclic: bool
    var cycle: nat
    var threads: seq<Thread>
    var checked: bool             // barrier_cyclic has found no waiters
    ghost var frozen: bool

    ghost predicate Valid()
      reads this
    {
      && Inv(threads, expected, waiters, cycle, frozen)
      && (frozen || cycle == 0 || cyclic) && (frozen ==> cycle > 0)
    }

    /** barrier_cond with `n` participants. */
    constructor (n: nat)
      requires n >= 2
      ensures Valid() && |threads| == expected == n && waiters == 0 && !cyclic && cycle == 0 && !frozen && !checked
      ensures forall i :: 0 <= i < n ==> threads[i] == Thread(Idle, 0, 0)
    {
      expected, waiters, cyclic, cycle, checked, frozen := n, 0, false, 0, false, false;
      threads := seq(n, _ => Thread(Idle, 0, 0));
      new;
      InsideNone(threads, 0);
    }

    /** The first section.  It is an error exactly when a round was completed
        before the barrier was made cyclic. */
    method BeginSync(i: nat) returns (ok: bool)
      requires Valid() && i < |threads| && threads[i].pc.Idle?
      modifies `waiters, `threads
      ensures Valid() && ok == !frozen
      ensures ok ==> waiters == old(waiters) + 1 && threads == old(threads)[i := Begun(old(threads[i]), waiters, cycle)]
      ensures !ok ==> waiters == old(waiters) && threads == old(threads)
    {
      hide Inv;
      OkOf(threads, expected, waiters, cycle, frozen, i);
      if !frozen { BeginKeeps(threads, expected, waiters, cycle, i); }
      FrozenIsFull(threads, expected, waiters, cycle, frozen);
      if waiters == expected {
        return false;
      }
      waiters := waiters + 1;
      threads := threads[i := Begun(threads[i], waiters, cycle)];
      return true;
    }

    /** The second section, up to the wait. */
    method SecondSection(i: nat)
      requires Valid() && i < |threads| && threads[i].pc.Between?
      modifies `waiters, `threads, `cycle, `frozen
      ensures Valid()
      ensures Last(old(threads[i]), expected) ==>
        && cycle == old(cycle) + 1 && waiters == (if cyclic then 0 else old(waiters)) && frozen == !cyclic
        && threads == Released(old(threads), i)
        && forall j :: 0 <= j < expected ==> old(threads)[j].begun == cycle
      ensures !Last(old(threads[i]), expected) ==>
        && cycle == old(cycle) && waiters == old(waiters) && frozen == old(frozen)
        && threads == old(threads)[i := old(threads[i]).(pc := Waiting(old(threads[i]).pc.c))]
    {
      hide Inv;
      OkOf(threads, expected, waiters, cycle, frozen, i);
      if threads[i].pc.w == expected {
        ReleaseKeeps(threads, expected, waiters, cycle, frozen, i, cyclic);
        cycle := cycle + 1;
        if cyclic {
          waiters := 0;
        }
        frozen := !cyclic;
        threads := Released(threads, i);
      } else {
        var t := threads[i].(pc := Waiting(threads[i].pc.c));
        MoveKeeps(threads, expected, waiters, cycle, frozen, i, t);
        threads := threads[i := t];
      }
    }

    /** The timeout of a waiting thread. */
    method TimeOut(i: nat)
      requires Valid() && i < |threads| && threads[i].pc.Waiting?
      modifies `threads
      ensures Valid() && threads == old(threads)[i := old(threads[i]).(pc := Expired(old(threads[i]).pc.c))]
    {
      hide Inv;
      OkOf(threads, expected, waiters, cycle, frozen, i);
      var t := threads[i].(pc := Expired(threads[i].pc.c));
      MoveKeeps(threads, expected, waiters, cycle, frozen, i, t);
      threads := threads[i := t];
    }

    /** Back in the mutex: leave, or wait again if the time was over but not the round. */
    method WakeUp(i: nat)
      requires Valid() && i < |threads| && (threads[i].pc.Signalled? || threads[i].pc.Expired?)
      modifies `threads
      ensures Valid()
      ensures var t := old(threads[i]); threads == old(threads)[i :=
        if t.done < cycle then Finished(t) else t.(pc := Waiting(t.done))]
    {
      hide Inv;
      OkOf(threads, expected, waiters, cycle, frozen, i);
      var t := if threads[i].pc.Expired? && threads[i].pc.c == cycle
        then threads[i].(pc := Waiting(threads[i].pc.c)) else Finished(threads[i]);
      MoveKeeps(threads, expected, waiters, cycle, frozen, i, t);
      threads := threads[i := t];
    }

    /** barrier_cyclic looks for waiters in a section of its own.  It finds none if and only if nobody has come
        for the next round and the barrier is not worn out. */
    method LookForWaiters() returns (ok: bool)
      requires Valid()
      modifies `checked
      ensures Valid() && checked == ok
      ensures ok <==> !frozen && forall i :: 0 <= i < expected ==>
        threads[i].begun == threads[i].done || threads[i].done < cycle
    {
      NobodyInside(threads, expected, waiters, cycle, frozen);
      checked := waiters == 0;
      ok := checked;
    }

    /** And it sets the flag in another.  The barrier then goes round if and only if no round
        was completed in between. */
    method MakeCyclic()
      requires Valid() && checked
      modifies `cyclic
      ensures Valid() && cyclic && (old(cyclic) || (frozen <==> cycle > 0))
    {
      cyclic := true;
    }

    /** A thread whose round is over gets out by its own steps alone, within one timeout, even if it
        was not waiting yet when the others were released. */
    method LeaveAlone(i: nat)
      requires Valid() && i < |threads| && !threads[i].pc.Idle? && threads[i].done < cycle
      modifies `waiters, `threads, `cycle, `frozen
      ensures Valid() && cycle == old(cycle) && waiters == old(waiters) && frozen == old(frozen)
      ensures threads == old(threads)[i := Finished(old(threads[i]))]
    {
      hide Inv;
      OkOf(threads, expected, waiters, cycle, frozen, i);
      if threads[i].pc.Between? {
        SecondSection(i);
      }
      if threads[i].pc.Waiting? {
        TimeOut(i);
      }
      WakeUp(i);
    }

    /** Any interleaving whatever; a move whose thread is elsewhere is passed over.
        `failed` is set by the error that there are more waiters than expected. */
    method Run(schedule: seq<Move>) returns (failed: bool)
      requires Valid()
      modifies this
      ensures Valid() && waiters <= expected
      ensures forall i, j :: 0 <= i < expected && 0 <= j < expected ==> threads[i].done <= threads[j].begun
      ensures old(cyclic) && !old(frozen) ==> cyclic && !frozen && !failed
    {
      hide Inv;
      failed := false;
      var k := 0;
      while k < |schedule|
        invariant 0 <= k <= |schedule| && Valid()
        invariant old(cyclic) && !old(frozen) ==> cyclic && !frozen && !failed
      {
        match schedule[k] {
          case Begin(i) =>
            if i < |threads| && threads[i].pc.Idle? {
              var ok := BeginSync(i);
              failed := failed || !ok;
            }
          case Second(i) =>
            if i < |threads| && threads[i].pc.Between? {
              SecondSection(i);
            }
          case Expire(i) =>
            if i < |threads| && threads[i].pc.Waiting? {
              TimeOut(i);
            }
          case Resume(i) =>
            if i < |threads| && (threads[i].pc.Signalled? || threads[i].pc.Expired?) {
              WakeUp(i);
            }
          case CheckCyclic =>
            var ok := LookForWaiters();
          case SetCyclic =>
            if checked {
              MakeCyclic();
            }
        }
        k := k + 1;
      }
      Synchronised(threads, expected, waiters, cycle, frozen);
    }
  }

  /** barrier_expect refuses to wait for fewer than two. */
  method Cond(n: nat) returns (b: System?)
    ensures b == null <==> n < 2
    ensures b != null ==> fresh(b) && b.Valid() && b.expected == n && b.waiters == 0
  {
    if n < 2 {
      return null;
    }
    b := new System(n);
  }

  /** A barrier made cyclic after its first round is over lets nobody in: barrier_cyclic looked for
      waiters before that round and set the flag after it. */
  method CyclicTooLate() returns (b: System, ok: bool)
    ensures fresh(b) && b.Valid() && b.cyclic && !ok
  {
    hide Inv;
    b := new System(2);
    ok := b.LookForWaiters();
    ok := b.BeginSync(0);
    ok := b.BeginSync(1);
    b.SecondSection(1);
    b.MakeCyclic();
    ok := b.BeginSync(1);
  }

  lemma OkOf(threads: seq<Thread>, n: nat, waiters: nat, cycle: nat, frozen: bool, i: nat)
    requires Inv(threads, n, waiters, cycle, frozen) && i < |threads|
    ensures i < n == |threads| && ThreadOk(threads[i], n, waiters, cycle)
  {}

  lemma NobodyInside(threads: seq<Thread>, n: nat, waiters: nat, cycle: nat, frozen: bool)
    requires Inv(threads, n, waiters, cycle, frozen)
    ensures waiters == 0 <==>
      !frozen && forall i :: 0 <= i < n ==> threads[i].begun == threads[i].done || threads[i].done < cycle
  {
    hide OneLast;
    forall i | 0 <= i < n
      ensures threads[i].begun == threads[i].done || threads[i].done < cycle <==> i !in Inside(threads, cycle)
    {
      assert ThreadOk(threads[i], n, waiters, cycle);
    }
    if waiters == 0 && !frozen {
      assert Inside(threads, cycle) == {};
    }
  }

  lemma FrozenIsFull(threads: seq<Thread>, n: nat, waiters: nat, cycle: nat, frozen: bool)
    requires Inv(threads, n, waiters, cycle, frozen)
    ensures frozen ==> waiters == n
  {}
}
