/** The event loop (lib/vev.c) on top of the heap of deadlines.

    Event structures live in the caller's memory; a `Handle` stands for the
    address of one.  The heap reports every move, and `BhUpdate` takes those
    reports into the poll arrays and the events, as vev_bh_update does.  The reports
    are taken when the heap operation returns; comparisons read only deadlines, so
    the heap cannot tell the difference.  Signals are not modelled. */
module Vev {
  import opened Options
  import opened Vbh
  import opened Words
  import opened VbhTree
  import opened VbhOrder

  datatype Handle = Handle(addr: nat)

  datatype Flag = RD | WR | ERR | HUP | Other(bit: nat)

  const POLLED: set<Flag> := {RD, WR, ERR, HUP}

  /** The fields of `struct vev` but its deadline and heap index;
      `live` is the VEV_MAGIC stamp. */
  datatype Event = Event(live: bool, fd: int, fdFlags: set<Flag>, fdEvents: nat, timeout: real)

  datatype PollFd = PollFd(fd: int, events: set<Flag>)

  function PollOf(e: Event): PollFd { PollFd(e.fd, e.fdFlags * POLLED) }

  /** What poll is asked for: the descriptor, and of the flags exactly these four. */
  lemma PolledFor(e: Event, f: Flag)
    ensures PollOf(e).fd == e.fd
    ensures f in PollOf(e).events <==> f in e.fdFlags && (f == RD || f == WR || f == ERR || f == HUP)
  {}

  /** The deadline of an event without a timeout. */
  const NEVER: real := 9e99

  function When(when: map<Handle, real>, h: Handle): real {
    if h in when then when[h] else 0.0
  }

  /** vev_bh_cmp */
  function Earlier(when: map<Handle, real>): (Handle, Handle) -> bool {
    (a, b) => When(when, a) < When(when, b)
  }

  lemma EarlierIsOrder(when: map<Handle, real>)
    ensures StrictWeakOrder(Earlier(when))
  {}

  lemma EarlierAgrees(when: map<Handle, real>, h: Handle, t: real)
    ensures AgreeBut(Earlier(when), Earlier(when[h := t]), h)
  {}

  /** Changing the deadline of an event that is not in the heap does not disorder it. */
  lemma EarlierElsewhere(size: nat, when: map<Handle, real>, when': map<Handle, real>, h: Handle, s: seq<Handle>)
    requires size >= 4 && Ordered(size, Earlier(when), s) && h !in s
    requires forall k :: k != h ==> When(when, k) == When(when', k)
    ensures Ordered(size, Earlier(when'), s)
  {
    hide Parent;
    forall u | 2 <= u <= |s| ensures OkAt(size, Earlier(when'), s, u) {
      assert OkAt(size, Earlier(when), s, u);
    }
  }

  /** The registered events with something to deliver. */
  ghost function Pending(ev: map<Handle, Event>): set<Handle> {
    set h | h in ev && ev[h].live && ev[h].fdEvents != 0
  }

  /** Slot `u` of the poll arrays describes the event in slot `u` of the heap. */
  ghost predicate Mirrors(pev: seq<Handle>, items: seq<Handle>) {
    |items| < |pev| && forall i :: 0 <= i < |items| ==> pev[i + 1] == items[i]
  }

  ghost predicate Polls(pfd: seq<PollFd>, pev: seq<Handle>, ev: map<Handle, Event>, n: nat, but: Option<Handle>) {
    && n < |pfd| && |pfd| == |pev|
    && forall u :: 1 <= u <= n && Some(pev[u]) != but ==> pev[u] in ev && pfd[u] == PollOf(ev[pev[u]])
  }

  /** The events in the heap are those with the stamp; no other has anything to deliver. */
  ghost predicate Registered(items: seq<Handle>, ev: map<Handle, Event>) {
    && (forall h :: h in items <==> h in ev && ev[h].live)
    && (forall h :: h in ev && !ev[h].live ==> ev[h].fdEvents == 0)
  }

  lemma RegisteredIs(items: seq<Handle>, ev: map<Handle, Event>, h: Handle)
    requires Registered(items, ev)
    ensures h in items <==> h in ev && ev[h].live
    ensures forall x :: x in items ==> x in ev
  {}

  lemma RegisteredOut(items: seq<Handle>, ev: map<Handle, Event>, items': seq<Handle>, h: Handle, e: Event)
    requires Registered(items, ev) && !e.live && e.fdEvents == 0
    requires forall x :: x in items' <==> x in items && x != h
    ensures Registered(items', ev[h := e])
  {}

  lemma RegisteredSame(items: seq<Handle>, ev: map<Handle, Event>, h: Handle, e: Event)
    requires Registered(items, ev) && e.live == (h in items) && (!e.live ==> e.fdEvents == 0)
    ensures Registered(items, ev[h := e])
  {}

  /** The poll arrays and the events agree with all that the heap has reported. */
  ghost predicate TookAll(calls: seq<Report<Handle>>, pev: seq<Handle>, idx: map<Handle, nat>) {
    && (forall u :: 1 <= u && ItemTold(calls, u).Some? ==> u < |pev| && pev[u] == ItemTold(calls, u).value)
    && (forall h :: (if h in idx then idx[h] else NOIDX) == IndexTold(calls, h))
  }

  lemma TakeOne(calls: seq<Report<Handle>>, c: Report<Handle>, pev: seq<Handle>, idx: map<Handle, nat>)
    requires TookAll(calls, pev, idx) && c.idx < |pev|
    ensures TookAll(calls + [c], if c.idx == NOIDX then pev else pev[c.idx := c.item], idx[c.item := c.idx])
  {
    ToldNow(calls, c);
  }

  lemma TookMirrors(calls: seq<Report<Handle>>, pev: seq<Handle>, idx: map<Handle, nat>, items: seq<Handle>)
    requires TookAll(calls, pev, idx) && ToldRight(calls, items) && |items| < |pev|
    ensures Mirrors(pev, items)
    ensures forall i :: 0 <= i < |items| ==> items[i] in idx && idx[items[i]] == i + 1
  {
    forall i | 0 <= i < |items| ensures pev[i + 1] == items[i] {
      assert ItemTold(calls, i + 1) == Some(items[i]);
    }
  }

  lemma GrownArrays(calls: seq<Report<Handle>>, idx: map<Handle, nat>, ev: map<Handle, Event>, items: seq<Handle>,
                    pev: seq<Handle>, pfd: seq<PollFd>, pev': seq<Handle>, pfd': seq<PollFd>)
    requires TookAll(calls, pev, idx) && Mirrors(pev, items) && Polls(pfd, pev, ev, |items|, None)
    requires pev <= pev' && pfd <= pfd' && |pev'| == |pfd'|
    ensures TookAll(calls, pev', idx) && Mirrors(pev', items) && Polls(pfd', pev', ev, |items|, None)
  {}

  lemma PollsSame(pfd: seq<PollFd>, pev: seq<Handle>, ev: map<Handle, Event>, ev': map<Handle, Event>, n: nat,
                  but: Option<Handle>)
    requires Polls(pfd, pev, ev, n, but)
    requires forall k :: k in ev && Some(k) != but ==> k in ev' && PollOf(ev[k]) == PollOf(ev'[k])
    ensures Polls(pfd, pev, ev', n, but)
  {}

  lemma PollsUpdate(pfd: seq<PollFd>, pev: seq<Handle>, ev: map<Handle, Event>, m: nat, but: Option<Handle>,
                    u: nat, e: Handle, k: nat)
    requires Polls(pfd, pev, ev, m, but)
    requires u < |pev| && k < |pev| && e in ev && (k == m || k == m + 1 == u)
    ensures var on := u != NOIDX;
      Polls(if on then pfd[u := PollOf(ev[e])] else pfd, if on then pev[u := e] else pev, ev, k, but)
  {}

  lemma PollsFewer(pfd: seq<PollFd>, pev: seq<Handle>, ev: map<Handle, Event>, m: nat, but: Option<Handle>, k: nat)
    requires Polls(pfd, pev, ev, m, but) && k <= m
    ensures Polls(pfd, pev, ev, k, but)
  {}

  lemma KnownReports(before: seq<Report<Handle>>, after: seq<Report<Handle>>, n: nat, s: seq<Handle>, ev: map<Handle,
                     Event>)
    requires Reported(before, after, n, multiset(s))
    requires forall x :: x in s ==> x in ev
    ensures forall i :: |before| <= i < |after| ==> after[i].idx < n && after[i].item in ev
    ensures |before| <= |after| && after[..|before|] == before
  {
    forall i | |before| <= i < |after| ensures after[i].item in ev {
      assert after[i].item in multiset(s);
    }
  }

  lemma TookIndex(calls: seq<Report<Handle>>, pev: seq<Handle>, idx: map<Handle, nat>, items: seq<Handle>, h: Handle)
    requires TookAll(calls, pev, idx) && ToldRight(calls, items) && h in items
    ensures h in idx && 1 <= idx[h] <= |items| && items[idx[h] - 1] == h
  {
    var i :| 0 <= i < |items| && items[i] == h;
    assert IndexTold(calls, h) == i + 1;
  }

  lemma TookNone(calls: seq<Report<Handle>>, pev: seq<Handle>, idx: map<Handle, nat>, h: Handle)
    requires TookAll(calls, pev, idx) && IndexTold(calls, h) == NOIDX
    ensures h in idx ==> idx[h] == NOIDX
  {}

  lemma PollsBut(pfd: seq<PollFd>, pev: seq<Handle>, ev: map<Handle, Event>, n: nat, h: Handle)
    requires Polls(pfd, pev, ev, n, None)
    ensures Polls(pfd, pev, ev, n, Some(h))
  {}

  lemma PollsAll(pfd: seq<PollFd>, pev: seq<Handle>, ev: map<Handle, Event>, items: seq<Handle>, h: Handle)
    requires Polls(pfd, pev, ev, |items|, Some(h)) && Mirrors(pev, items) && h !in items
    ensures Polls(pfd, pev, ev, |items|, None)
  {
    forall u | 1 <= u <= |items| ensures pev[u] != h { assert pev[u] == items[u - 1]; }
  }

  lemma PollsGone(pfd: seq<PollFd>, pev: seq<Handle>, ev: map<Handle, Event>, ev': map<Handle, Event>,
                  items: seq<Handle>, h: Handle)
    requires Polls(pfd, pev, ev, |items|, None) && Mirrors(pev, items) && h !in items
    requires forall k :: k in ev && k != h ==> k in ev' && ev'[k] == ev[k]
    ensures Polls(pfd, pev, ev', |items|, None)
  {
    PollsBut(pfd, pev, ev, |items|, h);
    PollsSame(pfd, pev, ev, ev', |items|, Some(h));
    PollsAll(pfd, pev, ev', items, h);
  }

  lemma AgreesItself(when: map<Handle, real>, h: Handle)
    ensures AgreeBut(Earlier(when), Earlier(when), h)
  {}

  lemma PendingFd(ev: map<Handle, Event>, h: Handle)
    requires h in ev
    ensures Pending(ev[h := ev[h].(fd := -1)]) == Pending(ev)
  {}

  lemma PendingFreed(ev: map<Handle, Event>, h: Handle)
    requires h in ev && !ev[h].live
    ensures Pending(ev - {h}) == Pending(ev)
  {}

  lemma PendingNone(ev: map<Handle, Event>, h: Handle)
    requires h !in ev
    ensures h !in Pending(ev)
  {}

  lemma PendingNot(ev: map<Handle, Event>, h: Handle)
    requires h in ev && !ev[h].live
    ensures h !in Pending(ev)
  {}

  lemma PendingIs(ev: map<Handle, Event>, h: Handle)
    requires h in ev && ev[h].live
    ensures h in Pending(ev) <==> ev[h].fdEvents != 0
    ensures ev[h].fdEvents != 0 ==> |Pending(ev)| > 0
  {}

  lemma Joined(s: seq<Handle>, t: seq<Handle>, h: Handle)
    requires multiset(t) == multiset(s) + multiset{h}
    ensures forall x :: x in t <==> x in s || x == h
  {
    forall x ensures x in t <==> x in s || x == h {
      assert x in t <==> x in multiset(t);
      assert x in s <==> x in multiset(s);
    }
  }

  lemma InLastSlot(s: seq<Handle>, u: nat, h: Handle)
    requires Distinct(s) && 1 <= u <= |s| && s[u - 1] == h
    ensures u == |s| <==> s[|s| - 1] == h
  {}

  lemma Left(s: seq<Handle>, t: seq<Handle>, h: Handle)
    requires Distinct(s) && h in s
    requires multiset(t) == multiset(s) - multiset{h}
    ensures forall x :: x in t <==> x in s && x != h
  {
    hide Distinct;
    forall x ensures x in t <==> x in s && x != h {
      AtMostOnce(s, x);
      InCount(s, x);
      InCount(t, x);
    }
  }

  lemma InCount(s: seq<Handle>, x: Handle)
    ensures x in s <==> multiset(s)[x] > 0
  {
    assert x in s <==> x in multiset(s);
  }

  lemma {:induction false} AtMostOnce(s: seq<Handle>, x: Handle)
    requires Distinct(s)
    ensures multiset(s)[x] <= 1
  {
    if s != [] {
      var n := |s| - 1;
      AtMostOnce(s[..n], x);
      InCount(s[..n], x);
      assert s == s[..n] + [s[n]];
      if x in s[..n] {
        var i :| 0 <= i < n && s[..n][i] == x;
        assert s[i] == x;
      }
    }
  }

  /** Giving `h` nothing to deliver takes it, and only it, out of the pending events. */
  lemma PendingWithout(ev: map<Handle, Event>, h: Handle, e: Event)
    requires !(e.live && e.fdEvents != 0)
    ensures Pending(ev[h := e]) == Pending(ev) - {h}
    ensures |Pending(ev[h := e])| == |Pending(ev)| - if h in Pending(ev) then 1 else 0
  {
    assert Pending(ev[h := e]) == Pending(ev) - {h};
  }

  // ------------------------------------------------ callbacks

  /** What a callback may do to the event loop it is called from. */
  datatype Action =
    | Alloc(h: Handle, fd: int, fdFlags: set<Flag>, timeout: real)
    | Launch(h: Handle, now: real)
    | Halt(h: Handle)

  /** One run of a callback: its effects, then the value it returns. */
  datatype Reaction = Reaction(actions: seq<Action>, ret: int)

  datatype Step = Called(h: Handle, events: nat, r: Reaction) | Stopped(h: Handle)

  /** How far the code got: on, into what VEV_Start and VEV_Stop assert of their callers,
      into an assertion of the loop about its own state, or until the heap freed a row in use. */
  datatype Fate = Fine | Misused | Tripped | Broken

  /** With no more events than this the heap frees no row in use. */
  const CROWD: nat := MAX_LENGTH - ROW_WIDTH

  /** How many events a callback starts. */
  ghost function Launches(actions: seq<Action>): nat {
    if actions == [] then 0
    else Launches(actions[..|actions| - 1]) + if actions[|actions| - 1].Launch? then 1 else 0
  }

  lemma LaunchesNow(actions: seq<Action>, a: Action)
    ensures Launches(actions + [a]) == Launches(actions) + if a.Launch? then 1 else 0
  {
    assert (actions + [a])[..|actions|] == actions;
  }

  lemma {:induction false} LaunchesSome(actions: seq<Action>, n: nat)
    requires n <= |actions|
    ensures Launches(actions[..n]) <= Launches(actions)
  {
    if n < |actions| {
      LaunchesSome(actions[..|actions| - 1], n);
      assert actions[..|actions| - 1][..n] == actions[..n];
    } else {
      assert actions[..n] == actions;
    }
  }

  /** How many events the callbacks started. */
  ghost function LaunchedBy(calls: seq<Step>): nat {
    if calls == [] then 0
    else
      var s := calls[|calls| - 1];
      LaunchedBy(calls[..|calls| - 1]) + if s.Called? then Launches(s.r.actions) else 0
  }

  lemma LaunchedNow(calls: seq<Step>, s: Step)
    requires s.Called?
    ensures LaunchedBy(calls + [s]) == LaunchedBy(calls) + Launches(s.r.actions)
  {
    assert (calls + [s])[..|calls|] == calls;
  }

  /** The callbacks made. */
  ghost function Calls(trace: seq<Step>): seq<Step> {
    if trace == [] then []
    else
      var n := |trace| - 1;
      Calls(trace[..n]) + if trace[n].Called? then [trace[n]] else []
  }

  lemma CallsNow(trace: seq<Step>, s: Step)
    ensures Calls(trace + [s]) == Calls(trace) + if s.Called? then [s] else []
  {
    assert (trace + [s])[..|trace|] == trace;
  }

  /** The last callback was told off. */
  ghost predicate LastBlamed(calls: seq<Step>) {
    calls != [] && (var s := calls[|calls| - 1]; s.Called? && Blamed(s.r.actions, s.h))
  }

  ghost predicate StopsItself(s: Step) { s.Called? && Halt(s.h) in s.r.actions }

  /** How many of the callbacks stopped their own event. */
  ghost function OwnStops(calls: seq<Step>): nat {
    if calls == [] then 0
    else OwnStops(calls[..|calls| - 1]) + if StopsItself(calls[|calls| - 1]) then 1 else 0
  }

  lemma OwnStopsNow(calls: seq<Step>, s: Step)
    ensures OwnStops(calls + [s]) == OwnStops(calls) + if StopsItself(s) then 1 else 0
  {
    assert (calls + [s])[..|calls|] == calls;
  }

  lemma {:induction false} OwnStopsNone(calls: seq<Step>)
    ensures OwnStops(calls) > 0 <==> exists j :: 0 <= j < |calls| && StopsItself(calls[j])
  {
    if calls != [] {
      var n := |calls| - 1;
      OwnStopsNone(calls[..n]);
      if OwnStops(calls[..n]) > 0 {
        var j :| 0 <= j < n && StopsItself(calls[..n][j]);
        assert StopsItself(calls[j]);
      }
      if j :| 0 <= j < |calls| && StopsItself(calls[j]) {
        assert j < n ==> StopsItself(calls[..n][j]);
      }
    }
  }

  /** Callbacks of which none ever stops its own event made no such stop. */
  lemma NeverTheirOwn(calls: seq<Step>, react: (Handle, nat, nat) -> Reaction)
    requires Reacted(calls, react) && forall h, n, k :: Halt(h) !in react(h, n, k).actions
    ensures OwnStops(calls) == 0
  {
    OwnStopsNone(calls);
  }

  /** The last negative value a callback returned, or 1. */
  ghost function Verdict(calls: seq<Step>): int {
    if calls == [] then 1
    else
      var s := calls[|calls| - 1];
      if s.Called? && s.r.ret < 0 then s.r.ret else Verdict(calls[..|calls| - 1])
  }

  lemma VerdictNow(calls: seq<Step>, s: Step)
    requires s.Called?
    ensures Verdict(calls + [s]) == if s.r.ret < 0 then s.r.ret else Verdict(calls)
  {
    assert (calls + [s])[..|calls|] == calls;
  }

  /** Each callback did what `react` has for it. */
  ghost predicate Reacted(calls: seq<Step>, react: (Handle, nat, nat) -> Reaction) {
    forall j :: 0 <= j < |calls| ==> calls[j].Called? && calls[j].r == react(calls[j].h, calls[j].events, j)
  }

  /** The loop's bookkeeping of the callbacks made. */
  ghost predicate Tallied(calls: seq<Step>, react: (Handle, nat, nat) -> Reaction, over: nat, count: nat, retval: int) {
    Reacted(calls, react) && over == OwnStops(calls) && count == |calls| && retval == Verdict(calls)
  }

  lemma FirstCall(s: Step)
    requires s.Called?
    ensures Calls([s]) == [s]
  {
    assert [s][..0] == [];
  }

  lemma NoCalls(react: (Handle, nat, nat) -> Reaction)
    ensures Calls([]) == [] && Tallied([], react, 0, 0, 1)
  {}

  lemma TalliedNow(calls: seq<Step>, react: (Handle, nat, nat) -> Reaction, over: nat, count: nat, retval: int, s: Step)
    requires Tallied(calls, react, over, count, retval)
    requires s.Called? && s.r == react(s.h, s.events, count)
    ensures Tallied(calls + [s], react, over + if StopsItself(s) then 1 else 0, count + 1,
      if s.r.ret < 0 then s.r.ret else retval)
    ensures Reacted(calls + [s], react) && OwnStops(calls + [s]) == over + if StopsItself(s) then 1 else 0
  {
    OwnStopsNow(calls, s);
    VerdictNow(calls, s);
  }

  /** The last thing the actions do to `h` itself is to stop it. */
  ghost predicate EndsStopped(actions: seq<Action>, h: Handle) {
    actions != [] && (var n := |actions| - 1;
      actions[n] == Halt(h) || (EndsStopped(actions[..n], h) && !(actions[n].Launch? && actions[n].h == h)))
  }

  lemma EndsStoppedNow(actions: seq<Action>, h: Handle, a: Action)
    ensures EndsStopped(actions + [a], h) <==> a == Halt(h) || (EndsStopped(actions, h) && !(a.Launch? && a.h == h))
    ensures Halt(h) in actions + [a] <==> Halt(h) in actions || a == Halt(h)
  {
    assert (actions + [a])[..|actions|] == actions;
  }

  lemma {:induction false} EndsStoppedHalts(actions: seq<Action>, h: Handle)
    requires EndsStopped(actions, h)
    ensures Halt(h) in actions
  {
    var n := |actions| - 1;
    if actions[n] != Halt(h) {
      EndsStoppedHalts(actions[..n], h);
    }
  }

  /** The running event after one action. */
  ghost function Done(a: Action, running: Handle, e: Event): Event {
    if a == Halt(running) then e.(live := false, fd := -1, fdEvents := 0)
    else if a.Launch? && a.h == running then e.(live := true)
    else e
  }

  /** What VEV_Start and VEV_Stop assert of their callers; `next` is how far the heap is full. */
  predicate MayAct(a: Action, ev: map<Handle, Event>, next: nat) {
    match a
    case Alloc(h, _, _, _) => h !in ev
    case Launch(h, _) =>
      && h in ev && !ev[h].live && ev[h].timeout >= 0.0 && (ev[h].fd < 0 || ev[h].fdFlags != {})
      && next < MAX_LENGTH
    case Halt(h) => h in ev && ev[h].live
  }

  // ------------------------------------------------ who is registered

  /** An event without what poll found for it. */
  datatype Reg = Reg(live: bool, fd: int, fdFlags: set<Flag>, timeout: real)

  /** The events there are, and their deadlines. */
  datatype World = World(regs: map<Handle, Reg>, when: map<Handle, real>)

  ghost function Regs(ev: map<Handle, Event>): map<Handle, Reg> {
    map h | h in ev :: Reg(ev[h].live, ev[h].fd, ev[h].fdFlags, ev[h].timeout)
  }

  lemma RegsSet(ev: map<Handle, Event>, h: Handle, e: Event)
    ensures Regs(ev[h := e]) == Regs(ev)[h := Reg(e.live, e.fd, e.fdFlags, e.timeout)]
  {}

  lemma RegsDrop(ev: map<Handle, Event>, h: Handle)
    ensures Regs(ev - {h}) == Regs(ev) - {h}
  {}

  lemma RegsAt(ev: map<Handle, Event>, h: Handle)
    ensures h in Regs(ev) <==> h in ev
    ensures h in ev ==> Regs(ev)[h] == Reg(ev[h].live, ev[h].fd, ev[h].fdFlags, ev[h].timeout)
  {}

  lemma RegsQuiet(ev: map<Handle, Event>, h: Handle, n: nat)
    requires h in ev
    ensures Regs(ev[h := ev[h].(fdEvents := n)]) == Regs(ev)
  {}

  /** An event is made, started or stopped; what may not be done changes nothing. */
  ghost function Effect(w: World, a: Action): World {
    match a
    case Alloc(h, fd, fdFlags, timeout) =>
      if h in w.regs then w else World(w.regs[h := Reg(false, fd, fdFlags, timeout)], w.when - {h})
    case Launch(h, now) =>
      if h !in w.regs || w.regs[h].live then w
      else
        var due := if w.regs[h].timeout != 0.0 then When(w.when, h) + now + w.regs[h].timeout else NEVER;
        World(w.regs[h := w.regs[h].(live := true)], w.when[h := due])
    case Halt(h) =>
      if h !in w.regs || !w.regs[h].live then w
      else World(w.regs[h := w.regs[h].(live := false, fd := -1)], w.when)
  }

  ghost function Effects(w: World, actions: seq<Action>): World {
    if actions == [] then w else Effect(Effects(w, actions[..|actions| - 1]), actions[|actions| - 1])
  }

  ghost function Without(w: World, h: Handle): World { World(w.regs - {h}, w.when - {h}) }

  /** A callback does what it does; if it does not return 0, its event is stopped and freed. */
  ghost function AfterCall(w: World, h: Handle, r: Reaction): World {
    var after := Effects(w, r.actions);
    if r.ret != 0 then Without(after, h) else after
  }

  /** After a timeout an event that stays is due again. */
  ghost function AfterTimeout(w: World, h: Handle, r: Reaction, t: real): World {
    var after := AfterCall(w, h, r);
    if r.ret == 0 && h in w.regs then after.(when := after.when[h := t + w.regs[h].timeout]) else after
  }

  ghost function AfterCalls(w: World, calls: seq<Step>): World {
    if calls == [] then w
    else
      var s, before := calls[|calls| - 1], AfterCalls(w, calls[..|calls| - 1]);
      if s.Called? then AfterCall(before, s.h, s.r) else before
  }

  lemma StoppedThenFreed(w: World, h: Handle)
    ensures Without(Effect(w, Halt(h)), h) == Without(w, h)
  {}

  lemma EffectsNow(w: World, actions: seq<Action>, a: Action)
    ensures Effects(w, actions + [a]) == Effect(Effects(w, actions), a)
  {
    assert (actions + [a])[..|actions|] == actions;
  }

  lemma NothingDone(w: World)
    ensures AfterCalls(w, []) == w && Effects(w, []) == w
  {}

  lemma AfterCallsNow(w: World, calls: seq<Step>, s: Step)
    requires s.Called?
    ensures AfterCalls(w, calls + [s]) == AfterCall(AfterCalls(w, calls), s.h, s.r)
  {
    assert (calls + [s])[..|calls|] == calls;
  }

  /** Some callback makes an event `h` again. */
  predicate MakesAgain(actions: seq<Action>, h: Handle) {
    exists i :: 0 <= i < |actions| && actions[i].Alloc? && actions[i].h == h
  }

  lemma {:induction false} EffectsKeepOut(w: World, actions: seq<Action>, h: Handle)
    requires h !in w.regs && !MakesAgain(actions, h)
    ensures h !in Effects(w, actions).regs
  {
    if actions != [] {
      var n := |actions| - 1;
      assert forall i :: 0 <= i < n ==> actions[..n][i] == actions[i];
      EffectsKeepOut(w, actions[..n], h);
    }
  }

  /** An event whose callback did not return 0 is gone, unless it is made again. */
  lemma {:induction false} GoneAfter(w: World, calls: seq<Step>, j: nat)
    requires j < |calls| && calls[j].Called? && calls[j].r.ret != 0
    requires forall m :: j < m < |calls| && calls[m].Called? ==> !MakesAgain(calls[m].r.actions, calls[j].h)
    ensures calls[j].h !in AfterCalls(w, calls).regs
  {
    hide Effects, MakesAgain;
    var n := |calls| - 1;
    if j < n {
      assert forall m :: 0 <= m < n ==> calls[..n][m] == calls[m];
      GoneAfter(w, calls[..n], j);
      if calls[n].Called? { EffectsKeepOut(AfterCalls(w, calls[..n]), calls[n].r.actions, calls[j].h); }
    }
  }

  /** As it was: registered, with the same descriptor, flags, timeout and deadline. */
  ghost predicate Untouched(w: World, w': World, h: Handle) {
    && h in w.regs && w.regs[h].live && h in w'.regs && w'.regs[h] == w.regs[h]
    && When(w'.when, h) == When(w.when, h)
  }

  lemma {:induction false} EffectsLeave(w: World, actions: seq<Action>, h: Handle)
    requires h in w.regs && w.regs[h].live && Halt(h) !in actions
    ensures Untouched(w, Effects(w, actions), h)
  {
    if actions != [] {
      var n := |actions| - 1;
      assert Halt(h) !in actions[..n];
      EffectsLeave(w, actions[..n], h);
    }
  }

  /** An event that no callback stops, its own return value included, stays as it was. */
  lemma {:induction false} StaysAfter(w: World, calls: seq<Step>, h: Handle)
    requires h in w.regs && w.regs[h].live
    requires forall m :: 0 <= m < |calls| && calls[m].Called? ==>
      Halt(h) !in calls[m].r.actions && !(calls[m].h == h && calls[m].r.ret != 0)
    ensures Untouched(w, AfterCalls(w, calls), h)
  {
    hide Effects;
    if calls != [] {
      var n := |calls| - 1;
      assert forall m :: 0 <= m < n ==> calls[..n][m] == calls[m];
      StaysAfter(w, calls[..n], h);
      if calls[n].Called? { EffectsLeave(AfterCalls(w, calls[..n]), calls[n].r.actions, h); }
    }
  }

  /** Why a callback for `h` with these actions was told off: not for stopping its own event once. */
  ghost predicate Blamed(actions: seq<Action>, h: Handle) {
    exists i :: 0 <= i < |actions| && (actions[i] == Halt(h) ==> Halt(h) in actions[..i])
  }

  ghost predicate Mentioned(trace: seq<Step>, h: Handle) {
    exists j :: 0 <= j < |trace| && trace[j].h == h
  }

  /** `due` is what poll found.  So far, every callback was for an event of `due`,
      with its own events, and for an event not called or stopped before; the pending
      events are exactly those of `due` not yet called or stopped, but for the
      event whose callback is running. */
  ghost predicate Settled(trace: seq<Step>, due: map<Handle, nat>, ev: map<Handle, Event>, running: Option<Handle>) {
    && (forall j :: 0 <= j < |trace| && trace[j].Called? ==>
          trace[j].h in due && trace[j].events == due[trace[j].h] && !Mentioned(trace[..j], trace[j].h))
    && (forall h :: h in Pending(ev) && Some(h) != running ==>
          h in due && ev[h].fdEvents == due[h] && !Mentioned(trace, h))
    && (forall h :: h in due && h !in Pending(ev) ==> Mentioned(trace, h))
  }

  lemma MentionedNow(trace: seq<Step>, s: Step)
    ensures forall h :: Mentioned(trace + [s], h) <==> Mentioned(trace, h) || h == s.h
  {
    forall h ensures Mentioned(trace + [s], h) <==> Mentioned(trace, h) || h == s.h {
      if Mentioned(trace, h) {
        var j :| 0 <= j < |trace| && trace[j].h == h;
        assert (trace + [s])[j].h == h;
      }
      assert (trace + [s])[|trace|] == s;
    }
  }

  lemma EarlierSteps(trace: seq<Step>, s: Step)
    ensures forall j :: 0 <= j <= |trace| ==> (trace + [s])[..j] == trace[..j]
  {}

  lemma SettledStop(trace: seq<Step>, due: map<Handle, nat>, ev: map<Handle, Event>, running: Option<Handle>,
                    h: Handle, e: Event)
    requires Settled(trace, due, ev, running)
    requires !e.live
    ensures Settled(trace + [Stopped(h)], due, ev[h := e], running)
  {
    hide Pending, Mentioned;
    MentionedNow(trace, Stopped(h));
    EarlierSteps(trace, Stopped(h));
    PendingWithout(ev, h, e);
  }

  lemma SettledSame(trace: seq<Step>, due: map<Handle, nat>, ev: map<Handle, Event>, running: Option<Handle>,
                    h: Handle, e: Event)
    requires Settled(trace, due, ev, running)
    requires h !in Pending(ev) && !(e.live && e.fdEvents != 0)
    ensures Settled(trace, due, ev[h := e], running)
  {
    hide Pending, Mentioned;
    PendingWithout(ev, h, e);
  }

  lemma SettledCall(trace: seq<Step>, due: map<Handle, nat>, ev: map<Handle, Event>, h: Handle, r: Reaction)
    requires Settled(trace, due, ev, None) && h in Pending(ev)
    ensures Settled(trace + [Called(h, ev[h].fdEvents, r)], due, ev, Some(h))
  {
    var s := Called(h, ev[h].fdEvents, r);
    MentionedNow(trace, s);
    EarlierSteps(trace, s);
  }

  lemma SettledReturn(trace: seq<Step>, due: map<Handle, nat>, ev: map<Handle, Event>, h: Handle, e: Event)
    requires Settled(trace, due, ev, Some(h)) && Mentioned(trace, h)
    requires !(e.live && e.fdEvents != 0)
    ensures Settled(trace, due, ev[h := e], None)
  {
    hide Pending, Mentioned;
    PendingWithout(ev, h, e);
  }

  lemma SettledFree(trace: seq<Step>, due: map<Handle, nat>, ev: map<Handle, Event>, running: Option<Handle>, h: Handle)
    requires Settled(trace, due, ev, running)
    requires h in ev && !ev[h].live
    ensures Settled(trace, due, ev - {h}, running) && Pending(ev - {h}) == Pending(ev)
  {
    assert Pending(ev - {h}) == Pending(ev);
    hide Pending, Mentioned;
  }

  lemma MentionedStays(s: seq<Step>, t: seq<Step>, h: Handle)
    requires s <= t && Mentioned(s, h)
    ensures Mentioned(t, h)
  {
    var j :| 0 <= j < |s| && s[j].h == h;
    assert t[j].h == h;
  }

  /** What poll found is what is pending. */
  ghost function Due(ev: map<Handle, Event>): map<Handle, nat> {
    map h | h in Pending(ev) :: ev[h].fdEvents
  }

  lemma SettledStart(ev: map<Handle, Event>)
    ensures Settled([], Due(ev), ev, None)
  {}

  lemma SettledIdle(ev: map<Handle, Event>, h: Handle, r: Reaction)
    requires Pending(ev) == {}
    ensures Settled([Called(h, 0, r)], map[h := 0], ev, Some(h))
  {
    assert [Called(h, 0, r)][0].h == h;
  }

  lemma PendingWith(ev: map<Handle, Event>, h: Handle, e: Event)
    requires h !in Pending(ev) && e.live && e.fdEvents != 0
    ensures Pending(ev[h := e]) == Pending(ev) + {h}
    ensures |Pending(ev[h := e])| == |Pending(ev)| + 1
  {
    assert Pending(ev[h := e]) == Pending(ev) + {h};
  }

  /** Poll's answer, by event. */
  ghost function DueFrom(items: seq<Handle>, revents: seq<nat>): map<Handle, nat>
    requires |items| == |revents|
  {
    map h | h in items && (exists i :: 0 <= i < |items| && items[i] == h && revents[i] != 0) ::
      var i :| 0 <= i < |items| && items[i] == h && revents[i] != 0; revents[i]
  }

  /** The number of descriptors with something to report, poll's return value. */
  function Ready(revents: seq<nat>): (n: nat)
    ensures n <= |revents|
  {
    if revents == [] then 0
    else Ready(revents[..|revents| - 1]) + if revents[|revents| - 1] != 0 then 1 else 0
  }

  lemma DueByEvent(items: seq<Handle>, ev: map<Handle, Event>, revents: seq<nat>)
    requires Distinct(items) && |items| == |revents|
    requires forall h :: h in items <==> h in ev && ev[h].live
    requires forall i :: 0 <= i < |revents| ==> items[i] in ev && ev[items[i]].fdEvents == revents[i]
    ensures Due(ev) == DueFrom(items, revents)
  {
    var d := DueFrom(items, revents);
    forall h ensures h in Due(ev) <==> h in d {
      if h in items {
        var i :| 0 <= i < |items| && items[i] == h;
      }
    }
    forall h | h in d ensures Due(ev)[h] == d[h] {
      var i :| 0 <= i < |items| && items[i] == h;
    }
  }

  /** The first `n` events have their share of poll's answer, the others nothing yet. */
  ghost predicate Noted(items: seq<Handle>, ev: map<Handle, Event>, revents: seq<nat>, n: nat) {
    && |items| == |revents|
    && forall i :: 0 <= i < |items| ==>
         items[i] in ev && ev[items[i]].fdEvents == if i < n then revents[i] else 0
  }

  ghost predicate ButEvents(was: map<Handle, Event>, ev: map<Handle, Event>) {
    && (forall h :: h in ev <==> h in was)
    && forall h :: h in ev ==> ev[h] == was[h].(fdEvents := ev[h].fdEvents)
  }

  lemma NotedNone(items: seq<Handle>, ev: map<Handle, Event>, revents: seq<nat>)
    requires |items| == |revents| && forall i :: 0 <= i < |items| ==> items[i] in ev && ev[items[i]].fdEvents == 0
    ensures Noted(items, ev, revents, 0) && ButEvents(ev, ev)
  {}

  lemma NotedAt(items: seq<Handle>, ev: map<Handle, Event>, revents: seq<nat>, n: nat)
    requires Noted(items, ev, revents, n) && n < |items|
    ensures |items| == |revents| && items[n] in ev && ev[items[n]].fdEvents == 0
  {}

  lemma NotedNext(items: seq<Handle>, was: map<Handle, Event>, ev: map<Handle, Event>, revents: seq<nat>, n: nat)
    requires Noted(items, ev, revents, n) && ButEvents(was, ev) && n < |items| && Distinct(items)
    requires |items| == |revents| && items[n] in ev
    ensures var ev' := ev[items[n] := ev[items[n]].(fdEvents := revents[n])];
      Noted(items, ev', revents, n + 1) && ButEvents(was, ev')
  {}

  lemma RegsNoted(was: map<Handle, Event>, ev: map<Handle, Event>)
    requires ButEvents(was, ev)
    ensures Regs(ev) == Regs(was)
  {}

  lemma NotedAll(items: seq<Handle>, was: map<Handle, Event>, ev: map<Handle, Event>, revents: seq<nat>)
    requires Noted(items, ev, revents, |items|) && ButEvents(was, ev)
    ensures forall i :: 0 <= i < |revents| ==> i < |items| && items[i] in ev && ev[items[i]].fdEvents == revents[i]
    ensures forall h :: h in ev <==> h in was
    ensures forall h :: h in ev ==> ev[h] == was[h].(fdEvents := ev[h].fdEvents)
  {}

  // ------------------------------------------------ the event loop

  class Root {
    /** Callbacks made and events stopped since poll last returned. */
    ghost var trace: seq<Step>
    const heap: Heap<Handle>
    var ev: map<Handle, Event>
    var when: map<Handle, real>
    var idx: map<Handle, nat>
    var pev: seq<Handle>
    var pfd: seq<PollFd>
    var npfd: nat
    var lpfd: nat
    var nFdEvents: nat

    ghost predicate Arrays()
      reads `npfd, `pev, `pfd, `lpfd
    {
      npfd == |pev| == |pfd| && 1 <= lpfd < npfd
    }

    /** Everything but the count of pending events. */
    ghost predicate Wired()
      reads `npfd, `pev, `pfd, `lpfd, `idx, `ev, `when, heap, heap.repr
    {
      && Mirrored(when)
      && Polls(pfd, pev, ev, |heap.items|, None)
      && lpfd == heap.next
      && Registered(heap.items, ev)
    }

    ghost function TheWorld(): World
      reads `ev, `when
    {
      World(Regs(ev), when)
    }

    /** `over` pending events have been counted off already. */
    ghost predicate Counted(over: nat)
      reads `npfd, `pev, `pfd, `lpfd, `idx, `ev, `when, `nFdEvents, heap, heap.repr
    {
      Wired() && nFdEvents + over == |Pending(ev)|
    }

    ghost predicate Valid()
      reads `npfd, `pev, `pfd, `lpfd, `idx, `ev, `when, `nFdEvents, heap, heap.repr
    {
      Counted(0)
    }

    /** VEV_New */
    constructor (pageSize: nat)
      requires IsPageSize(pageSize)
      ensures Valid() && fresh(heap) && fresh(heap.repr)
      ensures ev == map[] && nFdEvents == 0 && heap.items == []
    {
      trace := [];
      heap := new Heap<Handle>(pageSize);
      ev, when, idx := map[], map[], map[];
      npfd, lpfd, nFdEvents := 8, 1, 0;
      pev := seq(8, _ => Handle(0));
      pfd := seq(8, _ => PollFd(-1, {}));
    }

    lemma NextIs()
      requires Wired()
      ensures heap.next == |heap.items| + 1
    {}

    /** vev_get_pfd */
    method GetPfd()
      requires Arrays()
      modifies `pev, `pfd, `npfd
      ensures Arrays() && lpfd + 1 < npfd
      ensures old(pev) <= pev && old(pfd) <= pfd
    {
      if lpfd + 1 < npfd {
        return;
      }
      var u := if npfd < 8 then 8 else if npfd > 256 then npfd + 256 else npfd * 2;
      pfd := pfd + seq(u - npfd, _ => PollFd(-1, {}));
      pev := pev + seq(u - npfd, _ => Handle(0));
      npfd := u;
    }

    /** vev_bh_update: with one more report of the heap, arrays and events are still all that it has reported,
        and the slots that were right are, the new last one included. */
    method BhUpdate(e: Handle, u: nat, ghost calls: seq<Report<Handle>>, ghost m: nat, ghost k: nat,
                    ghost but: Option<Handle>)
      requires Arrays() && u < lpfd && e in ev
      requires TookAll(calls, pev, idx) && Polls(pfd, pev, ev, m, but) && k < lpfd && (k == m || k == m + 1 == u)
      modifies `pev, `pfd, `idx
      ensures Arrays() && |pev| == |old(pev)|
      ensures TookAll(calls + [Report(e, u)], pev, idx) && Polls(pfd, pev, ev, k, but)
    {
      hide TookAll, Polls;
      TakeOne(calls, Report(e, u), pev, idx);
      PollsUpdate(pfd, pev, ev, m, but, u, e, k);
      idx := idx[e := u];
      if u != NOIDX {
        pev := pev[u := e];
        pfd := pfd[u := PollOf(ev[e])];
      }
    }

    /** Takes the reports of one heap operation, the ones from position `from` on.
        Slots up to `n` were right before it, `but` excepted; a new slot `n + 1`
        is the subject of the first report. */
    method TakeReports(from: nat, ghost n: nat, ghost but: Option<Handle>)
      requires Arrays() && heap.Valid()
      requires from <= |heap.calls| && TookAll(heap.calls[..from], pev, idx)
      requires forall i :: from <= i < |heap.calls| ==> heap.calls[i].idx < lpfd && heap.calls[i].item in ev
      requires Polls(pfd, pev, ev, n, but) && n < lpfd
      requires |heap.items| <= n ||
        (|heap.items| == n + 1 < lpfd && from < |heap.calls| && heap.calls[from].idx == n + 1)
      modifies `pev, `pfd, `idx
      ensures Arrays() && |pev| == |old(pev)|
      ensures TookAll(heap.calls, pev, idx) && Mirrors(pev, heap.items)
      ensures Polls(pfd, pev, ev, |heap.items|, but)
    {
      hide TookAll, Mirrors, Polls, ToldRight;
      var i := from;
      ghost var m: nat := n;
      while i < |heap.calls|
        invariant from <= i <= |heap.calls|
        invariant Arrays() && |pev| == |old(pev)|
        invariant TookAll(heap.calls[..i], pev, idx)
        invariant m < lpfd && Polls(pfd, pev, ev, m, but)
        invariant i == from ==> m == n
        invariant i > from ==> m >= |heap.items|
      {
        var c := heap.calls[i];
        assert heap.calls[..i + 1] == heap.calls[..i] + [c];
        ghost var k: nat := if i == from && |heap.items| > n then n + 1 else m;
        BhUpdate(c.item, c.idx, heap.calls[..i], m, k, but);
        m, i := k, i + 1;
      }
      assert heap.calls[..i] == heap.calls;
      TookMirrors(heap.calls, pev, idx, heap.items);
      PollsFewer(pfd, pev, ev, m, but, |heap.items|);
    }

    /** The heap is ordered by the deadlines `w`, and the arrays mirror it. */
    ghost predicate Mirrored(w: map<Handle, real>)
      reads `npfd, `pev, `pfd, `lpfd, `idx, heap, heap.repr
    {
      && Arrays()
      && heap.Valid() && heap.InOrder(Earlier(w))
      && TookAll(heap.calls, pev, idx)
      && Mirrors(pev, heap.items)
    }

    /** VBH_insert, with the reports taken. */
    method Enter(h: Handle)
      requires Mirrored(when) && Polls(pfd, pev, ev, |heap.items|, None)
      requires lpfd == heap.next + 1 && (forall x :: x in heap.items ==> x in ev)
      requires h !in heap.items && h in ev && heap.next < MAX_LENGTH
      modifies `pev, `pfd, `idx, heap, heap.repr
      ensures Mirrored(when) && Polls(pfd, pev, ev, |heap.items|, None)
      ensures lpfd == heap.next && fresh(heap.repr - old(heap.repr))
      ensures forall x :: x in heap.items <==> x in old(heap.items) || x == h
      ensures |heap.items| == |old(heap.items)| + 1
    {
      hide ToldRight, Ordered, StrictWeakOrder, TookAll, Mirrors, Polls, Reported, Earlier;
      EarlierIsOrder(when);
      var from := |heap.calls|;
      var ok := heap.Insert(h, Earlier(when));
      Joined(old(heap.items), heap.items, h);
      KnownReports(old(heap.calls), heap.calls, heap.next, heap.items, ev);
      TakeReports(from, |old(heap.items)|, None);
    }

    /** Taking `h` out frees no row in use: there are not too many events, or `h` is in the last slot. */
    ghost predicate MayLeave(h: Handle)
      reads heap
    {
      |heap.items| <= CROWD || heap.items[|heap.items| - 1] == h
    }

    /** VBH_delete, with the reports taken; `ok` is false if it freed a row in use. */
    method Leave(h: Handle, ghost w: map<Handle, real>) returns (ok: bool)
      requires Mirrored(w) && Polls(pfd, pev, ev, |heap.items|, Some(h))
      requires AgreeBut(Earlier(w), Earlier(when), h)
      requires h in heap.items && lpfd == heap.next && (forall x :: x in heap.items ==> x in ev)
      modifies `pev, `pfd, `idx, heap, heap.repr
      ensures ok <==> old(MayLeave(h))
      ensures heap.repr == old(heap.repr) && |heap.items| == |old(heap.items)| - 1
      ensures ok ==>
        && Mirrored(when) && Polls(pfd, pev, ev, |heap.items|, None) && lpfd == heap.next + 1
        && (forall x :: x in heap.items <==> x in old(heap.items) && x != h)
        && (h in idx ==> idx[h] == NOIDX)
    {
      hide ToldRight, Ordered, StrictWeakOrder, TookAll, Mirrors, Polls, Reported, Earlier, Distinct, AgreeBut;
      EarlierIsOrder(when);
      EarlierIsOrder(w);
      TookIndex(heap.calls, pev, idx, heap.items, h);
      InLastSlot(heap.items, idx[h], h);
      var from := |heap.calls|;
      heap.Delete(idx[h], Earlier(when), Earlier(w));
      if heap.next > heap.length {
        return false;
      }
      Left(old(heap.items), heap.items, h);
      KnownReports(old(heap.calls), heap.calls, lpfd, old(heap.items), ev);
      TakeReports(from, |old(heap.items)|, Some(h));
      PollsAll(pfd, pev, ev, heap.items, h);
      TookNone(heap.calls, pev, idx, h);
      ok := true;
    }

    /** VEV_Start; `now` is the clock reading. */
    method Start(h: Handle, now: real, ghost over: nat)
      requires Counted(over)
      requires h in ev && !ev[h].live && ev[h].timeout >= 0.0 && (ev[h].fd < 0 || ev[h].fdFlags != {})
      requires heap.next < MAX_LENGTH
      modifies this, heap, heap.repr
      ensures Counted(over) && fresh(heap.repr - old(heap.repr)) && nFdEvents == old(nFdEvents)
      ensures |heap.items| == |old(heap.items)| + 1
      ensures ev == old(ev)[h := old(ev)[h].(live := true)] && trace == old(trace)
      ensures When(when, h) == if ev[h].timeout != 0.0 then old(When(when, h)) + now + ev[h].timeout else NEVER
      // the code adds to the deadline: it is the right one only if there was none before
      ensures ev[h].timeout != 0.0 ==> (When(when, h) == now + ev[h].timeout <==> old(When(when, h)) == 0.0)
      ensures forall k :: k != h ==> When(when, k) == old(When(when, k))
      ensures TheWorld() == Effect(old(TheWorld()), Launch(h, now))
    {
      hide Mirrored, Polls, Pending, Regs;
      RegsAt(ev, h);
      RegsSet(ev, h, ev[h].(live := true));
      Admit(h);
      SetDeadline(h, now);
      Enter(h);
      PendingWithout(old(ev), h, ev[h]);
      PendingNot(old(ev), h);
    }

    /** Room for one more event, and the stamp on it. */
    method Admit(h: Handle)
      requires Wired() && h in ev && !ev[h].live
      modifies `pev, `pfd, `npfd, `ev, `lpfd
      ensures Mirrored(when) && Polls(pfd, pev, ev, |heap.items|, None)
      ensures lpfd == heap.next + 1
      ensures ev == old(ev)[h := old(ev)[h].(live := true)]
    {
      hide TookAll, Mirrors, Polls, Earlier;
      GetPfd();
      GrownArrays(heap.calls, idx, ev, heap.items, old(pev), old(pfd), pev, pfd);
      ev := ev[h := ev[h].(live := true)];
      PollsSame(pfd, pev, old(ev), ev, |heap.items|, None);
      lpfd := lpfd + 1;
    }

    method SetDeadline(h: Handle, now: real)
      requires Mirrored(when) && h in ev && h !in heap.items
      modifies `when
      ensures Mirrored(when) && when == old(when)[h := When(when, h)]
      ensures When(when, h) == if ev[h].timeout != 0.0 then old(When(when, h)) + now + ev[h].timeout else NEVER
      ensures forall k :: k != h ==> When(when, k) == old(When(when, k))
    {
      hide TookAll, Mirrors, Earlier, Ordered;
      if ev[h].timeout != 0.0 {
        when := when[h := When(when, h) + now + ev[h].timeout];
      } else {
        when := when[h := NEVER];
      }
      EarlierElsewhere(heap.size, old(when), when, h, heap.items);
    }

    /** VEV_Stop; `ok` is false if the heap freed a row in use. */
    method Stop(h: Handle, ghost over: nat) returns (ok: bool)
      requires Counted(over) && h in ev && ev[h].live && (ev[h].fdEvents != 0 ==> nFdEvents > 0)
      modifies this, heap, heap.repr
      ensures ok <==> old(MayLeave(h))
      ensures heap.repr == old(heap.repr) && |heap.items| == |old(heap.items)| - 1 && when == old(when)
      ensures !ok ==> trace == old(trace)
      ensures ok ==>
        && Counted(over) && nFdEvents == old(nFdEvents) - (if old(ev[h].fdEvents) != 0 then 1 else 0)
        && ev == old(ev)[h := old(ev)[h].(live := false, fd := -1, fdEvents := 0)]
        && trace == old(trace) + [Stopped(h)] && (h in idx ==> idx[h] == NOIDX)
        && TheWorld() == Effect(old(TheWorld()), Halt(h))
    {
      hide Mirrored, Polls, Pending, Earlier, AgreeBut, Registered, Regs;
      RegsAt(ev, h);
      RegsSet(ev, h, ev[h].(live := false, fd := -1, fdEvents := 0));
      RegisteredIs(heap.items, ev, h);
      ev := ev[h := ev[h].(fd := -1)];
      PendingFd(old(ev), h);
      ok := Unlink(h, old(ev));
      if !ok {
        return;
      }
      ghost var e := ev;
      Forget(h, over);
      Unstamped(e, h);
      RegisteredOut(old(heap.items), old(ev), heap.items, h, ev[h]);
      assert ev == old(ev)[h := ev[h]];
      trace := trace + [Stopped(h)];
    }

    /** The event has nothing pending any more, and loses its stamp. */
    method Forget(h: Handle, ghost over: nat)
      requires h in ev && ev[h].live && nFdEvents + over == |Pending(ev)| && (ev[h].fdEvents != 0 ==> nFdEvents > 0)
      modifies `ev, `nFdEvents
      ensures ev == old(ev)[h := old(ev)[h].(live := false, fdEvents := 0)]
      ensures nFdEvents + over == |Pending(ev)|
      ensures nFdEvents == old(nFdEvents) - if old(ev[h].fdEvents) != 0 then 1 else 0
    {
      PendingWithout(ev, h, ev[h].(live := false, fdEvents := 0));
      if ev[h].fdEvents != 0 {
        PendingIs(ev, h);
        nFdEvents := nFdEvents - 1;
        ev := ev[h := ev[h].(fdEvents := 0)];
      }
      ev := ev[h := ev[h].(live := false)];
      assert ev == old(ev)[h := old(ev)[h].(live := false, fdEvents := 0)];
    }

    /** Out of the heap and of the poll arrays. */
    method Unlink(h: Handle, ghost e: map<Handle, Event>) returns (ok: bool)
      requires Mirrored(when) && Polls(pfd, pev, e, |heap.items|, None)
      requires lpfd == heap.next && h in heap.items && (forall x :: x in heap.items ==> x in ev)
      requires h in e && ev == e[h := e[h].(fd := -1)]
      modifies `pev, `pfd, `idx, `lpfd, heap, heap.repr
      ensures ok <==> old(MayLeave(h))
      ensures heap.repr == old(heap.repr) && |heap.items| == |old(heap.items)| - 1
      ensures ok ==>
        && Mirrored(when) && Polls(pfd, pev, ev, |heap.items|, None) && lpfd == heap.next
        && (forall x :: x in heap.items <==> x in old(heap.items) && x != h)
        && (h in idx ==> idx[h] == NOIDX)
    {
      hide TookAll, Mirrors, Polls, Earlier, Ordered, AgreeBut;
      PollsBut(pfd, pev, e, |heap.items|, h);
      PollsSame(pfd, pev, e, ev, |heap.items|, Some(h));
      AgreesItself(when, h);
      ok := Leave(h, when);
      lpfd := lpfd - 1;
    }

    lemma Unstamped(e: map<Handle, Event>, h: Handle)
      requires Polls(pfd, pev, e, |heap.items|, None) && h !in heap.items
      requires Mirrored(when)
      requires forall k :: k in e && k != h ==> k in ev && ev[k] == e[k]
      ensures Polls(pfd, pev, ev, |heap.items|, None)
    {
      PollsGone(pfd, pev, e, ev, heap.items, h);
    }

    /** VEV_Alloc, with the fields its user then fills in. */
    method Allocate(h: Handle, fd: int, fdFlags: set<Flag>, timeout: real, ghost over: nat)
      requires Counted(over) && h !in ev
      modifies `ev, `when
      ensures Counted(over) && ev == old(ev)[h := Event(false, fd, fdFlags, 0, timeout)] && trace == old(trace)
      ensures When(when, h) == 0.0
      ensures TheWorld() == Effect(old(TheWorld()), Alloc(h, fd, fdFlags, timeout))
    {
      hide Mirrored, Polls, Pending, Regs;
      RegsAt(ev, h);
      RegsSet(ev, h, Event(false, fd, fdFlags, 0, timeout));
      EarlierElsewhereHere(h);
      ev := ev[h := Event(false, fd, fdFlags, 0, timeout)];
      when := when - {h};
      Unstamped(old(ev), h);
      PendingWithout(old(ev), h, ev[h]);
      PendingNone(old(ev), h);
    }

    lemma EarlierElsewhereHere(h: Handle)
      requires Mirrored(when) && h !in heap.items
      ensures Mirrored(when - {h})
    {
      EarlierElsewhere(heap.size, when, when - {h}, h, heap.items);
    }

    /** free(3) of an event that is not registered. */
    method Release(h: Handle, ghost over: nat)
      requires Counted(over) && h in ev && !ev[h].live
      modifies `ev, `when
      ensures Counted(over) && ev == old(ev) - {h}
      ensures forall k :: k != h ==> When(when, k) == old(When(when, k))
      ensures TheWorld() == Without(old(TheWorld()), h)
    {
      hide Mirrored, Polls, Pending, Regs;
      RegsDrop(ev, h);
      EarlierElsewhereHere(h);
      PendingFreed(ev, h);
      ev := ev - {h};
      when := when - {h};
      Unstamped(old(ev), h);
    }

    /** One thing a callback does. */
    method Act(a: Action, running: Handle, ghost over: nat, ghost due: map<Handle, nat>) returns (fate: Fate)
      requires Counted(over) && running in ev
      requires Settled(trace, due, ev, Some(running))
      modifies this, heap, heap.repr
      ensures fresh(heap.repr - old(heap.repr)) && (!fate.Broken? ==> Wired())
      ensures fate.Fine? ==> Counted(over) && Settled(trace, due, ev, Some(running)) && nFdEvents <= old(nFdEvents)
      ensures fate.Fine? ==> |heap.items| <= |old(heap.items)| + if a.Launch? then 1 else 0
      ensures old(trace) <= trace && Calls(trace) == old(Calls(trace))
      ensures fate.Fine? ==> running in ev && ev[running] == Done(a, running, old(ev[running]))
      ensures fate.Fine? ==> TheWorld() == Effect(old(TheWorld()), a)
      ensures fate.Misused? <==> !MayAct(a, old(ev), old(heap.next))
      ensures fate.Broken? ==> a.Halt? && !old(MayLeave(a.h))
      ensures a.Halt? && !fate.Misused? && !fate.Tripped? ==> (fate.Broken? <==> !old(MayLeave(a.h)))
      ensures fate.Tripped? ==> over > 0
    {
      hide Wired, Pending, Settled, Effect, Regs;
      if !MayAct(a, ev, heap.next) {
        return Misused;
      }
      match a {
      case Alloc(h, fd, fdFlags, timeout) =>
        PendingNone(ev, h);
        SettledSame(trace, due, ev, Some(running), h, Event(false, fd, fdFlags, 0, timeout));
        Allocate(h, fd, fdFlags, timeout, over);
      case Launch(h, now) =>
        PendingNot(ev, h);
        NotPendingStopped(h);
        SettledSame(trace, due, ev, Some(running), h, ev[h].(live := true));
        Start(h, now, over);
      case Halt(h) =>
        PendingIs(ev, h);
        if ev[h].fdEvents != 0 && nFdEvents == 0 {
          return Tripped;
        }
        SettledStop(trace, due, ev, Some(running), h, ev[h].(live := false, fd := -1, fdEvents := 0));
        CallsNow(trace, Stopped(h));
        var ok := Stop(h, over);
        if !ok {
          return Broken;
        }
      }
      return Fine;
    }

    static lemma LaunchesNone()
      ensures Launches([]) == 0
    {}

    static lemma NoneYet(h: Handle)
      ensures !EndsStopped([], h)
    {}

    lemma NotPendingStopped(h: Handle)
      requires Wired() && h in ev && !ev[h].live
      ensures ev[h].fdEvents == 0
    {}

    /** Runs one callback. */
    method Callback(h: Handle, r: Reaction, ghost over: nat, ghost due: map<Handle, nat>) returns (fate: Fate)
      requires Counted(over) && h in ev && ev[h].live
      requires Settled(trace, due, ev, Some(h))
      modifies this, heap, heap.repr
      ensures fresh(heap.repr - old(heap.repr)) && (!fate.Broken? ==> Wired())
      ensures fate.Fine? ==> Counted(over) && Settled(trace, due, ev, Some(h)) && nFdEvents <= old(nFdEvents)
      ensures fate.Fine? ==> |heap.items| <= |old(heap.items)| + Launches(r.actions)
      ensures fate.Broken? ==> |old(heap.items)| + Launches(r.actions) > CROWD
      ensures fate.Fine? ==> TheWorld() == Effects(old(TheWorld()), r.actions)
      ensures old(trace) <= trace && Calls(trace) == old(Calls(trace))
      ensures fate.Fine? ==> h in ev && ev[h].live == !EndsStopped(r.actions, h) && ev[h].timeout == old(ev[h].timeout)
      ensures fate.Fine? ==> if Halt(h) in r.actions then ev[h].fdEvents == 0 else ev[h] == old(ev[h])
      ensures fate.Misused? ==> Blamed(r.actions, h)
      ensures fate.Tripped? ==> over > 0
    {
      hide Wired, Pending, Settled, EndsStopped, Launches, Effect, TheWorld;
      var i := 0;
      NoneYet(h);
      assert Launches([]) == 0 by { LaunchesNone(); }
      assert r.actions[..0] == [];
      while i < |r.actions|
        invariant 0 <= i <= |r.actions|
        invariant Counted(over) && fresh(heap.repr - old(heap.repr))
        invariant Settled(trace, due, ev, Some(h)) && nFdEvents <= old(nFdEvents)
        invariant |heap.items| <= |old(heap.items)| + Launches(r.actions[..i])
        invariant TheWorld() == Effects(old(TheWorld()), r.actions[..i])
        invariant old(trace) <= trace && Calls(trace) == old(Calls(trace))
        invariant h in ev && ev[h].live == !EndsStopped(r.actions[..i], h) && ev[h].timeout == old(ev[h].timeout)
        invariant if Halt(h) in r.actions[..i] then ev[h].fdEvents == 0 else ev[h] == old(ev[h])
      {
        ghost var a := r.actions[i];
        assert r.actions[..i + 1] == r.actions[..i] + [a];
        EndsStoppedNow(r.actions[..i], h, a);
        LaunchesNow(r.actions[..i], a);
        EffectsNow(old(TheWorld()), r.actions[..i], a);
        LaunchesSome(r.actions, i);
        fate := Act(r.actions[i], h, over, due);
        if !fate.Fine? {
          assert fate.Misused? ==> Blamed(r.actions, h);
          return;
        }
        i := i + 1;
      }
      assert r.actions[..i] == r.actions;
      return Fine;
    }

    /** The body of the dispatch loop for one pending event: callback, bookkeeping,
        and VEV_Stop if the callback asked for it.  An event its callback has stopped
        was counted off then, and is here again. */
    method Deliver(h: Handle, r: Reaction, ghost over: nat, ghost due: map<Handle, nat>) returns (fate: Fate)
      requires Counted(over) && h in Pending(ev)
      requires Settled(trace, due, ev, None)
      modifies this, heap, heap.repr
      ensures fresh(heap.repr - old(heap.repr)) && (!fate.Broken? ==> Wired())
      ensures fate.Fine? ==> Counted(over + if Halt(h) in r.actions then 1 else 0)
      ensures fate.Fine? ==> |heap.items| <= |old(heap.items)| + Launches(r.actions)
      ensures fate.Broken? ==> |old(heap.items)| + Launches(r.actions) > CROWD
      ensures fate.Fine? ==> Settled(trace, due, ev, None) && nFdEvents < old(nFdEvents)
      ensures fate.Fine? ==> TheWorld() == AfterCall(old(TheWorld()), h, r)
      ensures fate.Fine? ==> if r.ret != 0 then h !in ev else h in ev && ev[h].live == !EndsStopped(r.actions, h)
      ensures Calls(trace) == old(Calls(trace)) + [Called(h, old(ev[h].fdEvents), r)]
      ensures fate.Misused? ==> Blamed(r.actions, h)
      ensures fate.Tripped? ==> over > 0 || Halt(h) in r.actions
    {
      hide Wired, Settled, Mentioned, Calls, EndsStopped, Blamed, Launches, Effects, Regs;
      ghost var s := Called(h, ev[h].fdEvents, r);
      SettledCall(trace, due, ev, h, r);
      MentionedNow(trace, s);
      CallsNow(trace, s);
      trace := trace + [s];
      ghost var called := trace;
      fate := Callback(h, r, over, due);
      if !fate.Fine? {
        return;
      }
      if EndsStopped(r.actions, h) { EndsStoppedHalts(r.actions, h); }
      MentionedStays(called, trace, h);
      SettledReturn(trace, due, ev, h, ev[h].(fdEvents := 0));
      if nFdEvents == 0 {
        return Tripped;
      }
      Served(h, over);
      if r.ret != 0 {
        if !ev[h].live {
          return Tripped;
        }
        var ok := Discard(h, over + if Halt(h) in r.actions then 1 else 0, due);
        if !ok {
          return Broken;
        }
      }
    }

    /** VEV_Stop and free(3) of an event that has been served. */
    method Discard(h: Handle, ghost over: nat, ghost due: map<Handle, nat>) returns (ok: bool)
      requires Counted(over) && h in ev && ev[h].live && ev[h].fdEvents == 0
      requires Settled(trace, due, ev, None)
      modifies this, heap, heap.repr
      ensures ok <==> old(MayLeave(h))
      ensures heap.repr == old(heap.repr) && |heap.items| == |old(heap.items)| - 1 && Calls(trace) == old(Calls(trace))
      ensures ok ==> Counted(over) && nFdEvents == old(nFdEvents) && Settled(trace, due, ev, None)
      ensures ok ==> h !in ev && TheWorld() == Without(old(TheWorld()), h)
    {
      hide Wired, Settled, Pending, Regs;
      StoppedThenFreed(TheWorld(), h);
      SettledStop(trace, due, ev, None, h, ev[h].(live := false, fd := -1, fdEvents := 0));
      CallsNow(trace, Stopped(h));
      ok := Stop(h, over);
      if !ok {
        return;
      }
      SettledFree(trace, due, ev, None, h);
      Release(h, over);
    }

    /** `e->fd_events = 0` and the count that goes with it. */
    method Served(h: Handle, ghost over: nat)
      requires Counted(over) && h in ev && nFdEvents > 0
      modifies `ev, `nFdEvents
      ensures Counted(over + if old(h in Pending(ev)) then 0 else 1)
      ensures ev == old(ev)[h := old(ev)[h].(fdEvents := 0)]
      ensures nFdEvents == old(nFdEvents) - 1 && TheWorld() == old(TheWorld())
    {
      hide Mirrored, Polls, Registered, Pending, Regs;
      RegsQuiet(ev, h, 0);
      PendingWithout(ev, h, ev[h].(fdEvents := 0));
      RegisteredIs(heap.items, ev, h);
      RegisteredSame(heap.items, ev, h, ev[h].(fdEvents := 0));
      ev := ev[h := ev[h].(fdEvents := 0)];
      nFdEvents := nFdEvents - 1;
      PollsSame(pfd, pev, old(ev), ev, |heap.items|, None);
    }

    /** No event in the first `n` slots of the poll arrays is pending. */
    ghost predicate NoneBefore(n: nat)
      reads this, heap, heap.repr
    {
      forall i :: 0 <= i < n && i < |heap.items| ==> heap.items[i] !in Pending(ev)
    }

    lemma NoneAtAll()
      requires Wired() && NoneBefore(|heap.items|)
      ensures Pending(ev) == {}
    {
      forall h ensures h !in Pending(ev) {
        if h in heap.items {
          var i :| 0 <= i < |heap.items| && heap.items[i] == h;
        }
      }
      assert Pending(ev) == {};
    }

    lemma SlotEvent(u: nat)
      requires Wired() && 1 <= u < lpfd
      ensures u < |pev| && pev[u] == heap.items[u - 1] && pev[u] in ev && ev[pev[u]].live
    {
      assert pev[u - 1 + 1] == heap.items[u - 1];
      assert heap.items[u - 1] in heap.items;
    }

    /** The dispatch loop of VEV_Once.  `react` is any behaviour of the callbacks:
        it may depend on the event, on what is delivered and on all that happened before.
        When the loop returns, as many events are left undelivered as callbacks stopped their own event. */
    method Dispatch(react: (Handle, nat, nat) -> Reaction) returns (fate: Fate, retval: int)
      requires Valid()
      modifies this, heap, heap.repr
      ensures fresh(heap.repr - old(heap.repr)) && (!fate.Broken? ==> Wired())
      ensures Reacted(Calls(trace), react) && (old(nFdEvents) > 0 ==> Calls(trace) != [])
      ensures fate.Fine? ==> nFdEvents == 0 && |Pending(ev)| == OwnStops(Calls(trace))
      ensures fate.Fine? ==> Settled(trace, old(Due(ev)), ev, None) && retval == Verdict(Calls(trace))
      // and who is registered then, with what deadline, is what the callbacks made of it
      ensures fate.Fine? ==> TheWorld() == AfterCalls(old(TheWorld()), Calls(trace))
      ensures fate.Misused? ==> LastBlamed(Calls(trace))
      ensures fate.Broken? ==> |old(heap.items)| + LaunchedBy(Calls(trace)) > CROWD
      // it is right if and only if no callback stopped its own event
      ensures !fate.Misused? && !fate.Broken? ==> (fate.Fine? && Pending(ev) == {} <==> OwnStops(Calls(trace)) == 0)
    {
      hide Wired, Settled, Pending, Mentioned, Calls, OwnStops, Verdict, Reacted, Blamed, Launches, LaunchedBy;
      hide AfterCall, AfterCalls, TheWorld;
      ghost var world := TheWorld();
      trace := [];
      retval := 1;
      fate := Fine;
      var count := 0;
      ghost var due, over := Due(ev), 0;
      SettledStart(ev);
      NoCalls(react);
      assert AfterCalls(world, []) == world by { NothingDone(world); }
      while nFdEvents > 0
        invariant Counted(over) && fresh(heap.repr - old(heap.repr))
        invariant Settled(trace, due, ev, None)
        invariant fate.Fine? && Tallied(Calls(trace), react, over, count, retval)
        invariant count == 0 ==> nFdEvents == old(nFdEvents)
        invariant |heap.items| <= |old(heap.items)| + LaunchedBy(Calls(trace))
        invariant TheWorld() == AfterCalls(world, Calls(trace))
        decreases nFdEvents
      {
        ghost var n := nFdEvents;
        var progress := 0;
        var u := NOIDX + 1;
        while u < lpfd
          invariant Counted(over) && fresh(heap.repr - old(heap.repr)) && u >= 1
          invariant Settled(trace, due, ev, None)
          invariant fate.Fine? && Tallied(Calls(trace), react, over, count, retval)
          invariant count == 0 ==> nFdEvents == old(nFdEvents)
          invariant |heap.items| <= |old(heap.items)| + LaunchedBy(Calls(trace))
          invariant TheWorld() == AfterCalls(world, Calls(trace))
          invariant if progress > 0 then nFdEvents < n else nFdEvents == n && NoneBefore(u - 1)
          decreases nFdEvents, lpfd - u
        {
          SlotEvent(u);
          var h := pev[u];
          PendingIs(ev, h);
          if ev[h].fdEvents != 0 {
            var events := ev[h].fdEvents;
            var r := react(h, events, count);
            ghost var s := Called(h, events, r);
            ghost var calls := Calls(trace);
            TalliedNow(calls, react, over, count, retval, s);
            LaunchedNow(calls, s);
            AfterCallsNow(world, calls, s);
            fate := Deliver(h, r, over, due);
            if !fate.Fine? {
              assert Calls(trace) == calls + [s];
              assert (calls + [s])[|calls|] == s;
              assert StopsItself(s) <==> Halt(h) in r.actions;
              return;
            }
            over := over + if Halt(h) in r.actions then 1 else 0;
            count := count + 1;
            progress := progress + 1;
            if r.ret < 0 {
              retval := r.ret;
            }
          }
          u := u + 1;
        }
        assert progress > 0 by {
          if progress == 0 {
            WholeArray(u);
            NoneAtAll();
            NonePending();
          }
        }
      }
      NonePending();
    }

    lemma WholeArray(u: nat)
      requires Wired() && u >= lpfd && u >= 1 && NoneBefore(u - 1)
      ensures NoneBefore(|heap.items|)
    {}

    lemma NonePending()
      ensures Pending(ev) == {} <==> |Pending(ev)| == 0
    {}

    lemma NothingPending()
      requires Valid() && nFdEvents == 0
      ensures Pending(ev) == {}
    {}

    /** Copies poll's answers into the events. */
    method Collect(revents: seq<nat>)
      requires Valid() && nFdEvents == 0 && |revents| == |heap.items|
      modifies `ev, `nFdEvents
      ensures Valid() && nFdEvents == Ready(revents)
      ensures forall i :: 0 <= i < |revents| ==> heap.items[i] in ev && ev[heap.items[i]].fdEvents == revents[i]
      ensures forall h :: h in ev <==> h in old(ev)
      ensures forall h :: h in ev ==> ev[h] == old(ev)[h].(fdEvents := ev[h].fdEvents)
      ensures TheWorld() == old(TheWorld())
    {
      hide Wired, Pending, Noted, ButEvents, Distinct, Regs;
      SlotsDistinct();
      AllQuiet();
      NotedNone(heap.items, ev, revents);
      ghost var was := ev;
      var u := 1;
      while u < lpfd
        invariant Valid() && 1 <= u <= lpfd
        invariant nFdEvents == Ready(revents[..u - 1])
        invariant Noted(heap.items, ev, revents, u - 1) && ButEvents(was, ev)
      {
        SlotEvent(u);
        SlotsDistinct();
        NotedAt(heap.items, ev, revents, u - 1);
        NotedNext(heap.items, was, ev, revents, u - 1);
        assert revents[..u] == revents[..u - 1] + [revents[u - 1]];
        Note(pev[u], revents[u - 1]);
        u := u + 1;
      }
      SlotsDistinct();
      assert revents[..u - 1] == revents;
      NotedAll(heap.items, was, ev, revents);
      RegsNoted(was, ev);
    }

    lemma AllQuiet()
      requires Valid() && nFdEvents == 0
      ensures forall i :: 0 <= i < |heap.items| ==> heap.items[i] in ev && ev[heap.items[i]].fdEvents == 0
    {
      hide Mirrored, Polls;
      NothingPending();
      forall i | 0 <= i < |heap.items| ensures heap.items[i] in ev && ev[heap.items[i]].fdEvents == 0 {
        assert heap.items[i] in heap.items && heap.items[i] !in Pending(ev);
      }
    }

    lemma SlotsDistinct()
      requires Wired()
      ensures Distinct(heap.items) && |heap.items| == lpfd - 1
    {}

    /** One event's share of poll's answer. */
    method Note(h: Handle, revents: nat)
      requires Valid() && h in ev && ev[h].live && ev[h].fdEvents == 0
      modifies `ev, `nFdEvents
      ensures Valid() && ev == old(ev)[h := old(ev)[h].(fdEvents := revents)]
      ensures nFdEvents == old(nFdEvents) + if revents != 0 then 1 else 0
    {
      hide Mirrored, Polls, Pending, Registered;
      PendingIs(ev, h);
      RegisteredIs(heap.items, ev, h);
      RegisteredSame(heap.items, ev, h, ev[h].(fdEvents := revents));
      if revents != 0 {
        PendingWith(ev, h, ev[h].(fdEvents := revents));
        nFdEvents := nFdEvents + 1;
      } else {
        PendingWithout(ev, h, ev[h].(fdEvents := revents));
      }
      ev := ev[h := ev[h].(fdEvents := revents)];
      PollsSame(pfd, pev, old(ev), ev, |heap.items|, None);
    }

    /** vev_sched_timeout: an event its callback has stopped for good is not there to be stopped or put back. */
    method SchedTimeout(h: Handle, t: real, r: Reaction) returns (fate: Fate)
      requires Valid() && h in ev && ev[h].live && nFdEvents == 0
      modifies this, heap, heap.repr
      ensures fresh(heap.repr - old(heap.repr)) && (!fate.Broken? ==> Wired())
      ensures Calls(trace) == [Called(h, 0, r)]
      ensures fate.Fine? ==> Valid() && nFdEvents == 0
      ensures fate.Fine? ==> if r.ret != 0 then h !in ev
                             else h in ev && ev[h].live && When(when, h) == t + old(ev[h].timeout)
      ensures fate.Fine? ==> TheWorld() == AfterTimeout(old(TheWorld()), h, r, t)
      ensures fate.Misused? ==> Blamed(r.actions, h)
      ensures fate.Broken? ==> |old(heap.items)| + Launches(r.actions) > CROWD
      ensures !fate.Misused? && !fate.Broken? ==> (fate.Fine? <==> !EndsStopped(r.actions, h))
    {
      hide Wired, Settled, Pending, Mentioned, Calls, EndsStopped, Blamed, Launches, Effects, Effect, Regs;
      RegsAt(ev, h);
      FirstCall(Called(h, 0, r));
      trace := [Called(h, 0, r)];
      NothingPending();
      SettledIdle(ev, h, r);
      fate := Callback(h, r, 0, map[h := 0]);
      if !fate.Fine? {
        return;
      }
      NonePending();
      if !ev[h].live {
        return Tripped;
      }
      PendingIs(ev, h);
      if r.ret != 0 {
        CallsNow(trace, Stopped(h));
        StoppedThenFreed(TheWorld(), h);
        var ok := Stop(h, 0);
        if !ok {
          return Broken;
        }
        Release(h, 0);
      } else {
        var ok := Reschedule(h, t);
        if !ok {
          return Broken;
        }
      }
    }

    /** The new deadline is set before the event leaves the heap. */
    method Reschedule(h: Handle, t: real) returns (ok: bool)
      requires Valid() && h in ev && ev[h].live
      modifies `when, `pev, `pfd, `idx, heap, heap.repr
      ensures ok <==> old(MayLeave(h))
      ensures fresh(heap.repr - old(heap.repr)) && (ok ==> Valid())
      ensures When(when, h) == t + ev[h].timeout && when == old(when)[h := t + ev[h].timeout]
      ensures forall k :: k != h ==> When(when, k) == old(When(when, k))
    {
      hide Mirrored, Polls, Pending, Earlier, AgreeBut;
      when := when[h := t + ev[h].timeout];
      EarlierAgrees(old(when), h, t + ev[h].timeout);
      PollsBut(pfd, pev, ev, |heap.items|, h);
      NextBound(old(when));
      ok := Leave(h, old(when));
      if ok {
        Enter(h);
      }
    }

    lemma NextBound(w: map<Handle, real>)
      requires Mirrored(w)
      ensures heap.next <= MAX_LENGTH
    {}

    /** The timeout VEV_Once serves, if any: that of the earliest event, once its deadline has passed. */
    ghost function TimedOut(t: real, t2: real, polled: Option<seq<nat>>): Option<(Handle, real)>
      reads `when, heap
    {
      if heap.items == [] then None
      else
        var e := heap.items[0];
        if When(when, e) <= t then Some((e, t))
        else if polled.Some? && Ready(polled.value) == 0 && When(when, e) <= t2 then Some((e, t2))
        else None
    }

    /** VEV_Once, signals aside.  `t` and `t2` are the clock readings before and after
        poll, `polled` is poll's answer (None for an error), `react` the callbacks. */
    method Once(t: real, t2: real, polled: Option<seq<nat>>, react: (Handle, nat, nat) -> Reaction)
        returns (fate: Fate, retval: int)
      requires Valid() && nFdEvents == 0
      requires polled.Some? ==> |polled.value| == |heap.items|
      modifies this, heap, heap.repr
      ensures fresh(heap.repr - old(heap.repr)) && (!fate.Broken? ==> Wired())
      // the first event is the one that is due earliest
      ensures forall h :: h in old(heap.items) ==> old(When(when, heap.items[0])) <= old(When(when, h))
      // its timeout is served if it is due: one callback, then it is gone or due again one timeout later
      ensures old(TimedOut(t, t2, polled)).Some? ==>
        var (h, now) := old(TimedOut(t, t2, polled)).value; var r := react(h, 0, 0);
        && Calls(trace) == [Called(h, 0, r)]
        && (fate.Misused? ==> Blamed(r.actions, h))
        && (fate.Broken? ==> |old(heap.items)| + Launches(r.actions) > CROWD)
        && (!fate.Misused? && !fate.Broken? ==> (fate.Fine? <==> !EndsStopped(r.actions, h)))
        && (fate.Fine? ==> retval == 1 && Valid() && nFdEvents == 0 && h in old(ev))
        && (fate.Fine? ==> if r.ret != 0 then h !in ev
                           else h in ev && ev[h].live && When(when, h) == now + old(ev)[h].timeout)
        && (fate.Fine? ==> TheWorld() == AfterTimeout(old(TheWorld()), h, r, now))
      // otherwise every event poll found is served
      ensures old(TimedOut(t, t2, polled)).None? && old(heap.items) != [] && polled.Some? ==>
        && Reacted(Calls(trace), react) && (Ready(polled.value) > 0 ==> Calls(trace) != [])
        && (fate.Misused? ==> LastBlamed(Calls(trace)))
        && (fate.Fine? ==> nFdEvents == 0 && |Pending(ev)| == OwnStops(Calls(trace)) && retval == Verdict(Calls(trace)))
        && (fate.Fine? ==> Settled(trace, DueFrom(old(heap.items), polled.value), ev, None))
        && (fate.Fine? ==> TheWorld() == AfterCalls(old(TheWorld()), Calls(trace)))
        && (fate.Broken? ==> |old(heap.items)| + LaunchedBy(Calls(trace)) > CROWD)
        && (!fate.Misused? && !fate.Broken? ==> (fate.Fine? && Pending(ev) == {} <==> OwnStops(Calls(trace)) == 0))
      // without a timeout and without poll's answer nothing happens
      ensures old(TimedOut(t, t2, polled)).None? && (old(heap.items) == [] || polled.None?) ==>
        fate.Fine? && retval == (if old(heap.items) == [] then 0 else -1) && ev == old(ev) && when == old(when)
    {
      hide Wired, Settled, Pending, Mentioned, Earlier, Calls, OwnStops, Verdict, Reacted, Blamed, EndsStopped;
      hide Launches, LaunchedBy, AfterCalls, AfterTimeout, TheWorld;
      EarlierIsOrder(when);
      WiredHeap();
      var e := heap.Root(Earlier(when));
      if e.None? {
        return Fine, 0;
      }
      RootEvent(when);
      if When(when, e.value) <= t {
        fate := SchedTimeout(e.value, t, react(e.value, 0, 0));
        return fate, 1;
      }
      if polled.None? {
        return Fine, -1;
      }
      if Ready(polled.value) == 0 && When(when, e.value) <= t2 {
        fate := SchedTimeout(e.value, t2, react(e.value, 0, 0));
        return fate, 1;
      }
      Collect(polled.value);
      DueIsPolled(polled.value);
      fate, retval := Dispatch(react);
    }

    lemma WiredHeap()
      requires Wired()
      ensures heap.Valid() && heap.InOrder(Earlier(when))
    {}

    lemma RootEvent(w: map<Handle, real>)
      requires Wired() && heap.items != [] && AllAfter(Earlier(w), [heap.items[0]], heap.items)
      ensures heap.items[0] in ev && ev[heap.items[0]].live
      ensures forall h :: h in heap.items ==> When(w, heap.items[0]) <= When(w, h)
    {
      assert heap.items[0] in heap.items;
      var one := [heap.items[0]];
      forall h | h in heap.items ensures When(w, one[0]) <= When(w, h) {
        assert !Earlier(w)(h, one[0]);
      }
    }

    lemma DueIsPolled(revents: seq<nat>)
      requires Valid() && |revents| == |heap.items|
      requires forall i :: 0 <= i < |revents| ==> heap.items[i] in ev && ev[heap.items[i]].fdEvents == revents[i]
      ensures Due(ev) == DueFrom(heap.items, revents)
    {
      SlotsDistinct();
      DueByEvent(heap.items, ev, revents);
    }
  }

  // ------------------------------------------------ callbacks that stop their own event

  method AddEvent(root: Root, h: Handle, fd: int)
    requires root.Valid() && h !in root.ev && |root.heap.items| <= 1
    modifies root, root.heap, root.heap.repr
    ensures root.Valid() && root.nFdEvents == old(root.nFdEvents) && fresh(root.heap.repr - old(root.heap.repr))
    ensures |root.heap.items| == |old(root.heap.items)| + 1 && forall k :: k in root.ev <==> k in old(root.ev) || k == h
  {
    hide Root.Wired, Pending;
    root.NextIs();
    root.Allocate(h, fd, {RD}, 0.0, 0);
    root.Start(h, 0.0, 0);
  }

  /** Two events, and poll has found something for both. */
  method TwoPending(pageSize: nat) returns (root: Root)
    requires IsPageSize(pageSize)
    ensures fresh(root) && fresh(root.heap) && fresh(root.heap.repr)
    ensures root.Valid() && root.nFdEvents == 2 && |root.heap.items| == 2
  {
    hide Root.Valid;
    root := new Root(pageSize);
    AddEvent(root, Handle(1), 3);
    AddEvent(root, Handle(2), 4);
    root.Collect([1, 1]);
    assert [1, 1][..1] == [1];
    assert Ready([1, 1]) == 2;
  }

  /** If every callback stops its own event, an assertion trips or an event is left undelivered. */
  method StopThemselves(root: Root) returns (fate: Fate)
    requires root.Valid() && root.nFdEvents > 0
    modifies root, root.heap, root.heap.repr
    ensures fate.Tripped? || (fate.Fine? && root.nFdEvents == 0 && Pending(root.ev) != {})
      || (fate.Broken? && |old(root.heap.items)| > CROWD)
  {
    hide OwnStops, Calls, Settled, Pending, LaunchedBy;
    var react := (h, _, _) => Reaction([Halt(h)], 0);
    var retval;
    fate, retval := root.Dispatch(react);
    ghost var calls := Calls(root.trace);
    OwnStopsNone(calls);
    assert StopsItself(calls[0]);
    NotBlamed(calls[|calls| - 1].h);
    NoneStarted(calls, react);
  }

  /** So it goes for two events. */
  method TwoStopThemselves(pageSize: nat) returns (root: Root, fate: Fate)
    requires IsPageSize(pageSize)
    ensures fate.Tripped? || (fate.Fine? && root.nFdEvents == 0 && Pending(root.ev) != {})
  {
    root := TwoPending(pageSize);
    fate := StopThemselves(root);
  }

  lemma {:induction false} NoneStarted(calls: seq<Step>, react: (Handle, nat, nat) -> Reaction)
    requires Reacted(calls, react) && forall h, n, k :: react(h, n, k).actions == [Halt(h)]
    ensures LaunchedBy(calls) == 0
  {
    if calls != [] {
      var n := |calls| - 1;
      assert forall j :: 0 <= j < n ==> calls[..n][j] == calls[j];
      NoneStarted(calls[..n], react);
      assert calls[n].r.actions == [] + [Halt(calls[n].h)];
      LaunchesNow([], Halt(calls[n].h));
    }
  }

  lemma NotBlamed(h: Handle)
    ensures !Blamed([Halt(h)], h)
  {}

  // ------------------------------------------------ events started again

  /** Started at 10.0 with a timeout of 1.0, stopped, and started again at 20.0: due at 32.0. */
  method DueTooLate(pageSize: nat) returns (root: Root)
    requires IsPageSize(pageSize)
    ensures root.Valid() && Handle(1) in root.ev && root.ev[Handle(1)].live
    ensures root.ev[Handle(1)].timeout == 1.0 && When(root.when, Handle(1)) == 32.0
  {
    root := new Root(pageSize);
    hide Root.Wired, Pending;
    var h := Handle(1);
    root.NextIs();
    root.Allocate(h, -1, {}, 1.0, 0);
    root.Start(h, 10.0, 0);
    var ok := root.Stop(h, 0);
    root.NextIs();
    root.Start(h, 20.0, 0);
  }
}
