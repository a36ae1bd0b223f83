/** The log matcher of src/vtc_logexp.c: a list of expectations walked along a stream
    of log records, with blocks of alternatives in any order and a list of records that must not appear. */
module Logexp {
  import opened Options

  datatype Record = Record(vxid: nat, tag: nat, data: string)

  /** `*`, `=` (the value of the last matched record), or a value. */
  datatype Want = Any | Last | Exactly(n: nat)

  /** skip_max: how many records an expectation lets pass, or what else the entry is. */
  datatype Skip =
    | AnyNumber          // LE_ANY
    | AtMost(n: nat)
    | Alt                // LE_ALT: one of a block of alternatives
    | Seen               // LE_SEEN: an alternative already matched
    | Fail               // LE_FAIL: from here on, a record that must not appear
    | Clear              // LE_CLEAR: forget all of those
    | Abort              // LE_ABORT

  datatype Test = Test(skip: Skip, vxid: Want, tag: Want, vre: Option<string>)

  /** The last matched record; nothing matched yet is the -1 of the code. */
  datatype Latest = Latest(vxid: Option<nat>, tag: Option<nat>)

  /** VRE_match, an arbitrary relation of patterns and data, and the tag number SLT_End
      of the last record of a transaction. */
  datatype Env = Env(re: (string, string) -> bool, end: nat)

  predicate Meets(want: Want, last: Option<nat>, x: nat) {
    match want
    case Any => true
    case Last => last == Some(x)
    case Exactly(n) => n == x
  }

  /** What it takes for a record to match.  The pattern only counts for a given tag. */
  predicate Matches(env: Env, t: Test, last: Latest, r: Record) {
    && Meets(t.vxid, last.vxid, r.vxid)
    && Meets(t.tag, last.tag, r.tag)
    && (t.vre.Some? && t.tag.Exactly? ==> env.re(t.vre.value, r.data))
  }

  /** The end of the very transaction an expectation waits in cannot be skipped. */
  predicate EndsWait(env: Env, t: Test, last: Latest, r: Record) {
    !t.vxid.Any? && Meets(t.vxid, last.vxid, r.vxid) && r.tag == env.end
  }

  /** A test in words: with `*` any value will do, with `=` that of the last match, with a number that number; the
      pattern counts if the tag is given by name. */
  lemma TestInWords(env: Env, s: Skip, v: nat, g: nat, p: string, last: Latest, r: Record)
    ensures Matches(env, Test(s, Any, Any, None), last, r)
    ensures Matches(env, Test(s, Exactly(v), Any, None), last, r) <==> r.vxid == v
    ensures Matches(env, Test(s, Any, Exactly(g), None), last, r) <==> r.tag == g
    ensures Matches(env, Test(s, Exactly(v), Exactly(g), Some(p)), last, r) <==>
      r.vxid == v && r.tag == g && env.re(p, r.data)
    ensures Matches(env, Test(s, Last, Any, Some(p)), last, r) <==> last.vxid == Some(r.vxid)
    ensures Matches(env, Test(s, Any, Last, Some(p)), last, r) <==> last.tag == Some(r.tag)
    ensures !EndsWait(env, Test(s, Any, Exactly(g), None), last, r)
    ensures EndsWait(env, Test(s, Exactly(v), Exactly(g), None), last, r) <==> r.vxid == v && r.tag == env.end
    ensures EndsWait(env, Test(s, Last, Exactly(g), None), last, r) <==> last.vxid == Some(r.vxid) && r.tag == env.end
  {}

  predicate Expects(t: Test) {
    t.skip.AnyNumber? || t.skip.AtMost? || t.skip.Alt?
  }

  // ------------------------------------------------ what a run did

  /** One record: matched by expectation `test`, or passed over while `at` was the current one. */
  datatype Event = Hit(r: Record, at: nat, test: nat) | Passed(r: Record, at: nat)

  type Log = seq<Event>

  function Hits(log: Log, i: nat): nat {
    if log == [] then 0
    else Hits(log[..|log| - 1], i) + if log[|log| - 1].Hit? && log[|log| - 1].test == i then 1 else 0
  }

  /** The records passed over since the last match. */
  function Trailing(log: Log): nat {
    if log == [] || log[|log| - 1].Hit? then 0 else Trailing(log[..|log| - 1]) + 1
  }

  function LastHit(log: Log): Latest {
    if log == [] then Latest(None, None)
    else
      var e := log[|log| - 1];
      if e.Hit? then Latest(Some(e.r.vxid), Some(e.r.tag)) else LastHit(log[..|log| - 1])
  }

  /** The fail entries in force once the spec is passed up to `p`. */
  function Active(spec: seq<Test>, p: nat): seq<nat>
    requires p <= |spec|
  {
    if p == 0 || spec[p - 1].skip.Clear? then []
    else if spec[p - 1].skip.Fail? then Active(spec, p - 1) + [p - 1]
    else Active(spec, p - 1)
  }

  /** `i..j` lies in one block of alternatives. */
  ghost predicate OneBlock(spec: seq<Test>, i: nat, j: nat) {
    i <= j < |spec| && forall k :: i <= k <= j ==> spec[k].skip.Alt?
  }

  /** The entry that took a record is the right one, and it was not made to wait too long. */
  ghost predicate EventOk(env: Env, spec: seq<Test>, before: Log, e: Event) {
    && e.at <= |spec|
    && (forall f :: f in Active(spec, e.at) ==> f < |spec| && !Matches(env, spec[f], LastHit(before), e.r))
    && (if e.Hit? then
          && e.test < |spec| && Expects(spec[e.test]) && Matches(env, spec[e.test], LastHit(before), e.r)
          && (e.test == e.at || OneBlock(spec, e.at, e.test))
          && (spec[e.test].skip.AtMost? ==> Trailing(before) <= spec[e.test].skip.n)
          && (spec[e.test].skip.Alt? ==> Trailing(before) == 0)
        else
          e.at < |spec| ==>
          !Matches(env, spec[e.at], LastHit(before), e.r) && !EndsWait(env, spec[e.at], LastHit(before), e.r))
  }

  ghost predicate LogOk(env: Env, spec: seq<Test>, log: Log) {
    forall b :: 0 <= b < |log| ==> EventOk(env, spec, log[..b], log[b])
  }

  /** Expectations are met in the order of the spec, but for those of one block. */
  ghost predicate InOrder(spec: seq<Test>, log: Log) {
    forall a, b :: 0 <= a < b < |log| && log[a].Hit? && log[b].Hit? ==>
      log[a].test < log[b].test || (log[b].test < log[a].test && OneBlock(spec, log[b].test, log[a].test))
  }

  /** Everything a successful run promises. */
  ghost predicate Satisfied(env: Env, spec: seq<Test>, log: Log) {
    && LogOk(env, spec, log)
    && InOrder(spec, log)
    && (forall i :: 0 <= i < |spec| ==> Hits(log, i) == if Expects(spec[i]) then 1 else 0)
    && (forall f :: 0 <= f < |spec| && spec[f].skip.Fail? ==> exists c :: f < c < |spec| && spec[c].skip.Clear?)
  }

  // ------------------------------------------------ what a run has to do

  /** The first entry from `p` on that is still to be met. */
  function PlaceFrom(spec: seq<Test>, log: Log, p: nat): (r: nat)
    requires p <= |spec|
    ensures p <= r <= |spec| && (r < |spec| ==> Expects(spec[r]) && Hits(log, r) == 0)
    ensures forall i :: p <= i < r && Expects(spec[i]) ==> Hits(log, i) > 0
    decreases |spec| - p
  {
    if p == |spec| || (Expects(spec[p]) && Hits(log, p) == 0) then p else PlaceFrom(spec, log, p + 1)
  }

  function Place(spec: seq<Test>, log: Log): nat { PlaceFrom(spec, log, 0) }

  /** The entry at `p` takes the record: a plain one that matches, or the first open one of a block that does. */
  ghost predicate Takes(env: Env, spec: seq<Test>, log: Log, r: Record, p: nat, i: nat) {
    && p <= i < |spec| && Matches(env, spec[i], LastHit(log), r)
    && if spec[p].skip.Alt? then
         && OneBlock(spec, p, i) && Hits(log, i) == 0
         && forall k :: p <= k < i && Hits(log, k) == 0 ==> !Matches(env, spec[k], LastHit(log), r)
       else i == p
  }

  /** The record may pass: nothing is left to be met; or what is does not match, is not at the end of its
      transaction, and has let fewer pass than it may. */
  ghost predicate Passes(env: Env, spec: seq<Test>, log: Log, r: Record, p: nat) {
    p < |spec| ==>
      && !Matches(env, spec[p], LastHit(log), r) && !EndsWait(env, spec[p], LastHit(log), r)
      && (spec[p].skip.AnyNumber? || (spec[p].skip.AtMost? && Trailing(log) < spec[p].skip.n))
  }

  /** The event is what the spec asks for next. */
  ghost predicate StepOk(env: Env, spec: seq<Test>, log: Log, e: Event) {
    && e.at == Place(spec, log) <= |spec|
    && (forall f :: f in Active(spec, e.at) ==> f < |spec| && !Matches(env, spec[f], LastHit(log), e.r))
    && if e.Hit? then Takes(env, spec, log, e.r, e.at, e.test) else Passes(env, spec, log, e.r, e.at)
  }

  ghost predicate Goes(env: Env, spec: seq<Test>, log: Log) {
    forall b :: 0 <= b < |log| ==> StepOk(env, spec, log[..b], log[b])
  }

  /** Everything has been met, and no fail entry is in force. */
  ghost predicate DoneBy(spec: seq<Test>, log: Log) {
    Place(spec, log) == |spec| && Active(spec, |spec|) == []
  }

  ghost predicate Over(log: Log, records: seq<Record>) {
    |log| <= |records| && forall k :: 0 <= k < |log| ==> log[k].r == records[k]
  }

  /** The records meet the spec. */
  ghost predicate Fulfilled(env: Env, spec: seq<Test>, records: seq<Record>) {
    exists log: Log :: Goes(env, spec, log) && Over(log, records) && DoneBy(spec, log)
  }

  /** There is only one way to go on. */
  lemma StepUnique(env: Env, spec: seq<Test>, log: Log, e: Event, e': Event)
    requires StepOk(env, spec, log, e) && StepOk(env, spec, log, e') && e.r == e'.r
    ensures e == e'
  {
    hide Hits, Matches, EndsWait, Active, LastHit, Trailing, PlaceFrom;
  }

  lemma {:induction false} GoesUnique(env: Env, spec: seq<Test>, a: Log, b: Log)
    requires Goes(env, spec, a) && Goes(env, spec, b) && |a| <= |b| && forall k :: 0 <= k < |a| ==> a[k].r == b[k].r
    ensures a == b[..|a|]
  {
    hide StepOk;
    if a != [] {
      var n := |a| - 1;
      GoesPrefix(env, spec, a, n);
      GoesUnique(env, spec, a[..n], b);
      assert a[..n] == b[..n] == b[..|a|][..n];
      StepUnique(env, spec, a[..n], a[n], b[n]);
      assert a == a[..n] + [a[n]] && b[..|a|] == b[..n] + [b[n]];
    }
  }

  lemma GoesPrefix(env: Env, spec: seq<Test>, log: Log, n: nat)
    requires Goes(env, spec, log) && n <= |log|
    ensures Goes(env, spec, log[..n])
  {
    hide StepOk;
    forall b | 0 <= b < n ensures StepOk(env, spec, log[..n][..b], log[..n][b]) {
      assert log[..n][..b] == log[..b];
    }
  }

  lemma GoesOn(env: Env, spec: seq<Test>, log: Log, e: Event)
    requires Goes(env, spec, log) && StepOk(env, spec, log, e)
    ensures Goes(env, spec, log + [e])
  {
    hide StepOk;
    var after := log + [e];
    forall b | 0 <= b < |after| ensures StepOk(env, spec, after[..b], after[b]) {
      if b < |log| {
        assert after[..b] == log[..b];
      } else {
        assert after[..b] == log;
      }
    }
  }

  /** No way to go on from `log`, and nothing done before: then the records do not meet the spec. */
  lemma StuckFor(env: Env, spec: seq<Test>, log: Log, records: seq<Record>)
    requires Goes(env, spec, log) && Over(log, records)
    requires NotDone(spec, log)
    requires |log| == |records| || forall e: Event :: e.r == records[|log|] ==> !StepOk(env, spec, log, e)
    ensures !Fulfilled(env, spec, records)
  {
    hide StepOk, DoneBy, Goes;
    forall other: Log | Goes(env, spec, other) && Over(other, records) ensures !DoneBy(spec, other) {
      if |other| <= |log| {
        GoesUnique(env, spec, other, log);
      } else {
        GoesUnique(env, spec, log, other);
        GoesAt(env, spec, other, |log|);
      }
    }
  }

  /** At no point so far was everything met. */
  ghost predicate NotDone(spec: seq<Test>, log: Log) {
    forall k :: 0 <= k <= |log| ==> !DoneBy(spec, log[..k])
  }

  lemma NotDoneYet(spec: seq<Test>, before: Log, log: Log)
    requires NotDone(spec, before) && |log| == |before| + 1 && log[..|before|] == before && !DoneBy(spec, log)
    ensures NotDone(spec, log)
  {
    hide DoneBy;
    forall k | 0 <= k <= |log| ensures !DoneBy(spec, log[..k]) {
      if k < |log| {
        assert log[..k] == before[..k];
      } else {
        assert log[..k] == log;
      }
    }
  }

  lemma FulfilledNow(env: Env, spec: seq<Test>, log: Log, records: seq<Record>)
    requires Goes(env, spec, log) && Over(log, records) && DoneBy(spec, log)
    ensures Fulfilled(env, spec, records)
  {}

  lemma NothingGone(env: Env, spec: seq<Test>)
    ensures Goes(env, spec, []) && (!DoneBy(spec, []) ==> NotDone(spec, []))
  {}

  lemma GoesAt(env: Env, spec: seq<Test>, log: Log, b: nat)
    requires Goes(env, spec, log) && b < |log|
    ensures StepOk(env, spec, log[..b], log[b])
  {}

  // ------------------------------------------------ the state between records

  /** The entries are those of the spec, except for alternatives already seen. */
  ghost predicate SameTests(spec: seq<Test>, tests: seq<Test>) {
    && |spec| == |tests|
    && forall i :: 0 <= i < |spec| ==>
         !spec[i].skip.Seen? && (tests[i] == spec[i] || (spec[i].skip.Alt? && tests[i] == spec[i].(skip := Seen)))
  }

  /** Hits so far: all expectations before `pos`, and the seen alternatives, once each. */
  ghost predicate Counts(spec: seq<Test>, tests: seq<Test>, pos: nat, log: Log)
    requires |spec| == |tests|
  {
    forall i :: 0 <= i < |spec| ==>
      Hits(log, i) == if Expects(spec[i]) && (i < pos || tests[i].skip.Seen?) then 1 else 0
  }

  /** What is seen ahead of `pos` is in the block of `pos`. */
  ghost predicate SeenNear(spec: seq<Test>, tests: seq<Test>, pos: nat)
    requires |spec| == |tests|
  {
    forall i :: pos <= i < |spec| && tests[i].skip.Seen? ==> OneBlock(spec, pos, i)
  }

  ghost predicate Patient(spec: seq<Test>, pos: nat, waited: nat) {
    pos < |spec| ==> (spec[pos].skip.AtMost? ==> waited <= spec[pos].skip.n) && (spec[pos].skip.Alt? ==> waited == 0)
  }

  ghost predicate Running(env: Env, spec: seq<Test>, tests: seq<Test>, pos: nat, log: Log) {
    && SameTests(spec, tests) && pos <= |spec|
    && LogOk(env, spec, log) && InOrder(spec, log)
    && Counts(spec, tests, pos, log) && SeenNear(spec, tests, pos)
    && Patient(spec, pos, Trailing(log))
  }

  /** The place where matching goes on. */
  ghost predicate Ready(spec: seq<Test>, tests: seq<Test>, pos: nat) {
    |tests| == |spec| && pos <= |spec| && (pos < |spec| ==> tests[pos] == spec[pos] && Expects(spec[pos]))
  }

  // ------------------------------------------------ one more event

  lemma LogGrows(env: Env, spec: seq<Test>, log: Log, e: Event)
    requires LogOk(env, spec, log) && EventOk(env, spec, log, e)
    ensures LogOk(env, spec, log + [e])
  {
    hide EventOk;
    var after := log + [e];
    forall b | 0 <= b < |after| ensures EventOk(env, spec, after[..b], after[b]) {
      if b < |log| {
        assert after[..b] == log[..b];
      } else {
        assert after[..b] == log;
      }
    }
  }

  lemma Grown(log: Log, e: Event)
    ensures forall i :: Hits(log + [e], i) == Hits(log, i) + if e.Hit? && e.test == i then 1 else 0
    ensures Trailing(log + [e]) == if e.Hit? then 0 else Trailing(log) + 1
    ensures LastHit(log + [e]) == if e.Hit? then Latest(Some(e.r.vxid), Some(e.r.tag)) else LastHit(log)
  {
    assert (log + [e])[..|log|] == log;
  }

  /** A hit has been counted: it is before `pos`, or in the block of `pos` and seen. */
  lemma {:induction false} Counted(log: Log, a: nat)
    requires a < |log| && log[a].Hit?
    ensures Hits(log, log[a].test) >= 1
  {
    var front := log[..|log| - 1];
    if a < |log| - 1 {
      Counted(front, a);
      assert front[a] == log[a];
    }
  }

  lemma OrderGrows(spec: seq<Test>, tests: seq<Test>, pos: nat, log: Log, e: Event)
    requires SameTests(spec, tests) && Counts(spec, tests, pos, log) && SeenNear(spec, tests, pos) && InOrder(spec, log)
    requires forall a :: 0 <= a < |log| && log[a].Hit? ==> log[a].test < |spec|
    requires e.Hit? ==>
      pos <= e.test < |spec| && !tests[e.test].skip.Seen? && (e.test == pos || OneBlock(spec, pos, e.test))
    ensures InOrder(spec, log + [e])
  {
    hide Hits;
    if e.Hit? {
      forall a | 0 <= a < |log| && log[a].Hit?
        ensures log[a].test < e.test || (e.test < log[a].test && OneBlock(spec, e.test, log[a].test))
      {
        Counted(log, a);
        var t := log[a].test;
        assert |tests| == |spec| && (t < pos || tests[t].skip.Seen?);
        if e.test <= t { assert OneBlock(spec, pos, t); }
      }
    }
  }

  lemma TestsInRange(env: Env, spec: seq<Test>, log: Log)
    requires LogOk(env, spec, log)
    ensures forall a :: 0 <= a < |log| && log[a].Hit? ==> log[a].test < |spec|
  {
    forall a | 0 <= a < |log| && log[a].Hit? ensures log[a].test < |spec| {
      assert EventOk(env, spec, log[..a], log[a]);
    }
  }

  lemma PassKeeps(env: Env, spec: seq<Test>, tests: seq<Test>, pos: nat, log: Log, e: Event)
    requires Running(env, spec, tests, pos, log) && EventOk(env, spec, log, e) && e.Passed?
    requires Patient(spec, pos, Trailing(log) + 1)
    ensures Running(env, spec, tests, pos, log + [e])
  {
    hide Hits, Trailing, LogOk, InOrder, EventOk, SameTests, OneBlock, SeenNear, Patient;
    LogGrows(env, spec, log, e);
    TestsInRange(env, spec, log);
    OrderGrows(spec, tests, pos, log, e);
    Grown(log, e);
  }

  /** A plain expectation is met: matching goes on behind it. */
  lemma HitKeeps(env: Env, spec: seq<Test>, tests: seq<Test>, pos: nat, log: Log, e: Event)
    requires Running(env, spec, tests, pos, log) && EventOk(env, spec, log, e)
    requires e.Hit? && e.test == pos < |spec| && !spec[pos].skip.Alt?
    ensures Running(env, spec, tests, pos + 1, log + [e])
  {
    hide Hits, Trailing, LogOk, InOrder, EventOk;
    assert EventOk(env, spec, log, e) ==> Expects(spec[pos]) by { ExpectsHit(env, spec, log, e); }
    LogGrows(env, spec, log, e);
    TestsInRange(env, spec, log);
    OrderGrows(spec, tests, pos, log, e);
    Grown(log, e);
  }

  lemma ExpectsHit(env: Env, spec: seq<Test>, log: Log, e: Event)
    requires EventOk(env, spec, log, e) && e.Hit?
    ensures e.test < |spec| && Expects(spec[e.test])
  {}

  /** An alternative is met: it is marked, and matching goes on with its block. */
  lemma AltKeeps(env: Env, spec: seq<Test>, tests: seq<Test>, pos: nat, log: Log, e: Event)
    requires Running(env, spec, tests, pos, log) && EventOk(env, spec, log, e)
    requires e.Hit? && pos <= e.test < |spec| && OneBlock(spec, pos, e.test) && tests[e.test] == spec[e.test]
    ensures Running(env, spec, tests[e.test := tests[e.test].(skip := Seen)], pos, log + [e])
  {
    hide Hits, Trailing, LogOk, InOrder, EventOk;
    LogGrows(env, spec, log, e);
    TestsInRange(env, spec, log);
    OrderGrows(spec, tests, pos, log, e);
    Grown(log, e);
  }

  /** An entry that need not be met, or has been, is passed. */
  lemma StepKeeps(env: Env, spec: seq<Test>, tests: seq<Test>, pos: nat, log: Log)
    requires Running(env, spec, tests, pos, log) && pos < |spec| && Trailing(log) == 0
    requires tests[pos].skip.Seen? || !Expects(spec[pos])
    ensures Running(env, spec, tests, pos + 1, log)
  {
    hide Hits, Trailing, LogOk, InOrder;
  }

  lemma StartRuns(env: Env, spec: seq<Test>)
    requires forall i :: 0 <= i < |spec| ==> !spec[i].skip.Seen?
    ensures Running(env, spec, spec, 0, [])
  {}

  /** Nothing of the spec is left: the run has kept every promise. */
  lemma DoneSatisfies(env: Env, spec: seq<Test>, tests: seq<Test>, log: Log)
    requires Running(env, spec, tests, |spec|, log) && Active(spec, |spec|) == []
    ensures Satisfied(env, spec, log)
  {
    hide Hits, Trailing, LogOk, InOrder;
    forall f | 0 <= f < |spec| && spec[f].skip.Fail? ensures exists c :: f < c < |spec| && spec[c].skip.Clear? {
      StillActive(spec, f, |spec|);
    }
  }

  lemma {:induction false} StillActive(spec: seq<Test>, f: nat, p: nat)
    requires f < p <= |spec| && spec[f].skip.Fail?
    ensures f in Active(spec, p) || exists c :: f < c < p && spec[c].skip.Clear?
  {
    if p > f + 1 { StillActive(spec, f, p - 1); }
  }

  lemma {:induction false} ActiveAre(spec: seq<Test>, p: nat)
    requires p <= |spec|
    ensures forall f :: f in Active(spec, p) ==> f < p && spec[f].skip.Fail?
  {
    if p > 0 { ActiveAre(spec, p - 1); }
  }

  /** A fail entry is in force once it is passed and until it is cleared. */
  lemma {:induction false} ActiveMeans(spec: seq<Test>, p: nat, f: nat)
    requires p <= |spec|
    ensures f in Active(spec, p) <==>
      f < p && spec[f].skip.Fail? && forall c :: f < c < p ==> !spec[c].skip.Clear?
  {
    if p > 0 { ActiveMeans(spec, p - 1, f); }
  }

  lemma ActiveStep(spec: seq<Test>, p: nat)
    requires p < |spec|
    ensures Active(spec, p + 1) ==
      if spec[p].skip.Clear? then [] else if spec[p].skip.Fail? then Active(spec, p) + [p] else Active(spec, p)
  {}

  lemma NothingYet(spec: seq<Test>)
    ensures Active(spec, 0) == [] && Trailing([]) == 0 && LastHit([]) == Latest(None, None)
  {}

  // ------------------------------------------------ the matcher

  datatype Outcome = Ok | Skips | Fails

  datatype Verdict = Going | Success | Failed | Aborted

  /** The alternative `j` of the block at `i` is open and takes the record. */
  ghost predicate Candidate(env: Env, tests: seq<Test>, last: Latest, r: Record, i: nat, j: nat) {
    && i <= j < |tests| && tests[j].skip.Alt? && Matches(env, tests[j], last, r)
    && forall k :: i <= k <= j ==> tests[k].skip.Alt? || tests[k].skip.Seen?
  }

  /** The record is on the fail list. */
  ghost predicate Forbidden(env: Env, spec: seq<Test>, fail: seq<nat>, last: Latest, r: Record) {
    exists f :: f in fail && f < |spec| && Matches(env, spec[f], last, r)
  }

  /** The record can neither be taken nor passed over. */
  ghost predicate Refuses(env: Env, tests: seq<Test>, last: Latest, skipCnt: nat, r: Record, i: nat)
    requires i < |tests|
  {
    if tests[i].skip.Alt? then forall j :: !Candidate(env, tests, last, r, i, j)
    else !Matches(env, tests[i], last, r) && !Skippable(env, tests[i], last, skipCnt, r)
  }

  predicate Skippable(env: Env, t: Test, last: Latest, skipCnt: nat, r: Record) {
    (t.skip.AnyNumber? || (t.skip.AtMost? && t.skip.n > skipCnt)) && !EndsWait(env, t, last, r)
  }

  /** The matcher is where the spec says it is. */
  lemma {:induction false} PlaceIs(spec: seq<Test>, tests: seq<Test>, pos: nat, log: Log, p: nat)
    requires SameTests(spec, tests) && Counts(spec, tests, pos, log) && Ready(spec, tests, pos) && p <= pos
    ensures PlaceFrom(spec, log, p) == pos
    decreases pos - p
  {
    hide Hits;
    if p < pos { PlaceIs(spec, tests, pos, log, p + 1); }
  }

  /** An open entry is one that nothing has met. */
  lemma OpenIs(spec: seq<Test>, tests: seq<Test>, pos: nat, log: Log, i: nat)
    requires SameTests(spec, tests) && Counts(spec, tests, pos, log) && pos <= i < |spec| && Expects(spec[i])
    ensures Hits(log, i) == 0 <==> tests[i] == spec[i]
  {
    hide Hits;
  }

  /** What a matcher refuses the spec has no place for. */
  lemma RefusedRightly(env: Env, spec: seq<Test>, tests: seq<Test>, pos: nat, log: Log, r: Record, e: Event)
    requires Running(env, spec, tests, pos, log) && Ready(spec, tests, pos) && e.r == r
    requires || Forbidden(env, spec, Active(spec, pos), LastHit(log), r)
             || (pos < |spec| && Refuses(env, tests, LastHit(log), Trailing(log), r, pos))
    ensures !StepOk(env, spec, log, e)
  {
    hide Hits, Active, Trailing, LastHit, LogOk, InOrder, PlaceFrom, Matches, EndsWait, SeenNear, Patient;
    PlaceIs(spec, tests, pos, log, 0);
    if e.Hit? { TakerIsCandidate(env, spec, tests, pos, log, r, e.test); }
  }

  lemma TakerIsCandidate(env: Env, spec: seq<Test>, tests: seq<Test>, pos: nat, log: Log, r: Record, i: nat)
    requires SameTests(spec, tests) && Counts(spec, tests, pos, log)
    ensures pos < |spec| && spec[pos].skip.Alt? && Takes(env, spec, log, r, pos, i) ==>
      Candidate(env, tests, LastHit(log), r, pos, i)
  {
    hide Hits, LastHit, Matches;
    if pos < |spec| && spec[pos].skip.Alt? && Takes(env, spec, log, r, pos, i) {
      forall k | pos <= k <= i ensures tests[k].skip.Alt? || tests[k].skip.Seen? {
        assert spec[k].skip.Alt?;
      }
      OpenIs(spec, tests, pos, log, i);
    }
  }

  lemma PassedRightly(env: Env, spec: seq<Test>, tests: seq<Test>, pos: nat, log: Log, r: Record)
    requires Running(env, spec, tests, pos, log) && Ready(spec, tests, pos)
    requires !Forbidden(env, spec, Active(spec, pos), LastHit(log), r) && InSpec(spec, Active(spec, pos))
    requires pos < |spec| ==>
      && !spec[pos].skip.Alt? && !Matches(env, spec[pos], LastHit(log), r)
      && Skippable(env, spec[pos], LastHit(log), Trailing(log), r)
    ensures StepOk(env, spec, log, Passed(r, pos))
  {
    hide Hits, Active, Trailing, LastHit, LogOk, InOrder, PlaceFrom, Matches, EndsWait, SeenNear, Patient;
    PlaceIs(spec, tests, pos, log, 0);
  }

  lemma TakenRightly(env: Env, spec: seq<Test>, tests: seq<Test>, pos: nat, log: Log, r: Record, hit: nat)
    requires Running(env, spec, tests, pos, log) && Ready(spec, tests, pos) && pos < |spec|
    requires !Forbidden(env, spec, Active(spec, pos), LastHit(log), r) && InSpec(spec, Active(spec, pos))
    requires if spec[pos].skip.Alt? then
        && Candidate(env, tests, LastHit(log), r, pos, hit)
        && forall j :: Candidate(env, tests, LastHit(log), r, pos, j) ==> hit <= j
      else hit == pos && Matches(env, spec[pos], LastHit(log), r)
    ensures StepOk(env, spec, log, Hit(r, pos, hit))
  {
    hide Hits, Active, Trailing, LastHit, LogOk, InOrder, PlaceFrom, Matches, EndsWait, SeenNear, Patient;
    PlaceIs(spec, tests, pos, log, 0);
    if spec[pos].skip.Alt? {
      forall k | pos <= k <= hit ensures spec[k].skip.Alt? {
        assert tests[k].skip.Alt? || tests[k].skip.Seen?;
      }
      OpenIs(spec, tests, pos, log, hit);
      forall k | pos <= k < hit && Hits(log, k) == 0 ensures !Matches(env, spec[k], LastHit(log), r) {
        OpenIs(spec, tests, pos, log, k);
        assert !Candidate(env, tests, LastHit(log), r, pos, k);
        assert tests[k] == spec[k];
      }
      assert tests[hit] == spec[hit];
    }
  }

  ghost predicate InSpec(spec: seq<Test>, fail: seq<nat>) { forall f :: f in fail ==> f < |spec| }

  class Matcher {
    const env: Env
    ghost const spec: seq<Test>
    var tests: seq<Test>
    var test: Option<nat>         // NULL before the first and behind the last entry
    var skipCnt: nat
    var last: Latest
    var fail: seq<nat>            // the fail list
    ghost var log: Log

    ghost predicate WellFormed()
      reads this
    {
      SameTests(spec, tests) && (test.Some? ==> test.value < |tests|)
    }

    ghost function Pos(): nat
      reads this
    {
      if test.Some? then test.value else |spec|
    }

    /** Between two records. */
    ghost predicate Valid()
      reads this
    {
      && WellFormed()
      && Running(env, spec, tests, Pos(), log) && Ready(spec, tests, Pos())
      && fail == Active(spec, Pos()) && last == LastHit(log) && (test.Some? ==> skipCnt == Trailing(log))
    }

    constructor (env: Env, spec: seq<Test>)
      requires forall i :: 0 <= i < |spec| ==> !spec[i].skip.Seen?
      ensures this.env == env && this.spec == spec && tests == spec && WellFormed()
    {
      this.env, this.spec, tests, test := env, spec, spec, None;
      skipCnt, last, fail, log := 0, Latest(None, None), [], [];
    }

    /** logexp_done */
    predicate Finished()
      reads this
    {
      fail == [] && test.None?
    }

    /** logexp_clean: whatever an earlier run has left, the entries are those of the spec again. */
    method Clean()
      requires WellFormed()
      modifies `tests
      ensures tests == spec
    {
      var i := 0;
      while i < |tests|
        invariant 0 <= i <= |tests| && SameTests(spec, tests)
        invariant forall j :: 0 <= j < i ==> tests[j] == spec[j]
      {
        if tests[i].skip.Seen? {
          tests := tests[i := tests[i].(skip := Alt)];
        }
        i := i + 1;
      }
    }

    /** Where logexp_next starts looking. */
    ghost predicate Resumes(pos: nat)
      requires WellFormed()
      reads this
    {
      if test.None? then pos == 0 && log == []
      else
        && (if tests[test.value].skip.Alt? then pos == test.value else pos == test.value + 1)
        && Running(env, spec, tests, pos, log) && fail == Active(spec, pos) && Trailing(log) == 0
    }

    /** logexp_next: on to the next entry to be met, executing the fail entries on the way. */
    method Next(ghost pos: nat) returns (aborted: bool)
      requires WellFormed() && Resumes(pos)
      modifies `tests, `test, `fail
      ensures WellFormed()
      ensures !aborted ==>
        Running(env, spec, tests, Pos(), log) && Ready(spec, tests, Pos()) && fail == Active(spec, Pos())
      ensures aborted ==> test.Some? && spec[test.value].skip.Abort?
      decreases if test.None? then |spec| + 1 else |spec| - test.value,
        if test.Some? && tests[test.value].skip.Alt? then 0 else 1
    {
      hide Running, Active, Trailing;
      if test.Some? && tests[test.value].skip.Alt? {
      } else if test.Some? {
        test := if test.value + 1 < |tests| then Some(test.value + 1) else None;
      } else {
        Clean();
        fail := [];
        test := if |tests| > 0 then Some(0) else None;
        StartRuns(env, spec);
        NothingYet(spec);
      }
      if test.None? {
        return false;
      }
      ActiveStep(spec, pos);
      match tests[test.value].skip {
        case Seen =>
          StepKeeps(env, spec, tests, pos, log);
          aborted := Next(pos + 1);
        case Clear =>
          fail := [];
          StepKeeps(env, spec, tests, pos, log);
          aborted := Next(pos + 1);
        case Fail =>
          fail := fail + [test.value];
          StepKeeps(env, spec, tests, pos, log);
          aborted := Next(pos + 1);
        case Abort =>
          return true;
        case _ =>
          return false;
      }
    }
  
    /** logexp_alt: the next alternative not seen, in the block of `i`. */
    method OtherAlt(i: nat) returns (j: Option<nat>)
      requires i < |tests| && tests[i].skip.Alt?
      ensures j.Some? ==>
        i < j.value < |tests| && tests[j.value].skip.Alt? && forall k :: i < k < j.value ==> tests[k].skip.Seen?
      ensures j.None? ==> forall k :: i < k < |tests| && tests[k].skip.Alt? ==>
        exists m :: i < m < k && !tests[m].skip.Alt? && !tests[m].skip.Seen?
    {
      var k := i + 1;
      while k < |tests| && tests[k].skip.Seen?
        invariant i < k <= |tests| && forall m :: i < m < k ==> tests[m].skip.Seen?
      {
        k := k + 1;
      }
      if k == |tests| || !tests[k].skip.Alt? {
        return None;
      }
      return Some(k);
    }

    /** logexp_match.  Of a block of alternatives, the first open one that matches takes the record. */
    method Match(i: nat, r: Record) returns (o: Outcome, ghost hit: nat)
      requires i < |tests| && (Expects(tests[i]) || tests[i].skip.Fail?)
      modifies `tests
      ensures !old(tests[i].skip.Alt?) ==>
        && tests == old(tests) && hit == i
        && o == if Matches(env, tests[i], last, r) then Ok
            else if Skippable(env, tests[i], last, skipCnt, r) then Skips else Fails
      ensures old(tests[i].skip.Alt?) && o.Ok? ==>
        && Candidate(env, old(tests), last, r, i, hit) && tests == old(tests)[hit := old(tests)[hit].(skip := Seen)]
        && forall j :: Candidate(env, old(tests), last, r, i, j) ==> hit <= j
      ensures old(tests[i].skip.Alt?) && !o.Ok? ==>
        o.Fails? && tests == old(tests) && forall j :: !Candidate(env, tests, last, r, i, j)
      decreases |tests| - i
    {
      var t := tests[i];
      hit := i;
      var ok := Matches(env, t, last, r);
      var skip := !ok && !t.skip.Alt? && (t.skip.AnyNumber? || (t.skip.AtMost? && t.skip.n > skipCnt));
      if skip && EndsWait(env, t, last, r) {
        skip := false;
      }
      if ok {
        if t.skip.Alt? {
          tests := tests[i := t.(skip := Seen)];
        }
        return Ok, i;
      }
      if t.skip.Alt? {
        var j := OtherAlt(i);
        if j.None? {
          assert forall j :: !Candidate(env, tests, last, r, i, j);
          return Fails, i;
        }
        OnlyFurther(env, tests, last, r, i, j.value);
        o, hit := Match(j.value, r);
        return;
      }
      return if skip then Skips else Fails, i;
    }
  
    /** logexp_failchk: `Fails` exactly when a record on the fail list has turned up. */
    method FailCheck(r: Record) returns (o: Outcome)
      requires WellFormed() && forall f :: f in fail ==> f < |tests| && tests[f].skip.Fail?
      modifies `tests
      ensures tests == old(tests)
      ensures o.Fails? <==> Forbidden(env, spec, fail, last, r)
      ensures o.Skips? <==> fail == []
    {
      if fail == [] {
        return Skips;
      }
      var k := 0;
      while k < |fail|
        invariant 0 <= k <= |fail| && tests == old(tests)
        invariant forall m :: 0 <= m < k ==> fail[m] < |spec| && !Matches(env, spec[fail[m]], last, r)
      {
        var f := fail[k];
        assert f in fail && tests[f] == spec[f];
        ghost var hit;
        o, hit := Match(f, r);
        if o.Ok? {
          return Fails;
        }
        assert o.Fails?;
        k := k + 1;
      }
      return Ok;
    }

    /** Everything a record does to a matcher that is not done yet: one pass of the loop of
        logexp_dispatch.  It fails exactly when a record on the fail list turns up or the
        current expectation can neither take the record nor pass it over. */
    method Feed(r: Record) returns (v: Verdict)
      requires Valid() && !Finished()
      modifies this
      ensures WellFormed()
      ensures v.Failed? == (
        || Forbidden(env, spec, old(fail), old(last), r)
        || (old(test).Some? && Refuses(env, old(tests), old(last), old(skipCnt), r, old(test).value)))
      // that is: exactly when the spec has no place for the record; otherwise it gets the place the spec has for it
      ensures v.Failed? <==> forall e: Event :: e.r == r ==> !StepOk(env, spec, old(log), e)
      ensures !v.Failed? ==> |log| == |old(log)| + 1 && StepOk(env, spec, old(log), log[|old(log)|])
      ensures v.Aborted? ==> exists i :: 0 <= i < |spec| && spec[i].skip.Abort?
      ensures v.Failed? ==> log == old(log)
      ensures !v.Failed? ==> |log| == |old(log)| + 1 && log[..|old(log)|] == old(log) && log[|old(log)|].r == r
      ensures v.Going? ==> Valid() && !Finished()
      ensures v.Success? ==> Valid() && Finished()
    {
      hide Running, Active, Trailing, LastHit, EventOk, Candidate, Matches, EndsWait, StepOk;
      ghost var before, pos := tests, Pos();
      ghost var was := log;
      FailEntries(spec, tests, pos);
      ghost var passed := Passed(r, pos);
      var o := FailCheck(r);
      if o.Fails? {
        forall e: Event | e.r == r ensures !StepOk(env, spec, log, e) {
          RefusedRightly(env, spec, tests, pos, log, r, e);
        }
        return Failed;
      }
      if test.None? {
        assert o.Ok?;
        PassedRightly(env, spec, tests, pos, log, r);
        PassedOk(env, spec, log, passed);
        PassKeeps(env, spec, tests, pos, log, passed);
        Grown(log, passed);
        log := log + [passed];
        return Going;
      }
      ghost var hit;
      o, hit := Match(test.value, r);
      if o.Fails? {
        assert tests == before;
        assert Refuses(env, tests, last, skipCnt, r, test.value);
        forall e: Event | e.r == r ensures !StepOk(env, spec, log, e) {
          RefusedRightly(env, spec, tests, pos, log, r, e);
        }
        return Failed;
      }
      if o.Skips? {
        PassedRightly(env, spec, tests, pos, log, r);
        PassedOk(env, spec, log, passed);
        PassKeeps(env, spec, tests, pos, log, passed);
        Grown(log, passed);
        log := log + [passed];
        skipCnt := skipCnt + 1;
        return Going;
      }
      ghost var e := Hit(r, pos, hit);
      TakenRightly(env, spec, before, pos, log, r, hit);
      TakenOk(env, spec, before, pos, log, e);
      Grown(log, e);
      ghost var next := Taken(env, spec, before, pos, log, e);
      log := log + [e];
      last, skipCnt := Latest(Some(r.vxid), Some(r.tag)), 0;
      var aborted := Next(next);
      if aborted {
        return Aborted;
      }
      return if Finished() then Success else Going;
    }
  
    /** logexp_start and the first call of logexp_next: a fresh run, whatever was run before. */
    method Start() returns (aborted: bool)
      requires WellFormed()
      modifies this
      ensures WellFormed() && log == []
      ensures !aborted ==> Valid()
      ensures aborted ==> exists i :: 0 <= i < |spec| && spec[i].skip.Abort?
    {
      hide Running, Active, Trailing, LastHit;
      test, skipCnt, last, log := None, 0, Latest(None, None), [];
      NothingYet(spec);
      aborted := Next(0);
    }

    lemma DoneIs()
      requires Valid()
      ensures DoneBy(spec, log) <==> Finished()
    {
      hide Active, Hits, LogOk, InOrder;
      PlaceIs(spec, tests, Pos(), log, 0);
    }

    /** A whole run over the records that come.  If it succeeds, each expectation was met by exactly one
        record, in order but for the blocks of alternatives, none waited longer than it may, and no record
        was one that must not appear.  And it does succeed if the records meet the spec at all. */
    method Run(records: seq<Record>) returns (v: Verdict)
      requires WellFormed()
      modifies this
      ensures WellFormed() && |log| <= |records| && forall k :: 0 <= k < |log| ==> log[k].r == records[k]
      ensures v.Success? ==> Satisfied(env, spec, log)
      ensures v.Going? ==> |log| == |records|
      ensures v.Success? ==> Fulfilled(env, spec, records)
      ensures v.Failed? || v.Going? ==> !Fulfilled(env, spec, records)
      ensures v.Aborted? ==> exists i :: 0 <= i < |spec| && spec[i].skip.Abort?
    {
      hide Running, Active, Trailing, LastHit, Satisfied, Refuses, Forbidden, StepOk, DoneBy, Goes, Fulfilled;
      var aborted := Start();
      if aborted {
        return Aborted;
      }
      DoneIs();
      NothingGone(env, spec);
      if Finished() {
        DoneSatisfies(env, spec, tests, log);
        FulfilledNow(env, spec, log, records);
        return Success;
      }
      var k := 0;
      while k < |records|
        invariant 0 <= k <= |records| && Valid() && !Finished() && |log| == k
        invariant forall m :: 0 <= m < k ==> log[m].r == records[m]
        invariant Goes(env, spec, log) && NotDone(spec, log)
      {
        ghost var before := log;
        v := Feed(records[k]);
        if v.Failed? {
          StuckFor(env, spec, log, records);
          return v;
        }
        GoesOn(env, spec, before, log[k]);
        assert log == before + [log[k]];
        assert forall m :: 0 <= m < k ==> log[m] == log[..k][m];
        k := k + 1;
        if v.Aborted? {
          return v;
        }
        DoneIs();
        if v.Success? {
          DoneSatisfies(env, spec, tests, log);
          FulfilledNow(env, spec, log, records);
          return v;
        }
        NotDoneYet(spec, before, log);
      }
      StuckFor(env, spec, log, records);
      return Going;
    }
  }

  lemma FailEntries(spec: seq<Test>, tests: seq<Test>, p: nat)
    requires SameTests(spec, tests) && p <= |spec|
    ensures forall f :: f in Active(spec, p) ==> f < |tests| && tests[f].skip.Fail? && tests[f] == spec[f]
  {
    ActiveAre(spec, p);
  }

  lemma PassedOk(env: Env, spec: seq<Test>, log: Log, e: Event)
    requires e.Passed? && e.at <= |spec|
    requires forall f :: f in Active(spec, e.at) ==> f < |spec| && !Matches(env, spec[f], LastHit(log), e.r)
    requires e.at < |spec| ==>
      !Matches(env, spec[e.at], LastHit(log), e.r) && !EndsWait(env, spec[e.at], LastHit(log), e.r)
    ensures EventOk(env, spec, log, e)
  {}

  lemma OnlyFurther(env: Env, tests: seq<Test>, last: Latest, r: Record, i: nat, j: nat)
    requires i < j < |tests| && tests[i].skip.Alt? && !Matches(env, tests[i], last, r)
    requires tests[j].skip.Alt? && forall k :: i < k < j ==> tests[k].skip.Seen?
    ensures forall m :: Candidate(env, tests, last, r, i, m) <==> Candidate(env, tests, last, r, j, m)
  {}

  /** The expectation that takes a record is a right one to take it. */
  lemma TakenOk(env: Env, spec: seq<Test>, tests: seq<Test>, pos: nat, log: Log, e: Event)
    requires Running(env, spec, tests, pos, log) && Ready(spec, tests, pos) && pos < |spec|
    requires e.Hit? && e.at == pos
    requires forall f :: f in Active(spec, pos) ==> f < |spec| && !Matches(env, spec[f], LastHit(log), e.r)
    requires if spec[pos].skip.Alt? then Candidate(env, tests, LastHit(log), e.r, pos, e.test)
      else e.test == pos && Matches(env, spec[pos], LastHit(log), e.r)
    ensures EventOk(env, spec, log, e)
    ensures spec[pos].skip.Alt? ==> OneBlock(spec, pos, e.test) && tests[e.test] == spec[e.test]
  {
    hide Active, Trailing, LastHit, LogOk, InOrder, Counts, SeenNear;
    if spec[pos].skip.Alt? {
      forall k | pos <= k <= e.test ensures spec[k].skip.Alt? {
        assert tests[k].skip.Alt? || tests[k].skip.Seen?;
      }
      assert Matches(env, spec[e.test], LastHit(log), e.r);
    }
  }

  /** The state once a record is taken, as logexp_next finds it. */
  lemma Taken(env: Env, spec: seq<Test>, tests: seq<Test>, pos: nat, log: Log, e: Event) returns (next: nat)
    requires Running(env, spec, tests, pos, log) && Ready(spec, tests, pos) && pos < |spec|
    requires e.Hit? && EventOk(env, spec, log, e)
    requires if spec[pos].skip.Alt? then pos <= e.test && OneBlock(spec, pos, e.test) && tests[e.test] == spec[e.test]
      else e.test == pos
    ensures var after := if spec[pos].skip.Alt? then tests[e.test := tests[e.test].(skip := Seen)] else tests;
      && Running(env, spec, after, next, log + [e])
      && next == (if after[pos].skip.Alt? then pos else pos + 1)
      && Active(spec, next) == Active(spec, pos)
  {
    hide Running, EventOk, Trailing, Active;
    Grown(log, e);
    ActiveStep(spec, pos);
    if spec[pos].skip.Alt? {
      AltKeeps(env, spec, tests, pos, log, e);
      var after := tests[e.test := tests[e.test].(skip := Seen)];
      if e.test == pos {
        StepKeeps(env, spec, after, pos, log + [e]);
        next := pos + 1;
      } else {
        next := pos;
      }
    } else {
      HitKeeps(env, spec, tests, pos, log, e);
      next := pos + 1;
    }
  }
}
