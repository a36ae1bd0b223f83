/** The heap itself (lib/vbh.c): rows of slots, allocated and freed one at a time,
    with items moved in place and every move reported to the `update` callback.

    Items are opaque handles, as `void *` is in C.  The comparison callback reads
    keys that belong to the caller and may change between calls, so each operation
    takes the relation that holds while it runs.  The update callback is kept as
    the trace `calls` of everything it was told. */
module Vbh {
  import opened Options
  import opened Words
  import opened VbhTree
  import opened VbhOrder

  const ROW_WIDTH: nat := 0x1_0000
  const ROOT_IDX: nat := 1
  const NOIDX: nat := 0
  /** The largest multiple of the row width an `unsigned` holds. */
  const MAX_LENGTH: nat := 0xffff_0000

  /** `next + 2 * ROW_WIDTH` in 32 bits: whether VBH_delete takes two rows to be spare. */
  predicate TakenForSpare(next: nat, length: nat) { U32(next + 2 * ROW_WIDTH) <= length }

  /** The rows still cover every slot in use once slot `idx` is given up and `next` is left. */
  predicate RowsStay(idx: nat, next: nat) { idx == next || next <= MAX_LENGTH - ROW_WIDTH }

  /** Above that the sum wraps around, and the last row is taken for spare with slots of it in use. */
  lemma WrapsAround(next: nat, length: nat)
    requires 1 <= next < length <= MAX_LENGTH && length % ROW_WIDTH == 0
    ensures next < MAX_LENGTH - ROW_WIDTH ==> (TakenForSpare(next, length) <==> next + 2 * ROW_WIDTH <= length)
    ensures next >= MAX_LENGTH - ROW_WIDTH ==>
      TakenForSpare(next, length) && length == MAX_LENGTH < next + 2 * ROW_WIDTH
  {}

  datatype Report<+T> = Report(item: T, idx: nat)

  /** The index `item` was last told; VBH_NOIDX if it was told none. */
  function IndexTold<T(==)>(calls: seq<Report<T>>, item: T): nat {
    if calls == [] then NOIDX
    else if calls[|calls| - 1].item == item then calls[|calls| - 1].idx
    else IndexTold(calls[..|calls| - 1], item)
  }

  /** The item last reported at index `u`. */
  function ItemTold<T>(calls: seq<Report<T>>, u: nat): Option<T> {
    if calls == [] then None
    else if calls[|calls| - 1].idx == u then Some(calls[|calls| - 1].item)
    else ItemTold(calls[..|calls| - 1], u)
  }

  lemma ToldNow<T>(calls: seq<Report<T>>, c: Report<T>)
    ensures forall item :: IndexTold(calls + [c], item) == if item == c.item then c.idx else IndexTold(calls, item)
    ensures forall u :: ItemTold(calls + [c], u) == if u == c.idx then Some(c.item) else ItemTold(calls, u)
  {
    assert (calls + [c])[..|calls|] == calls;
  }

  /** Every stored item was last told its slot, every slot was last reported with
      the item in it, and an item that is not stored was last told VBH_NOIDX. */
  ghost predicate ToldRight<T(!new)>(calls: seq<Report<T>>, s: seq<T>) {
    && (forall i :: 0 <= i < |s| ==> IndexTold(calls, s[i]) == i + 1 && ItemTold(calls, i + 1) == Some(s[i]))
    && (forall item :: item !in s ==> IndexTold(calls, item) == NOIDX)
  }

  /** `after` extends `before` with reports about items of `who` and indices below `bound`. */
  ghost predicate Reported<T>(before: seq<Report<T>>, after: seq<Report<T>>, bound: nat, who: multiset<T>) {
    && |before| <= |after| && after[..|before|] == before
    && forall i :: |before| <= i < |after| ==> after[i].idx < bound && after[i].item in who
  }

  lemma ReportedNone<T>(a: seq<Report<T>>, n: nat, w: multiset<T>)
    ensures Reported(a, a, n, w)
  {}

  lemma ReportedOne<T>(a: seq<Report<T>>, c: Report<T>, n: nat, w: multiset<T>)
    requires c.idx < n && c.item in w
    ensures Reported(a, a + [c], n, w)
  {}

  lemma ReportedMore<T>(a: seq<Report<T>>, b: seq<Report<T>>, m: nat, n: nat, v: multiset<T>, w: multiset<T>)
    requires Reported(a, b, m, v) && m <= n && v <= w
    ensures Reported(a, b, n, w)
  {}

  lemma ReportedKeeps<T>(a: seq<Report<T>>, b: seq<Report<T>>, n: nat, w: multiset<T>, i: nat)
    requires Reported(a, b, n, w) && i < |a|
    ensures |b| >= |a| && b[i] == a[i]
  {
    assert b[..|a|][i] == b[i];
  }

  lemma ReportedTrans<T>(a: seq<Report<T>>, b: seq<Report<T>>, c: seq<Report<T>>, n: nat, w: multiset<T>)
    requires Reported(a, b, n, w) && Reported(b, c, n, w)
    ensures Reported(a, c, n, w)
  {
    assert c[..|a|] == c[..|b|][..|a|];
    forall i | |a| <= i < |c| ensures c[i].idx < n && c[i].item in w {
      if i < |b| { assert c[i] == c[..|b|][i]; }
    }
  }

  lemma SwapMembers<T>(s: seq<T>, u: nat, v: nat)
    requires 1 <= u <= |s| && 1 <= v <= |s|
    ensures forall item :: item in Swapped(s, u, v) <==> item in s
  {
    SwapKeeps(s, u, v);
    assert forall item :: item in s <==> item in multiset(s);
    assert forall item :: item in Swapped(s, u, v) <==> item in multiset(Swapped(s, u, v));
  }

  ghost predicate Distinct<T>(s: seq<T>) {
    forall i, j :: 0 <= i < j < |s| ==> s[i] != s[j]
  }

  lemma ToldSwap<T(!new)>(calls: seq<Report<T>>, s: seq<T>, u: nat, v: nat)
    requires 1 <= u <= |s| && 1 <= v <= |s| && u != v
    requires Distinct(s) && ToldRight(calls, s)
    ensures ToldRight(calls + [Report(s[v - 1], u)] + [Report(s[u - 1], v)], Swapped(s, u, v))
  {
    ToldNow(calls, Report(s[v - 1], u));
    ToldNow(calls + [Report(s[v - 1], u)], Report(s[u - 1], v));
    SwapMembers(s, u, v);
  }

  lemma ToldInsert<T(!new)>(calls: seq<Report<T>>, s: seq<T>, p: T)
    requires ToldRight(calls, s) && p !in s
    ensures ToldRight(calls + [Report(p, |s| + 1)], s + [p])
  {
    ToldNow(calls, Report(p, |s| + 1));
  }

  lemma ToldDelete<T(!new)>(calls: seq<Report<T>>, s: seq<T>, u: nat)
    requires 1 <= u <= |s| && Distinct(s) && ToldRight(calls, s)
    ensures var gone := calls + [Report(s[u - 1], NOIDX)];
      ToldRight(if u == |s| then gone else gone + [Report(s[|s| - 1], u)], Filled(s, u))
  {
    var gone := calls + [Report(s[u - 1], NOIDX)];
    ToldNow(calls, Report(s[u - 1], NOIDX));
    ToldNow(gone, Report(s[|s| - 1], u));
    var t := Filled(s, u);
    forall item | item !in t && item != s[u - 1] ensures item !in s || item == s[|s| - 1] {
      forall i | 0 <= i < |s| - 1 ensures s[i] != item { if i != u - 1 { assert t[i] == s[i]; } }
    }
    if u != |s| { assert t[u - 1] == s[|s| - 1]; }
  }

  lemma FilledAt<T>(s: seq<T>, u: nat)
    requires 1 <= u < |s|
    ensures Filled(s, u)[u - 1] == s[|s| - 1]
  {}

  lemma FilledDistinct<T>(s: seq<T>, u: nat)
    requires 1 <= u <= |s| && Distinct(s)
    ensures Distinct(Filled(s, u)) && s[u - 1] !in Filled(s, u)
  {}

  ghost predicate SortedBy<T>(less: (T, T) -> bool, s: seq<T>) {
    forall i, j :: 0 <= i < j < |s| ==> !less(s[j], s[i])
  }

  /** No item of `s` belongs before an item of `out`. */
  ghost predicate AllAfter<T>(less: (T, T) -> bool, out: seq<T>, s: seq<T>) {
    forall i, p :: 0 <= i < |out| && p in s ==> !less(p, out[i])
  }

  /** `out` has been taken, in order, from a heap that held `all` and now holds `s`. */
  ghost predicate Drained<T>(less: (T, T) -> bool, out: seq<T>, s: seq<T>, all: multiset<T>) {
    SortedBy(less, out) && AllAfter(less, out, s) && multiset(out) + multiset(s) == all
  }

  lemma TakeRoot<T>(less: (T, T) -> bool, out: seq<T>, s: seq<T>, t: seq<T>, all: multiset<T>)
    requires s != [] && AllAfter(less, [s[0]], s)
    requires Drained(less, out, s, all)
    requires multiset(t) == multiset(s) - multiset{s[0]}
    ensures Drained(less, out + [s[0]], t, all)
  {
    var o, one := out + [s[0]], [s[0]];
    assert s[0] in s && s[0] in multiset(s);
    forall i, p | 0 <= i < |o| && p in t ensures !less(p, o[i]) {
      assert p in multiset(t) && p in multiset(s);
      assert p in s && !less(p, one[0]);
    }
  }

  lemma DrainedAll<T>(less: (T, T) -> bool, out: seq<T>, s: seq<T>, all: multiset<T>)
    requires Drained(less, out, s, all) && s == []
    ensures multiset(out) == all && SortedBy(less, out)
  {}

  class Heap<T(==,!new)> {
    const size: nat
    var array_: seq<array?<Option<T>>>
    var length: nat
    var next: nat
    var calls: seq<Report<T>>
    ghost var items: seq<T>
    ghost var repr: set<array<Option<T>>>

    /** The row table: the first `length / ROW_WIDTH` rows are allocated, the rest are NULL. */
    ghost predicate RowsOk()
      reads `array_, `length, `repr
    {
      && length % ROW_WIDTH == 0
      && 0 < length <= MAX_LENGTH
      && length / ROW_WIDTH <= |array_|
      && (forall r :: 0 <= r < |array_| ==>
            if r < length / ROW_WIDTH then
              array_[r] != null && array_[r] in repr && array_[r].Length == ROW_WIDTH
            else array_[r] == null)
      && (forall r, t :: 0 <= r < t < length / ROW_WIDTH ==> array_[r] != array_[t])
    }

    ghost function Cell(u: nat): Option<T>
      requires RowsOk() && u < length
      reads `array_, `length, `repr, repr
    {
      array_[u / ROW_WIDTH][u % ROW_WIDTH]
    }

    /** Rows and slots, without any ordering. */
    ghost predicate Shape()
      reads `array_, `length, `repr, `next, `items, repr
    {
      && RowsOk()
      && size >= 4 && IsPageSize(size)
      && 1 <= next <= length <= MAX_LENGTH
      && |items| == next - 1
      && (forall u :: 1 <= u < next ==> Cell(u) == Some(items[u - 1]))
      && (next == 1 ==> Cell(ROOT_IDX) == None)
      && Distinct(items)
    }

    ghost predicate Valid()
      reads this, repr
    {
      Shape() && ToldRight(calls, items)
    }

    ghost predicate InOrder(less: (T, T) -> bool)
      requires Valid()
      reads this, repr
    {
      Ordered(size, less, items)
    }

    constructor (pageSize: nat)
      requires IsPageSize(pageSize)
      ensures Valid() && fresh(repr)
      ensures size == pageSize && items == [] && calls == []
    {
      size := pageSize;
      next := ROOT_IDX;
      calls := [];
      items := [];
      var row := new Option<T>[ROW_WIDTH](_ => None);
      array_ := [row] + seq(15, _ => null);
      length := ROW_WIDTH;
      repr := {row};
      new;
      array_[0][ROOT_IDX] := None;
    }

    /** The table of rows doubles when it is full. */
    method GrowTable()
      requires RowsOk()
      modifies `array_
      ensures RowsOk() && length / ROW_WIDTH < |array_|
      ensures forall r :: 0 <= r < length / ROW_WIDTH ==> array_[r] == old(array_[r])
    {
      if length / ROW_WIDTH >= |array_| {
        array_ := array_ + seq(|array_|, _ => null);
      }
    }

    /** vbh_addrow */
    method AddRow()
      requires Shape() && length == next < MAX_LENGTH
      modifies `array_, `length, `repr
      ensures Shape() && length == old(length) + ROW_WIDTH
      ensures fresh(repr - old(repr)) && old(repr) <= repr
    {
      GrowTable();
      var row := new Option<T>[ROW_WIDTH](_ => None);
      array_ := array_[length / ROW_WIDTH := row];
      repr := repr + {row};
      length := length + ROW_WIDTH;
      forall u | 1 <= u < next ensures Cell(u) == old(Cell(u)) {
        assert array_[u / ROW_WIDTH] == old(array_[u / ROW_WIDTH]);
      }
    }

    method Get(u: nat) returns (x: Option<T>)
      requires RowsOk() && u < length
      ensures x == Cell(u)
    {
      x := array_[u / ROW_WIDTH][u % ROW_WIDTH];
    }

    method Put(u: nat, x: Option<T>)
      requires RowsOk() && u < length
      modifies repr
      ensures RowsOk() && Cell(u) == x
      ensures forall w :: 0 <= w < length && w != u ==> Cell(w) == old(Cell(w))
    {
      var row := array_[u / ROW_WIDTH];
      row[u % ROW_WIDTH] := x;
      forall w | 0 <= w < length && w != u ensures Cell(w) == old(Cell(w)) {
        if w / ROW_WIDTH != u / ROW_WIDTH {
          assert array_[w / ROW_WIDTH] != row;
        }
      }
    }

    /** vbh_update */
    method Update(u: nat)
      requires Shape() && 1 <= u < next
      modifies this`calls
      ensures Shape() && calls == old(calls) + [Report(items[u - 1], u)]
    {
      var p := Item(u);
      calls := calls + [Report(p, u)];
    }

    method Item(u: nat) returns (p: T)
      requires Shape() && 1 <= u < next
      ensures p == items[u - 1]
    {
      var x := Get(u);
      p := x.value;
    }

    /** binhead_swap */
    method Swap(u: nat, v: nat)
      requires Valid() && 1 <= u < next && 1 <= v < next && u != v
      modifies this`items, this`calls, repr
      ensures Valid() && items == Swapped(old(items), u, v)
      ensures Reported(old(calls), calls, next, multiset(items))
    {
      SwapCells(u, v);
      Update(u);
      Update(v);
      ToldSwap(old(calls), old(items), u, v);
    }

    method SwapCells(u: nat, v: nat)
      requires Shape() && 1 <= u < next && 1 <= v < next && u != v
      modifies `items, repr
      ensures Shape() && items == Swapped(old(items), u, v)
    {
      hide Cell, RowsOk;
      var p := Get(u);
      var q := Get(v);
      Put(u, q);
      Put(v, p);
      items := Swapped(items, u, v);
    }

    /** vbh_trickleup */
    method TrickleUp(start: nat, less: (T, T) -> bool) returns (u: nat)
      requires Valid() && 1 <= start < next && StrictWeakOrder(less)
      requires UpHole(size, less, items, start, true)
      modifies `items, `calls, repr
      ensures Valid() && 1 <= u <= start
      ensures multiset(items) == multiset(old(items)) && |items| == |old(items)|
      ensures DownHole(size, less, items, u)
      ensures u != start ==> Ordered(size, less, items)
      ensures u == start ==> items == old(items)
      ensures Reported(old(calls), calls, next, multiset(items))
    {
      hide Reported, Parent, IsPageSize, StrictWeakOrder, UpHole, DownHole, Ordered, Swapped, ToldRight, Distinct;
      hide Cell, RowsOk, GrandOk;
      u := start;
      ReportedNone(calls, next, multiset(items));
      ghost var low := true;
      while u > ROOT_IDX
        invariant Valid() && 1 <= u <= start
        invariant multiset(items) == multiset(old(items)) && |items| == |old(items)|
        invariant UpHole(size, less, items, u, low)
        invariant low <==> u == start
        invariant low ==> items == old(items)
        invariant Reported(old(calls), calls, next, multiset(items))
      {
        ChildOfParent(size, u);
        var v := Parent(size, u);
        var a := Item(u);
        var b := Item(v);
        if !less(a, b) {
          break;
        }
        StepUp(size, less, items, u, low);
        SwapKeeps(items, u, v);
        ghost var before := calls;
        Swap(u, v);
        ReportedTrans(old(calls), before, calls, next, multiset(items));
        u, low := v, false;
      }
      DoneUp(size, less, items, u, low);
    }

    /** The child that trickling down compares with: the closer to the root of the two. */
    method Closer(v1: nat, v2: nat, less: (T, T) -> bool) returns (c: nat)
      requires Valid() && 1 <= v1 <= v2 && v1 < next
      ensures c == v1 || (c == v2 && v2 < next)
      ensures StrictWeakOrder(less) && v2 < next ==>
        !less(items[(if c == v1 then v2 else v1) - 1], items[c - 1])
    {
      c := v1;
      if v1 != v2 && v2 < next {
        var a := Item(v2);
        var b := Item(v1);
        if less(a, b) {
          c := v2;
        }
      }
    }

    /** vbh_trickledown */
    method TrickleDown(start: nat, less: (T, T) -> bool) returns (u: nat)
      requires Valid() && 1 <= start < next && StrictWeakOrder(less)
      requires DownHole(size, less, items, start)
      modifies `items, `calls, repr
      ensures Valid() && start <= u < next
      ensures multiset(items) == multiset(old(items)) && |items| == |old(items)|
      ensures Ordered(size, less, items)
      ensures Reported(old(calls), calls, next, multiset(items))
    {
      hide Reported, Parent, Child, IsPageSize, StrictWeakOrder, DownHole, Ordered, Swapped, ToldRight, Distinct;
      hide Cell, RowsOk, GrandOk;
      u := start;
      ReportedNone(calls, next, multiset(items));
      while true
        invariant Valid() && start <= u < next
        invariant multiset(items) == multiset(old(items)) && |items| == |old(items)|
        invariant DownHole(size, less, items, u)
        invariant Reported(old(calls), calls, next, multiset(items))
        decreases next - u
      {
        var (v1, v2) := Child(size, u);
        OnlyChildren(size, items, u, v1, v2);
        if v1 >= next {
          StopDown(size, less, items, u, v1, v2, v1);
          return;
        }
        var c := Closer(v1, v2, less);
        var a := Item(u);
        var b := Item(c);
        if less(a, b) {
          StopDown(size, less, items, u, v1, v2, c);
          return;
        }
        StepDown(size, less, items, u, v1, v2, c);
        SwapKeeps(items, u, c);
        ghost var before := calls;
        Swap(u, c);
        ReportedTrans(old(calls), before, calls, next, multiset(items));
        u := c;
      }
    }

    /** VBH_insert.  With no room left in 32 bits the new row would make `length` 0, and the assertion
        that there is room fails: `ok` is false. */
    method Insert(p: T, less: (T, T) -> bool) returns (ok: bool)
      requires Valid() && InOrder(less) && StrictWeakOrder(less)
      requires p !in items
      modifies this, repr
      ensures ok <==> old(next) < MAX_LENGTH
      ensures Valid() && InOrder(less) && fresh(repr - old(repr))
      ensures !ok ==> items == old(items) && calls == old(calls) && length == old(length) && repr == old(repr)
      ensures ok ==>
        && multiset(items) == multiset(old(items)) + multiset{p} && |items| == |old(items)| + 1
        && length == (if old(length) == old(next) then old(length) + ROW_WIDTH else old(length))
        && Reported(old(calls), calls, next, multiset(items))
        && |calls| > |old(calls)| && calls[|old(calls)|] == Report(p, old(next))
    {
      hide ToldRight, Ordered, UpHole, DownHole, StrictWeakOrder, RowsOk, Cell, IsPageSize, Distinct, Reported;
      if length == next {
        if U32(length + ROW_WIDTH) <= next {
          return false;
        }
        AddRow();
      }
      Append(p);
      Update(next - 1);
      ReportedOne(old(calls), Report(p, next - 1), next, multiset(items));
      ToldInsert(old(calls), old(items), p);
      HoleAtEnd(size, less, old(items), p);
      ghost var before := calls;
      var u := TrickleUp(next - 1, less);
      ReportedTrans(old(calls), before, calls, next, multiset(items));
      ReportedKeeps(before, calls, next, multiset(items), |old(calls)|);
      DoneAtEnd(u, less);
      ok := true;
    }

    /** Nothing hangs below the last slot. */
    lemma DoneAtEnd(u: nat, less: (T, T) -> bool)
      requires Valid() && DownHole(size, less, items, u)
      requires u == |items| || Ordered(size, less, items)
      ensures Ordered(size, less, items)
    {
      hide Parent;
      Parents(size, items);
    }

    method Append(p: T)
      requires Shape() && next < length && p !in items
      modifies `next, `items, repr
      ensures Shape() && items == old(items) + [p]
    {
      hide Cell, RowsOk;
      Put(next, Some(p));
      next := next + 1;
      items := items + [p];
    }

    /** The emptied slot takes the tail item. */
    method Fill(idx: nat)
      requires Shape() && 1 <= idx < next
      modifies `next, `items, repr
      ensures Shape() && items == Filled(old(items), idx)
    {
      hide Cell, RowsOk;
      next := next - 1;
      if idx != next {
        var x := Get(next);
        Put(idx, x);
      }
      Put(next, None);
      FilledDistinct(items, idx);
      items := Filled(items, idx);
    }

    /** Returns the last row.  If slots of it are in use they are gone with it. */
    method FreeRow()
      requires Valid() && length > ROW_WIDTH
      modifies `array_, `length
      ensures length == old(length) - ROW_WIDTH
      ensures Valid() <==> next <= length
      ensures RowGone(length)
    {
      array_ := array_[length / ROW_WIDTH - 1 := null];
      length := length - ROW_WIDTH;
      if next <= length {
        forall u | 1 <= u < next || u == 1 ensures Cell(u) == old(Cell(u)) {
          assert array_[u / ROW_WIDTH] == old(array_[u / ROW_WIDTH]);
        }
      }
    }

    lemma Absent(p: T, s: seq<T>)
      requires Valid() && Distinct(s) && p in s
      requires multiset(items) == multiset(s) - multiset{p}
      ensures IndexTold(calls, p) == NOIDX
      ensures |items| == |s| - 1
    {
      var i :| 0 <= i < |s| && s[i] == p;
      FilledDistinct(s, i + 1);
      FilledKeeps(s, i + 1);
      var t := Filled(s, i + 1);
      assert p in items <==> p in multiset(items);
      assert p in t <==> p in multiset(t);
      assert |multiset(items)| == |items| && |multiset(s)| == |s|;
    }

    /** Steps of VBH_delete up to the point where the filled slot needs settling. */
    method Remove(idx: nat)
      requires Valid() && 1 <= idx < next
      modifies `calls, `next, `items, repr
      ensures Valid() && items == Filled(old(items), idx)
      ensures Reported(old(calls), calls, old(next), multiset(old(items)))
    {
      hide ToldRight, Distinct, Filled, RowsOk, Cell, IsPageSize;
      var p := Item(idx);
      calls := calls + [Report(p, NOIDX)];
      Fill(idx);
      ToldDelete(old(calls), old(items), idx);
      if idx != next {
        FilledAt(old(items), idx);
        Update(idx);
      }
    }

    /** VBH_delete up to the rows. */
    method TakeOut(idx: nat, less: (T, T) -> bool, ghost before: (T, T) -> bool)
      requires Valid() && InOrder(before) && StrictWeakOrder(before) && StrictWeakOrder(less)
      requires 1 <= idx < next && AgreeBut(before, less, items[idx - 1])
      modifies `items, `calls, `next, repr
      ensures Valid() && InOrder(less)
      ensures multiset(items) == multiset(old(items)) - multiset{old(items)[idx - 1]}
      ensures IndexTold(calls, old(items)[idx - 1]) == NOIDX
      ensures |items| == |old(items)| - 1 && next == old(next) - 1
      ensures Reported(old(calls), calls, old(next), multiset(old(items)))
    {
      hide ToldRight, Ordered, UpHole, DownHole, StrictWeakOrder, Distinct, RowsOk, Cell, IsPageSize, Filled, Reported;
      NoneEqual(items, idx);
      HoleWhereFilled(size, before, less, items, idx);
      FilledKeeps(items, idx);
      Remove(idx);
      if idx != next {
        ghost var told := calls;
        Settle(idx, less);
        ReportedMore(told, calls, next, old(next), multiset(items), multiset(old(items)));
        ReportedTrans(old(calls), told, calls, old(next), multiset(old(items)));
      }
      Absent(old(items)[idx - 1], old(items));
    }

    /** VBH_delete.  The key of the item to be deleted may already have changed:
        `before` is the relation the heap is ordered by. */
    method Delete(idx: nat, less: (T, T) -> bool, ghost before: (T, T) -> bool)
      requires Valid() && InOrder(before) && StrictWeakOrder(before) && StrictWeakOrder(less)
      requires 1 <= idx < next && AgreeBut(before, less, items[idx - 1])
      modifies this, repr
      ensures Ordered(size, less, items) && repr == old(repr)
      ensures multiset(items) == multiset(old(items)) - multiset{old(items)[idx - 1]}
      ensures IndexTold(calls, old(items)[idx - 1]) == NOIDX
      ensures |items| == |old(items)| - 1 && next == old(next) - 1
      ensures Reported(old(calls), calls, old(next), multiset(old(items)))
      // all is well but for a row in use that is freed when the 32-bit sum wraps around
      ensures Valid() <==> RowsStay(idx, next)
      ensures !RowsStay(idx, next) ==> 0 < length < next && RowGone(length)
      // a row is freed exactly when two are spare, below that point
      ensures length == if idx < next && TakenForSpare(next, old(length)) then old(length) - ROW_WIDTH else old(length)
      ensures (length < old(length) <==> idx < next && next + 2 * ROW_WIDTH <= old(length))
        <==> idx == next || next < MAX_LENGTH - ROW_WIDTH
    {
      hide ToldRight, Ordered, StrictWeakOrder, RowsOk, Cell, IsPageSize, Reported, Distinct, AgreeBut;
      TakeOut(idx, less, before);
      if idx != next {
        SpareRow();
        if U32(next + 2 * ROW_WIDTH) <= length {
          FreeRow();
        }
      }
    }

    /** The row of slot `u` is not allocated. */
    ghost predicate RowGone(u: nat)
      reads `array_
    {
      u / ROW_WIDTH < |array_| && array_[u / ROW_WIDTH] == null
    }

    lemma WholeRows()
      requires Valid()
      ensures length % ROW_WIDTH == 0 && next <= length <= MAX_LENGTH
    {}

    lemma SpareRow()
      requires Valid() && next < length
      ensures TakenForSpare(next, length) ==> length > ROW_WIDTH
      ensures next < MAX_LENGTH - ROW_WIDTH ==> (TakenForSpare(next, length) <==> next + 2 * ROW_WIDTH <= length)
      ensures next >= MAX_LENGTH - ROW_WIDTH ==> TakenForSpare(next, length) && length == MAX_LENGTH
    {
      WrapsAround(next, length);
    }

    lemma NoneEqual(s: seq<T>, u: nat)
      requires Distinct(s) && 1 <= u <= |s|
      ensures forall i :: 0 <= i < |s| && i != u - 1 ==> s[i] != s[u - 1]
    {}

    /** Trickling up and then down mends an arbitrary change at one slot. */
    method Settle(idx: nat, less: (T, T) -> bool)
      requires Valid() && StrictWeakOrder(less)
      requires 1 <= idx < next && UpHole(size, less, items, idx, true)
      modifies `items, `calls, repr
      ensures Valid() && InOrder(less)
      ensures multiset(items) == multiset(old(items)) && |items| == |old(items)|
      ensures Reported(old(calls), calls, next, multiset(items))
    {
      hide ToldRight, Ordered, UpHole, DownHole, StrictWeakOrder, Distinct, RowsOk, Cell, IsPageSize, Reported;
      var u := TrickleUp(idx, less);
      ghost var told := calls;
      u := TrickleDown(u, less);
      ReportedTrans(old(calls), told, calls, next, multiset(items));
    }

    /** VBH_reorder: the key of the item at `idx` changed, so `less` may differ
        from the relation `before` the heap is ordered by wherever that item is involved. */
    method Reorder(idx: nat, less: (T, T) -> bool, ghost before: (T, T) -> bool)
      requires Valid() && InOrder(before) && StrictWeakOrder(before) && StrictWeakOrder(less)
      requires 1 <= idx < next && AgreeBut(before, less, items[idx - 1])
      modifies `items, `calls, repr
      ensures Valid() && InOrder(less)
      ensures multiset(items) == multiset(old(items)) && |items| == |old(items)|
      ensures Reported(old(calls), calls, next, multiset(items))
    {
      hide ToldRight, Ordered, UpHole, DownHole, StrictWeakOrder, RowsOk, Cell, IsPageSize, Distinct, Reported;
      NoneEqual(items, idx);
      HoleAt(size, before, less, items, items, idx);
      Settle(idx, less);
    }

    /** VBH_root */
    method Root(less: (T, T) -> bool) returns (x: Option<T>)
      requires Valid() && InOrder(less) && StrictWeakOrder(less)
      ensures x == if items == [] then None else Some(items[0])
      ensures items != [] ==> AllAfter(less, [items[0]], items)
    {
      x := Get(ROOT_IDX);
      forall p | p in items ensures !less(p, items[0]) {
        var i :| 0 <= i < |items| && items[i] == p;
        RootIsLeast(size, less, items, i + 1);
      }
    }

    /** Taking the root until there is none left yields every item once, in order, if and only if there
        are not so many that the first deletion frees a row in use. */
    method Drain(less: (T, T) -> bool) returns (ok: bool, out: seq<T>)
      requires Valid() && InOrder(less) && StrictWeakOrder(less)
      modifies this, repr
      ensures ok <==> |old(items)| <= MAX_LENGTH - ROW_WIDTH
      ensures ok ==> Valid() && items == [] && multiset(out) == multiset(old(items)) && SortedBy(less, out)
    {
      hide ToldRight, Ordered, StrictWeakOrder, Distinct, RowsOk, Cell, IsPageSize, Drained, AllAfter;
      out := [];
      ghost var all := multiset(items);
      StartDrain(less);
      var x := Root(less);
      while x.Some?
        invariant Valid() && InOrder(less) && repr == old(repr)
        invariant x == if items == [] then None else Some(items[0])
        invariant items != [] ==> AllAfter(less, [items[0]], items)
        invariant Drained(less, out, items, all)
        invariant |items| <= |old(items)| && (items != old(items) ==> |old(items)| <= MAX_LENGTH - ROW_WIDTH)
        decreases |items|
      {
        ghost var before, o := items, out;
        out := out + [x.value];
        Delete(ROOT_IDX, less, less);
        if next > length {     // the next deletion would meet a NULL row
          return false, out;
        }
        TakeRoot(less, o, before, items, all);
        x := Root(less);
      }
      DrainedAll(less, out, items, all);
      ok := true;
    }

    lemma StartDrain(less: (T, T) -> bool)
      ensures Drained(less, [], items, multiset(items))
    {}
  }

  predicate Less(a: nat, b: nat) { a < b }

  /** A heap of the numbers below `n`. */
  method Numbers(pageSize: nat, n: nat) returns (heap: Heap<nat>)
    requires IsPageSize(pageSize) && n < MAX_LENGTH
    ensures fresh(heap) && fresh(heap.repr) && heap.Valid() && heap.InOrder(Less) && |heap.items| == n
  {
    hide ToldRight, Ordered, Heap.RowsOk, Heap.Cell, Distinct, Reported;
    heap := new Heap<nat>(pageSize);
    NothingOrdered(pageSize);
    var k: nat := 0;
    while k < n
      invariant 0 <= k <= n && fresh(heap) && fresh(heap.repr)
      invariant heap.Valid() && heap.InOrder(Less) && |heap.items| == k
      invariant forall x :: x in heap.items ==> x < k
    {
      ghost var before := heap.items;
      var ok := heap.Insert(k, Less);
      Grown(before, heap.items, k);
      k := k + 1;
    }
  }

  lemma NothingOrdered(size: nat)
    requires size >= 4
    ensures Ordered(size, Less, [])
  {}

  /** A heap of 0xfffe_0001 items, which loses a row in use when its root is deleted. */
  method RowLost(pageSize: nat) returns (heap: Heap<nat>)
    requires IsPageSize(pageSize)
    ensures !heap.Valid() && heap.next == 0xfffe_0001 && heap.length == 0xfffe_0000
    ensures |heap.items| == 0xfffe_0000 && heap.RowGone(0xfffe_0000)
  {
    hide ToldRight, Ordered, Heap.RowsOk, Heap.Cell, Distinct, Reported;
    heap := Numbers(pageSize, 0xfffe_0001);
    heap.WholeRows();
    heap.Delete(ROOT_IDX, Less, Less);
  }

  lemma Grown(s: seq<nat>, t: seq<nat>, n: nat)
    requires multiset(t) == multiset(s) + multiset{n} && forall x :: x in s ==> x < n
    ensures forall x :: x in t ==> x < n + 1
  {
    forall x | x in t ensures x < n + 1 {
      assert x in multiset(t);
      assert x in multiset(s) ==> x in s;
    }
  }
}
