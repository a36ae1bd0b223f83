/** Heap order along the page-aware tree, on the sequence of stored items.
    Slot `u` (counted from 1) of the heap is element `u - 1` of the sequence. */
module VbhOrder {
  import opened Words
  import opened VbhTree

  /** The comparison callback: strict, transitive, and its negation transitive. */
  ghost predicate StrictWeakOrder<T(!new)>(less: (T, T) -> bool) {
    && (forall a, b :: less(a, b) ==> !less(b, a))
    && (forall a, b, c :: less(a, b) && less(b, c) ==> less(a, c))
    && (forall a, b, c :: !less(a, b) && !less(b, c) ==> !less(a, c))
  }

  ghost predicate Fits<T>(size: nat, s: seq<T>) {
    IsPageSize(size) && |s| + 1 < UINT_MAX
  }

  /** Slot `u` is not closer to the root than its parent. */
  ghost predicate OkAt<T>(size: nat, less: (T, T) -> bool, s: seq<T>, u: nat)
    requires size >= 4
  {
    1 <= Parent(size, u) <= |s| && 1 <= u <= |s| && !less(s[u - 1], s[Parent(size, u) - 1])
  }

  ghost predicate Ordered<T>(size: nat, less: (T, T) -> bool, s: seq<T>)
    requires size >= 4
  {
    forall u :: 2 <= u <= |s| ==> OkAt(size, less, s, u)
  }

  /** The children of `u` are in order with the parent of `u`. */
  ghost predicate GrandOk<T>(size: nat, less: (T, T) -> bool, s: seq<T>, u: nat)
    requires size >= 4
  {
    2 <= u && 1 <= Parent(size, u) <= |s| ==>
      forall w :: 2 <= w <= |s| && Parent(size, w) == u ==> !less(s[w - 1], s[Parent(size, u) - 1])
  }

  /** In order but for slot `u` against its parent and, if `low`, its children. */
  ghost predicate UpHole<T>(size: nat, less: (T, T) -> bool, s: seq<T>, u: nat, low: bool)
    requires size >= 4
  {
    && (forall w :: 2 <= w <= |s| && w != u && !(low && Parent(size, w) == u) ==> OkAt(size, less, s, w))
    && GrandOk(size, less, s, u)
  }

  /** In order but for slot `u` against its children. */
  ghost predicate DownHole<T>(size: nat, less: (T, T) -> bool, s: seq<T>, u: nat)
    requires size >= 4
  {
    && (forall w :: 2 <= w <= |s| && Parent(size, w) != u ==> OkAt(size, less, s, w))
    && GrandOk(size, less, s, u)
  }

  function Swapped<T>(s: seq<T>, u: nat, v: nat): (r: seq<T>)
    requires 1 <= u <= |s| && 1 <= v <= |s|
    ensures |r| == |s|
  {
    s[u - 1 := s[v - 1]][v - 1 := s[u - 1]]
  }

  /** Slot `u` filled with the last item, and the last slot dropped. */
  function Filled<T>(s: seq<T>, u: nat): (r: seq<T>)
    requires 1 <= u <= |s|
    ensures |r| == |s| - 1
  {
    s[u - 1 := s[|s| - 1]][..|s| - 1]
  }

  lemma FilledKeeps<T>(s: seq<T>, u: nat)
    requires 1 <= u <= |s|
    ensures multiset(s) == multiset(Filled(s, u)) + multiset{s[u - 1]}
  {
    var n := |s| - 1;
    var t := s[u - 1 := s[n]];
    assert s == s[..n] + [s[n]];
    assert t == t[..n] + [t[n]];
    assert multiset(t) == multiset(s) - multiset{s[u - 1]} + multiset{s[n]};
  }

  lemma SwapKeeps<T>(s: seq<T>, u: nat, v: nat)
    requires 1 <= u <= |s| && 1 <= v <= |s|
    ensures multiset(Swapped(s, u, v)) == multiset(s)
  {}

  lemma Parents<T>(size: nat, s: seq<T>)
    requires Fits(size, s)
    ensures forall w :: 2 <= w <= |s| ==> 1 <= Parent(size, w) < w
  {
    hide Parent;
    forall w | 2 <= w <= |s| ensures 1 <= Parent(size, w) < w { ChildOfParent(size, w); }
  }

  /** Changing the item of one slot at will leaves a hole there and nowhere else. */
  lemma HoleAt<T(!new)>(size: nat, less: (T, T) -> bool, less': (T, T) -> bool, s: seq<T>, s': seq<T>, u: nat)
    requires Fits(size, s) && StrictWeakOrder(less)
    requires Ordered(size, less, s)
    requires 1 <= u <= |s'| <= |s|
    requires forall i :: 0 <= i < |s'| && i != u - 1 ==> s'[i] == s[i]
    requires forall i, j :: 0 <= i < |s'| && 0 <= j < |s'| && i != u - 1 && j != u - 1 ==>
      less'(s[i], s[j]) == less(s[i], s[j])
    ensures UpHole(size, less', s', u, true)
  {
    hide Parent;
    Parents(size, s);
    forall w | 2 <= w <= |s'| && w != u && Parent(size, w) != u ensures OkAt(size, less', s', w) {
      assert OkAt(size, less, s, w);
    }
    if 2 <= u {
      forall w | 2 <= w <= |s'| && Parent(size, w) == u
        ensures !less'(s'[w - 1], s'[Parent(size, u) - 1])
      {
        assert OkAt(size, less, s, w) && OkAt(size, less, s, u);
      }
    }
  }

  /** The two relations differ only where `p` is involved. */
  ghost predicate AgreeBut<T(!new)>(less: (T, T) -> bool, less': (T, T) -> bool, p: T) {
    forall a, b :: a != p && b != p ==> less(a, b) == less'(a, b)
  }

  lemma HoleWhereFilled<T(!new)>(size: nat, less: (T, T) -> bool, less': (T, T) -> bool, s: seq<T>, u: nat)
    requires Fits(size, s) && StrictWeakOrder(less)
    requires Ordered(size, less, s) && 1 <= u <= |s|
    requires AgreeBut(less, less', s[u - 1])
    requires forall i :: 0 <= i < |s| && i != u - 1 ==> s[i] != s[u - 1]
    ensures if u == |s| then Ordered(size, less', Filled(s, u)) else UpHole(size, less', Filled(s, u), u, true)
  {
    if u == |s| {
      hide Parent;
      Parents(size, s);
      var t := Filled(s, u);
      assert t == s[..u - 1];
      forall w | 2 <= w <= |t| ensures OkAt(size, less', t, w) {
        assert OkAt(size, less, s, w);
      }
    } else {
      HoleAt(size, less, less', s, Filled(s, u), u);
    }
  }

  lemma StepUp<T(!new)>(size: nat, less: (T, T) -> bool, s: seq<T>, u: nat, low: bool)
    requires Fits(size, s) && StrictWeakOrder(less)
    requires 2 <= u <= |s| && 1 <= Parent(size, u) < u
    requires UpHole(size, less, s, u, low)
    requires less(s[u - 1], s[Parent(size, u) - 1])
    ensures UpHole(size, less, Swapped(s, u, Parent(size, u)), Parent(size, u), false)
  {
    hide Parent;
    Parents(size, s);
    var p := Parent(size, u);
    var t := Swapped(s, u, p);
    forall w | 2 <= w <= |t| && w != p ensures OkAt(size, less, t, w) {
      if w != u && Parent(size, w) != u {
        assert OkAt(size, less, s, w);
      }
    }
    if 2 <= p {
      assert OkAt(size, less, s, p);
      forall w | 2 <= w <= |t| && Parent(size, w) == p
        ensures !less(t[w - 1], t[Parent(size, p) - 1])
      {
        if w != u { assert OkAt(size, less, s, w); }
      }
    }
  }

  lemma DoneUp<T(!new)>(size: nat, less: (T, T) -> bool, s: seq<T>, u: nat, low: bool)
    requires Fits(size, s)
    requires 1 <= u <= |s|
    requires UpHole(size, less, s, u, low)
    requires u >= 2 ==> OkAt(size, less, s, u)
    ensures DownHole(size, less, s, u)
    ensures !low ==> Ordered(size, less, s)
  {}

  lemma HoleAtEnd<T(!new)>(size: nat, less: (T, T) -> bool, s: seq<T>, p: T)
    requires Fits(size, s + [p])
    requires Ordered(size, less, s)
    ensures UpHole(size, less, s + [p], |s| + 1, true)
  {
    hide Parent;
    var t := s + [p];
    Parents(size, t);
    forall w | 2 <= w <= |t| && w != |t| ensures OkAt(size, less, t, w) {
      assert OkAt(size, less, s, w);
    }
  }

  /** The slots whose parent is `u` are its two children. */
  lemma OnlyChildren<T>(size: nat, s: seq<T>, u: nat, a: nat, b: nat)
    requires Fits(size, s)
    requires 1 <= u <= |s| && (a, b) == Child(size, u)
    ensures forall w :: 2 <= w <= |s| && Parent(size, w) == u ==> w == a || w == b
    ensures u < a <= b
    ensures a <= |s| ==> Parent(size, a) == u
    ensures b <= |s| ==> Parent(size, b) == u
  {
    hide Parent, Child;
    forall w | 2 <= w <= |s| && Parent(size, w) == u ensures w == a || w == b {
      ChildOfParent(size, w);
    }
    ParentOfChild(size, u);
  }

  lemma StopDown<T(!new)>(size: nat, less: (T, T) -> bool, s: seq<T>, u: nat, a: nat, b: nat, c: nat)
    requires Fits(size, s) && StrictWeakOrder(less)
    requires 1 <= u <= |s| && u < a <= b && (a, b) == Child(size, u)
    requires DownHole(size, less, s, u)
    requires a > |s| || (
      && (c == a || (c == b && b <= |s|))
      && (b <= |s| ==> !less(s[(if c == a then b else a) - 1], s[c - 1]))
      && less(s[u - 1], s[c - 1]))
    ensures Ordered(size, less, s)
  {
    hide Parent, Child;
    Parents(size, s);
    OnlyChildren(size, s, u, a, b);
    forall w | 2 <= w <= |s| ensures OkAt(size, less, s, w) {}
  }

  lemma StepDown<T(!new)>(size: nat, less: (T, T) -> bool, s: seq<T>, u: nat, a: nat, b: nat, c: nat)
    requires Fits(size, s) && StrictWeakOrder(less)
    requires 1 <= u <= |s| && u < a <= b && (a, b) == Child(size, u) && a <= |s|
    requires DownHole(size, less, s, u)
    requires c == a || (c == b && b <= |s|)
    requires b <= |s| ==> !less(s[(if c == a then b else a) - 1], s[c - 1])
    requires !less(s[u - 1], s[c - 1])
    ensures DownHole(size, less, Swapped(s, u, c), c)
  {
    hide Parent, Child;
    Parents(size, s);
    OnlyChildren(size, s, u, a, b);
    var t := Swapped(s, u, c);
    forall w | 2 <= w <= |t| && Parent(size, w) != c ensures OkAt(size, less, t, w) {
      if Parent(size, w) != u { assert OkAt(size, less, s, w); }
    }
    forall w | 2 <= w <= |t| && Parent(size, w) == c ensures !less(t[w - 1], t[Parent(size, c) - 1]) {
      assert OkAt(size, less, s, w);
    }
  }

  /** In an ordered heap no item is closer to the root than the root. */
  lemma {:induction false} RootIsLeast<T(!new)>(size: nat, less: (T, T) -> bool, s: seq<T>, u: nat)
    requires Fits(size, s) && StrictWeakOrder(less)
    requires Ordered(size, less, s)
    requires 1 <= u <= |s|
    ensures !less(s[u - 1], s[0])
  {
    hide Parent;
    if u > 1 {
      Parents(size, s);
      assert OkAt(size, less, s, u);
      RootIsLeast(size, less, s, Parent(size, u));
    }
  }
}
