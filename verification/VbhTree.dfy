/** Index arithmetic of the page-aware binary heap (lib/vbh.c, `parent` and `child`).

    The heap keeps subtrees inside one virtual-memory page, so the tree is not
    the usual `2u`, `2u+1` one.  The C code works on 32-bit unsigned words with
    masks; every page mask is a power of two minus one, so each bit operation
    has an exact arithmetic reading, given by the helper functions below. */
module VbhTree {
  import opened Words

  /** Bound asserted by VBH_new: a page is not larger than a row. */
  const MAX_SHIFT: nat := 19

  /** Slots per page: a power of two, at least four. */
  ghost predicate IsPageSize(size: nat) {
    size >= 4 && size == 2 * (size / 2) && exists k: nat :: k <= MAX_SHIFT && size == Pow2(k)
  }

  /** `(u & bit) != 0`, for `bit` a power of two */
  predicate HasBit(u: nat, bit: nat)
    requires bit > 0
  {
    Shr(u, bit) % 2 == 1
  }

  /** `u | bit`, for `bit` a power of two */
  function SetBit(u: nat, bit: nat): nat
    requires bit > 0
  {
    if HasBit(u, bit) then u else u + bit
  }

  function Parent(size: nat, u: nat): nat
    requires size >= 4
  {
    var po := LowBits(u, size);
    if u < size || po > 3 then
      HighBits(u, size) + po / 2
    else if po < 2 then
      var page := Shr(u - size, size);
      SetBit(U32(page + HighBits(page, size / 2)), size / 2)
    else
      u - 2
  }

  /** First child of a slot on the bottom row of a page, before truncation:
      each such slot owns the first two slots of a page of its own. */
  function BottomChild(size: nat, u: nat): nat
    requires size >= 4
  {
    Mul(HighBits(u, size) / 2 + LowBits(u, size / 2) + 1, size)
  }

  /** `u > mask && (u & (mask - 1)) == 0`: slots 0 and 1 of any page but the first. */
  predicate Magical(size: nat, u: nat)
    requires size >= 4
  {
    u > size - 1 && LowBits(u, size) - LowBits(u, 2) == 0
  }

  /** The children do not fit in an `unsigned`; `Child` then yields UINT_MAX. */
  predicate Clamped(size: nat, u: nat)
    requires size >= 4
  {
    !Magical(size, u) && HasBit(u, size / 2) && BottomChild(size, u) > UINT_MAX
  }

  function Child(size: nat, u: nat): (r: (nat, nat))
    requires size >= 4
  {
    if Magical(size, u) then
      (U32(u + 2), U32(u + 2))
    else if HasBit(u, size / 2) then
      var a := U32(BottomChild(size, u));
      if a == BottomChild(size, u) then (a, U32(a + 1)) else (UINT_MAX, UINT_MAX)
    else
      var a := U32(u + LowBits(u, size));
      (a, U32(a + 1))
  }

  /** The page sizes are the powers of two from four up to a row. */
  lemma PageSizes(k: nat)
    requires 2 <= k <= MAX_SHIFT
    ensures IsPageSize(Pow2(k))
  {
    var h := Pow2(k - 1);
    assert h == 2 * Pow2(k - 2);
    HalfOf(h);
    assert Pow2(k) == 2 * h;
  }

  lemma HalfOf(h: nat)
    ensures (2 * h) / 2 == h
  {}

  lemma SizeDivides(size: nat) returns (m: nat)
    requires IsPageSize(size)
    ensures Mul(m, size) == TWO32
  {
    var k: nat :| k <= MAX_SHIFT && size == Pow2(k);
    Pow2Of32();
    Pow2Add(32 - k, k);
    m := Pow2(32 - k);
  }

  /** Nothing inside the page of a 32-bit index lies beyond 32 bits. */
  lemma PageInRange(size: nat, q: nat, r: nat)
    requires IsPageSize(size)
    requires Mul(q, size) < TWO32
    requires r < size
    ensures Mul(q, size) + r < TWO32
  {
    hide Pow2, Mul;
    var m := SizeDivides(size);
    if m <= q { MulMono(m, q, size); }
    MulMono(q + 1, m, size);
    MulSucc(q, size);
  }

  // ------------------------------------------------ pages and offsets
  // Below, `q` is a page, `po` an offset in it, `h` half the page size.

  lemma ParentInside(size: nat, q: nat, po: nat)
    requires size >= 4 && po < size
    requires q == 0 || po >= 2
    ensures Parent(size, Mul(q, size) + po) == Mul(q, size) + (if q == 0 || po > 3 then po / 2 else po - 2)
  {
    BitsOf(q, size, po);
    NextPage(size, q);
    hide Pow2, Mul, LowBits, HighBits;
  }

  lemma NextPage(size: nat, q: nat)
    ensures q > 0 ==> Mul(q, size) >= size
    ensures q == 0 ==> Mul(q, size) == 0
  {}

  /** Doubling the part of a page number above half a page. */
  lemma Doubled(size: nat, h: nat, g: nat, r: nat)
    requires size == 2 * h && r < h
    ensures (Mul(g, h) + r) + HighBits(Mul(g, h) + r, h) == Mul(g, size) + r
    ensures !HasBit(Mul(g, size) + r, h)
  {
    hide Pow2, Mul, Shr, HighBits;
    BitsOf(g, h, r);
    MulTwice(g, h);
    BitsOf(2 * g, h, r);
  }

  /** The parent of slots 0 and 1 of page `g * h + r + 1` is slot `h + r` of page `g`. */
  lemma ParentAcross(size: nat, h: nat, g: nat, r: nat, po: nat)
    requires h >= 2 && size == 2 * h && r < h && po < 2
    requires Mul(Mul(g, h) + r, size) < TWO32
    ensures Parent(size, Mul(Mul(g, h) + r + 1, size) + po) == Mul(g, size) + h + r
  {
    hide Pow2, Mul, Shr, LowBits, HighBits, HasBit;
    var page := Mul(g, h) + r;
    BitsOf(page + 1, size, po);
    BitsOf(page, size, po);
    MulSucc(page, size);
    Doubled(size, h, g, r);
    MulTwice(page, h);
    MulTwice(g, h);
    MulGrows(page, h);
  }

  lemma MulGrows(a: nat, h: nat)
    requires h >= 1
    ensures Mul(a, h) >= a
  {}

  /** Bits of a slot on the upper rows of a page. */
  lemma UpperBits(size: nat, h: nat, q: nat, po: nat)
    requires h >= 2 && size == 2 * h && po < h
    ensures LowBits(Mul(q, size) + po, size) == po
    ensures !HasBit(Mul(q, size) + po, h)
  {
    hide Pow2, Mul, Shr, LowBits, HighBits;
    BitsOf(q, size, po);
    MulTwice(q, h);
    BitsOf(2 * q, h, po);
  }

  lemma LowestBit(size: nat, h: nat, q: nat, po: nat)
    requires size == 2 * h
    ensures LowBits(Mul(q, size) + po, 2) == po % 2
  {
    hide Pow2, Mul;
    MulTwice(q, h);
  }

  lemma ChildMagical(size: nat, q: nat, po: nat)
    requires IsPageSize(size)
    requires q > 0 && po < 2 && Mul(q, size) < TWO32
    ensures !Clamped(size, Mul(q, size) + po)
    ensures Child(size, Mul(q, size) + po) == (Mul(q, size) + po + 2, Mul(q, size) + po + 2)
  {
    hide Pow2, Mul, LowBits, HasBit, BottomChild;
    UpperBits(size, size / 2, q, po);
    LowestBit(size, size / 2, q, po);
    NextPage(size, q);
    PageInRange(size, q, po + 2);
  }

  lemma NotMagical(size: nat, q: nat, po: nat)
    requires IsPageSize(size) && po < size
    requires q == 0 || po >= 2
    ensures !Magical(size, Mul(q, size) + po)
  {
    hide Pow2, Mul, LowBits;
    BitsOf(q, size, po);
    LowestBit(size, size / 2, q, po);
    NextPage(size, q);
  }

  lemma ChildInside(size: nat, q: nat, po: nat)
    requires IsPageSize(size)
    requires po < size / 2 && Mul(q, size) < TWO32
    requires q == 0 || po >= 2
    ensures !Clamped(size, Mul(q, size) + po)
    ensures Child(size, Mul(q, size) + po) == (Mul(q, size) + 2 * po, Mul(q, size) + 2 * po + 1)
  {
    hide Pow2, Mul, LowBits, HasBit, BottomChild, Magical;
    NotMagical(size, q, po);
    UpperBits(size, size / 2, q, po);
    PageInRange(size, q, 2 * po + 1);
  }

  /** Slot `h + r` of page `q` owns page `q * h + r + 1`. */
  lemma BottomChildIs(size: nat, h: nat, q: nat, r: nat)
    requires h >= 2 && size == 2 * h && r < h
    ensures HasBit(Mul(q, size) + h + r, h)
    ensures BottomChild(size, Mul(q, size) + h + r) == Mul(Mul(q, h) + r + 1, size)
  {
    hide Pow2, Mul, Shr, LowBits, HighBits;
    var u := Mul(q, size) + h + r;
    assert u == Mul(q, size) + (h + r);
    BitsOf(q, size, h + r);
    MulTwice(q, h);
    MulSucc(2 * q, h);
    BitsOf(2 * q + 1, h, r);
  }

  lemma ChildBottom(size: nat, q: nat, r: nat)
    requires IsPageSize(size)
    requires r < size / 2
    ensures var h := size / 2; var a := Mul(Mul(q, h) + r + 1, size); var u := Mul(q, size) + h + r;
      && Clamped(size, u) == (a >= TWO32)
      && Child(size, u) == if a < TWO32 then (a, a + 1) else (UINT_MAX, UINT_MAX)
  {
    hide Pow2, Mul, LowBits, HasBit, BottomChild, Magical;
    NotMagical(size, q, size / 2 + r);
    BottomChildIs(size, size / 2, q, r);
    if Mul(Mul(q, size / 2) + r + 1, size) < TWO32 {
      PageInRange(size, Mul(q, size / 2) + r + 1, 1);
    }
  }

  lemma BelowOwnPage(size: nat, h: nat, g: nat, r: nat)
    requires h >= 2 && size == 2 * h && r < h
    ensures Mul(g, size) + h + r < Mul(Mul(g, h) + r + 1, size)
  {
    hide Pow2, Mul;
    var page := Mul(g, h) + r;
    MulSucc(page, size);
    MulTwice(page, h);
    MulGrows(page, h);
    MulTwice(g, h);
  }

  // ------------------------------------------------ parent and child are inverses

  /** `u` has a smaller, positive parent and is one of its children. */
  ghost predicate IsChildOfParent(size: nat, u: nat)
    requires size >= 4
  {
    var v := Parent(size, u);
    1 <= v < u && !Clamped(size, v) && (u == Child(size, v).0 || u == Child(size, v).1)
  }

  /** The children of `u` lie after it, fit in an `unsigned` and have `u` as
      their parent, unless they were clamped. */
  ghost predicate IsParentOfChildren(size: nat, u: nat)
    requires size >= 4
  {
    var c := Child(size, u);
    if Clamped(size, u) then c.0 == c.1 == UINT_MAX
    else u < c.0 <= c.1 <= UINT_MAX && Parent(size, c.0) == u && Parent(size, c.1) == u
  }

  lemma InsideIsChild(size: nat, q: nat, po: nat)
    requires IsPageSize(size) && po < size && Mul(q, size) < TWO32
    requires if q == 0 then po >= 2 else po > 3
    ensures IsChildOfParent(size, Mul(q, size) + po)
  {
    hide Pow2, Mul, Parent, Child, Clamped;
    ParentInside(size, q, po);
    ChildInside(size, q, po / 2);
  }

  lemma SecondRowIsChild(size: nat, q: nat, po: nat)
    requires IsPageSize(size) && 2 <= po < 4 && Mul(q, size) < TWO32 && q > 0
    ensures IsChildOfParent(size, Mul(q, size) + po)
  {
    hide Pow2, Mul, Parent, Child, Clamped;
    NextPage(size, q);
    ParentInside(size, q, po);
    ChildMagical(size, q, po - 2);
  }

  lemma PageTopIsChild(size: nat, q: nat, po: nat)
    requires IsPageSize(size)
    requires q > 0 && po < 2 && Mul(q, size) < TWO32
    ensures IsChildOfParent(size, Mul(q, size) + po)
  {
    hide Pow2, Mul, Parent, Child, Clamped;
    var h := size / 2;
    var g, r := Split(q - 1, h);
    MulMono(q - 1, q, size);
    ParentAcross(size, h, g, r, po);
    ChildBottom(size, g, r);
    BelowOwnPage(size, h, g, r);
  }

  /** Every slot but the root is one of the two children of its parent. */
  lemma ChildOfParent(size: nat, u: nat)
    requires IsPageSize(size)
    requires 2 <= u < UINT_MAX
    ensures IsChildOfParent(size, u)
  {
    hide Pow2, Mul, IsChildOfParent;
    var q, po := Split(u, size);
    NextPage(size, q);
    if q == 0 || po > 3 {
      InsideIsChild(size, q, po);
    } else if po >= 2 {
      SecondRowIsChild(size, q, po);
    } else {
      PageTopIsChild(size, q, po);
    }
  }

  lemma TopIsParent(size: nat, q: nat, po: nat)
    requires IsPageSize(size)
    requires q > 0 && po < 2 && Mul(q, size) < TWO32
    ensures IsParentOfChildren(size, Mul(q, size) + po)
  {
    hide Pow2, Mul, Parent, Child, Clamped;
    ChildMagical(size, q, po);
    ParentInside(size, q, po + 2);
    PageInRange(size, q, po + 2);
  }

  lemma InsideIsParent(size: nat, q: nat, po: nat)
    requires IsPageSize(size)
    requires 0 < po < size / 2 && Mul(q, size) < TWO32
    requires q == 0 || po >= 2
    ensures IsParentOfChildren(size, Mul(q, size) + po)
  {
    hide Pow2, Mul, Parent, Child, Clamped;
    ChildInside(size, q, po);
    ParentInside(size, q, 2 * po);
    ParentInside(size, q, 2 * po + 1);
    PageInRange(size, q, 2 * po + 1);
  }

  lemma BottomIsParent(size: nat, q: nat, r: nat)
    requires IsPageSize(size)
    requires r < size / 2
    ensures IsParentOfChildren(size, Mul(q, size) + size / 2 + r)
  {
    hide Pow2, Mul, Parent, Child, Clamped;
    var h := size / 2;
    var page := Mul(q, h) + r;
    ChildBottom(size, q, r);
    if Mul(page + 1, size) < TWO32 {
      BelowOwnPage(size, h, q, r);
      PageInRange(size, page + 1, 1);
      MulSucc(page, size);
      ParentAcross(size, h, q, r, 0);
      ParentAcross(size, h, q, r, 1);
    }
  }

  /** Each child of a slot has that slot as its parent. */
  lemma ParentOfChild(size: nat, u: nat)
    requires IsPageSize(size)
    requires 1 <= u < UINT_MAX
    ensures IsParentOfChildren(size, u)
  {
    hide Pow2, Mul, IsParentOfChildren;
    var q, po := Split(u, size);
    NextPage(size, q);
    if q > 0 && po < 2 {
      TopIsParent(size, q, po);
    } else if po < size / 2 {
      InsideIsParent(size, q, po);
    } else {
      var r := po - size / 2;
      assert r < size / 2 && u == Mul(q, size) + size / 2 + r;
      BottomIsParent(size, q, r);
    }
  }

  // ------------------------------------------------ what the pages are for

  /** The children of a slot on the upper half of its page are in that page; those of a slot on the lower half
      are the first two of a page. */
  ghost predicate KeepsToPage(size: nat, u: nat)
    requires size >= 4
  {
    var c := Child(size, u);
    if u % size < size / 2 then c.0 / size == c.1 / size == u / size
    else !Clamped(size, u) ==> c.0 % size == 0 && c.1 == c.0 + 1
  }

  lemma PageOf(size: nat, q: nat, po: nat)
    requires po < size
    ensures (Mul(q, size) + po) / size == q && (Mul(q, size) + po) % size == po
  {
    hide Mul;
    BitsOf(q, size, po);
  }

  lemma UpperKeepsToPage(size: nat, q: nat, po: nat)
    requires IsPageSize(size) && po < size / 2 && Mul(q, size) < TWO32
    ensures KeepsToPage(size, Mul(q, size) + po)
  {
    hide Pow2, Mul, Child, Clamped;
    PageOf(size, q, po);
    if q > 0 && po < 2 {
      ChildMagical(size, q, po);
      PageOf(size, q, po + 2);
    } else {
      ChildInside(size, q, po);
      PageOf(size, q, 2 * po);
      PageOf(size, q, 2 * po + 1);
    }
  }

  /** A way from the root to a slot enters a new page only below the lower half of the last one. */
  lemma StaysInPage(size: nat, u: nat)
    requires IsPageSize(size)
    requires u < UINT_MAX
    ensures KeepsToPage(size, u)
  {
    hide Pow2, Mul, Child, Clamped, KeepsToPage;
    var q, po := Split(u, size);
    if po < size / 2 {
      UpperKeepsToPage(size, q, po);
    } else {
      LowerKeepsToPage(size, q, po - size / 2);
    }
  }

  lemma LowerKeepsToPage(size: nat, q: nat, r: nat)
    requires IsPageSize(size) && r < size / 2
    ensures KeepsToPage(size, Mul(q, size) + (size / 2 + r))
  {
    hide Pow2, Mul, Child, Clamped;
    PageOf(size, q, size / 2 + r);
    ChildBottom(size, q, r);
    PageOf(size, Mul(q, size / 2) + r + 1, 0);
  }

  /** The way up from a slot: it ends at the root, so the slots form one tree. */
  ghost function Path(size: nat, u: nat): (p: seq<nat>)
    requires IsPageSize(size)
    requires 1 <= u < UINT_MAX
    ensures |p| > 0 && p[0] == u && p[|p| - 1] == 1
    ensures forall i :: 0 <= i < |p| ==> 1 <= p[i] <= u
    ensures forall i :: 0 <= i < |p| - 1 ==> p[i + 1] == Parent(size, p[i])
  {
    if u == 1 then [1] else ChildOfParent(size, u); [u] + Path(size, Parent(size, u))
  }
}
