/** The predictable random numbers of lib/vrnd.c: the generator of Park and Miller
    seeds an additive feedback generator kept in a ring. */
module Vrnd {
  import opened Words

  const M31: int := 0x7fff_ffff

  /** What an int32_t can hold. */
  predicate Int32(x: int) { -0x8000_0000 <= x <= 0x7fff_ffff }

  /** The next state of the generator of Park and Miller. */
  function ParkMiller(x: int): int { 16807 * x % M31 }

  /** Park and Miller's generator, moved from 1..2^31 - 2 to start at 0. */
  function Good(ctx: nat): (r: nat)
    ensures r <= 0x7fff_fffd
  {
    var x := ctx % 0x7fff_fffe + 1;
    Halves(x, x / 127773, x % 127773);
    ParkMiller(x) - 1
  }

  /** good_rand, with its 32-bit intermediate results. */
  method GoodRand(ctx: nat) returns (r: nat)
    requires ctx <= UINT_MAX
    ensures r == Good(ctx)
  {
    var x := ctx % 0x7fff_fffe + 1;
    assert Int32(x);
    var hi, lo := x / 127773, x % 127773;
    Halves(x, hi, lo);
    assert Int32(16807 * lo) && Int32(2836 * hi);
    x := 16807 * lo - 2836 * hi;
    assert Int32(x);
    if x < 0 {
      x := x + M31;
    }
    assert Int32(x);
    r := x - 1;
  }

  /** `16807 * x` and `16807 * lo - 2836 * hi` differ by a multiple of the modulus, and neither is one itself. */
  lemma Halves(x: int, hi: int, lo: int)
    requires 1 <= x < M31 && hi == x / 127773 && lo == x % 127773
    ensures 0 <= hi <= 16807 && 0 <= lo < 127773
    ensures var y := 16807 * lo - 2836 * hi; y != 0 && -M31 < y < M31 && ParkMiller(x) == if y < 0 then y + M31 else y
  {
    var y := 16807 * lo - 2836 * hi;
    assert x == 127773 * hi + lo;
    assert 16807 * x == M31 * hi + y;
    NotZero(hi, lo);
    if y < 0 {
      Remainder(16807 * x, hi - 1, y + M31);
    } else {
      Remainder(16807 * x, hi, y);
    }
  }

  lemma Remainder(a: int, q: int, r: int)
    requires 0 <= r < M31 && a == M31 * q + r
    ensures a % M31 == r
  {}

  /** 16807 and 2836 have no factor in common. */
  lemma NotZero(hi: int, lo: int)
    requires 0 <= hi <= 16807 && 0 <= lo && (hi != 0 || lo != 0) && (hi == 16807 ==> lo < 2836)
    ensures 16807 * lo != 2836 * hi
  {
    var k := INVERSE * lo - MULTIPLE * hi;
    assert 16807 * lo == 2836 * hi ==> hi == 16807 * k;
    assert 0 <= 16807 * k <= 16807 ==> k == 0 || k == 1;
  }

  /** 2836 * INVERSE == 1 + 16807 * MULTIPLE */
  const INVERSE: int := 5790
  const MULTIPLE: int := 977

  // ------------------------------------------------ the ring

  const DEG: nat := 31
  const SEP: nat := 3

  /** A run of the recurrence x[n] = x[n - 3] + x[n - 31] in 32 bits. */
  ghost predicate Recurs(x: seq<nat>, from: nat) {
    forall n :: from <= n < |x| && n >= DEG ==> x[n] == U32(x[n - SEP] + x[n - DEG])
  }

  function NextOf(x: seq<nat>): nat
    requires |x| >= DEG
  {
    U32(x[|x| - SEP] + x[|x| - DEG])
  }

  /** `n` more numbers. */
  function Extended(x: seq<nat>, n: nat): (r: seq<nat>)
    requires |x| >= DEG
    ensures |r| == |x| + n
  {
    if n == 0 then x else var y := Extended(x, n - 1); y + [NextOf(y)]
  }

  lemma {:induction false} ExtendedRecurs(x: seq<nat>, n: nat)
    requires |x| >= DEG
    ensures Recurs(Extended(x, n), |x|) && Extended(x, n)[..|x|] == x
  {
    hide U32;
    if n > 0 {
      ExtendedRecurs(x, n - 1);
    }
  }

  /** The ring in the order of age, oldest first, `f` being the oldest. */
  function Window(state: seq<nat>, f: nat): (w: seq<nat>)
    requires |state| == DEG && f < DEG
    ensures |w| == DEG
  {
    state[f..] + state[..f]
  }

  /** Writing over the oldest makes it the newest. */
  lemma WindowMoves(state: seq<nat>, f: nat, v: nat)
    requires |state| == DEG && f < DEG
    ensures Window(state[f := v], if f + 1 == DEG then 0 else f + 1) == Window(state, f)[1..] + [v]
  {}

  function Behind(f: nat): nat
    requires f < DEG
  {
    if f >= SEP then f - SEP else f + DEG - SEP
  }

  /** The fill of the table from a seed. */
  function Filled(x: nat, n: nat): (r: seq<nat>)
    requires 1 <= n
    ensures |r| == n
  {
    if n == 1 then [x]
    else var y := Filled(x, n - 1); y + [Good(y[n - 2])]
  }

  /** The recurrence in numbers. */
  lemma InNumbers(x: seq<nat>, n: nat, k: nat)
    requires |x| >= 31 && |x| <= k < |x| + n
    ensures var e := Extended(x, n); e[k] == (e[k - 3] + e[k - 31]) % 0x1_0000_0000
  {
    ExtendedRecurs(x, n);
  }

  /** The fill: the seed, and each number made of the one before. */
  lemma {:induction false} FilledIs(x: nat, n: nat, k: nat)
    requires 1 <= n && k < n
    ensures Filled(x, n)[0] == x && (k > 0 ==> Filled(x, n)[k] == Good(Filled(x, n)[k - 1]))
  {
    hide Good;
    if n > 1 { FilledIs(x, n - 1, if k < n - 1 then k else 0); }
  }

  /** And how, in numbers. */
  lemma GoodIs(ctx: nat)
    ensures Good(ctx) == 16807 * (ctx % 0x7fff_fffe + 1) % 0x7fff_ffff - 1
  {}

  class Generator {
    const state: array<nat>
    var fptr: nat
    var rptr: nat
    ghost var hist: seq<nat>      // every number the ring ever held, in order

    ghost predicate Valid()
      reads this, state
    {
      && state.Length == DEG && fptr < DEG && rptr == Behind(fptr)
      && (forall i :: 0 <= i < DEG ==> state[i] <= UINT_MAX)
      && |hist| >= DEG && hist[|hist| - DEG..] == Window(state[..], fptr)
    }

    /** A generator whose table holds `table`. */
    constructor (table: seq<nat>)
      requires |table| == DEG && forall i :: 0 <= i < DEG ==> table[i] <= UINT_MAX
      ensures Valid() && fresh(state) && hist == Window(table, SEP)
    {
      state := new nat[DEG](i requires 0 <= i < DEG => table[i]);
      fptr, rptr, hist := SEP, 0, Window(table, SEP);
      new;
      assert state[..] == table;
      assert hist[0..] == hist;
    }

    /** vrnd_RandomTestable: the next number of the recurrence, less its lowest bit. */
    method Random() returns (r: nat)
      requires Valid()
      modifies `fptr, `rptr, `hist, state
      ensures Valid() && hist == old(hist) + [NextOf(old(hist))] && r == hist[|hist| - 1] / 2
    {
      hide U32, Window;
      var f, p := fptr, rptr;
      ghost var before := state[..];
      Operands(hist, before, f);
      var v := U32(state[f] + state[p]);
      WindowMoves(before, f, v);
      Fits(state[f] + state[p]);
      state[f] := v;
      r := v / 2;
      assert state[..] == before[f := v];
      f := f + 1;
      if f >= DEG {
        f := 0;
        p := p + 1;
      } else {
        p := p + 1;
        if p >= DEG {
          p := 0;
        }
      }
      fptr, rptr := f, p;
      Shifted(hist, v);
      hist := hist + [v];
    }

    /** The first loop of VRND_SeedTestable. */
    method Fill(x: nat)
      requires Valid() && x <= UINT_MAX
      modifies state
      ensures state[..] == Filled(x, DEG) && forall j :: 0 <= j < DEG ==> state[j] <= UINT_MAX
    {
      hide Good, Window;
      state[0] := x;
      assert state[..1] == Filled(x, 1);
      var i := 1;
      while i < DEG
        invariant 1 <= i <= DEG && state[..i] == Filled(x, i)
        invariant forall j :: 0 <= j < DEG ==> state[j] <= UINT_MAX
      {
        var g := GoodRand(state[i - 1]);
        assert state[i - 1] == state[..i][i - 1];
        state[i] := g;
        assert state[..i + 1] == state[..i] + [g];
        i := i + 1;
      }
      assert state[..] == state[..DEG];
    }

    /** VRND_SeedTestable: everything that follows is determined by the seed. */
    method Seed(x: nat)
      requires Valid() && x <= UINT_MAX
      modifies `fptr, `rptr, `hist, state
      ensures Valid() && hist == Extended(Window(Filled(x, DEG), SEP), 10 * DEG)
    {
      hide Good, Filled, Extended, NextOf;
      Fill(x);
      fptr, rptr := SEP, 0;
      hist := Window(state[..], SEP);
      assert hist[0..] == hist;
      ghost var start := hist;
      ExtendedNone(start);
      var i := 0;
      while i < 10 * DEG
        invariant 0 <= i <= 10 * DEG && Valid() && hist == Extended(start, i)
      {
        var r := Random();
        ExtendedMore(start, i);
        i := i + 1;
      }
    }
  }

  /** The two pointers are at the numbers the recurrence adds. */
  lemma Operands(h: seq<nat>, state: seq<nat>, f: nat)
    requires |state| == DEG && f < DEG && |h| >= DEG && h[|h| - DEG..] == Window(state, f)
    ensures h[|h| - DEG] == state[f] && h[|h| - SEP] == state[Behind(f)]
  {
    assert h[|h| - DEG] == h[|h| - DEG..][0] && h[|h| - SEP] == h[|h| - DEG..][DEG - SEP];
  }

  lemma ExtendedNone(x: seq<nat>)
    requires |x| >= DEG
    ensures Extended(x, 0) == x
  {}

  lemma ExtendedMore(x: seq<nat>, n: nat)
    requires |x| >= DEG
    ensures Extended(x, n + 1) == Extended(x, n) + [NextOf(Extended(x, n))]
  {}

  lemma Fits(n: nat)
    ensures U32(n) <= UINT_MAX
  {}

  lemma Shifted(h: seq<nat>, v: nat)
    requires |h| >= DEG
    ensures (h + [v])[|h| + 1 - DEG..] == h[|h| - DEG..][1..] + [v]
  {}
}
