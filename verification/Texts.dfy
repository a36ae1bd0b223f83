/** Texts with a NUL behind them, and words in them. */
module Texts {
  import opened Words

  function At(t: seq<byte>, i: nat): byte {
    if i < |t| then t[i] else 0
  }

  /** `w` stands in `t` at `i`. */
  predicate Spells(t: seq<byte>, i: nat, w: seq<byte>) {
    i + |w| <= |t| && t[i..i + |w|] == w
  }

  lemma SpellsCat(t: seq<byte>, i: nat, a: seq<byte>, b: seq<byte>)
    ensures Spells(t, i, a + b) <==> Spells(t, i, a) && Spells(t, i + |a|, b)
  {
    if i + |a| + |b| <= |t| {
      var w := t[i..i + |a| + |b|];
      assert w[..|a|] == t[i..i + |a|] && w[|a|..] == t[i + |a|..i + |a| + |b|];
      assert (a + b)[..|a|] == a && (a + b)[|a|..] == b;
      assert w == w[..|a|] + w[|a|..];
    }
  }

  lemma SpellsAt(t: seq<byte>, i: nat, w: seq<byte>, k: nat)
    requires Spells(t, i, w) && k < |w|
    ensures At(t, i + k) == w[k]
  {
    assert t[i + k] == t[i..i + |w|][k];
  }

  lemma SpellsOne(t: seq<byte>, i: nat, c: byte)
    requires c != 0
    ensures Spells(t, i, [c]) <==> At(t, i) == c
  {}

  lemma SpellsFits(t: seq<byte>, i: nat, w: seq<byte>)
    requires Spells(t, i, w)
    ensures i + |w| <= |t|
  {}

  lemma SpelledMore(t: seq<byte>, p: nat, w: seq<byte>, i: nat)
    requires i < |w| && p + i < |t| && t[p..p + i] == w[..i] && t[p + i] == w[i]
    ensures t[p..p + i + 1] == w[..i + 1]
  {
    assert t[p..p + i + 1] == t[p..p + i] + [t[p + i]];
    assert w[..i + 1] == w[..i] + [w[i]];
  }

  lemma SpelledAt(t: seq<byte>, i: nat, w: seq<byte>, j: int)
    ensures Spells(t, i, w) && i <= j < i + |w| ==> At(t, j) == w[j - i]
  {
    if Spells(t, i, w) && i <= j < i + |w| { SpellsAt(t, i, w, j - i); }
  }

  lemma NotSpelled(t: seq<byte>, p: nat, w: seq<byte>, i: nat)
    requires i < |w|
    ensures Spells(t, p, w) ==> At(t, p + i) == w[i]
  {
    if Spells(t, p, w) { assert t[p + i] == t[p..p + |w|][i]; }
  }
}
