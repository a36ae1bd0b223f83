/** The Huffman code of RFC 7541, appendix B, is one of the kind Huffman and HuffmanGen are about, so
    all that is proved there holds of the code as the source has it. */
module Rfc7541 {
  import opened Words
  import opened HpkInt
  import opened Bits
  import opened Huffman
  import opened HuffmanGen
  import opened HuffmanOrder

  // ------------------------------------------------ the codewords in order

  /** The length of codeword number `r`. */
  function L(r: nat): (n: nat)
    ensures 5 <= n <= 30
  {
    if r < 10 then 5
    else if r < 36 then 6
    else if r < 68 then 7
    else if r < 74 then 8
    else if r < 79 then 10
    else if r < 82 then 11
    else if r < 84 then 12
    else if r < 90 then 13
    else if r < 92 then 14
    else if r < 95 then 15
    else if r < 98 then 19
    else if r < 106 then 20
    else if r < 119 then 21
    else if r < 145 then 22
    else if r < 174 then 23
    else if r < 186 then 24
    else if r < 190 then 25
    else if r < 205 then 26
    else if r < 224 then 27
    else if r < 253 then 28
    else 30
  }

  lemma LengthsGrow(r: nat, s: nat)
    requires r <= s
    ensures L(r) <= L(s)
  {}

  function Step(r: nat): (n: nat)
    ensures n >= 1
  {
    Pow2(30 - L(r))
  }

  /** Where codeword number `r` starts, if every codeword takes up the words of thirty bits that it begins. */
  function P(r: nat): nat {
    if r == 0 then 0 else P(r - 1) + Step(r - 1)
  }

  /** Its bits as a number: one more than the codeword before, with zeros behind. */
  function V(r: nat): nat {
    if r == 0 then 0 else
      LengthsGrow(r - 1, r);
      Mul(V(r - 1) + 1, Pow2(L(r) - L(r - 1)))
  }

  lemma MulAssoc(a: nat, b: nat, c: nat)
    ensures Mul(a, Mul(b, c)) == Mul(Mul(a, b), c)
  {}

  lemma {:induction false} Starts(r: nat)
    ensures P(r) == Mul(V(r), Step(r))
  {
    hide Mul, Pow2, L;
    if r == 0 {
      assert Mul(0, Step(0)) == 0 by { MulNone(Step(0)); }
    } else {
      LengthsGrow(r - 1, r);
      Starts(r - 1);
      MulSucc(V(r - 1), Step(r - 1));
      Pow2Add(L(r) - L(r - 1), 30 - L(r));
      MulAssoc(V(r - 1) + 1, Pow2(L(r) - L(r - 1)), Step(r));
    }
  }

  lemma MulNone(d: nat)
    ensures Mul(0, d) == 0
  {}

  lemma {:induction false} StartsGrow(r: nat, s: nat)
    requires r <= s
    ensures P(r) <= P(s) && (r < s ==> P(r) + Step(r) <= P(s))
    decreases s
  {
    hide Step;
    if r < s { StartsGrow(r, s - 1); }
  }

  /** Over a stretch of codewords of one length. */
  lemma {:induction false} Stretch(r: nat, n: nat, len: nat)
    requires 5 <= len <= 30 && forall k :: r <= k < r + n ==> L(k) == len
    ensures P(r + n) == P(r) + Mul(n, Pow2(30 - len))
  {
    hide Mul, Pow2, L;
    if n == 0 {
      MulNone(Pow2(30 - len));
    } else {
      Stretch(r, n - 1, len);
      MulSucc(n - 1, Pow2(30 - len));
    }
  }

  lemma Powers()
    ensures Pow2(0) == 0x1 && Pow2(2) == 0x4 && Pow2(3) == 0x8 && Pow2(4) == 0x10 && Pow2(5) == 0x20 && Pow2(6) == 0x40
    ensures Pow2(7) == 0x80 && Pow2(8) == 0x100 && Pow2(9) == 0x200 && Pow2(10) == 0x400 && Pow2(11) == 0x800
    ensures Pow2(15) == 0x8000
    ensures Pow2(16) == 0x10000 && Pow2(17) == 0x20000 && Pow2(18) == 0x40000 && Pow2(19) == 0x80000
    ensures Pow2(20) == 0x100000 && Pow2(22) == 0x400000
    ensures Pow2(23) == 0x800000 && Pow2(24) == 0x1000000 && Pow2(25) == 0x2000000
  {
    assert Pow2(8) == 256;
    Pow2Add(8, 8);
    Pow2Add(2, 16);
    Pow2Add(3, 16);
    Pow2Add(4, 16);
    Pow2Add(6, 16);
    Pow2Add(7, 16);
    Pow2Add(8, 16);
    Pow2Add(9, 16);
  }

  /** Where the lengths change.  The codewords take up everything but the last word, thirty ones. */
  lemma Marks1()
    ensures P(10) == 0x14000000 && P(36) == 0x2e000000 && P(68) == 0x3e000000 && P(74) == 0x3f800000
    ensures P(79) == 0x3fd00000 && P(82) == 0x3fe80000 && P(84) == 0x3ff00000
  {
    hide P, Pow2;
    NoneYet();
    Powers();
    Stretch(0, 10, 5);
    Stretch(10, 26, 6);
    Stretch(36, 32, 7);
    Stretch(68, 6, 8);
    Stretch(74, 5, 10);
    Stretch(79, 3, 11);
    Stretch(82, 2, 12);
  }

  lemma Marks2()
    ensures P(90) == 0x3ffc0000 && P(92) == 0x3ffe0000 && P(95) == 0x3fff8000 && P(98) == 0x3fff9800
    ensures P(106) == 0x3fffb800 && P(119) == 0x3fffd200 && P(145) == 0x3fffec00
  {
    hide P, Pow2;
    Marks1();
    Powers();
    Stretch(84, 6, 13);
    Stretch(90, 2, 14);
    Stretch(92, 3, 15);
    Stretch(95, 3, 19);
    Stretch(98, 8, 20);
    Stretch(106, 13, 21);
    Stretch(119, 26, 22);
  }

  lemma Marks3()
    ensures P(174) == 0x3ffffa80 && P(186) == 0x3ffffd80 && P(190) == 0x3ffffe00 && P(205) == 0x3ffffef0
    ensures P(224) == 0x3fffff88 && P(253) == 0x3ffffffc && P(256) == 0x3fffffff
  {
    hide P, Pow2;
    Marks2();
    Powers();
    Stretch(145, 29, 23);
    Stretch(174, 12, 24);
    Stretch(186, 4, 25);
    Stretch(190, 15, 26);
    Stretch(205, 19, 27);
    Stretch(224, 29, 28);
    Stretch(253, 3, 30);
  }

  lemma NoneYet()
    ensures P(0) == 0
  {}

  // ------------------------------------------------ the numbers of the source

  /** The first of the codewords of `n` bits, by its place and by its number. */
  function First(n: nat): (r: (nat, nat)) {
    if n <= 5 then (0, 0x0)
    else if n == 6 then (10, 0x14)
    else if n == 7 then (36, 0x5c)
    else if n == 8 then (68, 0xf8)
    else if n == 10 then (74, 0x3f8)
    else if n == 11 then (79, 0x7fa)
    else if n == 12 then (82, 0xffa)
    else if n == 13 then (84, 0x1ff8)
    else if n == 14 then (90, 0x3ffc)
    else if n == 15 then (92, 0x7ffc)
    else if n == 19 then (95, 0x7fff0)
    else if n == 20 then (98, 0xfffe6)
    else if n == 21 then (106, 0x1fffdc)
    else if n == 22 then (119, 0x3fffd2)
    else if n == 23 then (145, 0x7fffd8)
    else if n == 24 then (174, 0xffffea)
    else if n == 25 then (186, 0x1ffffec)
    else if n == 26 then (190, 0x3ffffe0)
    else if n == 27 then (205, 0x7ffffde)
    else if n == 28 then (224, 0xfffffe2)
    else (253, 0x3ffffffc)
  }

  lemma Firsts1(n: nat)
    requires n == 5 || n == 6 || n == 7 || n == 8 || n == 10 || n == 11 || n == 12
    ensures V(First(n).0) == First(n).1
  {
    hide P, V, Pow2;
    NoneYet();
    Powers();
    Marks1();
    Starts(First(n).0);
  }

  lemma Firsts2(n: nat)
    requires n == 13 || n == 14 || n == 15 || n == 19 || n == 20 || n == 21 || n == 22
    ensures V(First(n).0) == First(n).1
  {
    hide P, V, Pow2;
    NoneYet();
    Powers();
    Marks2();
    Marks1();
    Starts(First(n).0);
  }

  lemma Firsts3(n: nat)
    requires n == 23 || n == 24 || n == 25 || n == 26 || n == 27 || n == 28 || n == 30
    ensures V(First(n).0) == First(n).1
  {
    hide P, V, Pow2;
    NoneYet();
    Powers();
    Marks3();
    Marks2();
    Starts(First(n).0);
  }

  /** Codewords of one length have numbers in a row. */
  lemma InARow(r: nat)
    requires r > 0 && L(r) == L(r - 1)
    ensures V(r) == V(r - 1) + 1
  {
    hide L;
    assert Pow2(0) == 1;
  }

  lemma {:induction false} Numbered(r: nat)
    requires r < 256
    ensures First(L(r)).0 <= r && V(r) == First(L(r)).1 + (r - First(L(r)).0)
  {
    hide V;
    if r == First(L(r)).0 {
      if r < 84 { Firsts1(L(r)); } else if r < 145 { Firsts2(L(r)); } else { Firsts3(L(r)); }
    } else {
      Numbered(r - 1);
      InARow(r);
    }
  }

  // ------------------------------------------------ bit strings as places in thirty bits

  function Ext(b: Bits): nat
    requires |b| <= 30
  {
    Mul(Val(b), Pow2(30 - |b|))
  }

  /** The first `k` bits of a string say which stretch of `Pow2(30 - k)` places it is in. */
  lemma Head(y: Bits, k: nat) returns (rem: nat)
    requires k <= |y| <= 30
    ensures rem < Pow2(30 - k) && Ext(y) == Mul(Val(y[..k]), Pow2(30 - k)) + rem
  {
    hide Val, Pow2;
    var a, b := y[..k], y[k..];
    var s, u := Pow2(30 - |y|), Pow2(|b|);
    assert y == a + b;
    ValCat(a, b);
    Pow2Add(|b|, 30 - |y|);
    rem := Mul(Val(b), s);
    MulParts(Val(a), u, Val(b), s);
    MulLess(Val(b), u, s);
  }

  lemma MulParts(a: nat, u: nat, b: nat, s: nat)
    ensures Mul(Mul(a, u) + b, s) == Mul(a, Mul(u, s)) + Mul(b, s)
  {}

  lemma MulLess(a: nat, b: nat, s: nat)
    requires a < b && s > 0
    ensures Mul(a, s) < Mul(b, s)
  {}

  /** A string lies in the stretch of `x` exactly when `x` is a prefix of it. */
  lemma InStretch(x: Bits, y: Bits)
    requires |x| <= |y| <= 30
    ensures Ext(x) <= Ext(y) < Ext(x) + Pow2(30 - |x|) <==> x <= y
    ensures Ext(x) + Pow2(30 - |x|) <= Ext(y) ==> LexLess(x, y)
  {
    hide Val, Pow2, Mul, LexLess;
    var k, s := |x|, Pow2(30 - |x|);
    var z := y[..k];
    var rem := Head(y, k);
    assert x <= y <==> z == x;
    MulSucc(Val(x), s);
    MulSucc(Val(z), s);
    if Val(x) < Val(z) {
      MulMono(Val(x) + 1, Val(z), s);
      LexOf(x, z);
      LexLonger(x, z, y);
    } else if Val(z) < Val(x) {
      MulMono(Val(z) + 1, Val(x), s);
    } else {
      ToBitsOfVal(x);
      ToBitsOfVal(z);
    }
  }

  lemma {:induction false} LexOf(x: Bits, z: Bits)
    requires |x| == |z| && Val(x) < Val(z)
    ensures LexLess(x, z)
  {
    var n := |x| - 1;
    var a, b := x[..n], z[..n];
    if Val(a) < Val(b) {
      LexOf(a, b);
      var i :| 0 <= i < |a| && i < |b| && a[..i] == b[..i] && !a[i] && b[i];
      assert x[..i] == a[..i] && z[..i] == b[..i];
    } else {
      ToBitsOfVal(a);
      ToBitsOfVal(b);
      assert x[..n] == z[..n];
    }
  }

  lemma LexLonger(x: Bits, z: Bits, y: Bits)
    requires LexLess(x, z) && z <= y
    ensures LexLess(x, y)
  {
    var i :| 0 <= i < |x| && i < |z| && x[..i] == z[..i] && !x[i] && z[i];
    assert y[..i] == z[..i] && y[i] == z[i];
  }

  // ------------------------------------------------ the code

  function WordAt(r: nat): (w: Bits)
    ensures |w| == L(r)
  {
    ToBits(V(r), L(r))
  }

  /** The code: the octets in the order of HuffmanOrder have the codewords in order. */
  function TheCode(): (code: Code)
    ensures |code| == 256
  {
    seq(256, c requires 0 <= c < 256 => WordAt(Rank(c)))
  }

  lemma Room(r: nat)
    requires r < 256
    ensures P(r) + Step(r) <= 0x3fff_ffff
  {
    hide P, Step;
    StartsGrow(r, 256);
    Marks3();
  }

  lemma ThirtyBits(r: nat)
    ensures Pow2(30) == 0x4000_0000 && Pow2(30) == Mul(Pow2(L(r)), Step(r))
  {
    hide Pow2, L;
    Pow2Add(L(r), 30 - L(r));
    Thirty();
  }

  lemma Thirty()
    ensures Pow2(30) == 0x4000_0000
  {
    assert Pow2(10) == 1024;
    Pow2Add(10, 10);
    Pow2Add(20, 10);
  }

  /** A codeword is its number, and not all ones. */
  lemma WordIs(r: nat)
    requires r < 256
    ensures Val(WordAt(r)) == V(r) && Ext(WordAt(r)) == P(r) && !AllOnes(WordAt(r))
  {
    hide Val, Pow2, Mul, P, V, L, AllOnes, ToBits;
    var n, s := Pow2(L(r)), Step(r);
    Starts(r);
    Room(r);
    ThirtyBits(r);
    MulSucc(V(r), s);
    if V(r) + 1 >= n {
      MulMono(n, V(r) + 1, s);
    }
    ValOfToBits(V(r), L(r));
    ValOnes(WordAt(r));
  }

  /** Codewords in order: the one with the smaller number comes first, and is no prefix. */
  lemma WordsApart(r: nat, s: nat)
    requires r < s < 256
    ensures LexLess(WordAt(r), WordAt(s)) && !(WordAt(r) <= WordAt(s)) && !(WordAt(s) <= WordAt(r))
  {
    hide P, V, L, Ext, LexLess, WordAt;
    LengthsGrow(r, s);
    WordIs(r);
    WordIs(s);
    StartsGrow(r, s);
    InStretch(WordAt(r), WordAt(s));
    assert WordAt(s) <= WordAt(r) ==> WordAt(s) == WordAt(r);
  }

  /** Every word but thirty ones begins with a codeword. */
  lemma Found(w: Bits) returns (r: nat)
    requires |w| == 30 && !AllOnes(w)
    ensures r < 256 && WordAt(r) <= w
  {
    hide P, L, V, WordAt, Val, Pow2, Mul, AllOnes;
    ValOnes(w);
    Thirty();
    Marks3();
    assert Ext(w) == Val(w) by { AtThirty(w); }
    NoneYet();
    r := Search(Val(w), 256);
    WordIs(r);
    InStretch(WordAt(r), w);
  }

  lemma AtThirty(w: Bits)
    requires |w| == 30
    ensures Ext(w) == Val(w)
  {
    hide Val;
    assert Pow2(0) == 1;
  }

  lemma {:induction false} Search(v: nat, n: nat) returns (r: nat)
    requires n > 0 && v < P(n)
    ensures r < n && P(r) <= v < P(r) + Step(r)
  {
    hide Step;
    if P(n - 1) <= v { r := n - 1; } else { r := Search(v, n - 1); }
  }

  // ------------------------------------------------ every codeword belongs to an octet

  lemma RanksDiffer(a: byte, b: byte)
    requires Rank(a) == Rank(b)
    ensures a == b
  {
    hide Rank, SymAt;
    AllUndone(a);
    AllUndone(b);
  }

  /** The ranks of the octets below `n`. */
  ghost function Taken(n: nat): set<nat>
    requires n <= 256
  {
    if n == 0 then {} else Taken(n - 1) + {Rank(n - 1) as nat}
  }

  lemma {:induction false} TakenBy(n: nat, r: nat)
    requires n <= 256
    ensures r in Taken(n) <==> exists c: byte :: c < n && Rank(c) == r
  {
    hide Rank;
    if n > 0 {
      TakenBy(n - 1, r);
      var last: byte := n - 1;
      assert r in Taken(n) <==> r in Taken(n - 1) || Rank(last) == r;
    }
  }

  lemma {:induction false} TakenSize(n: nat)
    requires n <= 256
    ensures |Taken(n)| == n
  {
    hide Rank;
    if n > 0 {
      TakenSize(n - 1);
      var last: byte := n - 1;
      TakenBy(n - 1, Rank(last));
      forall c: byte | c < n - 1 ensures Rank(c) != Rank(last) {
        if Rank(c) == Rank(last) { RanksDiffer(c, last); }
      }
    }
  }

  ghost function Below(n: nat): (s: set<nat>)
    ensures |s| == n && forall r :: r in s <==> 0 <= r < n
  {
    if n == 0 then {} else Below(n - 1) + {n - 1}
  }

  lemma {:induction false} SameSize(a: set<nat>, b: set<nat>)
    requires a <= b && |a| == |b|
    ensures a == b
  {
    if a != {} {
      var x :| x in a;
      SameSize(a - {x}, b - {x});
    }
  }

  lemma OctetOf(r: nat) returns (c: byte)
    requires r < 256
    ensures Rank(c) == r
  {
    hide Rank;
    TakenSize(256);
    forall x | x in Taken(256) ensures x in Below(256) {
      TakenBy(256, x);
    }
    SameSize(Taken(256), Below(256));
    TakenBy(256, r);
    c :| Rank(c) == r;
  }

  // ------------------------------------------------ a good code

  lemma AllCovered(w: Bits)
    requires |w| == EOS_LENGTH
    ensures Covered(TheCode(), w)
  {
    hide WordAt, Rank, AllOnes;
    if !AllOnes(w) {
      var r := Found(w);
      var c := OctetOf(r);
      assert TheCode()[c] <= w;
    }
  }

  lemma WordsInOrder(a: byte, b: byte)
    requires a != b
    ensures !(TheCode()[a] <= TheCode()[b])
    ensures |TheCode()[a]| < |TheCode()[b]| ==> LexLess(TheCode()[a], TheCode()[b])
  {
    hide WordAt, Rank, LexLess, L;
    if Rank(a) == Rank(b) { RanksDiffer(a, b); }
    if Rank(a) < Rank(b) {
      WordsApart(Rank(a), Rank(b));
    } else {
      WordsApart(Rank(b), Rank(a));
      LengthsGrow(Rank(b), Rank(a));
    }
  }

  /** The code of RFC 7541 is complete and prefix-free, with shorter codewords before longer ones. */
  lemma CodeIsGood()
    ensures GoodCode(TheCode())
  {
    hide WordAt, Rank, LexLess, L, AllOnes, Covered;
    var code := TheCode();
    forall c | 0 <= c < 256 ensures 5 <= |code[c]| <= EOS_LENGTH && !AllOnes(code[c]) {
      WordIs(Rank(c));
    }
    forall a, b | 0 <= a < 256 && 0 <= b < 256 && a != b
      ensures !(code[a] <= code[b]) && (|code[a]| < |code[b]| ==> LexLess(code[a], code[b]))
    {
      WordsInOrder(a, b);
    }
    forall w: Bits | |w| == EOS_LENGTH ensures Covered(code, w) {
      AllCovered(w);
    }
  }

  // ------------------------------------------------ and one the script can handle

  lemma LongOnes()
    ensures LongStartWithOne(TheCode())
  {
    hide WordAt, Rank, L, P, Pow2;
    var code := TheCode();
    forall c | 0 <= c < 256 && |code[c]| > 8 ensures code[c][0] {
      FromRank(Rank(c));
      High(Rank(c));
      StartsWithOnes(Rank(c), 1);
      assert code[c][0] == code[c][..1][0];
    }
  }

  lemma FromRank(r: nat)
    ensures L(r) > 8 ==> r >= 74
    ensures L(r) > 16 ==> r >= 95
    ensures L(r) > 24 ==> r >= 186
  {}

  /** How high up the longer codewords are. */
  lemma High(r: nat)
    ensures r >= 74 ==> P(r) >= Pow2(30) - Pow2(29)
    ensures r >= 78 ==> P(r) >= Pow2(30) - Pow2(22)
    ensures r >= 145 ==> P(r) >= Pow2(30) - Pow2(14)
  {
    hide P, L, Pow2, Step;
    Powers();
    Thirty();
    assert Pow2(29) == 0x2000_0000 by { Pow2Add(1, 29); assert Pow2(1) == 2 by { One(); } }
    assert Pow2(14) == 0x4000 by { Fourteen(); }
    Marks1();
    Marks2();
    if r >= 74 { StartsGrow(74, r); }
    if r >= 78 {
      FourMore();
      StartsGrow(78, r);
    }
    if r >= 145 { StartsGrow(145, r); }
  }

  lemma FourMore()
    ensures P(78) == P(74) + 4 * Pow2(20)
  {
    hide P, Pow2;
    Stretch(74, 4, 10);
  }

  lemma One()
    ensures Pow2(1) == 2
  {}

  lemma Fourteen()
    ensures Pow2(14) == 0x4000
  {
    Pow2Add(7, 7);
  }

  lemma StartsWithOnes(r: nat, k: nat)
    requires r < 256 && k <= L(r) && P(r) >= Pow2(30) - Pow2(30 - k)
    ensures WordAt(r)[..k] == Ones(k)
  {
    hide P, L, Pow2, Ext, WordAt, Ones;
    WordIs(r);
    OnesBefore(WordAt(r), k);
  }

  /** A string high up in the thirty bits starts with ones. */
  lemma OnesBefore(y: Bits, k: nat)
    requires k <= |y| <= 30 && Ext(y) >= Pow2(30) - Pow2(30 - k)
    ensures y[..k] == Ones(k)
  {
    hide Val, Pow2, Mul, Ext, Ones, AllOnes;
    var s := Pow2(30 - k);
    var rem := Head(y, k);
    Pow2Add(k, 30 - k);
    var v := Val(y[..k]);
    MulSucc(v, s);
    MulSucc(Pow2(k) - 1, s);
    if v + 1 < Pow2(k) { MulMono(v + 1, Pow2(k) - 1, s); }
    ValOnes(y[..k]);
    assert AllOnes(y[..k]);
    OnlyOnes(y[..k]);
  }

  lemma OnlyOnes(b: Bits)
    requires AllOnes(b)
    ensures b == Ones(|b|)
  {}

  lemma TableAt(c: byte, j: nat)
    requires 0 < j < |TheCode()[c]| && j % 8 == 0
    ensures HasTable(TheCode(), TheCode()[c][..j])
  {
    hide WordAt, Rank, L, P, Pow2, Ones;
    var code := TheCode();
    var r := Rank(c);
    if |code[c]| <= j + 8 {
      assert Pfx(code[c]) == code[c][..j];
    } else {
      FromRank(r);
      High(r);
      StartsWithOnes(r, j);
      Witness(if j == 8 then 78 else 145, j);
    }
  }

  /** Codeword number `r` ends in the table of `j` ones. */
  lemma Witness(r: nat, j: nat)
    requires (r == 78 && j == 8) || (r == 145 && j == 16)
    ensures HasTable(TheCode(), Ones(j))
  {
    hide WordAt, Rank, P, Pow2, Ones;
    var d := OctetOf(r);
    High(r);
    StartsWithOnes(r, j);
    assert Pfx(TheCode()[d]) == Ones(j);
  }

  /** The codeword of every octet has the number the source's table gives it. */
  lemma CodeNumbers(c: byte)
    ensures var w := TheCode()[c]; |w| == L(Rank(c)) && Val(w) == First(|w|).1 + (Rank(c) - First(|w|).0)
  {
    hide Val, V, L, First;
    WordIs(Rank(c));
    Numbered(Rank(c));
  }

  /** Octet `c` has the codeword `v` of `n` bits. */
  ghost predicate Coded(c: byte, v: nat, n: nat) { |TheCode()[c]| == n && Val(TheCode()[c]) == v }

  /** The codewords of "www.example.com" (appendix C.4.1 of RFC 7541). */
  lemma CodeExamples()
    ensures Coded(0x77, 0x78, 7) && Coded(0x2e, 0x17, 6) && Coded(0x65, 0x05, 5) && Coded(0x78, 0x79, 7)
    ensures Coded(0x61, 0x03, 5)
    ensures Coded(0x6d, 0x29, 6) && Coded(0x70, 0x2b, 6) && Coded(0x6c, 0x28, 6) && Coded(0x63, 0x04, 5)
    ensures Coded(0x6f, 0x07, 5)
  {
    hide TheCode, Val;
    CodedAs(0x77);
    CodedAs(0x2e);
    CodedAs(0x65);
    CodedAs(0x78);
    CodedAs(0x61);
    CodedAs(0x6d);
    CodedAs(0x70);
    CodedAs(0x6c);
    CodedAs(0x63);
    CodedAs(0x6f);
  }

  /** The longest, the octets 0x0a and 0x16, and one of each other kind. */
  lemma CodeEnds()
    ensures Coded(0x30, 0x00, 5) && Coded(0x00, 0x1ff8, 13) && Coded(0xff, 0x3ffffee, 26)
    ensures Coded(0x7f, 0xffffffc, 28) && Coded(0x0a, 0x3ffffffc, 30) && Coded(0x16, 0x3ffffffe, 30)
  {
    hide TheCode, Val;
    CodedAs(0x30);
    CodedAs(0x00);
    CodedAs(0xff);
    CodedAs(0x7f);
    CodedAs(0x0a);
    CodedAs(0x16);
  }

  lemma CodedAs(c: byte)
    ensures var n := L(Rank(c)); Coded(c, First(n).1 + (Rank(c) - First(n).0), n)
  {
    hide TheCode, Val, Rank, L, First;
    CodeNumbers(c);
  }

  lemma CodeIsStepped()
    ensures Stepped(TheCode())
  {
    hide WordAt, Rank, L, HasTable;
    var code := TheCode();
    forall c, j | 0 <= c < |code| && 0 < j < |code[c]| && j % 8 == 0 ensures HasTable(code, code[c][..j]) {
      TableAt(c, j);
    }
  }

  /** The tables the script makes of the code, and the round trip, with nothing left to suppose. */
  method DecodingTables() returns (tables: Tables)
    ensures TablesFor(TheCode(), tables)
    ensures forall s: seq<byte> :: Walk(tables, [], Unpack(HuffBytes(TheCode(), s))) == Chars(s)
  {
    hide GoodCode, Stepped, LongStartWithOne, TablesFor, Walk, HuffBytes, TheCode, TablesOk;
    CodeIsGood();
    CodeIsStepped();
    LongOnes();
    tables := Generate(TheCode());
    forall s: seq<byte>
      ensures TablesOk(tables) && [] in tables && Walk(tables, [], Unpack(HuffBytes(TheCode(), s))) == Chars(s)
    {
      TablesAre(TheCode(), tables);
      HuffRoundTrip(TheCode(), tables, s);
    }
  }

  lemma TablesAre(code: Code, tables: Tables)
    requires TablesFor(code, tables)
    ensures TablesOk(tables) && [] in tables
  {}
}
