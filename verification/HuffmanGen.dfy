/** The generator of the decoding tables (src/huffman_gen.py).

    A dictionary of tables, keyed by the bits that lead to them, is filled from the
    list of codewords; each table is then widened to its longest entry, sorted and
    written out.  The integer keys of the script are kept here as the bit
    strings they are the values of. */
module HuffmanGen {
  import opened Options
  import opened Words
  import opened HpkInt
  import opened Bits
  import opened Huffman

  /** The part of an `n`-bit codeword that leads to its table: all but the last one to eight bits. */
  function PrefixLength(n: nat): (k: nat)
    requires n > 0
    ensures k % 8 == 0 && k < n <= k + 8
  {
    n - if n % 8 != 0 then n % 8 else 8
  }

  function Pfx(b: Bits): Bits
    requires b != []
  {
    b[..PrefixLength(|b|)]
  }

  /** Every step of eight bits into a codeword meets a table with a codeword ending in it.
      The script links a table only from such a codeword. */
  ghost predicate Stepped(code: Code) {
    forall c, j :: 0 <= c < |code| && 0 < j < |code[c]| && j % 8 == 0 ==> HasTable(code, code[c][..j])
  }

  ghost predicate HasTable(code: Code, p: Bits) {
    exists d :: 0 <= d < |code| && code[d] != [] && Pfx(code[d]) == p
  }

  /** Codewords that need a second table start with a one, so that the number of their
      prefix is not zero, which the script takes for the root. */
  ghost predicate LongStartWithOne(code: Code) {
    forall c :: 0 <= c < |code| && |code[c]| > 8 ==> code[c][0]
  }

  type Entries = map<Bits, Sym>
  type Dict = map<Bits, Entries>

  /** The entry for the bits `y`, counted from the root. */
  function At(d: Dict, y: Bits): Option<Sym>
    requires y != []
  {
    var p := Pfx(y);
    if p in d && y[|p|..] in d[p] then Some(d[p][y[|p|..]]) else None
  }

  function Put(d: Dict, y: Bits, s: Sym): Dict
    requires y != []
  {
    var p := Pfx(y);
    d[p := (if p in d then d[p] else map[])[y[|p|..] := s]]
  }

  /** Every table has entries, each in the table its bits belong to. */
  ghost predicate InPlace(d: Dict) {
    && (forall p, x :: p in d && x in d[p] ==> x != [] && Pfx(p + x) == p)
    && (forall p :: p in d ==> d[p] != map[])
  }

  lemma PutThere(d: Dict, y: Bits, s: Sym)
    requires y != [] && InPlace(d)
    ensures InPlace(Put(d, y, s))
    ensures forall z :: z != [] ==> At(Put(d, y, s), z) == if z == y then Some(s) else At(d, z)
  {
    var p := Pfx(y);
    assert y == p + y[|p|..];
    forall z | z != [] && z != y ensures At(Put(d, y, s), z) == At(d, z) {
      var q := Pfx(z);
      assert z == q + z[|q|..];
    }
    var e := Put(d, y, s);
    assert y[|p|..] in e[p];
  }

  // ------------------------------------------------ filling the dictionary

  /** A leaf for each of the first `n` codewords, a link to the table of each of
      the first `m`, and nothing else. */
  ghost predicate Filled(code: Code, n: nat, m: nat, d: Dict)
    requires GoodCode(code) && n <= 256 && m <= 256
  {
    && InPlace(d)
    && (forall c :: 0 <= c < n ==> At(d, code[c]) == Some(Leaf(c, LastPart(code[c]))))
    && (forall c :: 0 <= c < m && Pfx(code[c]) != [] ==> At(d, Pfx(code[c])) == Some(Escape(8)))
    && (forall y :: y != [] && At(d, y).Some? ==> Wanted(code, n, m, y))
  }

  function LastPart(b: Bits): (r: nat)
    requires b != []
    ensures 1 <= r <= 8
  {
    |b| - PrefixLength(|b|)
  }

  ghost predicate Wanted(code: Code, n: nat, m: nat, y: Bits)
    requires GoodCode(code) && n <= 256 && m <= 256
  {
    || (exists c :: 0 <= c < n && code[c] == y)
    || (exists c :: 0 <= c < m && Pfx(code[c]) == y)
  }

  /** No codeword is where a link belongs. */
  lemma NotALink(code: Code, c: nat, e: nat)
    requires GoodCode(code) && c < 256 && e < 256
    ensures code[c] != Pfx(code[e])
  {
    assert Pfx(code[e]) <= code[e] && |Pfx(code[e])| < |code[e]|;
  }

  lemma FillLeaf(code: Code, n: nat, d: Dict)
    requires GoodCode(code) && n < 256 && Filled(code, n, n, d)
    ensures Filled(code, n + 1, n, Put(d, code[n], Leaf(n, LastPart(code[n]))))
  {
    hide At, Put, InPlace, Pfx, LastPart;
    var e := Put(d, code[n], Leaf(n, LastPart(code[n])));
    PutThere(d, code[n], Leaf(n, LastPart(code[n])));
    forall c | 0 <= c < n && Pfx(code[c]) != [] ensures At(e, Pfx(code[c])) == Some(Escape(8)) {
      NotALink(code, n, c);
    }
    forall c | 0 <= c < n ensures At(e, code[c]) == Some(Leaf(c, LastPart(code[c]))) {
      assert !(code[c] <= code[n]);
    }
  }

  lemma FillLink(code: Code, n: nat, d: Dict)
    requires GoodCode(code) && n < 256 && Filled(code, n + 1, n, d)
    ensures var p := Pfx(code[n]); Filled(code, n + 1, n + 1, if p == [] then d else Put(d, p, Escape(8)))
  {
    hide At, Put, InPlace, Pfx, LastPart;
    var p := Pfx(code[n]);
    if p != [] {
      var e := Put(d, p, Escape(8));
      PutThere(d, p, Escape(8));
      forall c | 0 <= c < n + 1 ensures At(e, code[c]) == Some(Leaf(c, LastPart(code[c]))) {
        NotALink(code, c, n);
      }
    }
  }

  /** A table's prefix is zero as a number only if it is the root's. */
  lemma {:induction false} LeadingOne(p: Bits)
    requires p != [] && p[0]
    ensures Val(p) > 0
  {
    if |p| > 1 { LeadingOne(p[..|p| - 1]); }
  }

  /** The first loop of the script, and the entry it adds for EOS. */
  method Fill(code: Code) returns (d: Dict)
    requires GoodCode(code) && LongStartWithOne(code)
    ensures exists e :: Filled(code, 256, 256, e) && d == Put(e, Ones(EOS_LENGTH), Leaf(0, 6))
  {
    hide GoodCode, Filled, Put;
    d := map[];
    FilledNone(code);
    var n := 0;
    while n < 256
      invariant 0 <= n <= 256 && Filled(code, n, n, d)
    {
      FillLeaf(code, n, d);
      Lengths(code, n);
      d := Put(d, code[n], Leaf(n, LastPart(code[n])));
      FillLink(code, n, d);
      var p := Pfx(code[n]);
      if Val(p) != 0 {
        d := Put(d, p, Escape(8));
      }
      n := n + 1;
    }
    d := Put(d, Ones(EOS_LENGTH), Leaf(0, 6));
  }

  lemma FilledNone(code: Code)
    requires GoodCode(code)
    ensures Filled(code, 0, 0, map[])
  {}

  lemma Lengths(code: Code, n: nat)
    requires GoodCode(code) && LongStartWithOne(code) && n < 256
    ensures |code| == 256 && code[n] != []
    ensures Val(Pfx(code[n])) != 0 <==> Pfx(code[n]) != []
  {
    var p := Pfx(code[n]);
    if p != [] { LeadingOne(p); }
  }

  // ------------------------------------------------ writing out one table

  /** The number of indices of a table `m` bits wide that begin with the bits `x`. */
  function Size(x: Bits, m: nat): (r: nat)
    ensures r >= 1
  {
    Pow2(if |x| <= m then m - |x| else 0)
  }

  /** The value of an entry, shifted up to the width of the table. */
  function Start(x: Bits, m: nat): nat {
    Mul(Val(x), Size(x, m))
  }

  /** Index `i` begins with the bits `x`. */
  ghost predicate Begins(x: Bits, m: nat, i: nat) {
    Start(x, m) <= i < Start(x, m) + Size(x, m)
  }

  lemma BeginsIsPrefix(x: Bits, w: Bits)
    requires |x| <= |w|
    ensures Begins(x, |w|, Val(w)) <==> x <= w
  {
    hide Pow2, Mul, Val, Shr, LowBits, HighBits;
    var a, b := w[..|x|], w[|x|..];
    assert w == a + b;
    ValCat(a, b);
    if Begins(x, |w|, Val(w)) {
      BitsOf(Val(a), Size(x, |w|), Val(b));
      BitsOf(Val(x), Size(x, |w|), Val(w) - Start(x, |w|));
      SameValue(a, x);
    } else {
      assert x <= w ==> a == x;
    }
  }

  lemma SameValue(a: Bits, b: Bits)
    requires |a| == |b| && Val(a) == Val(b)
    ensures a == b
  {
    ToBitsOfVal(a);
    ToBitsOfVal(b);
  }

  lemma BeginsInTable(x: Bits, m: nat)
    requires |x| <= m
    ensures Start(x, m) + Size(x, m) <= Pow2(m)
  {
    hide Pow2, Val, Mul;
    Pow2Add(|x|, m - |x|);
    MulMono(Val(x) + 1, Pow2(|x|), Pow2(m - |x|));
    MulSucc(Val(x), Pow2(m - |x|));
  }

  ghost predicate SomeEntry(e: Entries, m: nat, i: nat) {
    exists x :: x in e && Begins(x, m, i)
  }

  /** Every index of the table begins with exactly one entry. */
  ghost predicate Tiles(e: Entries, m: nat) {
    && (forall x :: x in e ==> |x| <= m)
    && (forall i :: 0 <= i < Pow2(m) ==> SomeEntry(e, m, i))
    && (forall i, x, y :: x in e && y in e && Begins(x, m, i) && Begins(y, m, i) ==> x == y)
  }

  /** All entries of `left` lie from the end of `syms` on; the others are written out. */
  ghost predicate WrittenTo(e: Entries, m: nat, left: set<Bits>, syms: seq<Sym>) {
    && left <= e.Keys && |syms| <= Pow2(m)
    && (forall x :: x in left ==> Start(x, m) >= |syms|)
    && (forall x :: x in e && x !in left ==> Start(x, m) + Size(x, m) <= |syms|)
    && (forall x, i :: x in e && 0 <= i < |syms| && Begins(x, m, i) ==> syms[i] == e[x])
  }

  function Copies(s: Sym, n: nat): (r: seq<Sym>)
    ensures |r| == n && forall i :: 0 <= i < n ==> r[i] == s
  {
    seq(n, _ => s)
  }

  /** The lowest entry left starts where the output ends. */
  lemma NoGap(e: Entries, m: nat, left: set<Bits>, syms: seq<Sym>, x: Bits)
    requires Tiles(e, m) && WrittenTo(e, m, left, syms)
    requires x in left && forall y :: y in left ==> Start(x, m) <= Start(y, m)
    ensures Start(x, m) == |syms|
  {
    hide Pow2, Start, Size;
    BeginsInTable(x, m);
    assert SomeEntry(e, m, |syms|);
    var y :| y in e && Begins(y, m, |syms|);
    assert y in left;
  }

  lemma WriteOne(e: Entries, m: nat, left: set<Bits>, syms: seq<Sym>, x: Bits)
    requires Tiles(e, m) && WrittenTo(e, m, left, syms)
    requires x in left && Start(x, m) == |syms|
    ensures WrittenTo(e, m, left - {x}, syms + Copies(e[x], Size(x, m)))
  {
    hide Pow2, Start, Size;
    BeginsInTable(x, m);
    var out := syms + Copies(e[x], Size(x, m));
    forall y | y in left && y != x ensures Start(y, m) >= |out| {
      assert Begins(y, m, Start(y, m));
      assert !Begins(x, m, Start(y, m));
    }
    forall y, i | y in e && 0 <= i < |out| && Begins(y, m, i) ensures out[i] == e[y] {
      if i >= |syms| { assert Begins(x, m, i); }
    }
  }

  lemma AllWritten(e: Entries, m: nat, syms: seq<Sym>)
    requires Tiles(e, m) && WrittenTo(e, m, {}, syms)
    ensures |syms| == Pow2(m)
  {
    hide Pow2, Start, Size;
    assert SomeEntry(e, m, |syms|) ==> |syms| < |syms|;
  }

  lemma {:induction false} LowestExists(left: set<Bits>, m: nat)
    requires left != {}
    ensures exists x :: x in left && forall y :: y in left ==> Start(x, m) <= Start(y, m)
  {
    hide Start;
    var z :| z in left;
    if left == {z} {
    } else {
      LowestExists(left - {z}, m);
      var x :| x in left - {z} && forall y :: y in left - {z} ==> Start(x, m) <= Start(y, m);
      assert if Start(z, m) < Start(x, m) then forall y :: y in left ==> Start(z, m) <= Start(y, m)
             else forall y :: y in left ==> Start(x, m) <= Start(y, m);
    }
  }

  ghost predicate IsWidth(e: Entries, m: nat) {
    (forall x :: x in e ==> |x| <= m) && exists x :: x in e && |x| == m
  }

  /** The length of the longest entry. */
  method Widest(e: Entries) returns (m: nat)
    requires e != map[]
    ensures IsWidth(e, m)
  {
    var left := e.Keys;
    var z :| z in left;
    left, m := left - {z}, |z|;
    while left != {}
      invariant left <= e.Keys
      invariant forall x :: x in e && x !in left ==> |x| <= m
      invariant exists x :: x in e && |x| == m
    {
      var x :| x in left;
      left := left - {x};
      if |x| > m {
        m := |x|;
      }
    }
  }

  /** One round of the second loop of the script: the entries in order of their shifted
      value, each as often as there are indices that begin with it. */
  method WriteTable(e: Entries, m: nat) returns (t: Tbl)
    requires Tiles(e, m)
    ensures t.msk == m && |t.syms| == Pow2(m)
    ensures forall x, i :: x in e && 0 <= i < |t.syms| && Begins(x, m, i) ==> t.syms[i] == e[x]
  {
    hide Tiles, WrittenTo, Start, Size, Begins;
    var left, syms := e.Keys, [];
    NoneWritten(e, m);
    while left != {}
      invariant left <= e.Keys && WrittenTo(e, m, left, syms)
    {
      LowestExists(left, m);
      var x :| x in left && forall y :: y in left ==> Start(x, m) <= Start(y, m);
      NoGap(e, m, left, syms, x);
      WriteOne(e, m, left, syms, x);
      syms := syms + Copies(e[x], Size(x, m));
      left := left - {x};
    }
    AllWritten(e, m, syms);
    WrittenAt(e, m, syms);
    t := Tbl(m, syms);
  }

  lemma NoneWritten(e: Entries, m: nat)
    requires Tiles(e, m)
    ensures WrittenTo(e, m, e.Keys, [])
  {}

  lemma WrittenAt(e: Entries, m: nat, syms: seq<Sym>)
    requires WrittenTo(e, m, {}, syms)
    ensures forall x, i :: x in e && 0 <= i < |syms| && Begins(x, m, i) ==> syms[i] == e[x]
  {}

  // ------------------------------------------------ the tables tile

  /** The finished dictionary: a leaf for each codeword and for EOS, a link to each table. */
  ghost predicate Complete(code: Code, d: Dict)
    requires GoodCode(code)
  {
    && InPlace(d)
    && (forall c :: 0 <= c < 256 ==> At(d, code[c]) == Some(Leaf(c, LastPart(code[c]))))
    && (forall c :: 0 <= c < 256 && Pfx(code[c]) != [] ==> At(d, Pfx(code[c])) == Some(Escape(8)))
    && (forall y :: IsEos(y) ==> At(d, y) == Some(Leaf(0, 6)))
    && (forall y :: y != [] && At(d, y).Some? ==> Wanted(code, 256, 256, y) || IsEos(y))
  }

  lemma FilledIsComplete(code: Code, e: Dict)
    requires GoodCode(code) && Filled(code, 256, 256, e)
    ensures Complete(code, Put(e, Ones(EOS_LENGTH), Leaf(0, 6)))
  {
    hide At, Put, InPlace, LastPart;
    var y := Ones(EOS_LENGTH);
    PutThere(e, y, Leaf(0, 6));
    assert forall z :: IsEos(z) ==> z == y;
  }

  /** A codeword, or EOS. */
  ghost predicate IsWord(code: Code, z: Bits) {
    IsEos(z) || exists c :: 0 <= c < |code| && code[c] == z
  }

  /** One word is never a proper prefix of another. */
  lemma WordsApart(code: Code, z: Bits, z': Bits)
    requires GoodCode(code) && IsWord(code, z) && IsWord(code, z') && z <= z'
    ensures z == z'
  {
    if !IsEos(z) {
      var c :| 0 <= c < 256 && code[c] == z;
      assert IsEos(z') ==> AllOnes(z);
    }
  }

  /** The bits of every entry lead to a word. */
  lemma EntryLeads(code: Code, d: Dict, y: Bits) returns (z: Bits)
    requires GoodCode(code) && Complete(code, d) && y != [] && At(d, y).Some?
    ensures IsWord(code, z) && y <= z && |z| <= EOS_LENGTH
    ensures y == z || (|y| % 8 == 0 && At(d, y) == Some(Escape(8)))
  {
    hide At, InPlace, LastPart;
    if IsEos(y) {
      z := y;
    } else if exists c :: 0 <= c < 256 && code[c] == y {
      z := y;
    } else {
      var c :| 0 <= c < 256 && Pfx(code[c]) == y;
      z := code[c];
    }
  }

  /** What an entry of table `p` looks like. */
  lemma EntryShape(code: Code, d: Dict, p: Bits, x: Bits)
    requires GoodCode(code) && Complete(code, d) && p in d && x in d[p]
    ensures |p| % 8 == 0 && 1 <= |x| <= 8 && |p| + |x| <= EOS_LENGTH
    ensures p + x != [] && At(d, p + x) == Some(d[p][x])
  {
    assert Pfx(p + x) == p;
    assert (p + x)[|p|..] == x;
    var z := EntryLeads(code, d, p + x);
  }

  /** Two entries of a table are never one the beginning of the other. */
  lemma EntriesApart(code: Code, d: Dict, p: Bits, x: Bits, y: Bits)
    requires GoodCode(code) && Complete(code, d) && p in d && x in d[p] && y in d[p]
    requires x <= y
    ensures x == y
  {
    hide GoodCode, Complete, IsWord, At;
    EntryShape(code, d, p, x);
    EntryShape(code, d, p, y);
    var z := EntryLeads(code, d, p + x);
    var z' := EntryLeads(code, d, p + y);
    if p + x == z {
      WordsApart(code, z, z');
      assert |p + x| == |p + y|;
    } else {
      assert |x| == 8;
    }
  }

  /** A table lies on the way to some word, so no word ends before it. */
  lemma WordsEndBelow(code: Code, d: Dict, p: Bits, c: nat, u: Bits)
    requires GoodCode(code) && Complete(code, d) && p in d && c < 256
    requires p <= u && code[c] <= u
    ensures |code[c]| > |p|
  {
    hide GoodCode, Complete, At;
    var x := AnyEntry(d, p, code);
    EntryShape(code, d, p, x);
    var z := EntryLeads(code, d, p + x);
    Sizes(code, c);
    if |code[c]| <= |p| {
      assert code[c] <= p by { assert code[c] == u[..|code[c]|] == p[..|code[c]|]; }
      assert code[c] <= z;
      WordsApart(code, code[c], z);
    }
  }

  lemma Sizes(code: Code, c: nat)
    requires GoodCode(code) && c < 256
    ensures |code| == 256 && 5 <= |code[c]| <= EOS_LENGTH && IsWord(code, code[c])
  {}

  lemma AnyEntry(d: Dict, p: Bits, code: Code) returns (x: Bits)
    requires GoodCode(code) && Complete(code, d) && p in d
    ensures x in d[p]
  {
    assert d[p] != map[];
    assert d[p].Keys != {};
    x :| x in d[p].Keys;
  }

  lemma PfxIs(y: Bits, p: Bits)
    requires |p| % 8 == 0 && p <= y && |p| < |y| <= |p| + 8
    ensures Pfx(y) == p
  {
    assert PrefixLength(|y|) == |p|;
  }

  lemma EntryFrom(d: Dict, y: Bits, p: Bits, s: Sym)
    requires |p| % 8 == 0 && p <= y && |p| < |y| <= |p| + 8
    requires At(d, y) == Some(s)
    ensures p in d && y[|p|..] in d[p] && d[p][y[|p|..]] == s
  {
    PfxIs(y, p);
  }

  // ------------------------------------------------ the script's numbers tell tables and entries apart

  lemma {:induction false} LexVal(x: Bits, y: Bits, j: nat)
    requires |x| == |y| && j < |x| && x[..j] == y[..j] && !x[j] && y[j]
    ensures Val(x) < Val(y)
  {
    var n := |x| - 1;
    if j < n {
      assert x[..n][..j] == x[..j] && y[..n][..j] == y[..j];
      LexVal(x[..n], y[..n], j);
    }
  }

  lemma {:induction false} FrontVal(y: Bits, n: nat)
    requires n <= |y|
    ensures Val(y[..n]) <= Val(y)
  {
    if n < |y| {
      FrontVal(y[..|y| - 1], n);
      assert y[..|y| - 1][..n] == y[..n];
    } else {
      assert y[..n] == y;
    }
  }

  /** Bits that start with a one, or are none, are told by their number, whatever their length. */
  lemma NumbersTell(p: Bits, q: Bits)
    requires (p == [] || p[0]) && (q == [] || q[0]) && Val(p) == Val(q)
    ensures p == q
  {
    hide Val, Pow2;
    LongerNumber(p, q);
    LongerNumber(q, p);
    if |p| == |q| { SameValue(p, q); }
  }

  lemma LongerNumber(p: Bits, q: Bits)
    ensures |p| < |q| && q[0] ==> Val(p) < Val(q)
  {
    hide Val, Pow2, Mul;
    if |p| < |q| && q[0] {
      var n := |q| - |p|;
      var z := Zeros(n) + p;
      ValCat(Zeros(n), p);
      ValZeros(n);
      MulZero(Pow2(|p|));
      assert z[..0] == q[..0] && !z[0];
      LexVal(z, q, 0);
    }
  }

  /** No two tables have the same number. */
  lemma TablesTell(code: Code, d: Dict, p: Bits, q: Bits)
    requires GoodCode(code) && LongStartWithOne(code) && Complete(code, d) && p in d && q in d
    requires Val(p) == Val(q)
    ensures p == q
  {
    hide GoodCode, Complete, LongStartWithOne, Val;
    TableStarts(code, d, p);
    TableStarts(code, d, q);
    NumbersTell(p, q);
  }

  lemma TableStarts(code: Code, d: Dict, p: Bits)
    requires GoodCode(code) && LongStartWithOne(code) && Complete(code, d) && p in d
    ensures p == [] || p[0]
  {
    hide GoodCode, Complete, At;
    var x := AnyEntry(d, p, code);
    EntryShape(code, d, p, x);
    var z := EntryLeads(code, d, p + x);
    assert p != [] ==> |z| > 8 && z[0] == (p + x)[0] == p[0];
  }

  /** No two entries of a table have the same number, though their lengths may differ. */
  lemma EntriesTell(code: Code, d: Dict, p: Bits, x: Bits, y: Bits)
    requires GoodCode(code) && Complete(code, d) && p in d && x in d[p] && y in d[p]
    requires Val(x) == Val(y)
    ensures x == y
  {
    hide GoodCode, Complete, Val;
    if |x| == |y| {
      SameValue(x, y);
    } else if |x| < |y| {
      LongerEntry(code, d, p, x, y);
    } else {
      LongerEntry(code, d, p, y, x);
    }
  }

  lemma LongerEntry(code: Code, d: Dict, p: Bits, x: Bits, y: Bits)
    requires GoodCode(code) && Complete(code, d) && p in d && x in d[p] && y in d[p] && |x| < |y|
    ensures Val(x) < Val(y)
  {
    hide GoodCode, Complete, At, Val, Pow2;
    EntryShape(code, d, p, x);
    EntryShape(code, d, p, y);
    var z := EntryLeads(code, d, p + x);
    var z' := EntryLeads(code, d, p + y);
    assert z == p + x;
    var j := ShorterBefore(code, z, z');
    BehindPrefix(p, x, y, z', j);
  }

  lemma BehindPrefix(p: Bits, x: Bits, y: Bits, z: Bits, j: nat)
    requires p + y <= z && |x| < |y| && j < |p + x| && (p + x)[..j] == z[..j] && !(p + x)[j] && z[j]
    ensures Val(x) < Val(y)
  {
    hide Val;
    AgreeTo(p + x, z, j);
    assert forall i :: 0 <= i < |p + y| ==> z[i] == (p + y)[i];
    assert forall i :: 0 <= i < |p| ==> (p + x)[i] == (p + y)[i];
    assert j >= |p|;
    var i, w := j - |p|, y[..|x|];
    assert x[i] == (p + x)[j] && w[i] == y[i] == (p + y)[j];
    forall k | 0 <= k < i ensures x[k] == w[k] {
      assert x[k] == (p + x)[|p| + k] && w[k] == y[k] == (p + y)[|p| + k];
    }
    LexValAt(x, w, i);
    FrontVal(y, |x|);
  }

  lemma LexValAt(x: Bits, w: Bits, i: nat)
    requires |x| == |w| && i < |x| && (forall k :: 0 <= k < i ==> x[k] == w[k]) && !x[i] && w[i]
    ensures Val(x) < Val(w)
  {
    assert x[..i] == w[..i];
    LexVal(x, w, i);
  }

  lemma AgreeTo(a: Bits, b: Bits, j: nat)
    requires j <= |a| && j <= |b| && a[..j] == b[..j]
    ensures forall k :: 0 <= k < j ==> a[k] == b[k]
  {
    forall k | 0 <= k < j ensures a[k] == b[k] {
      assert a[..j][k] == b[..j][k];
    }
  }

  /** Of two words the shorter one has the first zero. */
  lemma ShorterBefore(code: Code, z: Bits, z': Bits) returns (j: nat)
    requires GoodCode(code) && IsWord(code, z) && IsWord(code, z') && |z| < |z'| <= EOS_LENGTH
    ensures j < |z| && z[..j] == z'[..j] && !z[j] && z'[j]
  {
    var a :| 0 <= a < 256 && code[a] == z;
    if IsEos(z') {
      j := FirstZero(z);
      assert forall i :: 0 <= i < j ==> z[i] == z'[i];
    } else {
      var b :| 0 <= b < 256 && code[b] == z';
      assert LexLess(code[a], code[b]);
      j :| 0 <= j < |z| && j < |z'| && z[..j] == z'[..j] && !z[j] && z'[j];
    }
  }

  lemma {:induction false} FirstZero(z: Bits) returns (j: nat)
    requires !AllOnes(z)
    ensures j < |z| && !z[j] && forall i :: 0 <= i < j ==> z[i]
  {
    var n := |z| - 1;
    if AllOnes(z[..n]) {
      j := n;
      assert forall i :: 0 <= i < n ==> z[i] == z[..n][i];
    } else {
      j := FirstZero(z[..n]);
      assert forall i :: 0 <= i < j ==> z[i] == z[..n][i];
    }
  }

  /** A codeword that ends in table `p` is an entry there. */
  lemma EndsIn(code: Code, d: Dict, p: Bits, c: nat)
    requires GoodCode(code) && Complete(code, d) && c < 256
    requires |p| % 8 == 0 && p <= code[c] && |p| < |code[c]| <= |p| + 8
    ensures var x := code[c][|p|..]; p in d && x in d[p] && d[p][x] == Leaf(c, |x|)
  {
    hide At, InPlace;
    assert At(d, code[c]) == Some(Leaf(c, LastPart(code[c])));
    PfxIs(code[c], p);
    EntryFrom(d, code[c], p, Leaf(c, LastPart(code[c])));
  }

  lemma StepHas(code: Code, c: nat, j: nat)
    requires GoodCode(code) && Stepped(code) && c < 256 && 0 < j < |code[c]| && j % 8 == 0
    ensures HasTable(code, code[c][..j])
  {}

  /** There is a link to every table. */
  lemma LinkTo(code: Code, d: Dict, y: Bits)
    requires GoodCode(code) && Complete(code, d) && y != [] && HasTable(code, y)
    ensures At(d, y) == Some(Escape(8)) && y in d
  {
    hide At, InPlace;
    var e :| 0 <= e < 256 && Pfx(code[e]) == y;
    EndsIn(code, d, y, e);
  }

  /** A codeword that passes through table `p` has a link there. */
  lemma PassesThrough(code: Code, d: Dict, p: Bits, c: nat)
    requires GoodCode(code) && Stepped(code) && Complete(code, d) && c < 256
    requires |p| % 8 == 0 && p <= code[c] && |p| + 8 < |code[c]|
    ensures var x := code[c][|p|..][..8];
      p in d && x in d[p] && d[p][x] == Escape(8) && p + x == code[c][..|p| + 8] && p + x in d
  {
    hide At, InPlace, GoodCode, Complete, Stepped, HasTable;
    Sizes(code, c);
    var y := code[c][..|p| + 8];
    assert y == p + code[c][|p|..][..8];
    StepHas(code, c, |p| + 8);
    LinkTo(code, d, y);
    EntryFrom(d, y, p, Escape(8));
    assert y[|p|..] == code[c][|p|..][..8];
  }

  lemma AlwaysCovered(code: Code, u: Bits)
    requires GoodCode(code) && |u| == EOS_LENGTH
    ensures |code| == 256 && Covered(code, u)
  {}

  /** Every index of a table begins with an entry. */
  lemma SomeEntryFor(code: Code, d: Dict, p: Bits, m: nat, w: Bits) returns (x: Bits)
    requires GoodCode(code) && Stepped(code) && Complete(code, d) && p in d
    requires IsWidth(d[p], m) && |w| == m
    ensures x in d[p] && x <= w
  {
    hide At, Stepped, Complete, GoodCode;
    var v :| v in d[p] && |v| == m;
    EntryShape(code, d, p, v);
    var u := p + w + Zeros(EOS_LENGTH - |p| - m);
    AlwaysCovered(code, u);
    if AllOnes(u) {
      x := EosEntry(code, d, p, w, u);
    } else {
      var c :| 0 <= c < 256 && code[c] <= u;
      assert p <= u;
      WordsEndBelow(code, d, p, c, u);
      assert p <= code[c] by { assert code[c][..|p|] == u[..|p|] == p; }
      x := EntryUnder(code, d, p, m, w, u, c);
    }
  }

  lemma NoOnes(a: Bits, n: nat)
    ensures AllOnes(a + Zeros(n)) ==> n == 0
  {
    if n > 0 { assert !(a + Zeros(n))[|a|]; }
  }

  lemma EosEntry(code: Code, d: Dict, p: Bits, w: Bits, u: Bits) returns (x: Bits)
    requires GoodCode(code) && Complete(code, d) && p in d
    requires |p| % 8 == 0 && 1 <= |w| <= 8 && |u| == EOS_LENGTH && p + w <= u && AllOnes(u)
    requires u == p + w + Zeros(EOS_LENGTH - |p| - |w|)
    ensures x in d[p] && x <= w
  {
    hide InPlace, GoodCode;
    NoOnes(p + w, EOS_LENGTH - |p| - |w|);
    assert IsEos(u) && u == p + w;
    PfxIs(u, p);
    x := w;
    assert u[|p|..] == w;
  }

  lemma EntryUnder(code: Code, d: Dict, p: Bits, m: nat, w: Bits, u: Bits, c: nat) returns (x: Bits)
    requires GoodCode(code) && Stepped(code) && Complete(code, d) && p in d && c < 256
    requires IsWidth(d[p], m) && m <= 8 && |w| == m && |p| % 8 == 0
    requires p + w <= u && code[c] <= u && p <= code[c] && |p| < |code[c]|
    ensures x in d[p] && x <= w
  {
    hide GoodCode, Complete, Stepped;
    Sizes(code, c);
    if |code[c]| <= |p| + 8 {
      EndsIn(code, d, p, c);
      x := code[c][|p|..];
    } else {
      PassesThrough(code, d, p, c);
      x := code[c][|p|..][..8];
    }
    assert p + x <= u;
    assert x == u[|p|..|p| + |x|] && w == u[|p|..|p| + m];
  }

  /** Every index of a table of the dictionary begins with exactly one of its entries. */
  lemma TableTiles(code: Code, d: Dict, p: Bits, m: nat)
    requires GoodCode(code) && Stepped(code) && Complete(code, d) && p in d && IsWidth(d[p], m)
    ensures Tiles(d[p], m)
  {
    hide GoodCode, Stepped, Complete, Begins, Pow2;
    forall i | 0 <= i < Pow2(m) ensures SomeEntry(d[p], m, i) {
      var w := ToBits(i, m);
      ValOfToBits(i, m);
      var x := SomeEntryFor(code, d, p, m, w);
      BeginsIsPrefix(x, w);
    }
    forall i, x, y | x in d[p] && y in d[p] && Begins(x, m, i) && Begins(y, m, i) ensures x == y {
      OneEntry(code, d, p, m, x, y, i);
    }
  }

  lemma OneEntry(code: Code, d: Dict, p: Bits, m: nat, x: Bits, y: Bits, i: nat)
    requires GoodCode(code) && Complete(code, d) && p in d && IsWidth(d[p], m)
    requires x in d[p] && y in d[p] && Begins(x, m, i) && Begins(y, m, i)
    ensures x == y
  {
    BeginsInTable(x, m);
    hide GoodCode, Complete, Pow2, Begins;
    var w := ToBits(i, m);
    ValOfToBits(i, m);
    BeginsIsPrefix(x, w);
    BeginsIsPrefix(y, w);
    if |x| <= |y| {
      assert x == w[..|x|] == y[..|x|];
      EntriesApart(code, d, p, x, y);
    } else {
      assert y == w[..|y|] == x[..|y|];
      EntriesApart(code, d, p, y, x);
    }
  }

  /** Table `t` is the dictionary's table `p`, written out. */
  ghost predicate WrittenOut(d: Dict, p: Bits, t: Tbl)
    requires p in d
  {
    && IsWidth(d[p], t.msk) && Tiles(d[p], t.msk) && |t.syms| == Pow2(t.msk)
    && forall x, i :: x in d[p] && 0 <= i < |t.syms| && Begins(x, t.msk, i) ==> t.syms[i] == d[p][x]
  }

  lemma WrittenFor(d: Dict, p: Bits, t: Tbl, x: Bits, w: Bits)
    requires p in d && WrittenOut(d, p, t) && x in d[p] && |w| == t.msk && x <= w
    ensures t.syms[Val(w)] == d[p][x]
  {
    hide Begins;
    BeginsIsPrefix(x, w);
  }

  /** The whole script. */
  method Generate(code: Code) returns (tables: Tables)
    requires GoodCode(code) && Stepped(code) && LongStartWithOne(code)
    ensures TablesFor(code, tables)
  {
    hide GoodCode, Stepped, Complete, LongStartWithOne, Tiles, WrittenOut, Filled, Put, TablesFor;
    var d := Fill(code);
    ghost var e :| Filled(code, 256, 256, e) && d == Put(e, Ones(EOS_LENGTH), Leaf(0, 6));
    FilledIsComplete(code, e);
    tables := map[];
    var left := d.Keys;
    while left != {}
      invariant left <= d.Keys
      invariant tables.Keys == d.Keys - left
      invariant forall p :: p in tables ==> WrittenOut(d, p, tables[p])
    {
      var p :| p in left;
      HasEntries(code, d, p);
      var m := Widest(d[p]);
      TableTiles(code, d, p, m);
      var t := WriteTable(d[p], m);
      WrittenNow(d, p, t);
      tables := tables[p := t];
      left := left - {p};
    }
    Finished(code, d, tables);
  }

  lemma HasEntries(code: Code, d: Dict, p: Bits)
    requires GoodCode(code) && Complete(code, d) && p in d
    ensures d[p] != map[]
  {}

  lemma WrittenNow(d: Dict, p: Bits, t: Tbl)
    requires p in d && IsWidth(d[p], t.msk) && Tiles(d[p], t.msk) && |t.syms| == Pow2(t.msk)
    requires forall x, i :: x in d[p] && 0 <= i < |t.syms| && Begins(x, t.msk, i) ==> t.syms[i] == d[p][x]
    ensures WrittenOut(d, p, t)
  {}

  lemma Finished(code: Code, d: Dict, tables: Tables)
    requires GoodCode(code) && Stepped(code) && Complete(code, d)
    requires tables.Keys == d.Keys && forall p :: p in tables ==> WrittenOut(d, p, tables[p])
    ensures TablesFor(code, tables)
  {
    hide GoodCode, Stepped, Complete, WrittenOut, TblOk, Directs, WidthAttained, LeavesRight;
    RootTable(code, d);
    Sizes(code, 0);
    forall p | p in tables ensures |tables[p].syms| == Pow2(tables[p].msk) && LeavesRight(code, tables[p], p) {
      FinishedLeaves(code, d, tables[p], p);
    }
    forall p | p in tables ensures TblOk(tables, p) {
      FinishedTbl(code, d, tables, p);
    }
    forall p | p in tables ensures WidthAttained(code, tables[p], p) {
      FinishedWidth(code, d, tables[p], p);
    }
    forall p, c: byte | p in tables && p <= code[c] && p != code[c] ensures Directs(code, tables, p, c) {
      FinishedDirects(code, d, tables, p, c);
    }
    RootWidth(code, d, tables[[]]);
  }

  lemma RootTable(code: Code, d: Dict)
    requires GoodCode(code) && Stepped(code) && Complete(code, d)
    ensures [] in d
  {
    hide GoodCode, Stepped, Complete;
    Sizes(code, 0);
    if |code[0]| <= 8 {
      EndsIn(code, d, [], 0);
    } else {
      PassesThrough(code, d, [], 0);
    }
  }

  /** The codeword beside EOS. */
  lemma LongestWord(code: Code) returns (c: nat)
    requires GoodCode(code)
    ensures c < 256 && |code[c]| == EOS_LENGTH
  {
    var u := Ones(EOS_LENGTH - 1) + [false];
    assert !AllOnes(u) by { assert !u[EOS_LENGTH - 1]; }
    assert Covered(code, u);
    c :| 0 <= c < 256 && code[c] <= u;
    var i :| 0 <= i < |code[c]| && !code[c][i];
    assert !u[i];
  }

  lemma RootWidth(code: Code, d: Dict, t: Tbl)
    requires GoodCode(code) && Stepped(code) && Complete(code, d) && [] in d && WrittenOut(d, [], t)
    ensures t.msk == 8
  {
    hide GoodCode, Stepped, Complete, Tiles, Begins;
    var c := LongestWord(code);
    PassesThrough(code, d, [], c);
    var v :| v in d[[]] && |v| == t.msk;
    EntryShape(code, d, [], v);
  }

  /** An entry consumes its own bits; a link leads to a table. */
  lemma EntryConsumes(code: Code, d: Dict, p: Bits, x: Bits)
    requires GoodCode(code) && Complete(code, d) && p in d && x in d[p]
    ensures d[p][x].csm == |x| <= 8
    ensures d[p][x].Escape? ==> p + x in d
  {
    hide GoodCode, Complete, At;
    EntryShape(code, d, p, x);
    PfxIs(p + x, p);
    var z := EntryLeads(code, d, p + x);
    if p + x == z {
      WordIsLeaf(code, d, z);
    } else {
      LinkedTable(code, d, p + x);
    }
  }

  lemma LinkedTable(code: Code, d: Dict, y: Bits)
    requires GoodCode(code) && Complete(code, d) && y != [] && At(d, y) == Some(Escape(8))
    ensures y in d
  {
    hide At, InPlace;
    assert forall c :: 0 <= c < 256 ==> code[c] != y;
    var c :| 0 <= c < 256 && Pfx(code[c]) == y;
    EndsIn(code, d, y, c);
  }

  lemma EntryAtIndex(code: Code, d: Dict, p: Bits, t: Tbl, i: nat) returns (x: Bits)
    requires GoodCode(code) && Complete(code, d) && p in d && WrittenOut(d, p, t) && i < |t.syms|
    ensures x in d[p] && Begins(x, t.msk, i) && t.syms[i] == d[p][x] && 1 <= |x| <= t.msk <= 8
  {
    hide GoodCode, Complete, Begins, Pow2;
    assert SomeEntry(d[p], t.msk, i);
    x :| x in d[p] && Begins(x, t.msk, i);
    EntryShape(code, d, p, x);
    var v :| v in d[p] && |v| == t.msk;
    EntryShape(code, d, p, v);
  }

  lemma FinishedTbl(code: Code, d: Dict, tables: Tables, p: Bits)
    requires GoodCode(code) && Complete(code, d) && p in d
    requires tables.Keys == d.Keys && WrittenOut(d, p, tables[p])
    ensures TblOk(tables, p)
  {
    hide GoodCode, Complete, Begins, Pow2, Tiles, IsWidth;
    var t := tables[p];
    forall i | 0 <= i < |t.syms| ensures 1 <= t.syms[i].csm <= t.msk {
      var x := EntryAtIndex(code, d, p, t, i);
      EntryConsumes(code, d, p, x);
    }
    forall w: Bits | |w| == t.msk && t.syms[Val(w)].Escape?
      ensures t.msk == 8 && t.syms[Val(w)].csm == 8 && p + w in tables
    {
      EscapeAt(code, d, p, t, w);
    }
    var x := EntryAtIndex(code, d, p, t, 0);
  }

  lemma EscapeAt(code: Code, d: Dict, p: Bits, t: Tbl, w: Bits)
    requires GoodCode(code) && Complete(code, d) && p in d && WrittenOut(d, p, t)
    requires |w| == t.msk && t.syms[Val(w)].Escape?
    ensures t.msk == 8 && t.syms[Val(w)].csm == 8 && p + w in d
  {
    hide GoodCode, Begins, Pow2, Tiles, IsWidth;
    var x := EntryAtIndex(code, d, p, t, Val(w));
    EntryConsumes(code, d, p, x);
    BeginsIsPrefix(x, w);
    EscapeIsWide(code, d, p, x);
    assert x == w;
  }

  lemma EscapeIsWide(code: Code, d: Dict, p: Bits, x: Bits)
    requires GoodCode(code) && Complete(code, d) && p in d && x in d[p] && d[p][x].Escape?
    ensures |x| == 8
  {
    hide GoodCode, Complete, At;
    EntryShape(code, d, p, x);
    var z := EntryLeads(code, d, p + x);
    if p + x == z { WordIsLeaf(code, d, z); }
  }

  lemma WordIsLeaf(code: Code, d: Dict, z: Bits)
    requires GoodCode(code) && Complete(code, d) && IsWord(code, z) && z != []
    ensures At(d, z).Some? && At(d, z).value.Leaf? && At(d, z).value.csm == LastPart(z)
  {
    if !IsEos(z) {
      var c :| 0 <= c < 256 && code[c] == z;
      assert At(d, code[c]) == Some(Leaf(c, LastPart(code[c])));
    }
  }

  lemma FinishedWidth(code: Code, d: Dict, t: Tbl, p: Bits)
    requires |code| == 256 && GoodCode(code) && Complete(code, d) && p in d && WrittenOut(d, p, t)
    ensures WidthAttained(code, t, p)
  {
    hide GoodCode, Complete, Begins, Pow2, Tiles, At;
    var v :| v in d[p] && |v| == t.msk;
    EntryShape(code, d, p, v);
    var z := EntryLeads(code, d, p + v);
    assert p <= p + v <= z && |p| + t.msk <= |z|;
    if IsEos(z) {
      assert AllOnes(p) by { forall i | 0 <= i < |p| ensures p[i] { assert p[i] == z[i]; } }
    }
  }

  /** A leaf of the dictionary belongs to the codeword it is under, or to EOS. */
  lemma LeafIsWord(code: Code, d: Dict, y: Bits)
    requires |code| == 256 && GoodCode(code) && Complete(code, d) && y != [] && At(d, y).Some? && At(d, y).value.Leaf?
    ensures y == code[At(d, y).value.chr] || IsEos(y)
  {
    hide At, InPlace, LastPart, Pfx, GoodCode;
    if !IsEos(y) {
      assert Wanted(code, 256, 256, y);
      if c :| 0 <= c < 256 && code[c] == y {
        assert At(d, code[c]) == Some(Leaf(c, LastPart(code[c])));
      }
    }
  }

  lemma FinishedLeaves(code: Code, d: Dict, t: Tbl, p: Bits)
    requires |code| == 256 && GoodCode(code) && Complete(code, d) && p in d && WrittenOut(d, p, t)
    ensures |t.syms| == Pow2(t.msk) && LeavesRight(code, t, p)
  {
    hide GoodCode, Complete, Begins, Pow2, Tiles, IsWidth, At, IsEos;
    forall w: Bits | |w| == t.msk && t.syms[Val(w)].Leaf? && t.syms[Val(w)].csm <= t.msk
      ensures var s := t.syms[Val(w)]; p + w[..s.csm] == code[s.chr] || IsEos(p + w[..s.csm])
    {
      var x := EntryAtIndex(code, d, p, t, Val(w));
      EntryConsumes(code, d, p, x);
      BeginsIsPrefix(x, w);
      EntryShape(code, d, p, x);
      LeafIsWord(code, d, p + x);
      assert w[..|x|] == x;
    }
  }

  lemma FinishedDirects(code: Code, d: Dict, tables: Tables, p: Bits, c: byte)
    requires |code| == 256 && GoodCode(code) && Stepped(code) && Complete(code, d)
    requires tables.Keys == d.Keys && p in tables && TblOk(tables, p) && WrittenOut(d, p, tables[p])
    requires p <= code[c] && p != code[c]
    ensures Directs(code, tables, p, c)
  {
    hide GoodCode, Stepped, Complete, Begins, Pow2, Tiles, TblOk;
    var t, rest := tables[p], code[c][|p|..];
    var v :| v in d[p] && |v| == t.msk;
    EntryShape(code, d, p, v);
    if |rest| <= 8 {
      EndsIn(code, d, p, c);
      forall w: Bits | |w| == t.msk && rest <= w ensures t.syms[Val(w)] == Leaf(c, |rest|) {
        WrittenFor(d, p, t, rest, w);
      }
    } else {
      PassesThrough(code, d, p, c);
      WrittenFor(d, p, t, rest[..8], rest[..8]);
    }
  }
}
