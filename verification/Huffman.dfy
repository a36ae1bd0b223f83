/** The Huffman coding of string literals (section 5.2 of RFC 7541): what
    huff_encode writes, the tables huff_decode walks, and that the walk undoes
    the coding.  Everything holds for any code of the kind RFC 7541 uses. */
module Huffman {
  import opened Words
  import opened HpkInt
  import opened Bits

  /** One codeword per octet. */
  type Code = seq<Bits>

  const EOS_LENGTH: nat := 30

  /** At the first bit where they differ, `a` has 0 and `b` has 1. */
  ghost predicate LexLess(a: Bits, b: Bits) {
    exists i :: 0 <= i < |a| && i < |b| && a[..i] == b[..i] && !a[i] && b[i]
  }

  ghost predicate Covered(code: Code, w: Bits) {
    AllOnes(w) || exists c :: 0 <= c < |code| && code[c] <= w
  }

  /** A complete prefix-free code over the octets and EOS, the codeword of EOS being
      thirty ones, with shorter codewords before longer ones. */
  ghost predicate GoodCode(code: Code) {
    && |code| == 256
    && (forall c :: 0 <= c < 256 ==> 5 <= |code[c]| <= EOS_LENGTH && !AllOnes(code[c]))
    && (forall a, b :: 0 <= a < 256 && 0 <= b < 256 && a != b ==> !(code[a] <= code[b]))
    && (forall w: Bits :: |w| == EOS_LENGTH ==> Covered(code, w))
    && (forall a, b :: 0 <= a < 256 && 0 <= b < 256 && |code[a]| < |code[b]| ==> LexLess(code[a], code[b]))
  }

  // ------------------------------------------------ encoding

  function Cat(code: Code, s: seq<byte>): Bits
    requires |code| == 256
  {
    if s == [] then [] else code[s[0]] + Cat(code, s[1..])
  }

  function PadLength(n: nat): (r: nat)
    ensures r < 8 && (n + r) % 8 == 0
  {
    (8 - n % 8) % 8
  }

  /** The codewords, padded with ones to whole bytes. */
  function HuffBits(code: Code, s: seq<byte>): (b: Bits)
    requires |code| == 256
    ensures |b| % 8 == 0
  {
    Cat(code, s) + Ones(PadLength(|Cat(code, s)|))
  }

  function HuffBytes(code: Code, s: seq<byte>): seq<byte>
    requires |code| == 256
  {
    Pack(HuffBits(code, s))
  }

  lemma {:induction false} CatSnoc(code: Code, s: seq<byte>, c: byte)
    requires |code| == 256
    ensures Cat(code, s + [c]) == Cat(code, s) + code[c]
  {
    if s == [] {
      assert [c][1..] == [];
    } else {
      CatSnoc(code, s[1..], c);
      assert (s + [c])[1..] == s[1..] + [c];
    }
  }

  /** The codewords stand first, and what is left of the last byte is filled with ones. */
  lemma PaddedWithOnes(code: Code, s: seq<byte>)
    requires |code| == 256
    ensures var b := Unpack(HuffBytes(code, s));
      && |b| % 8 == 0 && |Cat(code, s)| <= |b| < |Cat(code, s)| + 8 && b[..|Cat(code, s)|] == Cat(code, s)
      && forall i :: |Cat(code, s)| <= i < |b| ==> b[i]
  {
    hide Cat, Pack, Unpack;
    UnpackPack(HuffBits(code, s));
  }

  // ------------------------------------------------ decoding tables

  /** An entry of a generated table: a symbol, or the way to the next table. */
  datatype Sym = Leaf(chr: byte, csm: nat) | Escape(csm: nat)

  datatype Tbl = Tbl(msk: nat, syms: seq<Sym>)

  /** The tables, by the bits already consumed on the way to them. */
  type Tables = map<Bits, Tbl>

  ghost predicate TblOk(tables: Tables, p: Bits)
    requires p in tables
  {
    var t := tables[p];
    && 1 <= t.msk <= 8 && |t.syms| == Pow2(t.msk)
    && (forall i :: 0 <= i < |t.syms| ==> 1 <= t.syms[i].csm <= t.msk)
    && (forall w: Bits :: |w| == t.msk && t.syms[Val(w)].Escape? ==>
          t.msk == 8 && t.syms[Val(w)].csm == 8 && p + w in tables)
  }

  ghost predicate TablesOk(tables: Tables) {
    [] in tables && forall p :: p in tables ==> TblOk(tables, p)
  }

  /** Table `p` sends every index that begins with the rest of a codeword to that codeword. */
  ghost predicate Directs(code: Code, tables: Tables, p: Bits, c: byte)
    requires |code| == 256 && p in tables && TblOk(tables, p)
    requires p <= code[c] && p != code[c]
  {
    var t, rest := tables[p], code[c][|p|..];
    if |rest| <= 8 then
      |rest| <= t.msk && forall w: Bits :: |w| == t.msk && rest <= w ==> t.syms[Val(w)] == Leaf(c, |rest|)
    else
      t.msk == 8 && t.syms[Val(rest[..8])] == Escape(8) && p + rest[..8] in tables
  }

  /** No entry of table `p` is wider than need be: some codeword, EOS included, has that width there. */
  ghost predicate WidthAttained(code: Code, t: Tbl, p: Bits)
    requires |code| == 256
  {
    || (AllOnes(p) && |p| + t.msk <= EOS_LENGTH)
    || exists c :: 0 <= c < 256 && p <= code[c] && |p| + t.msk <= |code[c]|
  }

  ghost predicate IsEos(y: Bits) { |y| == EOS_LENGTH && AllOnes(y) }

  /** A leaf of table `p` stands for the codeword that ends there, or for EOS. */
  ghost predicate LeavesRight(code: Code, t: Tbl, p: Bits)
    requires |code| == 256 && |t.syms| == Pow2(t.msk)
  {
    forall w: Bits :: |w| == t.msk && t.syms[Val(w)].Leaf? && t.syms[Val(w)].csm <= t.msk ==>
      var s := t.syms[Val(w)]; p + w[..s.csm] == code[s.chr] || IsEos(p + w[..s.csm])
  }

  ghost predicate TablesFor(code: Code, tables: Tables) {
    && |code| == 256
    && TablesOk(tables) && tables[[]].msk == 8
    && (forall p :: p in tables ==> WidthAttained(code, tables[p], p) && LeavesRight(code, tables[p], p))
    && (forall p, c: byte :: p in tables && p <= code[c] && p != code[c] ==> Directs(code, tables, p, c))
  }

  // ------------------------------------------------ the walk

  datatype Walked = Chars(s: seq<byte>) | Rejected | Trapped

  /** The first `n` bits, with zeros beyond the end. */
  function Window(r: Bits, n: nat): (w: Bits)
    ensures |w| == n
  {
    if |r| >= n then r[..n] else r + Zeros(n - |r|)
  }

  /** The loop of huff_decode on the bits not yet consumed, in table `p`.
      `Trapped` is the failure of its assertion that padding starts at the root. */
  function Walk(tables: Tables, p: Bits, r: Bits): Walked
    requires TablesOk(tables) && p in tables
    decreases |r|
  {
    if r == [] then Chars([])
    else
      assert TblOk(tables, p);
      var t := tables[p];
      if |r| < t.msk && AllOnes(r) then
        if p == [] then Chars([]) else Trapped
      else
        var w := Window(r, t.msk);
        var sym := t.syms[Val(w)];
        if |r| < sym.csm then Rejected
        else if sym.Escape? then Walk(tables, p + w, r[sym.csm..])
        else
          var rest := Walk(tables, [], r[sym.csm..]);
          if rest.Chars? then Chars([sym.chr] + rest.s) else rest
  }

  // ------------------------------------------------ the walk undoes the coding

  lemma SomeZeroBefore(code: Code, p: Bits, c: byte)
    requires GoodCode(code) && p <= code[c] && AllOnes(code[c][|p|..])
    ensures !AllOnes(p)
  {
    var a := code[c];
    forall i | |p| <= i < |a| ensures a[i] { assert a[i] == a[|p|..][i - |p|]; }
    var i :| 0 <= i < |a| && !a[i];
    assert !p[i];
  }

  lemma OnesComeLast(a: Bits, b: Bits, p: Bits)
    requires p <= a && p <= b && AllOnes(a[|p|..])
    ensures !LexLess(a, b)
  {
    forall i | 0 <= i < |a| && i < |b| ensures a[i] || !b[i] {
      if i >= |p| { assert a[i] == a[|p|..][i - |p|]; }
    }
  }

  /** A codeword that ends in this table with ones only is as wide as the table. */
  lemma OnesAreWidest(code: Code, t: Tbl, p: Bits, c: byte)
    requires GoodCode(code) && WidthAttained(code, t, p)
    requires p <= code[c] && AllOnes(code[c][|p|..])
    ensures |code[c]| >= |p| + t.msk
  {
    SomeZeroBefore(code, p, c);
    var d :| 0 <= d < 256 && p <= code[d] && |p| + t.msk <= |code[d]|;
    OnesComeLast(code[c], code[d], p);
  }

  /** The bits left over when the walk stands in table `p`: the rest of the first
      codeword, the other codewords, and fewer than eight ones. */
  ghost predicate Left(code: Code, p: Bits, r: Bits, s: seq<byte>, pad: Bits)
    requires |code| == 256
  {
    && p + r == Cat(code, s) + pad && |pad| < 8 && AllOnes(pad)
    && if s == [] then p == [] else p <= code[s[0]] && p != code[s[0]]
  }

  lemma LeftAtRoot(code: Code, more: Bits, s: seq<byte>, pad: Bits)
    requires |code| == 256 && GoodCode(code)
    requires more == Cat(code, s) + pad && |pad| < 8 && AllOnes(pad)
    ensures Left(code, [], more, s, pad)
  {
    assert [] + more == more;
    assert s != [] ==> |code[s[0]]| >= 5;
  }

  lemma LeftSplit(code: Code, p: Bits, r: Bits, s: seq<byte>, pad: Bits)
    requires |code| == 256 && s != [] && Left(code, p, r, s, pad)
    ensures var c := code[s[0]]; var rest := c[|p|..];
      rest != [] && rest <= r && r == rest + (Cat(code, s[1..]) + pad)
  {
    var c := code[s[0]];
    var rest := c[|p|..];
    var more := Cat(code, s[1..]) + pad;
    assert c == p + rest;
    assert p + r == p + (rest + more);
    assert r == (p + r)[|p|..];
    assert (p + (rest + more))[|p|..] == rest + more;
  }

  /** Padding at the end of the string. */
  lemma WalkPadding(code: Code, tables: Tables, pad: Bits)
    requires TablesFor(code, tables) && |pad| < 8 && AllOnes(pad)
    ensures Walk(tables, [], pad) == Chars([])
  {}

  /** The next entry met inside a codeword. */
  lemma NextEntry(code: Code, tables: Tables, p: Bits, c: byte, r: Bits)
    requires GoodCode(code) && TablesFor(code, tables) && p in tables
    requires p <= code[c] && p != code[c] && code[c][|p|..] <= r
    ensures TablesOk(tables) && TblOk(tables, p)
    ensures var rest := code[c][|p|..]; var t := tables[p];
      && !(|r| < t.msk && AllOnes(r))
      && t.syms[Val(Window(r, t.msk))] == (if |rest| <= 8 then Leaf(c, |rest|) else Escape(8))
      && (|rest| > 8 ==> t.msk == 8 && Window(r, 8) == rest[..8] && p + rest[..8] in tables)
  {
    var rest, t := code[c][|p|..], tables[p];
    assert Directs(code, tables, p, c);
    var w := Window(r, t.msk);
    if |r| < t.msk && AllOnes(r) {
      assert AllOnes(rest) by {
        forall i | 0 <= i < |rest| ensures rest[i] { assert rest[i] == r[i]; }
      }
      OnesAreWidest(code, t, p, c);
    }
    if |rest| <= 8 {
      assert rest <= w;
    } else {
      assert w == rest[..8];
    }
  }

  /** One step of the walk, at an entry that fits. */
  lemma WalkStep(tables: Tables, p: Bits, r: Bits)
    requires TablesOk(tables) && p in tables && TblOk(tables, p) && r != []
    requires !(|r| < tables[p].msk && AllOnes(r))
    ensures var w := Window(r, tables[p].msk); var sym := tables[p].syms[Val(w)];
      sym.csm <= |r| ==>
        if sym.Escape? then p + w in tables && Walk(tables, p, r) == Walk(tables, p + w, r[sym.csm..])
        else
          var rest := Walk(tables, [], r[sym.csm..]);
          Walk(tables, p, r) == if rest.Chars? then Chars([sym.chr] + rest.s) else rest
  {}

  /** Walking the tables over an encoded string yields the string. */
  lemma {:induction false} WalkLeft(code: Code, tables: Tables, p: Bits, r: Bits, s: seq<byte>, pad: Bits)
    requires GoodCode(code) && TablesFor(code, tables) && p in tables
    requires |code| == 256 && Left(code, p, r, s, pad)
    ensures Walk(tables, p, r) == Chars(s)
    decreases |r|, 0
  {
    hide GoodCode, TablesFor, TablesOk, Cat, TblOk, Walk, Window;
    if s == [] {
      CatOfNone(code);
      assert r == p + r == [] + pad == pad;
      WalkPadding(code, tables, pad);
    } else {
      var c := s[0];
      var rest := code[c][|p|..];
      var more := Cat(code, s[1..]) + pad;
      LeftSplit(code, p, r, s, pad);
      NextEntry(code, tables, p, c, r);
      WalkStep(tables, p, r);
      if |rest| <= 8 {
        assert r[|rest|..] == more;
        WalkNext(code, tables, more, s[1..], pad);
        assert s == [c] + s[1..];
      } else {
        assert (p + rest[..8]) + r[8..] == p + r;
        assert Left(code, p + rest[..8], r[8..], s, pad);
        WalkLeft(code, tables, p + rest[..8], r[8..], s, pad);
      }
    }
  }

  lemma CatOfNone(code: Code)
    requires |code| == 256
    ensures Cat(code, []) == []
  {}

  lemma {:induction false} WalkNext(code: Code, tables: Tables, more: Bits, s: seq<byte>, pad: Bits)
    requires |code| == 256 && GoodCode(code) && TablesFor(code, tables)
    requires more == Cat(code, s) + pad && |pad| < 8 && AllOnes(pad)
    ensures Walk(tables, [], more) == Chars(s)
    decreases |more|, 1
  {
    hide GoodCode, Cat, Walk, Left;
    LeftAtRoot(code, more, s, pad);
    WalkLeft(code, tables, [], more, s, pad);
  }

  /** Decoding what was encoded, for every string. */
  lemma HuffRoundTrip(code: Code, tables: Tables, s: seq<byte>)
    requires GoodCode(code) && TablesFor(code, tables)
    ensures Walk(tables, [], Unpack(HuffBytes(code, s))) == Chars(s)
  {
    UnpackPack(HuffBits(code, s));
    WalkNext(code, tables, HuffBits(code, s), s, Ones(PadLength(|Cat(code, s)|)));
  }

  // ------------------------------------------------ nothing shorter reads the same

  lemma LeafCost(code: Code, tables: Tables, p: Bits, w: Bits)
    requires GoodCode(code) && TablesFor(code, tables) && p in tables && TblOk(tables, p) && |w| == tables[p].msk
    ensures var s := tables[p].syms[Val(w)]; s.Leaf? ==> |p| + s.csm >= |code[s.chr]|
  {
    var t := tables[p];
    assert LeavesRight(code, t, p);
    var s := t.syms[Val(w)];
    assert s.csm <= t.msk;
    assert s.Leaf? ==> |p + w[..s.csm]| == |p| + s.csm;
  }

  lemma CatOne(code: Code, c: byte, s: seq<byte>)
    requires |code| == 256
    ensures |Cat(code, [c] + s)| == |code[c]| + |Cat(code, s)|
  {
    assert ([c] + s)[1..] == s;
  }

  /** Bits that are read as a string are at least as many as its codewords have. */
  lemma {:induction false} WalkCost(code: Code, tables: Tables, p: Bits, r: Bits)
    requires |code| == 256 && GoodCode(code) && TablesFor(code, tables) && TablesOk(tables) && p in tables
    ensures var out := Walk(tables, p, r); out.Chars? ==> |p| + |r| >= |Cat(code, out.s)|
    decreases |r|
  {
    hide GoodCode, TablesFor, Cat, Window;
    CatOfNone(code);
    if r != [] && !(|r| < tables[p].msk && AllOnes(r)) {
      assert TblOk(tables, p);
      var w := Window(r, tables[p].msk);
      var sym := tables[p].syms[Val(w)];
      LeafCost(code, tables, p, w);
      if |r| >= sym.csm {
        if sym.Escape? {
          WalkCost(code, tables, p + w, r[sym.csm..]);
        } else {
          WalkCost(code, tables, [], r[sym.csm..]);
          var rest := Walk(tables, [], r[sym.csm..]);
          if rest.Chars? { CatOne(code, sym.chr, rest.s); }
        }
      }
    }
  }

  lemma HuffLength(code: Code, s: seq<byte>)
    requires |code| == 256
    ensures 8 * |HuffBytes(code, s)| < |Cat(code, s)| + 8
  {
    hide Cat, Pack;
  }

  /** Bytes that are read as a string are at least as many as huff_encode writes for it. */
  lemma HuffCost(code: Code, tables: Tables, bytes: seq<byte>, s: seq<byte>)
    requires |code| == 256 && GoodCode(code) && TablesFor(code, tables) && TablesOk(tables)
    requires [] in tables && Walk(tables, [], Unpack(bytes)) == Chars(s)
    ensures |bytes| >= |HuffBytes(code, s)|
  {
    hide GoodCode, TablesFor, TablesOk, Walk, Unpack, Pack, Cat, HuffBytes, HuffBits, TblOk;
    var n := |Unpack(bytes)|;
    assert n >= |Cat(code, s)| by { WalkCost(code, tables, [], Unpack(bytes)); }
    HuffLength(code, s);
  }
}
