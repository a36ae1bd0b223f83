/** Bit strings, most significant bit first, and their packing into bytes and
    64-bit words. */
module Bits {
  import opened Words
  import opened HpkInt

  type Bits = seq<bool>

  function Val(b: Bits): (v: nat)
    ensures v < Pow2(|b|)
  {
    if b == [] then 0 else 2 * Val(b[..|b| - 1]) + if b[|b| - 1] then 1 else 0
  }

  /** The `n` low bits of `v`. */
  function ToBits(v: nat, n: nat): (b: Bits)
    ensures |b| == n
  {
    if n == 0 then [] else ToBits(v / 2, n - 1) + [v % 2 == 1]
  }

  function Zeros(n: nat): (b: Bits)
    ensures |b| == n && forall i :: 0 <= i < n ==> !b[i]
  {
    seq(n, _ => false)
  }

  function Ones(n: nat): (b: Bits)
    ensures |b| == n && forall i :: 0 <= i < n ==> b[i]
  {
    seq(n, _ => true)
  }

  predicate AllOnes(b: Bits) {
    forall i :: 0 <= i < |b| ==> b[i]
  }

  lemma {:induction false} ToBitsOfVal(b: Bits)
    ensures ToBits(Val(b), |b|) == b
  {
    if b != [] { ToBitsOfVal(b[..|b| - 1]); }
  }

  lemma {:induction false} ValOfToBits(v: nat, n: nat)
    requires v < Pow2(n)
    ensures Val(ToBits(v, n)) == v
  {
    if n > 0 { ValOfToBits(v / 2, n - 1); }
  }

  lemma {:induction false} ValCat(a: Bits, b: Bits)
    ensures Val(a + b) == Mul(Val(a), Pow2(|b|)) + Val(b)
  {
    if b == [] {
      assert a + b == a;
    } else {
      var c := b[..|b| - 1];
      ValCat(a, c);
      assert (a + b)[..|a + b| - 1] == a + c;
      assert Pow2(|b|) == 2 * Pow2(|c|);
      MulTwice(Val(a), Pow2(|c|));
    }
  }

  lemma {:induction false} ValOnes(b: Bits)
    ensures Val(b) == Pow2(|b|) - 1 <==> AllOnes(b)
  {
    if b != [] { ValOnes(b[..|b| - 1]); }
  }

  lemma {:induction false} ValZeros(n: nat)
    ensures Val(Zeros(n)) == 0
  {
    if n > 0 {
      assert Zeros(n)[..n - 1] == Zeros(n - 1);
      ValZeros(n - 1);
    }
  }

  // ------------------------------------------------ bytes

  function ByteBits(x: byte): (b: Bits)
    ensures |b| == 8
  {
    ToBits(x, 8)
  }

  function Unpack(bytes: seq<byte>): (b: Bits)
    ensures |b| == 8 * |bytes|
  {
    if bytes == [] then [] else ByteBits(bytes[0]) + Unpack(bytes[1..])
  }

  function Pack(b: Bits): (bytes: seq<byte>)
    requires |b| % 8 == 0
    ensures 8 * |bytes| == |b|
  {
    if b == [] then [] else
      ByteVal(b[..8]);
      [Val(b[..8])] + Pack(b[8..])
  }

  lemma ByteVal(b: Bits)
    requires |b| == 8
    ensures Val(b) < 256 && ByteBits(Val(b)) == b
  {
    assert Pow2(8) == 256;
    ToBitsOfVal(b);
  }

  lemma {:induction false} UnpackPack(b: Bits)
    requires |b| % 8 == 0
    ensures Unpack(Pack(b)) == b
  {
    if b != [] {
      ByteVal(b[..8]);
      UnpackPack(b[8..]);
      assert Pack(b)[1..] == Pack(b[8..]);
      assert b == b[..8] + b[8..];
    }
  }

  // ------------------------------------------------ 64-bit words

  /** Bits held left-aligned in a 64-bit word. */
  function Word(b: Bits): nat
    requires |b| <= 64
  {
    Val(Pad64(b))
  }

  function Pad64(b: Bits): (w: Bits)
    requires |b| <= 64
    ensures |w| == 64
  {
    b + Zeros(64 - |b|)
  }

  function Or64(x: nat, y: nat): nat {
    var p, q := ToBits(x, 64), ToBits(y, 64);
    Val(seq(64, i requires 0 <= i < 64 => p[i] || q[i]))
  }

  /** `x << n`, `n < 64` */
  function Shl64(x: nat, n: nat): nat {
    Mul(x, Pow2(n)) % Pow2(64)
  }

  /** `x >> n` */
  function Shr64(x: nat, n: nat): nat {
    Shr(x, Pow2(n))
  }

  lemma HighPart(w: Bits, n: nat)
    requires n <= |w|
    ensures Shr64(Val(w), |w| - n) == Val(w[..n])
  {
    hide Mul, Shr, Pow2, Val;
    ValCat(w[..n], w[n..]);
    assert w == w[..n] + w[n..];
    BitsOf(Val(w[..n]), Pow2(|w| - n), Val(w[n..]));
  }

  lemma {:induction false} ShiftedVal(b: Bits, n: nat)
    ensures Val(b + Zeros(n)) == Mul(Val(b), Pow2(n))
  {
    ValCat(b, Zeros(n));
    ValZeros(n);
  }

  /** Shifting out the first `n` bits of a word. */
  lemma ShiftOut(w: Bits, n: nat)
    requires |w| == 64 && n <= 64
    ensures Shl64(Val(w), n) == Val(w[n..] + Zeros(n))
  {
    hide Pow2, Val;
    var a, c := w[..n], w[n..];
    ValCat(a, c);
    assert w == a + c;
    ShiftedVal(c, n);
    var m := w + Zeros(n);
    ShiftedVal(w, n);
    assert m == a + (c + Zeros(n));
    ValCat(a, c + Zeros(n));
    BitsOf(Val(a), Pow2(64), Val(c + Zeros(n)));
  }

  lemma Val64(w: Bits, n: nat)
    requires |w| + n <= 64
    ensures Val(Zeros(n) + w) == Val(w)
  {
    ValCat(Zeros(n), w);
    ValZeros(n);
  }

  lemma OrWords(p: Bits, q: Bits, r: Bits)
    requires |p| == |q| == |r| == 64
    requires forall i :: 0 <= i < 64 ==> r[i] == (p[i] || q[i])
    ensures Or64(Val(p), Val(q)) == Val(r)
  {
    ToBitsOfVal(p);
    ToBitsOfVal(q);
    assert seq(64, i requires 0 <= i < 64 => p[i] || q[i]) == r;
  }

  lemma OrOfParts(b: Bits, c: Bits, n: nat)
    requires |b| + |c| + n == 64
    ensures var p, q, r := Pad64(b), (Zeros(64 - |c|) + c)[n..] + Zeros(n), Pad64(b + c);
      |q| == 64 && forall i :: 0 <= i < 64 ==> r[i] == (p[i] || q[i])
  {}

  /** Putting the bits `c` into a word after the bits `b` it holds. */
  lemma OrBits(b: Bits, c: Bits)
    requires |b| + |c| <= 64
    ensures Or64(Word(b), Shl64(Val(c), 64 - |b| - |c|)) == Word(b + c)
  {
    hide Val, Or64, Shl64, Pow2, Pad64;
    var n := 64 - |b| - |c|;
    var w := Zeros(64 - |c|) + c;
    Val64(c, 64 - |c|);
    ShiftOut(w, n);
    OrOfParts(b, c, n);
    OrWords(Pad64(b), w[n..] + Zeros(n), Pad64(b + c));
  }

  lemma TopOfPadded(b: Bits, n: nat)
    requires |b| <= 64 && n <= 64
    ensures Pad64(b)[..n] == if |b| >= n then b[..n] else b + Zeros(n - |b|)
  {}

  /** The first `n` bits of a word, zeros included, as a number. */
  lemma WordTop(b: Bits, n: nat)
    requires |b| <= 64 && n <= 64
    ensures Shr64(Word(b), 64 - n) == Val(if |b| >= n then b[..n] else b + Zeros(n - |b|))
  {
    hide Val, Shr64, Zeros, Pad64;
    HighPart(Pad64(b), n);
    TopOfPadded(b, n);
  }

  lemma RestOfPadded(b: Bits, n: nat)
    requires n <= |b| <= 64
    ensures Pad64(b)[n..] + Zeros(n) == Pad64(b[n..])
  {}

  lemma WordShift(b: Bits, n: nat)
    requires n <= |b| <= 64
    ensures Shl64(Word(b), n) == Word(b[n..])
  {
    hide Val, Shl64, Zeros, Pad64;
    ShiftOut(Pad64(b), n);
    RestOfPadded(b, n);
  }

  lemma WordEmpty()
    ensures Word([]) == 0
  {
    assert Pad64([]) == Zeros(64);
    ValZeros(64);
  }

  lemma Assoc<T>(a: seq<T>, b: seq<T>, c: seq<T>)
    ensures a + (b + c) == a + b + c
  {}

  lemma UnpackCons(x: byte, rest: seq<byte>)
    ensures Unpack([x] + rest) == ByteBits(x) + Unpack(rest)
  {
    assert ([x] + rest)[1..] == rest;
  }

  lemma {:induction false} UnpackCat(a: seq<byte>, b: seq<byte>)
    ensures Unpack(a + b) == Unpack(a) + Unpack(b)
  {
    hide ByteBits, Unpack;
    if a == [] {
      assert a + b == b && Unpack(a) == [];
    } else {
      assert a == [a[0]] + a[1..];
      Assoc([a[0]], a[1..], b);
      UnpackCons(a[0], a[1..]);
      UnpackCons(a[0], a[1..] + b);
      UnpackCat(a[1..], b);
      Assoc(ByteBits(a[0]), Unpack(a[1..]), Unpack(b));
    }
  }

  lemma PackCons(x: Bits, rest: Bits)
    requires |x| == 8 && |rest| % 8 == 0
    ensures Val(x) < 256 && Pack(x + rest) == [Val(x)] + Pack(rest)
  {
    hide Val;
    ByteVal(x);
    assert (x + rest)[..8] == x && (x + rest)[8..] == rest;
  }

  lemma {:induction false} PackCat(a: Bits, b: Bits)
    requires |a| % 8 == 0 && |b| % 8 == 0
    ensures Pack(a + b) == Pack(a) + Pack(b)
  {
    hide Val, Pack;
    if a == [] {
      assert a + b == b && Pack(a) == [];
    } else {
      assert a == a[..8] + a[8..];
      Assoc(a[..8], a[8..], b);
      PackCons(a[..8], a[8..]);
      PackCons(a[..8], a[8..] + b);
      PackCat(a[8..], b);
      Assoc([Val(a[..8])], Pack(a[8..]), Pack(b));
    }
  }

  lemma {:induction false} PackUnpack(w: seq<byte>)
    ensures Pack(Unpack(w)) == w
  {
    if w != [] {
      PackUnpack(w[1..]);
      assert Pow2(8) == 256;
      ValOfToBits(w[0], 8);
      var u := Unpack(w);
      assert u[..8] == ByteBits(w[0]) && u[8..] == Unpack(w[1..]);
    }
  }
}
