/** The encoder and decoder as src/vtc_h2_hpack.c runs them, over a byte buffer with
    a moving position, proved against the functions of HpkInt, Huffman and Hpack. */
module HpkCode {
  import opened Words
  import opened HpkInt
  import opened Bits
  import opened Huffman
  import opened HpkTable
  import opened Hpack

  /** enum hpk_result, and `Trap` for an assertion of the code that fails. */
  datatype Res = More | Done | Err | Trap

  /** struct hpk_iter: the next byte is `data[buf]`, the last one `data[end - 1]`. */
  class Iter {
    const data: array<byte>
    const end: nat
    var buf: nat

    ghost predicate Ok()
      reads this
    {
      buf <= end <= data.Length
    }

    constructor (data: array<byte>, size: nat)
      requires size <= data.Length
      ensures Ok() && this.data == data && end == size && buf == 0
    {
      this.data, end, buf := data, size, 0;
    }

    /** ITER_DONE */
    function State(): Res
      reads this
    {
      if buf == end then Done else More
    }
  }

  /** `after` is `before` with `bytes` written at `from`. */
  ghost predicate Wrote(before: seq<byte>, from: nat, bytes: seq<byte>, after: seq<byte>) {
    from + |bytes| <= |before| && after == before[..from] + bytes + before[from + |bytes|..]
  }

  /** Nothing outside `from..to` differs. */
  ghost predicate Within(before: seq<byte>, from: nat, to: nat, after: seq<byte>) {
    from <= to <= |before| == |after| && after[..from] == before[..from] && after[to..] == before[to..]
  }

  lemma WroteMore(before: seq<byte>, from: nat, w: seq<byte>, mid: seq<byte>, x: byte)
    requires Wrote(before, from, w, mid) && from + |w| < |before|
    ensures Wrote(before, from, w + [x], mid[from + |w| := x])
  {}

  lemma WroteLast(before: seq<byte>, from: nat, w: seq<byte>, x: byte, mid: seq<byte>, y: byte)
    requires Wrote(before, from, w + [x], mid)
    ensures Wrote(before, from, w + [y], mid[from + |w| := y])
  {}

  lemma WroteWithin(before: seq<byte>, from: nat, w: seq<byte>, after: seq<byte>, to: nat)
    requires Wrote(before, from, w, after) && from + |w| <= to <= |before|
    ensures Within(before, from, to, after)
  {}

  lemma WroteBoth(before: seq<byte>, from: nat, v: seq<byte>, mid: seq<byte>, w: seq<byte>, after: seq<byte>)
    requires Wrote(before, from, v, mid) && Wrote(mid, from + |v|, w, after)
    ensures Wrote(before, from, v + w, after)
  {}

  /** The loop of num_encode: seven bits at a time after the current byte. */
  method TailEncode(it: Iter, num: nat) returns (ok: bool)
    requires it.Ok() && it.buf < it.end
    modifies it`buf, it.data
    ensures it.Ok() && ok == (|Tail(num)| < it.end - old(it.buf))
    ensures ok ==> it.buf == old(it.buf) + 1 + |Tail(num)|
    ensures ok ==> Wrote(old(it.data[..]), old(it.buf) + 1, Tail(num), it.data[..])
    ensures !ok ==> Within(old(it.data[..]), old(it.buf) + 1, it.end, it.data[..])
  {
    hide Wrote, Within;
    ghost var before, from := it.data[..], it.buf + 1;
    var n: nat := num;
    ghost var w: seq<byte> := [];
    WroteNothing(before, from);
    while true
      invariant it.Ok() && it.buf + 1 == from + |w| <= it.end
      invariant Wrote(before, from, w, it.data[..])
      invariant w + Tail(n) == Tail(num)
      decreases n
    {
      it.buf := it.buf + 1;
      if it.end == it.buf {
        WroteWithin(before, from, w, it.data[..], it.end);
        return false;
      }
      WroteMore(before, from, w, it.data[..], n % 128 + 128);
      it.data[it.buf] := n % 128 + 128;
      if n / 128 == 0 {
        break;
      }
      w := w + [n % 128 + 128];
      n := n / 128;
    }
    WroteLast(before, from, w, n % 128 + 128, it.data[..], n % 128);
    it.data[it.buf] := it.data[it.buf] - 128;
    it.buf := it.buf + 1;
    ok := true;
  }

  lemma WroteNothing(before: seq<byte>, from: nat)
    requires from <= |before|
    ensures Wrote(before, from, [], before)
  {}

  lemma LimitDivides(prefix: nat) returns (m: nat)
    requires IsPrefix(prefix)
    ensures Mul(m, Limit(prefix)) == 256
  {
    m := if prefix == 1 then 128 else if prefix == 2 then 64 else if prefix == 3 then 32 else if prefix == 4 then 16
      else if prefix == 5 then 8 else if prefix == 6 then 4 else if prefix == 7 then 2 else 1;
  }

  lemma FlagsAre(prefix: nat, b: byte)
    requires IsPrefix(prefix)
    ensures AreFlags(prefix, Flags(prefix, b))
  {
    hide Mul, LowBits, HighBits, Shr;
    var d := Limit(prefix);
    var m := LimitDivides(prefix);
    var q, r := Split(b, d);
    BitsOf(q, d, r);
    BitsOf(q, d, 0);
    FlagsBound(q, m, d, b);
  }

  lemma FlagsBound(q: nat, m: nat, d: nat, b: nat)
    requires Mul(q, d) <= b < Mul(m, d)
    ensures Mul(q, d) + d <= Mul(m, d)
  {
    hide Mul;
    if m <= q { MulMono(m, q, d); }
    MulMono(q + 1, m, d);
    MulSucc(q, d);
  }

  /** What num_encode did to the buffer. */
  ghost predicate Encoded(bytes: seq<byte>, before: seq<byte>, from: nat, end: nat, after: seq<byte>, buf: nat,
                          r: Res) {
    if from + |bytes| <= end then
      Wrote(before, from, bytes, after) && buf == from + |bytes| && r == if buf == end then Done else More
    else r == Err && Within(before, from, end, after)
  }

  /** num_encode: writes over the prefix bits of the current byte and on.  It fails exactly
      when the number does not fit in what is left of the buffer. */
  method NumEncode(it: Iter, prefix: nat, num: nat) returns (r: Res)
    requires it.Ok() && it.buf < it.end && IsPrefix(prefix) && num <= UINT_MAX
    modifies it`buf, it.data
    ensures it.Ok()
    ensures (FlagsAre(prefix, old(it.data[it.buf]));
      Encoded(NumBytes(prefix, old(Flags(prefix, it.data[it.buf])), num),
          old(it.data[..]), old(it.buf), it.end, it.data[..], it.buf, r))
  {
    hide Tail, Within, Wrote, LowBits, HighBits;
    FlagsAre(prefix, it.data[it.buf]);
    var pmax := Limit(prefix) - 1;
    ghost var before, from := it.data[..], it.buf;
    it.data[it.buf] := Flags(prefix, it.data[it.buf]);
    ghost var flags := it.data[it.buf];
    WroteOne(before, from, flags, it.data[..]);
    if num <= pmax {
      it.data[it.buf] := it.data[it.buf] + num;
      it.buf := it.buf + 1;
      WroteOne(before, from, flags + num, it.data[..]);
      return it.State();
    } else if it.end - it.buf < 2 {
      WroteWithin(before, from, [flags], it.data[..], it.end);
      TailNotEmpty(num - pmax);
      return Err;
    }
    it.data[it.buf] := it.data[it.buf] + pmax;
    ghost var first, mid: seq<byte> := [flags + pmax], it.data[..];
    WroteOne(before, from, flags + pmax, mid);
    var ok := TailEncode(it, num - pmax);
    if ok {
      WroteBoth(before, from, first, mid, Tail(num - pmax), it.data[..]);
      return it.State();
    } else {
      WithinAfter(before, from, first, mid, it.end, it.data[..]);
      return Err;
    }
  }

  lemma TailNotEmpty(n: nat)
    ensures |Tail(n)| >= 1
  {}

  lemma WroteOne(before: seq<byte>, from: nat, x: byte, after: seq<byte>)
    requires from < |before| == |after| && after[from] == x
    requires forall i :: 0 <= i < |before| && i != from ==> after[i] == before[i]
    ensures Wrote(before, from, [x], after)
  {
    assert after == before[..from] + [x] + before[from + 1..];
  }

  lemma WithinAfter(before: seq<byte>, from: nat, w: seq<byte>, mid: seq<byte>, to: nat, after: seq<byte>)
    requires Wrote(before, from, w, mid) && Within(mid, from + |w|, to, after)
    ensures Within(before, from, to, after)
  {
    assert after[..from] == mid[..from + |w|][..from];
  }

  function AddUsed(r: NumResult, n: nat): NumResult {
    if r.Num? then Num(r.num, r.used + n) else r
  }

  lemma TailUnfold(bytes: seq<byte>, k: nat, acc: nat)
    requires acc <= UINT_MAX
    ensures bytes == [] ==> TailNum(bytes, k, acc) == BadNum
    ensures bytes != [] && k > 4 ==> TailNum(bytes, k, acc) == UndefinedShift
    ensures bytes != [] && k <= 4 ==>
      var low := bytes[0] % 128;
      if Shr(UINT_MAX - acc, Weight(k)) < low then TailNum(bytes, k, acc) == BadNum
      else
        var acc' := acc + Mul(low, Weight(k));
        acc' <= UINT_MAX && TailNum(bytes, k, acc) ==
          if bytes[0] >= 128 then AddUsed(TailNum(bytes[1..], k + 1, acc'), 1) else Num(acc', 1)
  {
    hide Weight, Mul, Shr;
    if bytes != [] && k <= 4 { Grows(acc, k, bytes[0] % 128); }
  }

  /** num_decode */
  method NumDecode(it: Iter, prefix: nat) returns (out: NumResult)
    requires it.Ok() && it.buf < it.end && IsPrefix(prefix)
    modifies it`buf
    ensures it.Ok() && out == NumOf(prefix, it.data[old(it.buf)..it.end])
    ensures out.Num? ==> it.buf == old(it.buf) + out.used
  {
    hide Weight, Mul, Shr, TailNum, LowBits;
    var from := it.buf;
    ghost var all := NumOf(prefix, it.data[from..it.end]);
    var acc: nat := LowBits(it.data[it.buf], Limit(prefix));
    if acc < Limit(prefix) - 1 {
      it.buf := it.buf + 1;
      return Num(acc, 1);
    }
    var k := 0;
    assert it.data[from..it.end][1..] == it.data[from + 1..it.end];
    while true
      invariant it.Ok() && from <= it.buf < it.end && acc <= UINT_MAX && k == it.buf - from
      invariant AddUsed(TailNum(it.data[it.buf + 1..it.end], k, acc), it.buf + 1 - from) == all
      decreases it.end - it.buf
    {
      TailUnfold(it.data[it.buf + 1..it.end], k, acc);
      it.buf := it.buf + 1;
      if it.end == it.buf {
        return BadNum;
      }
      if k > 4 {
        return UndefinedShift;
      }
      var low := it.data[it.buf] % 128;
      if Shr(UINT_MAX - acc, Weight(k)) < low {
        return BadNum;
      }
      Grows(acc, k, low);
      acc := acc + Mul(low, Weight(k));
      k := k + 1;
      assert it.data[it.buf..it.end][1..] == it.data[it.buf + 1..it.end];
      if it.data[it.buf] < 128 {
        break;
      }
    }
    it.buf := it.buf + 1;
    return Num(acc, it.buf - from);
  }

  // ------------------------------------------------ Huffman strings

  /** huff_simulate */
  method HuffSimulate(code: Code, t: Literal) returns (n: nat)
    requires |code| == 256
    ensures n == |Payload(code, t)|
  {
    if !t.huff || |t.s| == 0 {
      assert t.s == [] ==> Cat(code, t.s) == [];
      return |t.s|;
    }
    var olen, i := 0, 0;
    while i < |t.s|
      invariant 0 <= i <= |t.s| && olen == |Cat(code, t.s[..i])|
    {
      CatSnoc(code, t.s[..i], t.s[i]);
      assert t.s[..i + 1] == t.s[..i] + [t.s[i]];
      olen := olen + |code[t.s[i]]|;
      i := i + 1;
    }
    assert t.s[..i] == t.s;
    return (olen + 7) / 8;
  }

  /** The inner loop of huff_encode: writes out the whole bytes of the `pl` bits `b`
      held in `pack`.  It fails when the buffer is full. */
  method Flush(it: Iter, pack0: nat, pl0: nat, ghost b0: Bits)
      returns (ok: bool, pack: nat, pl: nat, ghost b: Bits, ghost w: seq<byte>)
    requires it.Ok() && pl0 == |b0| <= 64 && pack0 == Word(b0)
    modifies it`buf, it.data
    ensures it.Ok() && it.buf == old(it.buf) + |w| && Wrote(old(it.data[..]), old(it.buf), w, it.data[..])
    ensures pl == |b| <= 64 && pack == Word(b) && b0 == Unpack(w) + b
    ensures if ok then pl < 8 else pl >= 8 && it.buf == it.end
  {
    hide Wrote, Word, Shl64, Shr64, Unpack;
    ghost var before, from := it.data[..], it.buf;
    pack, pl, b, w := pack0, pl0, b0, [];
    WroteNothing(before, from);
    UnpackNone();
    while pl >= 8
      invariant it.Ok() && it.buf == from + |w| && Wrote(before, from, w, it.data[..])
      invariant pl == |b| <= 64 && pack == Word(b) && b0 == Unpack(w) + b
    {
      if it.buf == it.end {
        ok := false;
        return;
      }
      WordTop(b, 8);
      ByteVal(b[..8]);
      WroteMore(before, from, w, it.data[..], Val(b[..8]));
      it.data[it.buf] := Shr64(pack, 56);
      it.buf := it.buf + 1;
      WordShift(b, 8);
      pack := Shl64(pack, 8);
      pl := pl - 8;
      UnpackSnoc(w, b);
      w, b := w + [Val(b[..8])], b[8..];
    }
    ok := true;
  }

  lemma UnpackNone()
    ensures Unpack([]) == []
  {}

  lemma UnpackSnoc(w: seq<byte>, b: Bits)
    requires |b| >= 8
    ensures Val(b[..8]) < 256 && Unpack(w + [Val(b[..8])]) + b[8..] == Unpack(w) + b
  {
    ByteVal(b[..8]);
    var x: byte := Val(b[..8]);
    UnpackCat(w, [x]);
    assert [x][1..] == [] && Unpack([x]) == ByteBits(x) + Unpack([]);
    assert b == b[..8] + b[8..];
  }

  /** There is no room in the bytes written so far for the bits still to come. */
  lemma HuffLonger(code: Code, s: seq<byte>, w: seq<byte>, b: Bits)
    requires |code| == 256 && Cat(code, s) == Unpack(w) + b && |b| > 0
    ensures |HuffBytes(code, s)| > |w|
  {
    assert |HuffBits(code, s)| == 8 * |HuffBytes(code, s)|;
  }

  lemma HuffWhole(code: Code, s: seq<byte>, w: seq<byte>)
    requires |code| == 256 && Cat(code, s) == Unpack(w)
    ensures HuffBytes(code, s) == w
  {
    assert Unpack(w) + Ones(0) == Unpack(w);
    assert HuffBits(code, s) == Unpack(w);
    PackUnpack(w);
  }

  lemma PadOf(n: nat, m: nat)
    requires 0 < m < 8
    ensures PadLength(8 * n + m) == 8 - m
  {}

  lemma HuffPadded(code: Code, s: seq<byte>, w: seq<byte>, b: Bits)
    requires |code| == 256 && Cat(code, s) == Unpack(w) + b && 0 < |b| < 8
    ensures Val(b + Ones(8 - |b|)) < 256 && HuffBytes(code, s) == w + [Val(b + Ones(8 - |b|))]
  {
    hide Val, Pack, Unpack, Cat, Ones, PadLength;
    var last := b + Ones(8 - |b|);
    PadOf(|w|, |b|);
    Assoc(Unpack(w), b, Ones(8 - |b|));
    PackCat(Unpack(w), last);
    PackOne(last);
    PackUnpack(w);
  }

  lemma PackOne(b: Bits)
    requires |b| == 8
    ensures Val(b) < 256 && Pack(b) == [Val(b)]
  {
    ByteVal(b);
    assert b[..8] == b && b[8..] == [];
  }

  /** huff_encode.  It runs out of buffer exactly when the encoded string is longer than what is left. */
  method HuffEncode(it: Iter, code: Code, s: seq<byte>) returns (r: Res)
    requires it.Ok() && it.buf < it.end && |code| == 256 && GoodCode(code)
    modifies it`buf, it.data
    ensures it.Ok()
    ensures var bytes := HuffBytes(code, s);
      if old(it.buf) + |bytes| <= it.end then
        r == More && it.buf == old(it.buf) + |bytes| && Wrote(old(it.data[..]), old(it.buf), bytes, it.data[..])
      else r == Done && Within(old(it.data[..]), old(it.buf), it.end, it.data[..])
  {
    hide Wrote, Within, Word, Shl64, Shr64, Or64, Unpack, Val, HuffBytes, GoodCode, Cat;
    ghost var before, from := it.data[..], it.buf;
    var pack, pl := 0, 0;
    ghost var b: Bits, w: seq<byte> := [], [];
    var i := 0;
    WordEmpty();
    WroteNothing(before, from);
    UnpackNone();
    CatOfNone(code);
    while i < |s|
      invariant 0 <= i <= |s| && it.Ok() && it.buf == from + |w| && Wrote(before, from, w, it.data[..])
      invariant pl == |b| < 8 && pack == Word(b) && Cat(code, s[..i]) == Unpack(w) + b
    {
      var c := code[s[i]];
      CodeLength(code, s[i]);
      pl := pl + |c|;
      OrBits(b, c);
      pack := Or64(pack, Shl64(Val(c), 64 - pl));
      CatSnoc(code, s[..i], s[i]);
      assert s[..i + 1] == s[..i] + [s[i]];
      ghost var mid := it.data[..];
      var ok: bool;
      ghost var b', w';
      ok, pack, pl, b', w' := Flush(it, pack, pl, b + c);
      WroteBoth(before, from, w, mid, w', it.data[..]);
      UnpackCat(w, w');
      MovedOver(Unpack(w), b, c, Unpack(w'), b');
      b, w := b', w + w';
      i := i + 1;
      if !ok {
        CatSplit(code, s[..i], s[i..]);
        assert s == s[..i] + s[i..];
        assert Cat(code, s) == Unpack(w) + (b + Cat(code, s[i..]));
        HuffLonger(code, s, w, b + Cat(code, s[i..]));
        WroteWithin(before, from, w, it.data[..], it.end);
        return Done;
      }
    }
    assert s[..i] == s;
    if pl == 0 {
      assert Unpack(w) + b == Unpack(w);
      HuffWhole(code, s, w);
    } else {
      HuffPadded(code, s, w, b);
      if it.buf == it.end {
        WroteWithin(before, from, w, it.data[..], it.end);
        return Done;
      }
      pl := pl + 8;
      OrBits(b, Ones(8));
      ValOfOnes();
      pack := Or64(pack, Shl64(0xff, 64 - pl));
      WordTop(b + Ones(8), 8);
      assert (b + Ones(8))[..8] == b + Ones(8 - |b|);
      WroteMore(before, from, w, it.data[..], Val(b + Ones(8 - |b|)));
      it.data[it.buf] := Shr64(pack, 56);
      it.buf := it.buf + 1;
    }
    return More;
  }

  lemma MovedOver(done: Bits, b: Bits, c: Bits, w: Bits, b': Bits)
    requires b + c == w + b'
    ensures done + b + c == done + w + b'
  {
    assert done + b + c == done + (b + c);
    assert done + w + b' == done + (w + b');
  }

  lemma ValOfOnes()
    ensures Val(Ones(8)) == 0xff
  {
    ValOnes(Ones(8));
    assert Pow2(8) == 256;
  }

  lemma CodeLength(code: Code, c: byte)
    requires |code| == 256 && GoodCode(code)
    ensures 5 <= |code[c]| <= 30
  {}

  lemma {:induction false} CatSplit(code: Code, s: seq<byte>, t: seq<byte>)
    requires |code| == 256
    ensures Cat(code, s + t) == Cat(code, s) + Cat(code, t)
  {
    if s == [] {
      assert s + t == t;
    } else {
      CatSplit(code, s[1..], t);
      assert (s + t)[1..] == s[1..] + t;
    }
  }
}
