/** The rest of src/vtc_h2_hpack.c as it runs: the Huffman decoder over its 64-bit
    window, strings and header fields, proved against Huffman.Walk and Hpack. */
module HpkHdr {
  import opened Options
  import opened Words
  import opened HpkInt
  import opened Bits
  import opened Huffman
  import opened HpkTable
  import opened Hpack
  import opened HpkCode

  // ------------------------------------------------ huff_decode

  /** The outcome of a walk that has already produced `s`. */
  function After(s: seq<byte>, w: Walked): Walked {
    if w.Chars? then Chars(s + w.s) else w
  }

  lemma Dropped(b: Bits, more: Bits, n: nat)
    requires n <= |b|
    ensures (b + more)[n..] == b[n..] + more
  {}

  lemma NothingLeft(b: Bits, bytes: seq<byte>)
    requires b == [] && bytes == []
    ensures b + Unpack(bytes) == []
  {}

  lemma NothingBefore(r: Bits)
    ensures [] + r == r
  {}

  lemma AfterNone(w: Walked)
    ensures After([], w) == w
  {
    if w.Chars? { assert [] + w.s == w.s; }
  }

  /** Where one step leads: the table and the output after it. */
  function NextTable(tables: Tables, p: Bits, idx: nat): Bits
    requires p in tables && idx < |tables[p].syms|
  {
    if tables[p].syms[idx].Escape? then p + ToBits(idx, tables[p].msk) else []
  }

  function NextOut(tables: Tables, p: Bits, idx: nat, s: seq<byte>): seq<byte>
    requires p in tables && idx < |tables[p].syms|
  {
    if tables[p].syms[idx].Escape? then s else s + [tables[p].syms[idx].chr]
  }

  /** One step of the walk, seen from a decoder that has produced `s`. */
  lemma WalkOn(tables: Tables, p: Bits, r: Bits, s: seq<byte>, idx: nat)
    requires TablesOk(tables) && p in tables && r != [] && idx == Val(Window(r, tables[p].msk))
    requires !(|r| < tables[p].msk && AllOnes(r))
    ensures idx < |tables[p].syms| && 1 <= tables[p].syms[idx].csm <= tables[p].msk <= 8
    ensures |r| < tables[p].syms[idx].csm ==> After(s, Walk(tables, p, r)) == Rejected
    ensures |r| >= tables[p].syms[idx].csm ==> NextTable(tables, p, idx) in tables
    ensures |r| >= tables[p].syms[idx].csm ==>
      After(s, Walk(tables, p, r)) ==
        After(NextOut(tables, p, idx, s), Walk(tables, NextTable(tables, p, idx), r[tables[p].syms[idx].csm..]))
  {
    hide Window, Val, ToBits;
    assert TblOk(tables, p);
    var w := Window(r, tables[p].msk);
    var sym := tables[p].syms[Val(w)];
    ToBitsOfVal(w);
    if |r| >= sym.csm && sym.Leaf? {
      var rest := Walk(tables, [], r[sym.csm..]);
      if rest.Chars? {
        assert s + ([sym.chr] + rest.s) == s + [sym.chr] + rest.s;
      }
    }
  }

  /** Fits as many bytes as possible into the word. */
  method Refill(it: Iter, pack0: nat, pl0: nat, ilen0: nat, ghost b0: Bits)
      returns (pack: nat, pl: nat, ilen: nat, ghost b: Bits)
    requires it.Ok() && it.buf + ilen0 <= it.end && pl0 == |b0| <= 64 && pack0 == Word(b0)
    modifies it`buf
    ensures it.Ok() && it.buf + ilen == old(it.buf) + ilen0 && pl == |b| <= 64 && pack == Word(b)
    ensures b + Unpack(it.data[it.buf..it.buf + ilen]) == b0 + Unpack(it.data[old(it.buf)..it.buf + ilen])
    ensures ilen == 0 || pl > 56
  {
    hide Word, Unpack, Or64, Shl64, Val, ByteBits;
    pack, pl, ilen, b := pack0, pl0, ilen0, b0;
    var stop := it.buf + ilen;
    while pl <= 56 && ilen > 0
      invariant it.Ok() && it.buf + ilen == stop <= it.end && pl == |b| <= 64 && pack == Word(b)
      invariant b + Unpack(it.data[it.buf..stop]) == b0 + Unpack(it.data[old(it.buf)..stop])
      decreases ilen
    {
      var x := it.data[it.buf];
      OrBits(b, ByteBits(x));
      ByteBitsVal(x);
      UnpackFirst(b, it.data[it.buf..stop]);
      assert it.data[it.buf..stop][1..] == it.data[it.buf + 1..stop];
      pack := Or64(pack, Shl64(x, 56 - pl));
      pl := pl + 8;
      it.buf := it.buf + 1;
      ilen := ilen - 1;
      b := b + ByteBits(x);
    }
  }

  lemma ByteBitsVal(x: byte)
    ensures |ByteBits(x)| == 8 && Val(ByteBits(x)) == x
  {
    assert Pow2(8) == 256;
    ValOfToBits(x, 8);
  }

  lemma UnpackFirst(b: Bits, bytes: seq<byte>)
    requires bytes != []
    ensures b + Unpack(bytes) == (b + ByteBits(bytes[0])) + Unpack(bytes[1..])
  {
    assert Unpack(bytes) == ByteBits(bytes[0]) + Unpack(bytes[1..]);
  }

  /** The value of the window read from the word is that of the bits still to come. */
  lemma WindowRead(b: Bits, more: Bits, n: nat)
    requires |b| <= 64 && n <= 8 && (more == [] || |b| >= n)
    ensures Shr64(Word(b), 64 - n) == Val(Window(b + more, n))
  {
    hide Val, Shr64, Word, Zeros;
    WordTop(b, n);
    if |b| >= n {
      assert (b + more)[..n] == b[..n];
    } else {
      assert b + more == b;
    }
  }

  lemma OnesRead(b: Bits)
    requires |b| <= 64
    ensures Shr64(Word(b), 64 - |b|) == Pow2(|b|) - 1 <==> AllOnes(b)
  {
    hide Val, Shr64, Word, Zeros, Pow2, AllOnes;
    WordTop(b, |b|);
    assert b[..|b|] == b;
    ValOnes(b);
  }

  lemma MaskOf(tables: Tables, p: Bits)
    requires TablesOk(tables)
    ensures [] in tables && (p in tables ==> 1 <= tables[p].msk <= 8 && |tables[p].syms| == Pow2(tables[p].msk))
  {}

  lemma WalkEmpty(tables: Tables, p: Bits, s: seq<byte>)
    requires TablesOk(tables) && p in tables
    ensures After(s, Walk(tables, p, [])) == Chars(s)
  {
    assert s + [] == s;
  }

  lemma WalkPadded(tables: Tables, p: Bits, r: Bits, s: seq<byte>)
    requires TablesOk(tables) && p in tables && r != [] && |r| < tables[p].msk && AllOnes(r)
    ensures After(s, Walk(tables, p, r)) == if p == [] then Chars(s) else Trapped
  {
    assert s + [] == s;
  }

  /** huff_decode: the walk over the `ilen` bytes at the position, through a word of 64 bits. */
  method HuffDecode(it: Iter, tables: Tables, ilen0: nat) returns (out: Walked)
    requires it.Ok() && it.buf + ilen0 <= it.end && TablesOk(tables)
    modifies it`buf
    ensures it.Ok() && out == Walk(tables, [], Unpack(it.data[old(it.buf)..old(it.buf) + ilen0]))
    ensures out.Chars? ==> it.buf == old(it.buf) + ilen0
  {
    hide After, NextOut, NextTable, TablesOk, TblOk, Walk, Word, Unpack, Shl64, Shr64, Val, Window, AllOnes, Pow2;
    var ilen, pack, pl := ilen0, 0, 0;
    var stop := it.buf + ilen;
    var str: seq<byte> := [];
    var p: Bits := [];
    ghost var b: Bits := [];
    ghost var r := Unpack(it.data[it.buf..stop]);
    MaskOf(tables, []);
    ghost var all := Walk(tables, [], r);
    WordEmpty();
    AfterNone(all);
    NothingBefore(r);
    while ilen > 0 || pl != 0
      invariant it.Ok() && it.buf + ilen == stop <= it.end && pl == |b| <= 64 && pack == Word(b)
      invariant p in tables && r == b + Unpack(it.data[it.buf..stop]) && all == After(str, Walk(tables, p, r))
      decreases |r|
    {
      MaskOf(tables, p);
      var msk := tables[p].msk;
      if pl < msk {
        if ilen == 0 {
          assert r == b by { UnpackNone(); assert it.data[it.buf..stop] == []; }
          OnesRead(b);
          if Shr64(pack, 64 - pl) == Pow2(pl) - 1 {
            WalkPadded(tables, p, r, str);
            return if p == [] then Chars(str) else Trapped;
          }
        }
        pack, pl, ilen, b := Refill(it, pack, pl, ilen, b);
      }
      assert !(|r| < msk && AllOnes(r));
      ghost var more := Unpack(it.data[it.buf..stop]);
      WindowRead(b, more, msk);
      var idx := Shr64(pack, 64 - msk);
      WalkOn(tables, p, r, str, idx);
      var sym := tables[p].syms[idx];
      if pl < sym.csm {
        return Rejected;
      }
      WordShift(b, sym.csm);
      Dropped(b, more, sym.csm);
      pack := Shl64(pack, sym.csm);
      pl := pl - sym.csm;
      str, p := NextOut(tables, p, idx, str), NextTable(tables, p, idx);
      b, r := b[sym.csm..], r[sym.csm..];
    }
    NothingLeft(b, it.data[it.buf..stop]);
    WalkEmpty(tables, p, str);
    return Chars(str);
  }

  // ------------------------------------------------ how much huff_decode can write

  /** huff_decode never produces more than eight octets for every five bytes,
      which is what str_decode allocates. */
  lemma DecodedFits(code: Code, tables: Tables, payload: seq<byte>)
    requires |code| == 256 && GoodCode(code) && TablesFor(code, tables) && TablesOk(tables) && [] in tables
    ensures var out := Walk(tables, [], Unpack(payload)); out.Chars? ==> |out.s| <= |payload| * 8 / 5
  {
    hide GoodCode, TablesFor, TablesOk, Walk, Unpack, Cat;
    var out := Walk(tables, [], Unpack(payload));
    if out.Chars? {
      assert |Unpack(payload)| >= |Cat(code, out.s)| by { WalkCost(code, tables, [], Unpack(payload)); }
      CatLength(code, out.s);
    }
  }

  // ------------------------------------------------ strings

  /** How str_encode ends with `room` bytes left: an empty Huffman string right at
      the end of the buffer trips the assertion of huff_encode, and a Huffman string that
      fills the buffer is reported as if there were room for more. */
  function StrRes(code: Code, t: Literal, room: nat): Res
    requires |code| == 256
  {
    var n := |StrBytes(code, t)|;
    if n > room then Err
    else if n == room && t.huff then if t.s == [] then Trap else More
    else if n == room then Done
    else More
  }

  /** What an encoder did: it wrote `bytes` if it succeeded, and nothing outside its buffer if not. */
  ghost predicate Sent(bytes: seq<byte>, before: seq<byte>, from: nat, end: nat, after: seq<byte>, buf: nat, r: Res) {
    if r.More? || r.Done? then Wrote(before, from, bytes, after) && buf == from + |bytes| <= end
    else Within(before, from, end, after)
  }

  lemma EncodedSent(bytes: seq<byte>, before: seq<byte>, from: nat, end: nat, after: seq<byte>, buf: nat, r: Res)
    requires Encoded(bytes, before, from, end, after, buf, r)
    ensures Sent(bytes, before, from, end, after, buf, r)
    ensures r == if |bytes| + from > end then Err else if |bytes| + from == end then Done else More
  {}

  /** Writing the flag byte first and then over it. */
  lemma SentOver(bytes: seq<byte>, before: seq<byte>, from: nat, end: nat, x: byte, mid: seq<byte>, after: seq<byte>,
                 buf: nat, r: Res)
    requires from < end <= |before| && mid == before[from := x] && |bytes| >= 1
    requires Sent(bytes, mid, from, end, after, buf, r)
    ensures Sent(bytes, before, from, end, after, buf, r)
  {}

  /** One part after another. */
  lemma SentThen(a: seq<byte>, b: seq<byte>, before: seq<byte>, from: nat, end: nat, mid: seq<byte>,
                 after: seq<byte>, buf: nat, r: Res)
    requires from + |a| <= end <= |before|
    requires Wrote(before, from, a, mid) && Sent(b, mid, from + |a|, end, after, buf, r)
    ensures Sent(a + b, before, from, end, after, buf, r)
  {
    if r.More? || r.Done? { WroteBoth(before, from, a, mid, b, after); }
  }

  /** Puts the flag byte down and the number over its low bits. */
  method FlagNum(it: Iter, prefix: nat, flags: byte, num: nat) returns (r: Res)
    requires it.Ok() && it.buf < it.end && IsPrefix(prefix) && AreFlags(prefix, flags) && num <= UINT_MAX
    modifies it`buf, it.data
    ensures it.Ok() && Sent(NumBytes(prefix, flags, num), old(it.data[..]), old(it.buf), it.end, it.data[..], it.buf, r)
    ensures var n := old(it.buf) + |NumBytes(prefix, flags, num)|;
      r == if n > it.end then Err else if n == it.end then Done else More
  {
    hide NumBytes, Sent, Encoded, LowBits, HighBits, Mul;
    ghost var before, from := it.data[..], it.buf;
    it.data[it.buf] := flags;
    ghost var mid := it.data[..];
    FlagsKept(prefix, flags);
    r := NumEncode(it, prefix, num);
    ghost var bytes := NumBytes(prefix, flags, num);
    EncodedSent(bytes, mid, from, it.end, it.data[..], it.buf, r);
    SentOver(bytes, before, from, it.end, flags, mid, it.data[..], it.buf, r);
  }

  lemma FlagsKept(prefix: nat, flags: byte)
    requires IsPrefix(prefix) && AreFlags(prefix, flags)
    ensures Flags(prefix, flags) == flags
  {}

  method Copy(it: Iter, s: seq<byte>)
    requires it.Ok() && it.buf + |s| <= it.end
    modifies it`buf, it.data
    ensures it.Ok() && it.buf == old(it.buf) + |s| && Wrote(old(it.data[..]), old(it.buf), s, it.data[..])
  {
    var from := it.buf;
    forall i | 0 <= i < |s| {
      it.data[from + i] := s[i];
    }
    it.buf := it.buf + |s|;
  }

  /** str_encode */
  method StrEncode(it: Iter, code: Code, t: Literal) returns (r: Res)
    requires it.Ok() && it.buf < it.end && |code| == 256 && GoodCode(code) && |Payload(code, t)| <= UINT_MAX
    modifies it`buf, it.data
    ensures it.Ok() && r == StrRes(code, t, it.end - old(it.buf))
    ensures Sent(StrBytes(code, t), old(it.data[..]), old(it.buf), it.end, it.data[..], it.buf, r)
  {
    hide GoodCode, NumBytes, Wrote, Within, HuffBytes;
    ghost var before, from := it.data[..], it.buf;
    var slen := HuffSimulate(code, t);
    ghost var num := NumBytes(7, if t.huff then 0x80 else 0, slen);
    r := FlagNum(it, 7, if t.huff then 0x80 else 0, slen);
    if r.Err? {
      return;
    }
    ghost var mid := it.data[..];
    WroteWithin(before, from, num, mid, it.end);
    if slen > it.end - it.buf {
      return Err;
    }
    PayloadEmpty(code, t);
    if t.huff {
      if it.buf == it.end {
        return Trap;
      }
      r := HuffEncode(it, code, t.s);
    } else {
      Copy(it, t.s);
      r := it.State();
    }
    SentThen(num, Payload(code, t), before, from, it.end, mid, it.data[..], it.buf, r);
  }

  lemma SliceOf(s: seq<byte>, a: nat, b: nat, c: nat, d: nat)
    requires a <= b <= |s| && c <= d <= b - a
    ensures s[a..b][c..d] == s[a + c..a + d]
  {
    assert forall i :: 0 <= i < d - c ==> s[a..b][c..d][i] == s[a + c..a + d][i];
  }

  /** str_decode */
  method StrDecode(it: Iter, tables: Tables) returns (out: StrResult)
    requires it.Ok() && it.buf < it.end && TablesOk(tables)
    modifies it`buf
    ensures it.Ok() && out == StrOf(tables, it.data[old(it.buf)..it.end])
    ensures out.Str? ==> it.buf == old(it.buf) + out.used
  {
    hide TablesOk, NumOf, Walk, Unpack;
    var from := it.buf;
    ghost var bytes := it.data[from..it.end];
    var huff := it.data[it.buf] >= 128;
    var n := NumDecode(it, 7);
    if n.UndefinedShift? {
      return UndefinedStr;
    }
    if n.BadNum? || it.buf == it.end || n.num > it.end - it.buf {
      return BadStr;
    }
    SliceOf(it.data[..], from, it.end, n.used, n.used + n.num);
    if huff {
      var w := HuffDecode(it, tables, n.num);
      match w {
        case Chars(s) => return if s == [] then BadStr else Str(Literal(s, true), n.used + n.num);
        case Rejected => return BadStr;
        case Trapped => return TrapStr;
      }
    } else {
      var s := it.data[it.buf..it.buf + n.num];
      it.buf := it.buf + n.num;
      return Str(Literal(s, false), n.used + n.num);
    }
  }

  // ------------------------------------------------ HPK_EncHdr

  /** How the encoding of a name ends: only `More` lets the value follow. */
  function NameRes(code: Code, h: Header, room: nat): Res
    requires |code| == 256 && (h.i != 0 || h.key.Some?) && room > 0
  {
    if h.i != 0 then
      if |NameBytes(code, h)| >= room then Err else More
    else if room == 1 then Trap
    else
      var r := StrRes(code, h.key.value, room - 1);
      if r.Done? then Err else r
  }

  function HdrRes(code: Code, h: Header, room: nat): Res
    requires |code| == 256 && Formed(h) && room > 0
  {
    if h.kind.Idx? then
      var n := |HdrBytes(code, h)|;
      if n > room then Trap else if n == room then Done else More
    else
      var r := NameRes(code, h, room);
      if !r.More? then r
      else if |NameBytes(code, h)| >= room then Trap
      else StrRes(code, h.value, room - |NameBytes(code, h)|)
  }

  /** A header field goes out exactly when its bytes fit, but for an empty Huffman value
      that would end the buffer. */
  lemma HdrGoesOut(code: Code, h: Header, room: nat)
    requires |code| == 256 && Formed(h) && room > 0
    ensures var n := |HdrBytes(code, h)|; var r := HdrRes(code, h, room);
      r.More? || r.Done? <==> n < room || (n == room && (h.kind.Idx? || h.value != Literal([], true)))
  {
    hide NumBytes, StrBytes;
    assert h.value == Literal(h.value.s, h.value.huff);
    if !h.kind.Idx? && h.i == 0 {
      assert |NameBytes(code, h)| == 1 + |StrBytes(code, h.key.value)|;
    }
  }

  /** The name of a literal field. */
  method NameEncode(it: Iter, code: Code, h: Header) returns (r: Res)
    requires it.Ok() && it.buf < it.end && |code| == 256 && GoodCode(code)
    requires !h.kind.Idx? && (h.i != 0 || h.key.Some?) && h.i <= UINT_MAX
    requires h.key.Some? ==> |Payload(code, h.key.value)| <= UINT_MAX
    modifies it`buf, it.data
    ensures it.Ok() && r == NameRes(code, h, it.end - old(it.buf)) && !r.Done?
    ensures Sent(NameBytes(code, h), old(it.data[..]), old(it.buf), it.end, it.data[..], it.buf, r)
  {
    hide GoodCode, NumBytes, Wrote, Within, StrBytes, Payload, StrRes;
    ghost var before, from := it.data[..], it.buf;
    if h.i != 0 {
      r := FlagNum(it, Prefix(h.kind), Tag(h.kind), h.i);
      if !r.More? {
        if r.Done? { WroteWithin(before, from, NameBytes(code, h), it.data[..], it.end); }
        return Err;
      }
    } else {
      it.data[it.buf] := Tag(h.kind);
      ghost var mid := it.data[..];
      WroteOne(before, from, Tag(h.kind), mid);
      it.buf := it.buf + 1;
      if it.buf == it.end {
        WroteWithin(before, from, [Tag(h.kind)], mid, it.end);
        return Trap;
      }
      r := StrEncode(it, code, h.key.value);
      SentThen([Tag(h.kind)], StrBytes(code, h.key.value), before, from, it.end, mid, it.data[..], it.buf, r);
      if r.Done? {
        WroteWithin(before, from, NameBytes(code, h), it.data[..], it.end);
        return Err;
      }
    }
  }

  /** The encoder's table, as Hpack describes it. */
  ghost function TableOf(ctx: Ctx): Table
    reads ctx
  {
    Table(ctx.dyn, ctx.maxsize)
  }

  /** HPK_EncHdr: the bytes of the field go out, and the table grows exactly when they did. */
  method EncHdr(it: Iter, ctx: Ctx, code: Code, h: Header) returns (r: Res)
    requires it.Ok() && it.buf < it.end && |code| == 256 && GoodCode(code) && ctx.Valid()
    requires Formed(h) && h.i <= UINT_MAX && |Payload(code, h.value)| <= UINT_MAX
    requires h.key.Some? ==> |Payload(code, h.key.value)| <= UINT_MAX
    modifies it`buf, it.data, ctx
    ensures it.Ok()
    ensures var r0 := HdrRes(code, h, it.end - old(it.buf));
      if !r0.More? && !r0.Done? then r == r0 && ctx.Valid() && TableOf(ctx) == old(TableOf(ctx))
      else if TableSent(old(TableOf(ctx)), h).None? then r == Trap
      else r == r0 && ctx.Valid() && TableSent(old(TableOf(ctx)), h) == Some(TableOf(ctx))
    ensures r.More? || r.Done? ==>
      Sent(HdrBytes(code, h), old(it.data[..]), old(it.buf), it.end, it.data[..], it.buf, r)
    ensures r.Err? ==> Within(old(it.data[..]), old(it.buf), it.end, it.data[..])
  {
    hide GoodCode, NumBytes, Wrote, Within, StrBytes, Payload, StrRes, NameRes, PushedAs, NameBytes, Ctx.Valid;
    ghost var before, from := it.data[..], it.buf;
    if h.kind.Idx? {
      r := FlagNum(it, 7, 0x80, h.i);
      return if r.Err? then Trap else r;
    }
    r := NameEncode(it, code, h);
    if !r.More? {
      return;
    }
    ghost var mid := it.data[..];
    if it.buf == it.end {
      return Trap;
    }
    r := StrEncode(it, code, h.value);
    SentThen(NameBytes(code, h), StrBytes(code, h.value), before, from, it.end, mid, it.data[..], it.buf, r);
    if r.Err? || r.Trap? {
      return;
    }
    if h.kind.Inc? {
      var ok := ctx.PushHeader(KeyOf(h), h.i, h.value.s);
      if !ok {
        return Trap;
      }
    }
  }

  function KeyOf(h: Header): Option<Text> {
    if h.key.Some? then Some(h.key.value.s) else None
  }

  // ------------------------------------------------ HPK_DecHdr

  method NameDecode(it: Iter, ctx: Ctx, tables: Tables, kind: Kind) returns (out: NameResult)
    requires it.Ok() && it.buf < it.end && TablesOk(tables) && ctx.Valid()
    modifies it`buf
    ensures it.Ok() && out == NameOf(tables, TableOf(ctx), kind, it.data[old(it.buf)..it.end])
    ensures out.NameIs? ==> it.buf == old(it.buf) + out.used
  {
    hide TablesOk, NumOf, StrOf, Find, Ctx.Valid;
    var from := it.buf;
    var n := NumDecode(it, Prefix(kind));
    if n.UndefinedShift? {
      return NameFails(UndefinedHdr);
    }
    if n.BadNum? || it.buf == it.end {
      return NameFails(BadHdr);
    }
    NumIs32(Prefix(kind), it.data[from..it.end]);
    if n.num != 0 {
      var e := ctx.GetField(n.num);
      return if e.None? then NameFails(BadHdr) else NameIs(ByIndex(n.num, e.value.key), n.used);
    }
    assert it.data[from..it.end][n.used..] == it.data[it.buf..it.end];
    var s := StrDecode(it, tables);
    match s {
      case Str(t, used) => return if it.buf == it.end then NameFails(BadHdr) else NameIs(ByText(t), n.used + used);
      case BadStr => return NameFails(BadHdr);
      case TrapStr => return NameFails(TrapHdr);
      case UndefinedStr => return NameFails(UndefinedHdr);
    }
  }

  ghost function Unread(it: Iter): (bytes: seq<byte>)
    requires it.Ok() && it.buf < it.end
    reads it, it.data
    ensures bytes != [] && bytes == it.data[it.buf..it.end]
  {
    it.data[it.buf..it.end]
  }

  /** What HPK_DecHdr makes of the bytes from the position on. */
  ghost function Ahead(it: Iter, ctx: Ctx, tables: Tables): HdrResult
    requires it.Ok() && it.buf < it.end && TablesOk(tables)
    reads it, it.data, ctx
  {
    HdrOf(tables, TableOf(ctx), Unread(it))
  }

  /** HPK_DecHdr */
  method DecHdr(it: Iter, ctx: Ctx, tables: Tables) returns (out: HdrResult)
    requires it.Ok() && it.buf < it.end && TablesOk(tables) && ctx.Valid()
    modifies it`buf, ctx
    ensures it.Ok() && ctx.Valid() && out == old(Ahead(it, ctx, tables))
    ensures out.Hdr? ==> it.buf == old(it.buf) + out.used
    ensures TableOf(ctx) == if out.Hdr? || out.Resized? then out.t else old(TableOf(ctx))
  {
    hide TablesOk, NumOf, StrOf, Find, Ctx.Valid, NameOf, Evicted;
    var from := it.buf;
    ghost var bytes := it.data[from..it.end];
    var kind := KindOf(it.data[it.buf]);
    if kind.None? {
      var n := NumDecode(it, 5);
      if n.UndefinedShift? {
        return UndefinedHdr;
      }
      if n.BadNum? || it.buf != it.end {
        return BadHdr;
      }
      NumIs32(5, bytes);
      ctx.ResizeTbl(n.num);
      return Resized(Table(ctx.dyn, ctx.maxsize));
    }
    if kind.value.Idx? {
      var n := NumDecode(it, 7);
      if n.UndefinedShift? {
        return UndefinedHdr;
      }
      if n.BadNum? || n.num == 0 {
        return BadHdr;
      }
      NumIs32(7, bytes);
      var e := ctx.GetField(n.num);
      return if e.None? then BadHdr
             else Hdr(Whole(n.num, e.value.key, e.value.value), n.used, Table(ctx.dyn, ctx.maxsize));
    }
    var name := NameDecode(it, ctx, tables, kind.value);
    if name.NameFails? {
      return name.r;
    }
    assert bytes[name.used..] == it.data[it.buf..it.end];
    var v := StrDecode(it, tables);
    match v {
      case BadStr => return BadHdr;
      case TrapStr => return TrapHdr;
      case UndefinedStr => return UndefinedHdr;
      case Str(t, used) =>
        if kind.value.Inc? {
          var ok := ctx.PushHeader(Some(KeyText(name.name)), 0, t.s);
        }
        return Hdr(Lit(kind.value, name.name, t), name.used + used, Table(ctx.dyn, ctx.maxsize));
    }
  }

  /** num_decode yields 32-bit numbers. */
  lemma NumIs32(prefix: nat, bytes: seq<byte>)
    requires IsPrefix(prefix)
    ensures var n := NumOf(prefix, bytes); n.Num? ==> n.num <= UINT_MAX
  {}
}
