/** String literals and header fields of HPACK (sections 5.2 and 6 of RFC 7541): the
    bytes HPK_EncHdr writes, what HPK_DecHdr makes of bytes, and that the
    two keep names, values and dynamic tables in step. */
module Hpack {
  import opened Options
  import opened Words
  import opened HpkInt
  import opened Bits
  import opened Huffman
  import opened HpkTable

  // ------------------------------------------------ strings

  datatype Literal = Literal(s: Text, huff: bool)

  function Payload(code: Code, t: Literal): seq<byte>
    requires |code| == 256
  {
    if t.huff then HuffBytes(code, t.s) else t.s
  }

  function StrBytes(code: Code, t: Literal): (r: seq<byte>)
    requires |code| == 256
    ensures |r| >= 1
  {
    NumBytes(7, if t.huff then 0x80 else 0, |Payload(code, t)|) + Payload(code, t)
  }

  datatype StrResult = Str(t: Literal, used: nat) | BadStr | TrapStr | UndefinedStr

  /** str_decode */
  function StrOf(tables: Tables, bytes: seq<byte>): (r: StrResult)
    requires TablesOk(tables)
    ensures r.Str? ==> 1 <= r.used <= |bytes|
  {
    var n := NumOf(7, bytes);
    if n.UndefinedShift? then UndefinedStr
    else if n.BadNum? || n.used >= |bytes| || n.num > |bytes| - n.used then BadStr
    else
      var payload := bytes[n.used..n.used + n.num];
      if bytes[0] >= 128 then
        match Walk(tables, [], Unpack(payload))
        case Chars(s) => if s == [] then BadStr else Str(Literal(s, true), n.used + n.num)
        case Rejected => BadStr
        case Trapped => TrapStr
      else Str(Literal(payload, false), n.used + n.num)
  }

  /** What the code handles of a string that is followed by `rest` in its block:
      not an encoded length of 127, no empty Huffman string, no empty string at the end of the block. */
  ghost predicate StrSafe(code: Code, t: Literal, rest: seq<byte>)
    requires |code| == 256
  {
    && |Payload(code, t)| != 127
    && !(t.s == [] && (t.huff || rest == []))
  }

  lemma {:induction false} CatLength(code: Code, s: seq<byte>)
    requires GoodCode(code)
    ensures |Cat(code, s)| >= 5 * |s|
  {
    if s != [] { CatLength(code, s[1..]); }
  }

  lemma PayloadEmpty(code: Code, t: Literal)
    requires GoodCode(code)
    ensures Payload(code, t) == [] <==> t.s == []
  {
    CatLength(code, t.s);
    assert t.s == [] ==> Cat(code, t.s) == [];
  }

  /** The parts of an encoded string. */
  lemma StrParts(code: Code, t: Literal, rest: seq<byte>)
    requires |code| == 256
    ensures var n := |StrBytes(code, t)| - |Payload(code, t)|; var all := StrBytes(code, t) + rest;
      && n >= 1 && all[n..n + |Payload(code, t)|] == Payload(code, t)
      && all == NumBytes(7, if t.huff then 0x80 else 0, |Payload(code, t)|) + (Payload(code, t) + rest)
      && (all[0] >= 128 <==> t.huff)
  {
    var num := NumBytes(7, if t.huff then 0x80 else 0, |Payload(code, t)|);
    assert StrBytes(code, t) + rest == num + (Payload(code, t) + rest);
  }

  /** A string survives encoding and decoding, and exactly its bytes are read,
      exactly when it is one the code handles. */
  lemma StrRoundTrip(code: Code, tables: Tables, t: Literal, rest: seq<byte>)
    requires GoodCode(code) && TablesFor(code, tables)
    requires |Payload(code, t)| <= UINT_MAX
    ensures StrOf(tables, StrBytes(code, t) + rest) == Str(t, |StrBytes(code, t)|) <==> StrSafe(code, t, rest)
  {
    hide GoodCode, TablesOk, NumOf, NumBytes, Walk, Unpack, HuffBytes;
    var flags: byte := if t.huff then 0x80 else 0;
    var payload := Payload(code, t);
    var all := StrBytes(code, t) + rest;
    StrParts(code, t, rest);
    NumRoundTrip(7, flags, |payload|, payload + rest);
    if t.huff { HuffRoundTrip(code, tables, t.s); }
    PayloadEmpty(code, t);
    if |payload| == 127 {
      AllOnesReadsOn(7, flags, payload + rest);
      OneByte(flags);
    }
  }

  lemma OneByte(flags: byte)
    requires flags == 0x80 || flags == 0
    ensures |NumBytes(7, flags, 127)| == 1
  {}

  /** A string is read from no fewer bytes than are written for it. */
  lemma StrCost(code: Code, tables: Tables, bytes: seq<byte>)
    requires |code| == 256 && GoodCode(code) && TablesFor(code, tables) && TablesOk(tables)
    ensures var r := StrOf(tables, bytes); r.Str? ==> r.used >= |StrBytes(code, r.t)|
  {
    hide GoodCode, TablesFor, NumOf, NumBytes, Walk, Unpack, HuffBytes, TblOk;
    var r, n := StrOf(tables, bytes), NumOf(7, bytes);
    if r.Str? {
      var flags: byte := if r.t.huff then 0x80 else 0;
      NumCost(7, flags, bytes);
      if r.t.huff { HuffCost(code, tables, bytes[n.used..n.used + n.num], r.t.s); }
      NumGrows(7, flags, |Payload(code, r.t)|, n.num);
    }
  }

  // ------------------------------------------------ header fields

  datatype Kind = Idx | Inc | Not | Never

  /** A field to be encoded: fully indexed, or a literal whose name is given by index (`i` not 0) or by `key`. */
  datatype Header = Header(kind: Kind, i: nat, key: Option<Literal>, value: Literal)

  predicate Formed(h: Header) { h.kind.Idx? || h.i != 0 || h.key.Some? }

  /** A name as decoded: looked up, or read. */
  datatype Name = ByIndex(i: nat, key: Text) | ByText(lit: Literal)

  function KeyText(name: Name): Text { if name.ByIndex? then name.key else name.lit.s }

  /** A field as decoded: looked up under `i`, or read as a literal. */
  datatype Field =
    | Whole(i: nat, key: Text, value: Text)
    | Lit(kind: Kind, name: Name, val: Literal)

  /** The dynamic table and its bound. */
  datatype Table = Table(dyn: seq<Entry>, max: nat)

  function Prefix(kind: Kind): (r: nat)
    ensures IsPrefix(r)
  {
    match kind case Idx => 7 case Inc => 6 case _ => 4
  }

  function Tag(kind: Kind): (r: byte)
    ensures AreFlags(Prefix(kind), r)
  {
    match kind case Idx => 0x80 case Inc => 0x40 case Not => 0x00 case Never => 0x10
  }

  function NameBytes(code: Code, h: Header): (r: seq<byte>)
    requires |code| == 256 && (h.i != 0 || h.key.Some?)
    ensures |r| >= 1
  {
    if h.i != 0 then NumBytes(Prefix(h.kind), Tag(h.kind), h.i)
    else [Tag(h.kind)] + StrBytes(code, h.key.value)
  }

  /** HPK_EncHdr */
  function HdrBytes(code: Code, h: Header): (r: seq<byte>)
    requires |code| == 256 && Formed(h)
    ensures |r| >= 1
  {
    if h.kind.Idx? then NumBytes(7, 0x80, h.i)
    else NameBytes(code, h) + StrBytes(code, h.value)
  }

  datatype HdrResult =
    | Hdr(f: Field, used: nat, t: Table)
    | Resized(t: Table)
    | BadHdr
    | TrapHdr
    | UndefinedHdr

  function KindOf(b: byte): Option<Kind> {
    if b >= 128 then Some(Idx)
    else if b / 64 == 1 then Some(Inc)
    else if b / 16 == 0 then Some(Not)
    else if b / 16 == 1 then Some(Never)
    else None
  }

  /** The name of a literal field; `used` bytes are read. */
  datatype NameResult = NameIs(name: Name, used: nat) | NameFails(r: HdrResult)

  function NameOf(tables: Tables, t: Table, kind: Kind, bytes: seq<byte>): (r: NameResult)
    requires TablesOk(tables)
    ensures r.NameFails? ==> !r.r.Hdr? && !r.r.Resized?
    ensures r.NameIs? ==> r.used < |bytes|
  {
    var n := NumOf(Prefix(kind), bytes);
    if n.UndefinedShift? then NameFails(UndefinedHdr)
    else if n.BadNum? || n.used >= |bytes| then NameFails(BadHdr)
    else if n.num != 0 then
      var e := Find(t.dyn, n.num);
      if e.None? then NameFails(BadHdr) else NameIs(ByIndex(n.num, e.value.key), n.used)
    else
      match StrOf(tables, bytes[n.used..])
      case Str(s, used) => if n.used + used >= |bytes| then NameFails(BadHdr) else NameIs(ByText(s), n.used + used)
      case BadStr => NameFails(BadHdr)
      case TrapStr => NameFails(TrapHdr)
      case UndefinedStr => NameFails(UndefinedHdr)
  }

  /** A literal field, once its name (in `n` bytes) and its value are read. */
  function WithValue(t: Table, kind: Kind, name: Name, n: nat, value: StrResult): (r: HdrResult)
    ensures r.Hdr? ==> value.Str? && r.used == n + value.used
  {
    match value
    case Str(v, used) => Hdr(Lit(kind, name, v), n + used, Indexed(t, kind, Entry(KeyText(name), v.s)))
    case BadStr => BadHdr
    case TrapStr => TrapHdr
    case UndefinedStr => UndefinedHdr
  }

  /** A literal field, its kind known. */
  function LiteralOf(tables: Tables, t: Table, kind: Kind, bytes: seq<byte>): (r: HdrResult)
    requires TablesOk(tables)
    ensures r.Hdr? ==> 1 <= r.used <= |bytes|
  {
    var name := NameOf(tables, t, kind, bytes);
    if name.NameFails? then name.r
    else WithValue(t, kind, name.name, name.used, StrOf(tables, bytes[name.used..]))
  }

  /** An indexed field. */
  function IndexedOf(t: Table, bytes: seq<byte>): (r: HdrResult)
    ensures r.Hdr? ==> 1 <= r.used <= |bytes|
  {
    var n := NumOf(7, bytes);
    if n.UndefinedShift? then UndefinedHdr
    else if n.BadNum? || n.num == 0 then BadHdr
    else
      var e := Find(t.dyn, n.num);
      if e.None? then BadHdr else Hdr(Whole(n.num, e.value.key, e.value.value), n.used, t)
  }

  /** A dynamic table size update, taken only at the end of a block. */
  function ResizeOf(t: Table, bytes: seq<byte>): (r: HdrResult)
    ensures !r.Hdr?
  {
    var n := NumOf(5, bytes);
    if n.UndefinedShift? then UndefinedHdr
    else if n.BadNum? || n.used != |bytes| then BadHdr
    else Resized(Table(Evicted(t.dyn, n.num), n.num))
  }

  /** HPK_DecHdr */
  function HdrOf(tables: Tables, t: Table, bytes: seq<byte>): (r: HdrResult)
    requires TablesOk(tables) && bytes != []
    ensures r.Hdr? ==> 1 <= r.used <= |bytes|
  {
    var kind := KindOf(bytes[0]);
    if kind.None? then ResizeOf(t, bytes)
    else if kind.value.Idx? then IndexedOf(t, bytes)
    else LiteralOf(tables, t, kind.value, bytes)
  }

  /** Only incremental indexing adds to the table. */
  function Indexed(t: Table, kind: Kind, e: Entry): Table {
    if kind.Inc? && t.max != 0 then Table(Pushed(t.dyn, t.max, e), t.max) else t
  }

  // ------------------------------------------------ the wire format, as sections 5.2 and 6 of RFC 7541 draw it

  /** What the first byte of a field says of it. */
  lemma FirstByteTells(tables: Tables, t: Table, bytes: seq<byte>)
    requires TablesOk(tables) && bytes != []
    ensures var r, b := HdrOf(tables, t, bytes), bytes[0];
      && (r.Hdr? ==> !(32 <= b <= 63))
      && (r.Hdr? ==> (r.f.Whole? <==> b >= 128))
      && (r.Hdr? && b < 128 ==> r.f.kind == (if b >= 64 then Inc else if b <= 15 then Not else Never))
      && (r.Resized? ==> 32 <= b <= 63)
  {
    hide NumOf, NameOf, StrOf, Find, Evicted, Indexed;
  }

  /** And with what byte each begins. */
  lemma FieldStarts(code: Code, h: Header)
    requires |code| == 256 && Formed(h)
    ensures var b := HdrBytes(code, h)[0];
      match h.kind
      case Idx => 128 <= b <= 255
      case Inc => 64 <= b <= 127
      case Not => 0 <= b <= 15
      case Never => 16 <= b <= 31
  {
    hide StrBytes;
  }

  /** Where an index or the zero in its place stands: in the low 7, 6 or 4 bits. */
  lemma IndexStands(code: Code, h: Header)
    requires |code| == 256 && Formed(h)
    ensures h.kind.Idx? && h.i < 127 ==> HdrBytes(code, h) == [0x80 + h.i]
    ensures h.kind.Inc? && 0 < h.i < 63 ==> HdrBytes(code, h) == [0x40 + h.i] + StrBytes(code, h.value)
    ensures h.kind.Not? && 0 < h.i < 15 ==> HdrBytes(code, h) == [h.i] + StrBytes(code, h.value)
    ensures h.kind.Never? && 0 < h.i < 15 ==> HdrBytes(code, h) == [0x10 + h.i] + StrBytes(code, h.value)
    ensures !h.kind.Idx? && h.i == 0 ==>
      var first: byte := if h.kind.Inc? then 0x40 else if h.kind.Not? then 0x00 else 0x10;
      HdrBytes(code, h) == [first] + StrBytes(code, h.key.value) + StrBytes(code, h.value)
  {
    hide StrBytes;
  }

  /** Bit 7 of the first byte of a string says whether it is a Huffman string. */
  lemma HuffmanBit(code: Code, tables: Tables, t: Literal, bytes: seq<byte>)
    requires |code| == 256 && TablesOk(tables)
    ensures StrBytes(code, t)[0] >= 128 <==> t.huff
    ensures |Payload(code, t)| < 127 ==>
      StrBytes(code, t) == [(if t.huff then 0x80 else 0x00) + |Payload(code, t)|] + Payload(code, t)
    ensures var r := StrOf(tables, bytes); r.Str? ==> (r.t.huff <==> bytes[0] >= 128)
  {
    hide NumOf, Walk, Unpack, HuffBytes;
  }

  // ------------------------------------------------ one field

  /** The name the bytes of a literal field stand for: the indexed one, if there is an index. */
  function NameSent(t: Table, h: Header): Name
    requires h.i != 0 || h.key.Some?
  {
    if h.i == 0 then ByText(h.key.value)
    else ByIndex(h.i, if Find(t.dyn, h.i).Some? then Find(t.dyn, h.i).value.key else [])
  }

  function FieldSent(t: Table, h: Header): Field
    requires Formed(h)
  {
    if !h.kind.Idx? then Lit(h.kind, NameSent(t, h), h.value)
    else if Find(t.dyn, h.i).Some? then Whole(h.i, Find(t.dyn, h.i).value.key, Find(t.dyn, h.i).value.value)
    else Whole(h.i, [], [])
  }

  /** The encoder's table afterwards; None if push_header aborts. */
  function TableSent(t: Table, h: Header): Option<Table> {
    if !h.kind.Inc? then Some(t)
    else
      var key := if h.key.Some? then Some(h.key.value.s) else None;
      var dyn := PushedAs(t.dyn, t.max, key, h.i, h.value.s);
      if dyn.Some? then Some(Table(dyn.value, t.max)) else None
  }

  /** Numbers and lengths of 32 bits. */
  ghost predicate HdrFits(code: Code, h: Header)
    requires |code| == 256
  {
    h.i <= UINT_MAX && StrFits(code, h.value) && (h.key.Some? ==> StrFits(code, h.key.value))
  }

  ghost predicate StrFits(code: Code, t: Literal)
    requires |code| == 256
  {
    |Payload(code, t)| <= UINT_MAX
  }

  /** What the code handles, given the `rest` of the block: an index that is live and not 2^prefix - 1; strings
      it handles; if a name is given by index and in words, tables that end up the same with either. */
  ghost predicate HdrSafe(code: Code, t: Table, h: Header, rest: seq<byte>)
    requires |code| == 256 && Formed(h)
  {
    if h.kind.Idx? then
      h.i != 0 && IndexSafe(t, h)
    else
      && NameSafe(code, t, h, StrBytes(code, h.value) + rest) && StrSafe(code, h.value, rest)
      && TableSent(t, h).Some? && NamesAgree(t, h)
  }

  ghost predicate NameSafe(code: Code, t: Table, h: Header, more: seq<byte>)
    requires |code| == 256 && (h.i != 0 || h.key.Some?)
  {
    if h.i != 0 then IndexSafe(t, h) else StrSafe(code, h.key.value, more)
  }

  ghost predicate IndexSafe(t: Table, h: Header) {
    h.i != Limit(Prefix(h.kind)) - 1 && Find(t.dyn, h.i).Some?
  }

  /** The encoder pushes the name in words, the decoder the one with the index. */
  ghost predicate NamesAgree(t: Table, h: Header)
    requires h.i != 0 || h.key.Some?
  {
    h.kind.Inc? && h.i != 0 && h.key.Some? && t.max != 0 ==>
      var mine, theirs := Entry(h.key.value.s, h.value.s), Entry(KeyText(NameSent(t, h)), h.value.s);
      mine == theirs || (EntrySize(mine) > t.max && EntrySize(theirs) > t.max)
  }

  lemma TagOf(kind: Kind, low: nat)
    requires low < Limit(Prefix(kind))
    ensures Tag(kind) + low < 256 && KindOf(Tag(kind) + low) == Some(kind)
  {}

  lemma FirstByte(kind: Kind, num: nat)
    ensures KindOf(NumBytes(Prefix(kind), Tag(kind), num)[0]) == Some(kind)
  {
    TagOf(kind, if num <= Limit(Prefix(kind)) - 1 then num else Limit(Prefix(kind)) - 1);
  }

  lemma TagAlone(kind: Kind, more: seq<byte>)
    requires !kind.Idx?
    ensures NumOf(Prefix(kind), [Tag(kind)] + more) == Num(0, 1)
    ensures KindOf(Tag(kind)) == Some(kind)
  {
    TagOf(kind, 0);
  }

  /** The name is read as it was written, from exactly its bytes, exactly when it is one the code handles. */
  lemma NameRoundTrip(code: Code, tables: Tables, t: Table, h: Header, more: seq<byte>)
    requires |code| == 256 && GoodCode(code) && TablesFor(code, tables) && TablesOk(tables)
    requires !h.kind.Idx? && Formed(h) && HdrFits(code, h) && more != []
    ensures NameOf(tables, t, h.kind, NameBytes(code, h) + more) == NameIs(NameSent(t, h), |NameBytes(code, h)|)
      <==> NameSafe(code, t, h, more)
    ensures KindOf(NameBytes(code, h)[0]) == Some(h.kind)
  {
    hide GoodCode, TablesFor, TablesOk, NumBytes, NumOf, StrOf, StrBytes, KindOf, StrSafe, Find, Payload;
    var all := NameBytes(code, h) + more;
    if h.i != 0 {
      NumRoundTrip(Prefix(h.kind), Tag(h.kind), h.i, more);
      FirstByte(h.kind, h.i);
    } else {
      var key := h.key.value;
      assert all == [Tag(h.kind)] + (StrBytes(code, key) + more);
      TagAlone(h.kind, StrBytes(code, key) + more);
      StrRoundTrip(code, tables, key, more);
      assert all[1..] == StrBytes(code, key) + more;
    }
  }

  /** push_header on the encoder's side, by index or by name, and on the decoder's side, by the name decoded. */
  lemma TablesAgree(t: Table, h: Header)
    requires !h.kind.Idx? && Formed(h) && TableSent(t, h).Some?
    ensures TableSent(t, h).value == Indexed(t, h.kind, Entry(KeyText(NameSent(t, h)), h.value.s)) <==> NamesAgree(t, h)
  {
    hide Find, Pushed;
    if h.i != 0 && h.key.Some? {
      PushedSame(t.dyn, t.max, Entry(h.key.value.s, h.value.s), Entry(KeyText(NameSent(t, h)), h.value.s));
    }
  }

  lemma PushedSame(dyn: seq<Entry>, max: nat, e: Entry, f: Entry)
    ensures Pushed(dyn, max, e) == Pushed(dyn, max, f) <==> e == f || (EntrySize(e) > max && EntrySize(f) > max)
  {
    hide Evicted;
    var a, b := Pushed(dyn, max, e), Pushed(dyn, max, f);
    assert EntrySize(e) <= max ==> a[0] == e;
    assert EntrySize(f) <= max ==> b[0] == f;
  }

  function NameCost(code: Code, kind: Kind, name: Name): nat
    requires |code| == 256
  {
    if name.ByIndex? then |NumBytes(Prefix(kind), Tag(kind), name.i)| else 1 + |StrBytes(code, name.lit)|
  }

  /** The number of bytes HPK_EncHdr writes for a field. */
  function FieldCost(code: Code, f: Field): nat
    requires |code| == 256
  {
    if f.Whole? then |NumBytes(7, 0x80, f.i)| else NameCost(code, f.kind, f.name) + |StrBytes(code, f.val)|
  }

  lemma SentCost(code: Code, t: Table, h: Header)
    requires |code| == 256 && Formed(h)
    ensures |HdrBytes(code, h)| == FieldCost(code, FieldSent(t, h))
    ensures !h.kind.Idx? ==> |NameBytes(code, h)| == NameCost(code, h.kind, NameSent(t, h))
  {
    hide NumBytes, StrBytes, Find;
  }

  lemma NameIsCost(code: Code, tables: Tables, t: Table, kind: Kind, bytes: seq<byte>)
    requires |code| == 256 && GoodCode(code) && TablesFor(code, tables) && TablesOk(tables)
    ensures var r := NameOf(tables, t, kind, bytes); r.NameIs? ==> r.used >= NameCost(code, kind, r.name)
  {
    hide GoodCode, TablesFor, TablesOk, NumOf, NumBytes, StrOf, StrBytes, Find;
    NumCost(Prefix(kind), Tag(kind), bytes);
    var n := NumOf(Prefix(kind), bytes);
    if n.Num? { StrCost(code, tables, bytes[n.used..]); }
  }

  /** A field is read from no fewer bytes than are written for it. */
  lemma HdrCost(code: Code, tables: Tables, t: Table, bytes: seq<byte>)
    requires |code| == 256 && GoodCode(code) && TablesFor(code, tables) && TablesOk(tables) && bytes != []
    ensures var r := HdrOf(tables, t, bytes); r.Hdr? ==> r.used >= FieldCost(code, r.f)
  {
    hide GoodCode, TablesFor, TablesOk, NumOf, NumBytes, StrOf, StrBytes, Find, NameOf, NameCost, KindOf, Indexed;
    var kind := KindOf(bytes[0]);
    NumCost(7, 0x80, bytes);
    if kind.Some? && !kind.value.Idx? {
      NameIsCost(code, tables, t, kind.value, bytes);
      var name := NameOf(tables, t, kind.value, bytes);
      if name.NameIs? { StrCost(code, tables, bytes[name.used..]); }
    }
  }

  /** The field arrives as it was sent, from exactly its bytes, and the tables end up the same. */
  ghost predicate Arrives(code: Code, tables: Tables, t: Table, h: Header, rest: seq<byte>)
    requires |code| == 256 && TablesOk(tables) && Formed(h)
  {
    && TableSent(t, h).Some?
    && HdrOf(tables, t, HdrBytes(code, h) + rest) == Hdr(FieldSent(t, h), |HdrBytes(code, h)|, TableSent(t, h).value)
  }

  lemma IndexedArrives(code: Code, tables: Tables, t: Table, h: Header, rest: seq<byte>)
    requires |code| == 256 && TablesOk(tables)
    requires h.kind.Idx? && HdrFits(code, h)
    ensures Arrives(code, tables, t, h, rest) <==> HdrSafe(code, t, h, rest)
  {
    hide TablesOk, NumBytes, NumOf, KindOf, Find;
    NumRoundTrip(7, 0x80, h.i, rest);
    FirstByte(Idx, h.i);
    AllOnesReadsOn(7, 0x80, rest);
    OneByte(0x80);
  }

  /** A literal field both parts of which are handled is read as it was sent, whatever becomes of the tables. */
  lemma LiteralReads(code: Code, tables: Tables, t: Table, h: Header, rest: seq<byte>)
    requires |code| == 256 && GoodCode(code) && TablesFor(code, tables) && TablesOk(tables)
    requires !h.kind.Idx? && Formed(h) && HdrFits(code, h)
    requires NameSafe(code, t, h, StrBytes(code, h.value) + rest) && StrSafe(code, h.value, rest)
    ensures HdrOf(tables, t, HdrBytes(code, h) + rest)
      == Hdr(FieldSent(t, h), |HdrBytes(code, h)|, Indexed(t, h.kind, Entry(KeyText(NameSent(t, h)), h.value.s)))
  {
    hide GoodCode, TablesFor, TablesOk, NumOf, StrOf, StrBytes, NameOf, KindOf, StrSafe, NameSafe, NameBytes, Find;
    hide Indexed;
    var all, name, value := HdrBytes(code, h) + rest, NameBytes(code, h), StrBytes(code, h.value);
    assert all == name + (value + rest);
    NameRoundTrip(code, tables, t, h, value + rest);
    StrRoundTrip(code, tables, h.value, rest);
    assert all[|name|..] == value + rest;
  }

  /** A literal field read as it was sent was read part by part. */
  lemma LiteralWasSafe(code: Code, tables: Tables, t: Table, h: Header, rest: seq<byte>)
    requires |code| == 256 && GoodCode(code) && TablesFor(code, tables) && TablesOk(tables)
    requires !h.kind.Idx? && Formed(h) && HdrFits(code, h)
    requires var r := HdrOf(tables, t, HdrBytes(code, h) + rest);
      r.Hdr? && r.f == FieldSent(t, h) && r.used == |HdrBytes(code, h)|
    ensures NameSafe(code, t, h, StrBytes(code, h.value) + rest) && StrSafe(code, h.value, rest)
  {
    hide GoodCode, TablesFor, TablesOk, NumOf, StrOf, StrBytes, NameOf, KindOf, StrSafe, NameSafe, NameBytes, Find;
    hide Indexed, NameCost;
    var all, name, value := HdrBytes(code, h) + rest, NameBytes(code, h), StrBytes(code, h.value);
    assert all == name + (value + rest);
    NameRoundTrip(code, tables, t, h, value + rest);
    StrRoundTrip(code, tables, h.value, rest);
    SentCost(code, t, h);
    NameIsCost(code, tables, t, h.kind, all);
    var n := NameOf(tables, t, h.kind, all);
    StrCost(code, tables, all[n.used..]);
    assert n.used == |name|;
    assert all[|name|..] == value + rest;
  }

  /** Decoding an encoded field yields its name, its value and its kind, reads exactly its bytes, and
      leaves the decoder's table as the encoder's, exactly when the field is one the code handles. */
  lemma HdrRoundTrip(code: Code, tables: Tables, t: Table, h: Header, rest: seq<byte>)
    requires |code| == 256 && GoodCode(code) && TablesFor(code, tables) && TablesOk(tables)
    requires Formed(h) && HdrFits(code, h)
    ensures Arrives(code, tables, t, h, rest) <==> HdrSafe(code, t, h, rest)
  {
    hide GoodCode, TablesFor, TablesOk, HdrOf, HdrBytes, StrBytes, StrSafe, NameSafe, NamesAgree, Indexed, FieldSent;
    hide NameSent;
    if h.kind.Idx? {
      IndexedArrives(code, tables, t, h, rest);
    } else if TableSent(t, h).Some? {
      TablesAgree(t, h);
      if NameSafe(code, t, h, StrBytes(code, h.value) + rest) && StrSafe(code, h.value, rest) {
        LiteralReads(code, tables, t, h, rest);
      } else if Arrives(code, tables, t, h, rest) {
        LiteralWasSafe(code, tables, t, h, rest);
      }
    }
  }

  /** Given a name by index and another in words, the two tables go apart. */
  lemma NamesDiverge(code: Code, tables: Tables)
    requires |code| == 256 && GoodCode(code) && TablesFor(code, tables) && TablesOk(tables)
    ensures var t := Table([Entry([97], [98])], 4096);
      var h := Header(Inc, 62, Some(Literal([120], false)), Literal([121], false));
      var r := HdrOf(tables, t, HdrBytes(code, h));
      r.Hdr? && TableSent(t, h).Some? && r.t != TableSent(t, h).value
  {
    hide GoodCode, TablesFor, TablesOk, HdrOf, HdrBytes, StrBytes, Indexed, TableSent;
    var t := Table([Entry([97], [98])], 4096);
    var h := Header(Inc, 62, Some(Literal([120], false)), Literal([121], false));
    NewestIs(Entry([97], [98]));
    assert HdrBytes(code, h) + [] == HdrBytes(code, h);
    LiteralReads(code, tables, t, h, []);
    BothNames(t, h);
    TablesAgree(t, h);
  }

  lemma BothNames(t: Table, h: Header)
    requires h.kind.Inc? && h.key.Some?
    ensures TableSent(t, h).Some?
  {}

  lemma NewestIs(e: Entry)
    ensures TrueSize(e) <= 4096 ==> Find([e], 62) == Some(e)
  {
    TotalPushed(e, []);
    assert [e] + [] == [e];
  }

  // ------------------------------------------------ blocks and runs

  function BlockBytes(code: Code, hs: seq<Header>): (r: seq<byte>)
    requires |code| == 256 && forall h :: h in hs ==> Formed(h)
    ensures hs != [] ==> r != []
  {
    if hs == [] then [] else HdrBytes(code, hs[0]) + BlockBytes(code, hs[1..])
  }

  /** Each field can be sent in the state the fields before it leave. */
  ghost predicate BlockSafe(code: Code, t: Table, hs: seq<Header>)
    requires |code| == 256 && forall h :: h in hs ==> Formed(h)
    decreases |hs|
  {
    hs != [] ==>
      && HdrSafe(code, t, hs[0], BlockBytes(code, hs[1..]))
      && TableSent(t, hs[0]).Some?
      && BlockSafe(code, TableSent(t, hs[0]).value, hs[1..])
  }

  /** A field and the table after it. */
  datatype Stage = Stage(f: Field, t: Table)

  /** push_header never aborts. */
  ghost predicate Sendable(t: Table, hs: seq<Header>)
    decreases |hs|
  {
    hs != [] ==> TableSent(t, hs[0]).Some? && Sendable(TableSent(t, hs[0]).value, hs[1..])
  }

  /** The fields of a block, with the encoder's table after each, and after all. */
  function BlockSent(t: Table, hs: seq<Header>): (seq<Stage>, Table)
    requires forall h :: h in hs ==> Formed(h)
    decreases |hs|
  {
    if hs == [] then ([], t)
    else
      var t' := if TableSent(t, hs[0]).Some? then TableSent(t, hs[0]).value else t;
      var r := BlockSent(t', hs[1..]);
      ([Stage(FieldSent(t, hs[0]), t')] + r.0, r.1)
  }

  datatype BlockResult = Block(got: seq<Stage>, t: Table) | BadBlock(why: HdrResult)

  /** Decoding a block, field after field until its bytes are used up. */
  function BlockOf(tables: Tables, t: Table, bytes: seq<byte>): BlockResult
    requires TablesOk(tables)
    decreases |bytes|
  {
    if bytes == [] then Block([], t)
    else
      var r := HdrOf(tables, t, bytes);
      if r.Hdr? then
        var more := BlockOf(tables, r.t, bytes[r.used..]);
        if more.Block? then Block([Stage(r.f, r.t)] + more.got, more.t) else more
      else if r.Resized? then Block([], r.t)
      else BadBlock(r)
  }

  function Cost(code: Code, got: seq<Stage>): nat
    requires |code| == 256
  {
    if got == [] then 0 else FieldCost(code, got[0].f) + Cost(code, got[1..])
  }

  lemma CostMore(code: Code, s: Stage, got: seq<Stage>)
    requires |code| == 256
    ensures Cost(code, [s] + got) == FieldCost(code, s.f) + Cost(code, got)
  {
    assert ([s] + got)[1..] == got;
  }

  lemma {:induction false} BlockCost(code: Code, tables: Tables, t: Table, bytes: seq<byte>)
    requires |code| == 256 && GoodCode(code) && TablesFor(code, tables) && TablesOk(tables)
    ensures var r := BlockOf(tables, t, bytes); r.Block? ==> |bytes| >= Cost(code, r.got)
    decreases |bytes|
  {
    hide GoodCode, TablesFor, TablesOk, HdrOf, FieldCost;
    if bytes != [] {
      var r := HdrOf(tables, t, bytes);
      if r.Hdr? {
        HdrCost(code, tables, t, bytes);
        BlockCost(code, tables, r.t, bytes[r.used..]);
        var more := BlockOf(tables, r.t, bytes[r.used..]);
        if more.Block? { CostMore(code, Stage(r.f, r.t), more.got); }
      }
    }
  }

  lemma {:induction false} BlockLength(code: Code, t: Table, hs: seq<Header>)
    requires |code| == 256 && forall h :: h in hs ==> Formed(h)
    ensures |BlockBytes(code, hs)| == Cost(code, BlockSent(t, hs).0)
    decreases |hs|
  {
    hide HdrBytes, FieldCost, TableSent, FieldSent;
    if hs != [] {
      var t' := if TableSent(t, hs[0]).Some? then TableSent(t, hs[0]).value else t;
      SentCost(code, t, hs[0]);
      BlockLength(code, t', hs[1..]);
      CostMore(code, Stage(FieldSent(t, hs[0]), t'), BlockSent(t', hs[1..]).0);
    }
  }

  /** A block arrives: field by field as sent, with the same table after each. */
  ghost predicate BlockArrives(code: Code, tables: Tables, t: Table, hs: seq<Header>)
    requires |code| == 256 && TablesOk(tables) && forall h :: h in hs ==> Formed(h)
  {
    Sendable(t, hs) && BlockOf(tables, t, BlockBytes(code, hs)) == Block(BlockSent(t, hs).0, BlockSent(t, hs).1)
  }

  /** A first field that is not handled is not made up for by the rest: it would have been read from more bytes
      than it has, and the other fields cannot be read from fewer. */
  lemma NotMadeUpFor(code: Code, tables: Tables, t: Table, hs: seq<Header>)
    requires |code| == 256 && GoodCode(code) && TablesFor(code, tables) && TablesOk(tables)
    requires hs != [] && forall h :: h in hs ==> Formed(h) && HdrFits(code, h)
    requires !HdrSafe(code, t, hs[0], BlockBytes(code, hs[1..]))
    ensures !BlockArrives(code, tables, t, hs)
  {
    hide GoodCode, TablesFor, TablesOk, HdrOf, HdrBytes, HdrSafe, FieldCost, TableSent, FieldSent, HdrFits;
    var head, more := HdrBytes(code, hs[0]), BlockBytes(code, hs[1..]);
    var bytes := head + more;
    HdrRoundTrip(code, tables, t, hs[0], more);
    HdrCost(code, tables, t, bytes);
    SentCost(code, t, hs[0]);
    var r := HdrOf(tables, t, bytes);
    if r.Hdr? && TableSent(t, hs[0]).Some? {
      var t' := TableSent(t, hs[0]).value;
      BlockCost(code, tables, r.t, bytes[r.used..]);
      BlockLength(code, t', hs[1..]);
      var rest := BlockOf(tables, r.t, bytes[r.used..]);
      if rest.Block? {
        FirstOf(Stage(r.f, r.t), rest.got, Stage(FieldSent(t, hs[0]), t'), BlockSent(t', hs[1..]).0);
      }
    }
  }

  /** A block arrives exactly when each of its fields is one the code handles, given the fields before it. */
  lemma {:induction false} BlockRoundTrip(code: Code, tables: Tables, t: Table, hs: seq<Header>)
    requires |code| == 256 && GoodCode(code) && TablesFor(code, tables) && TablesOk(tables)
    requires forall h :: h in hs ==> Formed(h) && HdrFits(code, h)
    ensures BlockArrives(code, tables, t, hs) <==> BlockSafe(code, t, hs)
    decreases |hs|
  {
    hide GoodCode, TablesFor, TablesOk, HdrOf, HdrBytes, HdrSafe, TableSent, FieldSent, HdrFits;
    if hs != [] {
      var head, more := HdrBytes(code, hs[0]), BlockBytes(code, hs[1..]);
      if HdrSafe(code, t, hs[0], more) {
        HdrRoundTrip(code, tables, t, hs[0], more);
        BlockRoundTrip(code, tables, TableSent(t, hs[0]).value, hs[1..]);
        assert (head + more)[|head|..] == more;
        OneMore(Stage(FieldSent(t, hs[0]), TableSent(t, hs[0]).value),
          BlockOf(tables, TableSent(t, hs[0]).value, more), BlockSent(TableSent(t, hs[0]).value, hs[1..]));
      } else {
        NotMadeUpFor(code, tables, t, hs);
      }
    }
  }

  lemma FirstOf<T>(a: T, s: seq<T>, b: T, t: seq<T>)
    ensures [a] + s == [b] + t <==> a == b && s == t
  {
    if [a] + s == [b] + t {
      assert a == ([a] + s)[0] == ([b] + t)[0] == b;
      assert s == ([a] + s)[1..] == ([b] + t)[1..] == t;
    }
  }

  lemma OneMore(s: Stage, r: BlockResult, sent: (seq<Stage>, Table))
    ensures r.Block? ==> (Block([s] + r.got, r.t) == Block([s] + sent.0, sent.1) <==> r == Block(sent.0, sent.1))
  {
    if r.Block? { FirstOf(s, r.got, s, sent.0); }
  }

  ghost predicate RunSafe(code: Code, t: Table, blocks: seq<seq<Header>>)
    requires |code| == 256 && forall b, h :: b in blocks && h in b ==> Formed(h)
    decreases |blocks|
  {
    blocks != [] ==>
      && BlockSafe(code, t, blocks[0])
      && RunSafe(code, BlockSent(t, blocks[0]).1, blocks[1..])
  }

  /** Decodes block after block, carrying the table along. */
  function RunOf(tables: Tables, t: Table, blocks: seq<seq<byte>>): seq<BlockResult>
    requires TablesOk(tables)
    decreases |blocks|
  {
    if blocks == [] then []
    else
      var r := BlockOf(tables, t, blocks[0]);
      [r] + RunOf(tables, if r.Block? then r.t else t, blocks[1..])
  }

  function RunBytes(code: Code, blocks: seq<seq<Header>>): seq<seq<byte>>
    requires |code| == 256 && forall b, h :: b in blocks && h in b ==> Formed(h)
  {
    if blocks == [] then [] else [BlockBytes(code, blocks[0])] + RunBytes(code, blocks[1..])
  }

  /** What the encoder sent: the fields of every block, with its tables. */
  function RunSent(t: Table, blocks: seq<seq<Header>>): seq<BlockResult>
    requires forall b, h :: b in blocks && h in b ==> Formed(h)
    decreases |blocks|
  {
    if blocks == [] then []
    else
      var b := BlockSent(t, blocks[0]);
      [Block(b.0, b.1)] + RunSent(b.1, blocks[1..])
  }

  ghost predicate RunSendable(t: Table, blocks: seq<seq<Header>>)
    requires forall b, h :: b in blocks && h in b ==> Formed(h)
    decreases |blocks|
  {
    blocks != [] ==> Sendable(t, blocks[0]) && RunSendable(BlockSent(t, blocks[0]).1, blocks[1..])
  }

  /** Over any run of header blocks from equal tables, every field arrives as it was sent and the tables are equal after
      every field, exactly when every field is one the code handles. */
  lemma {:induction false} RunRoundTrip(code: Code, tables: Tables, t: Table, blocks: seq<seq<Header>>)
    requires |code| == 256 && GoodCode(code) && TablesFor(code, tables) && TablesOk(tables)
    requires forall b, h :: b in blocks && h in b ==> Formed(h) && HdrFits(code, h)
    ensures RunSendable(t, blocks) && RunOf(tables, t, RunBytes(code, blocks)) == RunSent(t, blocks)
      <==> RunSafe(code, t, blocks)
    decreases |blocks|
  {
    hide GoodCode, TablesFor, TablesOk, BlockOf, BlockBytes, BlockSafe, BlockSent, Sendable, HdrFits, Formed;
    if blocks != [] {
      var r, b := BlockOf(tables, t, BlockBytes(code, blocks[0])), BlockSent(t, blocks[0]);
      BlockRoundTrip(code, tables, t, blocks[0]);
      RunRoundTrip(code, tables, b.1, blocks[1..]);
      var sent, got := RunBytes(code, blocks), RunOf(tables, if r.Block? then r.t else t, RunBytes(code, blocks[1..]));
      assert sent[0] == BlockBytes(code, blocks[0]) && sent[1..] == RunBytes(code, blocks[1..]);
      FirstOf(r, got, Block(b.0, b.1), RunSent(b.1, blocks[1..]));
    }
  }
}
