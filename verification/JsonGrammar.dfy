/** JSON texts as RFC 8259 defines them, with every choice the writer of a text has: white space,
    escapes and the forms of numbers.  JsonText reads exactly these.  The characters are written
    out here as the RFC has them, so that nothing of the reader's own tables is taken for granted. */
module JsonGrammar {
  import opened Words
  import opened Ascii
  import opened Texts
  import opened JsonText

  predicate AllWs(w: seq<byte>) {
    forall k :: 0 <= k < |w| ==> w[k] == 0x20 || w[k] == 0x09 || w[k] == 0x0a || w[k] == 0x0d
  }

  predicate AllDigits(w: seq<byte>) {
    forall k :: 0 <= k < |w| ==> 0x30 <= w[k] <= 0x39
  }

  lemma SkipsOver(t: seq<byte>, i: nat, w: seq<byte>)
    requires Spells(t, i, w) && AllWs(w) && !IsWs(At(t, i + |w|))
    ensures SkipWs(t, i) == i + |w|
  {
    var j := SkipWs(t, i);
    SpelledAt(t, i, w, j);
  }

  lemma DigitsOver(t: seq<byte>, i: nat, w: seq<byte>)
    requires Spells(t, i, w) && AllDigits(w) && !IsDigit(At(t, i + |w|))
    ensures Digits(t, i) == i + |w|
  {
    var j := Digits(t, i);
    SpelledAt(t, i, w, j);
  }

  // ------------------------------------------------ strings

  /** One character of a string as it is written. */
  datatype Glyph =
    | Raw(c: byte)                                       // a byte as it is
    | Letter(l: byte)                                    // an escape of one letter
    | Hex(q: seq<byte>)                                  // four hexadecimal digits
    | Surrogates(hi: seq<byte>, lo: seq<byte>)           // twice four

  predicate HexLetter(c: byte) { 0x30 <= c <= 0x39 || 0x41 <= c <= 0x46 || 0x61 <= c <= 0x66 }

  /** 0 to 9, A to F and a to f. */
  function HexMeans(c: byte): (v: nat)
    requires HexLetter(c)
    ensures v < 16
  {
    if 0x30 <= c <= 0x39 then c - 0x30 else if 0x41 <= c <= 0x46 then c - 0x41 + 10 else c - 0x61 + 10
  }

  predicate FourHex(q: seq<byte>) {
    |q| == 4 && HexLetter(q[0]) && HexLetter(q[1]) && HexLetter(q[2]) && HexLetter(q[3])
  }

  /** The eight letters of section 7 that may follow a backslash, and the character each stands for. */
  predicate EscapeLetter(l: byte) {
    l == 0x22 || l == 0x5c || l == 0x2f || l == 0x62 || l == 0x66 || l == 0x6e || l == 0x72 || l == 0x74
  }

  function LetterMeans(l: byte): byte
    requires EscapeLetter(l)
  {
    match l
    case 0x22 => 0x22      // quotation mark
    case 0x5c => 0x5c      // reverse solidus
    case 0x2f => 0x2f      // solidus
    case 0x62 => 0x08      // b, backspace
    case 0x66 => 0x0c      // f, form feed
    case 0x6e => 0x0a      // n, line feed
    case 0x72 => 0x0d      // r, carriage return
    case _ => 0x09         // t, tab
  }

  /** The reader takes the same letters to mean the same. */
  lemma ShortRight(l: byte)
    ensures Short(l) == if EscapeLetter(l) then Ok(LetterMeans(l), 2) else Bad(BadEscape)
  {}

  function QuadOf(q: seq<byte>): (u: nat)
    requires FourHex(q)
    ensures u < 0x1_0000
  {
    0x1000 * HexMeans(q[0]) + 0x100 * HexMeans(q[1]) + 0x10 * HexMeans(q[2]) + HexMeans(q[3])
  }

  predicate GlyphOk(g: Glyph) {
    match g
    case Raw(c) => c >= 0x20 && c != 0x22 && c != 0x5c
    case Letter(l) => EscapeLetter(l)
    case Hex(q) => FourHex(q) && !(0xd800 <= QuadOf(q) <= 0xdfff)
    case Surrogates(hi, lo) =>
      FourHex(hi) && FourHex(lo) && 0xd800 <= QuadOf(hi) <= 0xdbff && 0xdc00 <= QuadOf(lo) <= 0xdfff
  }

  function GlyphText(g: Glyph): (w: seq<byte>) {
    match g
    case Raw(c) => [c]
    case Letter(l) => [0x5c, l]
    case Hex(q) => [0x5c, 0x75] + q
    case Surrogates(hi, lo) => [0x5c, 0x75] + hi + ([0x5c, 0x75] + lo)
  }

  /** The UTF-8 of the character a glyph stands for (section 7 of RFC 8259). */
  function GlyphMeans(g: Glyph): (r: seq<byte>)
    requires GlyphOk(g)
  {
    match g
    case Raw(c) => [c]
    case Letter(l) => [LetterMeans(l)]
    case Hex(q) => Utf8(QuadOf(q))
    case Surrogates(hi, lo) => Utf8(0x1_0000 + (QuadOf(hi) - 0xd800) * 0x400 + (QuadOf(lo) - 0xdc00))
  }

  /** What the code makes of it. */
  function GlyphRead(g: Glyph): (r: seq<byte>)
    requires GlyphOk(g)
  {
    match g
    case Raw(c) => [c]
    case Letter(l) => [Short(l).value]
    case Hex(q) => Utf8(QuadOf(q))
    case Surrogates(hi, lo) => Utf8(Combined(QuadOf(hi), QuadOf(lo)))
  }

  /** Bit 6 of the high surrogate is clear: the code point has an even plane number less one. */
  predicate Handled(g: Glyph) {
    g.Surrogates? && FourHex(g.hi) ==> QuadOf(g.hi) / 64 % 2 == 0
  }

  lemma PairHandled(u1: nat, u2: nat)
    requires IsHigh(u1) && IsLow(u2)
    ensures Combined(u1, u2) == 0x1_0000 + PairBits(u1, u2) <==> u1 / 64 % 2 == 0
  {
    var h := u1 - 0xd800;
    assert PairBits(u1, u2) / 0x1_0000 == h / 64;
    assert u1 / 64 == 0x360 + h / 64;
  }

  /** U+20000, the first character for which it fails, comes out as U+10000. */
  lemma PairLost()
    ensures IsHigh(0xd840) && IsLow(0xdc00)
    ensures 0x1_0000 + PairBits(0xd840, 0xdc00) == 0x2_0000 && Combined(0xd840, 0xdc00) == 0x1_0000
  {}

  /** The payload of four bytes: three bits, and six in each of the others. */
  function Unpacked(a: int, b: int, c: int, d: int): int {
    (a - 0xf0) * 262144 + (b - 0x80) * 4096 + (c - 0x80) * 64 + (d - 0x80)
  }

  lemma Utf8Back(u: nat)
    requires 0x1_0000 <= u < 0x11_0000
    ensures var b := Utf8(u); |b| == 4 && u == Unpacked(b[0], b[1], b[2], b[3])
  {
    var x, y, z := u / 64, u / 4096, u / 262144;
    assert y == x / 64 && z == y / 64;
    assert u == 64 * x + u % 64 && x == 64 * y + x % 64 && y == 64 * z + y % 64;
  }

  /** UTF-8 as section 3 of RFC 3629 has it: the shortest form, and the bits of the character in its bytes. */
  lemma Utf8Right(u: nat)
    requires u < 0x11_0000
    ensures var b := Utf8(u);
      && |b| == (if u <= 0x7f then 1 else if u <= 0x7ff then 2 else if u <= 0xffff then 3 else 4)
      && (|b| == 1 ==> b[0] == u)
      && (forall k :: 1 <= k < |b| ==> 0x80 <= b[k] <= 0xbf)
      && (|b| == 2 ==> 0xc0 <= b[0] <= 0xdf && u == Unpacked(0xf0, 0x80, b[0] - 0x40, b[1]))
      && (|b| == 3 ==> 0xe0 <= b[0] <= 0xef && u == Unpacked(0xf0, b[0] - 0x60, b[1], b[2]))
      && (|b| == 4 ==> 0xf0 <= b[0] <= 0xf7 && u == Unpacked(b[0], b[1], b[2], b[3]))
  {
    if u < 0x1_0000 {
      var x, y := u / 64, u / 4096;
      assert y == x / 64 && u == 64 * x + u % 64 && x == 64 * y + x % 64;
    } else {
      Utf8Back(u);
    }
  }

  lemma Utf8Injective(u: nat, v: nat)
    requires 0x1_0000 <= u < 0x11_0000 && 0x1_0000 <= v < 0x11_0000 && Utf8(u) == Utf8(v)
    ensures u == v
  {
    hide Utf8, Unpacked;
    Utf8Back(u);
    Utf8Back(v);
  }

  /** The code decodes a surrogate pair rightly if and only if bit 6 of the high one is clear. */
  lemma GlyphReadRight(g: Glyph)
    requires GlyphOk(g)
    ensures GlyphRead(g) == GlyphMeans(g) <==> Handled(g)
    ensures |GlyphRead(g)| == |GlyphMeans(g)|
  {
    hide Combined, PairBits, Utf8;
    if g.Surrogates? {
      var u1, u2 := QuadOf(g.hi), QuadOf(g.lo);
      PairHandled(u1, u2);
      PairIs(u1, u2);
      Utf8Long(Combined(u1, u2));
      Utf8Long(0x1_0000 + PairBits(u1, u2));
      if GlyphRead(g) == GlyphMeans(g) {
        Utf8Injective(Combined(u1, u2), 0x1_0000 + PairBits(u1, u2));
      }
    }
  }

  lemma PairIs(u1: nat, u2: nat)
    requires IsHigh(u1) && IsLow(u2)
    ensures PairBits(u1, u2) == (u1 - 0xd800) * 0x400 + (u2 - 0xdc00)
  {}

  lemma Utf8Long(u: nat)
    requires 0x1_0000 <= u < 0x11_0000
    ensures |Utf8(u)| == 4
  {}

  lemma HexRight(c: byte)
    ensures IsHex(c) <==> HexLetter(c)
    ensures HexLetter(c) ==> HexVal(c) == HexMeans(c)
  {}

  lemma UNumberOf(t: seq<byte>, i: nat, q: seq<byte>)
    requires FourHex(q) && Spells(t, i, [0x5c, 0x75] + q)
    ensures UNumber(t, i) == Ok(QuadOf(q), i + 6)
  {
    hide IsHex, HexVal, HexLetter, HexMeans, Spells;
    var w := [0x5c, 0x75] + q;
    SpellsFits(t, i, w);
    SpellsAt(t, i, w, 0);
    SpellsAt(t, i, w, 1);
    SpellsAt(t, i, w, 2);
    SpellsAt(t, i, w, 3);
    SpellsAt(t, i, w, 4);
    SpellsAt(t, i, w, 5);
    HexRight(q[0]);
    HexRight(q[1]);
    HexRight(q[2]);
    HexRight(q[3]);
  }

  /** A glyph is read as one piece. */
  lemma PieceOf(t: seq<byte>, i: nat, g: Glyph)
    requires GlyphOk(g) && Spells(t, i, GlyphText(g))
    ensures At(t, i) != DQUOTE && Piece(t, i) == Ok(GlyphRead(g), i + |GlyphText(g)|)
  {
    hide UNumber, Utf8, Combined, Quad;
    var w := GlyphText(g);
    SpellsAt(t, i, w, 0);
    match g {
      case Raw(c) =>
      case Letter(l) => SpellsAt(t, i, w, 1);
      case Hex(q) =>
        SpellsAt(t, i, w, 1);
        UNumberOf(t, i, q);
      case Surrogates(hi, lo) =>
        SpellsAt(t, i, w, 1);
        SpellsCat(t, i, [BACKSLASH, 0x75] + hi, [BACKSLASH, 0x75] + lo);
        UNumberOf(t, i, hi);
        UNumberOf(t, i + 6, lo);
    }
  }

  predicate GlyphsOk(s: seq<Glyph>) {
    forall k :: 0 <= k < |s| ==> GlyphOk(s[k])
  }

  function GlyphsText(s: seq<Glyph>): seq<byte> {
    if s == [] then [] else GlyphText(s[0]) + GlyphsText(s[1..])
  }

  function StrMeans(s: seq<Glyph>): seq<byte>
    requires GlyphsOk(s)
  {
    if s == [] then [] else GlyphMeans(s[0]) + StrMeans(s[1..])
  }

  function StrRead(s: seq<Glyph>): seq<byte>
    requires GlyphsOk(s)
  {
    if s == [] then [] else GlyphRead(s[0]) + StrRead(s[1..])
  }

  predicate StrHandled(s: seq<Glyph>) {
    s == [] || (Handled(s[0]) && StrHandled(s[1..]))
  }

  lemma {:induction false} StrReadRight(s: seq<Glyph>)
    requires GlyphsOk(s)
    ensures StrRead(s) == StrMeans(s) <==> StrHandled(s)
    ensures |StrRead(s)| == |StrMeans(s)|
  {
    hide GlyphRead, GlyphMeans, Handled, GlyphOk;
    if s != [] {
      StrReadRight(s[1..]);
      GlyphReadRight(s[0]);
      var n := |GlyphRead(s[0])|;
      assert StrRead(s)[..n] == GlyphRead(s[0]) && StrMeans(s)[..n] == GlyphMeans(s[0]);
      assert StrRead(s)[n..] == StrRead(s[1..]) && StrMeans(s)[n..] == StrMeans(s[1..]);
    }
  }

  function Quoted(s: seq<Glyph>): seq<byte> {
    [0x22] + (GlyphsText(s) + [0x22])
  }

  lemma {:induction false} CharsOf(t: seq<byte>, i: nat, s: seq<Glyph>)
    requires GlyphsOk(s) && Spells(t, i, GlyphsText(s) + [DQUOTE])
    ensures Chars(t, i) == Ok(StrRead(s), i + |GlyphsText(s)| + 1)
    decreases |s|
  {
    hide Piece, GlyphOk, GlyphText, GlyphRead;
    if s == [] {
      assert GlyphsText(s) + [DQUOTE] == [DQUOTE];
      SpellsOne(t, i, DQUOTE);
    } else {
      var g, rest := s[0], GlyphsText(s[1..]) + [DQUOTE];
      assert GlyphsText(s) + [DQUOTE] == GlyphText(g) + rest;
      SpellsCat(t, i, GlyphText(g), rest);
      PieceOf(t, i, g);
      CharsOf(t, i + |GlyphText(g)|, s[1..]);
    }
  }

  lemma StrOf(t: seq<byte>, i: nat, ws: seq<byte>, s: seq<Glyph>)
    requires AllWs(ws) && GlyphsOk(s) && Spells(t, i, ws + Quoted(s))
    ensures Str(t, i) == Ok(StrRead(s), i + |ws| + |Quoted(s)|)
  {
    hide Chars, GlyphsText, StrRead;
    SpellsCat(t, i, ws, Quoted(s));
    SpellsCat(t, i + |ws|, [DQUOTE], GlyphsText(s) + [DQUOTE]);
    SpellsOne(t, i + |ws|, DQUOTE);
    SkipsOver(t, i, ws);
    CharsOf(t, i + |ws| + 1, s);
  }

  // ------------------------------------------------ numbers

  /** Empty `frac` or `exp` means there is none; `mark` is the letter and `sign` at most one character. */
  datatype Num = Num(neg: bool, whole: seq<byte>, frac: seq<byte>, mark: byte, sign: seq<byte>, exp: seq<byte>)

  predicate NumOk(n: Num) {
    && AllDigits(n.whole) && n.whole != [] && (n.whole[0] == 0x30 ==> |n.whole| == 1)
    && AllDigits(n.frac)
    && AllDigits(n.exp) && (n.mark == 0x65 || n.mark == 0x45) && (n.sign == [] || n.sign == [0x2d] || n.sign == [0x2b])
  }

  function WholeText(n: Num): seq<byte> { (if n.neg then [0x2d] else []) + n.whole }
  function FracText(n: Num): seq<byte> { if n.frac == [] then [] else [0x2e] + n.frac }
  function ExpText(n: Num): seq<byte> { if n.exp == [] then [] else [n.mark] + (n.sign + n.exp) }
  function NumText(n: Num): seq<byte> { WholeText(n) + (FracText(n) + ExpText(n)) }

  /** What can stand behind a value. */
  predicate Ends(c: byte) { c == 0 || IsWs(c) || c == COMMA || c == RBRACKET || c == RBRACE }

  lemma SomeDigitsOf(t: seq<byte>, i: nat, w: seq<byte>)
    requires Spells(t, i, w) && AllDigits(w) && w != [] && !IsDigit(At(t, i + |w|))
    ensures SomeDigits(t, i) == Ok((), i + |w|)
  {
    SpellsAt(t, i, w, 0);
    DigitsOver(t, i, w);
  }

  lemma WholeOf(t: seq<byte>, i: nat, n: Num)
    requires NumOk(n) && Spells(t, i, WholeText(n)) && !IsDigit(At(t, i + |WholeText(n)|))
    ensures Whole(t, i) == Ok((), i + |WholeText(n)|) && StartsNumber(At(t, i))
  {
    var sign: seq<byte> := if n.neg then [0x2d] else [];
    SpellsCat(t, i, sign, n.whole);
    SpellsAt(t, i + |sign|, n.whole, 0);
    if n.neg { SpellsOne(t, i, 0x2d); }
    SomeDigitsOf(t, i + |sign|, n.whole);
  }

  lemma FractionOf(t: seq<byte>, i: nat, n: Num)
    requires NumOk(n) && Spells(t, i, FracText(n))
    requires var c := At(t, i + |FracText(n)|); !IsDigit(c) && c != 0x2e
    ensures Fraction(t, i) == Ok((), i + |FracText(n)|)
  {
    if n.frac != [] {
      SpellsCat(t, i, [0x2e], n.frac);
      SpellsOne(t, i, 0x2e);
      SomeDigitsOf(t, i + 1, n.frac);
    }
  }

  lemma FirstDigit(w: seq<byte>)
    requires AllDigits(w) && w != []
    ensures IsDigit(w[0])
  {}

  lemma ExponentOf(t: seq<byte>, i: nat, n: Num)
    requires NumOk(n) && i <= |t| && Spells(t, i, ExpText(n)) && Ends(At(t, i + |ExpText(n)|))
    ensures Exponent(t, i) == Ok((), i + |ExpText(n)|)
  {
    hide Spells, SomeDigits, AllDigits;
    SpellsFits(t, i, ExpText(n));
    if n.exp != [] {
      SpellsCat(t, i, [n.mark], n.sign + n.exp);
      SpellsOne(t, i, n.mark);
      SpellsCat(t, i + 1, n.sign, n.exp);
      if n.sign != [] { SpellsOne(t, i + 1, n.sign[0]); }
      SomeDigitsOf(t, i + 1 + |n.sign|, n.exp);
      SpellsAt(t, i + 1 + |n.sign|, n.exp, 0);
      FirstDigit(n.exp);
    }
  }

  /** What follows each part of a number cannot belong to it. */
  lemma NumberParts(t: seq<byte>, i: nat, n: Num)
    requires NumOk(n) && Spells(t, i, NumText(n)) && Ends(At(t, i + |NumText(n)|))
    ensures var j := i + |WholeText(n)|; var k := j + |FracText(n)|;
      && Spells(t, i, WholeText(n)) && !IsDigit(At(t, j))
      && Spells(t, j, FracText(n)) && !IsDigit(At(t, k)) && At(t, k) != 0x2e
      && Spells(t, k, ExpText(n)) && k + |ExpText(n)| == i + |NumText(n)| <= |t|
  {
    hide Spells;
    var a, b, c := WholeText(n), FracText(n), ExpText(n);
    SpellsCat(t, i, a, b + c);
    SpellsCat(t, i + |a|, b, c);
    SpellsFits(t, i, NumText(n));
    if c != [] { SpellsAt(t, i + |a| + |b|, c, 0); }
    if b != [] { SpellsAt(t, i + |a|, b, 0); }
  }

  lemma NumberOf(t: seq<byte>, i: nat, n: Num)
    requires NumOk(n) && Spells(t, i, NumText(n)) && Ends(At(t, i + |NumText(n)|))
    ensures i <= |t| && Number(t, i) == Ok(NumText(n), i + |NumText(n)|) && StartsNumber(At(t, i))
  {
    hide Whole, Fraction, Exponent, WholeText, FracText, ExpText, NumOk;
    var j := i + |WholeText(n)|;
    var k := j + |FracText(n)|;
    NumberParts(t, i, n);
    WholeOf(t, i, n);
    FractionOf(t, j, n);
    ExponentOf(t, k, n);
  }

  // ------------------------------------------------ values

  /** A value as it is written.  `ws` stands in an object or array that has nothing in it. */
  datatype Doc =
    | DObject(ws: seq<byte>, members: seq<DMember>) | DArray(ws: seq<byte>, items: seq<DItem>)
    | DString(s: seq<Glyph>) | DNumber(n: Num) | DTrue | DFalse | DNull

  /** A value between white space. */
  datatype DItem = DItem(before: seq<byte>, doc: Doc, after: seq<byte>)

  /** A member: white space, a name, white space, a colon and a value. */
  datatype DMember = DMember(before: seq<byte>, name: seq<Glyph>, colon: seq<byte>, item: DItem)

  predicate DocOk(d: Doc) {
    match d
    case DObject(ws, members) => AllWs(ws) && forall k :: 0 <= k < |members| ==> MemberOk(members[k])
    case DArray(ws, items) => AllWs(ws) && forall k :: 0 <= k < |items| ==> ItemOk(items[k])
    case DString(s) => GlyphsOk(s)
    case DNumber(n) => NumOk(n)
    case _ => true
  }

  predicate ItemOk(it: DItem) {
    AllWs(it.before) && AllWs(it.after) && DocOk(it.doc)
  }

  predicate MemberOk(m: DMember) {
    AllWs(m.before) && GlyphsOk(m.name) && AllWs(m.colon) && ItemOk(m.item)
  }

  function Text(d: Doc): seq<byte>
    decreases d
  {
    match d
    case DObject(ws, members) => [0x7b] + if members == [] then ws + [0x7d] else MembersText(members)
    case DArray(ws, items) => [0x5b] + if items == [] then ws + [0x5d] else ItemsText(items)
    case DString(s) => Quoted(s)
    case DNumber(n) => NumText(n)
    case DTrue => [0x74, 0x72, 0x75, 0x65]
    case DFalse => [0x66, 0x61, 0x6c, 0x73, 0x65]
    case DNull => [0x6e, 0x75, 0x6c, 0x6c]
  }

  function ItemText(it: DItem): seq<byte>
    decreases it
  {
    it.before + Text(it.doc) + it.after
  }

  function ItemsText(items: seq<DItem>): seq<byte>
    requires items != []
    decreases items
  {
    ItemText(items[0]) + if |items| == 1 then [0x5d] else [0x2c] + ItemsText(items[1..])
  }

  function MemberText(m: DMember): seq<byte>
    decreases m
  {
    m.before + Quoted(m.name) + (m.colon + ([0x3a] + ItemText(m.item)))
  }

  function MembersText(members: seq<DMember>): seq<byte>
    requires members != []
    decreases members
  {
    MemberText(members[0]) + if |members| == 1 then [0x7d] else [0x2c] + MembersText(members[1..])
  }

  /** What a text stands for, by way of what each string does. */
  function TreeBy(d: Doc, str: Reading): Tree
    requires DocOk(d)
    decreases d
  {
    match d
    case DObject(ws, members) => JObject(MembersBy(members, str))
    case DArray(ws, items) => JArray(ItemsBy(items, str))
    case DString(s) => JString(StrBy(s, str))
    case DNumber(n) => JNumber(NumText(n))
    case DTrue => JTrue
    case DFalse => JFalse
    case DNull => JNull
  }

  /** As RFC 8259 has it, or as the code does. */
  datatype Reading = Right | Code

  function StrBy(s: seq<Glyph>, str: Reading): seq<byte>
    requires GlyphsOk(s)
  {
    if str.Right? then StrMeans(s) else StrRead(s)
  }

  function ItemsBy(items: seq<DItem>, str: Reading): seq<Tree>
    requires forall k :: 0 <= k < |items| ==> ItemOk(items[k])
    decreases items
  {
    if items == [] then [] else
      assert ItemOk(items[0]);
      [TreeBy(items[0].doc, str)] + ItemsBy(items[1..], str)
  }

  function MemberBy(m: DMember, str: Reading): Member
    requires MemberOk(m)
    decreases m
  {
    assert ItemOk(m.item);
    Member(StrBy(m.name, str), TreeBy(m.item.doc, str))
  }

  function MembersBy(members: seq<DMember>, str: Reading): seq<Member>
    requires forall k :: 0 <= k < |members| ==> MemberOk(members[k])
    decreases members
  {
    if members == [] then [] else [MemberBy(members[0], str)] + MembersBy(members[1..], str)
  }

  // ------------------------------------------------ every such text is read

  predicate HasParts(d: Doc) { d.DObject? || d.DArray? }

  lemma FirstOf(d: Doc)
    requires DocOk(d)
    ensures Text(d) != [] && !IsWs(Text(d)[0]) && Text(d)[0] != RBRACKET
    ensures !HasParts(d) ==> Text(d)[0] != LBRACE && Text(d)[0] != LBRACKET
  {
    if d.DNumber? {
      var n := d.n;
      assert IsDigit(n.whole[0]);
      assert NumText(n)[0] == WholeText(n)[0];
    }
  }

  lemma ScalarOf(t: seq<byte>, i: nat, d: Doc)
    requires DocOk(d) && !HasParts(d) && Spells(t, i, Text(d)) && Ends(At(t, i + |Text(d)|))
    ensures i <= |t| && Scalar(t, i) == Ok(TreeBy(d, Code), i + |Text(d)|)
  {
    hide Number, Str, NumText, StrRead, Spells, NumOk;
    FirstOf(d);
    SpellsFits(t, i, Text(d));
    SpellsAt(t, i, Text(d), 0);
    NotThese(t, i);
    match d {
      case DString(s) =>
        assert [] + Quoted(s) == Quoted(s);
        StrOf(t, i, [], s);
      case DNumber(n) => NumberOf(t, i, n);
      case _ =>
    }
  }

  lemma NotThese(t: seq<byte>, i: nat)
    ensures Spells(t, i, TRUE) ==> At(t, i) == 0x74
    ensures Spells(t, i, FALSE) ==> At(t, i) == 0x66
    ensures Spells(t, i, NULL) ==> At(t, i) == 0x6e
  {
    if Spells(t, i, TRUE) { SpellsAt(t, i, TRUE, 0); }
    if Spells(t, i, FALSE) { SpellsAt(t, i, FALSE, 0); }
    if Spells(t, i, NULL) { SpellsAt(t, i, NULL, 0); }
  }

  /** The value of a text, behind white space. */
  lemma {:induction false} ValueOf(t: seq<byte>, i: nat, ws: seq<byte>, d: Doc)
    requires DocOk(d) && AllWs(ws) && Spells(t, i, ws + Text(d)) && Ends(At(t, i + |ws + Text(d)|))
    ensures i <= |t| && Value(t, i) == Ok(TreeBy(d, Code), i + |ws + Text(d)|)
    decreases d, 1
  {
    hide Spells, Scalar, Value, AllWs;
    FirstOf(d);
    SpellsCat(t, i, ws, Text(d));
    SpellsFits(t, i, ws + Text(d));
    var j := i + |ws|;
    SpellsAt(t, j, Text(d), 0);
    SkipsOver(t, i, ws);
    ValueSkips(t, i);
    if d.DObject? {
      ObjectOf(t, j, d);
    } else if d.DArray? {
      ArrayOf(t, j, d);
    } else {
      ScalarOf(t, j, d);
    }
  }

  lemma {:induction false} ArrayOf(t: seq<byte>, i: nat, d: Doc)
    requires DocOk(d) && d.DArray? && Spells(t, i, Text(d))
    ensures i <= |t| && Value(t, i) == Ok(TreeBy(d, Code), i + |Text(d)|)
    decreases d, 0
  {
    hide Spells, Value, Elements, AllWs, ItemOk, ItemsText;
    var rest := if d.items == [] then d.ws + [RBRACKET] else ItemsText(d.items);
    SpellsFits(t, i, Text(d));
    SpellsCat(t, i, [LBRACKET], rest);
    SpellsOne(t, i, LBRACKET);
    ValueOfArray(t, i);
    if d.items == [] {
      EmptyOf(t, i + 1, d.ws, RBRACKET);
    } else {
      ElementsOf(t, i + 1, d.items);
      ElementsSkips(t, i + 1);
      NotClosed(t, i + 1, d.items);
    }
  }

  lemma {:induction false} ObjectOf(t: seq<byte>, i: nat, d: Doc)
    requires DocOk(d) && d.DObject? && Spells(t, i, Text(d))
    ensures i <= |t| && Value(t, i) == Ok(TreeBy(d, Code), i + |Text(d)|)
    decreases d, 0
  {
    hide Spells, Value, Members, AllWs, MemberOk, MembersText;
    var rest := if d.members == [] then d.ws + [RBRACE] else MembersText(d.members);
    SpellsFits(t, i, Text(d));
    SpellsCat(t, i, [LBRACE], rest);
    SpellsOne(t, i, LBRACE);
    ValueOfObject(t, i);
    if d.members == [] {
      EmptyOf(t, i + 1, d.ws, RBRACE);
    } else {
      MembersOf(t, i + 1, d.members);
      MembersSkip(t, i + 1);
      MembersOpen(t, i + 1, d.members);
    }
  }

  lemma EmptyOf(t: seq<byte>, i: nat, ws: seq<byte>, close: byte)
    requires AllWs(ws) && Spells(t, i, ws + [close]) && close != 0 && !IsWs(close)
    ensures SkipWs(t, i) == i + |ws| && At(t, i + |ws|) == close
  {
    SpellsCat(t, i, ws, [close]);
    SpellsOne(t, i + |ws|, close);
    SkipsOver(t, i, ws);
  }

  lemma ElementsSkips(t: seq<byte>, i: nat)
    requires i <= |t|
    ensures Elements(t, i) == Elements(t, SkipWs(t, i))
  {
    hide Value;
    ValueSkips(t, i);
  }

  lemma PairSkips(t: seq<byte>, i: nat)
    requires i <= |t|
    ensures Pair(t, i) == Pair(t, SkipWs(t, i))
  {
    hide Value, Str;
    assert Str(t, i) == Str(t, SkipWs(t, i)) by { StrSkips(t, i); }
  }

  lemma StrSkips(t: seq<byte>, i: nat)
    requires i <= |t|
    ensures Str(t, i) == Str(t, SkipWs(t, i))
  {
    hide Chars;
    assert SkipWs(t, SkipWs(t, i)) == SkipWs(t, i);
  }

  lemma MembersSkip(t: seq<byte>, i: nat)
    requires i <= |t|
    ensures Members(t, i) == Members(t, SkipWs(t, i))
  {
    hide Pair;
    assert Pair(t, i) == Pair(t, SkipWs(t, i)) by { PairSkips(t, i); }
  }

  /** An array that has something in it does not look empty. */
  lemma NotClosed(t: seq<byte>, i: nat, items: seq<DItem>)
    requires items != [] && ItemOk(items[0]) && i <= |t| && Spells(t, i, ItemsText(items))
    ensures At(t, SkipWs(t, i)) != RBRACKET
  {
    hide Spells, Text, AllWs;
    var it := items[0];
    var rest := if |items| == 1 then [RBRACKET] else [COMMA] + ItemsText(items[1..]);
    SpellsCat(t, i, ItemText(it), rest);
    SpellsCat(t, i, it.before + Text(it.doc), it.after);
    SpellsCat(t, i, it.before, Text(it.doc));
    FirstOf(it.doc);
    SpellsAt(t, i + |it.before|, Text(it.doc), 0);
    SkipsOver(t, i, it.before);
  }

  lemma MembersOpen(t: seq<byte>, i: nat, members: seq<DMember>)
    requires members != [] && MemberOk(members[0]) && i <= |t| && Spells(t, i, MembersText(members))
    ensures At(t, SkipWs(t, i)) != RBRACE
  {
    hide Spells, AllWs, ItemText, GlyphsText;
    var m := members[0];
    var rest := if |members| == 1 then [RBRACE] else [COMMA] + MembersText(members[1..]);
    SpellsCat(t, i, MemberText(m), rest);
    SpellsCat(t, i, m.before + Quoted(m.name), m.colon + ([COLON] + ItemText(m.item)));
    SpellsCat(t, i, m.before, Quoted(m.name));
    SpellsAt(t, i + |m.before|, Quoted(m.name), 0);
    SkipsOver(t, i, m.before);
  }

  /** A value, the white space behind it and the character `c` that follows. */
  lemma {:induction false} ItemOf(t: seq<byte>, i: nat, it: DItem, c: byte)
    requires ItemOk(it) && Spells(t, i, ItemText(it)) && At(t, i + |ItemText(it)|) == c
    requires (c == COMMA || c == RBRACKET || c == RBRACE)
    ensures i <= |t| && Value(t, i).Ok? && Value(t, i).value == TreeBy(it.doc, Code)
    ensures SkipWs(t, Value(t, i).next) == i + |ItemText(it)|
    decreases it
  {
    hide Spells, Value, Text, AllWs;
    var w := it.before + Text(it.doc);
    SpellsCat(t, i, w, it.after);
    if it.after != [] { SpellsAt(t, i + |w|, it.after, 0); }
    assert Ends(At(t, i + |w|)) by { FirstWs(it.after); }
    ValueOf(t, i, it.before, it.doc);
    SkipsOver(t, i + |w|, it.after);
  }

  lemma FirstWs(w: seq<byte>)
    requires AllWs(w)
    ensures w != [] ==> IsWs(w[0])
  {}

  lemma {:induction false} ElementsOf(t: seq<byte>, i: nat, items: seq<DItem>)
    requires items != [] && (forall k :: 0 <= k < |items| ==> ItemOk(items[k])) && Spells(t, i, ItemsText(items))
    ensures i <= |t| && Elements(t, i) == Ok(ItemsBy(items, Code), i + |ItemsText(items)|)
    decreases items
  {
    hide Spells, Value, ItemText, TreeBy, DocOk, AllWs;
    var it := items[0];
    var rest := if |items| == 1 then [RBRACKET] else [COMMA] + ItemsText(items[1..]);
    SpellsCat(t, i, ItemText(it), rest);
    var j := i + |ItemText(it)|;
    SpellsAt(t, j, rest, 0);
    ItemOf(t, i, it, rest[0]);
    if |items| > 1 {
      SpellsCat(t, j, [COMMA], ItemsText(items[1..]));
      ElementsOf(t, j + 1, items[1..]);
    } else {
      assert ItemsBy(items, Code) == [TreeBy(it.doc, Code)] + ItemsBy(items[1..], Code) == [TreeBy(it.doc, Code)];
    }
  }

  lemma {:induction false} PairOf(t: seq<byte>, i: nat, m: DMember, c: byte)
    requires MemberOk(m) && Spells(t, i, MemberText(m)) && At(t, i + |MemberText(m)|) == c
    requires (c == COMMA || c == RBRACE)
    ensures i <= |t| && Pair(t, i).Ok? && Pair(t, i).value == MemberBy(m, Code)
    ensures SkipWs(t, Pair(t, i).next) == i + |MemberText(m)|
    decreases m
  {
    hide Spells, Value, Str, ItemText, TreeBy, Quoted, AllWs, GlyphsOk, StrBy;
    var a, b := m.before + Quoted(m.name), [COLON] + ItemText(m.item);
    SpellsCat(t, i, a, m.colon + b);
    SpellsFits(t, i, a);
    StrOf(t, i, m.before, m.name);
    assert StrBy(m.name, Code) == StrRead(m.name) by { CodeReads(m.name); }
    var j := i + |a|;
    SpellsCat(t, j, m.colon, b);
    var k := j + |m.colon|;
    SpellsCat(t, k, [COLON], ItemText(m.item));
    SpellsOne(t, k, COLON);
    SkipsOver(t, j, m.colon);
    ItemOf(t, k + 1, m.item, c);
  }

  lemma CodeReads(s: seq<Glyph>)
    requires GlyphsOk(s)
    ensures StrBy(s, Code) == StrRead(s)
  {}

  lemma {:induction false} MembersOf(t: seq<byte>, i: nat, members: seq<DMember>)
    requires members != [] && (forall k :: 0 <= k < |members| ==> MemberOk(members[k]))
    requires Spells(t, i, MembersText(members))
    ensures i <= |t| && Members(t, i) == Ok(MembersBy(members, Code), i + |MembersText(members)|)
    decreases members
  {
    hide Spells, Pair, MemberText, MemberBy, MemberOk;
    var m := members[0];
    var rest := if |members| == 1 then [RBRACE] else [COMMA] + MembersText(members[1..]);
    SpellsCat(t, i, MemberText(m), rest);
    var j := i + |MemberText(m)|;
    SpellsAt(t, j, rest, 0);
    PairOf(t, i, m, rest[0]);
    if |members| > 1 {
      SpellsCat(t, j, [COMMA], MembersText(members[1..]));
      MembersOf(t, j + 1, members[1..]);
    } else {
      assert MembersBy(members, Code) == [MemberBy(m, Code)] + MembersBy(members[1..], Code) == [MemberBy(m, Code)];
    }
  }

  // ------------------------------------------------ what is read is what is meant

  /** All surrogate pairs of the text are ones the code handles. */
  predicate DocHandled(d: Doc)
    decreases d
  {
    match d
    case DObject(_, members) => MembersHandled(members)
    case DArray(_, items) => ItemsHandled(items)
    case DString(s) => StrHandled(s)
    case _ => true
  }

  predicate ItemsHandled(items: seq<DItem>)
    decreases items
  {
    items == [] || (DocHandled(items[0].doc) && ItemsHandled(items[1..]))
  }

  predicate MemberHandled(m: DMember)
    decreases m
  {
    StrHandled(m.name) && DocHandled(m.item.doc)
  }

  predicate MembersHandled(members: seq<DMember>)
    decreases members
  {
    members == [] || (MemberHandled(members[0]) && MembersHandled(members[1..]))
  }

  lemma {:induction false} ReadRight(d: Doc)
    requires DocOk(d)
    ensures TreeBy(d, Code) == TreeBy(d, Right) <==> DocHandled(d)
    decreases d
  {
    hide StrRead, StrMeans, StrHandled, MemberOk, ItemOk, AllWs, NumOk, GlyphsOk;
    match d {
      case DObject(_, members) => MembersRight(members);
      case DArray(_, items) => ItemsRight(items);
      case DString(s) => StrReadRight(s);
      case _ =>
    }
  }

  lemma {:induction false} ItemsRight(items: seq<DItem>)
    requires forall k :: 0 <= k < |items| ==> ItemOk(items[k])
    ensures ItemsBy(items, Code) == ItemsBy(items, Right) <==> ItemsHandled(items)
    decreases items
  {
    hide TreeBy, DocHandled, DocOk, AllWs;
    if items != [] {
      assert ItemOk(items[0]);
      ReadRight(items[0].doc);
      ItemsRight(items[1..]);
      FirstAndRest(TreeBy(items[0].doc, Code), ItemsBy(items[1..], Code),
        TreeBy(items[0].doc, Right), ItemsBy(items[1..], Right));
    }
  }

  lemma {:induction false} MembersRight(members: seq<DMember>)
    requires forall k :: 0 <= k < |members| ==> MemberOk(members[k])
    ensures MembersBy(members, Code) == MembersBy(members, Right) <==> MembersHandled(members)
    decreases members
  {
    hide MemberBy, MemberHandled, MemberOk;
    if members != [] {
      assert MemberOk(members[0]);
      MemberRight(members[0]);
      MembersRight(members[1..]);
      FirstAndRest(MemberBy(members[0], Code), MembersBy(members[1..], Code),
        MemberBy(members[0], Right), MembersBy(members[1..], Right));
    }
  }

  lemma {:induction false} MemberRight(m: DMember)
    requires MemberOk(m)
    ensures MemberBy(m, Code) == MemberBy(m, Right) <==> MemberHandled(m)
    decreases m
  {
    hide TreeBy, DocHandled, DocOk, AllWs, StrRead, StrMeans, StrHandled, GlyphsOk;
    assert ItemOk(m.item);
    ReadRight(m.item.doc);
    StrReadRight(m.name);
  }

  lemma FirstAndRest<T>(a: T, s: seq<T>, b: T, r: seq<T>)
    ensures [a] + s == [b] + r <==> a == b && s == r
  {
    assert ([a] + s)[0] == a && ([b] + r)[0] == b && ([a] + s)[1..] == s && ([b] + r)[1..] == r;
  }

  // ------------------------------------------------ whole texts

  /** Every JSON text of RFC 8259 in which every surrogate is one of a pair is accepted and read to its end; it is
      understood as RFC 8259 has it if and only if all its surrogate pairs are ones the code handles. */
  lemma ParseOf(it: DItem)
    requires ItemOk(it)
    ensures Parse(ItemText(it)) == Ok(TreeBy(it.doc, Code), |ItemText(it)|)
    ensures Parse(ItemText(it)) == Ok(TreeBy(it.doc, Right), |ItemText(it)|) <==> DocHandled(it.doc)
  {
    hide Value, Text, TreeBy, DocOk, DocHandled, AllWs;
    var t := ItemText(it);
    var w := it.before + Text(it.doc);
    assert Spells(t, 0, w + it.after) by { assert t[0..|t|] == t; }
    SpellsCat(t, 0, w, it.after);
    if it.after != [] { SpellsAt(t, |w|, it.after, 0); }
    assert Ends(At(t, |w|)) by { FirstWs(it.after); }
    ValueOf(t, 0, it.before, it.doc);
    SkipsOver(t, |w|, it.after);
    ReadRight(it.doc);
  }
}
