/** The ordinary command line: words as they are and words in quotes, with white space or commas between them,
    as VAV_ParseTxt of lib/vav.c takes them apart.  The characters are written out here. */
module VavWords {
  import opened Words
  import opened Options
  import opened Ascii
  import opened Vsb
  import opened Vav
  import opened VavQuote

  /** A word as it is, or the quotation of a byte string between double quotes. */
  datatype Item = Bare(w: seq<byte>) | InQuotes(mode: Mode, a: seq<byte>)

  /** White space, and a comma with more of it if `comma` is set. */
  datatype Gap = Gap(before: seq<byte>, comma: bool, after: seq<byte>)

  ghost predicate Blanks(s: seq<byte>) {
    forall k :: 0 <= k < |s| ==> s[k] == 0x20 || 0x09 <= s[k] <= 0x0d
  }

  /** A byte that is an ordinary part of a word. */
  predicate Ordinary(c: byte, f: Flags) {
    && !(c == 0x20 || 0x09 <= c <= 0x0d)
    && (!f.noesc ==> c != 0x22 && c != 0x5c)
    && (f.comma ==> c != 0x2c)
  }

  ghost predicate ItemOk(it: Item, f: Flags) {
    match it
    case Bare(w) => w != [] && (forall k :: 0 <= k < |w| ==> Ordinary(w[k], f)) && !(f.comment && w[0] == 0x23)
    case InQuotes(mode, _) => !mode.Json? && !f.noesc
  }

  function ItemText(it: Item): seq<byte> {
    match it
    case Bare(w) => w
    case InQuotes(mode, a) => [0x22] + (Quote(mode, a) + [0x22])
  }

  function ItemValue(it: Item): seq<byte> {
    if it.Bare? then it.w else it.a
  }

  ghost predicate GapOk(g: Gap, f: Flags) {
    Blanks(g.before) && Blanks(g.after) && (g.comma ==> f.comma)
  }

  predicate Divides(g: Gap) { g.before != [] || g.comma }

  function CommaText(g: Gap): seq<byte> { if g.comma then [0x2c] + g.after else [] }

  function GapText(g: Gap): seq<byte> { g.before + CommaText(g) }

  /** Every item with its gap behind it. */
  function LineText(items: seq<Item>, gaps: seq<Gap>): seq<byte>
    requires |gaps| == |items|
  {
    if items == [] then [] else ItemText(items[0]) + (GapText(gaps[0]) + LineText(items[1..], gaps[1..]))
  }

  function Values(items: seq<Item>): (r: seq<seq<byte>>)
    ensures |r| == |items|
  {
    if items == [] then [] else [ItemValue(items[0])] + Values(items[1..])
  }

  /** A gap between any two, none needed at the end. */
  ghost predicate LineOk(items: seq<Item>, gaps: seq<Gap>, f: Flags) {
    && |gaps| == |items|
    && (forall i :: 0 <= i < |items| ==> ItemOk(items[i], f))
    && (forall i :: 0 <= i < |gaps| ==> GapOk(gaps[i], f) && (i + 1 < |gaps| ==> Divides(gaps[i])))
  }

  /** The text ends in a comma directly behind a word without quotes, white space aside. */
  predicate EndsInComma(items: seq<Item>, gaps: seq<Gap>)
    requires |gaps| == |items|
  {
    items != [] && (var n := |items| - 1; items[n].Bare? && gaps[n].comma && gaps[n].before == [])
  }

  // ------------------------------------------------ one word

  lemma {:induction false} ScanBare(w: seq<byte>, rest: seq<byte>, f: Flags)
    requires forall k :: 0 <= k < |w| ==> Ordinary(w[k], f)
    requires rest == [] || rest[0] == 0x20 || 0x09 <= rest[0] <= 0x0d || (f.comma && rest[0] == 0x2c)
    ensures Scan(w + rest, false, f) == Stop(|w|, rest != [])
  {
    hide Escape;
    if w == [] {
      assert w + rest == rest;
    } else {
      ScanBare(w[1..], rest, f);
      assert (w + rest)[1..] == w[1..] + rest;
      ScanStep(w + rest, false, f);
    }
  }

  lemma {:induction false} DecodeBare(w: seq<byte>)
    requires forall k :: 0 <= k < |w| ==> w[k] != 0x5c
    ensures Decode(w) == Some(w)
  {
    if w != [] {
      DecodeBare(w[1..]);
      assert w == [w[0]] + w[1..];
    }
  }

  predicate MayStart(sep: Sep, f: Flags) { sep.QuoteSep? ==> sep.gap >= 2 && !f.noesc }

  /** A word is taken as it is. */
  lemma ParseBare(w: seq<byte>, rest: seq<byte>, sep: Sep, f: Flags)
    requires ItemOk(Bare(w), f) && MayStart(sep, f)
    requires rest == [] || rest[0] == 0x20 || 0x09 <= rest[0] <= 0x0d || (f.comma && rest[0] == 0x2c)
    ensures Parse(w + rest, sep, f) ==
      First(w, Parse(if rest == [] then [] else rest[1..], SepAt(false, rest), f))
  {
    hide Parse, Scan, Decode, Token, First;
    var s := w + rest;
    assert s[0] == w[0] && Ordinary(w[0], f);
    ParseStep(s, sep, f);
    ScanBare(w, rest, f);
    TokenIs(s, false, f);
    assert s[..|w|] == w && s[|w|..] == rest;
    if !f.noesc {
      assert forall k :: 0 <= k < |w| ==> Ordinary(w[k], f) && w[k] != 0x5c;
      DecodeBare(w);
    }
    assert rest != [] ==> s[|w| + 1..] == rest[1..];
  }

  // ------------------------------------------------ the gap behind it

  /** What the gap leaves the reader with. */
  function SepAfter(it: Item, g: Gap): Sep {
    if it.InQuotes? then if g.comma then NoSep else QuoteSep(1 + |g.before|)
    else if g.before == [] then if g.comma then CommaSep else NoSep
    else if g.comma then NoSep else Blank
  }

  lemma BlanksAre(s: seq<byte>)
    requires Blanks(s)
    ensures AllBlank(s)
  {}

  lemma CommaRead(g: Gap, more: seq<byte>, sep: Sep, f: Flags)
    requires GapOk(g, f) && (sep.Blank? || sep.QuoteSep?)
    ensures Parse(CommaText(g) + more, sep, f) == Parse(more, if g.comma then NoSep else sep, f)
  {
    hide Parse;
    if g.comma {
      var s := CommaText(g) + more;
      assert s[1..] == g.after + more;
      ParseStep(s, sep, f);
      BlanksAre(g.after);
      SkipBlanks(g.after, more, NoSep, f);
    } else {
      assert CommaText(g) + more == more;
    }
  }

  lemma BareThen(w: seq<byte>, g: Gap, more: seq<byte>, sep: Sep, f: Flags)
    requires ItemOk(Bare(w), f) && GapOk(g, f) && MayStart(sep, f) && (Divides(g) || more == [])
    ensures Parse(w + (GapText(g) + more), sep, f) == First(w, Parse(more, SepAfter(Bare(w), g), f))
  {
    hide Parse, First, ItemOk, Blanks;
    var rest := GapText(g) + more;
    if g.before != [] {
      assert rest[0] == g.before[0] && rest[1..] == g.before[1..] + (CommaText(g) + more);
      BlankFirst(g.before);
      ParseBare(w, rest, sep, f);
      SkipBlanks(g.before[1..], CommaText(g) + more, Blank, f);
      CommaRead(g, more, Blank, f);
    } else if g.comma {
      assert rest[0] == 0x2c && rest[1..] == g.after + more;
      ParseBare(w, rest, sep, f);
      BlanksAre(g.after);
      SkipBlanks(g.after, more, CommaSep, f);
    } else {
      assert rest == [];
      ParseBare(w, rest, sep, f);
    }
  }

  lemma BlankFirst(s: seq<byte>)
    requires Blanks(s) && s != []
    ensures (s[0] == 0x20 || 0x09 <= s[0] <= 0x0d) && IsSpace(s[0]) && s[0] != 0x2c && AllBlank(s[1..])
  {}

  lemma QuotedThen(mode: Mode, a: seq<byte>, g: Gap, more: seq<byte>, sep: Sep, f: Flags)
    requires ItemOk(InQuotes(mode, a), f) && GapOk(g, f) && MayStart(sep, f)
    ensures Parse(ItemText(InQuotes(mode, a)) + (GapText(g) + more), sep, f)
      == First(a, Parse(more, SepAfter(InQuotes(mode, a), g), f))
  {
    hide Parse, First, Quote, Blanks;
    var rest := GapText(g) + more;
    assert ItemText(InQuotes(mode, a)) + rest == [DQUOTE] + (Quote(mode, a) + ([DQUOTE] + rest));
    ParseQuoted(mode, a, rest, sep, f);
    assert rest == g.before + (CommaText(g) + more);
    BlanksAre(g.before);
    SkipBlanks(g.before, CommaText(g) + more, QuoteSep(1), f);
    CommaRead(g, more, QuoteSep(1 + |g.before|), f);
  }

  // ------------------------------------------------ the whole line

  /** What the reader is left with behind all of them. */
  function SepLeft(items: seq<Item>, gaps: seq<Gap>, sep: Sep): Sep
    requires |gaps| == |items|
  {
    if items == [] then sep else SepAfter(items[|items| - 1], gaps[|gaps| - 1])
  }

  /** Something may follow the last gap. */
  predicate Open(items: seq<Item>, gaps: seq<Gap>)
    requires |gaps| == |items|
  {
    items == [] || Divides(gaps[|gaps| - 1])
  }

  /** The words of a line are taken, and then the rest of it. */
  lemma {:induction false} FromItem(items: seq<Item>, gaps: seq<Gap>, rest: seq<byte>, sep: Sep, f: Flags)
    requires LineOk(items, gaps, f) && (items != [] ==> MayStart(sep, f)) && (rest == [] || Open(items, gaps))
    ensures Parse(LineText(items, gaps) + rest, sep, f)
      == After(Values(items), Parse(rest, SepLeft(items, gaps, sep), f))
    decreases |items|
  {
    hide Parse;
    if items == [] {
      assert LineText(items, gaps) == [] && [] + rest == rest;
      AfterNone(Parse(rest, sep, f));
    } else {
      hide First, After, ItemOk, GapOk, ItemText, GapText, LineText, Values, LineOk;
      var it, g := items[0], gaps[0];
      var more := LineText(items[1..], gaps[1..]) + rest;
      LineNext(items, gaps, f);
      TextNext(items, gaps, rest);
      ItemThen(it, g, more, sep, f);
      NextMayStart(it, g, f);
      FromItem(items[1..], gaps[1..], rest, SepAfter(it, g), f);
      OneMoreValue(items, Parse(rest, SepLeft(items, gaps, sep), f));
    }
  }

  lemma ItemThen(it: Item, g: Gap, more: seq<byte>, sep: Sep, f: Flags)
    requires ItemOk(it, f) && GapOk(g, f) && MayStart(sep, f) && (Divides(g) || more == [])
    ensures Parse(ItemText(it) + (GapText(g) + more), sep, f) == First(ItemValue(it), Parse(more, SepAfter(it, g), f))
  {
    hide Parse, First, ItemOk, GapOk, GapText;
    match it {
      case Bare(w) => BareThen(w, g, more, sep, f);
      case InQuotes(mode, a) => QuotedThen(mode, a, g, more, sep, f);
    }
  }

  lemma LineNext(items: seq<Item>, gaps: seq<Gap>, f: Flags)
    requires LineOk(items, gaps, f) && items != []
    ensures LineOk(items[1..], gaps[1..], f) && (|items| > 1 ==> Divides(gaps[0]))
    ensures ItemOk(items[0], f) && GapOk(gaps[0], f)
    ensures |items| == 1 ==> LineText(items[1..], gaps[1..]) == []
  {}

  lemma TextNext(items: seq<Item>, gaps: seq<Gap>, rest: seq<byte>)
    requires |gaps| == |items| && items != []
    ensures LineText(items, gaps) + rest
      == ItemText(items[0]) + (GapText(gaps[0]) + (LineText(items[1..], gaps[1..]) + rest))
  {
    hide ItemText, GapText;
    var a, b, c := ItemText(items[0]), GapText(gaps[0]), LineText(items[1..], gaps[1..]);
    assert (a + (b + c)) + rest == a + (b + (c + rest));
  }

  lemma NextMayStart(it: Item, g: Gap, f: Flags)
    requires ItemOk(it, f)
    ensures Divides(g) ==> MayStart(SepAfter(it, g), f)
  {}

  lemma OneMoreValue(items: seq<Item>, r: Parsed)
    requires items != []
    ensures First(ItemValue(items[0]), After(Values(items[1..]), r)) == After(Values(items), r)
  {
    if r.Args? {
      assert [ItemValue(items[0])] + (Values(items[1..]) + r.args) == Values(items) + r.args;
    }
  }

  lemma FromStart(lead: seq<byte>, items: seq<Item>, gaps: seq<Gap>, rest: seq<byte>, f: Flags)
    requires Blanks(lead) && LineOk(items, gaps, f) && (rest == [] || Open(items, gaps))
    ensures Parse(lead + (LineText(items, gaps) + rest), NoSep, f)
      == After(Values(items), Parse(rest, SepLeft(items, gaps, NoSep), f))
    ensures rest != [] ==> MayStart(SepLeft(items, gaps, NoSep), f)
  {
    hide Parse, LineText, Values, Blanks, GapOk, After;
    BlanksAre(lead);
    SkipBlanks(lead, LineText(items, gaps) + rest, NoSep, f);
    FromItem(items, gaps, rest, NoSep, f);
  }

  /** Every line of words, quoted or not, is taken apart into exactly these; there is an empty argument more if
      and only if the line ends in a comma directly behind a word without quotes, white space aside. */
  lemma LineParses(lead: seq<byte>, items: seq<Item>, gaps: seq<Gap>, f: Flags)
    requires Blanks(lead) && LineOk(items, gaps, f)
    ensures Parse(lead + LineText(items, gaps), NoSep, f) ==
      var trail := EndsInComma(items, gaps);
      Args(Values(items) + if trail then [[]] else [], trail)
  {
    hide LineText, Values, Blanks, ItemOk, GapOk;
    FromStart(lead, items, gaps, [], f);
    assert LineText(items, gaps) + [] == LineText(items, gaps);
  }

  // ------------------------------------------------ how else a line can end

  /** From a hash sign on, where comments are allowed, nothing counts. */
  lemma CommentIgnored(lead: seq<byte>, items: seq<Item>, gaps: seq<Gap>, comment: seq<byte>, f: Flags)
    requires Blanks(lead) && LineOk(items, gaps, f) && Open(items, gaps) && f.comment
    ensures Parse(lead + (LineText(items, gaps) + ([0x23] + comment)), NoSep, f) == Args(Values(items), false)
  {
    hide LineText, Values, Blanks, ItemOk, GapOk, Parse;
    var rest := [0x23] + comment;
    FromStart(lead, items, gaps, rest, f);
    ParseStep(rest, SepLeft(items, gaps, NoSep), f);
    assert Values(items) + [] == Values(items);
  }

  /** A double quote inside a word is an error. */
  lemma StrayQuote(lead: seq<byte>, items: seq<Item>, gaps: seq<Gap>, w: seq<byte>, more: seq<byte>, f: Flags)
    requires Blanks(lead) && LineOk(items, gaps, f) && Open(items, gaps) && ItemOk(Bare(w), f) && !f.noesc
    ensures Parse(lead + (LineText(items, gaps) + (w + ([0x22] + more))), NoSep, f) == Error(InvalidQuote)
  {
    hide LineText, Values, Blanks, GapOk, Parse, Scan, Decode, Token;
    var rest := w + ([0x22] + more);
    FromStart(lead, items, gaps, rest, f);
    assert rest[0] == w[0] && Ordinary(w[0], f);
    ParseStep(rest, SepLeft(items, gaps, NoSep), f);
    ScanStray(w, more, f);
  }

  lemma {:induction false} ScanStray(w: seq<byte>, more: seq<byte>, f: Flags)
    requires !f.noesc && forall k :: 0 <= k < |w| ==> Ordinary(w[k], f)
    ensures Scan(w + ([0x22] + more), false, f) == BadQuote
  {
    hide Escape;
    var s := w + ([0x22] + more);
    ScanStep(s, false, f);
    if w != [] {
      ScanStray(w[1..], more, f);
      assert s[1..] == w[1..] + ([0x22] + more);
    }
  }

  /** So is a quotation that is never closed. */
  lemma OpenQuote(lead: seq<byte>, items: seq<Item>, gaps: seq<Gap>, mode: Mode, a: seq<byte>, f: Flags)
    requires Blanks(lead) && LineOk(items, gaps, f) && Open(items, gaps) && !mode.Json? && !f.noesc
    ensures Parse(lead + (LineText(items, gaps) + ([0x22] + Quote(mode, a))), NoSep, f) == Error(MissingQuote)
  {
    hide LineText, Values, Blanks, ItemOk, GapOk, Parse, Scan, Decode, Token, Quote;
    var rest := [0x22] + Quote(mode, a);
    FromStart(lead, items, gaps, rest, f);
    ParseStep(rest, SepLeft(items, gaps, NoSep), f);
    assert rest[1..] == Quote(mode, a);
    ScanOpen(mode, a, f);
  }

  lemma {:induction false} ScanOpen(mode: Mode, a: seq<byte>, f: Flags)
    requires !mode.Json? && !f.noesc
    ensures Scan(Quote(mode, a), true, f) == Stop(|Quote(mode, a)|, false)
  {
    hide QuoteByte, Escape;
    if a != [] {
      var q, more := QuoteByte(mode, a[0]), Quote(mode, a[1..]);
      ScanOpen(mode, a[1..], f);
      QuotedByte(mode, a[0], more);
      assert (q + more)[|q|..] == more;
      ScanStep(q + more, true, f);
    }
  }

  /** And a backslash with something behind it that is no escape. */
  lemma BadEscape(lead: seq<byte>, items: seq<Item>, gaps: seq<Gap>, w: seq<byte>, c: byte, more: seq<byte>, f: Flags)
    requires Blanks(lead) && LineOk(items, gaps, f) && Open(items, gaps) && ItemOk(Bare(w), f) && !f.noesc
    requires !(c == 0x6e || c == 0x72 || c == 0x74 || c == 0x22 || c == 0x5c || 0x30 <= c <= 0x37 || c == 0x78)
    ensures Parse(lead + (LineText(items, gaps) + (w + ([0x5c, c] + more))), NoSep, f) == Error(InvalidBackslash)
  {
    hide LineText, Values, Blanks, GapOk, Parse, Scan, Decode, Token;
    var rest := w + ([0x5c, c] + more);
    FromStart(lead, items, gaps, rest, f);
    assert rest[0] == w[0] && Ordinary(w[0], f);
    ParseStep(rest, SepLeft(items, gaps, NoSep), f);
    ScanBad(w, c, more, f);
  }

  lemma {:induction false} ScanBad(w: seq<byte>, c: byte, more: seq<byte>, f: Flags)
    requires !f.noesc && forall k :: 0 <= k < |w| ==> Ordinary(w[k], f)
    requires !(c == 0x6e || c == 0x72 || c == 0x74 || c == 0x22 || c == 0x5c || 0x30 <= c <= 0x37 || c == 0x78)
    ensures Scan(w + ([0x5c, c] + more), false, f) == BadBackslash
  {
    var s := w + ([0x5c, c] + more);
    ScanStep(s, false, f);
    if w == [] {
      assert s == [0x5c, c] + more;
    } else {
      ScanBad(w[1..], c, more, f);
      assert s[1..] == w[1..] + ([0x5c, c] + more);
    }
  }

  // ------------------------------------------------ the escapes in characters

  /** The escapes of one letter: line feed, carriage return, tab, double quote and backslash. */
  lemma LetterEscapes(rest: seq<byte>)
    ensures Escape([0x5c, 0x6e] + rest) == Esc(0x0a, 2) && Escape([0x5c, 0x72] + rest) == Esc(0x0d, 2)
    ensures Escape([0x5c, 0x74] + rest) == Esc(0x09, 2) && Escape([0x5c, 0x22] + rest) == Esc(0x22, 2)
    ensures Escape([0x5c, 0x5c] + rest) == Esc(0x5c, 2)
  {}

  /** Three octal digits and two hexadecimal ones, of which the first is the highest. */
  lemma NumberEscapes(x: nat, y: nat, z: nat, rest: seq<byte>)
    requires x < 4 && y < 8 && z < 8
    ensures Escape([0x5c, 0x30 + x, 0x30 + y, 0x30 + z] + rest) == Esc(64 * x + 8 * y + z, 4)
    ensures Escape([0x5c, 0x78, 0x34, 0x31] + rest) == Esc(0x41, 4)
    ensures Escape([0x5c, 0x78, 0x66, 0x46] + rest) == Esc(0xff, 4)
  {
    var c: byte := 64 * x + 8 * y + z;
    OctalOf(c, rest);
    assert c / 64 == x && c / 8 % 8 == y && c % 8 == z;
  }

  /** How VSB_quote writes a byte in plain mode. */
  lemma QuotesInLetters(c: byte)
    ensures QuoteByte(Plain, 0x0a) == [0x5c, 0x6e] && QuoteByte(Plain, 0x0d) == [0x5c, 0x72]
    ensures QuoteByte(Plain, 0x09) == [0x5c, 0x74] && QuoteByte(Plain, 0x22) == [0x5c, 0x22]
    ensures QuoteByte(Plain, 0x5c) == [0x5c, 0x5c] && QuoteByte(Plain, 0x07) == [0x5c, 0x30, 0x30, 0x37]
    ensures 0x20 <= c <= 0x7e && c != 0x22 && c != 0x5c ==> QuoteByte(Plain, c) == [c]
  {}
}
