/** What VSB_quote writes in JSON mode, vjsn_string reads back. */
module JsonQuote {
  import opened Words
  import opened Ascii
  import opened Texts
  import opened Vsb
  import opened JsonText
  import opened JsonGrammar

  function GlyphFor(c: byte): Glyph {
    if c == BACKSLASH || c == DQUOTE then Letter(c)
    else if c == LF then Letter(0x6e)
    else if c == CR then Letter(0x72)
    else if c == TAB then Letter(0x74)
    else if c >= 0x20 then Raw(c)
    else Hex([ZERO, ZERO, HexDigit(c / 16), HexDigit(c % 16)])
  }

  function GlyphsFor(s: seq<byte>): seq<Glyph> {
    if s == [] then [] else [GlyphFor(s[0])] + GlyphsFor(s[1..])
  }

  lemma GlyphIs(c: byte)
    ensures var g := GlyphFor(c);
      GlyphOk(g) && GlyphText(g) == QuoteByte(Json, c) && GlyphRead(g) == [c] && GlyphMeans(g) == [c]
  {}

  lemma {:induction false} GlyphsAre(s: seq<byte>)
    ensures var g := GlyphsFor(s); GlyphsOk(g) && GlyphsText(g) == Quote(Json, s) && StrRead(g) == s && StrMeans(g) == s
  {
    hide GlyphOk, GlyphText, QuoteByte, GlyphRead, GlyphMeans, GlyphFor;
    if s != [] {
      GlyphIs(s[0]);
      GlyphsAre(s[1..]);
      var g := GlyphsFor(s);
      assert g[1..] == GlyphsFor(s[1..]);
      assert s == [s[0]] + s[1..];
    }
  }

  /** Every byte string, quoted in JSON mode between double quotes, is read back as it was,
      wherever it stands; and it is a JSON string that means those bytes. */
  lemma JsonRoundTrip(t: seq<byte>, i: nat, ws: seq<byte>, s: seq<byte>)
    requires AllWs(ws) && Spells(t, i, ws + ([DQUOTE] + (Quote(Json, s) + [DQUOTE])))
    ensures i <= |t| && Str(t, i) == Ok(s, i + |ws| + |Quote(Json, s)| + 2)
    ensures exists g :: GlyphsOk(g) && Quoted(g) == [DQUOTE] + (Quote(Json, s) + [DQUOTE]) && StrMeans(g) == s
  {
    hide Str, Quote, GlyphsOk, GlyphsText, StrRead, StrMeans;
    GlyphsAre(s);
    StrOf(t, i, ws, GlyphsFor(s));
  }
}
