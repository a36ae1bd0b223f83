/** JSON texts as lib/vjsn.c reads them, described on the text as it was given.
    A NUL stands behind the text. */
module JsonText {
  import opened Words
  import opened Ascii
  import opened Texts

  datatype Msg =
    | Expected(c: byte) | IllegalU | LoneSecond | BadPair
    | Unterminated | ControlChar | BadEscape | BadNumber | Unrecognized | Garbage

  /** What was read, and where reading goes on. */
  datatype Res<T> = Ok(value: T, next: nat) | Bad(msg: Msg)

  datatype Tree =
    | JObject(members: seq<Member>) | JArray(items: seq<Tree>) | JString(s: seq<byte>) | JNumber(lexeme: seq<byte>)
    | JTrue | JFalse | JNull

  datatype Member = Member(name: seq<byte>, value: Tree)

  predicate IsWs(c: byte) { c == TAB || c == LF || c == CR || c == SPACE }

  function SkipWs(t: seq<byte>, i: nat): (j: nat)
    requires i <= |t|
    ensures i <= j <= |t| && !IsWs(At(t, j)) && forall k :: i <= k < j ==> IsWs(t[k])
    decreases |t| - i
  {
    if IsWs(At(t, i)) then SkipWs(t, i + 1) else i
  }

  // ------------------------------------------------ \u sequences

  /** vjsn_unumber */
  function UNumber(t: seq<byte>, i: nat): (r: Res<nat>)
    requires i <= |t|
    ensures r.Ok? ==> r.next == i + 6 <= |t| && r.value < 0x1_0000
  {
    if At(t, i) != BACKSLASH then Bad(Expected(BACKSLASH))
    else if At(t, i + 1) != 0x75 then Bad(Expected(0x75))
    else if IsHex(At(t, i + 2)) && IsHex(At(t, i + 3)) && IsHex(At(t, i + 4)) && IsHex(At(t, i + 5)) then
      Ok(Quad(t[i + 2], t[i + 3], t[i + 4], t[i + 5]), i + 6)
    else Bad(IllegalU)
  }

  function Quad(a: byte, b: byte, c: byte, d: byte): (r: nat)
    requires IsHex(a) && IsHex(b) && IsHex(c) && IsHex(d)
    ensures r < 0x1_0000
  {
    0x1000 * HexVal(a) + 0x100 * HexVal(b) + 0x10 * HexVal(c) + HexVal(d)
  }

  predicate IsHigh(u: nat) { 0xd800 <= u < 0xdc00 }
  predicate IsLow(u: nat) { 0xdc00 <= u < 0xe000 }

  /** The twenty bits of a surrogate pair. */
  function PairBits(u1: nat, u2: nat): (x: nat)
    requires IsHigh(u1) && IsLow(u2)
    ensures x < 0x10_0000
  {
    (u1 - 0xd800) * 0x400 + (u2 - 0xdc00)
  }

  /** The code sets bit 16 instead of adding it. */
  function Combined(u1: nat, u2: nat): (u: nat)
    requires IsHigh(u1) && IsLow(u2)
    ensures 0x1_0000 <= u < 0x11_0000
  {
    var x := PairBits(u1, u2);
    if x / 0x1_0000 % 2 == 1 then x else x + 0x1_0000
  }

  function Utf8(u: nat): (r: seq<byte>)
    requires u < 0x11_0000
    ensures 1 <= |r| <= 4
  {
    if u < 0x80 then [u]
    else if u < 0x800 then [0xc0 + u / 64, 0x80 + u % 64]
    else if u < 0x1_0000 then [0xe0 + u / 4096, 0x80 + u / 64 % 64, 0x80 + u % 64]
    else [0xf0 + u / 262144, 0x80 + u / 4096 % 64, 0x80 + u / 64 % 64, 0x80 + u % 64]
  }

  /** vjsn_unicode */
  function Unicode(t: seq<byte>, i: nat): (r: Res<seq<byte>>)
    requires i <= |t|
    ensures r.Ok? ==> i + |r.value| < r.next <= |t|
  {
    var u1 := UNumber(t, i);
    if u1.Bad? then Bad(u1.msg)
    else if IsLow(u1.value) then Bad(LoneSecond)
    else if IsHigh(u1.value) then
      var u2 := UNumber(t, u1.next);
      if u2.Bad? || !IsLow(u2.value) then Bad(BadPair)
      else Ok(Utf8(Combined(u1.value, u2.value)), u2.next)
    else Ok(Utf8(u1.value), u1.next)
  }

  // ------------------------------------------------ strings

  /** The escapes of one letter. */
  function Short(c: byte): (r: Res<byte>)
    ensures r.Ok? ==> r.next == 2
  {
    if c == BACKSLASH || c == 0x2f || c == DQUOTE then Ok(c, 2)
    else if c == 0x62 then Ok(0x08, 2)
    else if c == 0x66 then Ok(0x0c, 2)
    else if c == 0x74 then Ok(TAB, 2)
    else if c == 0x6e then Ok(LF, 2)
    else if c == 0x72 then Ok(CR, 2)
    else Bad(BadEscape)
  }

  /** One character of a string, or one escape. */
  function Piece(t: seq<byte>, i: nat): (r: Res<seq<byte>>)
    requires i <= |t|
    ensures r.Ok? ==> i + |r.value| <= r.next <= |t| && i < r.next
  {
    var c := At(t, i);
    if c == 0 then Bad(Unterminated)
    else if c <= 0x1f then Bad(ControlChar)
    else if c != BACKSLASH then Ok([c], i + 1)
    else if At(t, i + 1) == 0x75 then Unicode(t, i)
    else
      var e := Short(At(t, i + 1));
      if e.Bad? then Bad(e.msg) else Ok([e.value], i + 2)
  }

  function Behind<T>(p: seq<T>, r: Res<seq<T>>): Res<seq<T>> {
    if r.Bad? then r else Ok(p + r.value, r.next)
  }

  /** From behind the opening quote to behind the closing one. */
  function Chars(t: seq<byte>, i: nat): (r: Res<seq<byte>>)
    requires i <= |t|
    ensures r.Ok? ==> i + |r.value| < r.next <= |t|
    decreases |t| - i
  {
    if At(t, i) == DQUOTE then Ok([], i + 1)
    else
      var p := Piece(t, i);
      if p.Bad? then Bad(p.msg) else Behind(p.value, Chars(t, p.next))
  }

  /** vjsn_string */
  function Str(t: seq<byte>, i: nat): (r: Res<seq<byte>>)
    requires i <= |t|
    ensures r.Ok? ==> i + |r.value| + 1 < r.next <= |t|
  {
    var j := SkipWs(t, i);
    if At(t, j) != DQUOTE then Bad(Expected(DQUOTE)) else Chars(t, j + 1)
  }

  // ------------------------------------------------ numbers

  function Digits(t: seq<byte>, i: nat): (j: nat)
    requires i <= |t|
    ensures i <= j <= |t| && !IsDigit(At(t, j)) && forall k :: i <= k < j ==> IsDigit(t[k])
    decreases |t| - i
  {
    if IsDigit(At(t, i)) then Digits(t, i + 1) else i
  }

  /** At least one digit. */
  function SomeDigits(t: seq<byte>, i: nat): (r: Res<()>)
    requires i <= |t|
    ensures r.Ok? ==> i < r.next <= |t|
  {
    if IsDigit(At(t, i)) then Ok((), Digits(t, i)) else Bad(BadNumber)
  }

  function Whole(t: seq<byte>, i: nat): (r: Res<()>)
    requires i <= |t|
    ensures r.Ok? ==> i < r.next <= |t|
  {
    var j := if At(t, i) == 0x2d then i + 1 else i;
    if At(t, j) == ZERO && IsDigit(At(t, j + 1)) then Bad(BadNumber) else SomeDigits(t, j)
  }

  function Fraction(t: seq<byte>, i: nat): (r: Res<()>)
    requires i <= |t|
    ensures r.Ok? ==> i <= r.next <= |t|
  {
    if At(t, i) == 0x2e then SomeDigits(t, i + 1) else Ok((), i)
  }

  function Exponent(t: seq<byte>, i: nat): (r: Res<()>)
    requires i <= |t|
    ensures r.Ok? ==> i <= r.next <= |t|
  {
    if At(t, i) == 0x65 || At(t, i) == 0x45 then
      SomeDigits(t, if At(t, i + 1) == 0x2d || At(t, i + 1) == 0x2b then i + 2 else i + 1)
    else Ok((), i)
  }

  /** vjsn_number: the text of the number. */
  function Number(t: seq<byte>, i: nat): (r: Res<seq<byte>>)
    requires i <= |t|
    ensures r.Ok? ==> i < r.next <= |t| && r.value == t[i..r.next]
  {
    var a := Whole(t, i);
    if a.Bad? then Bad(a.msg)
    else
      var b := Fraction(t, a.next);
      if b.Bad? then Bad(b.msg)
      else
        var c := Exponent(t, b.next);
        if c.Bad? then Bad(c.msg) else Ok(t[i..c.next], c.next)
  }

  // ------------------------------------------------ values

  const TRUE: seq<byte> := [0x74, 0x72, 0x75, 0x65]
  const FALSE: seq<byte> := [0x66, 0x61, 0x6c, 0x73, 0x65]
  const NULL: seq<byte> := [0x6e, 0x75, 0x6c, 0x6c]

  const LBRACE: byte := 0x7b
  const RBRACE: byte := 0x7d
  const LBRACKET: byte := 0x5b
  const RBRACKET: byte := 0x5d
  const COLON: byte := 0x3a

  predicate StartsNumber(c: byte) { c == 0x2d || IsDigit(c) }

  /** A value without parts; `i` is where it starts. */
  function Scalar(t: seq<byte>, i: nat): (r: Res<Tree>)
    requires i <= |t|
    ensures r.Ok? ==> i < r.next <= |t|
  {
    if At(t, i) == DQUOTE then
      var s := Str(t, i);
      if s.Bad? then Bad(s.msg) else Ok(JString(s.value), s.next)
    else if Spells(t, i, TRUE) then Ok(JTrue, i + 4)
    else if Spells(t, i, FALSE) then Ok(JFalse, i + 5)
    else if Spells(t, i, NULL) then Ok(JNull, i + 4)
    else if StartsNumber(At(t, i)) then
      var n := Number(t, i);
      if n.Bad? then Bad(n.msg) else Ok(JNumber(n.value), n.next)
    else Bad(Unrecognized)
  }

  /** vjsn_value */
  function Value(t: seq<byte>, i: nat): (r: Res<Tree>)
    requires i <= |t|
    ensures r.Ok? ==> i < r.next <= |t|
    decreases |t| - i, 1
  {
    var j := SkipWs(t, i);
    if At(t, j) == LBRACE then
      var k := SkipWs(t, j + 1);
      if At(t, k) == RBRACE then Ok(JObject([]), k + 1)
      else
        var m := Members(t, k);
        if m.Bad? then Bad(m.msg) else Ok(JObject(m.value), m.next)
    else if At(t, j) == LBRACKET then
      var k := SkipWs(t, j + 1);
      if At(t, k) == RBRACKET then Ok(JArray([]), k + 1)
      else
        var e := Elements(t, k);
        if e.Bad? then Bad(e.msg) else Ok(JArray(e.value), e.next)
    else Scalar(t, j)
  }

  /** One element or more, up to and with the bracket. */
  function Elements(t: seq<byte>, i: nat): (r: Res<seq<Tree>>)
    requires i <= |t|
    ensures r.Ok? ==> i < r.next <= |t|
    decreases |t| - i, 2
  {
    var v := Value(t, i);
    if v.Bad? then Bad(v.msg)
    else
      var j := SkipWs(t, v.next);
      if At(t, j) == RBRACKET then Ok([v.value], j + 1)
      else if At(t, j) == COMMA then Behind([v.value], Elements(t, j + 1))
      else Bad(Expected(COMMA))
  }

  /** A name, a colon and a value. */
  function Pair(t: seq<byte>, i: nat): (r: Res<Member>)
    requires i <= |t|
    ensures r.Ok? ==> i < r.next <= |t|
    decreases |t| - i, 2
  {
    var s := Str(t, i);
    if s.Bad? then Bad(s.msg)
    else
      var j := SkipWs(t, s.next);
      if At(t, j) != COLON then Bad(Expected(COLON))
      else
        var v := Value(t, j + 1);
        if v.Bad? then Bad(v.msg) else Ok(Member(s.value, v.value), v.next)
  }

  /** One member or more, up to and with the brace. */
  function Members(t: seq<byte>, i: nat): (r: Res<seq<Member>>)
    requires i <= |t|
    ensures r.Ok? ==> i < r.next <= |t|
    decreases |t| - i, 3
  {
    var m := Pair(t, i);
    if m.Bad? then Bad(m.msg)
    else
      var j := SkipWs(t, m.next);
      if At(t, j) == RBRACE then Ok([m.value], j + 1)
      else if At(t, j) == COMMA then Behind([m.value], Members(t, j + 1))
      else Bad(Expected(COMMA))
  }

  /** vjsn_parse_end */
  function Parse(t: seq<byte>): Res<Tree> {
    var v := Value(t, 0);
    if v.Bad? then v
    else
      var j := SkipWs(t, v.next);
      if j == |t| then Ok(v.value, j) else Bad(Garbage)
  }

  // ------------------------------------------------ the description unfolded

  lemma ValueSkips(t: seq<byte>, i: nat)
    requires i <= |t|
    ensures var j := SkipWs(t, i);
      && Value(t, i) == Value(t, j)
      && (At(t, j) != LBRACE && At(t, j) != LBRACKET ==> Value(t, i) == Scalar(t, j))
  {
    hide Scalar, Members, Elements;
    assert SkipWs(t, SkipWs(t, i)) == SkipWs(t, i);
  }

  lemma ValueOfArray(t: seq<byte>, i: nat)
    requires i <= |t| && At(t, i) == LBRACKET
    ensures var k := SkipWs(t, i + 1); var e := Elements(t, k);
      Value(t, i) == if At(t, k) == RBRACKET then Ok(JArray([]), k + 1)
        else if e.Bad? then Bad(e.msg) else Ok(JArray(e.value), e.next)
  {
    hide Elements, Members, Scalar;
    assert SkipWs(t, i) == i;
  }

  lemma ValueOfObject(t: seq<byte>, i: nat)
    requires i <= |t| && At(t, i) == LBRACE
    ensures var k := SkipWs(t, i + 1); var m := Members(t, k);
      Value(t, i) == if At(t, k) == RBRACE then Ok(JObject([]), k + 1)
        else if m.Bad? then Bad(m.msg) else Ok(JObject(m.value), m.next)
  {
    hide Elements, Members, Scalar;
    assert SkipWs(t, i) == i;
  }

  lemma ElementsStep(t: seq<byte>, i: nat, before: seq<Tree>)
    requires i <= |t|
    ensures var v := Value(t, i); var all := Behind(before, Elements(t, i));
      if v.Bad? then all == Bad(v.msg)
      else var j := SkipWs(t, v.next);
        if At(t, j) == RBRACKET then all == Ok(before + [v.value], j + 1)
        else if At(t, j) == COMMA then all == Behind(before + [v.value], Elements(t, j + 1))
        else all == Bad(Expected(COMMA))
  {
    hide Value;
    var v := Value(t, i);
    if v.Ok? && At(t, SkipWs(t, v.next)) == COMMA {
      BehindBoth(before, [v.value], Elements(t, SkipWs(t, v.next) + 1));
    }
  }

  lemma MembersStep(t: seq<byte>, i: nat, before: seq<Member>)
    requires i <= |t|
    ensures var m := Pair(t, i); var all := Behind(before, Members(t, i));
      if m.Bad? then all == Bad(m.msg)
      else var j := SkipWs(t, m.next);
        if At(t, j) == RBRACE then all == Ok(before + [m.value], j + 1)
        else if At(t, j) == COMMA then all == Behind(before + [m.value], Members(t, j + 1))
        else all == Bad(Expected(COMMA))
  {
    hide Pair;
    var m := Pair(t, i);
    if m.Ok? && At(t, SkipWs(t, m.next)) == COMMA {
      BehindBoth(before, [m.value], Members(t, SkipWs(t, m.next) + 1));
    }
  }

  lemma BehindNone<T>(r: Res<seq<T>>)
    ensures Behind([], r) == r
  {
    if r.Ok? { assert [] + r.value == r.value; }
  }

  lemma BehindBoth<T>(p: seq<T>, q: seq<T>, r: Res<seq<T>>)
    ensures Behind(p, Behind(q, r)) == Behind(p + q, r)
  {
    if r.Ok? { assert p + (q + r.value) == p + q + r.value; }
  }

  lemma CharsStep(t: seq<byte>, i: nat, s: seq<byte>)
    requires i <= |t| && At(t, i) != DQUOTE
    ensures var p := Piece(t, i);
      Behind(s, Chars(t, i)) == if p.Bad? then Bad(p.msg) else Behind(s + p.value, Chars(t, p.next))
  {
    hide Piece;
    var p := Piece(t, i);
    if p.Ok? { BehindBoth(s, p.value, Chars(t, p.next)); }
  }

  lemma CharsEnd(t: seq<byte>, i: nat, s: seq<byte>)
    requires i <= |t| && At(t, i) == DQUOTE
    ensures Behind(s, Chars(t, i)) == Ok(s, i + 1)
  {
    assert s + [] == s;
  }

  lemma NumberFails(t: seq<byte>, i: nat)
    requires i <= |t|
    ensures SomeDigits(t, i).Bad? ==> SomeDigits(t, i).msg == BadNumber
  {}
}
