/** Splitting a command line into arguments, with quotes and backslash escapes (lib/vav.c). */
module Vav {
  import opened Options
  import opened Words
  import opened Ascii

  // ------------------------------------------------ one escape

  /** The byte meant, and the length of the escape. */
  datatype Esc = Esc(c: byte, len: nat) | NoEsc

  function OctalDigits(s: seq<byte>, max: nat): (n: nat)
    ensures n <= max && n <= |s| && forall i :: 0 <= i < n ==> IsOctal(s[i])
    ensures n < max && n < |s| ==> !IsOctal(s[n])
    decreases max
  {
    if max == 0 || s == [] || !IsOctal(s[0]) then 0 else 1 + OctalDigits(s[1..], max - 1)
  }

  /** What the digits shifted into a char leave there. */
  function OctalVal(s: seq<byte>): byte
    requires forall i :: 0 <= i < |s| ==> IsOctal(s[i])
  {
    if s == [] then 0 else (8 * OctalVal(s[..|s| - 1]) + (s[|s| - 1] - ZERO)) % 256
  }

  function Escape(s: seq<byte>): (r: Esc)
    requires s != [] && s[0] == BACKSLASH
    ensures r.Esc? ==> 2 <= r.len <= |s|
  {
    if |s| < 2 then NoEsc
    else if s[1] == 0x6e then Esc(LF, 2)
    else if s[1] == 0x72 then Esc(CR, 2)
    else if s[1] == 0x74 then Esc(TAB, 2)
    else if s[1] == DQUOTE then Esc(DQUOTE, 2)
    else if s[1] == BACKSLASH then Esc(BACKSLASH, 2)
    else if IsOctal(s[1]) then
      var n := OctalDigits(s[1..], 3);
      Esc(OctalVal(s[1..1 + n]), 1 + n)
    else if s[1] == 0x78 && |s| >= 4 && IsHex(s[2]) && IsHex(s[3]) then
      Esc(16 * HexVal(s[2]) + HexVal(s[3]), 4)
    else NoEsc
  }

  /** vav_backslash_txt */
  method BackslashTxt(s: seq<byte>) returns (r: Esc)
    requires s != [] && s[0] == BACKSLASH
    ensures r == Escape(s)
  {
    if |s| < 2 {
      return NoEsc;
    }
    if s[1] == 0x6e {
      return Esc(LF, 2);
    } else if s[1] == 0x72 {
      return Esc(CR, 2);
    } else if s[1] == 0x74 {
      return Esc(TAB, 2);
    } else if s[1] == DQUOTE || s[1] == BACKSLASH {
      return Esc(s[1], 2);
    } else if IsOctal(s[1]) {
      var i, c: byte := 1, 0;
      assert s[1..1] == [];
      while i < 4 && i < |s| && IsOctal(s[i])
        invariant 1 <= i <= 4 && i <= |s| && (i == 1 ==> IsOctal(s[1]))
        invariant forall j :: 1 <= j < i ==> IsOctal(s[j])
        invariant c == OctalVal(s[1..i])
      {
        assert s[1..i + 1][..i - 1] == s[1..i];
        c := (8 * c + (s[i] - ZERO)) % 256;
        i := i + 1;
      }
      OctalRun(s[1..], i - 1);
      assert s[1..][..i - 1] == s[1..i];
      return Esc(c, i);
    } else if s[1] == 0x78 && |s| >= 4 {
      if IsHex(s[2]) && IsHex(s[3]) {
        return Esc(16 * HexVal(s[2]) + HexVal(s[3]), 4);
      }
    }
    return NoEsc;
  }

  lemma OctalRun(s: seq<byte>, n: nat)
    requires n <= 3 && n <= |s| && (forall i :: 0 <= i < n ==> IsOctal(s[i])) && (n == 3 || n == |s| || !IsOctal(s[n]))
    ensures OctalDigits(s, 3) == n
  {}

  /** An escape reads the same where the text is cut off behind it. */
  lemma EscapeCut(s: seq<byte>, n: nat)
    requires s != [] && s[0] == BACKSLASH && Escape(s).Esc? && Escape(s).len <= n <= |s|
    ensures Escape(s[..n]) == Escape(s)
  {
    hide OctalVal;
    if IsOctal(s[1]) {
      var k := OctalDigits(s[1..], 3);
      assert s[..n][1..] == s[1..n];
      OctalRun(s[1..n], k);
      assert s[..n][1..1 + k] == s[1..1 + k];
    }
  }

  // ------------------------------------------------ decoding a token

  function Cons(c: byte, r: Option<seq<byte>>): Option<seq<byte>> {
    if r.None? then None else Some([c] + r.value)
  }

  /** VAV_BackSlashDecode */
  function Decode(s: seq<byte>): Option<seq<byte>>
    decreases |s|
  {
    if s == [] then Some([])
    else if s[0] != BACKSLASH then Cons(s[0], Decode(s[1..]))
    else
      var esc := Escape(s);
      if esc.NoEsc? then None else Cons(esc.c, Decode(s[esc.len..]))
  }

  function Behind(p: seq<byte>, r: Option<seq<byte>>): Option<seq<byte>> {
    if r.None? then None else Some(p + r.value)
  }

  lemma BehindCons(p: seq<byte>, c: byte, r: Option<seq<byte>>)
    ensures Behind(p, Cons(c, r)) == Behind(p + [c], r)
  {
    if r.Some? { assert p + ([c] + r.value) == p + [c] + r.value; }
  }

  method BackSlashDecode(s: seq<byte>) returns (r: Option<seq<byte>>)
    ensures r == Decode(s)
  {
    hide Escape, Behind, Cons;
    var p: seq<byte>, q := [], 0;
    assert s[0..] == s && Behind([], Decode(s)) == Decode(s) by { BehindNone(Decode(s)); }
    while q < |s|
      invariant 0 <= q <= |s| && Decode(s) == Behind(p, Decode(s[q..]))
    {
      if s[q] != BACKSLASH {
        BehindCons(p, s[q], Decode(s[q + 1..]));
        assert s[q..][1..] == s[q + 1..];
        p, q := p + [s[q]], q + 1;
        continue;
      }
      var esc := BackslashTxt(s[q..]);
      if esc.NoEsc? {
        assert Decode(s[q..]) == None && Behind(p, None) == None by { BehindFails(p); }
        return None;
      }
      BehindCons(p, esc.c, Decode(s[q + esc.len..]));
      assert s[q..][esc.len..] == s[q + esc.len..];
      p, q := p + [esc.c], q + esc.len;
    }
    assert s[q..] == [] && Behind(p, Some([])) == Some(p) by { BehindAll(p); }
    return Some(p);
  }

  lemma BehindNone(r: Option<seq<byte>>)
    ensures Behind([], r) == r
  {
    if r.Some? { assert [] + r.value == r.value; }
  }

  lemma BehindFails(p: seq<byte>)
    ensures Behind(p, None) == None
  {}

  lemma BehindAll(p: seq<byte>)
    ensures Behind(p, Some([])) == Some(p)
  {
    assert p + [] == p;
  }

  // ------------------------------------------------ finding the end of a token

  datatype Flags = Flags(comment: bool, comma: bool, noesc: bool)

  /** `n` bytes belong to the token; `sep` tells whether something ends it or the text is over. */
  datatype Scanned = Stop(n: nat, sep: bool) | BadBackslash | BadQuote

  function Further(k: nat, r: Scanned): Scanned {
    if r.Stop? then Stop(k + r.n, r.sep) else r
  }

  /** The inner loop of VAV_ParseTxt. */
  function Scan(s: seq<byte>, quote: bool, f: Flags): (r: Scanned)
    ensures r.Stop? ==> r.n <= |s| && (r.sep <==> r.n < |s|)
    ensures r.Stop? && r.sep && quote && !f.noesc ==> s[r.n] == DQUOTE
    ensures r.Stop? && r.sep && !quote ==> IsSpace(s[r.n]) || (f.comma && s[r.n] == COMMA)
    decreases |s|
  {
    if s == [] then Stop(0, false)
    else if s[0] == BACKSLASH && !f.noesc then
      var esc := Escape(s);
      if esc.NoEsc? then BadBackslash else Further(esc.len, Scan(s[esc.len..], quote, f))
    else if !quote then
      if IsSpace(s[0]) || (f.comma && s[0] == COMMA) then Stop(0, true)
      else if !f.noesc && s[0] == DQUOTE then BadQuote
      else Further(1, Scan(s[1..], quote, f))
    else if s[0] == DQUOTE && !f.noesc then Stop(0, true)
    else Further(1, Scan(s[1..], quote, f))
  }

  /** What scanning has accepted, decoding accepts. */
  lemma {:induction false} ScanThenDecode(s: seq<byte>, quote: bool, f: Flags)
    requires !f.noesc && Scan(s, quote, f).Stop?
    ensures Decode(s[..Scan(s, quote, f).n]).Some?
    decreases |s|
  {
    hide Escape;
    var n := Scan(s, quote, f).n;
    if n > 0 {
      if s[0] == BACKSLASH {
        var esc := Escape(s);
        EscapeCut(s, n);
        ScanThenDecode(s[esc.len..], quote, f);
        assert s[..n][esc.len..] == s[esc.len..][..n - esc.len];
      } else {
        ScanThenDecode(s[1..], quote, f);
        assert s[..n][1..] == s[1..][..n - 1];
      }
    }
  }

  // ------------------------------------------------ the arguments

  /** What ended the token before: `gap` is the distance from a closing quote. */
  datatype Sep = NoSep | Blank | CommaSep | QuoteSep(gap: nat)

  datatype Message = InvalidBackslash | InvalidQuote | MissingQuote | MissingSeparator

  /** `trail`: the last argument is the empty one behind a comma that ends the text. */
  datatype Parsed = Args(args: seq<seq<byte>>, trail: bool) | Error(msg: Message)

  function First(a: seq<byte>, r: Parsed): Parsed {
    if r.Error? then r else Args([a] + r.args, r.trail)
  }

  function Later(sep: Sep): Sep {
    if sep.QuoteSep? then QuoteSep(sep.gap + 1) else sep
  }

  /** What the byte that ended a token counts as. */
  function SepAt(quote: bool, rest: seq<byte>): Sep {
    if rest == [] then NoSep
    else if quote then QuoteSep(1)
    else if IsSpace(rest[0]) then Blank
    else CommaSep
  }

  function Token(body: seq<byte>, quote: bool, f: Flags): (r: seq<byte>)
    requires Scan(body, quote, f).Stop?
  {
    var n := Scan(body, quote, f).n;
    if f.noesc then body[..n] else ScanThenDecode(body, quote, f); Decode(body[..n]).value
  }

  /** What is left behind a token and the byte that ends it. */
  function Rest(body: seq<byte>, n: nat): (r: seq<byte>)
    requires n <= |body|
    ensures |r| < |body| || r == []
  {
    if n == |body| then [] else body[n + 1..]
  }

  /** VAV_ParseTxt */
  function Parse(s: seq<byte>, sep: Sep, f: Flags): Parsed
    decreases |s|
  {
    if s == [] then Args(if sep.CommaSep? then [[]] else [], sep.CommaSep?)
    else if IsSpace(s[0]) then Parse(s[1..], Later(sep), f)
    else if f.comma && s[0] == COMMA && (sep.Blank? || sep.QuoteSep?) then Parse(s[1..], NoSep, f)
    else if sep.QuoteSep? && sep.gap < 2 && s[0] == DQUOTE then Error(MissingSeparator)
    else if f.comment && s[0] == HASH then Args([], false)
    else
      var quote := s[0] == DQUOTE && !f.noesc;
      var body := if quote then s[1..] else s;
      var end := Scan(body, quote, f);
      if end.BadBackslash? then Error(InvalidBackslash)
      else if end.BadQuote? then Error(InvalidQuote)
      else if quote && !end.sep then Error(MissingQuote)
      else First(Token(body, quote, f), Parse(Rest(body, end.n), SepAt(quote, body[end.n..]), f))
  }

  function After(args: seq<seq<byte>>, r: Parsed): Parsed {
    if r.Error? then r else Args(args + r.args, r.trail)
  }

  lemma AfterFirst(args: seq<seq<byte>>, a: seq<byte>, r: Parsed)
    ensures After(args, First(a, r)) == After(args + [a], r)
  {
    if r.Args? { assert args + ([a] + r.args) == args + [a] + r.args; }
  }

  /** A slot of the argument vector. */
  datatype Slot = Null | Arg(s: seq<byte>) | Text(msg: Message)

  /** The slots `1..n` hold the arguments. */
  ghost predicate Holds(slots: seq<Slot>, args: seq<seq<byte>>) {
    |slots| > |args| && forall i :: 0 <= i < |args| ==> slots[i + 1] == Arg(args[i])
  }

  /** Doubling the vector keeps what it holds. */
  method Grow(argv: array<Slot>) returns (r: array<Slot>)
    ensures fresh(r) && r.Length == 2 * argv.Length && r[..argv.Length] == argv[..]
  {
    r := new Slot[2 * argv.Length];
    forall i | 0 <= i < argv.Length {
      r[i] := argv[i];
    }
  }

  /** How many slots there are once `n` tokens are taken. */
  function Slots(n: nat): (r: nat)
    ensures r >= 16 && n + 2 < r
  {
    if n == 0 then 16
    else
      var had := Slots(n - 1);
      if n + 2 >= had then 2 * had else had
  }

  /** Room for one more argument and one slot behind it. */
  method Reserve(argv: array<Slot>, nargv: nat, ghost args: seq<seq<byte>>) returns (r: array<Slot>)
    requires nargv == |args| + 1 && nargv + 1 < argv.Length && argv.Length >= 16 && Holds(argv[..], args)
    ensures (r == argv || fresh(r)) && r.Length >= 16 && nargv + 2 < r.Length && Holds(r[..], args) && r[0] == argv[0]
    ensures r.Length == if nargv + 2 >= argv.Length then 2 * argv.Length else argv.Length
  {
    hide Holds;
    r := argv;
    if nargv + 2 >= r.Length {
      r := Grow(argv);
      HoldsMore(argv[..], r[..], args);
      assert r[0] == r[..argv.Length][0];
    }
  }

  /** The token `p..b`, decoded.  There is always something to return. */
  method Extract(t: seq<byte>, p: nat, b: nat, quote: bool, f: Flags) returns (arg: seq<byte>)
    requires p <= b <= |t| && Scan(t[p..], quote, f).Stop? && b == p + Scan(t[p..], quote, f).n
    ensures arg == Token(t[p..], quote, f)
  {
    hide Scan, Decode, Token;
    TokenIs(t[p..], quote, f);
    assert t[p..][..b - p] == t[p..b];
    if f.noesc {
      arg := t[p..b];
    } else {
      var r := BackSlashDecode(t[p..b]);
      arg := r.value;
    }
  }

  /** The index where the token at `b` ends. */
  method FindEnd(t: seq<byte>, b0: nat, quote: bool, f: Flags) returns (r: Scanned)
    requires b0 <= |t|
    ensures r == Scan(t[b0..], quote, f)
  {
    hide Escape, Further, Scan;
    var b := b0;
    FurtherNone(Scan(t[b0..], quote, f));
    while b < |t|
      invariant b0 <= b <= |t| && Scan(t[b0..], quote, f) == Further(b - b0, Scan(t[b..], quote, f))
    {
      ScanStep(t[b..], quote, f);
      if t[b] == BACKSLASH && !f.noesc {
        var esc := BackslashTxt(t[b..]);
        if esc.NoEsc? {
          FurtherSame(b - b0, BadBackslash);
          return BadBackslash;
        }
        assert t[b..][esc.len..] == t[b + esc.len..];
        FurtherOn(b - b0, esc.len, Scan(t[b + esc.len..], quote, f));
        b := b + esc.len;
        continue;
      }
      assert t[b..][1..] == t[b + 1..];
      if !quote {
        if IsSpace(t[b]) || (f.comma && t[b] == COMMA) {
          FurtherSame(b - b0, Stop(0, true));
          return Stop(b - b0, true);
        }
        if !f.noesc && t[b] == DQUOTE {
          FurtherSame(b - b0, BadQuote);
          return BadQuote;
        }
        FurtherOn(b - b0, 1, Scan(t[b + 1..], quote, f));
        b := b + 1;
        continue;
      }
      if t[b] == DQUOTE && !f.noesc {
        FurtherSame(b - b0, Stop(0, true));
        return Stop(b - b0, true);
      }
      FurtherOn(b - b0, 1, Scan(t[b + 1..], quote, f));
      b := b + 1;
    }
    ScanOver(t[b..], quote, f);
    FurtherSame(b - b0, Stop(0, false));
    return Stop(b - b0, false);
  }

  lemma ScanOver(s: seq<byte>, quote: bool, f: Flags)
    ensures s == [] ==> Scan(s, quote, f) == Stop(0, false)
  {}

  /** What the next byte means to the inner loop. */
  lemma ScanStep(s: seq<byte>, quote: bool, f: Flags)
    requires s != []
    ensures Scan(s, quote, f) == (
      if s[0] == BACKSLASH && !f.noesc then
        if Escape(s).NoEsc? then BadBackslash else Further(Escape(s).len, Scan(s[Escape(s).len..], quote, f))
      else if !quote then
        if IsSpace(s[0]) || (f.comma && s[0] == COMMA) then Stop(0, true)
        else if !f.noesc && s[0] == DQUOTE then BadQuote
        else Further(1, Scan(s[1..], quote, f))
      else if s[0] == DQUOTE && !f.noesc then Stop(0, true)
      else Further(1, Scan(s[1..], quote, f)))
  {
    hide Escape;
  }

  lemma FurtherNone(r: Scanned)
    ensures Further(0, r) == r
  {}

  lemma FurtherSame(k: nat, r: Scanned)
    ensures Further(k, r) == if r.Stop? then Stop(k + r.n, r.sep) else r
  {}

  lemma FurtherOn(j: nat, k: nat, r: Scanned)
    ensures Further(j, Further(k, r)) == Further(j + k, r)
  {}

  lemma AfterNone(r: Parsed)
    ensures After([], r) == r
  {
    if r.Args? { assert [] + r.args == r.args; }
  }

  /** What the next byte of a text means. */
  lemma ParseStep(s: seq<byte>, sep: Sep, f: Flags)
    requires s != []
    ensures IsSpace(s[0]) ==> Parse(s, sep, f) == Parse(s[1..], Later(sep), f)
    ensures !IsSpace(s[0]) ==>
      if f.comma && s[0] == COMMA && (sep.Blank? || sep.QuoteSep?) then Parse(s, sep, f) == Parse(s[1..], NoSep, f)
      else if sep.QuoteSep? && sep.gap < 2 && s[0] == DQUOTE then Parse(s, sep, f) == Error(MissingSeparator)
      else if f.comment && s[0] == HASH then Parse(s, sep, f) == Args([], false)
      else
        var quote := s[0] == DQUOTE && !f.noesc;
        Parse(s, sep, f) == ParseToken(if quote then s[1..] else s, quote, f)
  {
    hide Scan, Decode;
  }

  function ParseToken(body: seq<byte>, quote: bool, f: Flags): Parsed {
    var end := Scan(body, quote, f);
    if end.BadBackslash? then Error(InvalidBackslash)
    else if end.BadQuote? then Error(InvalidQuote)
    else if quote && !end.sep then Error(MissingQuote)
    else First(Token(body, quote, f), Parse(Rest(body, end.n), SepAt(quote, body[end.n..]), f))
  }

  lemma ParseEnd(args: seq<seq<byte>>, sep: Sep, f: Flags)
    ensures After(args, Parse([], sep, f)) == Args(if sep.CommaSep? then args + [[]] else args, sep.CommaSep?)
    ensures After(args, Args([], false)) == Args(args, false)
  {
    assert args + [] == args;
  }

  lemma AfterError(args: seq<seq<byte>>, m: Message)
    ensures After(args, Error(m)) == Error(m)
  {}

  lemma TokenIs(body: seq<byte>, quote: bool, f: Flags)
    requires Scan(body, quote, f).Stop?
    ensures var n := Scan(body, quote, f).n;
      if f.noesc then Token(body, quote, f) == body[..n] else Decode(body[..n]) == Some(Token(body, quote, f))
  {
    if !f.noesc { ScanThenDecode(body, quote, f); }
  }

  lemma HoldsNone(slots: seq<Slot>)
    requires |slots| > 0
    ensures Holds(slots, [])
  {}

  lemma HoldsMore(was: seq<Slot>, slots: seq<Slot>, args: seq<seq<byte>>)
    requires Holds(was, args) && |slots| >= |was| && slots[..|was|] == was
    ensures Holds(slots, args)
  {
    assert forall i :: 0 <= i < |was| ==> slots[i] == slots[..|was|][i];
  }

  lemma HoldsNext(slots: seq<Slot>, args: seq<seq<byte>>, a: seq<byte>)
    requires Holds(slots, args) && |args| + 1 < |slots|
    ensures Holds(slots[|args| + 1 := Arg(a)], args + [a])
  {}

  lemma HoldsStill(slots: seq<Slot>, after: seq<Slot>, args: seq<seq<byte>>)
    requires Holds(slots, args) && |args| + 1 < |slots| && after == slots[|args| + 1 := Null]
    ensures Holds(after, args)
  {}

  /** The token at `b` becomes the next argument, or the reason why not is returned. */
  method TakeToken(t: seq<byte>, b0: nat, f: Flags, argv: array<Slot>, nargv: nat, ghost args: seq<seq<byte>>)
      returns (err: Option<Message>, r: array<Slot>, b: nat, sep: Sep, ghost arg: seq<byte>)
    requires b0 < |t| && Holds(argv[..], args) && nargv == |args| + 1 && argv.Length == Slots(|args|)
    modifies argv
    ensures r == argv || fresh(r)
    ensures var quote := t[b0] == DQUOTE && !f.noesc;
      var whole := ParseToken(if quote then t[b0..][1..] else t[b0..], quote, f);
      if err.Some? then whole == Error(err.value)
      else b0 < b <= |t| && whole == First(arg, Parse(t[b..], sep, f))
    ensures r.Length > 0
    ensures err.None? ==> Holds(r[..], args + [arg]) && r.Length == Slots(nargv) && r[0] == old(argv[0])
  {
    hide Scan, Decode, Parse, First, Holds, Token;
    err, r, b, sep, arg := None, argv, b0, NoSep, [];
    var quote := t[b0] == DQUOTE && !f.noesc;
    var p := if quote then b0 + 1 else b0;
    assert quote ==> t[b0..][1..] == t[p..];
    var end := FindEnd(t, p, quote, f);
    if end.BadBackslash? {
      err := Some(InvalidBackslash);
      return;
    }
    if end.BadQuote? {
      err := Some(InvalidQuote);
      return;
    }
    if quote && !end.sep {
      err := Some(MissingQuote);
      return;
    }
    r := Reserve(argv, nargv, args);
    b := p + end.n;
    var a := Extract(t, p, b, quote, f);
    arg := a;
    HoldsNext(r[..], args, a);
    r[nargv] := Arg(a);
    sep := SepAt(quote, t[b..]);
    assert t[p..][end.n..] == t[b..];
    if b < |t| {
      assert t[p..][end.n + 1..] == t[b + 1..];
      b := b + 1;
    }
  }

  /** VAV_ParseTxt.  The arguments are in slots 1 up, a NULL behind them, and one slot to spare unless a comma
      at the end of the text has used it up; or slot 0 holds the message.  No slot is written beyond
      the vector, and decoding never fails. */
  method ParseTxt(t: seq<byte>, f: Flags) returns (argv: array<Slot>, argc: nat)
    ensures fresh(argv) && argv.Length > 0
    ensures match Parse(t, NoSep, f)
      case Error(msg) => argv[0] == Text(msg)
      case Args(args, trail) =>
        && argc == |args| + 1 < argv.Length && argv[0] == Null && Holds(argv[..], args) && argv[argc] == Null
        && |args| >= (if trail then 1 else 0) && argv.Length == Slots(|args| - if trail then 1 else 0)
        && (argc + 1 < argv.Length <==> !(trail && Slots(|args| - 1) == |args| + 2))
  {
    hide Scan, Decode, Parse, After, First, Holds, Token, ParseToken;
    var nargv := 1;
    argc := 0;
    argv := new Slot[16](_ => Null);
    var b := 0;
    var sep: Sep := NoSep;
    ghost var args: seq<seq<byte>> := [];
    ghost var all := Parse(t, NoSep, f);
    assert t[0..] == t;
    AfterNone(all);
    HoldsNone(argv[..]);
    while b < |t|
      invariant 0 <= b <= |t| && fresh(argv) && argv.Length == Slots(|args|) && nargv == |args| + 1
      invariant Holds(argv[..], args) && argv[0] == Null
      invariant all == After(args, Parse(t[b..], sep, f))
    {
      ParseStep(t[b..], sep, f);
      assert t[b..][1..] == t[b + 1..];
      if IsSpace(t[b]) {
        b, sep := b + 1, Later(sep);
        continue;
      }
      if f.comma && t[b] == COMMA && (sep.Blank? || sep.QuoteSep?) {
        b, sep := b + 1, NoSep;
        continue;
      }
      if sep.QuoteSep? && sep.gap < 2 && t[b] == DQUOTE {
        AfterError(args, MissingSeparator);
        argv[0] := Text(MissingSeparator);
        return;
      }
      sep := NoSep;
      if f.comment && t[b] == HASH {
        b := |t|;
        ParseEnd(args, NoSep, f);
        assert t[b..] == [];
        break;
      }
      var err;
      ghost var arg;
      err, argv, b, sep, arg := TakeToken(t, b, f, argv, nargv, args);
      if err.Some? {
        AfterError(args, err.value);
        argv[0] := Text(err.value);
        return;
      }
      AfterFirst(args, arg, Parse(t[b..], sep, f));
      args := args + [arg];
      nargv := nargv + 1;
    }
    assert t[b..] == [];
    ParseEnd(args, sep, f);
    assert all == Args(if sep.CommaSep? then args + [[]] else args, sep.CommaSep?);
    if sep.CommaSep? {
      HoldsNext(argv[..], args, []);
      argv[nargv] := Arg([]);
      args := args + [[]];
      nargv := nargv + 1;
    }
    ghost var before := argv[..];
    argv[nargv] := Null;
    HoldsStill(before, argv[..], args);
    argc := nargv;
  }

  // ------------------------------------------------ where the spare slot is lost

  /** `n` times "a,". */
  function Commas(n: nat): seq<byte> {
    if n == 0 then [] else [97, COMMA] + Commas(n - 1)
  }

  function Letters(n: nat): (r: seq<seq<byte>>)
    ensures |r| == n
  {
    if n == 0 then [] else [[97]] + Letters(n - 1)
  }

  lemma LetterThenComma(rest: seq<byte>)
    ensures var s, f := [97, COMMA] + rest, Flags(false, true, false);
      && Scan(s, false, f) == Stop(1, true) && Token(s, false, f) == [97]
      && SepAt(false, s[1..]) == CommaSep && s[2..] == rest
  {
    hide Escape;
    var s, f := [97, COMMA] + rest, Flags(false, true, false);
    assert s[1..] == [COMMA] + rest;
    ScanStep(s, false, f);
    ScanStep(s[1..], false, f);
    assert s[..1] == [97] && [97][1..] == [];
    assert Decode([97][1..]) == Some([]);
  }

  lemma ParsePast(rest: seq<byte>, sep: Sep)
    requires sep.CommaSep? || sep.NoSep?
    ensures var f := Flags(false, true, false);
      Parse([97, COMMA] + rest, sep, f) == First([97], Parse(rest, CommaSep, f))
  {
    hide Scan, Decode, Parse, Token, First;
    var s, f := [97, COMMA] + rest, Flags(false, true, false);
    LetterThenComma(rest);
    ParseStep(s, sep, f);
    assert Rest(s, 1) == rest;
  }

  lemma CommasNone()
    ensures Parse(Commas(0), CommaSep, Flags(false, true, false)) == Args(Letters(0) + [[]], true)
  {
    assert Letters(0) + [[]] == [[]];
  }

  lemma FirstLetter(n: nat)
    requires n > 0
    ensures First([97], Args(Letters(n - 1) + [[]], true)) == Args(Letters(n) + [[]], true)
  {
    assert [[97]] + (Letters(n - 1) + [[]]) == Letters(n) + [[]];
  }

  lemma {:induction false} CommasParse(n: nat, sep: Sep)
    requires sep.CommaSep? || (sep.NoSep? && n > 0)
    ensures Parse(Commas(n), sep, Flags(false, true, false)) == Args(Letters(n) + [[]], true)
  {
    hide Parse, Letters, First;
    if n == 0 {
      CommasNone();
    } else {
      CommasParse(n - 1, CommaSep);
      ParsePast(Commas(n - 1), sep);
      FirstLetter(n);
    }
  }

  lemma {:induction false} SlotsAtFirst(n: nat)
    requires n <= 13
    ensures Slots(n) == 16
  {
    if n > 0 { SlotsAtFirst(n - 1); }
  }

  /** Thirteen arguments and a comma at the end: the sixteen slots are all used. */
  method SpareLost() returns (argv: array<Slot>, argc: nat)
    ensures argc == 15 && argv.Length == 16
  {
    argv, argc := ParseTxt(Commas(13), Flags(false, true, false));
    CommasParse(13, NoSep);
    SlotsAtFirst(13);
  }
}
