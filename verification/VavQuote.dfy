/** What VSB_quote writes between double quotes, VAV_ParseTxt reads back. */
module VavQuote {
  import opened Options
  import opened Words
  import opened Ascii
  import opened Vsb
  import opened Vav

  /** A quoted byte is the byte itself, with no special meaning, or an escape for it that does
      not depend on what follows. */
  lemma QuotedByte(mode: Mode, c: byte, rest: seq<byte>)
    requires !mode.Json?
    ensures var q := QuoteByte(mode, c);
      if q[0] == BACKSLASH then Escape(q + rest) == Esc(c, |q|)
      else q == [c] && c != DQUOTE
  {
    var q := QuoteByte(mode, c);
    if |q| == 4 && mode.Plain? {
      OctalOf(c, rest);
    }
  }

  lemma OctalOf(c: byte, rest: seq<byte>)
    ensures Escape([BACKSLASH, ZERO + c / 64, ZERO + c / 8 % 8, ZERO + c % 8] + rest) == Esc(c, 4)
  {
    hide OctalVal;
    var d := [ZERO + c / 64, ZERO + c / 8 % 8, ZERO + c % 8];
    var s := [BACKSLASH] + d + rest;
    assert s == [BACKSLASH, ZERO + c / 64, ZERO + c / 8 % 8, ZERO + c % 8] + rest;
    assert s[1..] == d + rest;
    OctalRun(s[1..], 3);
    assert s[1..4] == d;
    OctalThree(c / 64, c / 8 % 8, c % 8);
  }

  lemma OctalThree(x: nat, y: nat, z: nat)
    requires x < 8 && y < 8 && z < 8
    ensures OctalVal([ZERO + x, ZERO + y, ZERO + z]) == (64 * x + 8 * y + z) % 256
  {
    assert [ZERO + x, ZERO + y, ZERO + z][..2] == [ZERO + x, ZERO + y];
    assert [ZERO + x, ZERO + y][..1] == [ZERO + x];
    assert [ZERO + x][..0] == [];
    assert OctalVal([ZERO + x]) == x;
    assert OctalVal([ZERO + x, ZERO + y]) == (8 * x + y) % 256;
  }

  lemma {:induction false} ScanQuoted(mode: Mode, s: seq<byte>, rest: seq<byte>, f: Flags)
    requires !mode.Json? && !f.noesc
    ensures Scan(Quote(mode, s) + ([DQUOTE] + rest), true, f) == Stop(|Quote(mode, s)|, true)
  {
    hide QuoteByte, Escape;
    if s == [] {
      assert Quote(mode, s) + ([DQUOTE] + rest) == [DQUOTE] + rest;
    } else {
      var q, more := QuoteByte(mode, s[0]), Quote(mode, s[1..]) + ([DQUOTE] + rest);
      ScanQuoted(mode, s[1..], rest, f);
      assert Quote(mode, s) + ([DQUOTE] + rest) == q + more;
      QuotedByte(mode, s[0], more);
      assert (q + more)[|q|..] == more;
    }
  }

  lemma {:induction false} DecodeQuoted(mode: Mode, s: seq<byte>)
    requires !mode.Json?
    ensures Decode(Quote(mode, s)) == Some(s)
  {
    hide QuoteByte, Escape;
    if s != [] {
      var q, more := QuoteByte(mode, s[0]), Quote(mode, s[1..]);
      DecodeQuoted(mode, s[1..]);
      QuotedByte(mode, s[0], more);
      assert (q + more)[|q|..] == more;
      assert s == [s[0]] + s[1..];
    }
  }

  // ------------------------------------------------ a whole line

  predicate AllBlank(s: seq<byte>) {
    forall i :: 0 <= i < |s| ==> IsSpace(s[i])
  }

  /** The quoted arguments, with `blanks` before, between and behind them. */
  function Joined(mode: Mode, blanks: seq<seq<byte>>, args: seq<seq<byte>>): seq<byte>
    requires |blanks| == |args| + 1
    decreases |args|
  {
    if args == [] then blanks[0]
    else blanks[0] + ([DQUOTE] + (Quote(mode, args[0]) + ([DQUOTE] + Joined(mode, blanks[1..], args[1..]))))
  }

  /** Between any two there is something. */
  ghost predicate Spaced(blanks: seq<seq<byte>>, args: seq<seq<byte>>) {
    forall i :: 0 < i < |args| && i < |blanks| ==> blanks[i] != []
  }

  function Wider(sep: Sep, n: nat): Sep {
    if sep.QuoteSep? then QuoteSep(sep.gap + n) else sep
  }

  lemma {:induction false} SkipBlanks(blanks: seq<byte>, rest: seq<byte>, sep: Sep, f: Flags)
    requires AllBlank(blanks)
    ensures Parse(blanks + rest, sep, f) == Parse(rest, Wider(sep, |blanks|), f)
    decreases |blanks|
  {
    hide Parse;
    if blanks == [] {
      assert blanks + rest == rest;
    } else {
      assert (blanks + rest)[1..] == blanks[1..] + rest;
      ParseStep(blanks + rest, sep, f);
      SkipBlanks(blanks[1..], rest, Later(sep), f);
    }
  }

  /** A quoted argument that may start here. */
  lemma ParseQuoted(mode: Mode, a: seq<byte>, rest: seq<byte>, sep: Sep, f: Flags)
    requires !mode.Json? && !f.noesc && !(sep.QuoteSep? && sep.gap < 2)
    ensures Parse([DQUOTE] + (Quote(mode, a) + ([DQUOTE] + rest)), sep, f) == First(a, Parse(rest, QuoteSep(1), f))
  {
    hide Parse, Scan, Decode, Quote, Token, First;
    var body := Quote(mode, a) + ([DQUOTE] + rest);
    var s := [DQUOTE] + body;
    ParseStep(s, sep, f);
    assert s[1..] == body;
    ScanQuoted(mode, a, rest, f);
    var n := |Quote(mode, a)|;
    TokenIs(body, true, f);
    assert body[..n] == Quote(mode, a);
    DecodeQuoted(mode, a);
    assert body[n..] == [DQUOTE] + rest && Rest(body, n) == rest;
  }

  lemma ParseTooClose(body: seq<byte>, f: Flags)
    ensures Parse([DQUOTE] + body, QuoteSep(1), f) == Error(MissingSeparator)
  {
    hide Scan, Decode;
  }

  /** Every list of byte strings, each quoted and put between double quotes, comes back as it was
      if and only if there is white space between any two. */
  lemma {:induction false} LineRoundTrip(mode: Mode, blanks: seq<seq<byte>>, args: seq<seq<byte>>, f: Flags)
    requires !mode.Json? && !f.noesc && |blanks| == |args| + 1
    requires forall i :: 0 <= i < |blanks| ==> AllBlank(blanks[i])
    ensures Parse(Joined(mode, blanks, args), NoSep, f) == if Spaced(blanks, args) then Args(args, false)
      else Error(MissingSeparator)
  {
    if args == [] {
      SkipBlanks(blanks[0], [], NoSep, f);
      assert blanks[0] + [] == blanks[0];
    } else {
      FromArg(mode, blanks, args, NoSep, f);
    }
  }

  /** The same behind an argument. */
  lemma {:induction false} FromArg(mode: Mode, blanks: seq<seq<byte>>, args: seq<seq<byte>>, sep: Sep, f: Flags)
    requires !mode.Json? && !f.noesc && |blanks| == |args| + 1 && (sep.NoSep? || sep == QuoteSep(1))
    requires forall i :: 0 <= i < |blanks| ==> AllBlank(blanks[i])
    ensures Parse(Joined(mode, blanks, args), sep, f) ==
      if Spaced(blanks, args) && (sep.NoSep? || args == [] || blanks[0] != []) then Args(args, false)
        else Error(MissingSeparator)
    decreases |args|
  {
    hide Parse, Quote, Spaced, AllBlank;
    var sep' := Wider(sep, |blanks[0]|);
    if args == [] {
      SkipBlanks(blanks[0], [], sep, f);
      assert blanks[0] + [] == blanks[0];
      ParseEnd([], sep', f);
      assert Parse([], sep', f) == Args([], false) by { AfterNone(Parse([], sep', f)); }
      SpacedNone(blanks);
    } else {
      var rest := Joined(mode, blanks[1..], args[1..]);
      var body := Quote(mode, args[0]) + ([DQUOTE] + rest);
      SkipBlanks(blanks[0], [DQUOTE] + body, sep, f);
      SpacedNext(blanks, args);
      FromArg(mode, blanks[1..], args[1..], QuoteSep(1), f);
      if sep.QuoteSep? && blanks[0] == [] {
        ParseTooClose(body, f);
      } else {
        ParseQuoted(mode, args[0], rest, sep', f);
        assert args == [args[0]] + args[1..];
      }
    }
  }

  lemma SpacedNone(blanks: seq<seq<byte>>)
    ensures Spaced(blanks, [])
  {}

  lemma SpacedNext(blanks: seq<seq<byte>>, args: seq<seq<byte>>)
    requires args != [] && |blanks| == |args| + 1
    ensures Spaced(blanks, args) <==> Spaced(blanks[1..], args[1..]) && (|args| == 1 || blanks[1] != [])
  {
    var b, a := blanks[1..], args[1..];
    if Spaced(b, a) && (|args| == 1 || blanks[1] != []) {
      forall i | 0 < i < |args| ensures blanks[i] != [] {
        assert i > 1 ==> blanks[i] == b[i - 1];
      }
    }
    assert forall i :: 0 < i < |a| ==> b[i] == blanks[i + 1];
  }
}
