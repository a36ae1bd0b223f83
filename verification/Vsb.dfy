/** String buffers that grow as needed, and the quoting of byte strings (lib/vsb.c). */
module Vsb {
  import opened Words
  import opened Ascii

  // ------------------------------------------------ quoting

  datatype Mode = Plain | EscHex | Json

  /** How one byte is written. */
  function QuoteByte(mode: Mode, c: byte): (q: seq<byte>)
    ensures |q| >= 1
  {
    if c == BACKSLASH || c == DQUOTE then [BACKSLASH, c]
    else if c == LF then [BACKSLASH, 0x6e]
    else if c == CR then [BACKSLASH, 0x72]
    else if c == TAB then [BACKSLASH, 0x74]
    else if 0x20 <= c <= 0x7e then [c]
    else if mode.Json? && c > 0x7e then [c]
    else if mode.Json? then [BACKSLASH, 0x75, ZERO, ZERO, HexDigit(c / 16), HexDigit(c % 16)]
    else if mode.EscHex? then [BACKSLASH, 0x78, HexDigit(c / 16), HexDigit(c % 16)]
    else [BACKSLASH, ZERO + c / 64, ZERO + c / 8 % 8, ZERO + c % 8]
  }

  function Quote(mode: Mode, s: seq<byte>): seq<byte> {
    if s == [] then [] else QuoteByte(mode, s[0]) + Quote(mode, s[1..])
  }

  lemma {:induction false} QuoteSnoc(mode: Mode, s: seq<byte>, c: byte)
    ensures Quote(mode, s + [c]) == Quote(mode, s) + QuoteByte(mode, c)
  {
    hide QuoteByte;
    if s == [] {
      assert [c][1..] == [];
    } else {
      QuoteSnoc(mode, s[1..], c);
      assert (s + [c])[1..] == s[1..] + [c];
    }
  }

  /** The bytes that make VSB_quote look at each byte in turn. */
  predicate NeedsQuote(mode: Mode, c: byte) {
    c < 0x20 || c == DQUOTE || c == BACKSLASH || (c > 0x7e && !mode.Json?)
  }

  /** Without any of those the text is its own quotation. */
  lemma {:induction false} QuotedAsIs(mode: Mode, s: seq<byte>)
    requires forall i :: 0 <= i < |s| ==> !NeedsQuote(mode, s[i])
    ensures Quote(mode, s) == s
  {
    if s != [] {
      QuotedAsIs(mode, s[1..]);
      assert s == [s[0]] + s[1..];
    }
  }

  /** A quotation has no control character, and only JSON mode keeps bytes above 0x7e. */
  lemma {:induction false} QuotePrintable(mode: Mode, s: seq<byte>)
    ensures forall i :: 0 <= i < |Quote(mode, s)| ==>
      Quote(mode, s)[i] >= 0x20 && (Quote(mode, s)[i] <= 0x7e || mode.Json?)
  {
    if s != [] {
      QuotePrintable(mode, s[1..]);
    }
  }

  // ------------------------------------------------ growing

  const MAX_EXTEND: nat := 4096

  /** VSB_extendsize */
  method ExtendSize(size: nat) returns (n: nat)
    ensures n >= size && n >= 16
    ensures if size < MAX_EXTEND then (exists k :: n == Pow2(k)) && (n == 16 || n < 2 * size)
      else n % MAX_EXTEND == 0 && n < size + MAX_EXTEND
  {
    if size < MAX_EXTEND {
      n := 16;
      ghost var k := 4;
      PowerOfFour();
      while n < size
        invariant n >= 16 && n == Pow2(k) && (n == 16 || n < 2 * size)
        decreases size - n
      {
        n := n * 2;
        k := k + 1;
      }
    } else {
      n := (size + (MAX_EXTEND - 1)) / MAX_EXTEND * MAX_EXTEND;
    }
  }

  lemma PowerOfFour()
    ensures Pow2(4) == 16
  {}

  /** An automatically extended buffer; there is always room for the final NUL. */
  class Buffer {
    var buf: array<byte>
    var len: nat

    ghost predicate Valid()
      reads this
    {
      len < buf.Length
    }

    ghost function Contents(): seq<byte>
      reads this, buf
      requires Valid()
    {
      buf[..len]
    }

    /** VSB_new_auto */
    constructor ()
      ensures Valid() && fresh(buf) && Contents() == []
    {
      var n := ExtendSize(0);
      buf := new byte[n];
      len := 0;
    }

    function FreeSpace(): nat
      requires Valid()
      reads this
    {
      buf.Length - (len + 1)
    }

    /** VSB_extend: what is there stays. */
    method Extend(addLen: nat)
      requires Valid()
      modifies `buf
      ensures Valid() && fresh(buf) && buf.Length >= old(buf.Length) + addLen
      ensures Contents() == old(Contents())
    {
      var n := ExtendSize(buf.Length + addLen);
      var bigger := new byte[n];
      forall i | 0 <= i < buf.Length {
        bigger[i] := buf[i];
      }
      buf := bigger;
    }

    /** VSB_put_byte */
    method PutByte(c: byte)
      requires Valid()
      modifies this, buf
      ensures Valid() && (buf == old(buf) || fresh(buf)) && Contents() == old(Contents()) + [c]
    {
      if FreeSpace() <= 0 {
        Extend(1);
      }
      buf[len] := c;
      len := len + 1;
    }

    /** VSB_bcat */
    method Bcat(s: seq<byte>)
      requires Valid()
      modifies this, buf
      ensures Valid() && (buf == old(buf) || fresh(buf)) && Contents() == old(Contents()) + s
    {
      if |s| == 0 {
        return;
      }
      if |s| > FreeSpace() {
        Extend(|s| - FreeSpace());
      }
      forall i | 0 <= i < |s| {
        buf[len + i] := s[i];
      }
      len := len + |s|;
    }

    /** The loop body of VSB_quote_pfx for the three modes: neither VSB_QUOTE_CSTR,
        VSB_QUOTE_NONL, VSB_QUOTE_UNSAFE nor a prefix. */
    method PutQuoted(mode: Mode, c: byte)
      requires Valid()
      modifies this, buf
      ensures Valid() && (buf == old(buf) || fresh(buf)) && Contents() == old(Contents()) + QuoteByte(mode, c)
    {
      if c == BACKSLASH || c == DQUOTE {
        PutByte(BACKSLASH);
        PutByte(c);
      } else if c == LF {
        Bcat([BACKSLASH, 0x6e]);
      } else if c == CR {
        Bcat([BACKSLASH, 0x72]);
      } else if c == TAB {
        Bcat([BACKSLASH, 0x74]);
      } else if 0x20 <= c <= 0x7e {
        PutByte(c);
      } else if c > 0x7e && mode.Json? {
        PutByte(c);
      } else if mode.Json? {
        Bcat([BACKSLASH, 0x75, ZERO, ZERO, HexDigit(c / 16), HexDigit(c % 16)]);
      } else if mode.EscHex? {
        Bcat([BACKSLASH, 0x78, HexDigit(c / 16), HexDigit(c % 16)]);
      } else {
        Bcat([BACKSLASH, ZERO + c / 64, ZERO + c / 8 % 8, ZERO + c % 8]);
      }
    }

    /** VSB_quote: the quotation is appended, whether or not the text had to be gone through. */
    method PutQuote(mode: Mode, s: seq<byte>)
      requires Valid()
      modifies this, buf
      ensures Valid() && (buf == old(buf) || fresh(buf)) && Contents() == old(Contents()) + Quote(mode, s)
    {
      hide QuoteByte, Quote;
      QuoteNone(mode);
      if |s| == 0 {
        return;
      }
      var quote, i := false, 0;
      while i < |s|
        invariant 0 <= i <= |s| && !quote
        invariant forall j :: 0 <= j < i ==> !NeedsQuote(mode, s[j])
      {
        if NeedsQuote(mode, s[i]) {
          quote := true;
          break;
        }
        i := i + 1;
      }
      if !quote {
        QuotedAsIs(mode, s);
        Bcat(s);
        return;
      }
      i := 0;
      while i < |s|
        invariant 0 <= i <= |s| && Valid() && (buf == old(buf) || fresh(buf))
        invariant Contents() == old(Contents()) + Quote(mode, s[..i])
      {
        PutQuoted(mode, s[i]);
        QuoteSnoc(mode, s[..i], s[i]);
        assert s[..i + 1] == s[..i] + [s[i]];
        i := i + 1;
      }
      assert s[..i] == s;
    }
  }

  lemma QuoteNone(mode: Mode)
    ensures Quote(mode, []) == []
  {}
}
