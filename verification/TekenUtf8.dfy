/** How the terminal puts characters together from bytes (teken_input_byte of src/teken.c). */
module TekenUtf8 {
  import opened Options
  import opened Words
  import opened JsonText

  /** The bytes still to come and the bits so far. */
  datatype Partial = Partial(left: nat, bits: nat)

  /** What a byte does, and the character it completes. */
  function Next(s: Partial, c: byte, eightBit: bool): (Partial, Option<nat>) {
    if c < 0x80 || eightBit then (Partial(0, s.bits), Some(c))
    else if c < 0xc0 then
      if s.left == 0 then (s, None)
      else
        var t := Partial(s.left - 1, 64 * s.bits + (c - 0x80));
        (t, if t.left == 0 then Some(t.bits) else None)
    else if c < 0xe0 then (Partial(1, c - 0xc0), None)
    else if c < 0xf0 then (Partial(2, c - 0xe0), None)
    else if c < 0xf8 then (Partial(3, c - 0xf0), None)
    else (s, None)
  }

  /** The characters a stream of bytes is read as. */
  function Characters(s: Partial, bytes: seq<byte>, eightBit: bool): (r: (Partial, seq<nat>))
    decreases |bytes|
  {
    if bytes == [] then (s, [])
    else
      var (t, c) := Next(s, bytes[0], eightBit);
      var (end, more) := Characters(t, bytes[1..], eightBit);
      (end, (if c.Some? then [c.value] else []) + more)
  }

  function Encoded(text: seq<nat>): seq<byte>
    requires forall i :: 0 <= i < |text| ==> text[i] < 0x11_0000
  {
    if text == [] then [] else Utf8(text[0]) + Encoded(text[1..])
  }

  /** Bytes one at a time. */
  lemma Step(s: Partial, b: byte, rest: seq<byte>)
    ensures var (t, c) := Next(s, b, false); var (end, more) := Characters(t, rest, false);
      Characters(s, [b] + rest, false) == (end, (if c.Some? then [c.value] else []) + more)
  {
    assert ([b] + rest)[1..] == rest;
  }

  /** The bytes of a character of two, three or four bytes, after whatever came before. */
  lemma OneCharacter(s: Partial, u: nat, rest: seq<byte>)
    requires u < 0x11_0000
    ensures exists t: Partial ::
      && t.left == 0
      && Characters(s, Utf8(u) + rest, false) == (Characters(t, rest, false).0, [u] + Characters(t, rest, false).1)
  {
    hide Characters;
    var w := Utf8(u);
    if u < 0x80 {
      assert w + rest == [w[0]] + rest;
      Step(s, w[0], rest);
      assert Next(s, w[0], false).0.left == 0;
    } else if u < 0x800 {
      Pieces2(u);
      var p := Partial(1, u / 64);
      assert w + rest == [w[0]] + ([w[1]] + rest);
      Step(s, w[0], [w[1]] + rest);
      Step(p, w[1], rest);
      assert Next(p, w[1], false) == (Partial(0, u), Some(u));
      Empty(Characters(Partial(0, u), rest, false).1, u);
    } else if u < 0x1_0000 {
      Pieces3(u);
      var p, q := Partial(2, u / 4096), Partial(1, u / 64);
      assert w + rest == [w[0]] + ([w[1]] + ([w[2]] + rest));
      Step(s, w[0], [w[1]] + ([w[2]] + rest));
      Step(p, w[1], [w[2]] + rest);
      Step(q, w[2], rest);
      assert Next(p, w[1], false) == (q, None) && Next(q, w[2], false) == (Partial(0, u), Some(u));
      Empty(Characters(Partial(0, u), rest, false).1, u);
    } else {
      Pieces4(u);
      var p, q, r := Partial(3, u / 262144), Partial(2, u / 4096), Partial(1, u / 64);
      assert w + rest == [w[0]] + ([w[1]] + ([w[2]] + ([w[3]] + rest)));
      Step(s, w[0], [w[1]] + ([w[2]] + ([w[3]] + rest)));
      Step(p, w[1], [w[2]] + ([w[3]] + rest));
      Step(q, w[2], [w[3]] + rest);
      Step(r, w[3], rest);
      assert Next(p, w[1], false) == (q, None) && Next(q, w[2], false) == (r, None);
      assert Next(r, w[3], false) == (Partial(0, u), Some(u));
      Empty(Characters(Partial(0, u), rest, false).1, u);
    }
  }

  lemma Empty(s: seq<nat>, u: nat)
    ensures [] + s == s && [] + ([u] + s) == [u] + s
  {}

  lemma Pieces2(u: nat)
    ensures 64 * (u / 64) + u % 64 == u
  {}

  lemma Pieces3(u: nat)
    ensures 64 * (u / 4096) + u / 64 % 64 == u / 64 && 64 * (u / 64) + u % 64 == u
  {
    assert u / 4096 == u / 64 / 64;
  }

  lemma Pieces4(u: nat)
    ensures 64 * (u / 262144) + u / 4096 % 64 == u / 4096
    ensures 64 * (u / 4096) + u / 64 % 64 == u / 64 && 64 * (u / 64) + u % 64 == u
  {
    assert u / 4096 == u / 64 / 64;
    assert u / 262144 == u / 4096 / 64;
  }

  /** Text in UTF-8 arrives as it was, whatever unfinished character came before it. */
  lemma {:induction false} TextArrives(s: Partial, text: seq<nat>)
    requires forall i :: 0 <= i < |text| ==> text[i] < 0x11_0000
    ensures Characters(s, Encoded(text), false).1 == text
    decreases |text|
  {
    hide Characters, Utf8;
    if text == [] {
      NoBytes(s);
    } else {
      OneCharacter(s, text[0], Encoded(text[1..]));
      var t: Partial :| t.left == 0 && Characters(s, Utf8(text[0]) + Encoded(text[1..]), false)
        == (Characters(t, Encoded(text[1..]), false).0, [text[0]] + Characters(t, Encoded(text[1..]), false).1);
      TextArrives(t, text[1..]);
      assert text == [text[0]] + text[1..];
    }
  }

  lemma NoBytes(s: Partial)
    ensures Characters(s, [], false) == (s, [])
  {}

  class Reader {
    var left: nat                 // t_utf8_left
    var partial: nat              // t_utf8_partial
    var eightBit: bool            // TS_8BIT

    constructor ()
      ensures left == 0 && !eightBit
    {
      left, partial, eightBit := 0, 0, false;
    }

    /** teken_input_byte; the character, if there is one, goes to teken_input_char. */
    method Byte(c: byte) returns (done: Option<nat>)
      modifies `left, `partial
      ensures (Partial(left, partial), done) == Next(Partial(old(left), old(partial)), c, eightBit)
    {
      if c < 0x80 || eightBit {
        left := 0;
        return Some(c);
      } else if 0xc0 <= c < 0xe0 {
        left, partial := 1, c % 0x20;
      } else if 0xe0 <= c < 0xf0 {
        left, partial := 2, c % 0x10;
      } else if 0xf0 <= c < 0xf8 {
        left, partial := 3, c % 0x08;
      } else if 0x80 <= c < 0xc0 {
        if left == 0 {
          return None;
        }
        left := left - 1;
        partial := partial * 64 + c % 0x40;
        if left == 0 {
          return Some(partial);
        }
      }
      return None;
    }

    /** teken_input */
    method Input(bytes: seq<byte>) returns (chars: seq<nat>)
      modifies `left, `partial
      ensures (Partial(left, partial), chars) == Characters(Partial(old(left), old(partial)), bytes, eightBit)
    {
      hide Next;
      chars := [];
      ghost var start := Partial(left, partial);
      var k := 0;
      ghost var whole := Characters(start, bytes, eightBit);
      assert bytes[0..] == bytes && [] + whole.1 == whole.1 && whole == (whole.0, whole.1);
      while k < |bytes|
        invariant 0 <= k <= |bytes|
        invariant var r := Characters(Partial(left, partial), bytes[k..], eightBit);
          Characters(start, bytes, eightBit) == (r.0, chars + r.1)
      {
        assert bytes[k..][1..] == bytes[k + 1..];
        ghost var r := Characters(Partial(left, partial), bytes[k..], eightBit);
        ghost var before := chars;
        var c := Byte(bytes[k]);
        ghost var q := Characters(Partial(left, partial), bytes[k + 1..], eightBit);
        assert r == (q.0, (if c.Some? then [c.value] else []) + q.1);
        if c.Some? {
          chars := chars + [c.value];
          assert before + ([c.value] + q.1) == chars + q.1;
        } else {
          assert before + ([] + q.1) == chars + q.1;
        }
        k := k + 1;
      }
      assert bytes[k..] == [] && chars + [] == chars;
    }
  }
}
