/** The JSON parser of lib/vjsn.c, which overwrites its own copy of the text: strings are
    decoded in place, and the character behind every name, string and number becomes a NUL. */
module Vjsn {
  import opened Options
  import opened Words
  import opened Ascii
  import opened Texts
  import opened JsonText

  /** A vjsn_val: strings and names are kept as offsets into the buffer. */
  datatype Node =
    | NObject(members: seq<NMember>) | NArray(items: seq<Node>) | NString(b: nat, e: nat) | NNumber(b: nat)
    | NTrue | NFalse | NNull

  datatype NMember = NMember(b: nat, e: nat, value: Node)

  // ------------------------------------------------ what the buffer says

  /** A text of `s` in `lo..hi`, ended by a NUL. */
  ghost predicate Holds(raw: seq<byte>, b: nat, e: nat, s: seq<byte>, lo: nat, hi: nat) {
    lo <= b <= e < hi <= |raw| && raw[b..e] == s && raw[e] == 0
  }

  /** Node `n` stands for `tree`, all its texts being in `lo..hi`. */
  ghost predicate Denotes(raw: seq<byte>, n: Node, tree: Tree, lo: nat, hi: nat)
    decreases n
  {
    match n
    case NString(b, e) => tree.JString? && Holds(raw, b, e, tree.s, lo, hi)
    case NNumber(b) => tree.JNumber? && Holds(raw, b, b + |tree.lexeme|, tree.lexeme, lo, hi)
    case NArray(items) =>
      tree.JArray? && |items| == |tree.items| && forall i :: 0 <= i < |items| ==>
        Denotes(raw, items[i], tree.items[i], lo, hi)
    case NObject(members) =>
      tree.JObject? && |members| == |tree.members| && forall i :: 0 <= i < |members| ==>
        DenotesMember(raw, members[i], tree.members[i], lo, hi)
    case NTrue => tree.JTrue?
    case NFalse => tree.JFalse?
    case NNull => tree.JNull?
  }

  ghost predicate DenotesMember(raw: seq<byte>, m: NMember, member: Member, lo: nat, hi: nat)
    decreases m
  {
    Holds(raw, m.b, m.e, member.name, lo, hi) && Denotes(raw, m.value, member.value, lo, hi)
  }

  /** What is in `lo..hi` is the same. */
  ghost predicate Same(raw: seq<byte>, after: seq<byte>, lo: nat, hi: nat) {
    lo <= hi <= |raw| == |after| && forall k :: lo <= k < hi ==> after[k] == raw[k]
  }

  lemma HoldsLater(raw: seq<byte>, b: nat, e: nat, s: seq<byte>, lo: nat, hi: nat, after: seq<byte>, lo': nat, hi': nat)
    requires Holds(raw, b, e, s, lo, hi) && Same(raw, after, lo, hi) && lo' <= lo && hi <= hi' <= |after|
    ensures Holds(after, b, e, s, lo', hi')
  {
    assert after[b..e] == raw[b..e];
  }

  /** What was parsed stays what it is, whatever is written elsewhere. */
  lemma {:induction false} DenotesLater(raw: seq<byte>, n: Node, tree: Tree, lo: nat, hi: nat, after: seq<byte>,
                                        lo': nat, hi': nat)
    requires Denotes(raw, n, tree, lo, hi) && Same(raw, after, lo, hi) && lo' <= lo && hi <= hi' <= |after|
    ensures Denotes(after, n, tree, lo', hi')
    decreases n
  {
    hide Holds, Same;
    match n {
      case NString(b, e) => HoldsLater(raw, b, e, tree.s, lo, hi, after, lo', hi');
      case NNumber(b) => HoldsLater(raw, b, b + |tree.lexeme|, tree.lexeme, lo, hi, after, lo', hi');
      case NArray(items) =>
        forall i | 0 <= i < |items| ensures Denotes(after, items[i], tree.items[i], lo', hi') {
          DenotesLater(raw, items[i], tree.items[i], lo, hi, after, lo', hi');
        }
      case NObject(members) =>
        forall i | 0 <= i < |members| ensures DenotesMember(after, members[i], tree.members[i], lo', hi') {
          MemberLater(raw, members[i], tree.members[i], lo, hi, after, lo', hi');
        }
      case _ =>
    }
  }

  lemma {:induction false} MemberLater(raw: seq<byte>, m: NMember, member: Member, lo: nat, hi: nat,
                                       after: seq<byte>, lo': nat, hi': nat)
    requires DenotesMember(raw, m, member, lo, hi) && Same(raw, after, lo, hi) && lo' <= lo && hi <= hi' <= |after|
    ensures DenotesMember(after, m, member, lo', hi')
    decreases m
  {
    hide Holds, Same;
    HoldsLater(raw, m.b, m.e, member.name, lo, hi, after, lo', hi');
    DenotesLater(raw, m.value, member.value, lo, hi, after, lo', hi');
  }

  // ------------------------------------------------ what is written where

  /** From `p` on the buffer still holds the text. */
  ghost predicate Unread(raw: seq<byte>, text: seq<byte>, p: nat) {
    p <= |text| && |raw| == |text| + 1 && forall k :: p <= k <= |text| ==> raw[k] == At(text, k)
  }

  /** Only `lo..hi` is written. */
  ghost predicate Only(before: seq<byte>, after: seq<byte>, lo: nat, hi: nat) {
    lo <= hi <= |before| == |after| && after[..lo] == before[..lo] && after[hi..] == before[hi..]
  }

  lemma OnlyNothing(raw: seq<byte>, p: nat)
    requires p <= |raw|
    ensures Only(raw, raw, p, p)
  {}

  lemma OnlyBoth(a: seq<byte>, b: seq<byte>, c: seq<byte>, lo: nat, mid: nat, hi: nat)
    requires Only(a, b, lo, mid) && Only(b, c, mid, hi)
    ensures Only(a, c, lo, hi)
  {
    assert c[..lo] == c[..mid][..lo] == b[..mid][..lo] == b[..lo];
    assert b[hi..] == b[mid..][hi - mid..] == a[mid..][hi - mid..] == a[hi..];
  }

  lemma OnlyWrite(a: seq<byte>, b: seq<byte>, lo: nat, hi: nat, p: nat, x: byte, hi': nat)
    requires Only(a, b, lo, hi) && lo <= p < hi' && hi <= hi' <= |a|
    ensures Only(a, b[p := x], lo, hi')
  {
    assert b[hi'..] == b[hi..][hi' - hi..] == a[hi..][hi' - hi..] == a[hi'..];
  }

  lemma OnlySame(before: seq<byte>, after: seq<byte>, lo: nat, p: nat, p': nat)
    requires Only(before, after, p, p') && lo <= p
    ensures Same(before, after, lo, p)
  {
    assert forall k :: lo <= k < p ==> after[k] == after[..p][k] && before[k] == before[..p][k];
  }

  /** The NUL a number is waiting for has been written. */
  lemma Settles(before: seq<byte>, after: seq<byte>, n: Node, tree: Tree, lo: nat, p: nat, p': nat)
    requires Only(before, after, p, p') && lo <= p < p' && after[p] == 0
    requires Denotes(before[p := 0], n, tree, lo, p + 1)
    ensures Denotes(after, n, tree, lo, p')
  {
    OnlySame(before, after, lo, p, p');
    DenotesLater(before[p := 0], n, tree, lo, p + 1, after, lo, p');
  }

  // ------------------------------------------------ the parser

  class Parser {
    const raw: array<byte>
    ghost const text: seq<byte>
    var ptr: nat
    var err: Option<Msg>

    ghost predicate Ready()
      reads this, raw
    {
      err.None? && Unread(raw[..], text, ptr)
    }

    constructor (text: seq<byte>)
      ensures Ready() && fresh(raw) && this.text == text && ptr == 0
    {
      var p := new byte[|text| + 1];
      forall i | 0 <= i < |text| {
        p[i] := text[i];
      }
      p[|text|] := 0;
      raw, this.text, ptr, err := p, text, 0, None;
    }

    /** VJSN_EXPECT */
    method Expect(c: byte)
      requires Ready() && c != 0
      modifies this, raw
      ensures At(text, old(ptr)) != c ==> err == Some(Expected(c))
      ensures At(text, old(ptr)) == c ==> Ready() && ptr == old(ptr) + 1 <= |text|
      ensures At(text, old(ptr)) == c ==> Only(old(raw[..]), raw[..], old(ptr), ptr) && raw[old(ptr)] == 0
    {
      if raw[ptr] != c {
        err := Some(Expected(c));
        return;
      }
      raw[ptr] := 0;
      ptr := ptr + 1;
    }

    /** vjsn_skip_ws */
    method SkipSpace()
      requires Ready()
      modifies `ptr, raw
      ensures Ready() && ptr == SkipWs(text, old(ptr)) && Only(old(raw[..]), raw[..], old(ptr), ptr)
      ensures old(ptr) < ptr ==> raw[old(ptr)] == 0
    {
      hide Only;
      OnlyNothing(raw[..], ptr);
      while IsWs(raw[ptr])
        invariant Ready() && old(ptr) <= ptr && SkipWs(text, ptr) == SkipWs(text, old(ptr))
        invariant Only(old(raw[..]), raw[..], old(ptr), ptr) && (old(ptr) < ptr ==> raw[old(ptr)] == 0)
        decreases |text| - ptr
      {
        OnlyWrite(old(raw[..]), raw[..], old(ptr), ptr, ptr, 0, ptr + 1);
        raw[ptr] := 0;
        ptr := ptr + 1;
      }
    }
  
    /** vjsn_unumber */
    method UNum() returns (u: nat)
      requires Ready()
      modifies this, raw
      ensures UNumber(text, old(ptr)).Bad? ==> err == Some(UNumber(text, old(ptr)).msg)
      ensures UNumber(text, old(ptr)).Ok? ==>
        Ready() && Ok(u, ptr) == UNumber(text, old(ptr)) && Only(old(raw[..]), raw[..], old(ptr), ptr)
    {
      hide Only, IsHex, HexVal, Quad;
      u := 0;
      var start := ptr;
      Expect(BACKSLASH);
      if err.Some? {
        return;
      }
      ghost var mid := raw[..];
      Expect(0x75);
      if err.Some? {
        return;
      }
      OnlyBoth(old(raw[..]), mid, raw[..], start, start + 1, ptr);
      var i := 0;
      while i < 4
        invariant 0 <= i <= 4 && Ready() && ptr == start + 2 + i && Only(old(raw[..]), raw[..], start, start + 2)
        invariant HexRun(text, start + 2, i) && u == HexSum(text, start + 2, i)
      {
        u := u * 16;
        HexRunStops(text, start + 2, i);
        if !IsHex(raw[ptr]) {
          err := Some(IllegalU);
          return;
        }
        u := u + HexVal(raw[ptr]);
        ptr := ptr + 1;
        i := i + 1;
      }
      HexSumOfFour(text, start + 2);
      OnlyWider(old(raw[..]), raw[..], start, start + 2, ptr);
    }

    method Put(p: nat, bytes: seq<byte>)
      requires p + |bytes| <= raw.Length
      modifies raw
      ensures Only(old(raw[..]), raw[..], p, p + |bytes|) && raw[p..p + |bytes|] == bytes
    {
      forall i | 0 <= i < |bytes| {
        raw[p + i] := bytes[i];
      }
    }

    /** vjsn_unicode: the UTF-8 goes to `p`, which never gets ahead of what is read. */
    method UnicodeTo(p: nat) returns (q: nat)
      requires Ready() && p <= ptr
      modifies this, raw
      ensures Unicode(text, old(ptr)).Bad? ==> err == Some(Unicode(text, old(ptr)).msg)
      ensures Unicode(text, old(ptr)).Ok? ==>
        && Ready() && ptr == Unicode(text, old(ptr)).next && Only(old(raw[..]), raw[..], p, ptr)
        && p <= q < ptr && raw[p..q] == Unicode(text, old(ptr)).value
    {
      hide Only, Utf8, UNumber, Unread;
      q := p;
      ghost var start := ptr;
      var u1 := UNum();
      if err.Some? {
        return;
      }
      if 0xdc00 <= u1 <= 0xdfff {
        err := Some(LoneSecond);
        return;
      }
      if 0xd800 <= u1 <= 0xdc00 {
        ghost var mid, at := raw[..], ptr;
        var u2 := UNum();
        if err.Some? || u2 < 0xdc00 || u2 > 0xdfff {
          err := Some(BadPair);
          return;
        }
        OnlyBoth(old(raw[..]), mid, raw[..], start, at, ptr);
        u1 := Combined(u1, u2);
      }
      ghost var mid := raw[..];
      UnreadBounds(mid, text, ptr);
      Put(p, Utf8(u1));
      q := p + |Utf8(u1)|;
      OnlyThen(old(raw[..]), mid, raw[..], p, start, ptr, q);
      UnreadStill(mid, raw[..], text, p, q, ptr);
    }
  
    /** One byte to `p`, with `n` bytes read. */
    method Copy(p: nat, x: byte, n: nat)
      requires Ready() && p <= ptr && 1 <= n && ptr + n <= |text|
      modifies `ptr, raw
      ensures Ready() && ptr == old(ptr) + n && Only(old(raw[..]), raw[..], p, ptr) && raw[p..p + 1] == [x]
    {
      raw[p] := x;
      ptr := ptr + n;
    }

    /** The body of the loop of vjsn_string. */
    method PieceTo(p: nat) returns (q: nat)
      requires Ready() && p <= ptr
      modifies this, raw
      ensures Piece(text, old(ptr)).Bad? ==> err == Some(Piece(text, old(ptr)).msg)
      ensures Piece(text, old(ptr)).Ok? ==>
        && Ready() && ptr == Piece(text, old(ptr)).next && Only(old(raw[..]), raw[..], p, ptr)
        && p <= q <= ptr && raw[p..q] == Piece(text, old(ptr)).value
    {
      hide Only, Unicode;
      q := p;
      if raw[ptr] == 0 {
        err := Some(Unterminated);
        return;
      }
      if raw[ptr] <= 0x1f {
        err := Some(ControlChar);
        return;
      }
      if raw[ptr] != BACKSLASH {
        Copy(p, raw[ptr], 1);
        q := p + 1;
        return;
      }
      var c := raw[ptr + 1];
      if c == BACKSLASH || c == 0x2f || c == DQUOTE {
        Copy(p, c, 2);
      } else if c == 0x62 {
        Copy(p, 0x08, 2);
      } else if c == 0x66 {
        Copy(p, 0x0c, 2);
      } else if c == 0x74 {
        Copy(p, TAB, 2);
      } else if c == 0x6e {
        Copy(p, LF, 2);
      } else if c == 0x72 {
        Copy(p, CR, 2);
      } else if c == 0x75 {
        q := UnicodeTo(p);
        return;
      } else {
        err := Some(BadEscape);
        return;
      }
      q := p + 1;
    }

    /** The loop of vjsn_string: everything up to the closing quote is decoded to `b..p`. */
    method DecodeTo(b: nat) returns (p: nat, ghost s: seq<byte>)
      requires Ready() && b == ptr
      modifies this, raw
      ensures Chars(text, b).Bad? ==> err == Some(Chars(text, b).msg)
      ensures Chars(text, b).Ok? ==>
        && Ready() && Chars(text, b) == Ok(s, ptr + 1) && At(text, ptr) == DQUOTE
        && b <= p <= ptr < raw.Length && Only(old(raw[..]), raw[..], b, ptr) && raw[b..p] == s
    {
      hide Only, Piece, Chars, Unread;
      p, s := ptr, [];
      ghost var start := raw[..];
      UnreadAt(raw[..], text, ptr);
      OnlyNothing(start, ptr);
      BehindNone(Chars(text, b));
      while raw[ptr] != DQUOTE
        invariant Ready() && raw.Length == |text| + 1 && b <= p <= ptr <= |text| && raw[ptr] == At(text, ptr)
        invariant Only(start, raw[..], b, ptr) && raw[b..p] == s
        invariant Chars(text, b) == Behind(s, Chars(text, ptr))
        decreases |text| - ptr
      {
        CharsStep(text, ptr, s);
        ghost var mid, at := raw[..], ptr;
        var q := PieceTo(p);
        if err.Some? {
          return;
        }
        OnlyMore(start, mid, raw[..], b, p, at, ptr);
        SliceGrows(mid, raw[..], b, p, q, ptr);
        UnreadAt(raw[..], text, ptr);
        s := s + Piece(text, at).value;
        p := q;
      }
      CharsEnd(text, ptr, s);
    }

    /** vjsn_string: the string is decoded where it stands. */
    method ParseString() returns (b: nat, e: nat)
      requires Ready()
      modifies this, raw
      ensures Str(text, old(ptr)).Bad? ==> err == Some(Str(text, old(ptr)).msg)
      ensures Str(text, old(ptr)).Ok? ==>
        && Ready() && ptr == Str(text, old(ptr)).next && Only(old(raw[..]), raw[..], old(ptr), ptr)
        && Holds(raw[..], b, e, Str(text, old(ptr)).value, old(ptr), ptr)
    {
      hide Only, Chars, Unread, Holds;
      b, e := 0, 0;
      ghost var r0, p0 := raw[..], ptr;
      SkipSpace();
      ghost var r1, p1 := raw[..], ptr;
      Expect(DQUOTE);
      if err.Some? {
        return;
      }
      ghost var start := raw[..];
      OnlyBoth(r0, r1, start, p0, p1, ptr);
      b := ptr;
      var p;
      ghost var s;
      p, s := DecodeTo(b);
      if err.Some? {
        return;
      }
      ghost var mid, at := raw[..], ptr;
      Expect(DQUOTE);
      ghost var r2 := raw[..];
      OnlyBoth(start, mid, r2, b, at, ptr);
      raw[p] := 0;
      e := p;
      OnlyWrite(start, r2, b, ptr, p, 0, ptr);
      Finished(mid, r2, text, b, p, at, p0, s);
      OnlyBoth(r0, start, raw[..], p0, b, ptr);
    }
  
    method SkipDigits()
      requires Ready()
      modifies `ptr
      ensures Ready() && ptr == Digits(text, old(ptr))
    {
      while IsDigit(raw[ptr])
        invariant Ready() && Digits(text, ptr) == Digits(text, old(ptr))
        decreases |text| - ptr
      {
        ptr := ptr + 1;
      }
    }

    method SkipSomeDigits()
      requires Ready()
      modifies `ptr, `err
      ensures SomeDigits(text, old(ptr)).Bad? ==> err == Some(BadNumber)
      ensures SomeDigits(text, old(ptr)).Ok? ==> Ready() && ptr == SomeDigits(text, old(ptr)).next
    {
      if !IsDigit(raw[ptr]) {
        err := Some(BadNumber);
        return;
      }
      SkipDigits();
    }

    method SkipWhole()
      requires Ready()
      modifies `ptr, `err
      ensures Whole(text, old(ptr)).Bad? ==> err == Some(Whole(text, old(ptr)).msg)
      ensures Whole(text, old(ptr)).Ok? ==> Ready() && ptr == Whole(text, old(ptr)).next
    {
      hide SomeDigits;
      if raw[ptr] == 0x2d {
        ptr := ptr + 1;
      }
      NumberFails(text, ptr);
      if raw[ptr] == ZERO && IsDigit(raw[ptr + 1]) {
        err := Some(BadNumber);
        return;
      }
      SkipSomeDigits();
    }

    method SkipFraction()
      requires Ready()
      modifies `ptr, `err
      ensures Fraction(text, old(ptr)).Bad? ==> err == Some(Fraction(text, old(ptr)).msg)
      ensures Fraction(text, old(ptr)).Ok? ==> Ready() && ptr == Fraction(text, old(ptr)).next
    {
      hide SomeDigits;
      if raw[ptr] == 0x2e {
        ptr := ptr + 1;
        NumberFails(text, ptr);
        SkipSomeDigits();
      }
    }

    method SkipExponent()
      requires Ready()
      modifies `ptr, `err
      ensures Exponent(text, old(ptr)).Bad? ==> err == Some(Exponent(text, old(ptr)).msg)
      ensures Exponent(text, old(ptr)).Ok? ==> Ready() && ptr == Exponent(text, old(ptr)).next
    {
      hide SomeDigits;
      if raw[ptr] == 0x65 || raw[ptr] == 0x45 {
        ptr := ptr + 1;
        if raw[ptr] == 0x2d || raw[ptr] == 0x2b {
          ptr := ptr + 1;
        }
        NumberFails(text, ptr);
        SkipSomeDigits();
      }
    }

    /** vjsn_number: nothing is written yet. */
    method ParseNumber() returns (b: nat)
      requires Ready()
      modifies `ptr, `err
      ensures Number(text, old(ptr)).Bad? ==> err == Some(Number(text, old(ptr)).msg)
      ensures Number(text, old(ptr)).Ok? ==> Ready() && ptr == Number(text, old(ptr)).next && b == old(ptr)
    {
      hide Whole, Fraction, Exponent, Unread;
      b := ptr;
      UnreadBounds(raw[..], text, ptr);
      SkipWhole();
      if err.Some? {
        return;
      }
      SkipFraction();
      if err.Some? {
        return;
      }
      SkipExponent();
    }

    /** strncmp: the text at the position starts with `w`. */
    method Sees(w: seq<byte>) returns (yes: bool)
      requires Ready() && forall i :: 0 <= i < |w| ==> w[i] != 0
      ensures yes == Spells(text, ptr, w)
    {
      var i := 0;
      while i < |w|
        invariant 0 <= i <= |w| && ptr + i <= |text| && text[ptr..ptr + i] == w[..i]
      {
        if raw[ptr + i] != w[i] {
          NotSpelled(text, ptr, w, i);
          return false;
        }
        SpelledMore(text, ptr, w, i);
        i := i + 1;
      }
      assert w[..i] == w;
      return true;
    }
  
    /** A value without parts. */
    method ParseScalar() returns (n: Node)
      requires Ready()
      modifies this, raw
      ensures Scalar(text, old(ptr)).Bad? ==> err == Some(Scalar(text, old(ptr)).msg)
      ensures Scalar(text, old(ptr)).Ok? ==>
        && Ready() && ptr == Scalar(text, old(ptr)).next
        && Only(old(raw[..]), raw[..], old(ptr), ptr) && ptr < raw.Length
        && Denotes(raw[..][ptr := 0], n, Scalar(text, old(ptr)).value, old(ptr), ptr + 1)
    {
      hide Only, Unread, Str, Number, Spells, Holds;
      n := NNull;
      UnreadAt(raw[..], text, ptr);
      OnlyNothing(raw[..], ptr);
      if raw[ptr] == DQUOTE {
        var b, e := ParseString();
        n := NString(b, e);
        if err.None? {
          UnreadBounds(raw[..], text, ptr);
          HoldsLater(raw[..], b, e, Str(text, old(ptr)).value, old(ptr), ptr, raw[..][ptr := 0], old(ptr), ptr + 1);
        }
        return;
      }
      var yes := Sees(TRUE);
      if yes {
        Advance(TRUE);
        n := NTrue;
        return;
      }
      yes := Sees(FALSE);
      if yes {
        Advance(FALSE);
        n := NFalse;
        return;
      }
      yes := Sees(NULL);
      if yes {
        Advance(NULL);
        n := NNull;
        return;
      }
      if raw[ptr] == 0x2d || IsDigit(raw[ptr]) {
        var b := ParseNumber();
        n := NNumber(b);
        if err.None? {
          UnreadBounds(raw[..], text, ptr);
          OnlyWider(raw[..], raw[..], old(ptr), old(ptr), ptr);
          HoldsLexeme(raw[..], text, b, ptr);
        }
        return;
      }
      err := Some(Unrecognized);
    }

    method Advance(w: seq<byte>)
      requires Ready() && Spells(text, ptr, w)
      modifies `ptr
      ensures Ready() && ptr == old(ptr) + |w| < raw.Length && Only(raw[..], raw[..], old(ptr), ptr)
    {
      ptr := ptr + |w|;
    }
  
    /** vjsn_value.  A number is waiting for the NUL behind it. */
    method ParseValue() returns (n: Node)
      requires Ready()
      modifies this, raw
      ensures Value(text, old(ptr)).Bad? ==> err == Some(Value(text, old(ptr)).msg)
      ensures Value(text, old(ptr)).Ok? ==>
        && Ready() && ptr == Value(text, old(ptr)).next
        && Only(old(raw[..]), raw[..], old(ptr), ptr) && ptr < raw.Length
        && Denotes(raw[..][ptr := 0], n, Value(text, old(ptr)).value, old(ptr), ptr + 1)
      decreases |text| - ptr, 1
    {
      hide Only, Unread, Scalar, Denotes, Value;
      ghost var r0, p0 := raw[..], ptr;
      UnreadBounds(r0, text, p0);
      SkipSpace();
      ghost var r1, p1 := raw[..], ptr;
      UnreadAt(r1, text, p1);
      ValueSkips(text, p0);
      if raw[ptr] == LBRACE {
        n := ParseObject();
        if err.None? {
          UnreadBounds(raw[..], text, ptr);
          Deeper(r0, r1, raw[..], n, Value(text, p0).value, p0, p1, ptr);
        }
      } else if raw[ptr] == LBRACKET {
        n := ParseArray();
        if err.None? {
          UnreadBounds(raw[..], text, ptr);
          Deeper(r0, r1, raw[..], n, Value(text, p0).value, p0, p1, ptr);
        }
      } else {
        n := ParseScalar();
        if err.None? {
          OnlyBoth(r0, r1, raw[..], p0, p1, ptr);
          SameAll(raw[..][ptr := 0], p1, ptr + 1);
          DenotesLater(raw[..][ptr := 0], n, Value(text, p0).value, p1, ptr + 1, raw[..][ptr := 0], p0, ptr + 1);
        }
      }
    }

    /** vjsn_array */
    method ParseArray() returns (n: Node)
      requires Ready() && At(text, ptr) == LBRACKET
      modifies this, raw
      ensures Value(text, old(ptr)).Bad? ==> err == Some(Value(text, old(ptr)).msg)
      ensures Value(text, old(ptr)).Ok? ==>
        && Ready() && ptr == Value(text, old(ptr)).next && Only(old(raw[..]), raw[..], old(ptr), ptr)
        && Denotes(raw[..], n, Value(text, old(ptr)).value, old(ptr), ptr)
      decreases |text| - ptr, 0
    {
      hide Only, Unread, Value, Elements;
      n := NArray([]);
      ghost var r0, p0 := raw[..], ptr;
      UnreadBounds(r0, text, p0);
      ValueOfArray(text, p0);
      Expect(LBRACKET);
      ghost var r1, p1 := raw[..], ptr;
      SkipSpace();
      ghost var r2, p2 := raw[..], ptr;
      OnlyBoth(r0, r1, r2, p0, p1, p2);
      UnreadAt(r2, text, p2);
      if raw[ptr] != RBRACKET {
        var items := ParseElements();
        n := NArray(items);
        if err.None? {
          OnlyBoth(r0, r2, raw[..], p0, p2, ptr);
          AllLater(raw[..], items, Elements(text, p2).value, p2, ptr, p0);
        }
        return;
      }
      Expect(RBRACKET);
      OnlyBoth(r0, r2, raw[..], p0, p2, ptr);
    }

    /** What follows an element: the closing character, or a comma. */
    method Separate(close: byte) returns (closing: bool)
      requires Ready() && close != 0
      modifies this, raw
      ensures closing == (At(text, SkipWs(text, old(ptr))) == close)
      ensures if closing || At(text, SkipWs(text, old(ptr))) == COMMA
        then Ready() && ptr == SkipWs(text, old(ptr)) + 1 <= |text|
          && Only(old(raw[..]), raw[..], old(ptr), ptr) && raw[old(ptr)] == 0
        else err == Some(Expected(COMMA))
    {
      hide Only, Unread;
      ghost var r1, p1 := raw[..], ptr;
      SkipSpace();
      ghost var r2, p2 := raw[..], ptr;
      UnreadAt(r2, text, p2);
      closing := raw[ptr] == close;
      Expect(if closing then close else COMMA);
      if err.None? {
        Cleared(r1, r2, raw[..], p1, p2);
      }
    }

    /** The loop of vjsn_array, with the closing bracket. */
    method ParseElements() returns (items: seq<Node>)
      requires Ready()
      modifies this, raw
      ensures Elements(text, old(ptr)).Bad? ==> err == Some(Elements(text, old(ptr)).msg)
      ensures Elements(text, old(ptr)).Ok? ==>
        && Ready() && ptr == Elements(text, old(ptr)).next && Only(old(raw[..]), raw[..], old(ptr), ptr)
        && AllDenote(raw[..], items, Elements(text, old(ptr)).value, old(ptr), ptr)
      decreases |text| - ptr, 2
    {
      hide Only, Unread, Elements, Value, Denotes, AllDenote;
      items := [];
      ghost var start, p, trees: seq<Tree> := raw[..], ptr, [];
      OnlyNothingOf(start, text, p);
      AllOfNone(start, p);
      BehindNone(Elements(text, p));
      while true
        invariant Ready() && p <= ptr <= |text| && Only(start, raw[..], p, ptr)
        invariant AllDenote(raw[..], items, trees, p, ptr)
        invariant Elements(text, p) == Behind(trees, Elements(text, ptr))
        decreases |text| - ptr
      {
        ghost var r0, p0 := raw[..], ptr;
        ElementsStep(text, p0, trees);
        var n := ParseValue();
        if err.Some? {
          return;
        }
        ghost var r1, p1 := raw[..], ptr;
        var closing := Separate(RBRACKET);
        if err.Some? {
          return;
        }
        NewItem(r0, r1, raw[..], items, trees, n, Value(text, p0).value, p, p0, p1, ptr);
        OnlyBoth(start, r0, raw[..], p, p0, ptr);
        items := items + [n];
        trees := trees + [Value(text, p0).value];
        if closing {
          return;
        }
      }
    }

    method ParseObject() returns (n: Node)
      requires Ready() && At(text, ptr) == LBRACE
      modifies this, raw
      ensures Value(text, old(ptr)).Bad? ==> err == Some(Value(text, old(ptr)).msg)
      ensures Value(text, old(ptr)).Ok? ==>
        && Ready() && ptr == Value(text, old(ptr)).next && Only(old(raw[..]), raw[..], old(ptr), ptr)
        && Denotes(raw[..], n, Value(text, old(ptr)).value, old(ptr), ptr)
      decreases |text| - ptr, 0
    {
      hide Only, Unread, Value, Members;
      n := NObject([]);
      ghost var r0, p0 := raw[..], ptr;
      UnreadBounds(r0, text, p0);
      ValueOfObject(text, p0);
      Expect(LBRACE);
      ghost var r1, p1 := raw[..], ptr;
      SkipSpace();
      ghost var r2, p2 := raw[..], ptr;
      OnlyBoth(r0, r1, r2, p0, p1, p2);
      UnreadAt(r2, text, p2);
      if raw[ptr] != RBRACE {
        var members := ParseMembers();
        n := NObject(members);
        if err.None? {
          OnlyBoth(r0, r2, raw[..], p0, p2, ptr);
          MembersLater(raw[..], members, Members(text, p2).value, p2, ptr, p0);
        }
        return;
      }
      Expect(RBRACE);
      OnlyBoth(r0, r2, raw[..], p0, p2, ptr);
    }

    /** A name, a colon and a value. */
    method ParsePair() returns (m: NMember)
      requires Ready()
      modifies this, raw
      ensures Pair(text, old(ptr)).Bad? ==> err == Some(Pair(text, old(ptr)).msg)
      ensures Pair(text, old(ptr)).Ok? ==>
        && Ready() && ptr == Pair(text, old(ptr)).next && Only(old(raw[..]), raw[..], old(ptr), ptr) && ptr < raw.Length
        && DenotesMember(raw[..][ptr := 0], m, Pair(text, old(ptr)).value, old(ptr), ptr + 1)
      decreases |text| - ptr, 2
    {
      hide Only, Unread, Str, Value, Denotes, Holds;
      m := NMember(0, 0, NNull);
      ghost var r0, p0 := raw[..], ptr;
      UnreadBounds(r0, text, p0);
      var b, e := ParseString();
      if err.Some? {
        return;
      }
      ghost var r1, p1 := raw[..], ptr;
      SkipSpace();
      ghost var r2, p2 := raw[..], ptr;
      Expect(COLON);
      if err.Some? {
        return;
      }
      ghost var r3, p3 := raw[..], ptr;
      Cleared(r1, r2, r3, p1, p2);
      var n := ParseValue();
      if err.Some? {
        return;
      }
      m := NMember(b, e, n);
      Named(r0, r1, r3, raw[..], b, e, Str(text, p0).value, n, Value(text, p3).value, p0, p1, p3, ptr);
    }

    /** The loop of vjsn_object, with the closing brace. */
    method ParseMembers() returns (members: seq<NMember>)
      requires Ready()
      modifies this, raw
      ensures Members(text, old(ptr)).Bad? ==> err == Some(Members(text, old(ptr)).msg)
      ensures Members(text, old(ptr)).Ok? ==>
        && Ready() && ptr == Members(text, old(ptr)).next && Only(old(raw[..]), raw[..], old(ptr), ptr)
        && AllMembers(raw[..], members, Members(text, old(ptr)).value, old(ptr), ptr)
      decreases |text| - ptr, 3
    {
      hide Only, Unread, Members, Pair, DenotesMember, AllMembers;
      members := [];
      ghost var start, p, trees: seq<Member> := raw[..], ptr, [];
      OnlyNothingOf(start, text, p);
      NoMembers(start, p);
      BehindNone(Members(text, p));
      while true
        invariant Ready() && p <= ptr <= |text| && Only(start, raw[..], p, ptr)
        invariant AllMembers(raw[..], members, trees, p, ptr)
        invariant Members(text, p) == Behind(trees, Members(text, ptr))
        decreases |text| - ptr
      {
        ghost var r0, p0 := raw[..], ptr;
        MembersStep(text, p0, trees);
        var m := ParsePair();
        if err.Some? {
          return;
        }
        ghost var r1, p1 := raw[..], ptr;
        var closing := Separate(RBRACE);
        if err.Some? {
          return;
        }
        NewMember(r0, r1, raw[..], members, trees, m, Pair(text, p0).value, p, p0, p1, ptr);
        OnlyBoth(start, r0, raw[..], p, p0, ptr);
        members := members + [m];
        trees := trees + [Pair(text, p0).value];
        if closing {
          return;
        }
      }
    }

    /** vjsn_parse_end.  What is returned stands for the tree the text describes, with every name,
        string and number, ended by its NUL, in place in the buffer. */
    method ParseEnd() returns (n: Node)
      requires Ready() && ptr == 0
      modifies this, raw
      ensures Parse(text).Bad? ==> err == Some(Parse(text).msg)
      ensures Parse(text).Ok? ==> err.None? && ptr == |text| && Denotes(raw[..], n, Parse(text).value, 0, raw.Length)
    {
      hide Only, Unread, Value, Denotes;
      n := ParseValue();
      if err.Some? {
        return;
      }
      ghost var r1, p1 := raw[..], ptr;
      UnreadAt(r1, text, p1);
      SkipSpace();
      UnreadBounds(raw[..], text, ptr);
      if ptr != raw.Length - 1 {
        err := Some(Garbage);
        return;
      }
      LastSettles(r1, raw[..], text, n, Value(text, 0).value, p1, ptr);
    }
  }

  ghost predicate AllDenote(raw: seq<byte>, items: seq<Node>, trees: seq<Tree>, lo: nat, hi: nat) {
    |items| == |trees| && forall i :: 0 <= i < |items| ==> Denotes(raw, items[i], trees[i], lo, hi)
  }

  ghost predicate AllMembers(raw: seq<byte>, members: seq<NMember>, trees: seq<Member>, lo: nat, hi: nat) {
    |members| == |trees| && forall i :: 0 <= i < |members| ==> DenotesMember(raw, members[i], trees[i], lo, hi)
  }

  predicate HexRun(t: seq<byte>, i: nat, n: nat) {
    n == 0 || (HexRun(t, i, n - 1) && IsHex(At(t, i + n - 1)))
  }

  function HexSum(t: seq<byte>, i: nat, n: nat): nat
    requires HexRun(t, i, n)
  {
    if n == 0 then 0 else 16 * HexSum(t, i, n - 1) + HexVal(At(t, i + n - 1))
  }

  lemma HexRunStops(t: seq<byte>, i: nat, n: nat)
    requires HexRun(t, i, n) && n < 4
    ensures IsHex(At(t, i + n)) ==> i + n < |t|
    ensures !IsHex(At(t, i + n)) ==>
      !(IsHex(At(t, i)) && IsHex(At(t, i + 1)) && IsHex(At(t, i + 2)) && IsHex(At(t, i + 3)))
  {}

  lemma HexSumOfFour(t: seq<byte>, i: nat)
    requires HexRun(t, i, 4)
    ensures IsHex(At(t, i)) && IsHex(At(t, i + 1)) && IsHex(At(t, i + 2)) && IsHex(At(t, i + 3))
    ensures HexSum(t, i, 4) == Quad(At(t, i), At(t, i + 1), At(t, i + 2), At(t, i + 3))
  {
    assert HexRun(t, i, 3) && HexRun(t, i, 2) && HexRun(t, i, 1) && HexRun(t, i, 0);
    assert HexSum(t, i, 1) == HexVal(At(t, i));
    assert HexSum(t, i, 2) == 16 * HexVal(At(t, i)) + HexVal(At(t, i + 1));
    assert HexSum(t, i, 3) == 256 * HexVal(At(t, i)) + 16 * HexVal(At(t, i + 1)) + HexVal(At(t, i + 2));
  }

  lemma UnreadBounds(raw: seq<byte>, text: seq<byte>, p: nat)
    requires Unread(raw, text, p)
    ensures p <= |text| && |raw| == |text| + 1
  {}

  lemma OnlyWider(a: seq<byte>, b: seq<byte>, lo: nat, hi: nat, hi': nat)
    requires Only(a, b, lo, hi) && hi <= hi' <= |a|
    ensures Only(a, b, lo, hi')
  {
    assert b[hi'..] == b[hi..][hi' - hi..] == a[hi..][hi' - hi..] == a[hi'..];
  }

  /** Reading up to `hi` and then writing `p..q`, behind what is read. */
  lemma OnlyThen(a: seq<byte>, b: seq<byte>, c: seq<byte>, p: nat, start: nat, hi: nat, q: nat)
    requires Only(a, b, start, hi) && Only(b, c, p, q) && p <= start && q <= hi
    ensures Only(a, c, p, hi)
  {
    assert b[..p] == b[..start][..p] == a[..start][..p] == a[..p];
    assert c[hi..] == c[q..][hi - q..] == b[q..][hi - q..] == b[hi..];
  }

  lemma UnreadStill(before: seq<byte>, after: seq<byte>, text: seq<byte>, p: nat, q: nat, hi: nat)
    requires Unread(before, text, hi) && Only(before, after, p, q) && q <= hi
    ensures Unread(after, text, hi)
  {
    forall k | hi <= k <= |text| ensures after[k] == At(text, k) {
      assert after[k] == after[q..][k - q] == before[q..][k - q] == before[k];
    }
  }

  lemma UnreadAt(raw: seq<byte>, text: seq<byte>, p: nat)
    requires Unread(raw, text, p)
    ensures p <= |text| && |raw| == |text| + 1 && raw[p] == At(text, p)
  {}

  /** Writing from `p` on, behind the reading position `at`, and reading further. */
  lemma OnlyMore(a: seq<byte>, b: seq<byte>, c: seq<byte>, lo: nat, p: nat, at: nat, hi: nat)
    requires Only(a, b, lo, at) && Only(b, c, p, hi) && lo <= p <= at <= hi
    ensures Only(a, c, lo, hi)
  {
    assert c[..lo] == c[..p][..lo] == b[..p][..lo] == b[..lo];
    assert b[hi..] == b[at..][hi - at..] == a[at..][hi - at..] == a[hi..];
  }

  lemma SliceGrows(b: seq<byte>, c: seq<byte>, lo: nat, p: nat, q: nat, hi: nat)
    requires Only(b, c, p, hi) && lo <= p <= q <= hi
    ensures c[lo..q] == b[lo..p] + c[p..q]
  {
    assert c[lo..p] == c[..p][lo..] == b[..p][lo..] == b[lo..p];
    assert c[lo..q] == c[lo..p] + c[p..q];
  }

  /** The closing quote and then the NUL behind the decoded string are written. */
  lemma Finished(mid: seq<byte>, r2: seq<byte>, text: seq<byte>, b: nat, p: nat, at: nat, p0: nat, s: seq<byte>)
    requires Only(mid, r2, at, at + 1) && Unread(r2, text, at + 1) && p0 <= b <= p <= at && mid[b..p] == s
    ensures Unread(r2[p := 0], text, at + 1) && Holds(r2[p := 0], b, p, s, p0, at + 1)
  {
    OnlySame(mid, r2, b, at, at + 1);
    assert r2[p := 0][b..p] == mid[b..p];
  }

  lemma HoldsLexeme(raw: seq<byte>, text: seq<byte>, b: nat, p: nat)
    requires Unread(raw, text, b) && b <= p <= |text|
    ensures Holds(raw[p := 0], b, b + |text[b..p]|, text[b..p], b, p + 1)
  {
    assert raw[p := 0][b..p] == text[b..p] by {
      assert forall k :: b <= k < p ==> raw[k] == At(text, k);
    }
  }

  lemma SameAll(raw: seq<byte>, lo: nat, hi: nat)
    requires lo <= hi <= |raw|
    ensures Same(raw, raw, lo, hi)
  {}

  /** A value with parts, found behind white space. */
  lemma Deeper(r0: seq<byte>, r1: seq<byte>, r2: seq<byte>, n: Node, tree: Tree, p0: nat, p1: nat, p2: nat)
    requires Only(r0, r1, p0, p1) && Only(r1, r2, p1, p2) && Denotes(r2, n, tree, p1, p2) && p2 < |r2|
    ensures Only(r0, r2, p0, p2) && Denotes(r2[p2 := 0], n, tree, p0, p2 + 1)
  {
    OnlyBoth(r0, r1, r2, p0, p1, p2);
    DenotesLater(r2, n, tree, p1, p2, r2[p2 := 0], p0, p2 + 1);
  }

  lemma AllLater(raw: seq<byte>, items: seq<Node>, trees: seq<Tree>, lo: nat, hi: nat, lo': nat)
    requires AllDenote(raw, items, trees, lo, hi) && lo' <= lo <= hi <= |raw|
    ensures AllDenote(raw, items, trees, lo', hi)
  {
    hide Denotes;
    forall i | 0 <= i < |items| ensures Denotes(raw, items[i], trees[i], lo', hi) {
      DenotesLater(raw, items[i], trees[i], lo, hi, raw, lo', hi);
    }
  }

  lemma MembersLater(raw: seq<byte>, members: seq<NMember>, trees: seq<Member>, lo: nat, hi: nat, lo': nat)
    requires AllMembers(raw, members, trees, lo, hi) && lo' <= lo <= hi <= |raw|
    ensures AllMembers(raw, members, trees, lo', hi)
  {
    hide DenotesMember;
    forall i | 0 <= i < |members| ensures DenotesMember(raw, members[i], trees[i], lo', hi) {
      MemberLater(raw, members[i], trees[i], lo, hi, raw, lo', hi);
    }
  }

  lemma OnlyNothingOf(raw: seq<byte>, text: seq<byte>, p: nat)
    requires Unread(raw, text, p)
    ensures p <= |text| && Only(raw, raw, p, p)
  {}

  lemma AllOfNone(raw: seq<byte>, p: nat)
    ensures AllDenote(raw, [], [], p, p)
  {}

  lemma NoMembers(raw: seq<byte>, p: nat)
    ensures AllMembers(raw, [], [], p, p)
  {}

  /** White space and then a separator: either way the first byte is a NUL now. */
  lemma Cleared(r1: seq<byte>, r2: seq<byte>, r3: seq<byte>, p1: nat, p2: nat)
    requires Only(r1, r2, p1, p2) && (p1 < p2 ==> r2[p1] == 0) && Only(r2, r3, p2, p2 + 1) && r3[p2] == 0
    ensures Only(r1, r3, p1, p2 + 1) && r3[p1] == 0
  {
    OnlyBoth(r1, r2, r3, p1, p2, p2 + 1);
    if p1 < p2 { OnlySame(r2, r3, p1, p2, p2 + 1); }
  }

  lemma NewItem(r0: seq<byte>, r1: seq<byte>, r3: seq<byte>, items: seq<Node>, trees: seq<Tree>, n: Node, v: Tree,
                lo: nat, p0: nat, p1: nat, p3: nat)
    requires AllDenote(r0, items, trees, lo, p0) && lo <= p0 && Only(r0, r1, p0, p1)
    requires Only(r1, r3, p1, p3) && p1 < p3 && r3[p1] == 0 && Denotes(r1[p1 := 0], n, v, p0, p1 + 1)
    ensures Only(r0, r3, p0, p3) && AllDenote(r3, items + [n], trees + [v], lo, p3)
  {
    hide Denotes, Only;
    OnlyBoth(r0, r1, r3, p0, p1, p3);
    OnlySame(r0, r3, lo, p0, p3);
    SameBounds(r0, r3, p0, p3);
    SameBounds(r0, r1, p0, p1);
    Settles(r1, r3, n, v, p0, p1, p3);
    SameAll(r3, p0, p3);
    DenotesLater(r3, n, v, p0, p3, r3, lo, p3);
    forall i | 0 <= i < |items| ensures Denotes(r3, items[i], trees[i], lo, p3) {
      DenotesLater(r0, items[i], trees[i], lo, p0, r3, lo, p3);
    }
  }

  lemma SameBounds(a: seq<byte>, b: seq<byte>, lo: nat, hi: nat)
    requires Only(a, b, lo, hi)
    ensures lo <= hi <= |a| == |b|
  {}

  lemma NewMember(r0: seq<byte>, r1: seq<byte>, r3: seq<byte>, members: seq<NMember>, trees: seq<Member>, m: NMember,
                  v: Member,
                  lo: nat, p0: nat, p1: nat, p3: nat)
    requires AllMembers(r0, members, trees, lo, p0) && lo <= p0 && Only(r0, r1, p0, p1)
    requires Only(r1, r3, p1, p3) && p1 < p3 && r3[p1] == 0 && DenotesMember(r1[p1 := 0], m, v, p0, p1 + 1)
    ensures Only(r0, r3, p0, p3) && AllMembers(r3, members + [m], trees + [v], lo, p3)
  {
    hide DenotesMember, Only;
    OnlyBoth(r0, r1, r3, p0, p1, p3);
    OnlySame(r0, r3, lo, p0, p3);
    SameBounds(r0, r3, p0, p3);
    SameBounds(r0, r1, p0, p1);
    OnlySame(r1, r3, p0, p1, p3);
    MemberLater(r1[p1 := 0], m, v, p0, p1 + 1, r3, lo, p3);
    forall i | 0 <= i < |members| ensures DenotesMember(r3, members[i], trees[i], lo, p3) {
      MemberLater(r0, members[i], trees[i], lo, p0, r3, lo, p3);
    }
  }

  /** The name was parsed first; the colon and the value do not touch it. */
  lemma Named(r0: seq<byte>, r1: seq<byte>, r3: seq<byte>, r4: seq<byte>, b: nat, e: nat, name: seq<byte>, n: Node,
              v: Tree,
              p0: nat, p1: nat, p3: nat, p4: nat)
    requires Only(r0, r1, p0, p1) && Holds(r1, b, e, name, p0, p1) && Only(r1, r3, p1, p3)
    requires Only(r3, r4, p3, p4) && p4 < |r4| && Denotes(r4[p4 := 0], n, v, p3, p4 + 1)
    ensures Only(r0, r4, p0, p4) && DenotesMember(r4[p4 := 0], NMember(b, e, n), Member(name, v), p0, p4 + 1)
  {
    hide Only, Denotes, Holds;
    SameBounds(r0, r1, p0, p1);
    SameBounds(r1, r3, p1, p3);
    SameBounds(r3, r4, p3, p4);
    OnlyBoth(r0, r1, r3, p0, p1, p3);
    OnlyBoth(r0, r3, r4, p0, p3, p4);
    OnlyBoth(r1, r3, r4, p1, p3, p4);
    OnlySame(r1, r4, p0, p1, p4);
    HoldsLater(r1, b, e, name, p0, p1, r4[p4 := 0], p0, p4 + 1);
    SameAll(r4[p4 := 0], p3, p4 + 1);
    DenotesLater(r4[p4 := 0], n, v, p3, p4 + 1, r4[p4 := 0], p0, p4 + 1);
  }

  lemma LastSettles(r1: seq<byte>, r2: seq<byte>, text: seq<byte>, n: Node, v: Tree, p1: nat, p2: nat)
    requires Only(r1, r2, p1, p2) && (p1 < p2 ==> r2[p1] == 0) && Unread(r1, text, p1) && p2 == |text|
    requires Denotes(r1[p1 := 0], n, v, 0, p1 + 1)
    ensures Denotes(r2, n, v, 0, |r2|)
  {
    OnlySame(r1, r2, 0, p1, p2);
    assert r2[p1] == 0 by {
      if p1 == p2 { assert r2[p1] == r2[p1..][0] == r1[p1..][0] == r1[p1] == At(text, p1); }
    }
    DenotesLater(r1[p1 := 0], n, v, 0, p1 + 1, r2, 0, |r2|);
  }
}
