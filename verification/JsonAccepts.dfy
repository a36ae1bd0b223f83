/** Nothing but JSON texts is accepted: whatever is read was written by the grammar. */
module JsonAccepts {
  import opened Words
  import opened Ascii
  import opened Texts
  import opened JsonText
  import opened JsonGrammar

  lemma Cut(t: seq<byte>, i: nat, j: nat, k: nat)
    requires i <= j <= k <= |t|
    ensures t[i..k] == t[i..j] + t[j..k]
  {}

  lemma OneAt(t: seq<byte>, i: nat)
    requires i < |t|
    ensures t[i..i + 1] == [t[i]]
  {}

  /** White space and the character behind it. */
  lemma Skipped(t: seq<byte>, i: nat)
    requires i <= |t|
    ensures AllWs(t[i..SkipWs(t, i)])
  {}

  // ------------------------------------------------ strings

  lemma UNumberIs(t: seq<byte>, i: nat) returns (q: seq<byte>)
    requires i <= |t| && UNumber(t, i).Ok?
    ensures FourHex(q) && UNumber(t, i) == Ok(QuadOf(q), i + 6) && t[i..i + 6] == [BACKSLASH, 0x75] + q
  {
    q := t[i + 2..i + 6];
    assert t[i..i + 6] == [t[i], t[i + 1]] + q;
  }

  lemma PieceIs(t: seq<byte>, i: nat) returns (g: Glyph)
    requires i <= |t| && Piece(t, i).Ok? && At(t, i) != DQUOTE
    ensures GlyphOk(g) && t[i..Piece(t, i).next] == GlyphText(g)
  {
    hide UNumber, Utf8, Combined, Quad;
    if t[i] != BACKSLASH {
      g := Raw(t[i]);
    } else if At(t, i + 1) != 0x75 {
      g := Letter(t[i + 1]);
    } else {
      var q := UNumberIs(t, i);
      if IsHigh(QuadOf(q)) {
        var lo := UNumberIs(t, i + 6);
        g := Surrogates(q, lo);
        Cut(t, i, i + 6, i + 12);
      } else {
        g := Hex(q);
      }
    }
  }

  lemma {:induction false} CharsIs(t: seq<byte>, i: nat) returns (s: seq<Glyph>)
    requires i <= |t| && Chars(t, i).Ok?
    ensures GlyphsOk(s) && t[i..Chars(t, i).next] == GlyphsText(s) + [DQUOTE]
    decreases |t| - i
  {
    hide Piece, GlyphOk, GlyphText;
    if At(t, i) == DQUOTE {
      s := [];
    } else {
      var j := Piece(t, i).next;
      var g := PieceIs(t, i);
      var rest := CharsIs(t, j);
      s := [g] + rest;
      assert s[1..] == rest;
      Cut(t, i, j, Chars(t, i).next);
      assert GlyphText(g) + (GlyphsText(rest) + [DQUOTE]) == GlyphsText(s) + [DQUOTE];
    }
  }

  lemma StrIs(t: seq<byte>, i: nat) returns (ws: seq<byte>, s: seq<Glyph>)
    requires i <= |t| && Str(t, i).Ok?
    ensures AllWs(ws) && GlyphsOk(s) && t[i..Str(t, i).next] == ws + Quoted(s)
    ensures ws == t[i..SkipWs(t, i)]
  {
    hide Chars, GlyphsOk, GlyphsText;
    var j := SkipWs(t, i);
    ws := t[i..j];
    Skipped(t, i);
    s := CharsIs(t, j + 1);
    var k := Str(t, i).next;
    Cut(t, i, j, k);
    Cut(t, j, j + 1, k);
    OneAt(t, j);
  }

  // ------------------------------------------------ numbers

  lemma WholeIs(t: seq<byte>, i: nat) returns (neg: bool, w: seq<byte>)
    requires i <= |t| && Whole(t, i).Ok?
    ensures AllDigits(w) && w != [] && (w[0] == ZERO ==> |w| == 1)
    ensures t[i..Whole(t, i).next] == (if neg then [0x2d] else []) + w
  {
    neg := At(t, i) == 0x2d;
    var j := if neg then i + 1 else i;
    w := t[j..Whole(t, i).next];
    assert w[0] == t[j] && (|w| > 1 ==> w[1] == t[j + 1] && IsDigit(w[1]));
    Cut(t, i, j, Whole(t, i).next);
    assert t[i..j] == if neg then [0x2d] else [];
  }

  lemma FractionIs(t: seq<byte>, i: nat) returns (w: seq<byte>)
    requires i <= |t| && Fraction(t, i).Ok?
    ensures AllDigits(w) && t[i..Fraction(t, i).next] == if w == [] then [] else [0x2e] + w
  {
    w := if At(t, i) == 0x2e then t[i + 1..Fraction(t, i).next] else [];
  }

  lemma ExponentIs(t: seq<byte>, i: nat) returns (mark: byte, sign: seq<byte>, w: seq<byte>)
    requires i <= |t| && Exponent(t, i).Ok?
    ensures AllDigits(w) && (mark == 0x65 || mark == 0x45) && (sign == [] || sign == [0x2d] || sign == [0x2b])
    ensures t[i..Exponent(t, i).next] == if w == [] then [] else [mark] + (sign + w)
  {
    mark, sign, w := 0x65, [], [];
    if At(t, i) == 0x65 || At(t, i) == 0x45 {
      mark := t[i];
      var j := i + 1;
      if At(t, j) == 0x2d || At(t, j) == 0x2b {
        sign := [t[j]];
        j := j + 1;
      }
      w := t[j..Exponent(t, i).next];
    }
  }

  lemma NumberIs(t: seq<byte>, i: nat) returns (n: Num)
    requires i <= |t| && Number(t, i).Ok?
    ensures NumOk(n) && t[i..Number(t, i).next] == NumText(n)
  {
    hide Whole, Fraction, Exponent, AllDigits;
    var neg, w := WholeIs(t, i);
    var a := Whole(t, i).next;
    var f := FractionIs(t, a);
    var b := Fraction(t, a).next;
    var mark, sign, e := ExponentIs(t, b);
    var c := Exponent(t, b).next;
    n := Num(neg, w, f, mark, sign, e);
    Cut(t, i, a, c);
    Cut(t, a, b, c);
  }

  // ------------------------------------------------ values

  lemma ScalarIs(t: seq<byte>, i: nat) returns (d: Doc)
    requires i <= |t| && Scalar(t, i).Ok? && !IsWs(At(t, i))
    ensures DocOk(d) && t[i..Scalar(t, i).next] == Text(d)
  {
    hide Str, Number, NumOk, GlyphsOk, NumText, Quoted;
    if At(t, i) == DQUOTE {
      var ws, s := StrIs(t, i);
      assert SkipWs(t, i) == i;
      assert ws + Quoted(s) == Quoted(s);
      d := DString(s);
    } else if Spells(t, i, TRUE) {
      d := DTrue;
    } else if Spells(t, i, FALSE) {
      d := DFalse;
    } else if Spells(t, i, NULL) {
      d := DNull;
    } else {
      var n := NumberIs(t, i);
      d := DNumber(n);
    }
  }

  lemma {:induction false} ValueIs(t: seq<byte>, i: nat) returns (ws: seq<byte>, d: Doc)
    requires i <= |t| && Value(t, i).Ok?
    ensures AllWs(ws) && DocOk(d) && t[i..Value(t, i).next] == ws + Text(d)
    decreases |t| - i, 1
  {
    hide Value, Scalar, Elements, Members, AllWs, DocOk, Text;
    var j := SkipWs(t, i);
    ws := t[i..j];
    Skipped(t, i);
    ValueSkips(t, i);
    Cut(t, i, j, Value(t, i).next);
    if At(t, j) == LBRACKET {
      d := ArrayIs(t, j);
    } else if At(t, j) == LBRACE {
      d := ObjectIs(t, j);
    } else {
      d := ScalarIs(t, j);
    }
  }

  lemma {:induction false} ArrayIs(t: seq<byte>, i: nat) returns (d: Doc)
    requires i <= |t| && At(t, i) == LBRACKET && Value(t, i).Ok?
    ensures DocOk(d) && t[i..Value(t, i).next] == Text(d)
    decreases |t| - i, 0
  {
    hide Value, Elements, AllWs, ItemOk, ItemsText;
    ValueOfArray(t, i);
    var k, next := SkipWs(t, i + 1), Value(t, i).next;
    Skipped(t, i + 1);
    Cut(t, i, i + 1, next);
    OneAt(t, i);
    Cut(t, i + 1, k, next);
    if At(t, k) == RBRACKET {
      OneAt(t, k);
      d := DArray(t[i + 1..k], []);
    } else {
      var items := ElementsIs(t, k);
      var more := Widened(t[i + 1..k], items);
      d := DArray([], more);
      NoWs();
    }
  }

  lemma NoWs()
    ensures AllWs([])
  {}

  /** White space found in front belongs to the first element. */
  lemma Widened(ws: seq<byte>, items: seq<DItem>) returns (more: seq<DItem>)
    requires AllWs(ws) && items != [] && forall k :: 0 <= k < |items| ==> ItemOk(items[k])
    ensures more != [] && (forall k :: 0 <= k < |more| ==> ItemOk(more[k])) && ItemsText(more) == ws + ItemsText(items)
  {
    hide Text, DocOk;
    var it := items[0];
    var first := DItem(ws + it.before, it.doc, it.after);
    more := [first] + items[1..];
    assert more[1..] == items[1..];
    assert ItemText(first) == ws + ItemText(it);
    var rest := if |items| == 1 then [RBRACKET] else [COMMA] + ItemsText(items[1..]);
    assert ws + ItemText(it) + rest == ws + (ItemText(it) + rest);
  }

  /** A value and the white space up to `j`. */
  lemma {:induction false} ItemIs(t: seq<byte>, i: nat) returns (it: DItem)
    requires i <= |t| && Value(t, i).Ok?
    ensures ItemOk(it) && t[i..SkipWs(t, Value(t, i).next)] == ItemText(it)
    decreases |t| - i, 2
  {
    hide Value, AllWs, DocOk, Text;
    var ws, d := ValueIs(t, i);
    var n := Value(t, i).next;
    Skipped(t, n);
    Cut(t, i, n, SkipWs(t, n));
    it := DItem(ws, d, t[n..SkipWs(t, n)]);
  }

  lemma {:induction false} ElementsIs(t: seq<byte>, i: nat) returns (items: seq<DItem>)
    requires i <= |t| && Elements(t, i).Ok?
    ensures items != [] && (forall k :: 0 <= k < |items| ==> ItemOk(items[k]))
    ensures t[i..Elements(t, i).next] == ItemsText(items)
    decreases |t| - i, 3
  {
    hide Value, ItemOk, ItemText;
    var it := ItemIs(t, i);
    var j, next := SkipWs(t, Value(t, i).next), Elements(t, i).next;
    Cut(t, i, j, next);
    Cut(t, j, j + 1, next);
    OneAt(t, j);
    if At(t, j) == RBRACKET {
      items := [it];
    } else {
      var rest := ElementsIs(t, j + 1);
      items := [it] + rest;
      assert items[1..] == rest;
    }
  }

  lemma {:induction false} ObjectIs(t: seq<byte>, i: nat) returns (d: Doc)
    requires i <= |t| && At(t, i) == LBRACE && Value(t, i).Ok?
    ensures DocOk(d) && t[i..Value(t, i).next] == Text(d)
    decreases |t| - i, 0
  {
    hide Value, Members, AllWs, MemberOk, MembersText;
    ValueOfObject(t, i);
    var k, next := SkipWs(t, i + 1), Value(t, i).next;
    Skipped(t, i + 1);
    Cut(t, i, i + 1, next);
    OneAt(t, i);
    Cut(t, i + 1, k, next);
    if At(t, k) == RBRACE {
      OneAt(t, k);
      d := DObject(t[i + 1..k], []);
    } else {
      var members := MembersIs(t, k);
      var more := WidenedMembers(t[i + 1..k], members);
      d := DObject([], more);
      NoWs();
    }
  }

  lemma WidenedMembers(ws: seq<byte>, members: seq<DMember>) returns (more: seq<DMember>)
    requires AllWs(ws) && members != [] && forall k :: 0 <= k < |members| ==> MemberOk(members[k])
    ensures more != [] && (forall k :: 0 <= k < |more| ==> MemberOk(more[k]))
    ensures MembersText(more) == ws + MembersText(members)
  {
    hide ItemText, ItemOk, Quoted, GlyphsOk;
    var m := members[0];
    var first := DMember(ws + m.before, m.name, m.colon, m.item);
    more := [first] + members[1..];
    assert more[1..] == members[1..];
    assert MemberText(first) == ws + MemberText(m);
    var rest := if |members| == 1 then [RBRACE] else [COMMA] + MembersText(members[1..]);
    assert ws + MemberText(m) + rest == ws + (MemberText(m) + rest);
  }

  lemma PairSteps(t: seq<byte>, i: nat)
    requires i <= |t| && Pair(t, i).Ok?
    ensures Str(t, i).Ok?
    ensures var j := SkipWs(t, Str(t, i).next);
      j < |t| && t[j] == COLON && Value(t, j + 1).Ok? && Value(t, j + 1).next == Pair(t, i).next
  {
    hide Value, Str;
  }

  lemma {:induction false} PairIs(t: seq<byte>, i: nat) returns (m: DMember)
    requires i <= |t| && Pair(t, i).Ok?
    ensures MemberOk(m) && t[i..SkipWs(t, Pair(t, i).next)] == MemberText(m)
    decreases |t| - i, 3
  {
    hide Value, Str, Pair, AllWs, GlyphsOk, ItemOk, ItemText, Quoted;
    PairSteps(t, i);
    var ws, s := StrIs(t, i);
    var n := Str(t, i).next;
    var j := SkipWs(t, n);
    Skipped(t, n);
    var it := ItemIs(t, j + 1);
    var end := SkipWs(t, Pair(t, i).next);
    m := DMember(ws, s, t[n..j], it);
    Glued(t, i, n, j, end);
  }

  lemma Glued(t: seq<byte>, i: nat, n: nat, j: nat, end: nat)
    requires i <= n <= j < end <= |t|
    ensures t[i..end] == t[i..n] + (t[n..j] + ([t[j]] + t[j + 1..end]))
  {
    Cut(t, i, n, end);
    Cut(t, n, j, end);
    Cut(t, j, j + 1, end);
    OneAt(t, j);
  }

  lemma {:induction false} MembersIs(t: seq<byte>, i: nat) returns (members: seq<DMember>)
    requires i <= |t| && Members(t, i).Ok?
    ensures members != [] && (forall k :: 0 <= k < |members| ==> MemberOk(members[k]))
    ensures t[i..Members(t, i).next] == MembersText(members)
    decreases |t| - i, 4
  {
    hide Pair, MemberOk, MemberText;
    var m := PairIs(t, i);
    var j, next := SkipWs(t, Pair(t, i).next), Members(t, i).next;
    Cut(t, i, j, next);
    Cut(t, j, j + 1, next);
    OneAt(t, j);
    if At(t, j) == RBRACE {
      members := [m];
    } else {
      var rest := MembersIs(t, j + 1);
      members := [m] + rest;
      assert members[1..] == rest;
    }
  }

  /** The parser accepts exactly the JSON texts of RFC 8259 in which every surrogate is one of a pair.
      Bytes above 0x7f are taken as they are. */
  lemma AcceptsExactly(t: seq<byte>)
    ensures Parse(t).Ok? <==> exists it :: ItemOk(it) && t == ItemText(it)
  {
    hide Value, ItemOk, ItemText;
    if Parse(t).Ok? {
      var it := ItemIs(t, 0);
      assert t[0..|t|] == t;
      assert ItemOk(it) && t == ItemText(it);
    }
    forall it | ItemOk(it) && t == ItemText(it) ensures Parse(t).Ok? {
      ParseOf(it);
    }
  }
}
