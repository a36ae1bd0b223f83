/** The line assembler of lib/vlu.c: bytes come in pieces, a callback gets the lines. */
module Vlu {
  import opened Words
  import opened Ascii

  // ------------------------------------------------ lines

  predicate IsBreak(c: byte) { c == LF || c == CR }

  /** What follows the last CR or LF. */
  function Tail(s: seq<byte>): (r: seq<byte>)
    ensures |r| <= |s|
  {
    if s == [] || IsBreak(s[|s| - 1]) then [] else Tail(s[..|s| - 1]) + [s[|s| - 1]]
  }

  /** What each CR and each LF ends. */
  function Lines(s: seq<byte>): seq<seq<byte>> {
    if s == [] then []
    else if IsBreak(s[|s| - 1]) then Lines(s[..|s| - 1]) + [Tail(s[..|s| - 1])]
    else Lines(s[..|s| - 1])
  }

  /** A line feed ends a line, a carriage return does, and nothing else. */
  lemma BreaksEnd(s: seq<byte>, c: byte)
    ensures Tail(s + [0x0a]) == [] && Lines(s + [0x0a]) == Lines(s) + [Tail(s)]
    ensures Tail(s + [0x0d]) == [] && Lines(s + [0x0d]) == Lines(s) + [Tail(s)]
    ensures c != 0x0a && c != 0x0d ==> Tail(s + [c]) == Tail(s) + [c] && Lines(s + [c]) == Lines(s)
  {
    assert (s + [0x0a])[..|s|] == s && (s + [0x0d])[..|s|] == s && (s + [c])[..|s|] == s;
  }

  /** The text made of `lines`, each with its `breaks[i]`, and `tail`. */
  function Unsplit(lines: seq<seq<byte>>, breaks: seq<byte>, tail: seq<byte>): seq<byte>
    requires |lines| == |breaks|
    decreases |lines|
  {
    if lines == [] then tail
    else
      var n := |lines| - 1;
      Unsplit(lines[..n], breaks[..n], lines[n] + [breaks[n]]) + tail
  }

  ghost predicate NoBreak(s: seq<byte>) { forall i :: 0 <= i < |s| ==> !IsBreak(s[i]) }

  /** The stream is the lines, each with the CR or LF that ended it, and the tail. */
  lemma {:induction false} SplitWhole(s: seq<byte>) returns (breaks: seq<byte>)
    ensures |breaks| == |Lines(s)| && (forall i :: 0 <= i < |breaks| ==> IsBreak(breaks[i]))
    ensures Unsplit(Lines(s), breaks, Tail(s)) == s
  {
    hide Unsplit;
    breaks := [];
    if s == [] {
      UnsplitNone();
    } else {
      var n := |s| - 1;
      var front, c := s[..n], s[n];
      assert s == front + [c];
      breaks := SplitWhole(front);
      if IsBreak(c) {
        UnsplitLine(Lines(front), breaks, Tail(front), c);
        breaks := breaks + [c];
      } else {
        UnsplitMore(Lines(front), breaks, Tail(front), [c]);
      }
    }
  }

  lemma UnsplitNone()
    ensures Unsplit([], [], []) == []
  {}

  lemma UnsplitLine(lines: seq<seq<byte>>, breaks: seq<byte>, line: seq<byte>, c: byte)
    requires |lines| == |breaks|
    ensures Unsplit(lines + [line], breaks + [c], []) == Unsplit(lines, breaks, line) + [c]
  {
    UnsplitMore(lines, breaks, line, [c]);
    assert (lines + [line])[..|lines|] == lines && (breaks + [c])[..|breaks|] == breaks;
  }

  /** No CR or LF is in any of them. */
  lemma {:induction false} PiecesUnbroken(s: seq<byte>)
    ensures NoBreak(Tail(s)) && forall i :: 0 <= i < |Lines(s)| ==> NoBreak(Lines(s)[i])
  {
    if s != [] { PiecesUnbroken(s[..|s| - 1]); }
  }

  lemma UnsplitMore(lines: seq<seq<byte>>, breaks: seq<byte>, tail: seq<byte>, more: seq<byte>)
    requires |lines| == |breaks|
    ensures Unsplit(lines, breaks, tail + more) == Unsplit(lines, breaks, tail) + more
  {}

  /** Where a stream is cut makes no difference. */
  lemma {:induction false} Resumes(a: seq<byte>, b: seq<byte>)
    ensures Tail(a + b) == Tail(Tail(a) + b)
    ensures Lines(a + b) == Lines(a) + Lines(Tail(a) + b)
    decreases |b|
  {
    if b == [] {
      assert a + b == a && Tail(a) + b == Tail(a);
      TailHasNone(a);
    } else {
      var n := |b| - 1;
      Resumes(a, b[..n]);
      assert (a + b)[..|a + b| - 1] == a + b[..n];
      assert (Tail(a) + b)[..|Tail(a) + b| - 1] == Tail(a) + b[..n];
    }
  }

  lemma {:induction false} TailHasNone(s: seq<byte>)
    ensures Tail(Tail(s)) == Tail(s) && Lines(Tail(s)) == []
  {
    if s != [] && !IsBreak(s[|s| - 1]) {
      TailHasNone(s[..|s| - 1]);
      var t := Tail(s);
      assert t[..|t| - 1] == Tail(s[..|s| - 1]);
    }
  }

  /** Before each byte of `s` the unfinished line is shorter than `limit`. */
  ghost predicate Fits(s: seq<byte>, limit: nat) { forall n :: 0 <= n < |s| ==> |Tail(s[..n])| < limit }

  ghost predicate AllShorter(lines: seq<seq<byte>>, limit: nat) { forall i :: 0 <= i < |lines| ==> |lines[i]| < limit }

  /** That is: each line is, and the tail is at most that long. */
  lemma {:induction false} FitsMeans(s: seq<byte>, limit: nat)
    ensures Fits(s, limit) <==> |Tail(s)| <= limit && AllShorter(Lines(s), limit)
  {
    hide Fits, AllShorter;
    if s == [] {
      NothingFits(limit);
    } else {
      var front, c := s[..|s| - 1], s[|s| - 1];
      assert s == front + [c];
      FitsMeans(front, limit);
      FitsMore(front, c, limit);
      OneMoreShorter(Lines(front), Tail(front), limit);
    }
  }

  lemma NothingFits(limit: nat)
    ensures Fits([], limit) && AllShorter([], limit)
  {}

  lemma OneMoreShorter(lines: seq<seq<byte>>, line: seq<byte>, limit: nat)
    ensures AllShorter(lines + [line], limit) <==> AllShorter(lines, limit) && |line| < limit
  {
    assert (lines + [line])[|lines|] == line;
    assert forall i :: 0 <= i < |lines| ==> (lines + [line])[i] == lines[i];
  }

  lemma FitsMore(s: seq<byte>, c: byte, limit: nat)
    ensures Fits(s + [c], limit) <==> Fits(s, limit) && |Tail(s)| < limit
  {
    hide Tail;
    var t := s + [c];
    assert t[..|s|] == s;
    assert forall n :: 0 <= n < |s| ==> t[..n] == s[..n];
  }

  lemma TailAcross(a: seq<byte>, b: seq<byte>, m: nat)
    requires m <= |b|
    ensures Tail((a + b)[..|a| + m]) == Tail((Tail(a) + b)[..|Tail(a)| + m])
  {
    assert (a + b)[..|a| + m] == a + b[..m] && (Tail(a) + b)[..|Tail(a)| + m] == Tail(a) + b[..m];
    Resumes(a, b[..m]);
  }

  lemma FitsBehindAt(a: seq<byte>, b: seq<byte>, limit: nat, n: nat)
    requires Fits(a + b, limit) && |Tail(a)| <= limit && n < |Tail(a) + b|
    ensures |Tail((Tail(a) + b)[..n])| < limit
  {
    hide Tail, Fits;
    if n >= |Tail(a)| {
      TailAcross(a, b, n - |Tail(a)|);
      FitsNow(a + b, |a| + n - |Tail(a)|, limit);
    }
  }

  lemma FitsTogetherAt(a: seq<byte>, b: seq<byte>, limit: nat, n: nat)
    requires Fits(a, limit) && Fits(Tail(a) + b, limit) && n < |a + b|
    ensures |Tail((a + b)[..n])| < limit
  {
    hide Tail, Fits;
    if n >= |a| {
      TailAcross(a, b, n - |a|);
      FitsNow(Tail(a) + b, |Tail(a)| + n - |a|, limit);
    } else {
      assert (a + b)[..n] == a[..n];
      FitsNow(a, n, limit);
    }
  }

  /** A stream fits if its front does and the rest does behind what the front leaves. */
  lemma FitsInTwo(a: seq<byte>, b: seq<byte>, limit: nat)
    ensures Fits(a + b, limit) <==> Fits(a, limit) && Fits(Tail(a) + b, limit)
  {
    hide Tail, Fits;
    if Fits(a + b, limit) {
      assert (a + b)[..|a|] == a;
      FitsPrefix(a + b, |a|, limit);
      FitsMeans(a, limit);
      var t := Tail(a) + b;
      forall n | 0 <= n < |t| ensures |Tail(t[..n])| < limit { FitsBehindAt(a, b, limit, n); }
      FitsIf(t, limit);
    }
    if Fits(a, limit) && Fits(Tail(a) + b, limit) {
      var s := a + b;
      forall n | 0 <= n < |s| ensures |Tail(s[..n])| < limit { FitsTogetherAt(a, b, limit, n); }
      FitsIf(s, limit);
    }
  }

  lemma {:induction false} Unbroken(s: seq<byte>)
    requires NoBreak(s)
    ensures Tail(s) == s && Lines(s) == []
  {
    if s != [] { Unbroken(s[..|s| - 1]); }
  }

  /** A piece without break, then a break. */
  lemma OneLine(s: seq<byte>, c: byte)
    requires NoBreak(s) && IsBreak(c)
    ensures Tail(s + [c]) == [] && Lines(s + [c]) == [s]
  {
    Unbroken(s);
    assert (s + [c])[..|s|] == s;
  }

  // ------------------------------------------------ the loop of VLU_Feed

  /** Between two passes: what the buffer holds and what of the data is left. */
  datatype Feeding = Feeding(held: seq<byte>, left: seq<byte>)

  function Room(f: Feeding, bufl: nat): (u: nat)
    requires |f.held| <= bufl
    ensures u <= |f.left| && |f.held| + u <= bufl
  {
    if |f.left| <= bufl - |f.held| then |f.left| else bufl - |f.held|
  }

  function Passed(f: Feeding, bufl: nat): (r: Feeding)
    requires |f.held| <= bufl
    ensures |r.held| <= bufl
  {
    var u := Room(f, bufl);
    Feeding(Tail(f.held + f.left[..u]), f.left[u..])
  }

  function After(held: seq<byte>, data: seq<byte>, bufl: nat, n: nat): (r: Feeding)
    requires |held| <= bufl
    ensures |r.held| <= bufl
  {
    if n == 0 then Feeding(held, data) else Passed(After(held, data, bufl, n - 1), bufl)
  }

  /** The loop comes to its end. */
  ghost predicate Returns(held: seq<byte>, data: seq<byte>, bufl: nat)
    requires |held| <= bufl
  {
    exists n: nat :: After(held, data, bufl, n).left == []
  }

  /** VLU_Feed returns if and only if the stream fits: no line fills the buffer, and the tail does no more than that. */
  lemma ReturnsExactly(held: seq<byte>, data: seq<byte>, bufl: nat)
    requires |held| <= bufl && NoBreak(held) && data != []
    ensures Returns(held, data, bufl) <==> Fits(held + data, bufl)
    ensures Fits(held + data, bufl) ==> After(held, data, bufl, |data|) == Feeding(Tail(held + data), [])
  {
    hide Tail, NoBreak, After, Fits;
    var s, n := held + data, |data|;
    if Fits(s, bufl) {
      Drains(held, data, bufl, n);
      InStep(held, data, bufl, n);
      assert s[..|s|] == s;
    } else {
      var m := Filled(s, bufl);
      forall n: nat ensures After(held, data, bufl, n).left != [] {
        Stuck(held, data, bufl, m, n);
      }
    }
  }

  lemma Filled(s: seq<byte>, limit: nat) returns (m: nat)
    requires !Fits(s, limit)
    ensures m < |s| && |Tail(s[..m])| >= limit
  {
    m :| 0 <= m < |s| && |Tail(s[..m])| >= limit;
  }

  /** The buffer holds the tail of what was taken of `s`. */
  ghost predicate Kept(f: Feeding, s: seq<byte>) {
    var p := |s| - |f.left|;
    p >= 0 && f.left == s[p..] && f.held == Tail(s[..p])
  }

  lemma PassedKeeps(f: Feeding, s: seq<byte>, bufl: nat)
    requires |f.held| <= bufl && Kept(f, s)
    ensures Kept(Passed(f, bufl), s)
  {
    hide Tail;
    var u, p := Room(f, bufl), |s| - |f.left|;
    Resumes(s[..p], f.left[..u]);
    assert s[..p] + f.left[..u] == s[..p + u] && f.left[u..] == s[p + u..];
  }

  /** After n passes the buffer holds the tail of what was taken. */
  lemma {:induction false} InStep(held: seq<byte>, data: seq<byte>, bufl: nat, n: nat)
    requires |held| <= bufl && NoBreak(held)
    ensures Kept(After(held, data, bufl, n), held + data) && |After(held, data, bufl, n).left| <= |data|
  {
    hide Kept, NoBreak;
    if n == 0 {
      KeptFirst(held, data);
    } else {
      InStep(held, data, bufl, n - 1);
      PassedKeeps(After(held, data, bufl, n - 1), held + data, bufl);
    }
  }

  lemma KeptFirst(held: seq<byte>, data: seq<byte>)
    requires NoBreak(held)
    ensures Kept(Feeding(held, data), held + data)
  {
    Unbroken(held);
    assert (held + data)[..|held|] == held && (held + data)[|held|..] == data;
  }

  lemma {:induction false} Drains(held: seq<byte>, data: seq<byte>, bufl: nat, n: nat)
    requires |held| <= bufl && NoBreak(held) && Fits(held + data, bufl)
    ensures var k := |After(held, data, bufl, n).left|; k == 0 || k + n <= |data|
  {
    hide Tail, NoBreak;
    if n > 0 {
      Drains(held, data, bufl, n - 1);
      InStep(held, data, bufl, n - 1);
    }
  }

  /** A line that has filled the buffer is never passed. */
  lemma {:induction false} Stuck(held: seq<byte>, data: seq<byte>, bufl: nat, m: nat, n: nat)
    requires |held| <= bufl && NoBreak(held)
    requires m < |held + data| && |Tail((held + data)[..m])| >= bufl
    ensures |held + data| - |After(held, data, bufl, n).left| <= m
  {
    hide Tail, NoBreak, Fits;
    var s := held + data;
    if n == 0 {
      TailWithin(s, 0, m);
    } else {
      Stuck(held, data, bufl, m, n - 1);
      InStep(held, data, bufl, n - 1);
      TailWithin(s, |s| - |After(held, data, bufl, n - 1).left|, m);
    }
  }

  lemma TailWithin(s: seq<byte>, p: nat, m: nat)
    requires p <= m <= |s|
    ensures |Tail(s[..m])| <= |Tail(s[..p])| + (m - p) && |Tail(s[..0])| == 0
  {
    hide Tail;
    NothingYet();
    assert s[..0] == [];
    assert s[..m] == s[..p] + s[p..m];
    Resumes(s[..p], s[p..m]);
  }

  /** The same for a stream that comes in pieces: every call returns if and only if the stream fits. */
  lemma {:induction false} AllReturnExactly(chunks: seq<seq<byte>>, bufl: nat)
    requires forall i :: 0 <= i < |chunks| ==> chunks[i] != []
    ensures AllReturn(chunks, bufl) <==> Fits(Flat(chunks), bufl)
    ensures AllReturn(chunks, bufl) ==> |Tail(Flat(chunks))| <= bufl
  {
    hide Tail, Fits, Returns;
    if chunks == [] {
      FitsMeans([], bufl);
      NothingYet();
    } else {
      var n := |chunks| - 1;
      var a, c := Flat(chunks[..n]), chunks[n];
      AllReturnExactly(chunks[..n], bufl);
      FitsInTwo(a, c, bufl);
      FitsMeans(a + c, bufl);
      if AllReturn(chunks[..n], bufl) {
        PiecesUnbroken(a);
        ReturnsExactly(Tail(a), c, bufl);
      }
    }
  }

  /** Each call of VLU_Feed returns, the first with an empty buffer. */
  ghost predicate AllReturn(chunks: seq<seq<byte>>, bufl: nat) {
    chunks == [] || (var n := |chunks| - 1;
      && AllReturn(chunks[..n], bufl)
      && |Tail(Flat(chunks[..n]))| <= bufl && Returns(Tail(Flat(chunks[..n])), chunks[n], bufl))
  }

  /** A buffer for two bytes and a line of three: the third is never taken, and the loop goes on. */
  lemma {:induction false} FeedHangs(n: nat)
    ensures !Returns([], [97, 98, 99], 2)
    ensures n > 0 ==> After([], [97, 98, 99], 2, n) == Feeding([97, 98], [99])
  {
    Unbroken([97, 98]);
    var data := [97, 98, 99];
    assert ([] + data)[..2] == [97, 98];
    ReturnsExactly([], data, 2);
    if n == 1 {
      assert After([], data, 2, 0) == Feeding([], data);
      assert Room(Feeding([], data), 2) == 2;
      assert [] + data[..2] == [97, 98];
    } else if n > 1 {
      FeedHangs(n - 1);
      assert [97, 98] + [99][..0] == [97, 98];
    }
  }

  /** But a tail that just fills the buffer is taken, though the next call will then not return. */
  lemma FeedFills()
    ensures Returns([], [97, 98], 2) && !Returns([97, 98], [10], 2)
  {
    var s := [97, 98];
    assert [] + s == s;
    Unbroken(s);
    FitsMeans(s, 2);
    ReturnsExactly([], s, 2);
    assert (s + [10])[..2] == s;
    ReturnsExactly(s, [10], 2);
  }

  // ------------------------------------------------ the assembler

  ghost predicate NulFree(s: seq<byte>) { forall i :: 0 <= i < |s| ==> s[i] != 0 }

  class Assembler {
    const buf: array<byte>
    const bufl: nat
    var bufp: nat
    var lines: seq<seq<byte>>     // the calls of the callback, which returns 0

    ghost predicate Sound()
      reads this, buf
    {
      buf.Length == bufl + 1 && bufp <= bufl && NulFree(buf[..bufp])
    }

    /** Between two calls there is no complete line in the buffer. */
    ghost predicate Valid()
      reads this, buf
    {
      Sound() && NoBreak(buf[..bufp])
    }

    /** VLU_New; `bufsiz` is what stdio calls BUFSIZ. */
    constructor (bufsize: nat, bufsiz: nat)
      requires bufsiz > 0
      ensures Valid() && fresh(buf) && bufl + 1 == (if bufsize == 0 then bufsiz else bufsize) && bufp == 0
      ensures lines == []
    {
      var n := if bufsize == 0 then bufsiz else bufsize;
      buf := new byte[n];
      bufl, bufp, lines := n - 1, 0, [];
    }

    /** The index of the first CR, LF or NUL from `p` on. */
    method FindBreak(p: nat) returns (q: nat)
      requires buf.Length == bufl + 1 && p <= bufp <= bufl && NulFree(buf[p..bufp]) && buf[bufp] == 0
      ensures p <= q <= bufp && NoBreak(buf[p..q]) && (q < bufp ==> IsBreak(buf[q]))
    {
      q := p;
      assert forall i :: p <= i < bufp ==> buf[i] == buf[p..bufp][i - p];
      while buf[q] != 0
        invariant p <= q <= bufp && NoBreak(buf[p..q])
        decreases bufp - q
      {
        if IsBreak(buf[q]) {
          return;
        }
        assert buf[p..q + 1] == buf[p..q] + [buf[q]];
        q := q + 1;
      }
    }

    /** LineUpProcess: the complete lines go to the callback, the rest to the front of the buffer. */
    method Process()
      requires Sound()
      modifies `bufp, `lines, buf
      ensures Valid() && buf[..bufp] == Tail(old(buf[..bufp])) && lines == old(lines) + Lines(old(buf[..bufp]))
    {
      hide Tail, Lines, NoBreak;
      ghost var all := buf[..bufp];
      buf[bufp] := 0;
      assert buf[..bufp] == all;
      var p := 0;
      NothingYet();
      assert all[..0] == [] && all[0..] == all;
      while buf[p] != 0
        invariant buf.Length == bufl + 1 && p <= bufp == |all| <= bufl && buf[bufp] == 0 && buf[p..bufp] == all[p..]
        invariant Tail(all[..p]) == [] && lines == old(lines) + Lines(all[..p])
        decreases bufp - p
      {
        var q := FindBreak(p);
        assert buf[p..q] == all[p..q] by {
          assert buf[p..q] == buf[p..bufp][..q - p] && all[p..q] == all[p..][..q - p];
        }
        if buf[q] == 0 {
          assert all[p..q] == all[p..];
          break;
        }
        assert buf[q] == buf[p..bufp][q - p] == all[q];
        LineTaken(all, p, q);
        assert buf[q + 1..bufp] == buf[p..bufp][q + 1 - p..] == all[p..][q + 1 - p..] == all[q + 1..];
        lines := lines + [buf[p..q]];
        buf[q] := 0;
        p := q + 1;
      }
      assert NoBreak(all[p..]) by { NothingYet(); }
      AllTaken(all, p);
      assert buf[p] != 0 ==> p < bufp;
      if buf[p] != 0 {
        var n := bufp - p;
        forall i | 0 <= i < n {
          buf[i] := buf[p + i];
        }
        bufp := n;
        buf[bufp] := 0;
        assert buf[..bufp] == all[p..];
      } else {
        assert all[p..] == [] by { AtEnd(all, p); }
        bufp := 0;
      }
    }
  
    /** One pass of the loop of VLU_Feed.  With the buffer full it takes nothing and changes nothing:
        a line that fills the buffer keeps VLU_Feed in its loop for good. */
    method Pass(ptr: seq<byte>) returns (u: nat)
      requires Valid() && NulFree(ptr)
      modifies `bufp, `lines, buf
      ensures Valid() && u == Room(Feeding(old(buf[..bufp]), ptr), bufl)
      ensures Feeding(buf[..bufp], ptr[u..]) == Passed(Feeding(old(buf[..bufp]), ptr), bufl)
      ensures var s := old(buf[..bufp]) + ptr[..u]; buf[..bufp] == Tail(s) && lines == old(lines) + Lines(s)
      ensures u == 0 ==> buf[..bufp] == old(buf[..bufp]) && lines == old(lines)
    {
      hide Tail, Lines, NoBreak;
      ghost var was := buf[..bufp];
      u := |ptr|;
      if u > bufl - bufp {
        u := bufl - bufp;
      }
      forall i | 0 <= i < u {
        buf[bufp + i] := ptr[i];
      }
      bufp := bufp + u;
      assert buf[..bufp] == was + ptr[..u];
      Process();
      Unbroken(was);
      assert was + [] == was;
    }

    /** VLU_Feed, where it returns (ReturnsExactly). */
    method Feed(data: seq<byte>)
      requires Valid() && NulFree(data) && |data| > 0 && Fits(buf[..bufp] + data, bufl)
      modifies `bufp, `lines, buf
      ensures Valid()
      ensures buf[..bufp] == Tail(old(buf[..bufp]) + data) && lines == old(lines) + Lines(old(buf[..bufp]) + data)
    {
      hide Tail, Lines, NoBreak, Fits;
      ghost var was, told := buf[..bufp], lines;
      Unbroken(was);
      assert was + data[..0] == was;
      var k := 0;
      while k < |data|
        invariant 0 <= k <= |data| && Valid()
        invariant buf[..bufp] == Tail(was + data[..k]) && lines == told + Lines(was + data[..k])
      {
        ghost var before := lines;
        assert (was + data)[..|was| + k] == was + data[..k];
        FitsNow(was + data, |was| + k, bufl);
        var u := Pass(data[k..]);
        assert data[k..][..u] == data[k..k + u];
        Resumes(was + data[..k], data[k..k + u]);
        assert was + data[..k] + data[k..k + u] == was + data[..k + u];
        k := k + u;
      }
      assert data[..k] == data;
    }

    /** However the stream comes in pieces, the callback sees its lines and the buffer holds the rest. */
    method FeedAll(chunks: seq<seq<byte>>)
      requires Valid() && bufp == 0 && lines == []
      requires (forall i :: 0 <= i < |chunks| ==> |chunks[i]| > 0) && NulFree(Flat(chunks)) && Fits(Flat(chunks), bufl)
      modifies `bufp, `lines, buf
      ensures Valid() && buf[..bufp] == Tail(Flat(chunks)) && lines == Lines(Flat(chunks))
    {
      hide Tail, Lines, NoBreak, Fits;
      var k := 0;
      NothingYet();
      assert Flat(chunks[..0]) == [];
      assert buf[..bufp] == [];
      while k < |chunks|
        invariant 0 <= k <= |chunks| && Valid()
        invariant buf[..bufp] == Tail(Flat(chunks[..k])) && lines == Lines(Flat(chunks[..k]))
      {
        FlatSplits(chunks, k);
        var before, c := Flat(chunks[..k]), chunks[k];
        FitsPrefix(Flat(chunks), |before + c|, bufl);
        FitsInTwo(before, c, bufl);
        Resumes(before, c);
        Feed(c);
        k := k + 1;
      }
      assert chunks[..k] == chunks;
    }
  }

  function Flat(chunks: seq<seq<byte>>): seq<byte> {
    if chunks == [] then [] else Flat(chunks[..|chunks| - 1]) + chunks[|chunks| - 1]
  }

  lemma {:induction false} FlatPrefix(chunks: seq<seq<byte>>, k: nat)
    requires k <= |chunks|
    ensures Flat(chunks[..k]) <= Flat(chunks)
  {
    if k < |chunks| {
      var front := chunks[..|chunks| - 1];
      FlatPrefix(front, k);
      assert front[..k] == chunks[..k];
    } else {
      assert chunks[..k] == chunks;
    }
  }

  lemma FlatSplits(chunks: seq<seq<byte>>, k: nat)
    requires k < |chunks| && NulFree(Flat(chunks))
    ensures Flat(chunks[..k + 1]) == Flat(chunks[..k]) + chunks[k] && NulFree(chunks[k])
    ensures var n := |Flat(chunks[..k]) + chunks[k]|;
      n <= |Flat(chunks)| && Flat(chunks)[..n] == Flat(chunks[..k]) + chunks[k]
  {
    var all, a, c := Flat(chunks), Flat(chunks[..k]), chunks[k];
    FlatPrefix(chunks, k + 1);
    assert chunks[..k + 1][..k] == chunks[..k];
    forall i | 0 <= i < |c| ensures c[i] != 0 {
      assert c[i] == (a + c)[|a| + i] == all[|a| + i];
    }
  }

  lemma FitsIf(s: seq<byte>, limit: nat)
    requires forall n :: 0 <= n < |s| ==> |Tail(s[..n])| < limit
    ensures Fits(s, limit)
  {}

  lemma FitsNow(s: seq<byte>, n: nat, limit: nat)
    requires Fits(s, limit) && n < |s|
    ensures |Tail(s[..n])| < limit
  {}

  lemma FitsPrefix(s: seq<byte>, n: nat, limit: nat)
    requires Fits(s, limit) && n <= |s|
    ensures Fits(s[..n], limit)
  {
    assert forall k :: 0 <= k < n ==> s[..n][..k] == s[..k];
  }

  lemma NothingYet()
    ensures Tail([]) == [] && Lines([]) == [] && NoBreak([])
  {}

  lemma AtEnd(all: seq<byte>, p: nat)
    requires p <= |all| && NulFree(all)
    ensures p == |all| || all[p..][0] != 0
  {}

  lemma LineTaken(all: seq<byte>, p: nat, q: nat)
    requires p <= q < |all| && NoBreak(all[p..q]) && IsBreak(all[q]) && Tail(all[..p]) == []
    ensures Tail(all[..q + 1]) == [] && Lines(all[..q + 1]) == Lines(all[..p]) + [all[p..q]]
  {
    hide Tail, Lines, NoBreak;
    var b := all[p..q] + [all[q]];
    assert all[..q + 1] == all[..p] + b;
    Resumes(all[..p], b);
    assert [] + b == b;
    OneLine(all[p..q], all[q]);
  }

  lemma AllTaken(all: seq<byte>, p: nat)
    requires p <= |all| && NoBreak(all[p..]) && Tail(all[..p]) == []
    ensures Tail(all) == all[p..] && Lines(all) == Lines(all[..p])
  {
    hide Tail, Lines, NoBreak;
    assert all == all[..p] + all[p..];
    Resumes(all[..p], all[p..]);
    assert [] + all[p..] == all[p..];
    Unbroken(all[p..]);
  }
}
